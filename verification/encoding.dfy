/**
  The fixed-width word encoding of the proof service: a word becomes a vector
  of exactly `Width` character codes, truncated or zero-filled, which is both
  hashed into a commitment and handed to the circuit as its private input.
*/
module Encoding {

  /** A UTF-16 code unit, the value `charCodeAt` yields for one position of a string. */
  type CodeUnit = c: nat | c < 0x1_0000

  /** Number of slots of an encoded word; the word width the circuit is compiled for. */
  const Width: nat := 20

  function Min(a: nat, b: nat): nat {
    if a <= b then a else b
  }

  /** `n` zero slots. */
  function Zeros(n: nat): (z: seq<CodeUnit>)
    ensures |z| == n
    ensures forall i :: 0 <= i < n ==> z[i] == 0
  {
    seq(n, i => 0)
  }

  /** The code the encoder puts in slot `i` for word `s`: the code unit at `i`, or 0 past the end. */
  function CodeAt(s: seq<CodeUnit>, i: nat): CodeUnit {
    if i < |s| then s[i] else 0
  }

  /**
    Reference definition of the encoding: the first `Width` code units of `s`
    followed by as many zeros as are needed to reach `Width` slots.
  */
  function Encode(s: seq<CodeUnit>): (e: seq<CodeUnit>)
    ensures |e| == Width
    ensures forall i :: 0 <= i < Width ==> e[i] == CodeAt(s, i)
  {
    if |s| >= Width then s[..Width] else s + Zeros(Width - |s|)
  }

  /**
    The encoder as the service runs it: start from `Width` zeros and overwrite
    slot `i` with the `i`-th code unit while both `i < |s|` and `i < Width`.
  */
  method ToAsciiArray20(s: seq<CodeUnit>) returns (arr: seq<CodeUnit>)
    ensures |arr| == Width
    ensures forall i :: 0 <= i < Min(|s|, Width) ==> arr[i] == s[i]
    ensures forall i :: |s| <= i < Width ==> arr[i] == 0
    ensures arr == Encode(s)
  {
    arr := Zeros(Width);
    var i := 0;
    while i < |s| && i < Width
      invariant i <= Min(|s|, Width)
      invariant |arr| == Width
      invariant forall j :: 0 <= j < i ==> arr[j] == s[j]
      invariant forall j :: i <= j < Width ==> arr[j] == 0
    {
      arr := arr[i := s[i]];
      i := i + 1;
    }
  }

  /** Only the first `Width` code units of a word reach its encoding. */
  lemma EncodeTruncates(s: seq<CodeUnit>)
    ensures Encode(s) == Encode(s[..Min(|s|, Width)])
  {
    var t := s[..Min(|s|, Width)];
    forall i | 0 <= i < Width
      ensures Encode(s)[i] == Encode(t)[i]
    {
      assert CodeAt(s, i) == CodeAt(t, i);
    }
  }

  /** Two words that agree on their first `Width` code units have the same encoding. */
  lemma EncodeAgreeingPrefixes(s: seq<CodeUnit>, t: seq<CodeUnit>)
    requires s[..Min(|s|, Width)] == t[..Min(|t|, Width)]
    ensures Encode(s) == Encode(t)
  {
    EncodeTruncates(s);
    EncodeTruncates(t);
  }

  /** Whether the word contains the NUL code unit, which the encoder cannot tell apart from padding. */
  predicate NulFree(s: seq<CodeUnit>) {
    forall i :: 0 <= i < |s| ==> s[i] != 0
  }

  /**
    On words of at most `Width` code units without NUL the encoding loses
    nothing: two such words have equal encodings exactly when they are equal.
  */
  lemma {:induction false} EncodeInjective(s: seq<CodeUnit>, t: seq<CodeUnit>)
    requires |s| <= Width && |t| <= Width
    requires NulFree(s) && NulFree(t)
    ensures Encode(s) == Encode(t) <==> s == t
  {
    if Encode(s) == Encode(t) {
      assert forall i :: 0 <= i < Width ==> (Encode(s)[i] != 0 <==> i < |s|);
      assert forall i :: 0 <= i < Width ==> (Encode(t)[i] != 0 <==> i < |t|);
      var m := Min(|s|, |t|);
      assert m < Width ==> (Encode(s)[m] != 0 <==> Encode(t)[m] != 0);
      assert |s| == |t|;
      assert forall i :: 0 <= i < |s| ==> s[i] == Encode(s)[i] == Encode(t)[i] == t[i];
    }
  }

  /** Largest code unit the corrected encoder accepts: ASCII and its 8-bit extension, all below the fold's base. */
  const MaxEncodedUnit: nat := 255

  datatype EncodeError = UnitOutOfRange(index: nat, unit: CodeUnit)

  datatype EncodeResult = Encoded(vector: seq<CodeUnit>) | Rejected(error: EncodeError)

  /** Index of the first of the first `Width` code units above `MaxEncodedUnit`, scanning from `from`. */
  function FirstOutOfRange(s: seq<CodeUnit>, from: nat): (k: nat)
    requires from <= Min(|s|, Width)
    ensures from <= k <= Min(|s|, Width)
    ensures forall i :: from <= i < k ==> s[i] <= MaxEncodedUnit
    ensures k < Min(|s|, Width) ==> s[k] > MaxEncodedUnit
    decreases Min(|s|, Width) - from
  {
    if from == Min(|s|, Width) then from
    else if s[from] > MaxEncodedUnit then from
    else FirstOutOfRange(s, from + 1)
  }

  /**
    Corrected encoder: as `Encode`, but a word whose first `Width` code units
    include one above `MaxEncodedUnit` is rejected, naming the first offender.
  */
  function EncodeLatin1(s: seq<CodeUnit>): (r: EncodeResult)
    ensures r.Encoded? <==> forall i :: 0 <= i < Min(|s|, Width) ==> s[i] <= MaxEncodedUnit
    ensures r.Encoded? ==> r.vector == Encode(s)
    ensures r.Encoded? ==> forall i :: 0 <= i < Width ==> r.vector[i] <= MaxEncodedUnit
    ensures r.Rejected? ==>
              && r.error.index < Min(|s|, Width)
              && r.error.unit == s[r.error.index]
              && r.error.unit > MaxEncodedUnit
    ensures r.Rejected? ==> forall i :: 0 <= i < r.error.index ==> s[i] <= MaxEncodedUnit
  {
    var k := FirstOutOfRange(s, 0);
    if k < Min(|s|, Width) then Rejected(UnitOutOfRange(k, s[k])) else Encoded(Encode(s))
  }
}
