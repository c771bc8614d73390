/**
  The accumulation step of the commitment: an encoded word is folded left to
  right into one integer by `accum := accum * Base + code`, starting from 0,
  on unbounded integers. The result is the base-`Base` positional value of the
  vector; it is injective on vectors whose slots are all below `Base`.
*/
module Accumulation {
  import opened Encoding

  /** The radix of the fold; the paired circuit hard-codes the same constant. */
  const Base: nat := 1000

  function BasePow(n: nat): (p: nat)
    ensures p >= 1
  {
    if n == 0 then 1 else Base * BasePow(n - 1)
  }

  /** Every slot is a digit of the base, i.e. below `Base`. */
  predicate IsDigitVector(v: seq<nat>) {
    forall i :: 0 <= i < |v| ==> v[i] < Base
  }

  /**
    The fold: the value of `accum` after processing `v` left to right with
    `accum := accum * Base + code`, starting from 0.
  */
  function Accum(v: seq<nat>): nat {
    if |v| == 0 then 0 else Accum(v[..|v| - 1]) * Base + v[|v| - 1]
  }

  /** Closed form of the fold: the sum of `v[i] * Base^(|v| - 1 - i)` over all slots `i`. */
  function PositionalValue(v: seq<nat>): nat {
    if |v| == 0 then 0 else v[0] * BasePow(|v| - 1) + PositionalValue(v[1..])
  }

  /** The accumulation loop as the service runs it over the encoded word. */
  method Accumulate(v: seq<nat>) returns (accum: nat)
    ensures accum == Accum(v)
    ensures accum == PositionalValue(v)
  {
    accum := 0;
    for i := 0 to |v|
      invariant accum == Accum(v[..i])
    {
      assert v[..i + 1][..i] == v[..i];
      accum := accum * Base + v[i];
    }
    assert v[..|v|] == v;
    AccumIsPositionalValue(v);
  }

  /** Appending a slot shifts the closed form by one position. */
  lemma {:induction false} PositionalValueSnoc(v: seq<nat>, x: nat)
    ensures PositionalValue(v + [x]) == PositionalValue(v) * Base + x
    decreases |v|
  {
    if |v| == 0 {
      assert v + [x] == [x];
      assert [x][1..] == [];
    } else {
      var n := |v|;
      assert (v + [x])[1..] == v[1..] + [x];
      PositionalValueSnoc(v[1..], x);
      calc {
        PositionalValue(v + [x]);
        v[0] * BasePow(n) + PositionalValue(v[1..] + [x]);
        v[0] * BasePow(n) + PositionalValue(v[1..]) * Base + x;
        { assert BasePow(n) == BasePow(n - 1) * Base; }
        v[0] * (BasePow(n - 1) * Base) + PositionalValue(v[1..]) * Base + x;
        (v[0] * BasePow(n - 1) + PositionalValue(v[1..])) * Base + x;
        PositionalValue(v) * Base + x;
      }
    }
  }

  /** The fold computes the closed-form positional value. */
  lemma {:induction false} AccumIsPositionalValue(v: seq<nat>)
    ensures Accum(v) == PositionalValue(v)
    decreases |v|
  {
    if |v| > 0 {
      var front := v[..|v| - 1];
      AccumIsPositionalValue(front);
      PositionalValueSnoc(front, v[|v| - 1]);
      assert front + [v[|v| - 1]] == v;
    }
  }

  /** An all-zero vector folds to 0; in particular the encoding of the empty word does. */
  lemma {:induction false} AccumAllZero(v: seq<nat>)
    requires forall i :: 0 <= i < |v| ==> v[i] == 0
    ensures Accum(v) == 0
    decreases |v|
  {
    if |v| > 0 {
      AccumAllZero(v[..|v| - 1]);
    }
  }

  /** Zero padding multiplies the value by a power of the base. */
  lemma {:induction false} AccumPadded(v: seq<nat>, k: nat)
    ensures Accum(v + Zeros(k)) == Accum(v) * BasePow(k)
    decreases k
  {
    if k > 0 {
      var u := v + Zeros(k);
      assert u[..|u| - 1] == v + Zeros(k - 1);
      AccumPadded(v, k - 1);
      assert u[|u| - 1] == 0;
      calc {
        Accum(u);
        Accum(v + Zeros(k - 1)) * Base;
        (Accum(v) * BasePow(k - 1)) * Base;
        Accum(v) * (BasePow(k - 1) * Base);
        Accum(v) * BasePow(k);
      }
    } else {
      assert v + Zeros(0) == v;
    }
  }

  /**
    Bound on the fold: when every slot is at most `m`, the value is at most
    `m * (Base^n - 1) / (Base - 1)`, the all-`m` vector of length `n`.
  */
  lemma {:induction false} AccumBound(v: seq<nat>, m: nat)
    requires forall i :: 0 <= i < |v| ==> v[i] <= m
    ensures (Base - 1) * Accum(v) <= m * (BasePow(|v|) - 1)
    decreases |v|
  {
    if |v| > 0 {
      var n := |v|;
      var front := v[..n - 1];
      AccumBound(front, m);
      var a := Accum(front);
      var p := BasePow(n - 1);
      calc {
        (Base - 1) * Accum(v);
        (Base - 1) * (a * Base + v[n - 1]);
        ((Base - 1) * a) * Base + (Base - 1) * v[n - 1];
      <=
        (m * (p - 1)) * Base + (Base - 1) * v[n - 1];
      <=
        (m * (p - 1)) * Base + (Base - 1) * m;
        m * (p * Base - 1);
        m * (BasePow(n) - 1);
      }
    }
  }

  /** A vector of digits folds to a value below `Base^|v|`. */
  lemma {:induction false} AccumBelowBasePow(v: seq<nat>)
    requires IsDigitVector(v)
    ensures Accum(v) < BasePow(|v|)
  {
    AccumBound(v, Base - 1);
  }

  /** The base-`Base` digits of `n`, most significant first, in `len` slots. */
  function Digits(n: nat, len: nat): (d: seq<nat>)
    ensures |d| == len
    ensures IsDigitVector(d)
  {
    if len == 0 then [] else Digits(n / Base, len - 1) + [n % Base]
  }

  /** Reading the digits back recovers a digit vector: `Digits` inverts the fold. */
  lemma {:induction false} DigitsOfAccum(v: seq<nat>)
    requires IsDigitVector(v)
    ensures Digits(Accum(v), |v|) == v
    decreases |v|
  {
    if |v| > 0 {
      var front := v[..|v| - 1];
      DigitsOfAccum(front);
      assert Accum(v) / Base == Accum(front);
      assert Accum(v) % Base == v[|v| - 1];
      assert front + [v[|v| - 1]] == v;
    }
  }

  /** Folding the digits of a value that fits in `len` slots gives the value back. */
  lemma {:induction false} AccumOfDigits(n: nat, len: nat)
    requires n < BasePow(len)
    ensures Accum(Digits(n, len)) == n
    decreases len
  {
    if len > 0 {
      var d := Digits(n, len);
      assert d[..len - 1] == Digits(n / Base, len - 1);
      AccumOfDigits(n / Base, len - 1);
    }
  }

  /** On digit vectors of equal length the fold is injective. */
  lemma {:induction false} AccumInjective(v: seq<nat>, w: seq<nat>)
    requires |v| == |w|
    requires IsDigitVector(v) && IsDigitVector(w)
    ensures Accum(v) == Accum(w) <==> v == w
  {
    DigitsOfAccum(v);
    DigitsOfAccum(w);
  }
}
