/**
  The commitment of a word and the private input of the proof that opens it.
  `hashWordWithCircuitLogic` encodes the word, folds the encoding, and applies
  Poseidon to the pair (fold, 0); `generateProof` hands the circuit the same
  encoding together with the stored commitment. Poseidon (with the conversion
  of its field element to an integer) belongs to a library outside this model
  and is a parameter of every member that uses it.
*/
module Commitment {
  import opened Encoding
  import opened Accumulation

  /** Poseidon over two field elements, followed by the conversion of its output to an integer. */
  type Hash2 = (nat, nat) -> nat

  /** The commitment of a word: Poseidon applied to the fold of its encoding and 0. */
  function HashWord(poseidon: Hash2, w: seq<CodeUnit>): nat {
    poseidon(Accum(Encode(w)), 0)
  }

  /** The hashing pipeline as the service runs it: encode, fold in a loop, hash. */
  method HashWordWithCircuitLogic(poseidon: Hash2, w: seq<CodeUnit>) returns (h: nat)
    ensures h == HashWord(poseidon, w)
    ensures h == poseidon(PositionalValue(Encode(w)), 0)
  {
    var asciiArr := ToAsciiArray20(w);
    var accum := Accumulate(asciiArr);
    h := poseidon(accum, 0);
  }

  /**
    Whatever the word, the value handed to Poseidon is below `66 * Base^Width`
    (about 6.6 * 10^61), however large its code units are.
  */
  lemma EncodedAccumBound(w: seq<CodeUnit>)
    ensures Accum(Encode(w)) < 66 * BasePow(Width)
  {
    AccumBound(Encode(w), 0xFFFF);
  }

  /** The empty word encodes to `Width` zeros, folds to 0, and commits to `poseidon(0, 0)`. */
  lemma EmptyWordCommitment(poseidon: Hash2)
    ensures Encode([]) == Zeros(Width)
    ensures Accum(Encode([])) == 0
    ensures HashWord(poseidon, []) == poseidon(0, 0)
  {
    AccumAllZero(Encode([]));
  }

  /** The commitment depends on the word only through its first `Width` code units. */
  lemma HashWordTruncation(poseidon: Hash2, w1: seq<CodeUnit>, w2: seq<CodeUnit>)
    requires w1[..Min(|w1|, Width)] == w2[..Min(|w2|, Width)]
    ensures HashWord(poseidon, w1) == HashWord(poseidon, w2)
  {
    EncodeAgreeingPrefixes(w1, w2);
  }

  /**
    When both encodings are digit vectors, two words with different encodings
    but equal commitments exhibit a collision of Poseidon itself: the folds
    that reach it differ.
  */
  lemma CommitmentCollisionIsPoseidonCollision(poseidon: Hash2, w1: seq<CodeUnit>, w2: seq<CodeUnit>)
    requires IsDigitVector(Encode(w1)) && IsDigitVector(Encode(w2))
    requires Encode(w1) != Encode(w2)
    requires HashWord(poseidon, w1) == HashWord(poseidon, w2)
    ensures Accum(Encode(w1)) != Accum(Encode(w2))
    ensures poseidon(Accum(Encode(w1)), 0) == poseidon(Accum(Encode(w2)), 0)
  {
    AccumInjective(Encode(w1), Encode(w2));
  }

  /**
    An idealised Poseidon on the values a fold of digits can take: distinct
    first arguments below `Base^Width` (second argument 0) never collide.
    Arguments at or above that bound are left free, so a hash that reduces
    its input modulo a field prime larger than `Base^Width` qualifies.
  */
  ghost predicate CollisionFree(poseidon: Hash2) {
    forall a: nat, b: nat ::
      a < BasePow(Width) && b < BasePow(Width) && poseidon(a, 0) == poseidon(b, 0) ==> a == b
  }

  /** The input `generateProof` gives the circuit: the private encoded word and the public stored commitment. */
  datatype CircuitInput = CircuitInput(word: seq<CodeUnit>, storedHash: nat)

  /** The circuit input built for `word` and the stored commitment `storedHash`. */
  function CircuitInputFor(w: seq<CodeUnit>, storedHash: nat): (input: CircuitInput)
    ensures |input.word| == Width
    ensures forall i :: 0 <= i < Min(|w|, Width) ==> input.word[i] == w[i]
    ensures forall i :: |w| <= i < Width ==> input.word[i] == 0
    ensures input.storedHash == storedHash
  {
    CircuitInput(Encode(w), storedHash)
  }

  /**
    The relation the word-check circuit enforces between its private word and
    its public stored commitment: the same encode-fold-hash composition.
  */
  predicate CircuitAccepts(poseidon: Hash2, input: CircuitInput) {
    |input.word| == Width && poseidon(Accum(input.word), 0) == input.storedHash
  }

  /**
    Hashing and proving agree on the preimage: the circuit input built for a
    word is accepted exactly when the stored commitment is that word's hash.
  */
  lemma ProverAgreesWithHasher(poseidon: Hash2, w: seq<CodeUnit>, storedHash: nat)
    ensures CircuitAccepts(poseidon, CircuitInputFor(w, storedHash)) <==> storedHash == HashWord(poseidon, w)
  {
  }

  /** Words that agree on their first `Width` code units yield the same circuit input. */
  lemma CircuitInputTruncation(w1: seq<CodeUnit>, w2: seq<CodeUnit>, storedHash: nat)
    requires w1[..Min(|w1|, Width)] == w2[..Min(|w2|, Width)]
    ensures CircuitInputFor(w1, storedHash) == CircuitInputFor(w2, storedHash)
  {
    EncodeAgreeingPrefixes(w1, w2);
  }

  /**
    As written, code units of 1000 and above carry into the neighbouring slot:
    "AϨ" (65, 1000) and "B" (66) have different encodings but fold to the
    same value, so their commitments agree for every Poseidon, even an ideal one.
  */
  lemma NonLatin1WordsCollide(poseidon: Hash2)
    ensures Encode([65, 1000]) != Encode([66])
    ensures Accum(Encode([65, 1000])) == Accum(Encode([66]))
    ensures HashWord(poseidon, [65, 1000]) == HashWord(poseidon, [66])
  {
    var e1, e2 := Encode([65, 1000]), Encode([66]);
    assert e1[1] == 1000 && e2[1] == 0;
    assert e1 == [65, 1000] + Zeros(Width - 2);
    assert e2 == [66, 0] + Zeros(Width - 2);
    AccumPadded([65, 1000], Width - 2);
    AccumPadded([66, 0], Width - 2);
    assert Accum([65, 1000]) == 66000 by {
      assert [65, 1000][..1] == [65];
      assert [65][..0] == [];
    }
    assert Accum([66, 0]) == 66000 by {
      assert [66, 0][..1] == [66];
      assert [66][..0] == [];
    }
  }

  datatype HashResult = Committed(value: nat) | Refused(error: EncodeError)

  /** Corrected commitment: words the corrected encoder rejects are refused instead of hashed. */
  function HashLatin1Word(poseidon: Hash2, w: seq<CodeUnit>): (r: HashResult)
    ensures r.Committed? <==> forall i :: 0 <= i < Min(|w|, Width) ==> w[i] <= MaxEncodedUnit
    ensures r.Committed? ==> r.value == HashWord(poseidon, w)
    ensures r.Refused? ==> r.error.index < Min(|w|, Width) && w[r.error.index] > MaxEncodedUnit
    ensures r.Refused? ==> forall i :: 0 <= i < r.error.index ==> w[i] <= MaxEncodedUnit
  {
    match EncodeLatin1(w)
    case Encoded(vector) => Committed(poseidon(Accum(vector), 0))
    case Rejected(error) => Refused(error)
  }

  /** The encoding of an accepted word is a digit vector. */
  lemma Latin1EncodingIsDigitVector(w: seq<CodeUnit>)
    requires EncodeLatin1(w).Encoded?
    ensures IsDigitVector(Encode(w))
  {
  }

  /**
    With the corrected commitment and an ideal Poseidon, two accepted words
    commit to the same value exactly when their encodings are equal; for
    NUL-free words of at most `Width` code units, exactly when they are equal.
  */
  lemma Latin1CommitmentBinding(poseidon: Hash2, w1: seq<CodeUnit>, w2: seq<CodeUnit>)
    requires CollisionFree(poseidon)
    requires HashLatin1Word(poseidon, w1).Committed? && HashLatin1Word(poseidon, w2).Committed?
    ensures HashLatin1Word(poseidon, w1) == HashLatin1Word(poseidon, w2) <==> Encode(w1) == Encode(w2)
    ensures |w1| <= Width && |w2| <= Width && NulFree(w1) && NulFree(w2) ==>
              (HashLatin1Word(poseidon, w1) == HashLatin1Word(poseidon, w2) <==> w1 == w2)
  {
    Latin1EncodingIsDigitVector(w1);
    Latin1EncodingIsDigitVector(w2);
    AccumBelowBasePow(Encode(w1));
    AccumBelowBasePow(Encode(w2));
    AccumInjective(Encode(w1), Encode(w2));
    if |w1| <= Width && |w2| <= Width && NulFree(w1) && NulFree(w2) {
      EncodeInjective(w1, w2);
    }
  }
}
