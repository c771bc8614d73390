# Word commitment core of the proof service

This project models the deterministic front half of `ProofService`, the
service that lets a user prove in zero knowledge that they know a secret word
whose hash equals a stored commitment.

- **Encoding** (`encoding.dfy`). `toAsciiArray20` turns a word into a vector of
  exactly 20 character codes. Slot `i` holds the UTF-16 code unit at position
  `i`. Slots past the end of the word are 0. Code units from index 20 on are
  dropped. A word is a `seq<CodeUnit>`, where a code unit is a `nat` below
  65536. The source does not restrict words to ASCII, so neither does the model.
- **Accumulation** (`accumulation.dfy`). The loop in `hashWordWithCircuitLogic`
  folds the vector left to right with `accum = accum * 1000 + code`, on
  unbounded integers. The model proves that the fold equals the positional
  value `sum of v[i] * 1000^(n-1-i)`. It also proves a bound on the fold. On
  vectors whose slots are all below 1000, it proves the fold is a bijection
  with the base-1000 digit vectors (`Digits` inverts it).
- **Commitment** (`commitment.dfy`). The commitment of a word is
  `Poseidon(accum(encode(word)), 0)`, mapped to an integer. Poseidon is a
  function-valued parameter of type `(nat, nat) -> nat`. `generateProof` gives
  the circuit the same encoded vector as its private `word`, plus the stored
  commitment. The model proves that the circuit relation holds for that input
  exactly when the stored commitment is the word's hash.

The word-check circuit itself is not part of this model. `CircuitAccepts`
states the relation it is meant to enforce. The source's method name
(`hashWordWithCircuitLogic`) and its comments describe that relation as the
same encode, fold and hash composition.

Two representation choices:

- The encoder is named for ASCII (`toAsciiArray20`, with the comment "ASCII 20"
  at src/proof/proof.service.ts:17), but it stores whatever `charCodeAt`
  returns, which is any UTF-16 code unit up to 65535. The model allows the
  full range; see Findings for what follows from it.
- The stored commitment is a decimal string in the source. The circuit input
  here carries the integer that string denotes. Parsing decimal strings is the
  proving backend's job and is not modelled.

## Model

| member | source | states |
|---|---|---|
| Encoding.Encode | src/proof/proof.service.ts:95-101 | the encoding has exactly 20 slots for every word, the empty word included; slot `i` is the code unit at `i` when `i` is inside the word and 0 otherwise |
| Encoding.ToAsciiArray20 | src/proof/proof.service.ts:95-101 | the fill-then-overwrite loop yields 20 slots, copies the first min(len, 20) code units, leaves every later slot 0, and agrees with the reference encoding |
| Encoding.EncodeTruncates | src/proof/proof.service.ts:97 | a word and its first 20 code units have the same encoding, so code units from index 20 on never affect it |
| Encoding.EncodeAgreeingPrefixes | src/proof/proof.service.ts:97-98 | two words that agree on their first 20 code units have equal encodings |
| Encoding.EncodeInjective | src/proof/proof.service.ts:95-101 | for NUL-free words of at most 20 code units, equal encodings hold exactly when the words are equal |
| Encoding.EncodeLatin1 | src/proof/proof.service.ts:95-101 | corrected encoder: it succeeds exactly when the first 20 code units are all at most 255, and then returns the source's encoding, all of whose slots are at most 255; otherwise it reports an index inside the first 20 whose code unit is above 255, with every earlier code unit at most 255 (the first offender), and that code unit |
| Accumulation.Accumulate | src/proof/proof.service.ts:20-24 | the accumulation loop computes the left fold `accum * 1000 + code` from 0, and this equals the positional value `sum of v[i] * 1000^(n-1-i)` |
| Accumulation.AccumIsPositionalValue | src/proof/proof.service.ts:21-24 | the fold equals the closed-form base-1000 positional sum for every vector |
| Accumulation.AccumAllZero | src/proof/proof.service.ts:21-24 | a vector of zeros folds to 0 |
| Accumulation.AccumPadded | src/proof/proof.service.ts:21-24 | appending k zero slots multiplies the fold by 1000^k |
| Accumulation.AccumBound | src/proof/proof.service.ts:21-24 | when every slot is at most m, 999 * accum is at most m * (1000^n - 1) |
| Accumulation.AccumBelowBasePow | src/proof/proof.service.ts:21-24 | when every slot is below 1000, the fold is below 1000^n (below 1000^20 for an encoded word) |
| Accumulation.DigitsOfAccum | src/proof/proof.service.ts:21-24 | reading the base-1000 digits of the fold of a digit vector gives the vector back |
| Accumulation.AccumOfDigits | src/proof/proof.service.ts:21-24 | folding the n base-1000 digits of a value below 1000^n gives the value back |
| Accumulation.AccumInjective | src/proof/proof.service.ts:21-24 | on equal-length vectors with every slot below 1000, equal folds hold exactly when the vectors are equal |
| Commitment.HashWordWithCircuitLogic | src/proof/proof.service.ts:16-36 | encoding, then the fold loop, then Poseidon(accum, 0) gives the commitment of the word, and the value hashed is the positional value of the encoding |
| Commitment.EncodedAccumBound | src/proof/proof.service.ts:18-24 | the value handed to Poseidon is below 66 * 1000^20 for every word, whatever its code units |
| Commitment.EmptyWordCommitment | src/proof/proof.service.ts:16-31 | the empty word encodes to 20 zeros, folds to 0 and commits to Poseidon(0, 0) |
| Commitment.HashWordTruncation | src/proof/proof.service.ts:18-31 | two words that share their first 20 code units have the same commitment, for every Poseidon |
| Commitment.CommitmentCollisionIsPoseidonCollision | src/proof/proof.service.ts:18-31 | if two words whose encodings are digit vectors have different encodings but equal commitments, then their folds differ and Poseidon collides on them |
| Commitment.CircuitInputFor | src/proof/proof.service.ts:55-60 | the circuit input's `word` has 20 slots holding the word's first code units and zeros after its end, and its stored commitment is passed through unchanged |
| Commitment.ProverAgreesWithHasher | src/proof/proof.service.ts:55-60 | the circuit relation holds for the input built for a word exactly when the stored commitment equals that word's hash, because hashing and proving use the same encoding |
| Commitment.CircuitInputTruncation | src/proof/proof.service.ts:55-60 | words that share their first 20 code units produce the same circuit input |
| Commitment.NonLatin1WordsCollide | src/proof/proof.service.ts:20-24 | as written, "AϨ" (65, 1000) and "B" (66) have different encodings but the same fold and the same commitment, for every Poseidon |
| Commitment.HashLatin1Word | src/proof/proof.service.ts:16-36 | corrected commitment: it is produced exactly when the first 20 code units are at most 255, and it then equals the source's commitment; otherwise it reports the first index inside the first 20 whose code unit is above 255 |
| Commitment.Latin1CommitmentBinding | src/proof/proof.service.ts:16-36 | if Poseidon(·, 0) does not collide on values below 1000^20 (the range of a fold of digits), two words accepted by the corrected commitment commit equally exactly when their encodings are equal; for NUL-free words of at most 20 code units, exactly when the words are equal |

## Left out

- Poseidon and `F.toObject` (src/proof/proof.service.ts:5, 28-33): a foreign library over a prime field whose parameters are not visible. Poseidon is the parameter `poseidon: (nat, nat) -> nat`. The model states no property of it beyond determinism. `CollisionFree` is an explicit hypothesis where it is used. It asks only for no collisions among first arguments below 1000^20, so a hash that reduces its input modulo a larger prime can meet it.
- The lazy construction of the Poseidon instance in the constructor and at first use (src/proof/proof.service.ts:9-14, 27-30): asynchronous initialisation with no logic to verify.
- `groth16.fullProve` and `groth16.verify` (src/proof/proof.service.ts:63-67, 87): opaque SNARK backend calls. Their soundness and completeness cannot be stated from this code. So `verifyProof` is not modelled, and `generateProof` is modelled only up to the circuit input it builds.
- Reading the circuit, proving-key and verification-key files, and `JSON.parse` of the verification key (src/proof/proof.service.ts:48-52, 82-84): file I/O.
- The try/catch blocks and `console.error` logging (src/proof/proof.service.ts:70-73, 89-92): they only replace any failure with a fixed error message.
- src/response/response-code.enum.ts: a string enum for HTTP responses, with no behaviour.
- Field reduction: the fold is handed to Poseidon as an unbounded integer. `EncodedAccumBound` shows the fold stays below 6.6 * 10^61. The field modulus is not visible in this code, so the model does not state that the fold is below it.
- Trailing NUL code units: "B" and "B" followed by NUL have the same encoding, because padding is also 0. This is inherent to zero padding, so `EncodeInjective` assumes NUL-free words.

## Findings

| source | as written | input that shows it | evidently intended | confidence | as-written member | corrected member |
|---|---|---|---|---|---|---|
| src/proof/proof.service.ts:20-24 | slots hold any UTF-16 code unit (up to 65535), but the fold uses base 1000, so a slot of 1000 or more carries into the slot before it | the words "AϨ" (code units 65, 1000) and "B" (66) fold to the same value, 66 * 1000^19, so they have the same commitment for any Poseidon | slots hold ASCII codes, as the name `toAsciiArray20` and the comment "ASCII 20" (line 17) say; every such code is below the base, so the fold and hence the commitment bind the encoding. The correction accepts codes up to 255 | medium, not executed | Commitment.NonLatin1WordsCollide | Commitment.HashLatin1Word |

The corrected path is `Encoding.EncodeLatin1` and `Commitment.HashLatin1Word`. It refuses words whose first 20 code units include one above 255. `Commitment.Latin1CommitmentBinding` proves that it binds the encoding whenever Poseidon does not collide on values below 1000^20. The source-faithful members above keep modelling the code as written.
