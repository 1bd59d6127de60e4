/** The two static helpers of the `Blockchain` class: `hash`, the SHA-256
    hex digest of a block's key-sorted JSON text, and `valid_proof`, the
    proof-of-work predicate. SHA-256 and the JSON encoder are foreign
    library calls; they enter as the fields of `Primitives`, of which
    nothing is assumed beyond being functions. */
module Hashing {
  import opened Records
  import opened Decimal

  /** `sha256Hex(s)` is `hashlib.sha256(s.encode()).hexdigest()`;
      `canonicalJson(b)` is `json.dumps(b, sort_keys=True)`. */
  datatype Primitives = Primitives(
    sha256Hex: string -> string,
    canonicalJson: Block -> string)

  /** Number of leading hex zeros a valid proof's digest must show. */
  const Difficulty: nat := 4
  /** The required prefix, "0000". */
  const Target: string := seq(Difficulty, _ => '0')

  /** `Blockchain.hash(block)`. */
  function BlockHash(h: Primitives, b: Block): string {
    h.sha256Hex(h.canonicalJson(b))
  }

  /** The puzzle input `f'{last_proof}{proof}'`. */
  function Guess(lastProof: int, proof: int): string {
    IntToDecimal(lastProof) + IntToDecimal(proof)
  }

  function Min(a: int, b: int): int {
    if a <= b then a else b
  }

  /** `Blockchain.valid_proof`: the first four characters of the digest of
      the guess, taken with Python's forgiving slice `[:4]`, equal "0000". */
  predicate ValidProof(h: Primitives, lastProof: int, proof: int) {
    var digest := h.sha256Hex(Guess(lastProof, proof));
    digest[..Min(Difficulty, |digest|)] == Target
  }

  /** `d` opens with at least `k` zero characters. */
  predicate LeadingZeros(d: string, k: nat) {
    |d| >= k && forall i :: 0 <= i < k ==> d[i] == '0'
  }

  /** Some non-negative proof solves the puzzle set by `lastProof`. */
  ghost predicate Solvable(h: Primitives, lastProof: int) {
    exists p: nat :: ValidProof(h, lastProof, p)
  }

  /** A proof is valid exactly when its digest starts with `Difficulty`
      zeros; a digest shorter than that never passes. */
  lemma ValidProofMeansLeadingZeros(h: Primitives, lastProof: int, proof: int)
    ensures ValidProof(h, lastProof, proof)
        <==> LeadingZeros(h.sha256Hex(Guess(lastProof, proof)), Difficulty)
  {
  }

  /** For a fixed previous proof, distinct candidates give distinct guess
      strings: the search never hashes the same input twice. */
  lemma GuessDeterminesProof(lastProof: int, p: int, q: int)
    requires Guess(lastProof, p) == Guess(lastProof, q)
    ensures p == q
  {
    var prefix := IntToDecimal(lastProof);
    assert IntToDecimal(p) == Guess(lastProof, p)[|prefix|..];
    assert IntToDecimal(q) == Guess(lastProof, q)[|prefix|..];
    DecimalInjective(p, q);
  }

  /** The guess does not separate the two proofs: `(1, 23)` and `(12, 3)`
      both hash "123", so one is valid exactly when the other is. */
  lemma GuessIsAmbiguous(h: Primitives)
    ensures Guess(1, 23) == Guess(12, 3) == "123"
    ensures ValidProof(h, 1, 23) == ValidProof(h, 12, 3)
  {
  }
}
