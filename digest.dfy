/** The proof-of-work acceptance predicate, shared by mining and chain validation. */
module Digest {
  import opened Decimal

  /** SHA-256 of a text, as a lower-case hexadecimal digest. */
  type Sha256 = string -> string

  /** The number of leading '0' characters a digest must have. */
  const LeadingZeros: nat := 4

  /** `'0' * LeadingZeros`. */
  const Target: string := "0000"

  /** Python's slice `h[:n]`: the first `n` characters, or all of `h` when it is shorter. */
  function Prefix(h: string, n: nat): (p: string)
    ensures |p| == if |h| < n then |h| else n
    ensures p <= h
  {
    if |h| <= n then h else h[..n]
  }

  predicate HasLeadingZeros(h: string) {
    Prefix(h, LeadingZeros) == Target
  }

  /** A digest passes exactly when its first four characters exist and are all '0'. */
  lemma HasLeadingZerosChars(h: string)
    ensures HasLeadingZeros(h) <==> |h| >= LeadingZeros && forall k :: 0 <= k < LeadingZeros ==> h[k] == '0'
  {
  }

  /** `proof` seals a block whose predecessor has `previousProof`:
      the digest of `str(proof**2 - previousProof**2)` starts with four zeros. */
  predicate Accepts(sha256: Sha256, previousProof: int, proof: int) {
    HasLeadingZeros(sha256(IntToString(proof * proof - previousProof * previousProof)))
  }

  /** `proof` is the first value 1, 2, 3, ... that `Accepts`. */
  predicate IsLeastProof(sha256: Sha256, previousProof: int, proof: int) {
    proof >= 1 && Accepts(sha256, previousProof, proof) &&
    forall q :: 1 <= q < proof ==> !Accepts(sha256, previousProof, q)
  }

  /** The search result is determined by its input: every validator finds the same proof. */
  lemma LeastProofUnique(sha256: Sha256, previousProof: int, p: int, q: int)
    requires IsLeastProof(sha256, previousProof, p) && IsLeastProof(sha256, previousProof, q)
    ensures p == q
  {
  }
}
