/**
 * The hashing shared by every block type: a SHA-256 digest as a string of
 * 64 characters, the proof-of-work prefix test, and the string a block hashes.
 * SHA-256 itself is not modelled: it is a parameter of type Sha256.
 */
module Digests {
  import opened Text

  /** `format!("{:x}", sha256(..))` always has 32 bytes, so 64 hex digits. */
  const DIGEST_LENGTH: nat := 64

  /** A digest as text; only its length matters to the model, not which hex digits it holds. */
  type Digest = s: string | |s| == DIGEST_LENGTH
    witness Zeros(DIGEST_LENGTH)

  /** SHA-256 of the UTF-8 bytes of a string, hex encoded: an uninterpreted function. */
  type Sha256 = string -> Digest

  /** A clock reading rendered by `to_rfc3339`; such a rendering is never empty. */
  type Timestamp = s: string | s != [] witness "1970-01-01T00:00:00+00:00"

  /** The mining target: `&hash[..d] == "0".repeat(d)`, with the slice in bounds. */
  predicate HasZeroPrefix(h: string, d: nat) {
    d <= |h| && h[..d] == Zeros(d)
  }

  /** `format!("{}{}{}{}{}", index, timestamp, payload, prev_hash, nonce)`. */
  function HashRecord(index: nat, timestamp: string, payload: string, prevHash: string, nonce: nat): string {
    Decimal(index) + timestamp + payload + prevHash + Decimal(nonce)
  }

  /** With every other field fixed, the record determines the nonce. */
  lemma RecordDeterminesNonce(index: nat, timestamp: string, payload: string, prevHash: string, n1: nat, n2: nat)
    requires HashRecord(index, timestamp, payload, prevHash, n1) == HashRecord(index, timestamp, payload, prevHash, n2)
    ensures n1 == n2
  {
    var front := Decimal(index) + timestamp + payload + prevHash;
    Cancel(front, Decimal(n1), Decimal(n2), []);
    DecimalInjective(n1, n2);
  }

  /** The hash never maps two of the given inputs to the same digest. */
  ghost predicate CollisionFreeOn(sha: Sha256, inputs: set<string>) {
    forall s, t :: s in inputs && t in inputs && s != t ==> sha(s) != sha(t)
  }

  /**
   * Changing only the nonce changes the hash, for a hash that has no collision
   * between the two records concerned.
   */
  lemma NonceChangesHash(sha: Sha256, index: nat, timestamp: string, payload: string, prevHash: string, n1: nat, n2: nat)
    requires n1 != n2
    requires CollisionFreeOn(sha, {HashRecord(index, timestamp, payload, prevHash, n1), HashRecord(index, timestamp, payload, prevHash, n2)})
    ensures sha(HashRecord(index, timestamp, payload, prevHash, n1)) != sha(HashRecord(index, timestamp, payload, prevHash, n2))
  {
    if HashRecord(index, timestamp, payload, prevHash, n1) == HashRecord(index, timestamp, payload, prevHash, n2) {
      RecordDeterminesNonce(index, timestamp, payload, prevHash, n1, n2);
      assert false;
    }
  }
}
