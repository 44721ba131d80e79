/**
 * The second `Block` of the older top-level crate, which lives in
 * `src/blockchain/transaction.rs` despite the file's name: field for field
 * and line for line the string-data block of `src/blockchain/block.rs`, but
 * a distinct type.
 */
module DataBlockCopy {
  import opened Words
  import opened Text
  import opened Digests

  class Block {
    var index: U32
    var timestamp: Timestamp
    var data: string
    var prevHash: string
    var nonce: U64
    var hash: string

    /** The hash this block would have with nonce `n` and every other field as it is. */
    function HashWith(sha: Sha256, n: nat): Digest
      reads this`index, this`timestamp, this`data, this`prevHash
    {
      sha(HashRecord(index, timestamp, data, prevHash, n))
    }

    /** `calculate_hash`: the hash of index, timestamp, data, previous hash and nonce. */
    function CalculateHash(sha: Sha256): Digest
      reads this`index, this`timestamp, this`data, this`prevHash, this`nonce
    {
      HashWith(sha, nonce)
    }

    /** The stored `hash` agrees with the fields. */
    ghost predicate Sealed(sha: Sha256)
      reads this
    {
      hash == CalculateHash(sha)
    }

    /** Nonce `n` does not meet the target. */
    ghost predicate Misses(sha: Sha256, n: nat, difficulty: nat)
      reads this`index, this`timestamp, this`data, this`prevHash
    {
      !HasZeroPrefix(HashWith(sha, n), difficulty)
    }

    /**
     * `Block::new`: nonce 0, the clock reading `now` (never empty), and the
     * hash computed last, so it is never empty either.
     */
    constructor New(sha: Sha256, index: U32, data: string, prevHash: string, now: Timestamp)
      ensures this.index == index && this.data == data && this.prevHash == prevHash
      ensures timestamp == now && timestamp != [] && nonce == 0
      ensures Sealed(sha) && hash != []
    {
      this.index := index;
      timestamp := now;
      this.data := data;
      this.prevHash := prevHash;
      nonce := 0;
      hash := "";
      new;
      hash := CalculateHash(sha);
    }

    /**
     * `mine`: raises the nonce one step at a time until the hash starts with
     * `difficulty` zeros. It stops at the first such nonce, and changes
     * nothing when the stored hash already meets the target. `goal` is a
     * nonce, no larger than `u64::MAX`, known to meet the target: without one
     * the source loops for ever or overflows the nonce. The loop steps local
     * copies of the nonce and hash and stores them when it ends; nothing reads
     * the block in between.
     */
    method Mine(sha: Sha256, difficulty: nat, ghost goal: nat)
      requires Sealed(sha)
      requires difficulty <= DIGEST_LENGTH
      requires nonce <= goal <= MAX_U64 && HasZeroPrefix(HashWith(sha, goal), difficulty)
      modifies this`nonce, this`hash
      ensures Sealed(sha)
      ensures HasZeroPrefix(hash, difficulty)
      ensures old(nonce) <= nonce
      ensures forall n :: old(nonce) <= n < nonce ==> Misses(sha, n, difficulty)
      ensures HasZeroPrefix(old(hash), difficulty) ==> nonce == old(nonce) && hash == old(hash)
    {
      var n, h := nonce, hash;
      ghost var start, startHash := n, h;
      var target := Zeros(difficulty);
      while h[..difficulty] != target
        invariant h == HashWith(sha, n)
        invariant start <= n <= goal
        invariant n == start || !HasZeroPrefix(startHash, difficulty)
        invariant forall m :: start <= m < n ==> Misses(sha, m, difficulty)
        decreases goal - n
      {
        assert Misses(sha, n, difficulty);
        n := n + 1;
        h := HashWith(sha, n);
      }
      nonce, hash := n, h;
    }
  }
}
