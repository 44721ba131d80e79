/**
 * `Block` of `blockchain/block.rs`: a batch of transactions, its chain
 * linkage, and a nonce and hash that proof-of-work updates in place.
 */
module Blocks {
  import opened Words
  import opened Text
  import opened Outcomes
  import opened Digests
  import opened Transactions
  import opened Balances

  /** The text hashed in place of the batch when `serde_json` fails. */
  const SERIALIZATION_ERROR: string := "serialization_error"

  /** The batch as it enters the hash record. */
  function TxData(json: TxJson, txs: seq<Transaction>): string {
    JsonOr(json, txs, SERIALIZATION_ERROR)
  }

  class Block {
    var index: U32
    var timestamp: Timestamp
    var prevHash: string
    var nonce: U64
    var hash: string
    var transactions: seq<Transaction>

    /** The hash this block would have with nonce `n` and every other field as it is. */
    function HashWith(sha: Sha256, json: TxJson, n: nat): Digest
      reads this`index, this`timestamp, this`transactions, this`prevHash
    {
      sha(HashRecord(index, timestamp, TxData(json, transactions), prevHash, n))
    }

    /** `calculate_hash`: the hash of index, timestamp, batch, previous hash and nonce. */
    function CalculateHash(sha: Sha256, json: TxJson): Digest
      reads this`index, this`timestamp, this`transactions, this`prevHash, this`nonce
    {
      HashWith(sha, json, nonce)
    }

    /** The stored `hash` agrees with the fields. */
    ghost predicate Sealed(sha: Sha256, json: TxJson)
      reads this
    {
      hash == CalculateHash(sha, json)
    }

    /** Nonce `n` does not meet the target. */
    ghost predicate Misses(sha: Sha256, json: TxJson, n: nat, difficulty: nat)
      reads this`index, this`timestamp, this`transactions, this`prevHash
    {
      !HasZeroPrefix(HashWith(sha, json, n), difficulty)
    }

    /** `Block::new`: nonce 0, the clock reading `now`, and the hash computed last. */
    constructor New(sha: Sha256, json: TxJson, index: U32, transactions: seq<Transaction>, prevHash: string, now: Timestamp)
      ensures this.index == index && this.transactions == transactions && this.prevHash == prevHash
      ensures timestamp == now && nonce == 0
      ensures Sealed(sha, json)
    {
      this.index := index;
      timestamp := now;
      this.prevHash := prevHash;
      nonce := 0;
      hash := "";
      this.transactions := transactions;
      new;
      hash := CalculateHash(sha, json);
    }

    /**
     * `mine`: raises the nonce one step at a time until the hash starts with
     * `difficulty` zeros. It stops at the first such nonce, and changes
     * nothing when the stored hash already meets the target. `goal` is a
     * nonce, no larger than `u64::MAX`, known to meet the target: without one
     * the source loops for ever or overflows the nonce. The loop steps local
     * copies of the nonce and hash and stores them when it ends; nothing reads
     * the block in between.
     */
    method Mine(sha: Sha256, json: TxJson, difficulty: nat, ghost goal: nat)
      requires Sealed(sha, json)
      requires difficulty <= DIGEST_LENGTH
      requires nonce <= goal <= MAX_U64 && HasZeroPrefix(HashWith(sha, json, goal), difficulty)
      modifies this`nonce, this`hash
      ensures Sealed(sha, json)
      ensures HasZeroPrefix(hash, difficulty)
      ensures old(nonce) <= nonce
      ensures forall n :: old(nonce) <= n < nonce ==> Misses(sha, json, n, difficulty)
      ensures HasZeroPrefix(old(hash), difficulty) ==> nonce == old(nonce) && hash == old(hash)
    {
      var n, h := nonce, hash;
      ghost var start, startHash := n, h;
      var target := Zeros(difficulty);
      while h[..difficulty] != target
        invariant h == HashWith(sha, json, n)
        invariant start <= n <= goal
        invariant n == start || !HasZeroPrefix(startHash, difficulty)
        invariant forall m :: start <= m < n ==> Misses(sha, json, m, difficulty)
        decreases goal - n
      {
        assert Misses(sha, json, n, difficulty);
        n := n + 1;
        h := HashWith(sha, json, n);
      }
      nonce, hash := n, h;
    }

    /**
     * `apply_block`: applies the batch to the ledger in order and returns the
     * first failure; transactions before it stay applied. The block is only read.
     */
    static method ApplyBlock(ledger: Ledger, block: Block) returns (r: Result<(), TransactionError>)
      modifies ledger
      ensures Replay(ledger.balances, r) == ReplayAll(old(ledger.balances), block.transactions)
    {
      var txs := block.transactions;
      var i := 0;
      while i < |txs|
        invariant 0 <= i <= |txs|
        invariant ReplayAll(old(ledger.balances), txs) == ReplayAll(ledger.balances, txs[i..])
      {
        assert txs[i..][0] == txs[i] && txs[i..][1..] == txs[i + 1..];
        r := ledger.ApplyTransaction(txs[i]);
        if r.Err? {
          return;
        }
        i := i + 1;
      }
      r := Ok(());
    }
  }

  /** The hash is a function of the five hashed fields alone; the stored hash is not one of them. */
  lemma HashDependsOnFieldsOnly(sha: Sha256, json: TxJson, a: Block, b: Block)
    requires a.index == b.index && a.timestamp == b.timestamp && a.transactions == b.transactions
    requires a.prevHash == b.prevHash && a.nonce == b.nonce
    ensures a.CalculateHash(sha, json) == b.CalculateHash(sha, json)
  {
  }
}
