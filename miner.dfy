/**
 * `Miner` of the older crate (`src/blockchain/miner.rs`): a pool of pending
 * transactions and the step that turns the pool into the next mined block.
 * The crate's own `Transaction` type is not shown; the `blockchain` crate's
 * record stands in for it.
 */
module Miners {
  import opened Words
  import opened Digests
  import opened Transactions
  import opened DataBlocks
  import opened DataChain

  /** The data stored in place of the pool when `serde_json` fails. */
  const SERIALIZATION_ERROR: string := "Ошибка сериализации"

  /** The new block's data: the serialised pool, or the fallback text. */
  function PoolData(json: TxJson, pool: seq<Transaction>): string {
    JsonOr(json, pool, SERIALIZATION_ERROR)
  }

  class Miner {
    const blockchain: Blockchain
    var pendingTransactions: seq<Transaction>
    var difficulty: Usize

    /** `Miner::new`: a genesis-only chain, an empty pool and the given difficulty. */
    constructor New(sha: Sha256, difficulty: Usize, genesisData: string, now: Timestamp)
      ensures fresh(blockchain) && |blockchain.blocks| == 1 && fresh(blockchain.blocks[0])
      ensures blockchain.blocks[0].index == 0 && blockchain.blocks[0].prevHash == "0"
      ensures blockchain.blocks[0].data == genesisData && blockchain.blocks[0].timestamp == now
      ensures blockchain.blocks[0].nonce == 0 && blockchain.blocks[0].Sealed(sha)
      ensures blockchain.LastHash() == blockchain.blocks[0].hash
      ensures blockchain.Linked()
      ensures pendingTransactions == [] && this.difficulty == difficulty
    {
      blockchain := new Blockchain.New(sha, genesisData, now);
      pendingTransactions := [];
      this.difficulty := difficulty;
    }

    /** `add_transaction`: appends to the pool. */
    method AddTransaction(transaction: Transaction)
      modifies this`pendingTransactions
      ensures pendingTransactions == old(pendingTransactions) + [transaction]
    {
      pendingTransactions := pendingTransactions + [transaction];
    }

    /**
     * `mine_pending_transactions`: builds a block from the pool, with the old
     * chain length as index and the old last hash as previous hash, mines it,
     * appends it and clears the pool. A linked chain stays linked. `goal` is a
     * nonce known to meet the difficulty for that block, as `Block.Mine` needs.
     */
    method MinePendingTransactions(sha: Sha256, json: TxJson, now: Timestamp, ghost goal: nat)
      requires difficulty <= DIGEST_LENGTH
      requires goal <= MAX_U64
      requires HasZeroPrefix(sha(HashRecord(AsU32(|blockchain.blocks|), now, PoolData(json, pendingTransactions),
                                            blockchain.LastHash(), goal)), difficulty)
      modifies this`pendingTransactions, blockchain`blocks
      ensures |blockchain.blocks| == |old(blockchain.blocks)| + 1
      ensures blockchain.blocks[..|old(blockchain.blocks)|] == old(blockchain.blocks)
      ensures var tip := blockchain.blocks[|old(blockchain.blocks)|];
                fresh(tip) &&
                tip.index == AsU32(|old(blockchain.blocks)|) &&
                tip.prevHash == old(blockchain.LastHash()) &&
                tip.data == PoolData(json, old(pendingTransactions)) &&
                tip.timestamp == now &&
                tip.Sealed(sha) && HasZeroPrefix(tip.hash, difficulty)
      ensures pendingTransactions == []
      ensures old(blockchain.Linked()) ==> blockchain.Linked()
    {
      var data := PoolData(json, pendingTransactions);
      var index := AsU32(|blockchain.blocks|);
      var prevHash := blockchain.LastHash();
      ghost var wasLinked := blockchain.Linked();
      var block := new Block.New(sha, index, data, prevHash, now);
      block.Mine(sha, difficulty, goal);
      assert blockchain.Linked() == wasLinked && blockchain.LastHash() == prevHash;
      blockchain.AddBlock(block);
      pendingTransactions := [];
    }
  }
}
