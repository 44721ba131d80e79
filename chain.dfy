/**
 * `Blockchain` of `blockchain/chain.rs`: an append-only list of blocks that
 * starts with a genesis block and checks nothing when a block is added.
 */
module Chain {
  import opened Digests
  import opened Transactions
  import opened Blocks

  class Blockchain {
    var blocks: seq<Block>

    /** `last_hash`: the hash of the final block, or the empty string for an empty list. */
    function LastHash(): string
      reads this`blocks, blocks
    {
      if blocks == [] then "" else blocks[|blocks| - 1].hash
    }

    /**
     * `Blockchain::new`: exactly one block, the genesis block, with index 0,
     * no transactions and previous hash "0"; its hash is the chain's last hash.
     */
    constructor New(sha: Sha256, json: TxJson, now: Timestamp)
      ensures |blocks| == 1 && fresh(blocks[0])
      ensures blocks[0].index == 0 && blocks[0].transactions == [] && blocks[0].prevHash == "0"
      ensures blocks[0].nonce == 0 && blocks[0].timestamp == now && blocks[0].Sealed(sha, json)
      ensures LastHash() == blocks[0].hash
    {
      var genesis := new Block.New(sha, json, 0, [], "0", now);
      blocks := [genesis];
    }

    /**
     * `add_block`: appends the block as it is, whatever its index and previous
     * hash; the earlier blocks stay where they were and the block becomes the tip.
     */
    method AddBlock(block: Block)
      modifies this`blocks
      ensures blocks == old(blocks) + [block]
      ensures |blocks| == |old(blocks)| + 1
      ensures LastHash() == block.hash
    {
      blocks := blocks + [block];
    }
  }
}
