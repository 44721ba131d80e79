/**
 * The `Blockchain` that the older crate's miner uses. Its source file
 * (`src/blockchain/chain.rs`) is not part of this model; this is the
 * `blockchain` crate's append-only chain with string-data blocks, and the
 * genesis block's data, which is not known, is a parameter.
 */
module DataChain {
  import opened Words
  import opened Digests
  import opened DataBlocks

  class Blockchain {
    var blocks: seq<Block>

    /** `last_hash`: the hash of the final block, or the empty string for an empty list. */
    function LastHash(): string
      reads this`blocks, blocks
    {
      if blocks == [] then "" else blocks[|blocks| - 1].hash
    }

    /**
     * The linkage every honest chain has: block `i` carries index `i` (as the
     * `u32` that `len() as u32` gives) and the hash of block `i - 1`.
     */
    ghost predicate Linked()
      reads this`blocks, blocks
    {
      (forall i :: 0 <= i < |blocks| ==> blocks[i].index == AsU32(i)) &&
      (forall i :: 0 < i < |blocks| ==> blocks[i].prevHash == blocks[i - 1].hash)
    }

    /** `Blockchain::new`: the genesis block alone, index 0 and previous hash "0". */
    constructor New(sha: Sha256, genesisData: string, now: Timestamp)
      ensures |blocks| == 1 && fresh(blocks[0])
      ensures blocks[0].index == 0 && blocks[0].data == genesisData && blocks[0].prevHash == "0"
      ensures blocks[0].nonce == 0 && blocks[0].timestamp == now && blocks[0].Sealed(sha)
      ensures LastHash() == blocks[0].hash
      ensures Linked()
    {
      var genesis := new Block.New(sha, 0, genesisData, "0", now);
      blocks := [genesis];
    }

    /**
     * `add_block`: appends the block unchecked. The chain stays linked exactly
     * when it was linked and the block carries the next index and the old
     * last hash.
     */
    method AddBlock(block: Block)
      modifies this`blocks
      ensures blocks == old(blocks) + [block]
      ensures LastHash() == block.hash
      ensures Linked() <==>
                old(Linked()) && block.index == AsU32(|old(blocks)|) &&
                (old(blocks) != [] ==> block.prevHash == old(LastHash()))
    {
      var n := |blocks|;
      blocks := blocks + [block];
      assert blocks[n] == block;
      assert forall i :: 0 <= i < n ==> blocks[i] == old(blocks)[i];
    }
  }
}
