/** The in-memory chain (BlockChain.go): a slice of blocks that starts at a
    genesis block and grows by one linked block per AddBlock. */
module Chain {
  import opened Encoding
  import opened Blocks

  const GenesisData: Bytes := Ascii("Genesis Block")

  class BlockChain {
    var Blocks: seq<Block>

    /** The chain's invariant: the first block links to nothing, and every
        other block's PrevHash is the Hash of the block before it. */
    ghost predicate Linked()
      reads this, Blocks
    {
      && |Blocks| > 0
      && Blocks[0].PrevHash == []
      && forall i :: 0 < i < |Blocks| ==> Blocks[i].PrevHash == Blocks[i - 1].Hash
    }

    constructor (blocks: seq<Block>)
      ensures Blocks == blocks
    {
      Blocks := blocks;
    }

    /** AddBlock, with the clock reading `now` passed in. It reads the last
        block, so the chain must not be empty. */
    method AddBlock(data: Bytes, now: int64)
      requires |Blocks| > 0
      modifies this
      ensures |Blocks| == |old(Blocks)| + 1
      ensures Blocks[..|old(Blocks)|] == old(Blocks)
      ensures var last := Blocks[|Blocks| - 1];
        && fresh(last)
        && last.PrevHash == old(Blocks[|Blocks| - 1].Hash)
        && last.Data == data && last.Timestamp == now
        && last.Hash == BlockHash(data, now)
      ensures old(Linked()) ==> Linked()
    {
      var prevBlock := Blocks[|Blocks| - 1];
      var newBlock := NewBlock(data, prevBlock.Hash, now);
      Blocks := Blocks + [newBlock];
    }
  }

  /** NewGenesisBlock: the block with data "Genesis Block" and no predecessor. */
  method NewGenesisBlock(now: int64) returns (b: Block)
    ensures fresh(b)
    ensures b.Data == GenesisData && b.PrevHash == [] && b.Timestamp == now
    ensures b.Hash == BlockHash(GenesisData, now)
  {
    b := NewBlock(GenesisData, [], now);
  }

  method NewBlockChain(now: int64) returns (bc: BlockChain)
    ensures fresh(bc)
    ensures |bc.Blocks| == 1 && fresh(bc.Blocks[0])
    ensures bc.Blocks[0].Data == GenesisData && bc.Blocks[0].PrevHash == []
    ensures bc.Linked()
  {
    var genesis := NewGenesisBlock(now);
    bc := new BlockChain([genesis]);
  }

  /** The commented-out driver of BlockChain.go: a new chain and two
      AddBlock calls give three blocks, still linked. */
  method BuildChain(d1: Bytes, d2: Bytes, t0: int64, t1: int64, t2: int64)
    returns (bc: BlockChain)
    ensures |bc.Blocks| == 3 && bc.Linked()
    ensures bc.Blocks[0].Data == GenesisData
    ensures bc.Blocks[1].Data == d1 && bc.Blocks[2].Data == d2
    ensures bc.Blocks[2].PrevHash == bc.Blocks[1].Hash == BlockHash(d1, t1)
  {
    bc := NewBlockChain(t0);
    var genesis := bc.Blocks[0];
    bc.AddBlock(d1, t1);
    var first := bc.Blocks[1];
    assert bc.Blocks == [genesis, first];
    bc.AddBlock(d2, t2);
    assert bc.Blocks[..2] == [genesis, first];
  }
}
