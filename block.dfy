/** A block of the in-memory chain and its construction (Block.go). */
module Blocks {
  import opened Encoding
  import opened Crypto

  class Block {
    var Timestamp: int64
    var Data: Bytes
    var PrevHash: Bytes
    var Hash: Bytes
    /** The nonce the proof-of-work check reads. The Block struct of Block.go
        has no such field although Pow.go reads `block.Nonce`; the model adds
        it, and NewBlock leaves it at Go's zero value. */
    var Nonce: int64

    /** The composite literal `&Block{timestamp, data, prevHash, hash}`. */
    constructor (timestamp: int64, data: Bytes, prevHash: Bytes, hash: Bytes)
      ensures Timestamp == timestamp && Data == data && PrevHash == prevHash
      ensures Hash == hash && Nonce == 0
    {
      Timestamp, Data, PrevHash, Hash, Nonce := timestamp, data, prevHash, hash, 0;
    }

    /** The bytes setHash hashes: the current Hash field, the data and the
        timestamp written in base 10. PrevHash is not among them. */
    function Headers(): Bytes
      reads this
    {
      Hash + Data + Decimal(Timestamp)
    }

    method SetHash()
      modifies this`Hash
      ensures Hash == Sha256(old(Headers())) && |Hash| == 32
      ensures Timestamp == old(Timestamp) && Data == old(Data)
      ensures PrevHash == old(PrevHash) && Nonce == old(Nonce)
    {
      var timestamp := Decimal(Timestamp);
      var headers := Hash + Data + timestamp;
      Hash := Sha256(headers);
    }
  }

  /** The hash NewBlock gives a block: SHA-256 over the data followed by the
      decimal timestamp, the Hash field being empty when setHash runs. */
  function BlockHash(data: Bytes, timestamp: int64): (h: Digest)
  {
    Sha256(data + Decimal(timestamp))
  }

  /** NewBlock with the clock reading `now` passed in. */
  method NewBlock(data: Bytes, prevBlockHash: Bytes, now: int64) returns (b: Block)
    ensures fresh(b)
    ensures b.Timestamp == now && b.Data == data && b.PrevHash == prevBlockHash
    ensures b.Hash == BlockHash(data, now) && b.Nonce == 0
  {
    b := new Block(now, data, prevBlockHash, []);
    b.SetHash();
    assert [] + data + Decimal(now) == data + Decimal(now);
  }

  /** The hashed header of a new block is the data followed by the decimal
      timestamp, so it leaves the previous block's hash out: two blocks made
      from the same data at the same time hash alike whatever they link to. */
  method NewBlocksHashAlike(data: Bytes, prev1: Bytes, prev2: Bytes, now: int64)
    returns (b1: Block, b2: Block)
    ensures b1.PrevHash == prev1 && b2.PrevHash == prev2
    ensures b1.Hash == b2.Hash
    ensures |b1.Hash| == 32
  {
    b1 := NewBlock(data, prev1, now);
    b2 := NewBlock(data, prev2, now);
  }
}
