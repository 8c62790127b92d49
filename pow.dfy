/** The proof-of-work engine (Pow.go): a fixed difficulty of 24 bits, the
    hash input of a block at a given nonce, the linear nonce search and the
    validity check. */
module Pow {
  import opened Encoding
  import opened Crypto
  import opened Blocks

  const TargetBits: nat := 24

  function Pow2(n: nat): (r: nat)
    ensures r > 0
  {
    if n == 0 then 1 else 2 * Pow2(n - 1)
  }

  /** `big.NewInt(1).Lsh(target, 256 - targetBits)` */
  function ShiftLeft(x: nat, n: nat): nat
  {
    x * Pow2(n)
  }

  lemma {:induction false} Pow2Bytes(k: nat)
    ensures Pow2(8 * k) == Pow256(k)
  {
    if k > 0 {
      Pow2Bytes(k - 1);
      var n := 8 * (k - 1);
      assert 8 * k == n + 8;
      Pow2Step(n, 8);
    }
  }

  lemma {:induction false} Pow2Step(n: nat, j: nat)
    ensures Pow2(n + j) == Pow2(n) * Pow2(j)
  {
    if j > 0 {
      Pow2Step(n, j - 1);
      assert Pow2(n + j) == 2 * Pow2(n + j - 1);
    }
  }

  lemma {:induction false} BeValueZero(s: Bytes)
    ensures BeValue(s) == 0 <==> forall i :: 0 <= i < |s| ==> s[i] == 0
  {
    if s != [] {
      BeValueZero(s[..|s| - 1]);
      assert forall i :: 0 <= i < |s| - 1 ==> s[..|s| - 1][i] == s[i];
    }
  }

  /** A 32-byte hash is below 2^232 exactly when its first three bytes, the
      24 bits of the difficulty, are zero. */
  lemma BelowTargetIffLeadingZeros(h: Digest)
    ensures BeValue(h) < Pow2(256 - TargetBits) <==> h[0] == 0 && h[1] == 0 && h[2] == 0
  {
    SplitAtThree(h);
    var x, p, y := BeValue(h[..3]), Pow256(29), BeValue(h[3..]);
    Pow2Bytes(29);
    assert Pow2(256 - TargetBits) == p by {
      assert 256 - TargetBits == 8 * 29;
    }
    BelowIffHighZero(x, p, y);
  }

  lemma SplitAtThree(h: Digest)
    ensures BeValue(h) == BeValue(h[..3]) * Pow256(29) + BeValue(h[3..])
    ensures BeValue(h[3..]) < Pow256(29)
    ensures BeValue(h[..3]) == 0 <==> h[0] == 0 && h[1] == 0 && h[2] == 0
  {
    var head, tail := h[..3], h[3..];
    assert h == head + tail;
    BeValueAppend(head, tail);
    BeValueBound(tail);
    BeValueZero(head);
    assert head[0] == h[0] && head[1] == h[1] && head[2] == h[2];
  }

  lemma BelowIffHighZero(x: nat, p: nat, y: nat)
    requires y < p
    ensures x * p + y < p <==> x == 0
  {
    if x > 0 {
      MulAtLeast(x, p);
    }
  }

  datatype ProofOfWork = ProofOfWork(block: Block, target: nat)
  {
    /** The bytes hashed at `nonce`: the previous hash, the data, then the
        timestamp, the difficulty and the nonce as 8-byte big-endian words. */
    function PrepareData(nonce: int64): (data: Bytes)
      reads block
      ensures |data| == |block.PrevHash| + |block.Data| + 24
      ensures data[..|block.PrevHash|] == block.PrevHash
      ensures data[|data| - 8..] == Int64ToBytes(nonce)
    {
      block.PrevHash + block.Data + Int64ToBytes(block.Timestamp)
        + Int64ToBytes(TargetBits) + Int64ToBytes(nonce)
    }

    /** The hash at `nonce`, read as a big-endian integer, is strictly below the target. */
    predicate Meets(nonce: int64)
      reads block
    {
      BeValue(Sha256(PrepareData(nonce))) < target
    }

    /** Try nonces 0, 1, 2, ... in turn and stop at the first whose hash is
        below the target; give up when the nonce reaches MaxInt64. */
    method Run() returns (nonce: int64, hash: Bytes)
      requires target == Pow2(256 - TargetBits)
      ensures 0 <= nonce
      ensures forall k: int64 :: 0 <= k < nonce ==> !Meets(k)
      ensures nonce < MaxInt64 ==> hash == Sha256(PrepareData(nonce)) && Meets(nonce)
      ensures nonce < MaxInt64 ==> hash[0] == 0 && hash[1] == 0 && hash[2] == 0
      ensures nonce == MaxInt64 ==> hash == Sha256(PrepareData(MaxInt64 - 1))
    {
      hash := seq(32, _ => 0);
      nonce := 0;
      while nonce < MaxInt64
        invariant 0 <= nonce <= MaxInt64
        invariant forall k: int64 :: 0 <= k < nonce ==> !Meets(k)
        invariant 0 < nonce ==> hash == Sha256(PrepareData(nonce - 1))
      {
        var data := PrepareData(nonce);
        var digest := Sha256(data);
        hash := digest;
        if BeValue(digest) < target {
          BelowTargetIffLeadingZeros(digest);
          return;
        }
        nonce := nonce + 1;
      }
    }

    /** IsVaild: the hash at the block's stored nonce is below the target. */
    predicate IsValid()
      reads block
      requires target == Pow2(256 - TargetBits)
      ensures IsValid() <==> Meets(block.Nonce)
      ensures IsValid() <==> var h := Sha256(PrepareData(block.Nonce)); h[0] == 0 && h[1] == 0 && h[2] == 0
    {
      BelowTargetIffLeadingZeros(Sha256(PrepareData(block.Nonce)));
      BeValue(Sha256(PrepareData(block.Nonce))) < target
    }
  }

  /** NewproofOfWork: pair the block with the target 1 << (256 - 24). */
  function NewProofOfWork(b: Block): (pow: ProofOfWork)
    ensures pow.block == b
    ensures pow.target == Pow2(232) == Pow256(29)
  {
    Pow2Bytes(29);
    ProofOfWork(b, ShiftLeft(1, 256 - TargetBits))
  }

  /** A block whose stored nonce hashes to exactly the target fails IsVaild,
      since the comparison is strict; that hash is 00 00 01 followed by 29
      zero bytes, the smallest hash with a nonzero byte among the first
      three. */
  lemma TargetItselfFails(pow: ProofOfWork)
    requires pow.target == Pow2(256 - TargetBits)
    requires BeValue(Sha256(pow.PrepareData(pow.block.Nonce))) == pow.target
    ensures !pow.IsValid()
    ensures var h := Sha256(pow.PrepareData(pow.block.Nonce));
      h[0] == 0 && h[1] == 0 && h[2] == 1 && BeValue(h[3..]) == 0
  {
    var h := Sha256(pow.PrepareData(pow.block.Nonce));
    SplitAtThree(h);
    Pow2Bytes(29);
    assert 256 - TargetBits == 8 * 29;
    var x, p, y := BeValue(h[..3]), Pow256(29), BeValue(h[3..]);
    assert x * p + y == p;
    ModUnique(p, p, x, y);
    ModUnique(p, p, 1, 0);
    HighBytesOne(h[..3]);
  }

  /** Three bytes read as the value 1 are 00 00 01. */
  lemma HighBytesOne(s: Bytes)
    requires |s| == 3 && BeValue(s) == 1
    ensures s[0] == 0 && s[1] == 0 && s[2] == 1
  {
    assert s[..2][..1] == s[..1];
    assert BeValue(s) == (BeValue(s[..1]) * 256 + s[1]) * 256 + s[2];
  }

  /** Storing the nonce that Run found in the block, with nothing else
      changed, makes the block pass IsVaild. */
  method RunThenValidate(pow: ProofOfWork) returns (nonce: int64, valid: bool)
    requires pow.target == Pow2(256 - TargetBits)
    modifies pow.block`Nonce
    ensures pow.block.Nonce == nonce
    ensures nonce < MaxInt64 ==> valid
    ensures valid <==> pow.IsValid()
  {
    var hash;
    nonce, hash := pow.Run();
    pow.block.Nonce := nonce;
    valid := pow.IsValid();
  }
}
