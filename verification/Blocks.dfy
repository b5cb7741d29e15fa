/** Blocks of bytes, and the two accesses every layer makes to a run of blocks. */
module Blocks {
  newtype byte = x: int | 0 <= x < 256

  type Block = seq<byte>

  datatype Option<+T> = None | Some(value: T)

  /** Block `i`, or the empty block past the end.  Indices stay in range by the
      invariants of `CacheState.WellFormed`; a default keeps the definitions total. */
  function At(blocks: seq<Block>, i: nat): Block {
    if i < |blocks| then blocks[i] else []
  }

  /** `blocks` with block `i` replaced. */
  function Put(blocks: seq<Block>, i: nat, b: Block): seq<Block> {
    if i < |blocks| then blocks[i := b] else blocks
  }

  /** What a transfer of `data` over `was` leaves when it fails after `done` bytes: a prefix of the
      data, never all of it, over the rest of the old block.  Blocks are of one size
      (`Threads.BlocksStayWhole`); otherwise nothing is moved. */
  function Blend(data: Block, was: Block, done: nat): (b: Block)
    ensures |b| == |was|
    ensures data == was ==> b == was
  {
    if done < |data| == |was| then
      assert data[..done] + data[done..] == data;
      data[..done] + was[done..]
    else was
  }

  lemma SubsetSize(a: set<nat>, b: set<nat>)
    requires a <= b
    ensures |a| <= |b| && (|a| == |b| ==> a == b)
  {
    assert b == a + (b - a);
  }
}
