/** How the data codewords are split into error correction blocks (section
    7.5.2 of ISO/IEC 18004): nd data bytes go into nblock blocks of
    q = nd / nblock bytes each, and the last e = nd % nblock blocks take one
    byte more. The functions take q and e, which the encoder computes once. */
module Blocks {

  /** The data bytes of block i. */
  function BlockLen(q: nat, e: nat, nblock: nat, i: nat): nat {
    q + (if i >= nblock - e then 1 else 0)
  }

  /** Where block i starts among the data bytes: the lengths of the blocks
      before it, added up. */
  function BlockStart(q: nat, e: nat, nblock: nat, i: nat): nat {
    if i == 0 then 0 else BlockStart(q, e, nblock, i - 1) + BlockLen(q, e, nblock, i - 1)
  }

  /** Block i starts after i short blocks plus one byte for each long block
      before it. */
  lemma {:induction false} BlockStartClosed(q: nat, e: nat, nblock: nat, i: nat)
    requires e <= nblock
    ensures BlockStart(q, e, nblock, i) == i * q + (if i > nblock - e then i - (nblock - e) else 0)
  {
    if i > 0 {
      BlockStartClosed(q, e, nblock, i - 1);
      assert i * q == (i - 1) * q + q;
    }
  }

  /** All blocks together hold exactly the nd data bytes. */
  lemma BlocksCover(nd: nat, nblock: nat)
    requires nblock > 0
    ensures BlockStart(nd / nblock, nd % nblock, nblock, nblock) == nd
  {
    BlockStartClosed(nd / nblock, nd % nblock, nblock, nblock);
  }

  /** Each block ends no later than the data. */
  lemma BlockWithin(nd: nat, nblock: nat, i: nat)
    requires nblock > 0 && i < nblock
    ensures BlockStart(nd / nblock, nd % nblock, nblock, i) + BlockLen(nd / nblock, nd % nblock, nblock, i) <= nd
  {
    BlockStartMonotone(nd / nblock, nd % nblock, nblock, i + 1, nblock);
    BlocksCover(nd, nblock);
  }

  /** Blocks start in order. */
  lemma {:induction false} BlockStartMonotone(q: nat, e: nat, nblock: nat, i: nat, j: nat)
    requires i <= j
    ensures BlockStart(q, e, nblock, i) <= BlockStart(q, e, nblock, j)
  {
    if i < j {
      BlockStartMonotone(q, e, nblock, i, j - 1);
    }
  }

  /** The data cut into blocks i.. of the layout, dat being the data from the
      start of block i on. A block that would run past the end of dat is cut
      short; SplitExact shows that this never happens when dat is exactly the
      data the layout covers. */
  function Split<T>(dat: seq<T>, q: nat, e: nat, nblock: nat, i: nat): (r: seq<seq<T>>)
    requires i <= nblock
    ensures |r| == nblock - i
    decreases nblock - i
  {
    if i == nblock then []
    else
      var n := if BlockLen(q, e, nblock, i) <= |dat| then BlockLen(q, e, nblock, i) else |dat|;
      [dat[..n]] + Split(dat[n..], q, e, nblock, i + 1)
  }

  /** The blocks put back together. */
  function Concat<T>(s: seq<seq<T>>): (r: seq<T>)
    ensures s == [] ==> r == []
  {
    if s == [] then [] else s[0] + Concat(s[1..])
  }

  /** When dat holds exactly the bytes of blocks i.., the blocks have the
      lengths of the layout and together give back dat. */
  lemma {:induction false} SplitExact<T>(dat: seq<T>, q: nat, e: nat, nblock: nat, i: nat)
    requires i <= nblock
    requires |dat| + BlockStart(q, e, nblock, i) == BlockStart(q, e, nblock, nblock)
    ensures Concat(Split(dat, q, e, nblock, i)) == dat
    ensures forall j :: 0 <= j < nblock - i ==> |Split(dat, q, e, nblock, i)[j]| == BlockLen(q, e, nblock, i + j)
    decreases nblock - i
  {
    if i < nblock {
      var n := BlockLen(q, e, nblock, i);
      BlockStartMonotone(q, e, nblock, i + 1, nblock);
      assert n <= |dat|;
      var r := Split(dat, q, e, nblock, i);
      SplitExact(dat[n..], q, e, nblock, i + 1);
      assert r == [dat[..n]] + Split(dat[n..], q, e, nblock, i + 1);
      assert r[1..] == Split(dat[n..], q, e, nblock, i + 1);
      assert dat == dat[..n] + dat[n..];
      forall j | 0 < j < nblock - i
        ensures |r[j]| == BlockLen(q, e, nblock, i + j)
      {
        assert r[j] == Split(dat[n..], q, e, nblock, i + 1)[j - 1];
      }
    }
  }

  /** The data cut into nblock blocks as the encoder cuts it: blocks of
      |dat| / nblock bytes, the last |dat| % nblock of them one byte longer. */
  function DataBlocks<T>(dat: seq<T>, nblock: nat): (r: seq<seq<T>>)
    requires nblock > 0
    ensures |r| == nblock
  {
    Split(dat, |dat| / nblock, |dat| % nblock, nblock, 0)
  }

  /** The blocks come back whole, with the short blocks first and the
      |dat| % nblock long blocks last. */
  lemma DataBlocksExact<T>(dat: seq<T>, nblock: nat)
    requires nblock > 0
    ensures Concat(DataBlocks(dat, nblock)) == dat
    ensures forall j :: 0 <= j < nblock ==>
      |DataBlocks(dat, nblock)[j]| == |dat| / nblock + (if j >= nblock - |dat| % nblock then 1 else 0)
  {
    BlocksCover(|dat|, nblock);
    SplitExact(dat, |dat| / nblock, |dat| % nblock, nblock, 0);
  }
}
