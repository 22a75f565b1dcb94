/** The codeword part of lplan (sections 7.5.2 and 7.6 of ISO/IEC 18004):
    every data and check bit gets a pixel tagged with its role and its bit
    offset in the final codeword sequence; the pixels are cut into the
    error-correction blocks and interleaved, byte i of every data block in
    turn, then byte i of every check block. */
module Codewords {
  import opened BitMath
  import opened Pixels
  import opened Blocks

  /** `role.Pixel() | OffsetPixel(o)` */
  function Tag(r: PixelRole, o: nat): (p: Pixel)
    requires o < OffsetLimit
    ensures Role(p) == r && Offset(p) == o && !IsBlack(p)
  {
    TaggedPixel(r, o);
    PixelOr(RolePixel(r), OffsetPixel(o))
  }

  /** count pixels of role r with offsets base, base + 1, ... */
  function TagRun(r: PixelRole, base: nat, count: nat): (s: seq<Pixel>)
    requires base + count <= OffsetLimit
    ensures |s| == count
  {
    seq(count, i requires 0 <= i < count => Tag(r, base + i))
  }

  /** A pixel that EncodeInto can colour from a codeword sequence of
      `limit` bits: a data or check pixel names a bit below limit. */
  predicate Codeword(p: Pixel, limit: int) {
    (Role(p) == Data || Role(p) == Check) ==> Offset(p) < limit
  }

  /** A pixel that the sweep places: a data or check pixel naming a bit
      below limit, or a remainder pixel. */
  predicate Placed(p: Pixel, limit: int) {
    (Role(p) == Data || Role(p) == Check || Role(p) == Extra) && Codeword(p, limit)
  }

  /** A run of data or check pixels whose offsets stay below limit holds
      only pixels the sweep may place. */
  lemma TagRunCoded(r: PixelRole, base: nat, count: nat, limit: int)
    requires r == Data || r == Check
    requires base + count <= OffsetLimit && base + count <= limit
    ensures forall p | p in TagRun(r, base, count) :: Placed(p, limit) && !IsBlack(p)
  {
    forall i | 0 <= i < count
      ensures Placed(TagRun(r, base, count)[i], limit) && !IsBlack(TagRun(r, base, count)[i])
    {
      TagAt(r, base, count, i);
    }
  }

  /** Pixel i of a run has role r and offset base + i, and is light. */
  lemma TagAt(r: PixelRole, base: nat, count: nat, i: nat)
    requires base + count <= OffsetLimit && i < count
    ensures Role(TagRun(r, base, count)[i]) == r && Offset(TagRun(r, base, count)[i]) == base + i
    ensures !IsBlack(TagRun(r, base, count)[i])
  {
    assert TagRun(r, base, count)[i] == Tag(r, base + i);
  }

  /** The data pixels name bits 0 .. d-1 and the check pixels bits
      d .. d+c-1, so every one of them is a codeword pixel of d + c bits. */
  lemma TagRunsCoded(d: nat, c: nat)
    requires d + c <= OffsetLimit
    ensures forall p | p in TagRun(Data, 0, d) + TagRun(Check, d, c) :: Placed(p, d + c) && !IsBlack(p)
  {
    TagRunCoded(Data, 0, d, d + c);
    TagRunCoded(Check, d, c, d + c);
  }

  /** The loops that fill `data` and `check`: count pixels of role r with
      offsets base, base + 1, ... */
  method Tags(r: PixelRole, base: nat, count: nat) returns (s: seq<Pixel>)
    requires base + count <= OffsetLimit
    ensures s == TagRun(r, base, count)
  {
    s := [];
    var i := 0;
    while i < count
      invariant 0 <= i <= count && |s| == i
      invariant s == TagRun(r, base, i)
    {
      s := s + [Tag(r, base + i)];
      i := i + 1;
    }
  }

  /** The loop that cuts `data` and `check` into blocks: data block i takes
      nde bytes, or nde + 1 for the last `extra` blocks, and every check block
      takes ne bytes, 8 pixels a byte. Every pixel is used up, so the
      "data/check math" panic cannot fire. */
  method SplitBlocks(data: seq<Pixel>, check: seq<Pixel>, nblock: nat, nde: nat, extra: nat, ne: nat)
    returns (dataList: seq<seq<Pixel>>, checkList: seq<seq<Pixel>>)
    requires nblock > 0 && extra < nblock
    requires |data| == (nde * nblock + extra) * 8 && |check| == ne * nblock * 8
    ensures |dataList| == nblock && |checkList| == nblock
    ensures Concat(dataList) == data && Concat(checkList) == check
    ensures forall i | 0 <= i < nblock :: |dataList[i]| == BitLen(nde, extra, nblock, i)
    ensures forall i | 0 <= i < nblock :: |checkList[i]| == 8 * ne
    ensures dataList == Cut(data, nde, extra, nblock, 0) && checkList == Cut(check, ne, 0, nblock, 0)
  {
    BlockStartClosed(nde, extra, nblock, nblock);
    BlocksFromStart(nde, extra, nblock, 0);
    BlockStartClosed(ne, 0, nblock, nblock);
    BlocksFromStart(ne, 0, nblock, 0);
    dataList, checkList := CutBlocks(data, check, nblock, nde, extra, ne);
  }

  /** The loop of SplitBlocks, with the lengths of data and check given as
      the block layout adds them up. */
  method CutBlocks(data: seq<Pixel>, check: seq<Pixel>, nblock: nat, nde: nat, extra: nat, ne: nat)
    returns (dataList: seq<seq<Pixel>>, checkList: seq<seq<Pixel>>)
    requires extra <= nblock
    requires |data| == 8 * BlocksFrom(nde, extra, nblock, 0) && |check| == 8 * BlocksFrom(ne, 0, nblock, 0)
    ensures |dataList| == nblock && |checkList| == nblock
    ensures Concat(dataList) == data && Concat(checkList) == check
    ensures forall i | 0 <= i < nblock :: |dataList[i]| == BitLen(nde, extra, nblock, i)
    ensures forall i | 0 <= i < nblock :: |checkList[i]| == 8 * ne
    ensures dataList == Cut(data, nde, extra, nblock, 0) && checkList == Cut(check, ne, 0, nblock, 0)
  {
    var rest, restCheck := data, check;
    dataList, checkList := [], [];
    var i := 0;
    while i < nblock
      invariant 0 <= i <= nblock
      invariant CutSoFar(dataList, rest, data, nde, extra, nblock, i)
      invariant CutSoFar(checkList, restCheck, check, ne, 0, nblock, i)
    {
      var nd := nde;
      if i >= nblock - extra {
        nd := nd + 1;
      }
      assert nd * 8 == 8 * BlockLen(nde, extra, nblock, i);
      CutOne(dataList, rest, data, nde, extra, nblock, i);
      CutOne(checkList, restCheck, check, ne, 0, nblock, i);
      dataList, rest := dataList + [rest[0..nd * 8]], rest[nd * 8..];
      checkList, restCheck := checkList + [restCheck[0..8 * ne]], restCheck[8 * ne..];
      i := i + 1;
    }
    if |rest| != 0 || |restCheck| != 0 {
      assert false;
    }
  }

  /** The state of the cutting loop before block i, together with where
      each block and the rest sit in whole. */
  ghost predicate CutState(list: seq<seq<Pixel>>, rest: seq<Pixel>, whole: seq<Pixel>, q: nat, e: nat, nblock: nat, i: nat)
  {
    && CutSoFar(list, rest, whole, q, e, nblock, i)
    && BitStart(q, e, nblock, i) <= |whole| && rest == whole[BitStart(q, e, nblock, i)..]
    && SlicedAt(list, whole, q, e, nblock)
  }

  /** Cutting block i off the rest keeps the state of the loop. */
  lemma CutNext(list: seq<seq<Pixel>>, rest: seq<Pixel>, whole: seq<Pixel>, q: nat, e: nat, nblock: nat, i: nat)
    requires i < nblock && CutState(list, rest, whole, q, e, nblock, i)
    ensures BitLen(q, e, nblock, i) <= |rest|
    ensures CutState(list + [rest[0..BitLen(q, e, nblock, i)]], rest[BitLen(q, e, nblock, i)..], whole, q, e, nblock, i + 1)
  {
    CutOne(list, rest, whole, q, e, nblock, i);
    SliceOne(list, rest, whole, q, e, nblock, i);
  }

  /** The state of the cutting loop before block i: i blocks cut off the
      front of whole, each of its length, rest holding what the later
      blocks take, and the blocks so far the first i of Cut. */
  ghost predicate CutSoFar(list: seq<seq<Pixel>>, rest: seq<Pixel>, whole: seq<Pixel>, q: nat, e: nat, nblock: nat, i: nat)
  {
    && i <= nblock && |list| == i
    && Concat(list) + rest == whole
    && |rest| == 8 * BlocksFrom(q, e, nblock, i)
    && (forall k | 0 <= k < i :: |list[k]| == BitLen(q, e, nblock, k))
    && list + Cut(rest, q, e, nblock, i) == Cut(whole, q, e, nblock, 0)
  }

  /** Cutting block i, of 8 · BlockLen pixels, off the rest keeps the
      state of the loop. */
  lemma CutOne(list: seq<seq<Pixel>>, rest: seq<Pixel>, whole: seq<Pixel>, q: nat, e: nat, nblock: nat, i: nat)
    requires i < nblock && CutSoFar(list, rest, whole, q, e, nblock, i)
    ensures 8 * BlockLen(q, e, nblock, i) <= |rest|
    ensures CutSoFar(list + [rest[0..8 * BlockLen(q, e, nblock, i)]], rest[8 * BlockLen(q, e, nblock, i)..], whole, q, e, nblock, i + 1)
  {
    var n := 8 * BlockLen(q, e, nblock, i);
    CutStep(list, rest, whole, n);
    assert Cut(rest, q, e, nblock, i) == [rest[..n]] + Cut(rest[n..], q, e, nblock, i + 1);
  }

  /** The pixels of s cut into blocks i .. nblock-1 in turn: block k
      takes the next 8 · BlockLen(q, e, nblock, k) pixels, or what is left
      when s runs out. */
  function Cut(s: seq<Pixel>, q: nat, e: nat, nblock: nat, i: nat): (r: seq<seq<Pixel>>)
    requires i <= nblock
    ensures |r| == nblock - i
    decreases nblock - i
  {
    if i == nblock then []
    else
      var n := if 8 * BlockLen(q, e, nblock, i) <= |s| then 8 * BlockLen(q, e, nblock, i) else |s|;
      [s[..n]] + Cut(s[n..], q, e, nblock, i + 1)
  }

  /** The data bytes of blocks i .. nblock-1. */
  function BlocksFrom(q: nat, e: nat, nblock: nat, i: nat): nat
    decreases nblock - i
  {
    if i >= nblock then 0 else BlockLen(q, e, nblock, i) + BlocksFrom(q, e, nblock, i + 1)
  }

  /** The blocks from i on hold what the blocks before i leave over. */
  lemma {:induction false} BlocksFromStart(q: nat, e: nat, nblock: nat, i: nat)
    requires i <= nblock
    ensures BlockStart(q, e, nblock, i) + BlocksFrom(q, e, nblock, i) == BlockStart(q, e, nblock, nblock)
    decreases nblock - i
  {
    if i < nblock {
      BlocksFromStart(q, e, nblock, i + 1);
    }
  }

  /** Cutting the next n pixels off the rest keeps blocks and rest together. */
  lemma CutStep(list: seq<seq<Pixel>>, rest: seq<Pixel>, whole: seq<Pixel>, n: nat)
    requires Concat(list) + rest == whole && n <= |rest|
    ensures Concat(list + [rest[0..n]]) + rest[n..] == whole
  {
    ConcatAppend(list, rest[0..n]);
    assert rest == rest[0..n] + rest[n..];
  }

  /** Concat of blocks with one more block at the end. */
  lemma {:induction false} ConcatAppend<T>(bs: seq<seq<T>>, b: seq<T>)
    ensures Concat(bs + [b]) == Concat(bs) + b
  {
    if bs != [] {
      assert (bs + [b])[1..] == bs[1..] + [b];
      ConcatAppend(bs[1..], b);
    } else {
      assert Concat([b]) == b + Concat([]);
    }
  }

  /** Byte i of block b, as 8 pixels, or nothing when b is shorter. */
  function Chunk(b: seq<Pixel>, i: nat): (r: seq<Pixel>)
  {
    if i * 8 < |b| && (i + 1) * 8 <= |b| then b[i * 8 .. (i + 1) * 8] else []
  }

  /** Byte i of each block in turn, skipping the blocks that are too short. */
  function Round(bs: seq<seq<Pixel>>, i: nat): seq<Pixel> {
    if bs == [] then [] else Chunk(bs[0], i) + Round(bs[1..], i)
  }

  /** Rounds 0 .. i-1 one after the other. */
  function Rounds(bs: seq<seq<Pixel>>, i: nat): seq<Pixel> {
    if i == 0 then [] else Rounds(bs, i - 1) + Round(bs, i - 1)
  }

  /** The interleaved codeword pixels: nde + 1 rounds of the data blocks,
      then ne rounds of the check blocks. */
  function Interleaved(dataList: seq<seq<Pixel>>, checkList: seq<seq<Pixel>>, nde: nat, ne: nat): seq<Pixel> {
    Rounds(dataList, nde + 1) + Rounds(checkList, ne)
  }

  /** The interleaving loops of lplan. Every block is taken whole, so the
      result is exactly as long as the blocks together and the "dst math"
      panic cannot fire. */
  method Interleave(dataList: seq<seq<Pixel>>, checkList: seq<seq<Pixel>>, nde: nat, ne: nat) returns (bits: seq<Pixel>)
    requires forall b | b in dataList :: |b| % 8 == 0 && |b| <= 8 * (nde + 1)
    requires forall b | b in checkList :: |b| % 8 == 0 && |b| <= 8 * ne
    ensures bits == Interleaved(dataList, checkList, nde, ne)
    ensures multiset(bits) == multiset(Concat(dataList)) + multiset(Concat(checkList))
    ensures |bits| == |Concat(dataList)| + |Concat(checkList)|
  {
    var fromData := Take(dataList, nde + 1);
    var fromCheck := Take(checkList, ne);
    bits := fromData + fromCheck;
    InterleavedWhole(dataList, checkList, nde, ne);
  }

  /** The interleaved pixels are the pixels of all blocks, each once. */
  lemma InterleavedWhole(dataList: seq<seq<Pixel>>, checkList: seq<seq<Pixel>>, nde: nat, ne: nat)
    requires forall b | b in dataList :: |b| % 8 == 0 && |b| <= 8 * (nde + 1)
    requires forall b | b in checkList :: |b| % 8 == 0 && |b| <= 8 * ne
    ensures multiset(Interleaved(dataList, checkList, nde, ne)) == multiset(Concat(dataList)) + multiset(Concat(checkList))
    ensures |Interleaved(dataList, checkList, nde, ne)| == |Concat(dataList)| + |Concat(checkList)|
  {
    RoundsWhole(dataList, nde + 1);
    RoundsWhole(checkList, ne);
  }

  /** One of the two loop nests of the interleave: `rounds` rounds over bs. */
  method Take(bs: seq<seq<Pixel>>, rounds: nat) returns (bits: seq<Pixel>)
    ensures bits == Rounds(bs, rounds)
  {
    bits := [];
    var i := 0;
    while i < rounds
      invariant 0 <= i <= rounds && bits == Rounds(bs, i)
    {
      var round := TakeRound(bs, i);
      bits := bits + round;
      i := i + 1;
    }
  }

  /** The inner loop: byte i of every block long enough. */
  method TakeRound(bs: seq<seq<Pixel>>, i: nat) returns (bits: seq<Pixel>)
    ensures bits == Round(bs, i)
  {
    bits := [];
    var j := 0;
    while j < |bs|
      invariant 0 <= j <= |bs| && bits == Round(bs[..j], i)
    {
      var b := bs[j];
      RoundStep(bs, j, i);
      if i * 8 < |b| && (i + 1) * 8 <= |b| {
        bits := bits + b[i * 8 .. (i + 1) * 8];
      } else {
        assert bits + Chunk(b, i) == bits;
      }
      j := j + 1;
    }
    assert bs[..|bs|] == bs;
  }

  /** Extending the blocks taken by one block extends a round by its chunk. */
  lemma {:induction false} RoundStep(bs: seq<seq<Pixel>>, j: nat, i: nat)
    requires j < |bs|
    ensures Round(bs[..j + 1], i) == Round(bs[..j], i) + Chunk(bs[j], i)
  {
    RoundAppend(bs[..j], [bs[j]], i);
    assert bs[..j + 1] == bs[..j] + [bs[j]];
    assert Round([bs[j]], i) == Chunk(bs[j], i) + Round([], i);
  }

  /** A round over two lists of blocks is the two rounds one after the other. */
  lemma {:induction false} RoundAppend(xs: seq<seq<Pixel>>, ys: seq<seq<Pixel>>, i: nat)
    ensures Round(xs + ys, i) == Round(xs, i) + Round(ys, i)
  {
    if xs != [] {
      assert (xs + ys)[1..] == xs[1..] + ys;
      RoundAppend(xs[1..], ys, i);
    } else {
      assert xs + ys == ys;
    }
  }

  /** The first i bytes of each block, put together. */
  function Prefixes(bs: seq<seq<Pixel>>, i: nat): seq<Pixel> {
    if bs == [] then [] else Front(bs[0], i) + Prefixes(bs[1..], i)
  }

  /** The first i bytes of b, or all of b when it is shorter. */
  function Front(b: seq<Pixel>, i: nat): seq<Pixel> {
    if i * 8 <= |b| then b[..i * 8] else b
  }

  /** The first i rounds hold the first i bytes of every block. */
  lemma {:induction false} RoundsPrefixes(bs: seq<seq<Pixel>>, i: nat)
    requires forall b | b in bs :: |b| % 8 == 0
    ensures multiset(Rounds(bs, i)) == multiset(Prefixes(bs, i))
    decreases i
  {
    if i > 0 {
      RoundsPrefixes(bs, i - 1);
      RoundsPrefixesStep(bs, i);
    } else {
      RoundsPrefixesZero(bs);
    }
  }

  /** No rounds and no bytes of any block: both empty. */
  lemma RoundsPrefixesZero(bs: seq<seq<Pixel>>)
    ensures multiset(Rounds(bs, 0)) == multiset(Prefixes(bs, 0))
  {
    PrefixesZero(bs);
    assert Rounds(bs, 0) == [];
  }

  /** When the first i - 1 rounds hold the first i - 1 bytes of every
      block, the first i rounds hold the first i bytes. */
  lemma RoundsPrefixesStep(bs: seq<seq<Pixel>>, i: nat)
    requires i > 0 && forall b | b in bs :: |b| % 8 == 0
    requires multiset(Rounds(bs, i - 1)) == multiset(Prefixes(bs, i - 1))
    ensures multiset(Rounds(bs, i)) == multiset(Prefixes(bs, i))
  {
    PrefixStep(bs, i);
    JoinStep(Rounds(bs, i), Rounds(bs, i - 1), Round(bs, i - 1), Prefixes(bs, i), Prefixes(bs, i - 1));
  }

  /** One more round on each side of a permutation keeps it one. */
  lemma JoinStep(rounds: seq<Pixel>, before: seq<Pixel>, round: seq<Pixel>, prefixes: seq<Pixel>, prev: seq<Pixel>)
    requires rounds == before + round && multiset(before) == multiset(prev)
    requires multiset(prefixes) == multiset(prev) + multiset(round)
    ensures multiset(rounds) == multiset(prefixes)
  {
    assert multiset(before + round) == multiset(before) + multiset(round);
  }

  /** No bytes of any block: nothing. */
  lemma {:induction false} PrefixesZero(bs: seq<seq<Pixel>>)
    ensures Prefixes(bs, 0) == []
  {
    if bs != [] {
      PrefixesZero(bs[1..]);
    }
  }

  /** Adding round i to the first i bytes of each block gives the first
      i + 1 bytes of each block, up to order. */
  lemma {:induction false} PrefixStep(bs: seq<seq<Pixel>>, i: nat)
    requires i > 0 && forall b | b in bs :: |b| % 8 == 0
    ensures multiset(Prefixes(bs, i)) == multiset(Prefixes(bs, i - 1)) + multiset(Round(bs, i - 1))
  {
    if bs != [] {
      PrefixStep(bs[1..], i);
      FrontStep(bs[0], i - 1);
    }
  }

  /** The first i + 1 bytes of a block are its first i bytes and chunk i. */
  lemma FrontStep(b: seq<Pixel>, i: nat)
    requires |b| % 8 == 0
    ensures Front(b, i + 1) == Front(b, i) + Chunk(b, i)
  {
    if (i + 1) * 8 <= |b| {
      assert b[..(i + 1) * 8] == b[..i * 8] + b[i * 8 .. (i + 1) * 8];
    }
  }

  /** With rounds enough for the longest block, the rounds take every block
      whole. */
  lemma RoundsWhole(bs: seq<seq<Pixel>>, i: nat)
    requires forall b | b in bs :: |b| % 8 == 0 && |b| <= 8 * i
    ensures multiset(Rounds(bs, i)) == multiset(Concat(bs))
    ensures |Rounds(bs, i)| == |Concat(bs)|
  {
    RoundsPrefixes(bs, i);
    PrefixesWhole(bs, i);
    assert |multiset(Rounds(bs, i))| == |Rounds(bs, i)|;
    assert |multiset(Concat(bs))| == |Concat(bs)|;
  }

  lemma {:induction false} PrefixesWhole(bs: seq<seq<Pixel>>, i: nat)
    requires forall b | b in bs :: |b| <= 8 * i
    ensures Prefixes(bs, i) == Concat(bs)
  {
    if bs != [] {
      PrefixesWhole(bs[1..], i);
      assert bs[0][..|bs[0]|] == bs[0];
    }
  }

  /** The data pixels of a code of `bytes` codewords, nblock blocks of ne
      check bytes each, cut into the data blocks: nd = bytes - ne·nblock
      data bytes, nd / nblock to a block and one more in the last
      nd % nblock blocks. */
  function DataBlocksOf(bytes: nat, nblock: nat, ne: nat): seq<seq<Pixel>>
    requires 0 < nblock && ne * nblock < bytes && 8 * bytes <= OffsetLimit
  {
    var nd := bytes - ne * nblock;
    Cut(TagRun(Data, 0, 8 * nd), nd / nblock, nd % nblock, nblock, 0)
  }

  /** The check pixels, the bits after the data, cut into nblock blocks of
      ne bytes each. */
  function CheckBlocksOf(bytes: nat, nblock: nat, ne: nat): seq<seq<Pixel>>
    requires 0 < nblock && ne * nblock < bytes && 8 * bytes <= OffsetLimit
  {
    var nd := bytes - ne * nblock;
    Cut(TagRun(Check, 8 * nd, 8 * (ne * nblock)), ne, 0, nblock, 0)
  }

  /** The order in which lplan lays the codeword pixels into the grid: the
      data and check blocks interleaved byte by byte. */
  function CodewordOrder(bytes: nat, nblock: nat, ne: nat): seq<Pixel>
    requires 0 < nblock && ne * nblock < bytes && 8 * bytes <= OffsetLimit
  {
    Interleaved(DataBlocksOf(bytes, nblock, ne), CheckBlocksOf(bytes, nblock, ne), (bytes - ne * nblock) / nblock, ne)
  }

  /** The codeword part of lplan for nblock blocks of ne check bytes each
      among `bytes` codewords: the data pixels (bits 0 .. dataBits-1), the
      check pixels (the bits after them), cut into blocks and interleaved,
      in CodewordOrder. Every pixel comes out exactly once. */
  method CodewordPixels(bytes: nat, nblock: nat, ne: nat) returns (bits: seq<Pixel>)
    requires 0 < nblock && ne * nblock < bytes && 8 * bytes <= OffsetLimit
    ensures bits == CodewordOrder(bytes, nblock, ne)
    ensures multiset(bits) == multiset(TagRun(Data, 0, 8 * (bytes - ne * nblock)) + TagRun(Check, 8 * (bytes - ne * nblock), 8 * (ne * nblock)))
    ensures |bits| == 8 * bytes
    ensures forall p | p in bits :: Placed(p, 8 * bytes) && !IsBlack(p)
  {
    var dataList, checkList, nde := CodewordBlocks(bytes, nblock, ne);
    bits := Interleave(dataList, checkList, nde, ne);
    OrderOf(bytes, nblock, ne, dataList, checkList, nde);
    BlocksCoded(bits, Concat(dataList), Concat(checkList), 8 * (bytes - ne * nblock), 8 * (ne * nblock));
  }

  /** A slice of a run of tagged pixels is a run of tagged pixels. */
  lemma TagRunSlice(r: PixelRole, base: nat, count: nat, from: nat, len: nat)
    requires base + count <= OffsetLimit && from + len <= count
    ensures TagRun(r, base, count)[from..from + len] == TagRun(r, base + from, len)
  {
  }

  /** The first pixel of block k in the run of its pixels, 8 to a byte. */
  function BitStart(q: nat, e: nat, nblock: nat, k: nat): nat {
    8 * BlockStart(q, e, nblock, k)
  }

  /** The number of pixels of block k, 8 to a byte. */
  function BitLen(q: nat, e: nat, nblock: nat, k: nat): nat {
    8 * BlockLen(q, e, nblock, k)
  }

  /** Every block cut so far is the slice of whole at its place: block k
      takes the pixels of bytes BlockStart(k) .. BlockStart(k) + BlockLen(k) - 1. */
  ghost predicate SlicedAt(list: seq<seq<Pixel>>, whole: seq<Pixel>, q: nat, e: nat, nblock: nat)
  {
    forall k | 0 <= k < |list| ::
      BitStart(q, e, nblock, k) + BitLen(q, e, nblock, k) <= |whole|
      && list[k] == whole[BitStart(q, e, nblock, k) .. BitStart(q, e, nblock, k) + BitLen(q, e, nblock, k)]
  }

  /** Cutting block i off the rest, which starts at block i's place, keeps
      every block at its place. */
  lemma SliceOne(list: seq<seq<Pixel>>, rest: seq<Pixel>, whole: seq<Pixel>, q: nat, e: nat, nblock: nat, i: nat)
    requires |list| == i && SlicedAt(list, whole, q, e, nblock)
    requires BitStart(q, e, nblock, i) <= |whole| && rest == whole[BitStart(q, e, nblock, i)..]
    requires BitLen(q, e, nblock, i) <= |rest|
    ensures BitStart(q, e, nblock, i + 1) <= |whole|
    ensures rest[BitLen(q, e, nblock, i)..] == whole[BitStart(q, e, nblock, i + 1)..]
    ensures SlicedAt(list + [rest[0..BitLen(q, e, nblock, i)]], whole, q, e, nblock)
  {
    var n, at := BitLen(q, e, nblock, i), BitStart(q, e, nblock, i);
    assert BitStart(q, e, nblock, i + 1) == at + n;
    var more := list + [rest[0..n]];
    forall k | 0 <= k < |more|
      ensures BitStart(q, e, nblock, k) + BitLen(q, e, nblock, k) <= |whole|
      ensures more[k] == whole[BitStart(q, e, nblock, k) .. BitStart(q, e, nblock, k) + BitLen(q, e, nblock, k)]
    {
      if k < i {
        assert more[k] == list[k];
      } else {
        assert more[k] == whole[at..at + n];
      }
    }
  }

  /** Cut puts every block at its place in whole: block k is the slice of
      the pixels of bytes BlockStart(k) .. BlockStart(k) + BlockLen(k) - 1. */
  lemma CutSliced(whole: seq<Pixel>, q: nat, e: nat, nblock: nat)
    requires |whole| == 8 * BlocksFrom(q, e, nblock, 0)
    ensures SlicedAt(Cut(whole, q, e, nblock, 0), whole, q, e, nblock)
  {
    var list, rest, i := [], whole, 0;
    while i < nblock
      invariant 0 <= i <= nblock && CutState(list, rest, whole, q, e, nblock, i)
    {
      CutNext(list, rest, whole, q, e, nblock, i);
      list, rest := list + [rest[0..BitLen(q, e, nblock, i)]], rest[BitLen(q, e, nblock, i)..];
      i := i + 1;
    }
    assert list + Cut(rest, q, e, nblock, nblock) == Cut(whole, q, e, nblock, 0);
  }

  /** Block i of a run of tagged pixels cut by Cut is the run of the
      pixels of its own bytes. */
  lemma SlicedRun(r: PixelRole, base: nat, count: nat, q: nat, e: nat, nblock: nat, i: nat)
    requires base + count <= OffsetLimit && count == 8 * BlocksFrom(q, e, nblock, 0) && i < nblock
    ensures BlockStart(q, e, nblock, i) + BlockLen(q, e, nblock, i) <= BlocksFrom(q, e, nblock, 0)
    ensures Cut(TagRun(r, base, count), q, e, nblock, 0)[i] ==
      TagRun(r, base + 8 * BlockStart(q, e, nblock, i), 8 * BlockLen(q, e, nblock, i))
  {
    var run := TagRun(r, base, count);
    CutSliced(run, q, e, nblock);
    var list := Cut(run, q, e, nblock, 0);
    var b := list[i];
    TagRunSlice(r, base, count, BitStart(q, e, nblock, i), BitLen(q, e, nblock, i));
  }

  /** Data block i holds the pixels of data bytes BlockStart(i) ..
      BlockStart(i) + BlockLen(i) - 1: nd / nblock bytes, one more for the
      last nd % nblock blocks, in the order of the bytes. */
  lemma DataBlockRun(bytes: nat, nblock: nat, ne: nat, i: nat)
    requires 0 < nblock && ne * nblock < bytes && 8 * bytes <= OffsetLimit && i < nblock
    ensures var nd := bytes - ne * nblock;
      BlockStart(nd / nblock, nd % nblock, nblock, i) + BlockLen(nd / nblock, nd % nblock, nblock, i) <= nd
    ensures var nd := bytes - ne * nblock;
      DataBlocksOf(bytes, nblock, ne)[i] ==
        TagRun(Data, 8 * BlockStart(nd / nblock, nd % nblock, nblock, i), 8 * BlockLen(nd / nblock, nd % nblock, nblock, i))
  {
    var nd := bytes - ne * nblock;
    BlocksCover(nd, nblock);
    DataRun(TagRun(Data, 0, 8 * nd), DataBlocksOf(bytes, nblock, ne), nd, nd / nblock, nd % nblock, nblock, i);
  }

  /** DataBlockRun for a data run of nd bytes cut into blocks of q bytes,
      the last e of them one byte longer. */
  lemma DataRun(run: seq<Pixel>, list: seq<seq<Pixel>>, nd: nat, q: nat, e: nat, nblock: nat, i: nat)
    requires i < nblock && 8 * nd <= OffsetLimit && BlockStart(q, e, nblock, nblock) == nd
    requires run == TagRun(Data, 0, 8 * nd) && list == Cut(run, q, e, nblock, 0)
    ensures BlockStart(q, e, nblock, i) + BlockLen(q, e, nblock, i) <= nd
    ensures list[i] == TagRun(Data, 8 * BlockStart(q, e, nblock, i), 8 * BlockLen(q, e, nblock, i))
  {
    BlocksFromStart(q, e, nblock, 0);
    SlicedRun(Data, 0, 8 * nd, q, e, nblock, i);
  }

  /** Check block i holds the pixels of check bytes i·ne .. i·ne + ne - 1,
      which follow the nd data bytes. */
  lemma CheckBlockRun(bytes: nat, nblock: nat, ne: nat, i: nat)
    requires 0 < nblock && ne * nblock < bytes && 8 * bytes <= OffsetLimit && i < nblock
    ensures i * ne + ne <= ne * nblock
    ensures CheckBlocksOf(bytes, nblock, ne)[i] == TagRun(Check, 8 * (bytes - ne * nblock) + 8 * (i * ne), 8 * ne)
  {
    if ne > 0 {
      MulLe(i + 1, nblock, ne);
    }
    BlockStartClosed(ne, 0, nblock, nblock);
    BlocksFromStart(ne, 0, nblock, 0);
    BlockStartClosed(ne, 0, nblock, i);
    SlicedRun(Check, 8 * (bytes - ne * nblock), 8 * (ne * nblock), ne, 0, nblock, i);
  }

  /** The blocks of CodewordBlocks, interleaved, are CodewordOrder. */
  lemma OrderOf(bytes: nat, nblock: nat, ne: nat, dataList: seq<seq<Pixel>>, checkList: seq<seq<Pixel>>, nde: nat)
    requires 0 < nblock && ne * nblock < bytes && 8 * bytes <= OffsetLimit
    requires dataList == DataBlocksOf(bytes, nblock, ne) && checkList == CheckBlocksOf(bytes, nblock, ne)
    requires nde == (bytes - ne * nblock) / nblock
    ensures Interleaved(dataList, checkList, nde, ne) == CodewordOrder(bytes, nblock, ne)
  {
  }

  /** Cutting a run of exactly the blocks' length loses and duplicates no
      pixel: the blocks, put back together, are the run, and block k has
      its BitLen. */
  lemma CutWhole(whole: seq<Pixel>, q: nat, e: nat, nblock: nat)
    requires |whole| == 8 * BlocksFrom(q, e, nblock, 0)
    ensures Concat(Cut(whole, q, e, nblock, 0)) == whole
    ensures forall k | 0 <= k < nblock :: |Cut(whole, q, e, nblock, 0)[k]| == BitLen(q, e, nblock, k)
  {
    var list, rest, i := [], whole, 0;
    while i < nblock
      invariant 0 <= i <= nblock && CutSoFar(list, rest, whole, q, e, nblock, i)
    {
      CutOne(list, rest, whole, q, e, nblock, i);
      var n := 8 * BlockLen(q, e, nblock, i);
      list, rest := list + [rest[0..n]], rest[n..];
      i := i + 1;
    }
    assert rest == [];
    assert Cut(whole, q, e, nblock, 0) == list;
  }

  /** The data blocks, put back together, are the data run, and each
      holds a whole number of bytes, at most nd / nblock + 1. */
  lemma DataBlocksWhole(bytes: nat, nblock: nat, ne: nat)
    requires 0 < nblock && ne * nblock < bytes && 8 * bytes <= OffsetLimit
    ensures Concat(DataBlocksOf(bytes, nblock, ne)) == TagRun(Data, 0, 8 * (bytes - ne * nblock))
    ensures forall b | b in DataBlocksOf(bytes, nblock, ne) :: |b| % 8 == 0 && |b| <= 8 * ((bytes - ne * nblock) / nblock + 1)
  {
    var nd := bytes - ne * nblock;
    BlocksCover(nd, nblock);
    BlocksFromStart(nd / nblock, nd % nblock, nblock, 0);
    CutWhole(TagRun(Data, 0, 8 * nd), nd / nblock, nd % nblock, nblock);
    BlockFits(DataBlocksOf(bytes, nblock, ne), nd / nblock, nd % nblock, nblock);
  }

  /** The check blocks, put back together, are the check run, and each
      holds ne bytes. */
  lemma CheckBlocksWhole(bytes: nat, nblock: nat, ne: nat)
    requires 0 < nblock && ne * nblock < bytes && 8 * bytes <= OffsetLimit
    ensures Concat(CheckBlocksOf(bytes, nblock, ne)) == TagRun(Check, 8 * (bytes - ne * nblock), 8 * (ne * nblock))
    ensures forall b | b in CheckBlocksOf(bytes, nblock, ne) :: |b| % 8 == 0 && |b| <= 8 * ne
  {
    BlockStartClosed(ne, 0, nblock, nblock);
    BlocksFromStart(ne, 0, nblock, 0);
    CutWhole(TagRun(Check, 8 * (bytes - ne * nblock), 8 * (ne * nblock)), ne, 0, nblock);
    CheckFits(CheckBlocksOf(bytes, nblock, ne), ne);
  }

  /** The codeword order is a permutation of the data and check runs:
      every one of the 8 · bytes codeword bits is laid exactly once. */
  lemma CodewordOrderWhole(bytes: nat, nblock: nat, ne: nat)
    requires 0 < nblock && ne * nblock < bytes && 8 * bytes <= OffsetLimit
    ensures multiset(CodewordOrder(bytes, nblock, ne)) ==
      multiset(TagRun(Data, 0, 8 * (bytes - ne * nblock)) + TagRun(Check, 8 * (bytes - ne * nblock), 8 * (ne * nblock)))
    ensures |CodewordOrder(bytes, nblock, ne)| == 8 * bytes
  {
    var data, check := TagRun(Data, 0, 8 * (bytes - ne * nblock)), TagRun(Check, 8 * (bytes - ne * nblock), 8 * (ne * nblock));
    DataBlocksWhole(bytes, nblock, ne);
    CheckBlocksWhole(bytes, nblock, ne);
    InterleavedWhole(DataBlocksOf(bytes, nblock, ne), CheckBlocksOf(bytes, nblock, ne), (bytes - ne * nblock) / nblock, ne);
    assert multiset(data + check) == multiset(data) + multiset(check);
  }

  /** Pixels that are the data and check runs, each once, are all pixels
      the sweep may place. */
  lemma BlocksCoded(bits: seq<Pixel>, data: seq<Pixel>, check: seq<Pixel>, d: nat, c: nat)
    requires d + c <= OffsetLimit
    requires data == TagRun(Data, 0, d) && check == TagRun(Check, d, c)
    requires multiset(bits) == multiset(data) + multiset(check)
    ensures multiset(bits) == multiset(TagRun(Data, 0, d) + TagRun(Check, d, c))
    ensures forall p | p in bits :: Placed(p, d + c) && !IsBlack(p)
  {
    assert multiset(data + check) == multiset(data) + multiset(check);
    TagRunsCoded(d, c);
    MultisetCoded(bits, data + check, d + c);
  }

  /** The first half of the codeword part of lplan: the data and check
      pixels, cut into nblock blocks of nde or nde + 1 data bytes (the
      longer ones last) and ne check bytes. */
  method CodewordBlocks(bytes: nat, nblock: nat, ne: nat) returns (dataList: seq<seq<Pixel>>, checkList: seq<seq<Pixel>>, nde: nat)
    requires 0 < nblock && ne * nblock < bytes && 8 * bytes <= OffsetLimit
    ensures nde == (bytes - ne * nblock) / nblock
    ensures dataList == DataBlocksOf(bytes, nblock, ne) && checkList == CheckBlocksOf(bytes, nblock, ne)
    ensures |dataList| == nblock && |checkList| == nblock
    ensures forall i | 0 <= i < nblock :: |dataList[i]| == BitLen(nde, (bytes - ne * nblock) % nblock, nblock, i)
    ensures forall i | 0 <= i < nblock :: |checkList[i]| == 8 * ne
    ensures Concat(dataList) == TagRun(Data, 0, 8 * (bytes - ne * nblock))
    ensures Concat(checkList) == TagRun(Check, 8 * (bytes - ne * nblock), 8 * (ne * nblock))
    ensures forall b | b in dataList :: |b| % 8 == 0 && |b| <= 8 * (nde + 1)
    ensures forall b | b in checkList :: |b| % 8 == 0 && |b| <= 8 * ne
  {
    nde := (bytes - ne * nblock) / nblock;
    var extra := (bytes - ne * nblock) % nblock;
    var dataBits := (nde * nblock + extra) * 8;
    var checkBits := ne * nblock * 8;
    BitCounts(bytes, nblock, ne);

    var data := Tags(Data, 0, dataBits);
    var check := Tags(Check, dataBits, checkBits);
    dataList, checkList := SplitBlocks(data, check, nblock, nde, extra, ne);
    BlockFits(dataList, nde, extra, nblock);
    CheckFits(checkList, ne);
    CutsAre(bytes, nblock, ne, data, check, dataList, checkList);
  }

  /** The blocks SplitBlocks cuts from the data and check runs are
      DataBlocksOf and CheckBlocksOf. */
  lemma CutsAre(bytes: nat, nblock: nat, ne: nat, data: seq<Pixel>, check: seq<Pixel>,
                dataList: seq<seq<Pixel>>, checkList: seq<seq<Pixel>>)
    requires 0 < nblock && ne * nblock < bytes && 8 * bytes <= OffsetLimit
    requires data == TagRun(Data, 0, 8 * (bytes - ne * nblock))
    requires check == TagRun(Check, 8 * (bytes - ne * nblock), 8 * (ne * nblock))
    requires dataList == Cut(data, (bytes - ne * nblock) / nblock, (bytes - ne * nblock) % nblock, nblock, 0)
    requires checkList == Cut(check, ne, 0, nblock, 0)
    ensures dataList == DataBlocksOf(bytes, nblock, ne) && checkList == CheckBlocksOf(bytes, nblock, ne)
  {
  }

  /** The bit counts of lplan: (nde·nblock + extra)·8 data bits and
      ne·nblock·8 check bits, 8·bytes together. */
  lemma BitCounts(bytes: nat, nblock: nat, ne: nat)
    requires 0 < nblock && ne * nblock < bytes
    ensures ((bytes - ne * nblock) / nblock * nblock + (bytes - ne * nblock) % nblock) * 8 == 8 * (bytes - ne * nblock)
    ensures ne * nblock * 8 == 8 * (ne * nblock)
  {
  }

  /** A permutation of light pixels the sweep may place holds only such
      pixels. */
  lemma MultisetCoded(bits: seq<Pixel>, whole: seq<Pixel>, limit: int)
    requires multiset(bits) == multiset(whole)
    requires forall p | p in whole :: Placed(p, limit) && !IsBlack(p)
    ensures forall p | p in bits :: Placed(p, limit) && !IsBlack(p)
  {
    forall p | p in bits
      ensures Placed(p, limit) && !IsBlack(p)
    {
      assert p in multiset(bits);
    }
  }

  /** Check blocks of ne bytes each hold a whole number of bytes. */
  lemma CheckFits(checkList: seq<seq<Pixel>>, ne: nat)
    requires forall i | 0 <= i < |checkList| :: |checkList[i]| == 8 * ne
    ensures forall b | b in checkList :: |b| % 8 == 0 && |b| <= 8 * ne
  {
  }

  /** Data block i holds nde bytes, or nde + 1: a whole number of bytes. */
  lemma BlockFits(dataList: seq<seq<Pixel>>, nde: nat, extra: nat, nblock: nat)
    requires |dataList| == nblock
    requires forall i | 0 <= i < nblock :: |dataList[i]| == BitLen(nde, extra, nblock, i)
    ensures forall b | b in dataList :: |b| % 8 == 0 && |b| <= 8 * (nde + 1)
  {
  }
}
