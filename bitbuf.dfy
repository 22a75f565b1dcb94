/** The bit buffer the encoder writes into: a sequence of bits, most
    significant bit of each byte first, kept in a byte slice whose last byte
    may be partly filled. */
module BitBuffer {
  import opened BitMath
  import opened Tables
  import opened Blocks

  // ---------------------------------------------------------------------
  // The byte slice behind the buffer

  /** The shape the byte slice of a buffer holding nbit bits keeps: one byte
      per started group of eight bits, and the free low bits of a partly
      filled last byte clear. */
  ghost predicate Packed(b: seq<Byte>, nbit: nat) {
    |b| == (nbit + 7) / 8 &&
    (nbit % 8 != 0 ==> Low(b[|b| - 1], 8 - nbit % 8) == 0)
  }

  /** Go's `uint8(x)`: the low eight bits. */
  function Uint8(x: nat): (r: Byte)
    ensures r == Low(x, 8) && Fits(r, 8)
  {
    LowFits(x, 8);
    FitsPow2(Low(x, 8), 8);
    Low(x, 8)
  }

  /** Go's `x |= y` on a byte. */
  function OrByte(x: Byte, y: Byte): (r: Byte)
    ensures r == Or(x, y)
  {
    FitsPow2(x, 8);
    FitsPow2(y, 8);
    OrFits(x, y, 8);
    FitsPow2(Or(x, y), 8);
    Or(x, y)
  }

  /** One step of Write on the last byte x, of which `used` bits are taken:
      the next k bits come from the k low bits of X shifted into place. */
  function StepByte(x: Byte, used: nat, k: nat, X: nat): (r: Byte)
    requires used + k <= 8
  {
    OrByte(x, Uint8(Shl(X, 8 - used - k)))
  }

  // ---------------------------------------------------------------------
  // One step of Write, byte by byte

  /** The step keeps the bits below the new ones clear. */
  lemma StepByteLow(x: Byte, used: nat, k: nat, X: nat)
    requires used + k <= 8 && Low(x, 8 - used) == 0
    ensures Low(StepByte(x, used, k, X), 8 - used - k) == 0
  {
    var s := 8 - used - k;
    var val := Uint8(Shl(X, s));
    LowShl(X, s, used + k);
    ShrZero(s);
    JoinBits(Low(X, used + k), 0, s);
    LowLow(x, 8 - used, s);
    LowZero(s);
    OrZeroLow(x, val, s);
  }

  /** When the k low bits of X are all the step may add (the byte was empty,
      or X fits in k bits), the byte's first used + k bits are the old used
      bits followed by the k low bits of X. */
  lemma StepByteBits(x: Byte, used: nat, k: nat, X: nat)
    requires used + k <= 8 && Low(x, 8 - used) == 0
    requires used == 0 || Fits(X, k)
    ensures BitsOf(StepByte(x, used, k, X), 8)[..used + k] == BitsOf(x, 8)[..used] + BitsOf(X, k)
  {
    var s := 8 - used - k;
    var hx := Shr(x, 8 - used);
    var c := Low(X, k);
    var Y := Shl(hx, k) + c;
    StepByteValue(x, used, k, X);
    BitsOfTop(StepByte(x, used, k, X), used + k, s);
    ShrZero(s);
    JoinBits(Y, 0, s);
    LowFits(X, k);
    BitsOfSplit(hx, c, used, k);
    BitsOfTop(x, used, 8 - used);
    BitsOfLow(X, k);
  }

  /** The stepped byte is the old used bits, then the k low bits of X, then
      zeros. */
  lemma StepByteValue(x: Byte, used: nat, k: nat, X: nat)
    requires used + k <= 8 && Low(x, 8 - used) == 0
    requires used == 0 || Fits(X, k)
    ensures StepByte(x, used, k, X) == Shl(Shl(Shr(x, 8 - used), k) + Low(X, k), 8 - used - k)
  {
    var s := 8 - used - k;
    ShiftedChunk(X, used, k);
    UsedBits(x, used, k);
    OrShifted(x, Uint8(Shl(X, s)), Shr(x, 8 - used), X, k, s);
  }

  /** `uint8(X << s)` keeps exactly the k low bits of X, shifted, when nothing
      above them can reach the byte. */
  lemma ShiftedChunk(X: nat, used: nat, k: nat)
    requires used + k <= 8 && (used == 0 || Fits(X, k))
    ensures Uint8(Shl(X, 8 - used - k)) == Shl(Low(X, k), 8 - used - k)
  {
    LowShl(X, 8 - used - k, used + k);
    if used > 0 {
      FitsWiden(X, k, used);
      LowOfFits(X, used + k);
      LowOfFits(X, k);
    }
  }

  /** A byte whose free bits are clear is its used bits shifted into place. */
  lemma UsedBits(x: nat, used: nat, k: nat)
    requires used + k <= 8 && Low(x, 8 - used) == 0
    ensures x == Shl(Shl(Shr(x, 8 - used), k), 8 - used - k)
  {
    SplitBits(x, 8 - used);
    ShlShl(Shr(x, 8 - used), k, 8 - used - k);
  }

  /** ORing two shifted values whose bits do not overlap adds them. */
  lemma OrShifted(x: nat, t: nat, hx: nat, c: nat, k: nat, s: nat)
    requires x == Shl(Shl(hx, k), s) && t == Shl(Low(c, k), s)
    ensures Or(x, t) == Shl(Shl(hx, k) + Low(c, k), s)
  {
    OrShl(Shl(hx, k), Low(c, k), s);
    LowFits(c, k);
    OrShlDisjoint(hx, Low(c, k), k);
  }

  // ---------------------------------------------------------------------
  // One step of Write on the slice

  /** Go's `-nbit & 7`: the free bits left in the last byte, 0 when it is full. */
  function Spare(nbit: int): (r: nat)
    ensures r < 8
  {
    (-nbit) % 8
  }

  /** The slice after Write has made room for the next bits: a fresh zero
      byte when the last byte is full. */
  function Grow(b: seq<Byte>, nbit: nat): (r: seq<Byte>)
    requires Packed(b, nbit)
    ensures |r| == nbit / 8 + 1 && r[..nbit / 8] == b[..nbit / 8]
  {
    if nbit % 8 == 0 then b + [0] else b
  }

  /** The slice after one step of Write adding k bits taken from X. */
  function Step(b: seq<Byte>, nbit: nat, k: nat, X: nat): (r: seq<Byte>)
    requires Packed(b, nbit) && k <= 8 - nbit % 8
    ensures |r| == nbit / 8 + 1 && r[..nbit / 8] == b[..nbit / 8]
  {
    var g := Grow(b, nbit);
    g[nbit / 8 := StepByte(g[nbit / 8], nbit % 8, k, X)]
  }

  /** The free bits of the last byte of a packed slice are clear, also when it
      is the byte Grow has just added. */
  lemma GrowLast(b: seq<Byte>, nbit: nat)
    requires Packed(b, nbit)
    ensures Low(Grow(b, nbit)[nbit / 8], 8 - nbit % 8) == 0
  {
    if nbit % 8 == 0 {
      LowZero(8);
    }
  }

  /** Where the bits of a step land: k more bits fill the last byte from
      position nbit % 8 on, possibly to its end. */
  lemma StepArith(nbit: nat, k: nat)
    requires 0 < k <= 8 - nbit % 8
    ensures (nbit + k + 7) / 8 == nbit / 8 + 1
    ensures (nbit + k) % 8 == (if nbit % 8 + k == 8 then 0 else nbit % 8 + k)
    ensures Spare(nbit + k) == 8 - nbit % 8 - k
  {
    var used, q := nbit % 8, nbit / 8;
    if used + k < 8 {
      DivModUnique(nbit + k, 8, q, used + k);
    } else {
      DivModUnique(nbit + k, 8, q + 1, 0);
    }
    DivModUnique(nbit + k + 7, 8, q + 1, used + k - 1);
    DivModUnique(-(nbit + k), 8, -(q + 1), 8 - used - k);
  }

  /** A step keeps the slice packed. */
  lemma StepPacked(b: seq<Byte>, nbit: nat, k: nat, X: nat)
    requires Packed(b, nbit) && 0 < k <= 8 - nbit % 8
    ensures Packed(Step(b, nbit, k, X), nbit + k)
  {
    GrowLast(b, nbit);
    StepByteLow(Grow(b, nbit)[nbit / 8], nbit % 8, k, X);
    StepArith(nbit, k);
  }

  /** An exact step appends the k low bits of X to the buffer's bits. */
  lemma StepBits(b: seq<Byte>, nbit: nat, k: nat, X: nat)
    requires Packed(b, nbit) && 0 < k <= 8 - nbit % 8
    requires nbit % 8 == 0 || Fits(X, k)
    ensures BytesBits(Step(b, nbit, k, X))[..nbit + k] == BytesBits(b)[..nbit] + BitsOf(X, k)
  {
    var used, q := nbit % 8, nbit / 8;
    var g := Grow(b, nbit);
    var r := Step(b, nbit, k, X);
    var c := BitsOf(X, k);
    assert BitsOf(r[q], 8)[..used + k] == BitsOf(g[q], 8)[..used] + c by {
      GrowLast(b, nbit);
      StepByteBits(g[q], used, k, X);
    }
    assert r[..q] == g[..q];
    LastByteReplaced(g, r, nbit, used, k, c);
    assert BytesBits(g)[..nbit] == BytesBits(b)[..nbit] by {
      if used == 0 {
        BytesBitsAppend(b, [0]);
      }
    }
  }

  /** Replacing the last byte by one that keeps its first `used` bits and
      continues with the k bits c extends the bit string by c. */
  lemma LastByteReplaced(g: seq<Byte>, r: seq<Byte>, nbit: nat, used: nat, k: nat, c: seq<bool>)
    requires |g| == |r| > 0 && nbit == 8 * (|g| - 1) + used && used + k <= 8 && |c| == k
    requires r[..|r| - 1] == g[..|g| - 1]
    requires BitsOf(r[|r| - 1], 8)[..used + k] == BitsOf(g[|g| - 1], 8)[..used] + c
    ensures BytesBits(r)[..nbit + k] == BytesBits(g)[..nbit] + c
  {
    LastBytePrefix(r, used + k);
    LastBytePrefix(g, used);
    Regroup(BytesBits(r)[..nbit + k], BytesBits(g)[..nbit], BytesBits(g[..|g| - 1]), BitsOf(g[|g| - 1], 8)[..used], c);
  }

  lemma Regroup<T>(x: seq<T>, y: seq<T>, p: seq<T>, u: seq<T>, c: seq<T>)
    requires x == p + (u + c) && y == p + u
    ensures x == y + c
  {
  }

  /** The first m bits of the last byte follow the bits of the bytes before it. */
  lemma LastBytePrefix(r: seq<Byte>, m: nat)
    requires |r| > 0 && m <= 8
    ensures BytesBits(r)[..8 * (|r| - 1) + m] == BytesBits(r[..|r| - 1]) + BitsOf(r[|r| - 1], 8)[..m]
  {
    var p := BytesBits(r[..|r| - 1]);
    assert BytesBits(r) == p + BitsOf(r[|r| - 1], 8);
  }

  // ---------------------------------------------------------------------
  // Padding

  /** The pad codewords 0xEC, 0x11, 0xEC, ... of section 7.4.10, count of them. */
  function PadCodewords(count: int): (r: seq<bool>)
    ensures |r| == 8 * (if count > 0 then count else 0)
    decreases count
  {
    if count <= 0 then [] else PadCodewords(count - 1) + BitsOf(if (count - 1) % 2 == 0 then 0xec else 0x11, 8)
  }

  /** The bits Pad(n) appends to a buffer holding nbit bits: up to four zeros
      of terminator; beyond that, zeros to the next byte boundary and pad
      codewords for the whole bytes left of n. */
  function PadBits(nbit: nat, n: nat): seq<bool> {
    if n <= 4 then Zeros(n)
    else
      var fill := Spare(nbit + 4);
      Zeros(4) + Zeros(fill) + PadCodewords(Quot(n - 4 - fill, 8))
  }

  /** Padding up to a byte boundary adds exactly the bits asked for: the pad
      never overshoots and ends on the boundary. */
  lemma PadExact(nbit: nat, n: nat)
    requires (nbit + n) % 8 == 0
    ensures |PadBits(nbit, n)| == n
  {
    if n > 4 {
      var fill := Spare(nbit + 4);
      var rest := n - 4 - fill;
      assert rest >= 0 && rest % 8 == 0;
      assert Quot(rest, 8) == rest / 8;
    }
  }

  // ---------------------------------------------------------------------
  // Check bytes

  /** The Reed–Solomon encoder is not part of this model: any function that
      yields the requested number of check bytes stands for it. */
  ghost predicate EccSound(ecc: (seq<Byte>, nat) -> seq<Byte>) {
    forall d, k :: |ecc(d, k)| == k
  }

  /** The codeword layout: the data bits padded to nd whole bytes, then
      the check bytes of the nblock blocks the data bytes split into. */
  ghost predicate Laid(bytes: seq<Byte>, data: seq<bool>, nd: nat, nblock: nat, check: nat,
                       ecc: (seq<Byte>, nat) -> seq<Byte>)
    requires EccSound(ecc) && nblock > 0
  {
    && |data| <= 8 * nd <= 8 * |bytes|
    && BytesBits(bytes[..nd]) == data + PadBits(|data|, 8 * nd - |data|)
    && bytes[nd..] == CheckBytes(DataBlocks(bytes[..nd], nblock), check, ecc)
  }

  /** The check bytes of the blocks, block after block. */
  function CheckBytes(blocks: seq<seq<Byte>>, check: nat, ecc: (seq<Byte>, nat) -> seq<Byte>): (r: seq<Byte>)
    requires EccSound(ecc)
    ensures |r| == |blocks| * check
  {
    if blocks == [] then [] else ecc(blocks[0], check) + CheckBytes(blocks[1..], check, ecc)
  }

  // ---------------------------------------------------------------------
  // The buffer

  class Bits {
    var b: seq<Byte>
    var nbit: nat

    ghost predicate Valid()
      reads this
    {
      Packed(b, nbit)
    }

    /** The bits written so far, in order. */
    ghost function Contents(): (r: seq<bool>)
      reads this
      requires Valid()
      ensures |r| == nbit
    {
      BytesBits(b)[..nbit]
    }

    /** The zero value `var b Bits`. */
    constructor()
      ensures Valid() && b == [] && Contents() == []
    {
      b := [];
      nbit := 0;
    }

    method Reset()
      modifies this
      ensures Valid() && b == [] && Contents() == []
    {
      b := [];
      nbit := 0;
    }

    /** The number of bits written so far. */
    function Count(): (r: nat)
      reads this
      ensures Valid() ==> r == |Contents()|
    {
      nbit
    }

    /** The bytes written so far; all of them are whole. */
    function Bytes(): (r: seq<Byte>)
      reads this
      requires Valid() && nbit % 8 == 0
      ensures BytesBits(r) == Contents() && 8 * |r| == nbit
    {
      b
    }

    method Append(p: seq<Byte>)
      requires Valid() && nbit % 8 == 0
      modifies this
      ensures Valid() && b == old(b) + p && nbit == old(nbit) + 8 * |p| && nbit % 8 == 0
      ensures Contents() == old(Contents()) + BytesBits(p)
    {
      ghost var q := nbit / 8;
      AppendBytes(b, q, p);
      b := b + p;
      nbit := nbit + 8 * |p|;
    }

    /** Appends the n0 low bits of v0, most significant first. Bytes that were
        already whole are never touched; if the last byte was partly filled
        and v0 has bits set at position n0 or above, some of them are ORed
        into that byte too, which the exact contract excludes. */
    method Write(v0: nat, n0: int)
      requires Valid()
      modifies this
      ensures Valid()
      ensures nbit == old(nbit) + (if n0 > 0 then n0 else 0)
      ensures |b| >= old(nbit) / 8 && b[..old(nbit) / 8] == old(b)[..old(nbit) / 8]
      ensures n0 >= 0 && (Fits(v0, n0) || old(nbit) % 8 == 0) ==>
        Contents() == old(Contents()) + BitsOf(v0, n0)
    {
      var v: nat, n: int := v0, n0;
      var bs: seq<Byte>, nb: nat := b, nbit;
      while n > 0
        invariant WriteInv(old(b), old(nbit), v0, n0, bs, nb, v, n)
      {
        SpareOf(nb);
        var k := if n > 8 then 8 else n;
        ghost var b0, nb0 := bs, nb;
        if nb % 8 == 0 {
          bs := bs + [0];
        } else {
          var m := Spare(nb);
          if k > m {
            k := m;
          }
        }
        nb := nb + k;
        var sh := n - k;
        bs := bs[|bs| - 1 := OrByte(bs[|bs| - 1], Uint8(Shl(Shr(v, sh), Spare(nb))))];
        WriteInvStep(old(b), old(nbit), v0, n0, b0, nb0, v, n, k, bs);
        SplitBits(v, sh);
        ghost var vo := v;
        v := v - Shl(Shr(v, sh), sh);
        n := n - k;
        assert v == Low(vo, sh) && n == sh;
      }
      b, nbit := bs, nb;
    }

    /** Pads with n bits: terminator zeros, zeros to the byte boundary, then
        alternating pad codewords. A negative n is a panic in the source. */
    method Pad(n: int)
      requires Valid() && n >= 0
      modifies this
      ensures Valid() && Contents() == old(Contents()) + PadBits(old(nbit), n)
    {
      if n <= 4 {
        ZeroBits(n);
        Write(0, n);
      } else {
        ZeroBits(4);
        Write(0, 4);
        ghost var n0 := n;
        var n := n - 4;
        n := n - Spare(Count());
        ghost var fill := Spare(Count());
        ZeroBits(Spare(Count()));
        Write(0, Spare(Count()));
        ghost var base := Contents();
        WriteCodewords(Quot(n, 8));
        PadDone(old(Contents()), old(nbit), n0, fill, base, Contents());
      }
    }

    /** The loop at the end of Pad: pad codewords 0xEC and 0x11 in turn,
        count of them. */
    method WriteCodewords(pad: int)
      requires Valid()
      modifies this
      ensures Valid() && Contents() == old(Contents()) + PadCodewords(pad)
    {
      var i := 0;
      ghost var pairs := 0;
      while i < pad
        invariant Valid() && i == 2 * pairs
        invariant i == 0 || i <= pad
        invariant Contents() == old(Contents()) + PadCodewords(i)
      {
        ghost var c0 := Contents();
        PadWord(0xec);
        Write(0xec, 8);
        PadNext(old(Contents()), i, pairs, c0, Contents());
        if i + 1 >= pad {
          return;
        }
        ghost var c1 := Contents();
        PadWord(0x11);
        Write(0x11, 8);
        PadNext(old(Contents()), i + 1, pairs, c1, Contents());
        i := i + 2;
        pairs := pairs + 1;
      }
      if pad <= 0 {
        assert PadCodewords(i) == [] == PadCodewords(pad);
      }
    }

    /** Pads the data to the data capacity of version v at level l, then
        appends the check bytes of each block, block after block. ecc stands
        for the Reed–Solomon encoder. Holding more bits than the capacity is a
        panic in the source. */
    method AddCheckBytes(v: Version, l: Level, ecc: (seq<Byte>, nat) -> seq<Byte>)
      requires Valid() && EccSound(ecc) && nbit <= 8 * DataBytes(v, l)
      modifies this
      ensures Valid() && nbit % 8 == 0 && |b| == VTab(v).bytes
      ensures Laid(b, old(Contents()), DataBytes(v, l), Lev(v, l).nblock, Lev(v, l).check, ecc)
    {
      var nd := DataBytes(v, l);
      PadToBytes(nd);
      ghost var d := b;
      var lev := Lev(v, l);
      AddBlocks(nd, lev.nblock, lev.check, ecc);
      assert b[..nd] == d;
    }

    /** The first step of AddCheckBytes: padding up to nd whole bytes. */
    method PadToBytes(nd: nat)
      requires Valid() && nbit <= 8 * nd
      modifies this
      ensures Valid() && nbit == 8 * nd && |b| == nd
      ensures BytesBits(b) == old(Contents()) + PadBits(old(nbit), 8 * nd - old(nbit))
    {
      if nbit < 8 * nd {
        PadExact(nbit, 8 * nd - nbit);
        Pad(8 * nd - nbit);
      } else {
        assert PadBits(nbit, 0) == [];
      }
      WholeBytes(b, nd);
    }

    /** The block loop of AddCheckBytes on the nd data bytes, split into
        nblock blocks with check check bytes each. */
    method AddBlocks(nd: nat, nblock: nat, check: nat, ecc: (seq<Byte>, nat) -> seq<Byte>)
      requires Valid() && EccSound(ecc) && nbit == 8 * nd && nblock > 0
      modifies this
      ensures Valid() && nbit % 8 == 0 && |b| == nd + nblock * check
      ensures b == old(b) + CheckBytes(DataBlocks(old(b), nblock), check, ecc)
    {
      ghost var d := b;
      WholeBytes(d, nd);
      var dat := Bytes();
      var db: nat := nd / nblock;
      var extra := nd % nblock;
      BlocksCover(nd, nblock);
      var i := 0;
      while i < nblock
        invariant 0 <= i <= nblock && Valid() && nbit % 8 == 0
        invariant BlocksInv(d, b, dat, db, nblock, check, ecc, i)
      {
        dat, db := AddBlock(d, dat, db, nblock, extra, check, ecc, i);
        i := i + 1;
      }
    }

    /** One pass of AddBlocks' loop: block i is the next db bytes of dat, one
        more from block nblock - extra on; its check bytes are appended. */
    method AddBlock(ghost d: seq<Byte>, dat: seq<Byte>, db: nat, nblock: nat, extra: nat, check: nat,
                    ecc: (seq<Byte>, nat) -> seq<Byte>, i: nat) returns (rest: seq<Byte>, db': nat)
      requires Valid() && nbit % 8 == 0 && BlocksInv(d, b, dat, db, nblock, check, ecc, i)
      requires i < nblock && extra == |d| % nblock
      modifies this
      ensures Valid() && nbit % 8 == 0 && BlocksInv(d, b, rest, db', nblock, check, ecc, i + 1)
    {
      BlocksStep(d, b, dat, db, nblock, check, ecc, i);
      db' := db;
      if i == nblock - extra {
        db' := db + 1;
      }
      Append(ecc(dat[..db'], check));
      rest := dat[db'..];
    }
  }

  /** What holds between passes of AddBlocks on the data d: b holds d and the
      check bytes of the first i blocks, dat the data of the blocks left, and
      db the length of the block before. */
  ghost predicate BlocksInv(d: seq<Byte>, b: seq<Byte>, dat: seq<Byte>, db: nat, nblock: nat, check: nat,
                            ecc: (seq<Byte>, nat) -> seq<Byte>, i: nat)
  {
    && nblock > 0 && EccSound(ecc) && i <= nblock
    && var q, e := |d| / nblock, |d| % nblock;
    && db == q + (if i > nblock - e then 1 else 0)
    && |dat| + BlockStart(q, e, nblock, i) == |d|
    && b + CheckBytes(Split(dat, q, e, nblock, i), check, ecc) == d + CheckBytes(DataBlocks(d, nblock), check, ecc)
  }

  /** One pass of AddBlocks: the check bytes of block i move from what is
      left to do into the buffer. */
  lemma BlocksStep(d: seq<Byte>, b: seq<Byte>, dat: seq<Byte>, db: nat, nblock: nat, check: nat,
                   ecc: (seq<Byte>, nat) -> seq<Byte>, i: nat)
    requires BlocksInv(d, b, dat, db, nblock, check, ecc, i) && i < nblock
    ensures var n := db + (if i == nblock - |d| % nblock then 1 else 0);
      && n <= |dat|
      && BlocksInv(d, b + ecc(dat[..n], check), dat[n..], n, nblock, check, ecc, i + 1)
  {
    var q, e := |d| / nblock, |d| % nblock;
    var n := BlockLen(q, e, nblock, i);
    BlockWithin(|d|, nblock, i);
    var s := Split(dat, q, e, nblock, i);
    assert s[0] == dat[..n] && s[1..] == Split(dat[n..], q, e, nblock, i + 1);
    var c := ecc(dat[..n], check);
    var rest := CheckBytes(Split(dat[n..], q, e, nblock, i + 1), check, ecc);
    assert CheckBytes(s, check, ecc) == c + rest;
    assert b + (c + rest) == (b + c) + rest;
  }

  /** A buffer holding nd whole bytes. */
  lemma WholeBytes(b: seq<Byte>, nd: nat)
    requires Packed(b, 8 * nd)
    ensures |b| == nd && BytesBits(b)[..8 * nd] == BytesBits(b)
  {
    DivModUnique(8 * nd + 7, 8, nd, 7);
  }

  /** Appending whole bytes to a buffer that holds q whole bytes. */
  lemma AppendBytes(b: seq<Byte>, q: nat, p: seq<Byte>)
    requires Packed(b, 8 * q)
    ensures Packed(b + p, 8 * (q + |p|))
    ensures BytesBits(b + p)[..8 * (q + |p|)] == BytesBits(b)[..8 * q] + BytesBits(p)
  {
    WholeBytes(b, q);
    DivModUnique(8 * (q + |p|) + 7, 8, q + |p|, 7);
    DivModUnique(8 * (q + |p|), 8, q + |p|, 0);
    BytesBitsAppend(b, p);
  }

  /** Go's `-nbit & 7` on a bit count: how many bits the last byte still
      has free. */
  lemma SpareOf(nbit: nat)
    ensures Spare(nbit) == (if nbit % 8 == 0 then 0 else 8 - nbit % 8)
  {
    DivModUnique(-(nbit as int), 8, -(nbit / 8) - (if nbit % 8 == 0 then 0 else 1),
                 if nbit % 8 == 0 then 0 else 8 - nbit % 8);
  }

  /** What holds between passes of Write's loop, which started from the
      slice b0 holding nbit0 bits to write the n0 low bits of v0: the bits
      still to write are the n low bits of v; whole bytes of b0 stay as they
      were; only the first pass can meet a partly filled byte; and when the
      call is exact, the buffer's bits followed by the bits still to write
      are the old bits followed by all n0 bits. */
  ghost predicate WriteInv(b0: seq<Byte>, nbit0: nat, v0: nat, n0: int,
                           b: seq<Byte>, nbit: nat, v: nat, n: int) {
    Packed(b0, nbit0) && Packed(b, nbit) && nbit0 <= nbit &&
    (n < 0 ==> n == n0 && nbit == nbit0) &&
    (n >= 0 ==> nbit + n == nbit0 + (if n0 > 0 then n0 else 0)) &&
    |b| >= nbit0 / 8 && b[..nbit0 / 8] == b0[..nbit0 / 8] &&
    (nbit % 8 != 0 && n > 0 ==> n == n0 && v == v0 && nbit == nbit0) &&
    (n0 >= 0 && (Fits(v0, n0) || nbit0 % 8 == 0) && n >= 0 ==>
       BytesBits(b)[..nbit] + BitsOf(v, n) == BytesBits(b0)[..nbit0] + BitsOf(v0, n0))
  }

  /** One pass of Write's loop keeps WriteInv. */
  lemma WriteInvStep(b0: seq<Byte>, nbit0: nat, v0: nat, n0: int,
                     b: seq<Byte>, nbit: nat, v: nat, n: int, k: nat, b': seq<Byte>)
    requires WriteInv(b0, nbit0, v0, n0, b, nbit, v, n) && n > 0
    requires k == (if n > 8 then 8 else n) || (nbit % 8 != 0 && k == Spare(nbit) && k < n && k < 8)
    requires nbit % 8 != 0 ==> k <= Spare(nbit)
    requires b' == var g := if nbit % 8 == 0 then b + [0] else b;
      g[|g| - 1 := OrByte(g[|g| - 1], Uint8(Shl(Shr(v, n - k), Spare(nbit + k))))]
    ensures WriteInv(b0, nbit0, v0, n0, b', nbit + k, Low(v, n - k), n - k)
  {
    SpareOf(nbit);
    WritePass(b, nbit, k, n, v, b');
    assert b'[..nbit0 / 8] == b'[..nbit / 8][..nbit0 / 8];
    var exact := n0 >= 0 && (Fits(v0, n0) || nbit0 % 8 == 0);
    if exact {
      assert nbit % 8 == 0 || Fits(v, n);
      var P := BytesBits(b')[..nbit + k];
      var L := BitsOf(Low(v, n - k), n - k);
      assert P + L == BytesBits(b)[..nbit] + BitsOf(v, n);
    }
  }

  /** One pass of Write's loop, from the slice b holding nbit bits to the
      slice b' it leaves: b' is packed, keeps every whole byte of b, and
      either ends on a byte boundary or has written all n bits; when the pass
      is exact it moves the k bits of v below position n into the buffer. */
  lemma WritePass(b: seq<Byte>, nbit: nat, k: nat, n: nat, v: nat, b': seq<Byte>)
    requires Packed(b, nbit) && 0 < k <= n && k <= 8 - nbit % 8
    requires k == n || k == 8 - nbit % 8
    requires b' == var g := if nbit % 8 == 0 then b + [0] else b;
      g[|g| - 1 := OrByte(g[|g| - 1], Uint8(Shl(Shr(v, n - k), Spare(nbit + k))))]
    ensures Packed(b', nbit + k)
    ensures |b'| >= nbit / 8 && b'[..nbit / 8] == b[..nbit / 8]
    ensures (nbit + k) % 8 == 0 || k == n
    ensures nbit % 8 == 0 || Fits(v, n) ==>
      BytesBits(b')[..nbit + k] + BitsOf(Low(v, n - k), n - k) == BytesBits(b)[..nbit] + BitsOf(v, n)
  {
    StepShape(b, nbit, k, Shr(v, n - k));
    StepPacked(b, nbit, k, Shr(v, n - k));
    if nbit % 8 == 0 || Fits(v, n) {
      StepExact(b, nbit, k, n, v);
    }
  }

  /** The byte update of one pass of Write's loop is a step. */
  lemma StepShape(b: seq<Byte>, nbit: nat, k: nat, X: nat)
    requires Packed(b, nbit) && 0 < k <= 8 - nbit % 8
    ensures var g := if nbit % 8 == 0 then b + [0] else b;
      g[|g| - 1 := OrByte(g[|g| - 1], Uint8(Shl(X, Spare(nbit + k))))] == Step(b, nbit, k, X)
    ensures (nbit + k) % 8 == 0 || k < 8 - nbit % 8
  {
    StepArith(nbit, k);
  }

  /** One exact pass of Write's loop moves the k bits of v below position n
      from v into the buffer. */
  lemma StepExact(b: seq<Byte>, nbit: nat, k: nat, n: nat, v: nat)
    requires Packed(b, nbit) && 0 < k <= 8 - nbit % 8 && k <= n
    requires nbit % 8 == 0 || Fits(v, n)
    ensures BytesBits(Step(b, nbit, k, Shr(v, n - k)))[..nbit + k] + BitsOf(Low(v, n - k), n - k)
            == BytesBits(b)[..nbit] + BitsOf(v, n)
  {
    var X, L := Shr(v, n - k), Low(v, n - k);
    if nbit % 8 != 0 {
      ShrShr(v, n - k, k);
      assert Fits(X, k);
    }
    StepBits(b, nbit, k, X);
    BitsOfShr(v, k, n - k);
    Regroup(BytesBits(b)[..nbit] + BitsOf(v, n), BytesBits(Step(b, nbit, k, X))[..nbit + k],
            BytesBits(b)[..nbit], BitsOf(X, k), BitsOf(L, n - k));
  }

  /** Writing zeros appends zero bits. */
  lemma ZeroBits(n: int)
    ensures n >= 0 ==> Fits(0, n) && BitsOf(0, n) == Zeros(n)
  {
    if n >= 0 {
      ShrZero(n);
      BitsOfZero(n);
    }
  }

  /** The next pad codeword alternates 0xEC and 0x11. */
  lemma PadNext(base: seq<bool>, i: nat, pairs: nat, c: seq<bool>, c': seq<bool>)
    requires i == 2 * pairs || i == 2 * pairs + 1
    requires c == base + PadCodewords(i)
    requires c' == c + BitsOf(if i == 2 * pairs then 0xec else 0x11, 8)
    ensures c' == base + PadCodewords(i + 1)
  {
  }

  /** After the terminator, the zeros up to the byte boundary and the pad
      codewords, the buffer holds the old bits followed by PadBits. */
  lemma PadDone(c0: seq<bool>, nbit0: nat, n: nat, fill: nat, base: seq<bool>, c: seq<bool>)
    requires n > 4 && fill == Spare(nbit0 + 4)
    requires base == c0 + Zeros(4) + Zeros(fill)
    requires c == base + PadCodewords(Quot(n - 4 - fill, 8))
    ensures c == c0 + PadBits(nbit0, n)
  {
  }

  lemma PadWord(c: nat)
    requires c < 256
    ensures Fits(c, 8)
  {
    FitsPow2(c, 8);
  }
}
