/** A QR code plan: the module grid of one version, level and mask, with
    every module labelled by its role (function pattern, format bit, data or
    check bit and which one), ready to be coloured by EncodeInto. */
module QrPlan {
  import opened BitMath
  import opened Pixels
  import opened Tables
  import opened Layout
  import opened FormatInfo
  import opened FormatPlace
  import opened Blocks
  import opened Codewords
  import opened Sweep
  import Masks
  import opened BitBuffer
  import Enc
  import opened Raster

  /** Go's `Code`: a square bitmap of `size` modules on a side, `stride`
      bytes per row, a dark module being a 1 bit, most significant bit
      first. The bitmap array may be longer than stride · size bytes, as a
      Go slice may have spare capacity; only the first stride · size bytes
      belong to the code. */
  datatype Code = Code(bitmap: array<Byte>, size: int, stride: int)

  /** What EncodeInto and Encode return: the code, one of their errors
      ("encoding not supported", "cannot encode n bits into an m-bit code",
      and Encode's own "text too long to encode as QR"), or Panic where Go
      panics, as when it slices a caller's bitmap that is too short. */
  datatype Outcome = Encoded(code: Code) | Unsupported | TooLong(bits: int, capacity: int) | TextTooLong | Panic

  /** Go's `(n + 7) &^ 7`: n rounded up to a multiple of 8. It is used as
      the number of bytes per row, eight times what a row of n bits
      needs; the rows are only spaced further apart. */
  function Stride(n: nat): (s: nat)
    ensures n <= s < n + 8 && s % 8 == 0
  {
    (n + 7) - (n + 7) % 8
  }

  class Plan {
    var version: Version
    var level: Level
    var mask: int
    var dataBytes: int
    var checkBytes: int
    var blocks: int
    var pixel: array2<Pixel>

    /** The grid is square with Size(version) modules on a side. */
    predicate Shaped()
      reads this
    {
      pixel.Length0 == Size(version) && pixel.Length1 == Size(version)
    }

    constructor Empty(v: Version, l: Level, m: int)
      ensures version == v && level == l && mask == m
    {
      version, level, mask := v, l, m;
      pixel := new Pixel[0, 0];
    }

    /** The grid as NewPlan builds it for version v, level l and mask m:
        every module that vplan and fplan drew is as they drew it, and the
        modules they left free, taken in the order of the sweep, hold the
        payload pixels one after another, masked by m. */
    ghost predicate Built(v: Version, l: Level, m: int)
      reads this, pixel
    {
      var n := Size(v);
      var fb := FormatWord(Uint32(l), Uint32(m));
      && version == v && level == l && mask == m && m <= 7 && Shaped()
      && (forall i, j | 0 <= i < n && 0 <= j < n && Role(Drawn(v, fb, i, j)) != 0 :: pixel[i, j] == Drawn(v, fb, i, j))
      && exists order :: FreeOrder(v, fb, order) && Holds(v, l, m, order)
    }

    /** The k-th module of order holds payload pixel k, masked by m. */
    ghost predicate Holds(v: Version, l: Level, m: int, order: seq<(int, int)>)
      reads this, pixel
      requires m <= 7 && FreeOrder(v, FormatWord(Uint32(l), Uint32(m)), order)
    {
      && Shaped() && version == v && |order| <= |Payload(v, l)|
      && forall k | 0 <= k < |order| ::
           pixel[order[k].0, order[k].1] == Masked(m, order[k].0, order[k].1, Payload(v, l)[k])
    }

    /** The plan as NewPlan leaves it: the byte counts and block count of
        its version and level, and every data or check module naming one
        of the codeword bits. */
    predicate Valid()
      reads this, pixel
    {
      Sized() && Coded()
    }

    /** The codeword counts are the ones the version and level give. */
    predicate Sized()
      reads this
    {
      && dataBytes == DataBytes(version, level) && blocks == Lev(version, level).nblock
      && checkBytes == Lev(version, level).nblock * Lev(version, level).check
      && dataBytes + checkBytes == VTab(version).bytes
    }

    /** Every data or check module names a bit of the dataBytes +
        checkBytes codewords. */
    predicate Coded()
      reads this, pixel
    {
      Shaped() &&
      forall i, j | 0 <= i < Size(version) && 0 <= j < Size(version) :: Codeword(pixel[i, j], 8 * (dataBytes + checkBytes))
    }

    /** Whether module (y, x) comes out dark for the codewords `bytes`: a
        data or check module flips its colour where its codeword bit (most
        significant bit of each byte first) is set; every other module keeps
        its own colour. */
    predicate Dark(bytes: seq<Byte>, y: int, x: int)
      reads this, pixel
      requires Coded() && |bytes| == dataBytes + checkBytes
      requires 0 <= y < Size(version) && 0 <= x < Size(version)
    {
      var p := pixel[y, x];
      if Role(p) == Data || Role(p) == Check then IsBlack(p) != TestBit(bytes[Offset(p) / 8], 7 - Offset(p) % 8)
      else IsBlack(p)
    }

    /** The dark modules 0 .. x-1 of row y for the codewords `bytes`. */
    ghost function DarkRow(bytes: seq<Byte>, y: int, x: int): (row: seq<bool>)
      reads this, pixel
      requires Coded() && |bytes| == dataBytes + checkBytes && 0 <= y < Size(version)
      requires 0 <= x <= Size(version)
      ensures |row| == x
      ensures forall i | 0 <= i < x :: row[i] == Dark(bytes, y, i)
      decreases x
    {
      if x == 0 then [] else DarkRow(bytes, y, x - 1) + [Dark(bytes, y, x - 1)]
    }

    /** One module as EncodeInto draws it: a codeword module has its
        pixel's black bit flipped when its bit of the codeword bytes is set. */
    method Module(bytes: seq<Byte>, y: int, x: int) returns (dark: bool)
      requires Coded() && |bytes| == dataBytes + checkBytes
      requires 0 <= y < Size(version) && 0 <= x < Size(version)
      ensures dark == Dark(bytes, y, x)
    {
      var pix := pixel[y, x];
      var r := Role(pix);
      if r == Data || r == Check {
        var o := Offset(pix);
        if TestBit(bytes[o / 8], 7 - o % 8) {
          ToggleBlack(pix);
          pix := PixelXor(pix, Black);
        }
      }
      dark := IsBlack(pix);
    }

    /** The inner loop of EncodeInto, over row y, whose bytes start at base:
        each dark module ORs its column bit into its byte; no other byte
        changes. */
    method PaintRow(bm: array<Byte>, bytes: seq<Byte>, y: int, base: nat, S: nat, ghost row: seq<bool>)
      requires Coded() && |bytes| == dataBytes + checkBytes && 0 <= y < Size(version)
      requires |row| == Size(version) && forall x | 0 <= x < Size(version) :: row[x] == Dark(bytes, y, x)
      requires Size(version) <= S && base + S <= bm.Length
      modifies bm
      ensures RowPainted(bm[..], old(bm[..]), row, base, S, Size(version))
    {
      var n := pixel.Length0;
      ghost var orig := bm[..];
      var x := 0;
      while x < n
        invariant 0 <= x <= n
        invariant RowPainted(bm[..], orig, row, base, S, x)
      {
        PaintModule(bm, bytes, y, x, base, S, row, orig);
        x := x + 1;
      }
    }

    /** One step of PaintRow: module x of row y. */
    method PaintModule(bm: array<Byte>, bytes: seq<Byte>, y: int, x: int, base: nat, S: nat,
                       ghost row: seq<bool>, ghost orig: seq<Byte>)
      requires Coded() && |bytes| == dataBytes + checkBytes && 0 <= y < Size(version) && 0 <= x < Size(version)
      requires |row| == Size(version) && row[x] == Dark(bytes, y, x)
      requires Size(version) <= S && base + S <= bm.Length
      requires RowPainted(bm[..], orig, row, base, S, x)
      modifies bm
      ensures RowPainted(bm[..], orig, row, base, S, x + 1)
    {
      var dark := Module(bytes, y, x);
      PaintStep(bm[..], orig, row, base, S, x);
      if dark {
        OrInto(bm, base + x / 8, ColumnBit(x));
      }
    }

    /** The row loop of EncodeInto: rows of S bytes, row y starting at byte
        y · S, painted in turn. */
    method Paint(bm: array<Byte>, bytes: seq<Byte>, S: nat, ghost grid: seq<seq<bool>>)
      requires Coded() && |bytes| == dataBytes + checkBytes
      requires Square(grid, Size(version))
      requires forall y, x | 0 <= y < Size(version) && 0 <= x < Size(version) :: grid[y][x] == Dark(bytes, y, x)
      requires 0 < Size(version) <= S && Size(version) * S <= bm.Length
      modifies bm
      ensures Painted(bm[..], old(bm[..]), grid, Size(version), S, Size(version))
    {
      var n := pixel.Length0;
      var y := 0;
      var base := 0;
      while y < n
        invariant 0 <= y <= n && base == y * S
        invariant Painted(bm[..], old(bm[..]), grid, n, S, y)
      {
        MulLe(y + 1, n, S);
        ghost var cur := bm[..];
        PaintRow(bm, bytes, y, base, S, grid[y]);
        PaintedStep(cur, bm[..], old(bm[..]), grid, n, S, y);
        y := y + 1;
        base := base + S;
      }
    }

    /** The dark modules of rows 0 .. y-1. */
    ghost function DarkGrid(bytes: seq<Byte>, y: int): (grid: seq<seq<bool>>)
      reads this, pixel
      requires Coded() && |bytes| == dataBytes + checkBytes && 0 <= y <= Size(version)
      ensures |grid| == y
      ensures forall i | 0 <= i < y :: grid[i] == DarkRow(bytes, i, Size(version))
      decreases y
    {
      if y == 0 then [] else DarkGrid(bytes, y - 1) + [DarkRow(bytes, y - 1, Size(version))]
    }

    /** The codewords of e: its bit stream padded to the data capacity,
        followed by the check bytes of each block. */
    ghost predicate CodewordsOf(bytes: seq<Byte>, e: Enc.Encoding, ecc: (seq<Byte>, nat) -> seq<Byte>)
      reads this
      requires EccSound(ecc) && Enc.Check(e)
    {
      && 0 <= dataBytes && 0 <= checkBytes && 0 < blocks
      && |bytes| == dataBytes + checkBytes
      && Laid(bytes, Enc.Stream(e, version), dataBytes, blocks, Lev(version, level).check, ecc)
    }

    /** bm is orig with the code for `bytes` drawn in: every bit of the
        stride · size bytes is set exactly when it was set in orig or it is
        the bit of a dark module, and every later byte is orig's. Bits beyond
        the end of orig count as clear. */
    ghost predicate Rendered(bm: seq<Byte>, orig: seq<Byte>, bytes: seq<Byte>)
      reads this, pixel
      requires Coded() && |bytes| == dataBytes + checkBytes
    {
      var n := Size(version);
      var S := Stride(n);
      && S * n <= |bm|
      && (forall k | S * n <= k < |bm| :: k < |orig| && bm[k] == orig[k])
      && forall y, c, t | 0 <= y < n && 0 <= c < S && 0 <= t < 8 ::
           BitAt(bm, S, y, c, t) <==> BitAt(orig, S, y, c, t) || (8 * c + t < n && Dark(bytes, y, 8 * c + t))
    }

    /** Go's `EncodeInto`: serializes `e`, pads and adds the check bytes
        (ecc stands for the Reed–Solomon encoder), and ORs the masked,
        coloured modules into the bitmap, a fresh zeroed one when bitmap is
        null. The two errors leave the bitmap untouched, and so does Panic:
        Go's slicing panics before any byte is written when the bitmap
        holds fewer than stride · size bytes. On success, bytes are the
        codewords the modules were coloured by, and every bit of the
        stride · size bytes is set exactly when it was set before or it is
        the bit of a dark module. */
    method EncodeInto(bitmap: array?<Byte>, e: Enc.Encoding, ecc: (seq<Byte>, nat) -> seq<Byte>)
      returns (r: Outcome, ghost bytes: seq<Byte>)
      requires Valid() && EccSound(ecc)
      modifies bitmap
      ensures !Enc.Check(e) ==> r == Unsupported
      ensures Enc.Check(e) && Enc.Bits(e, version) > 8 * dataBytes ==> r == TooLong(Enc.Bits(e, version), 8 * dataBytes)
      ensures Enc.Check(e) && Enc.Bits(e, version) <= 8 * dataBytes ==>
        && (r.Encoded? || r == Panic)
        && (r == Panic <==> bitmap != null && bitmap.Length < Stride(Size(version)) * Size(version))
      ensures !r.Encoded? && bitmap != null ==> bitmap[..] == old(bitmap[..])
      ensures r.Encoded? ==>
        && Enc.Check(e) && Enc.Bits(e, version) <= 8 * dataBytes
        && r.code.size == Size(version) && r.code.stride == Stride(Size(version))
        && (bitmap == null ==> fresh(r.code.bitmap) && r.code.bitmap.Length == Stride(Size(version)) * Size(version))
        && (bitmap != null ==> r.code.bitmap == bitmap)
        && CodewordsOf(bytes, e, ecc)
        && Rendered(r.code.bitmap[..], if bitmap == null then [] else old(bitmap[..]), bytes)
    {
      if !Enc.Check(e) {
        return Unsupported, [];
      }
      var nbit, bs := Serialize(e, ecc);
      if nbit > dataBytes * 8 {
        return TooLong(nbit, dataBytes * 8), [];
      }
      bytes := bs;
      r := Draw(bitmap, bs);
    }

    /** Go's `Plan.Encode`: EncodeInto with no bitmap, so a code that fits
        is drawn on a fresh one and never panics. */
    method Encode(e: Enc.Encoding, ecc: (seq<Byte>, nat) -> seq<Byte>)
      returns (r: Outcome, ghost bytes: seq<Byte>)
      requires Valid() && EccSound(ecc)
      ensures !Enc.Check(e) ==> r == Unsupported
      ensures Enc.Check(e) && Enc.Bits(e, version) > 8 * dataBytes ==> r == TooLong(Enc.Bits(e, version), 8 * dataBytes)
      ensures Enc.Check(e) && Enc.Bits(e, version) <= 8 * dataBytes ==>
        && r.Encoded? && fresh(r.code.bitmap)
        && r.code.size == Size(version) && r.code.stride == Stride(Size(version))
        && r.code.bitmap.Length == Stride(Size(version)) * Size(version)
        && CodewordsOf(bytes, e, ecc)
        && Rendered(r.code.bitmap[..], [], bytes)
    {
      r, bytes := EncodeInto(null, e, ecc);
    }

    /** The first half of EncodeInto: e's bit stream goes into a fresh bit
        buffer; when it fits the data capacity, it is padded and the check
        bytes are added, giving the codewords of e. */
    method Serialize(e: Enc.Encoding, ecc: (seq<Byte>, nat) -> seq<Byte>) returns (nbit: int, bytes: seq<Byte>)
      requires Sized() && EccSound(ecc) && Enc.Check(e)
      ensures nbit == Enc.Bits(e, version)
      ensures nbit <= 8 * dataBytes ==> CodewordsOf(bytes, e, ecc)
    {
      var b := new Bits();
      Enc.Encode(e, b, version);
      nbit := b.Count();
      if nbit > dataBytes * 8 {
        return nbit, [];
      }
      Enc.CountFits(e, version, level);
      ghost var stream := b.Contents();
      assert stream == Enc.Stream(e, version);
      b.AddCheckBytes(version, level, ecc);
      bytes := b.Bytes();
    }

    /** The drawing half of EncodeInto: the bitmap, fresh and zeroed when
        null, must hold stride · size bytes, or Go's slicing panics before
        anything is written; then every module is ORed in. */
    method Draw(bitmap: array?<Byte>, bytes: seq<Byte>) returns (r: Outcome)
      requires Coded() && |bytes| == dataBytes + checkBytes
      modifies bitmap
      ensures r == Panic || r.Encoded?
      ensures r == Panic <==> bitmap != null && bitmap.Length < Stride(Size(version)) * Size(version)
      ensures r == Panic ==> bitmap[..] == old(bitmap[..])
      ensures r.Encoded? ==>
        && r.code.size == Size(version) && r.code.stride == Stride(Size(version))
        && (bitmap == null ==> fresh(r.code.bitmap) && r.code.bitmap.Length == Stride(Size(version)) * Size(version))
        && (bitmap != null ==> r.code.bitmap == bitmap)
        && Rendered(r.code.bitmap[..], if bitmap == null then [] else old(bitmap[..]), bytes)
    {
      var n := pixel.Length0;
      var S := Stride(n);
      var bm: array<Byte>;
      if bitmap == null {
        bm := new Byte[S * n](_ => 0);
      } else {
        bm := bitmap;
      }
      if bm.Length < S * n {
        return Panic;
      }
      ghost var orig := if bitmap == null then [] else bm[..];
      ghost var before := bm[..];
      ghost var grid := DarkGrid(bytes, n);
      Paint(bm, bytes, S, grid);
      PaintedDrawn(bm[..], before, orig, bytes, grid);
      r := Encoded(Code(bm, n, S));
    }

    /** Painting the grid of dark modules over `before` draws the code over
        orig, which is before itself or, for a zeroed bitmap of exactly
        stride · size bytes, the empty bitmap. */
    lemma PaintedDrawn(cur: seq<Byte>, before: seq<Byte>, orig: seq<Byte>, bytes: seq<Byte>, grid: seq<seq<bool>>)
      requires Coded() && |bytes| == dataBytes + checkBytes
      requires Square(grid, Size(version))
      requires forall y, x | 0 <= y < Size(version) && 0 <= x < Size(version) :: grid[y][x] == Dark(bytes, y, x)
      requires Stride(Size(version)) * Size(version) <= |before|
      requires Painted(cur, before, grid, Size(version), Stride(Size(version)), Size(version))
      requires orig == before ||
        (orig == [] && |before| == Stride(Size(version)) * Size(version) && forall k | 0 <= k < |before| :: before[k] == 0)
      ensures Rendered(cur, orig, bytes)
    {
      var n := Size(version);
      var S := Stride(n);
      forall y, c, t | 0 <= y < n && 0 <= c < S && 0 <= t < 8 {
        PaintedDrawnAt(cur, before, orig, bytes, grid, y, c, t);
      }
    }

    lemma PaintedDrawnAt(cur: seq<Byte>, before: seq<Byte>, orig: seq<Byte>, bytes: seq<Byte>, grid: seq<seq<bool>>,
                         y: nat, c: nat, t: nat)
      requires Coded() && |bytes| == dataBytes + checkBytes
      requires Square(grid, Size(version))
      requires forall y, x | 0 <= y < Size(version) && 0 <= x < Size(version) :: grid[y][x] == Dark(bytes, y, x)
      requires Stride(Size(version)) * Size(version) <= |before|
      requires Painted(cur, before, grid, Size(version), Stride(Size(version)), Size(version))
      requires orig == before ||
        (orig == [] && |before| == Stride(Size(version)) * Size(version) && forall k | 0 <= k < |before| :: before[k] == 0)
      requires y < Size(version) && c < Stride(Size(version)) && t < 8
      ensures BitAt(cur, Stride(Size(version)), y, c, t) <==>
        BitAt(orig, Stride(Size(version)), y, c, t) || (8 * c + t < Size(version) && Dark(bytes, y, 8 * c + t))
    {
      PaintedBit(cur, before, grid, Size(version), Stride(Size(version)), y, c, t);
      if orig != before {
        ClearBits(before, Stride(Size(version)), y, c, t);
      }
    }


    /** `vplan`: a fresh grid holding the function patterns of the version
        and nothing else. */
    method VPlan()
      modifies this
      ensures version == old(version) && level == old(level) && mask == old(mask)
      ensures fresh(pixel) && Shaped()
      ensures forall i, j | 0 <= i < Size(version) && 0 <= j < Size(version) :: pixel[i, j] == VPixel(version, i, j)
    {
      var v := version;
      var siz: int := 17 + (v as int) * 4;
      var m := Grid(siz);
      pixel := m;
      DrawFinders(m);
      var info := VTab(v);
      VTabOk(v);
      AlignBoxes(m, info.apos, info.astride);
      DrawPattern(m, info.apos, info.astride, info.pattern);
    }

    /** `fplan`: the format word of the plan's level and mask, computed as
        Go computes it on uint32, goes to both format areas; every other
        module is unchanged. */
    method FPlan()
      requires Shaped()
      modifies pixel
      ensures forall r, c | 0 <= r < Size(version) && 0 <= c < Size(version) ::
        pixel[r, c] == FormatOver(Size(version), FormatWord(Uint32(level), Uint32(mask)), r, c, old(pixel[r, c]))
    {
      var fb := FormatBits(Uint32(level), Uint32(mask));
      PlaceFormat(pixel, fb);
    }

    /** `mplan`: every data, check and remainder module where the plan's
        mask inverts is toggled. */
    method MPlan()
      requires Shaped() && mask <= 7
      modifies pixel
      ensures forall i, j | 0 <= i < Size(version) && 0 <= j < Size(version) ::
        pixel[i, j] == Masked(mask, i, j, old(pixel[i, j]))
    {
      var n := pixel.Length0;
      var y := 0;
      while y < n
        invariant 0 <= y <= n
        invariant forall i, j | 0 <= i < n && 0 <= j < n ::
          pixel[i, j] == if i < y then Masked(mask, i, j, old(pixel[i, j])) else old(pixel[i, j])
      {
        var x := 0;
        while x < n
          invariant 0 <= x <= n
          invariant forall i, j | 0 <= i < n && 0 <= j < n ::
            pixel[i, j] == if i < y || (i == y && j < x) then Masked(mask, i, j, old(pixel[i, j])) else old(pixel[i, j])
        {
          var r := Role(pixel[y, x]);
          if (r == Data || r == Check || r == Extra) && Masks.Invert(mask, y, x) {
            pixel[y, x] := PixelXor(pixel[y, x], 3);
          }
          x := x + 1;
        }
        y := y + 1;
      }
    }

    /** `lplan`: the block layout of the plan's version and level, and the
        codeword pixels swept into the empty modules. The data pixels name
        bits 0 .. 8·dataBytes-1 and the check pixels the bits after them;
        cut into blocks and interleaved (bits holds them in CodewordOrder,
        every pixel exactly once), then followed by seven remainder pixels,
        they fill the empty modules in the order of the sweep. ok is false
        when the sweep runs out of pixels, where Go panics. */
    method LPlan() returns (ok: bool, ghost bits: seq<Pixel>, ghost g0: seq<seq<Pixel>>, ghost order: seq<(int, int)>)
      requires Shaped()
      requires forall i, j | 0 <= i < Size(version) && 0 <= j < Size(version) :: Role(pixel[i, j]) < Data
      modifies this, pixel
      ensures version == old(version) && level == old(level) && mask == old(mask) && pixel == old(pixel)
      ensures dataBytes == DataBytes(version, level) && blocks == Lev(version, level).nblock
      ensures checkBytes == Lev(version, level).nblock * Lev(version, level).check
      ensures 0 < dataBytes && 0 < checkBytes && dataBytes + checkBytes == VTab(version).bytes <= 3706
      ensures bits + RemPixels() == Payload(version, level)
      ensures multiset(bits) == multiset(TagRun(Data, 0, 8 * dataBytes) + TagRun(Check, 8 * dataBytes, 8 * checkBytes))
      ensures |g0| == Size(version) && forall i | 0 <= i < Size(version) :: |g0[i]| == Size(version)
      ensures forall i, j | 0 <= i < Size(version) && 0 <= j < Size(version) :: g0[i][j] == old(pixel[i, j])
      ensures ok ==> Swept(pixel, g0, bits + RemPixels(), order, Steps(Size(version)))
      ensures ok ==> forall i, j | 0 <= i < Size(version) && 0 <= j < Size(version) ::
        && (Role(old(pixel[i, j])) != 0 ==> pixel[i, j] == old(pixel[i, j]))
        && (Role(old(pixel[i, j])) == 0 && j != 6 ==> Placed(pixel[i, j], 8 * (dataBytes + checkBytes)) && !IsBlack(pixel[i, j]))
      ensures ok ==> Coded()
    {
      LevelLayout();
      var v, l, nbyte, nblock := version, level, dataBytes + checkBytes, blocks;
      var ne := Lev(v, l).check;
      var b := CodewordPixels(nbyte, nblock, ne);
      bits := b;
      PayloadIs(v, l, b, nbyte, nblock, ne);
      var src := b + RemPixels();
      SourcePlaced(b, 8 * nbyte);
      SizeSide(v);
      ok, g0, order := SweepIn(pixel, src, 8 * nbyte);
    }

    /** The block-layout part of lplan: the data and check byte counts and
        the number of blocks of the plan's version and level. */
    method LevelLayout()
      modifies this`dataBytes, this`checkBytes, this`blocks
      ensures dataBytes == DataBytes(version, level) && blocks == Lev(version, level).nblock
      ensures checkBytes == blocks * Lev(version, level).check
      ensures 0 < dataBytes && 0 < checkBytes && dataBytes + checkBytes == VTab(version).bytes <= 3706
    {
      var v, l := version, level;
      var info := VTab(v);
      var li := Lev(v, l);
      var nblock, ne := li.nblock, li.check;
      dataBytes, checkBytes, blocks := info.bytes - ne * nblock, ne * nblock, nblock;
      BytesRange(v);
    }
  }

  /** Module (i, j) of the grid after vplan and fplan: the function
      patterns of version v with the format modules of word fb over them. */
  function Drawn(v: Version, fb: bv32, i: int, j: int): Pixel {
    FormatOver(Size(v), fb, i, j, VPixel(v, i, j))
  }

  /** vplan and fplan draw no data, check or remainder module, and leave
      no module of column 6 empty. */
  lemma DrawnRoles(v: Version, fb: bv32, i: int, j: int)
    requires 0 <= i < Size(v) && 0 <= j < Size(v)
    ensures Role(Drawn(v, fb, i, j)) < Data
    ensures j == 6 ==> Role(Drawn(v, fb, i, j)) != 0
  {
    var n := Size(v);
    if 0 <= IndexB(n, i, j) < 15 {
      FormatPixelFields(fb, IndexB(n, i, j));
    } else if 0 <= IndexA(i, j) < 15 {
      FormatPixelFields(fb, IndexA(i, j));
    } else {
      VPixelRole(v, i, j);
      if j == 6 {
        Column6Taken(v, i);
      }
    }
  }

  /** The pixels lplan lays into the free modules of version v at level
      l, in order: the codeword pixels in CodewordOrder, then seven
      remainder pixels. */
  function Payload(v: Version, l: Level): seq<Pixel>
  {
    BytesRange(v);
    var li := Lev(v, l);
    CodewordOrder(VTab(v).bytes, li.nblock, li.check) + RemPixels()
  }

  /** The codeword pixels of `bytes` codewords in nblock blocks of ne
      check bytes, the counts of version v and level l, in CodewordOrder and
      with the remainder pixels after them, are the Payload. */
  lemma PayloadIs(v: Version, l: Level, bits: seq<Pixel>, bytes: nat, nblock: nat, ne: nat)
    requires bytes == VTab(v).bytes && nblock == Lev(v, l).nblock && ne == Lev(v, l).check
    requires 0 < nblock && ne * nblock < bytes && 8 * bytes <= OffsetLimit
    requires bits == CodewordOrder(bytes, nblock, ne)
    ensures bits + RemPixels() == Payload(v, l)
  {
  }

  /** The payload of version v at level l is a permutation of its data
      tags, its check tags and the seven remainder pixels: each of the
      VTab(v).bytes codewords' bits, whose offsets all fit a pixel, is
      laid exactly once. */
  lemma PayloadWhole(v: Version, l: Level)
    ensures 8 * VTab(v).bytes <= OffsetLimit
    ensures var nc := Lev(v, l).check * Lev(v, l).nblock;
      multiset(Payload(v, l)) ==
        multiset(TagRun(Data, 0, 8 * (VTab(v).bytes - nc)) + TagRun(Check, 8 * (VTab(v).bytes - nc), 8 * nc)) + multiset(RemPixels())
    ensures |Payload(v, l)| == 8 * VTab(v).bytes + 7
  {
    BytesRange(v);
    var bytes, li := VTab(v).bytes, Lev(v, l);
    var order := CodewordOrder(bytes, li.nblock, li.check);
    assert Payload(v, l) == order + RemPixels();
    CodewordOrderWhole(bytes, li.nblock, li.check);
    assert multiset(order + RemPixels()) == multiset(order) + multiset(RemPixels());
  }

  /** order lists the modules that vplan and fplan leave free in the grid
      of version v with format word fb: every free module and nothing else,
      in strictly increasing order of the sweep (so each once). */
  ghost predicate FreeOrder(v: Version, fb: bv32, order: seq<(int, int)>)
  {
    var n := Size(v);
    && InOrder(n, order)
    && (forall k | 0 <= k < |order| ::
          0 <= order[k].0 < n && 0 <= order[k].1 < n && Role(Drawn(v, fb, order[k].0, order[k].1)) == 0)
    && (forall i, j | 0 <= i < n && 0 <= j < n && Role(Drawn(v, fb, i, j)) == 0 :: (i, j) in order)
  }

  /** A completed sweep over the grid vplan and fplan drew lists exactly
      the free modules, in sweep order, and lays src[k] into the k-th. */
  lemma SweptFree(v: Version, fb: bv32, m: array2<Pixel>, g0: seq<seq<Pixel>>, s: seq<seq<Pixel>>, src: seq<Pixel>, order: seq<(int, int)>)
    requires m.Length0 == Size(v) && m.Length1 == Size(v)
    requires Swept(m, g0, src, order, Steps(Size(v)))
    requires forall i, j | 0 <= i < Size(v) && 0 <= j < Size(v) :: g0[i][j] == Drawn(v, fb, i, j)
    requires |s| == Size(v) && forall i | 0 <= i < Size(v) :: |s[i]| == Size(v)
    requires forall i, j | 0 <= i < Size(v) && 0 <= j < Size(v) :: s[i][j] == m[i, j]
    ensures FreeOrder(v, fb, order) && |order| <= |src|
    ensures forall k | 0 <= k < |order| :: s[order[k].0][order[k].1] == src[k]
  {
    var n := Size(v);
    forall k | 0 <= k < |order|
      ensures 0 <= order[k].0 < n && 0 <= order[k].1 < n && Role(Drawn(v, fb, order[k].0, order[k].1)) == 0
      ensures s[order[k].0][order[k].1] == src[k]
    {
      assert Filled(m, g0, src, order, Steps(n), k);
    }
    SweptAll(v, fb, m, g0, order);
  }

  /** Every free module is visited by a completed sweep, so it is listed. */
  lemma SweptAll(v: Version, fb: bv32, m: array2<Pixel>, g0: seq<seq<Pixel>>, order: seq<(int, int)>)
    requires m.Length0 == Size(v) && m.Length1 == Size(v)
    requires |g0| == Size(v) && forall i | 0 <= i < Size(v) :: |g0[i]| == Size(v)
    requires forall i, j | 0 <= i < Size(v) && 0 <= j < Size(v) :: Kept(m, g0, order, Steps(Size(v)), i, j)
    requires forall i, j | 0 <= i < Size(v) && 0 <= j < Size(v) :: g0[i][j] == Drawn(v, fb, i, j)
    ensures forall i, j | 0 <= i < Size(v) && 0 <= j < Size(v) && Role(Drawn(v, fb, i, j)) == 0 :: (i, j) in order
  {
    KeptAll(m, g0, order);
    forall i, j | 0 <= i < Size(v) && 0 <= j < Size(v) && Role(Drawn(v, fb, i, j)) == 0
      ensures (i, j) in order
    {
      FreeNotSix(v, fb, i, j);
    }
  }

  /** Every empty module of g0 outside column 6 is listed by a completed
      sweep. */
  lemma KeptAll(m: array2<Pixel>, g0: seq<seq<Pixel>>, order: seq<(int, int)>)
    requires GridSide(m.Length0) && m.Length0 == m.Length1
    requires |g0| == m.Length0 && forall i | 0 <= i < m.Length0 :: |g0[i]| == m.Length0
    requires forall i, j | 0 <= i < m.Length0 && 0 <= j < m.Length0 :: Kept(m, g0, order, Steps(m.Length0), i, j)
    ensures forall i, j | 0 <= i < m.Length0 && 0 <= j < m.Length0 && j != 6 && Role(g0[i][j]) == 0 :: (i, j) in order
  {
    forall i, j | 0 <= i < m.Length0 && 0 <= j < m.Length0 && j != 6 && Role(g0[i][j]) == 0
      ensures (i, j) in order
    {
      KeptListed(m, g0, order, i, j);
    }
  }

  /** A free module outside column 6 is one the completed sweep lists. */
  lemma KeptListed(m: array2<Pixel>, g0: seq<seq<Pixel>>, order: seq<(int, int)>, i: int, j: int)
    requires GridSide(m.Length0) && m.Length0 == m.Length1 && 0 <= i < m.Length0 && 0 <= j < m.Length0 && j != 6
    requires |g0| == m.Length0 && |g0[i]| == m.Length1 && Role(g0[i][j]) == 0
    requires Kept(m, g0, order, Steps(m.Length0), i, j)
    ensures (i, j) in order
  {
    VisitBelow(m.Length0, i, j);
  }

  /** No module of column 6 is free. */
  lemma FreeNotSix(v: Version, fb: bv32, i: int, j: int)
    requires 0 <= i < Size(v) && 0 <= j < Size(v) && Role(Drawn(v, fb, i, j)) == 0
    ensures j != 6
  {
    DrawnRoles(v, fb, i, j);
  }

  /** mplan over a swept grid: the plan is Built. */
  lemma MaskedBuilt(p: Plan, v: Version, l: Level, m: int, swept: seq<seq<Pixel>>, order: seq<(int, int)>)
    requires m <= 7 && p.version == v && p.level == l && p.mask == m && p.Shaped()
    requires |swept| == Size(v) && forall i | 0 <= i < Size(v) :: |swept[i]| == Size(v)
    requires FreeOrder(v, FormatWord(Uint32(l), Uint32(m)), order) && |order| <= |Payload(v, l)|
    requires forall k | 0 <= k < |order| :: swept[order[k].0][order[k].1] == Payload(v, l)[k]
    requires forall i, j | 0 <= i < Size(v) && 0 <= j < Size(v) :: p.pixel[i, j] == Masked(m, i, j, swept[i][j])
    requires forall i, j | 0 <= i < Size(v) && 0 <= j < Size(v) ::
      var d := Drawn(v, FormatWord(Uint32(l), Uint32(m)), i, j);
      Role(d) != 0 ==> p.pixel[i, j] == d
    ensures p.Built(v, l, m)
  {
    assert p.Holds(v, l, m, order);
  }

  /** `NewPlan`: vplan, fplan, lplan and mplan in turn. ok is false where
      the sweep of lplan runs out of pixels and Go panics. On success the
      plan is Valid, every module that vplan or fplan drew is as they drew
      it, and every module they left empty holds a data, check or remainder
      pixel, dark exactly where the mask inverts. */
  method NewPlan(v: Version, l: Level, m: int) returns (p: Plan, ok: bool)
    requires m <= 7
    ensures fresh(p) && p.version == v && p.level == l && p.mask == m
    ensures ok ==> p.Valid() && p.Built(v, l, m)
    ensures ok ==> forall i, j | 0 <= i < Size(v) && 0 <= j < Size(v) ::
      var d := Drawn(v, FormatWord(Uint32(l), Uint32(m)), i, j);
      && (Role(d) != 0 ==> p.pixel[i, j] == d)
      && (Role(d) == 0 ==> Placed(p.pixel[i, j], 8 * VTab(v).bytes) && IsBlack(p.pixel[i, j]) == Masks.Invert(m, i, j))
  {
    p := new Plan.Empty(v, l, m);
    p.VPlan();
    p.FPlan();
    ghost var fb := FormatWord(Uint32(l), Uint32(m));
    ghost var n := Size(v);
    ghost var drawn := Snap(p.pixel);
    forall i, j | 0 <= i < n && 0 <= j < n
      ensures drawn[i][j] == Drawn(v, fb, i, j) && Role(drawn[i][j]) < Data
    {
      DrawnRoles(v, fb, i, j);
    }
    ghost var bits, g0, order;
    ok, bits, g0, order := p.LPlan();
    if !ok {
      return;
    }
    ghost var swept := Snap(p.pixel);
    SweptFree(v, fb, p.pixel, g0, swept, bits + RemPixels(), order);
    p.MPlan();
    forall i, j | 0 <= i < n && 0 <= j < n
      ensures var d := Drawn(v, fb, i, j);
        && (Role(d) != 0 ==> p.pixel[i, j] == d)
        && (Role(d) == 0 ==> Placed(p.pixel[i, j], 8 * VTab(v).bytes) && IsBlack(p.pixel[i, j]) == Masks.Invert(m, i, j))
    {
      DrawnRoles(v, fb, i, j);
      MaskedFields(m, i, j, swept[i][j]);
    }
    MaskedBuilt(p, v, l, m, swept, order);
  }

  /** A symbol of any version has a side the sweep can walk. */
  lemma SizeSide(v: Version)
    ensures GridSide(Size(v))
  {
    assert Size(v) == 4 * v + 17;
  }

  /** The seven remainder pixels that follow the codewords. */
  function RemPixels(): (s: seq<Pixel>)
    ensures |s| == 7 && forall p | p in s :: Role(p) == Extra && !IsBlack(p)
  {
    RoleBlack(Extra);
    seq(7, _ => RolePixel(Extra))
  }

  /** The codeword pixels followed by the remainder pixels are all pixels
      the sweep may place. */
  lemma SourcePlaced(bits: seq<Pixel>, limit: int)
    requires forall p | p in bits :: Placed(p, limit) && !IsBlack(p)
    ensures forall p | p in bits + RemPixels() :: Placed(p, limit) && !IsBlack(p)
  {
  }

  /** The sweep of lplan over grid m with the pixels src, each a pixel the
      sweep may place for a limit of `limit` bits: when it closes, every
      module that was not empty is as it was and every empty one outside
      column 6 holds a pixel of src, in the order of the sweep. */
  method SweepIn(m: array2<Pixel>, src: seq<Pixel>, ghost limit: int) returns (ok: bool, ghost g0: seq<seq<Pixel>>, ghost order: seq<(int, int)>)
    requires m.Length0 == m.Length1 && GridSide(m.Length0)
    requires forall i, j | 0 <= i < m.Length0 && 0 <= j < m.Length0 :: Role(m[i, j]) < Data
    requires forall p | p in src :: Placed(p, limit) && !IsBlack(p)
    modifies m
    ensures |g0| == m.Length0 && (forall i | 0 <= i < m.Length0 :: |g0[i]| == m.Length0)
    ensures forall i, j | 0 <= i < m.Length0 && 0 <= j < m.Length0 :: g0[i][j] == old(m[i, j])
    ensures ok ==> Swept(m, g0, src, order, Steps(m.Length0))
    ensures ok ==> forall i, j | 0 <= i < m.Length0 && 0 <= j < m.Length0 ::
      && (Role(g0[i][j]) != 0 ==> m[i, j] == g0[i][j])
      && (Role(g0[i][j]) == 0 && j != 6 ==> Placed(m[i, j], limit) && !IsBlack(m[i, j]))
      && Codeword(m[i, j], limit)
  {
    ok, g0, order := ZigZag(m, src);
    if ok {
      SweptPlaced(m, g0, src, order, limit);
    }
  }

  /** After the whole sweep, every module that was not empty is as it
      was, every empty module outside column 6 holds a pixel of src, and
      when src holds only pixels the sweep may place, every module is a
      codeword pixel. */
  lemma SweptPlaced(m: array2<Pixel>, g0: seq<seq<Pixel>>, src: seq<Pixel>, order: seq<(int, int)>, limit: int)
    requires GridSide(m.Length0) && Swept(m, g0, src, order, Steps(m.Length0))
    requires forall i, j | 0 <= i < m.Length0 && 0 <= j < m.Length0 :: Role(g0[i][j]) < Data
    requires forall p | p in src :: Placed(p, limit) && !IsBlack(p)
    ensures forall i, j | 0 <= i < m.Length0 && 0 <= j < m.Length0 ::
      && (Role(g0[i][j]) != 0 ==> m[i, j] == g0[i][j])
      && (Role(g0[i][j]) == 0 && j != 6 ==> Placed(m[i, j], limit) && !IsBlack(m[i, j]))
      && Codeword(m[i, j], limit)
  {
    var n := m.Length0;
    forall i, j | 0 <= i < n && 0 <= j < n
      ensures Role(g0[i][j]) != 0 ==> m[i, j] == g0[i][j]
      ensures Role(g0[i][j]) == 0 && j != 6 ==> Placed(m[i, j], limit) && !IsBlack(m[i, j])
      ensures Codeword(m[i, j], limit)
    {
      assert Kept(m, g0, order, Steps(n), i, j);
      if j != 6 {
        VisitBelow(n, i, j);
      }
      if (i, j) in order {
        var k :| 0 <= k < |order| && order[k] == (i, j);
        assert Filled(m, g0, src, order, Steps(n), k);
      }
    }
  }

  /** Module (y, x) after mplan when it held p: a data, check or remainder
      module where mask m inverts is toggled between dark and light and
      flagged Invert; every other module is unchanged. */
  function Masked(m: int, y: int, x: int, p: Pixel): Pixel
    requires m <= 7
  {
    if (Role(p) == Data || Role(p) == Check || Role(p) == Extra) && Masks.Invert(m, y, x) then PixelXor(p, 3) else p
  }

  /** Masking keeps the role and the offset, flips the colour exactly of
      the codeword and remainder modules the mask inverts, and undoes
      itself. */
  lemma MaskedFields(m: int, y: int, x: int, p: Pixel)
    requires m <= 7
    ensures Role(Masked(m, y, x, p)) == Role(p) && Offset(Masked(m, y, x, p)) == Offset(p)
    ensures IsBlack(Masked(m, y, x, p)) == (IsBlack(p) != ((Role(p) == Data || Role(p) == Check || Role(p) == Extra) && Masks.Invert(m, y, x)))
    ensures Masked(m, y, x, Masked(m, y, x, p)) == p
  {
    ToggleBlackInvert(p);
    XorTwice(p as int, 3);
  }
}
