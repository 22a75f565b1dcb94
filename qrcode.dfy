/** The public package: a code with a scale, its module reads, and its
    image geometry (bounds and the colour of each image pixel), over the
    internal Encode. */
module QrCode {
  import opened BitMath
  import opened Tables
  import Enc
  import BitBuffer
  import opened Raster
  import opened QrPlan
  import opened Coding

  /** Go's public `Code`: the internal code's bitmap, size and stride,
      with the number of image pixels per module. */
  datatype PubCode = PubCode(bitmap: array<Byte>, size: int, stride: int, scale: int)

  /** What EncodeInto returns: the code, or the internal error passed
      through unchanged. */
  datatype Result = Ok(code: PubCode) | Failed(why: Outcome)

  /** Byte y · stride + x / 8, the one IsBlack reads for module (x, y),
      lies within the bitmap. */
  predicate Indexed(c: PubCode, x: int, y: int)
  {
    0 <= y * c.stride + x / 8 < c.bitmap.Length
  }

  /** IsBlack can read every module of the grid without leaving the
      bitmap: exactly what Go's indexing needs not to panic. */
  predicate Sound(c: PubCode)
  {
    forall x, y | 0 <= x < c.size && 0 <= y < c.size :: Indexed(c, x, y)
  }

  /** A bitmap of size rows of stride bytes, where a row has room for size
      modules, is Sound. */
  lemma RowsSound(c: PubCode)
    requires 0 <= c.size <= 8 * c.stride && c.stride * c.size <= c.bitmap.Length
    ensures Sound(c)
  {
    forall x, y | 0 <= x < c.size && 0 <= y < c.size
      ensures Indexed(c, x, y)
    {
      RowIndex(c.size, c.stride, x, y);
    }
  }

  /** Byte x / 8 of row y lies before row y + 1, within size rows. */
  lemma RowIndex(size: int, stride: int, x: int, y: int)
    requires 0 <= x < size <= 8 * stride && 0 <= y < size
    ensures 0 <= y * stride + x / 8 < size * stride
  {
    MulLt(y, size, stride);
    MulLe(0, y, stride);
    assert x / 8 < stride;
  }

  /** Go's `IsBlack`: false off the grid, without reading the bitmap;
      on the grid, bit 7 - x % 8 of byte y · stride + x / 8. */
  predicate IsBlack(c: PubCode, x: int, y: int)
    reads c.bitmap
    requires Sound(c)
  {
    if 0 <= x < c.size && 0 <= y < c.size then
      assert Indexed(c, x, y);
      TestBit(c.bitmap[y * c.stride + x / 8], 7 - x % 8)
    else false
  }

  /** IsBlack is false off the grid, and on it reads the bit BitAt names
      for row y, byte x / 8 and column x % 8 within it. */
  lemma IsBlackBit(c: PubCode, x: int, y: int)
    requires Sound(c)
    ensures IsBlack(c, x, y) ==> 0 <= x < c.size && 0 <= y < c.size
    ensures 0 <= x < c.size && 0 <= y < c.size && c.stride >= 0 ==>
      (IsBlack(c, x, y) <==> BitAt(c.bitmap[..], c.stride, y, x / 8, x % 8))
  {
    if 0 <= x < c.size && 0 <= y < c.size {
      assert Indexed(c, x, y);
    }
  }

  /** Go's integer division, which truncates toward zero. */
  function Quo(a: int, b: int): (q: int)
    requires b != 0
    ensures a >= 0 && b > 0 ==> q == a / b
    ensures a < 0 && b > 0 ==> q <= 0
  {
    var q := (if a < 0 then -a else a) / (if b < 0 then -b else b);
    if (a < 0) == (b < 0) then q else -q
  }

  /** Go's image rectangle from (x0, y0) to (x1, y1), the far edges
      excluded. */
  datatype Rect = Rect(x0: int, y0: int, x1: int, y1: int)

  /** Go's `image.Rect`: the rectangle with corners (x0, y0) and (x1, y1),
      each pair of coordinates put in order. */
  function ImageRect(x0: int, y0: int, x1: int, y1: int): (r: Rect)
    ensures r.x0 <= r.x1 && r.y0 <= r.y1
    ensures multiset{r.x0, r.x1} == multiset{x0, x1} && multiset{r.y0, r.y1} == multiset{y0, y1}
  {
    var (a0, a1) := if x0 > x1 then (x1, x0) else (x0, x1);
    var (b0, b1) := if y0 > y1 then (y1, y0) else (y0, y1);
    Rect(a0, b0, a1, b1)
  }

  /** Go's `Bounds`: a square with a corner at the origin and side
      (size + 8) · scale, room for the modules and a four-module border on
      every side. When that side is negative, image.Rect puts the corners
      in order, so the origin is the far corner. */
  function Bounds(c: PubCode): (r: Rect)
    ensures r.x0 <= r.x1 && r.y0 <= r.y1 && r.x1 - r.x0 == r.y1 - r.y0
    ensures (c.size + 8) * c.scale >= 0 ==> r.x0 == 0 && r.y0 == 0 && r.x1 == (c.size + 8) * c.scale
    ensures (c.size + 8) * c.scale < 0 ==> r.x1 == 0 && r.y1 == 0 && r.x0 == (c.size + 8) * c.scale
    ensures c.scale > 0 && c.size >= 0 ==> r.x1 == c.scale * c.size + 2 * (4 * c.scale)
  {
    var d := (c.size + 8) * c.scale;
    ImageRect(0, 0, d, d)
  }

  /** Go's `At`, reduced to its colour: whether image pixel (x, y) is
      black. The image is the grid shifted by four modules and scaled. */
  predicate At(c: PubCode, x: int, y: int)
    reads c.bitmap
    requires Sound(c) && c.scale != 0
  {
    IsBlack(c, Quo(x, c.scale) - 4, Quo(y, c.scale) - 4)
  }

  /** The border: every image pixel less than four modules from an edge of
      the bounds, or outside them, is white. */
  lemma AtBorder(c: PubCode, x: int, y: int)
    requires Sound(c) && c.scale > 0
    requires x < 4 * c.scale || y < 4 * c.scale ||
             x >= (c.size + 4) * c.scale || y >= (c.size + 4) * c.scale
    ensures !At(c, x, y)
  {
    QuoBelow(x, c.scale, 4);
    QuoBelow(y, c.scale, 4);
    if c.size >= 0 {
      QuoAbove(x, c.scale, c.size + 4);
      QuoAbove(y, c.scale, c.size + 4);
    }
  }

  /** Module (mx, my) is the scale × scale square of image pixels whose
      corner is ((mx + 4) · scale, (my + 4) · scale). */
  lemma AtModule(c: PubCode, mx: int, my: int, dx: int, dy: int)
    requires Sound(c) && c.scale > 0
    requires 0 <= mx < c.size && 0 <= my < c.size && 0 <= dx < c.scale && 0 <= dy < c.scale
    ensures At(c, (mx + 4) * c.scale + dx, (my + 4) * c.scale + dy) <==> IsBlack(c, mx, my)
  {
    QuoCell(mx + 4, c.scale, dx);
    QuoCell(my + 4, c.scale, dy);
  }

  /** Every image coordinate of cell k of width d divides back to k. */
  lemma QuoCell(k: nat, d: int, r: int)
    requires 0 <= r < d
    ensures Quo(k * d + r, d) == k
  {
    MulLe(0, k, d);
    DivModUnique(k * d + r, d, k, r);
  }

  lemma QuoBelow(a: int, d: int, k: nat)
    requires d > 0 && k > 0
    ensures a < k * d ==> Quo(a, d) < k
  {
    if 0 <= a < k * d && Quo(a, d) >= k {
      MulLe(k, a / d, d);
    }
  }

  lemma QuoAbove(a: int, d: int, k: nat)
    requires d > 0
    ensures a >= k * d ==> Quo(a, d) >= k
  {
    if a >= k * d {
      DivModUnique(k * d, d, k, 0);
      DivMono(k * d, a, d);
    }
  }

  /** Division by a positive divisor is monotonic. */
  lemma DivMono(a: int, b: int, d: int)
    requires d > 0 && a <= b
    ensures a / d <= b / d
  {
    if a / d > b / d {
      MulLe(b / d + 1, a / d, d);
    }
  }

  /** Reading back a code that EncodeInto drew: a module is black exactly
      when it is on the grid and its bit was already set in the caller's
      bitmap or the module is dark for the codewords. */
  lemma IsBlackRendered(p: Plan, c: PubCode, orig: seq<Byte>, bytes: seq<Byte>, x: int, y: int)
    requires p.Coded() && |bytes| == p.dataBytes + p.checkBytes
    requires c.size == Size(p.version) && c.stride == Stride(c.size)
    requires p.Rendered(c.bitmap[..], orig, bytes)
    ensures Sound(c)
    ensures IsBlack(c, x, y) <==>
      0 <= x < c.size && 0 <= y < c.size && (BitAt(orig, c.stride, y, x / 8, x % 8) || p.Dark(bytes, y, x))
  {
    RowsSound(c);
    IsBlackBit(c, x, y);
    if 0 <= x < c.size && 0 <= y < c.size {
      assert 8 * (x / 8) + x % 8 == x;
    }
  }

  /** A code drawn on a fresh bitmap reads back as the darkness of its
      modules. */
  lemma FreshRendered(p: Plan, c: PubCode, bytes: seq<Byte>)
    requires p.Coded() && |bytes| == p.dataBytes + p.checkBytes
    requires c.size == Size(p.version) && c.stride == Stride(c.size)
    requires p.Rendered(c.bitmap[..], [], bytes)
    ensures Sound(c)
    ensures forall x, y :: IsBlack(c, x, y) <==> 0 <= x < c.size && 0 <= y < c.size && p.Dark(bytes, y, x)
  {
    IsBlackRendered(p, c, [], bytes, 0, 0);
    forall x, y {
      IsBlackFresh(p, c, bytes, x, y);
    }
  }

  lemma IsBlackFresh(p: Plan, c: PubCode, bytes: seq<Byte>, x: int, y: int)
    requires p.Coded() && |bytes| == p.dataBytes + p.checkBytes
    requires c.size == Size(p.version) && c.stride == Stride(c.size)
    requires p.Rendered(c.bitmap[..], [], bytes)
    requires Sound(c)
    ensures IsBlack(c, x, y) <==> 0 <= x < c.size && 0 <= y < c.size && p.Dark(bytes, y, x)
  {
    IsBlackRendered(p, c, [], bytes, x, y);
    if 0 <= x < c.size && 0 <= y < c.size {
      assert !BitAt([], c.stride, y, x / 8, x % 8);
    }
  }

  /** Go's public `EncodeInto`: the internal Encode at the same level, its
      error passed through, its code copied with scale 8. The level is
      any int, as Go's `Level` is; one outside 0 .. 3 panics. */
  method EncodeInto(bitmap: array?<Byte>, text: seq<Byte>, l: int, ecc: (seq<Byte>, nat) -> seq<Byte>)
    returns (r: Result, ghost v: Version, ghost p: Plan?, ghost bytes: seq<Byte>)
    requires BitBuffer.EccSound(ecc)
    modifies bitmap
    ensures !(0 <= l <= 3) ==> r == Failed(Panic)
    ensures r == Failed(TextTooLong) <==> 0 <= l <= 3 && forall w: Version :: !FitsAt(Choose(text), w, l)
    ensures r.Failed? ==> r.why == TextTooLong || r.why == Panic
    ensures r.Failed? && bitmap != null ==> bitmap[..] == old(bitmap[..])
    ensures r.Ok? ==>
      && 0 <= l <= 3 && FitsAt(Choose(text), v, l) && (forall w: Version | w < v :: !FitsAt(Choose(text), w, l))
      && p != null && fresh(p) && p.version == v && p.level == l && p.mask == 0 && p.Valid() && p.Built(v, l, 0)
      && r.code.scale == 8 && r.code.size == Size(v) && r.code.stride == Stride(Size(v))
      && (bitmap == null ==> fresh(r.code.bitmap))
      && (bitmap != null ==> r.code.bitmap == bitmap)
      && p.CodewordsOf(bytes, Choose(text), ecc)
      && p.Rendered(r.code.bitmap[..], if bitmap == null then [] else old(bitmap[..]), bytes)
  {
    var cc;
    cc, v, p, bytes := Coding.Encode(bitmap, text, l, ecc);
    if !cc.Encoded? {
      return Failed(cc), v, p, bytes;
    }
    r := Ok(PubCode(cc.code.bitmap, cc.code.size, cc.code.stride, 8));
  }

  /** Go's public `Encode`: EncodeInto with no bitmap, so the code is drawn
      on a fresh, zeroed one and every module reads back as its darkness. */
  method Encode(text: seq<Byte>, l: int, ecc: (seq<Byte>, nat) -> seq<Byte>)
    returns (r: Result, ghost v: Version, ghost p: Plan?, ghost bytes: seq<Byte>)
    requires BitBuffer.EccSound(ecc)
    ensures !(0 <= l <= 3) ==> r == Failed(Panic)
    ensures r == Failed(TextTooLong) <==> 0 <= l <= 3 && forall w: Version :: !FitsAt(Choose(text), w, l)
    ensures r.Failed? ==> r.why == TextTooLong || r.why == Panic
    ensures r.Ok? ==>
      && 0 <= l <= 3 && FitsAt(Choose(text), v, l) && (forall w: Version | w < v :: !FitsAt(Choose(text), w, l))
      && p != null && p.version == v && p.level == l && p.mask == 0 && p.Valid() && p.Built(v, l, 0)
      && r.code.scale == 8 && r.code.size == Size(v) && r.code.stride == Stride(Size(v))
      && fresh(r.code.bitmap) && Sound(r.code)
      && p.CodewordsOf(bytes, Choose(text), ecc)
      && forall x, y :: IsBlack(r.code, x, y) <==> 0 <= x < Size(v) && 0 <= y < Size(v) && p.Dark(bytes, y, x)
  {
    r, v, p, bytes := EncodeInto(null, text, l, ecc);
    if r.Ok? {
      FreshRendered(p, r.code, bytes);
    }
  }
}
