/** Where fplan puts the fifteen format bits: one copy around the upper left
    position square and one split between the other two (section 7.9.1 of
    ISO/IEC 18004), each module labelled with its bit number. */
module FormatPlace {
  import opened BitMath
  import opened Pixels
  import opened FormatInfo

  /** `(w >> k) & 1 == 1`: bit k of a 32-bit word. */
  predicate FBit(w: bv32, k: bv8)
    requires k < 32
  {
    (w >> k) & 1 == 1
  }

  /** Format module k: role Format, offset k, flagged Invert where the
      masking pattern 0x5412 has a 1, and dark exactly where the format word
      and the masking pattern differ. */
  function FormatPixel(fb: bv32, k: int): Pixel
    requires 0 <= k < 15
  {
    var inv := FBit(FormatMask, k as bv8);
    var black := FBit(fb, k as bv8) != inv;
    (k * 64 + Format * 4 + (if inv then 2 else 0) + (if black then 1 else 0)) as Pixel
  }

  /** The fields of a format module. */
  lemma FormatPixelFields(fb: bv32, k: int)
    requires 0 <= k < 15
    ensures Role(FormatPixel(fb, k)) == Format && Offset(FormatPixel(fb, k)) == k
    ensures IsBlack(FormatPixel(fb, k)) == (FBit(fb, k as bv8) != FBit(FormatMask, k as bv8))
  {
    var inv := FBit(FormatMask, k as bv8);
    var black := FBit(fb, k as bv8) != inv;
    FieldsOf(k, Format, (if inv then 2 else 0) + (if black then 1 else 0));
  }

  /** Bit k of an XOR is the XOR of the bits. */
  lemma XorBit(a: bv32, b: bv32, k: bv8)
    requires k < 32
    ensures FBit(a ^ b, k) == (FBit(a, k) != FBit(b, k))
  {
  }

  /** For every level and mask (already converted to 32 bits), the colour
      of format module k is bit k of the masked format sequence that the
      standard lists (Annex C). */
  lemma FormatPixelStandard(lv: bv32, mk: bv32, k: bv8)
    requires lv < 4 && mk < 8 && k < 15
    ensures IsBlack(FormatPixel(FormatWord(lv, mk), k as int)) == FBit(FormatTable[lv as int][mk as int], k)
  {
    FormatWordStandard(lv, mk);
    FormatPixelFields(FormatWord(lv, mk), k as int);
    XorBit(FormatWord(lv, mk), FormatMask, k);
  }

  /** Go's `uint32(x)` of a small non-negative int. */
  lemma Uint32Small(x: int)
    requires 0 <= x < 256
    ensures Uint32(x) == x as bv32
  {
  }

  /** Row and column of bit k in the copy around the upper left position
      square: up column 8 from row 0, stepping over the timing row, then
      along row 8 leftwards, stepping over the timing column. */
  function CopyA(k: int): (int, int) {
    if k < 6 then (k, 8) else if k < 8 then (k + 1, 8) else if k < 9 then (8, 7) else (8, 14 - k)
  }

  /** Row and column of bit k in the other copy on an n-module grid: along
      row 8 from the right edge for bits 0..7, then down column 8 to the
      bottom edge for bits 8..14. */
  function CopyB(n: int, k: int): (int, int) {
    if k < 8 then (8, n - 1 - k) else (n - 1 - (14 - k), 8)
  }

  /** The bit that the first copy puts at (r, c), or -1. */
  function IndexA(r: int, c: int): int {
    if c == 8 && 0 <= r < 6 then r
    else if c == 8 && (r == 7 || r == 8) then r - 1
    else if r == 8 && c == 7 then 8
    else if r == 8 && 0 <= c < 6 then 14 - c
    else -1
  }

  /** The bit that the second copy puts at (r, c), or -1. */
  function IndexB(n: int, r: int, c: int): int {
    if r == 8 && n - 8 <= c < n then n - 1 - c
    else if c == 8 && n - 7 <= r < n then r - n + 15
    else -1
  }

  /** IndexA and IndexB invert CopyA and CopyB: each copy puts the fifteen
      bits on fifteen distinct modules. */
  lemma CopiesInverse(n: int, k: int, r: int, c: int)
    requires n >= 21 && 0 <= k < 15
    ensures IndexA(r, c) == k <==> CopyA(k) == (r, c)
    ensures IndexB(n, r, c) == k <==> CopyB(n, k) == (r, c)
    ensures IndexA(r, c) >= 0 ==> IndexB(n, r, c) < 0
  {
  }

  /** Module (r, c) after fplan when it held `under` before: a format
      module of word fb, or unchanged. */
  function FormatOver(n: int, fb: bv32, r: int, c: int, under: Pixel): Pixel {
    if 0 <= IndexB(n, r, c) < 15 then FormatPixel(fb, IndexB(n, r, c))
    else if 0 <= IndexA(r, c) < 15 then FormatPixel(fb, IndexA(r, c))
    else under
  }

  /** The placement loop of fplan: both copies of all fifteen format bits of
      the word fb. Nothing else changes. */
  method PlaceFormat(m: array2<Pixel>, fb: bv32)
    requires m.Length0 == m.Length1 && m.Length0 >= 21
    modifies m
    ensures forall r, c | 0 <= r < m.Length0 && 0 <= c < m.Length1 ::
      m[r, c] == FormatOver(m.Length0, fb, r, c, old(m[r, c]))
  {
    var siz := m.Length0;
    var i: bv8 := 0;
    ghost var done := 0;
    while i < 15
      invariant i <= 15 && done == i as int
      invariant forall r, c | 0 <= r < siz && 0 <= c < siz ::
        m[r, c] == if 0 <= IndexB(siz, r, c) < done then FormatPixel(fb, IndexB(siz, r, c))
                   else if 0 <= IndexA(r, c) < done then FormatPixel(fb, IndexA(r, c))
                   else old(m[r, c])
    {
      var pix := FormatModule(fb, i);
      PlaceBit(m, i as int, pix);
      assert pix == FormatPixel(fb, done);
      i := i + 1;
      done := done + 1;
    }
  }

  /** One pass of fplan's placement loop: bit k to its module in each copy. */
  method PlaceBit(m: array2<Pixel>, k: int, pix: Pixel)
    requires m.Length0 == m.Length1 && m.Length0 >= 21 && 0 <= k < 15
    modifies m
    ensures forall r, c | 0 <= r < m.Length0 && 0 <= c < m.Length1 ::
      m[r, c] == if IndexB(m.Length0, r, c) == k || IndexA(r, c) == k then pix else old(m[r, c])
  {
    var siz := m.Length0;
    if k < 6 {
      m[k, 8] := pix;
    } else if k < 8 {
      m[k + 1, 8] := pix;
    } else if k < 9 {
      m[8, 7] := pix;
    } else {
      m[8, 14 - k] := pix;
    }
    if k < 8 {
      m[8, siz - 1 - k] := pix;
    } else {
      m[siz - 1 - (14 - k), 8] := pix;
    }
  }

  /** The pixel of format bit i as the body of fplan's loop builds it. */
  method FormatModule(fb: bv32, i: bv8) returns (pix: Pixel)
    requires i < 15
    ensures pix == FormatPixel(fb, i as int)
  {
    var k := i as int;
    pix := RolePixel(Format) + OffsetPixel(k);
    assert pix as int == 4 * (k * 16 + Format) + 0;
    OrBlack(k * 16 + Format, 0);
    if FBit(fb, i) {
      pix := PixelOr(pix, Black);
    }
    assert pix as int == 4 * (k * 16 + Format) + (if FBit(fb, i) then 1 else 0);
    OrBlack(0, 2);
    XorFlags(k * 16 + Format, if FBit(fb, i) then 1 else 0);
    if FBit(FormatMask, i) {
      pix := PixelXor(pix, PixelOr(Invert, Black));
    }
  }
}
