/** The packed description of one module of the plan grid: bit 0 is black,
    bit 1 marks a module the mask inverted, bits 2..5 hold its role and bits
    6..31 the offset of the codeword bit it carries. */
module Pixels {
  import opened BitMath

  /** A Go `uint32`. */
  newtype Pixel = x: int | 0 <= x < 0x1_0000_0000

  /** The four role bits. Role 0 marks a module nothing has claimed yet. */
  type PixelRole = r: int | 0 <= r < 16

  const Position: PixelRole := 1   // position squares (large)
  const Alignment: PixelRole := 2  // alignment squares (small)
  const Timing: PixelRole := 3     // timing strip between position squares
  const Format: PixelRole := 4     // format metadata
  const PVersion: PixelRole := 5   // version pattern
  const Unused: PixelRole := 6     // the lone dark module
  const Data: PixelRole := 7       // data bit
  const Check: PixelRole := 8      // error correction check bit
  const Extra: PixelRole := 9      // remainder bit after the codewords

  const Black: Pixel := 1
  const Invert: Pixel := 2

  /** The largest offset that survives the 32-bit shift in OffsetPixel. */
  const OffsetLimit := 0x400_0000

  /** `Pixel(o << 6)`: the offset field, truncated to 32 bits. */
  function OffsetPixel(o: nat): Pixel {
    ((o % OffsetLimit) * 64) as Pixel
  }

  /** `p >> 6` */
  function Offset(p: Pixel): nat {
    p as int / 64
  }

  /** `PixelRole(p >> 2) & 15` */
  function Role(p: Pixel): PixelRole {
    (p as int / 4) % 16
  }

  /** `PixelRole.Pixel`: `Pixel(r << 2)`. */
  function RolePixel(r: PixelRole): Pixel {
    (r * 4) as Pixel
  }

  lemma Pow2At32()
    ensures Pow2(32) == 0x1_0000_0000
  {
    assert Pow2(8) == 256;
    Pow2Add(8, 8);
    Pow2Add(16, 16);
  }

  /** Bit k of pixel p is set. */
  predicate PixelBit(p: Pixel, k: nat) {
    TestBit(p as int, k)
  }

  /** `p | q` on 32-bit pixels: a bit is set in r exactly when it is set
      in p or in q. */
  function PixelOr(p: Pixel, q: Pixel): (r: Pixel)
    ensures r as int == Or(p as int, q as int)
    ensures forall k: nat :: PixelBit(r, k) == (PixelBit(p, k) || PixelBit(q, k))
  {
    Pow2At32();
    OrBound(p as int, q as int, 32);
    assert forall k: nat :: PixelBit(Or(p as int, q as int) as Pixel, k) == (PixelBit(p, k) || PixelBit(q, k)) by {
      forall k: nat
        ensures PixelBit(Or(p as int, q as int) as Pixel, k) == (PixelBit(p, k) || PixelBit(q, k))
      {
        OrTestBit(p as int, q as int, k);
      }
    }
    Or(p as int, q as int) as Pixel
  }

  /** `p ^ q` on 32-bit pixels: a bit is set in r exactly when it is set
      in one of p and q but not both. */
  function PixelXor(p: Pixel, q: Pixel): (r: Pixel)
    ensures r as int == Xor(p as int, q as int)
    ensures forall k: nat :: PixelBit(r, k) == (PixelBit(p, k) != PixelBit(q, k))
  {
    Pow2At32();
    XorBound(p as int, q as int, 32);
    assert forall k: nat :: PixelBit(Xor(p as int, q as int) as Pixel, k) == (PixelBit(p, k) != PixelBit(q, k)) by {
      forall k: nat
        ensures PixelBit(Xor(p as int, q as int) as Pixel, k) == (PixelBit(p, k) != PixelBit(q, k))
      {
        XorTestBit(p as int, q as int, k);
      }
    }
    Xor(p as int, q as int) as Pixel
  }

  /** `p&Black != 0` */
  predicate IsBlack(p: Pixel) {
    TestBit(p as int, 0)
  }

  /** A role pixel combined with an offset pixel keeps both fields intact:
      the data and check pixels of the layout are `role.Pixel() | OffsetPixel(o)`. */
  lemma TaggedPixel(r: PixelRole, o: nat)
    requires o < OffsetLimit
    ensures Role(PixelOr(RolePixel(r), OffsetPixel(o))) == r
    ensures Offset(PixelOr(RolePixel(r), OffsetPixel(o))) == o
    ensures !IsBlack(PixelOr(RolePixel(r), OffsetPixel(o)))
  {
    var p := o * 64 + r * 4;
    assert Pow2(6) == 64;
    ShlPow2(o, 6);
    FitsPow2(r * 4, 6);
    OrShlDisjoint(o, r * 4, 6);
    OrCommutes(r * 4, o * 64);
    assert PixelOr(RolePixel(r), OffsetPixel(o)) as int == p;
    FieldsOf(o, r, 0);
  }

  /** The fields of o·64 + r·4 + f for a role r and flag bits f. */
  lemma FieldsOf(o: nat, r: PixelRole, f: nat)
    requires f < 4
    ensures (o * 64 + r * 4 + f) / 4 % 16 == r
    ensures (o * 64 + r * 4 + f) / 64 == o
    ensures (o * 64 + r * 4 + f) % 2 == f % 2
  {
    var p := o * 64 + r * 4 + f;
    DivModUnique(p, 4, o * 16 + r, f);
    DivModUnique(o * 16 + r, 16, o, r);
    DivModUnique(p, 64, o, r * 4 + f);
    DivModUnique(p, 2, o * 32 + r * 2 + f / 2, f % 2);
  }

  /** `r.Pixel() | Black`: the role pixel with its black bit set. */
  lemma RoleBlack(r: PixelRole)
    ensures PixelOr(RolePixel(r), Black) == RolePixel(r) + Black
    ensures Role(RolePixel(r) + Black) == r && IsBlack(RolePixel(r) + Black)
    ensures Role(RolePixel(r)) == r && !IsBlack(RolePixel(r))
  {
    OrHalf(r * 4, 1);
    assert Or(r * 2, 0) == r * 2;
    FieldsOf(0, r, 1);
    FieldsOf(0, r, 0);
  }

  /** Setting the black bit changes neither the role nor the offset. */
  lemma SetBlack(p: Pixel)
    ensures Role(PixelOr(p, Black)) == Role(p) && Offset(PixelOr(p, Black)) == Offset(p)
    ensures IsBlack(PixelOr(p, Black))
  {
    FlagBitsKeepFields(p as int, 1, true);
  }

  /** Toggling `Black|Invert` changes neither the role nor the offset, and
      flips the black bit. */
  lemma ToggleBlackInvert(p: Pixel)
    ensures Role(PixelXor(p, 3)) == Role(p) && Offset(PixelXor(p, 3)) == Offset(p)
    ensures IsBlack(PixelXor(p, 3)) == !IsBlack(p)
  {
    FlagBitsKeepFields(p as int, 3, false);
    XorTestBit(p as int, 3, 0);
  }

  /** Toggling only `Black` changes neither the role nor the offset, and flips
      the black bit. */
  lemma ToggleBlack(p: Pixel)
    ensures Role(PixelXor(p, Black)) == Role(p) && Offset(PixelXor(p, Black)) == Offset(p)
    ensures IsBlack(PixelXor(p, Black)) == !IsBlack(p)
  {
    FlagBitsKeepFields(p as int, 1, false);
    XorTestBit(p as int, 1, 0);
  }

  /** `p >> 2` and `p >> 6` as divisions. */
  lemma ShrFour(p: nat)
    ensures Shr(p, 2) == p / 4 && Shr(p, 6) == p / 64
  {
    ShrTwo(p);
    ShrTwo(p / 4);
    ShrTwo(p / 16);
    ShrShr(p, 2, 2);
    ShrShr(p, 4, 2);
  }

  lemma ShrTwo(p: nat)
    ensures Shr(p, 2) == p / 4
  {
    assert Shr(p, 2) == Shr(p / 2, 1) == Shr(p / 2 / 2, 0);
  }

  lemma FlagBitsKeepFields(p: nat, f: nat, useOr: bool)
    requires f < 4
    ensures var q := if useOr then Or(p, f) else Xor(p, f);
      q / 4 == p / 4 && q / 64 == p / 64
    ensures useOr ==> TestBit(Or(p, f), 0) == (TestBit(p, 0) || TestBit(f, 0))
  {
    ShrFour(p);
    ShrFour(if useOr then Or(p, f) else Xor(p, f));
    assert Shr(f, 2) == 0 && Shr(f, 6) == 0;
    if useOr {
      OrHigh(p, f, 2);
      OrHigh(p, f, 6);
      OrTestBit(p, f, 0);
    } else {
      XorHigh(p, f, 2);
      XorHigh(p, f, 6);
    }
  }

  /** On a pixel whose two flag bits are f, `|Black` sets the low bit; the
      fields above stay. */
  lemma OrBlack(q: nat, f: nat)
    requires f < 4
    ensures Or(4 * q + f, 1) == 4 * q + f - f % 2 + 1
  {
    var a := 4 * q + f;
    assert a / 2 == 2 * q + f / 2 && a % 2 == f % 2;
    OrHalf(a, 1);
    assert Or(a / 2, 0) == a / 2;
  }

  /** On a pixel whose two flag bits are f, `^(Invert|Black)` flips both
      flag bits; the fields above stay. */
  lemma XorFlags(q: nat, f: nat)
    requires f < 4
    ensures Xor(4 * q + f, 3) == 4 * q + 3 - f
  {
    var a := 4 * q + f;
    assert a / 2 == 2 * q + f / 2 && a % 2 == f % 2;
    assert (a / 2) / 2 == q && (a / 2) % 2 == f / 2;
    XorHalf(a, 3);
    XorHalf(a / 2, 1);
    assert Xor(q, 0) == q;
  }
}
