/** The 15-bit format information of section 7.9 of ISO/IEC 18004: five data
    bits (the error correction level indicator and the mask reference) followed
    by the ten check bits of a (15, 5) BCH code whose generator polynomial is
    0x537, the whole word then XORed with the fixed pattern 0x5412. Go's
    `uint32` arithmetic is modelled on `bv32`. */
module FormatInfo {

  const FormatPoly: bv32 := 0x537
  const FormatMask: bv32 := 0x5412

  /** Go's conversion `uint32(x)` of an `int`: x modulo 2^32. */
  function Uint32(x: int): bv32 {
    (x % 0x1_0000_0000) as bv32
  }

  /** `uint32(level^1)<<13 | uint32(mask)<<10` for the converted level lv and
      mask mk: the level indicator (L = 01, M = 00, Q = 11, H = 10) above the
      mask. */
  function FormatData(lv: bv32, mk: bv32): bv32 {
    ((lv ^ 1) << 13) | (mk << 10)
  }

  /** GF(2) long division by the generator over bits i down to 10: wherever
      bit k of the running remainder is set, the generator shifted up to bit k
      is cancelled from it. */
  function Reduce(a: bv32, i: bv8): bv32
    requires i < 32
    decreases i
  {
    if i < 10 then a
    else Reduce(if a & (1 << i) != 0 then a ^ (FormatPoly << (i - 10)) else a, i - 1)
  }

  /** The format word before masking: the data bits with the remainder of
      their division by the generator ORed in below them. */
  function FormatWord(lv: bv32, mk: bv32): bv32 {
    FormatData(lv, mk) | Reduce(FormatData(lv, mk), 14)
  }

  /** The format-bit computation at the head of fplan, on the converted
      level and mask. */
  method FormatBits(lv: bv32, mk: bv32) returns (fb: bv32)
    ensures fb == FormatWord(lv, mk)
  {
    fb := FormatData(lv, mk);
    var rem := Remainder(fb);
    fb := fb | rem;
  }

  /** The check-bit loop of fplan: the remainder is reduced one bit at a
      time, from bit 14 down to bit 10. The counter, a Go `int` that only
      takes the values 14 down to 9, is held in a `bv8`. */
  method Remainder(fb: bv32) returns (rem: bv32)
    ensures rem == Reduce(fb, 14)
  {
    rem := fb;
    var i: bv8 := 14;
    while i >= 10
      invariant 9 <= i <= 14
      invariant Reduce(rem, i) == Reduce(fb, 14)
    {
      rem := ReduceBit(rem, i);
      i := i - 1;
    }
  }

  /** One step of the loop: bit i of the remainder is cancelled when set. */
  method ReduceBit(a: bv32, i: bv8) returns (r: bv32)
    requires 10 <= i <= 14
    ensures Reduce(r, i - 1) == Reduce(a, i)
  {
    r := a;
    if r & (1 << i) != 0 {
      r := r ^ (FormatPoly << (i - 10));
    }
  }

  /** The masked format sequences listed in Annex C of ISO/IEC 18004, one
      row per error correction level (L, M, Q, H), one entry per mask. */
  const FormatTable: seq<seq<bv32>> := [
    [0x77C4, 0x72F3, 0x7DAA, 0x789D, 0x662F, 0x6318, 0x6C41, 0x6976],
    [0x5412, 0x5125, 0x5E7C, 0x5B4B, 0x45F9, 0x40CE, 0x4F97, 0x4AA0],
    [0x355F, 0x3068, 0x3F31, 0x3A06, 0x24B4, 0x2183, 0x2EDA, 0x2BED],
    [0x1689, 0x13BE, 0x1CE7, 0x19D0, 0x0762, 0x0255, 0x0D0C, 0x083B]
  ]

  /** For each level and each of the eight masks, the masked format word is
      the standard's sequence, and the ten check bits leave the five data
      bits (level indicator, then mask) in bits 14..10 untouched. */
  lemma FormatWordStandard(lv: bv32, mk: bv32)
    requires lv < 4 && mk < 8
    ensures FormatWord(lv, mk) ^ FormatMask == FormatTable[lv as int][mk as int]
    ensures Reduce(FormatData(lv, mk), 14) < 0x400 && FormatWord(lv, mk) < 0x8000
  {
    if lv == 0 { FormatL(mk); } else if lv == 1 { FormatM(mk); } else if lv == 2 { FormatQ(mk); } else { FormatH(mk); }
  }

  lemma FormatL(mk: bv32)
    requires mk < 8
    ensures FormatWord(0, mk) ^ FormatMask == FormatTable[0][mk as int]
    ensures Reduce(FormatData(0, mk), 14) < 0x400 && FormatWord(0, mk) < 0x8000
  {
    if mk == 0 {
      assert Reduce(0x2000, 14) == 0x3D6;
    } else if mk == 1 {
      assert Reduce(0x2400, 14) == 0x2E1;
    } else if mk == 2 {
      assert Reduce(0x2800, 14) == 0x1B8;
    } else if mk == 3 {
      assert Reduce(0x2C00, 14) == 0x08F;
    } else if mk == 4 {
      assert Reduce(0x3000, 14) == 0x23D;
    } else if mk == 5 {
      assert Reduce(0x3400, 14) == 0x30A;
    } else if mk == 6 {
      assert Reduce(0x3800, 14) == 0x053;
    } else if mk == 7 {
      assert Reduce(0x3C00, 14) == 0x164;
    }
  }

  lemma FormatM(mk: bv32)
    requires mk < 8
    ensures FormatWord(1, mk) ^ FormatMask == FormatTable[1][mk as int]
    ensures Reduce(FormatData(1, mk), 14) < 0x400 && FormatWord(1, mk) < 0x8000
  {
    if mk == 0 {
      assert Reduce(0x0000, 14) == 0x000;
    } else if mk == 1 {
      assert Reduce(0x0400, 14) == 0x137;
    } else if mk == 2 {
      assert Reduce(0x0800, 14) == 0x26E;
    } else if mk == 3 {
      assert Reduce(0x0C00, 14) == 0x359;
    } else if mk == 4 {
      assert Reduce(0x1000, 14) == 0x1EB;
    } else if mk == 5 {
      assert Reduce(0x1400, 14) == 0x0DC;
    } else if mk == 6 {
      assert Reduce(0x1800, 14) == 0x385;
    } else if mk == 7 {
      assert Reduce(0x1C00, 14) == 0x2B2;
    }
  }

  lemma FormatQ(mk: bv32)
    requires mk < 8
    ensures FormatWord(2, mk) ^ FormatMask == FormatTable[2][mk as int]
    ensures Reduce(FormatData(2, mk), 14) < 0x400 && FormatWord(2, mk) < 0x8000
  {
    if mk == 0 {
      assert Reduce(0x6000, 14) == 0x14D;
    } else if mk == 1 {
      assert Reduce(0x6400, 14) == 0x07A;
    } else if mk == 2 {
      assert Reduce(0x6800, 14) == 0x323;
    } else if mk == 3 {
      assert Reduce(0x6C00, 14) == 0x214;
    } else if mk == 4 {
      assert Reduce(0x7000, 14) == 0x0A6;
    } else if mk == 5 {
      assert Reduce(0x7400, 14) == 0x191;
    } else if mk == 6 {
      assert Reduce(0x7800, 14) == 0x2C8;
    } else if mk == 7 {
      assert Reduce(0x7C00, 14) == 0x3FF;
    }
  }

  lemma FormatH(mk: bv32)
    requires mk < 8
    ensures FormatWord(3, mk) ^ FormatMask == FormatTable[3][mk as int]
    ensures Reduce(FormatData(3, mk), 14) < 0x400 && FormatWord(3, mk) < 0x8000
  {
    if mk == 0 {
      assert Reduce(0x4000, 14) == 0x29B;
    } else if mk == 1 {
      assert Reduce(0x4400, 14) == 0x3AC;
    } else if mk == 2 {
      assert Reduce(0x4800, 14) == 0x0F5;
    } else if mk == 3 {
      assert Reduce(0x4C00, 14) == 0x1C2;
    } else if mk == 4 {
      assert Reduce(0x5000, 14) == 0x370;
    } else if mk == 5 {
      assert Reduce(0x5400, 14) == 0x247;
    } else if mk == 6 {
      assert Reduce(0x5800, 14) == 0x11E;
    } else if mk == 7 {
      assert Reduce(0x5C00, 14) == 0x029;
    }
  }
}
