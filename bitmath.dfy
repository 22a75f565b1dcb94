/** Unsigned integer bit arithmetic used throughout the encoder: shifts and
    masks, bitwise OR / XOR on naturals, single-bit tests, MSB-first bit
    strings, and Go's truncating integer division.

    Shifts and masks are defined bit by bit (halving and doubling), so that
    every fact about them is proved by induction with linear arithmetic only. */
module BitMath {

  /** A Go `byte`. */
  type Byte = x: int | 0 <= x < 256

  function Pow2(n: nat): (r: nat)
    ensures r >= 1
  {
    if n == 0 then 1 else 2 * Pow2(n - 1)
  }

  /** Go's `a >> k` on an unsigned value. */
  function Shr(a: nat, k: nat): nat {
    if k == 0 then a else Shr(a / 2, k - 1)
  }

  /** Go's `a << k` on an unsigned value that does not overflow. */
  function Shl(a: nat, k: nat): nat {
    if k == 0 then a else 2 * Shl(a, k - 1)
  }

  /** The k low bits of a: Go's `a & (1<<k - 1)`; `uint8(a)` is Low(a, 8). */
  function Low(a: nat, k: nat): nat {
    if k == 0 then 0 else 2 * Low(a / 2, k - 1) + a % 2
  }

  /** a has no bit set at position k or above. */
  predicate Fits(a: nat, k: nat) {
    Shr(a, k) == 0
  }

  /** Bit k (0 is the least significant) of a: Go's `a&(1<<k) != 0`. */
  predicate TestBit(a: nat, k: nat) {
    Shr(a, k) % 2 == 1
  }

  /** Bitwise OR of two naturals: Go's `a | b` on unsigned values. */
  function Or(a: nat, b: nat): nat
    decreases a + b
  {
    if a == 0 then b
    else if b == 0 then a
    else 2 * Or(a / 2, b / 2) + (if a % 2 == 1 || b % 2 == 1 then 1 else 0)
  }

  /** Bitwise XOR of two naturals: Go's `a ^ b` on unsigned values. */
  function Xor(a: nat, b: nat): nat
    decreases a + b
  {
    if a == 0 then b
    else if b == 0 then a
    else 2 * Xor(a / 2, b / 2) + (if a % 2 != b % 2 then 1 else 0)
  }

  /** The n low bits of v, most significant first. */
  function BitsOf(v: nat, n: nat): (r: seq<bool>)
    ensures |r| == n
  {
    if n == 0 then [] else BitsOf(v / 2, n - 1) + [v % 2 == 1]
  }

  function Zeros(n: nat): (r: seq<bool>)
    ensures |r| == n && forall i | 0 <= i < n :: !r[i]
  {
    seq(n, _ => false)
  }

  /** The bit string held by a byte sequence, every byte most significant bit first. */
  function BytesBits(bs: seq<Byte>): (r: seq<bool>)
    ensures |r| == 8 * |bs|
  {
    if bs == [] then [] else BytesBits(bs[..|bs| - 1]) + BitsOf(bs[|bs| - 1], 8)
  }

  /** Go's `a / b` on int: the quotient truncated toward zero. */
  function Quot(a: int, b: int): int
    requires b != 0
  {
    var q := (if a < 0 then -a else a) / (if b < 0 then -b else b);
    if (a < 0) != (b < 0) then -q else q
  }

  /** Go's `a % b` on int: the remainder takes the sign of a. */
  function Rem(a: int, b: int): int
    requires b != 0
  {
    a - b * Quot(a, b)
  }

  // ---------------------------------------------------------------------
  // Integer division by constants

  lemma MulLt(a: int, b: int, d: int)
    requires a < b && d > 0
    ensures a * d + d <= b * d
  {
    MulLe(a + 1, b, d);
    assert (a + 1) * d == a * d + d;
  }

  lemma MulLe(a: int, b: int, d: int)
    requires a <= b && d > 0
    ensures a * d <= b * d
  {
    var k := b - a;
    assert b * d == a * d + k * d;
  }

  /** A nonzero multiple of d is at least d in absolute value. */
  lemma MulAtLeast(t: int, d: int)
    requires d > 0
    ensures t >= 1 ==> t * d >= d
    ensures t <= -1 ==> t * d <= -d
  {
    if t >= 1 {
      MulLe(1, t, d);
    } else if t <= -1 {
      MulLe(t, -1, d);
    }
  }

  /** Quotient and remainder are determined by any decomposition x = q·d + r with 0 <= r < d. */
  lemma DivModUnique(x: int, d: int, q: int, r: int)
    requires d > 0 && x == q * d + r && 0 <= r < d
    ensures x / d == q && x % d == r
  {
    var q', r' := x / d, x % d;
    assert (q - q') * d == r' - r;
    MulAtLeast(q - q', d);
  }

  // ---------------------------------------------------------------------
  // Powers of two, shifts and masks

  lemma {:induction false} Pow2Add(a: nat, b: nat)
    ensures Pow2(a + b) == Pow2(a) * Pow2(b)
  {
    if a > 0 {
      Pow2Add(a - 1, b);
      assert Pow2(a + b) == 2 * (Pow2(a - 1) * Pow2(b));
    }
  }

  /** Fitting in k bits is being below 2^k. */
  lemma {:induction false} FitsPow2(a: nat, k: nat)
    ensures Fits(a, k) <==> a < Pow2(k)
  {
    if k > 0 {
      FitsPow2(a / 2, k - 1);
    }
  }

  /** A shift left is a multiplication by a power of two. */
  lemma {:induction false} ShlPow2(a: nat, k: nat)
    ensures Shl(a, k) == a * Pow2(k)
  {
    if k > 0 {
      ShlPow2(a, k - 1);
      assert a * Pow2(k) == 2 * (a * Pow2(k - 1));
    }
  }

  /** Shifting right by i and then by j is shifting right by i + j. */
  lemma {:induction false} ShrShr(a: nat, i: nat, j: nat)
    ensures Shr(Shr(a, i), j) == Shr(a, i + j)
  {
    if i > 0 {
      ShrShr(a / 2, i - 1, j);
    }
  }

  /** Shifting left by i and then by j is shifting left by i + j. */
  lemma {:induction false} ShlShl(a: nat, i: nat, j: nat)
    ensures Shl(Shl(a, i), j) == Shl(a, i + j)
  {
    if j > 0 {
      ShlShl(a, i, j - 1);
    }
  }

  /** a splits into its bits from position k up and its k low bits. */
  lemma {:induction false} SplitBits(a: nat, k: nat)
    ensures a == Shl(Shr(a, k), k) + Low(a, k)
  {
    if k > 0 {
      SplitBits(a / 2, k - 1);
    }
  }

  /** Placing hi above k low bits lo can be undone: the shift recovers hi and
      the mask recovers lo. */
  lemma {:induction false} JoinBits(hi: nat, lo: nat, k: nat)
    requires Fits(lo, k)
    ensures Shr(Shl(hi, k) + lo, k) == hi && Low(Shl(hi, k) + lo, k) == lo
  {
    if k > 0 {
      var x := Shl(hi, k) + lo;
      assert x / 2 == Shl(hi, k - 1) + lo / 2 && x % 2 == lo % 2;
      JoinBits(hi, lo / 2, k - 1);
    }
  }

  /** The k low bits fit in k bits. */
  lemma {:induction false} LowFits(a: nat, k: nat)
    ensures Fits(Low(a, k), k)
  {
    if k > 0 {
      assert Low(a, k) / 2 == Low(a / 2, k - 1);
      LowFits(a / 2, k - 1);
    }
  }

  /** A value that fits in k bits is its own k low bits. */
  lemma {:induction false} LowOfFits(a: nat, k: nat)
    requires Fits(a, k)
    ensures Low(a, k) == a
  {
    if k > 0 {
      LowOfFits(a / 2, k - 1);
    } else {
      assert a == Shr(a, 0);
    }
  }

  /** Fitting in k bits implies fitting in k + j bits. */
  lemma FitsWiden(a: nat, k: nat, j: nat)
    requires Fits(a, k)
    ensures Fits(a, k + j)
  {
    ShrShr(a, k, j);
    ShrZero(j);
  }

  lemma {:induction false} ShrZero(j: nat)
    ensures Shr(0, j) == 0
  {
    if j > 0 {
      ShrZero(j - 1);
    }
  }

  lemma {:induction false} LowZero(j: nat)
    ensures Low(0, j) == 0
  {
    if j > 0 {
      LowZero(j - 1);
    }
  }

  /** Masking to i bits and then to j <= i bits is masking to j bits. */
  lemma {:induction false} LowLow(a: nat, i: nat, j: nat)
    requires j <= i
    ensures Low(Low(a, i), j) == Low(a, j)
  {
    if j > 0 {
      assert Low(a, i) / 2 == Low(a / 2, i - 1) && Low(a, i) % 2 == a % 2;
      LowLow(a / 2, i - 1, j - 1);
    }
  }

  /** The w bits of a·2^s just above its s low bits are the w low bits of a:
      Go's `uint8(a << s)` when s + w == 8. */
  lemma {:induction false} LowShl(a: nat, s: nat, w: nat)
    ensures Low(Shl(a, s), s + w) == Shl(Low(a, w), s)
  {
    if s > 0 {
      var y := Shl(a, s - 1);
      assert Shl(a, s) / 2 == y && Shl(a, s) % 2 == 0;
      LowShl(a, s - 1, w);
    }
  }

  /** A shifted value fits in s more bits than the value itself. */
  lemma {:induction false} ShlFits(a: nat, m: nat, s: nat)
    requires Fits(a, m)
    ensures Fits(Shl(a, s), m + s)
  {
    if s > 0 {
      ShlFits(a, m, s - 1);
      assert Shl(a, s) / 2 == Shl(a, s - 1);
    }
  }

  // ---------------------------------------------------------------------
  // Bit strings

  lemma {:induction false} BitsOfZero(n: nat)
    ensures BitsOf(0, n) == Zeros(n)
  {
    if n > 0 {
      BitsOfZero(n - 1);
    }
  }

  /** The bits of hi << k | lo are the bits of hi followed by the k bits of lo. */
  lemma {:induction false} BitsOfSplit(hi: nat, lo: nat, m: nat, k: nat)
    requires Fits(lo, k)
    ensures BitsOf(Shl(hi, k) + lo, m + k) == BitsOf(hi, m) + BitsOf(lo, k)
  {
    if k > 0 {
      var x := Shl(hi, k) + lo;
      assert x / 2 == Shl(hi, k - 1) + lo / 2 && x % 2 == lo % 2;
      BitsOfSplit(hi, lo / 2, m, k - 1);
    } else {
      assert lo == Shr(lo, 0);
    }
  }

  /** The m + k low bits of x are its m bits from position k up, then its k
      low bits. */
  lemma BitsOfShr(x: nat, m: nat, k: nat)
    ensures BitsOf(x, m + k) == BitsOf(Shr(x, k), m) + BitsOf(Low(x, k), k)
  {
    SplitBits(x, k);
    LowFits(x, k);
    BitsOfSplit(Shr(x, k), Low(x, k), m, k);
  }

  /** The first m of the m + k low bits of x are the m bits of x from position k up. */
  lemma BitsOfTop(x: nat, m: nat, k: nat)
    ensures BitsOf(x, m + k)[..m] == BitsOf(Shr(x, k), m)
  {
    BitsOfShr(x, m, k);
  }

  /** BitsOf(v, n) sees only the n low bits of v. */
  lemma {:induction false} BitsOfLow(v: nat, n: nat)
    ensures BitsOf(Low(v, n), n) == BitsOf(v, n)
  {
    if n > 0 {
      assert Low(v, n) / 2 == Low(v / 2, n - 1) && Low(v, n) % 2 == v % 2;
      BitsOfLow(v / 2, n - 1);
    }
  }

  /** Position i of BitsOf(v, n) is bit n-1-i of v. */
  lemma {:induction false} BitsOfAt(v: nat, n: nat, i: nat)
    requires i < n
    ensures BitsOf(v, n)[i] == TestBit(v, n - 1 - i)
  {
    if i < n - 1 {
      BitsOfAt(v / 2, n - 1, i);
    }
  }

  lemma BytesBitsAppend(bs: seq<Byte>, cs: seq<Byte>)
    ensures BytesBits(bs + cs) == BytesBits(bs) + BytesBits(cs)
    decreases |cs|
  {
    if cs != [] {
      var k := |cs| - 1;
      assert (bs + cs)[..|bs + cs| - 1] == bs + cs[..k];
      assert BytesBits(bs + cs) == BytesBits(bs + cs[..k]) + BitsOf(cs[k], 8);
      assert BytesBits(cs) == BytesBits(cs[..k]) + BitsOf(cs[k], 8);
      BytesBitsAppend(bs, cs[..k]);
    } else {
      assert bs + cs == bs;
    }
  }

  /** Bit o of a byte string is bit 7 - o%8 of byte o/8: Go's `bytes[o/8]&(1<<(7-o&7))`. */
  lemma {:induction false} BytesBitsAt(bs: seq<Byte>, o: nat)
    requires o < 8 * |bs|
    ensures BytesBits(bs)[o] == TestBit(bs[o / 8], 7 - o % 8)
  {
    var k := |bs| - 1;
    assert BytesBits(bs) == BytesBits(bs[..k]) + BitsOf(bs[k], 8);
    if o < 8 * k {
      BytesBitsAt(bs[..k], o);
    } else {
      BitsOfAt(bs[k], 8, o - 8 * k);
    }
  }

  // ---------------------------------------------------------------------
  // OR, XOR and single bits

  /** The recursive step of Or, stated for any pair of naturals. */
  lemma OrHalf(a: nat, b: nat)
    ensures Or(a, b) == 2 * Or(a / 2, b / 2) + (if a % 2 == 1 || b % 2 == 1 then 1 else 0)
  {
    if a == 0 {
      assert Or(a / 2, b / 2) == b / 2;
    } else if b == 0 {
      assert Or(a / 2, b / 2) == a / 2;
    }
  }

  /** The recursive step of Xor, stated for any pair of naturals. */
  lemma XorHalf(a: nat, b: nat)
    ensures Xor(a, b) == 2 * Xor(a / 2, b / 2) + (if a % 2 != b % 2 then 1 else 0)
  {
    if a == 0 {
      assert Xor(a / 2, b / 2) == b / 2;
    } else if b == 0 {
      assert Xor(a / 2, b / 2) == a / 2;
    }
  }

  /** Halving an OR halves both operands; its low bit is the OR of theirs. */
  lemma OrDiv2(a: nat, b: nat)
    ensures Or(a, b) / 2 == Or(a / 2, b / 2)
    ensures Or(a, b) % 2 == (if a % 2 == 1 || b % 2 == 1 then 1 else 0)
  {
    OrHalf(a, b);
  }

  /** Halving an XOR halves both operands; its low bit is the XOR of theirs. */
  lemma XorDiv2(a: nat, b: nat)
    ensures Xor(a, b) / 2 == Xor(a / 2, b / 2)
    ensures Xor(a, b) % 2 == (if a % 2 != b % 2 then 1 else 0)
  {
    XorHalf(a, b);
  }

  /** OR is associative. */
  lemma {:induction false} OrAssoc(a: nat, b: nat, c: nat)
    ensures Or(Or(a, b), c) == Or(a, Or(b, c))
    decreases a + b + c
  {
    if a + b + c > 0 {
      OrDiv2(a, b);
      OrDiv2(b, c);
      OrHalf(Or(a, b), c);
      OrHalf(a, Or(b, c));
      OrAssoc(a / 2, b / 2, c / 2);
    }
  }

  /** The only bit of 2^k is bit k. */
  lemma {:induction false} Pow2Bit(k: nat, j: nat)
    ensures TestBit(Pow2(k), j) <==> j == k
  {
    if j > 0 {
      if k > 0 {
        assert Pow2(k) / 2 == Pow2(k - 1);
        Pow2Bit(k - 1, j - 1);
      } else {
        ShrZero(j - 1);
      }
    }
  }

  /** 2^a <= 2^b when a <= b. */
  lemma {:induction false} Pow2Le(a: nat, b: nat)
    requires a <= b
    ensures Pow2(a) <= Pow2(b)
  {
    if a < b {
      Pow2Le(a, b - 1);
    }
  }

  /** XOR with the same b twice gives a back. */
  lemma {:induction false} XorTwice(a: nat, b: nat)
    ensures Xor(Xor(a, b), b) == a
    decreases a + b
  {
    if a + b > 0 {
      var c := Xor(a, b);
      XorDiv2(a, b);
      XorHalf(c, b);
      XorTwice(a / 2, b / 2);
    }
  }

  /** The bits of a | b from bit k up are those of a and b from bit k up. */
  lemma {:induction false} OrHigh(a: nat, b: nat, k: nat)
    ensures Shr(Or(a, b), k) == Or(Shr(a, k), Shr(b, k))
  {
    if k > 0 {
      OrDiv2(a, b);
      OrHigh(a / 2, b / 2, k - 1);
    }
  }

  /** The bits of a ^ b from bit k up are those of a and b from bit k up. */
  lemma {:induction false} XorHigh(a: nat, b: nat, k: nat)
    ensures Shr(Xor(a, b), k) == Xor(Shr(a, k), Shr(b, k))
  {
    if k > 0 {
      XorDiv2(a, b);
      XorHigh(a / 2, b / 2, k - 1);
    }
  }

  /** The bits of a | b below bit k are those of a and b below bit k. */
  lemma {:induction false} OrLow(a: nat, b: nat, k: nat)
    ensures Low(Or(a, b), k) == Or(Low(a, k), Low(b, k))
  {
    if k > 0 {
      var a', b' := Low(a, k), Low(b, k);
      LowDiv2(a, k);
      LowDiv2(b, k);
      OrDiv2(a, b);
      OrHalf(a', b');
      OrLow(a / 2, b / 2, k - 1);
    }
  }

  /** Halving the k low bits gives the k - 1 low bits of the half. */
  lemma LowDiv2(a: nat, k: nat)
    requires k > 0
    ensures Low(a, k) / 2 == Low(a / 2, k - 1) && Low(a, k) % 2 == a % 2
  {
  }

  lemma {:induction false} OrCommutes(a: nat, b: nat)
    ensures Or(a, b) == Or(b, a)
    decreases a + b
  {
    if a != 0 && b != 0 {
      OrCommutes(a / 2, b / 2);
    }
  }

  /** Two values that fit in k bits have an OR that fits in k bits. */
  lemma OrFits(a: nat, b: nat, k: nat)
    requires Fits(a, k) && Fits(b, k)
    ensures Fits(Or(a, b), k)
  {
    OrHigh(a, b, k);
  }

  /** Two values that fit in k bits have an XOR that fits in k bits. */
  lemma XorFits(a: nat, b: nat, k: nat)
    requires Fits(a, k) && Fits(b, k)
    ensures Fits(Xor(a, b), k)
  {
    XorHigh(a, b, k);
  }

  /** Below 2^k, OR stays below 2^k. */
  lemma OrBound(a: nat, b: nat, k: nat)
    requires a < Pow2(k) && b < Pow2(k)
    ensures Or(a, b) < Pow2(k)
  {
    FitsPow2(a, k);
    FitsPow2(b, k);
    OrFits(a, b, k);
    FitsPow2(Or(a, b), k);
  }

  /** Below 2^k, XOR stays below 2^k. */
  lemma XorBound(a: nat, b: nat, k: nat)
    requires a < Pow2(k) && b < Pow2(k)
    ensures Xor(a, b) < Pow2(k)
  {
    FitsPow2(a, k);
    FitsPow2(b, k);
    XorFits(a, b, k);
    FitsPow2(Xor(a, b), k);
  }

  /** OR of hi << k with a value below bit k is addition. */
  lemma {:induction false} OrShlDisjoint(hi: nat, lo: nat, k: nat)
    requires Fits(lo, k)
    ensures Or(Shl(hi, k), lo) == Shl(hi, k) + lo
  {
    if k > 0 {
      OrHalf(Shl(hi, k), lo);
      OrShlDisjoint(hi, lo / 2, k - 1);
    } else {
      assert lo == Shr(lo, 0);
    }
  }

  /** Shifting distributes over OR. */
  lemma {:induction false} OrShl(a: nat, b: nat, s: nat)
    ensures Or(Shl(a, s), Shl(b, s)) == Shl(Or(a, b), s)
  {
    if s > 0 {
      OrHalf(Shl(a, s), Shl(b, s));
      OrShl(a, b, s - 1);
    }
  }

  /** Bit k of a | b is set iff it is set in a or in b. */
  lemma OrTestBit(a: nat, b: nat, k: nat)
    ensures TestBit(Or(a, b), k) == (TestBit(a, k) || TestBit(b, k))
  {
    OrHigh(a, b, k);
    OrDiv2(Shr(a, k), Shr(b, k));
  }

  /** Bit k of a ^ b is set iff it is set in exactly one of a and b. */
  lemma XorTestBit(a: nat, b: nat, k: nat)
    ensures TestBit(Xor(a, b), k) == (TestBit(a, k) != TestBit(b, k))
  {
    XorHigh(a, b, k);
    XorDiv2(Shr(a, k), Shr(b, k));
  }

  /** OR with zeros in the low k bits of both operands keeps the low k bits zero. */
  lemma OrZeroLow(a: nat, b: nat, k: nat)
    requires Low(a, k) == 0 && Low(b, k) == 0
    ensures Low(Or(a, b), k) == 0
  {
    OrLow(a, b, k);
  }
}
