/** Packing rows of dark and light modules into bitmap bytes, eight modules
    to a byte, the leftmost module in the most significant bit: the layout
    of a QR code's bitmap. */
module Raster {
  import opened BitMath
  import opened BitBuffer

  /** Byte c of a row as the modules 8c .. x-1 of `row` mark it: bit
      7 - (x' - 8c) is set for each dark module x' among them. */
  function RowByte(row: seq<bool>, c: nat, x: int): nat
    requires x <= |row|
    decreases x
  {
    if x <= 8 * c then 0
    else if x > 8 * c + 8 then RowByte(row, c, 8 * c + 8)
    else Or(RowByte(row, c, x - 1), if row[x - 1] then Pow2(7 - (x - 1 - 8 * c)) else 0)
  }

  /** Bit 7 - t of byte c is set exactly when module 8c + t is one of the
      first x modules and is dark. */
  lemma {:induction false} RowByteTest(row: seq<bool>, c: nat, x: int, t: nat)
    requires x <= |row| && t < 8
    ensures TestBit(RowByte(row, c, x), 7 - t) <==> (8 * c + t < x && row[8 * c + t])
    decreases x
  {
    if x <= 8 * c {
      ShrZero(7 - t);
    } else if x > 8 * c + 8 {
      RowByteTest(row, c, 8 * c + 8, t);
    } else {
      RowByteTest(row, c, x - 1, t);
      var k := 7 - (x - 1 - 8 * c);
      OrTestBit(RowByte(row, c, x - 1), if row[x - 1] then Pow2(k) else 0, 7 - t);
      Pow2Bit(k, 7 - t);
      ShrZero(7 - t);
    }
  }

  /** Adding module x changes only byte x / 8, by ORing in the bit of
      column x when the module is dark. */
  lemma RowByteNext(row: seq<bool>, c: nat, x: nat)
    requires x < |row|
    ensures RowByte(row, c, x + 1) ==
      if c == x / 8 then Or(RowByte(row, c, x), if row[x] then Pow2(7 - x % 8) else 0)
      else RowByte(row, c, x)
  {
    if c == x / 8 {
      assert x - 8 * c == x % 8;
    }
  }

  /** The bit of column x within its byte: Go's `1 << uint(7-x&7)`. Of
      the eight bits of the byte only bit 7 - x % 8 is set: column 8c + t
      is bit 7 - t, the leftmost column the most significant bit. */
  function ColumnBit(x: nat): (r: Byte)
    ensures r == Pow2(7 - x % 8)
    ensures forall j | 0 <= j < 8 :: TestBit(r, j) <==> j == 7 - x % 8
  {
    Pow2Le(7 - x % 8, 7);
    assert Pow2(7) == 128;
    OnlyBit(7 - x % 8);
    Pow2(7 - x % 8)
  }

  /** Of the eight bits of 2^k, k < 8, only bit k is set. */
  lemma OnlyBit(k: nat)
    requires k < 8
    ensures forall j | 0 <= j < 8 :: TestBit(Pow2(k), j) <==> j == k
  {
    forall j | 0 <= j < 8
      ensures TestBit(Pow2(k), j) <==> j == k
    {
      Pow2Bit(k, j);
    }
  }

  /** Go's `b[k] |= v`. */
  method OrInto(b: array<Byte>, k: nat, v: Byte)
    requires k < b.Length
    modifies b
    ensures b[..] == old(b[..])[k := OrByte(old(b[k]), v)]
  {
    b[k] := OrByte(b[k], v);
  }

  /** cur is orig with the first x modules of `row` ORed into the S bytes
      that start at base. */
  ghost predicate RowPainted(cur: seq<Byte>, orig: seq<Byte>, row: seq<bool>, base: nat, S: nat, x: int)
    requires x <= |row|
  {
    |cur| == |orig| &&
    forall k | 0 <= k < |cur| ::
      cur[k] as int == if base <= k < base + S then Or(orig[k], RowByte(row, k - base, x)) else orig[k]
  }

  /** Painting module x of the row keeps RowPainted. */
  lemma PaintStep(cur: seq<Byte>, orig: seq<Byte>, row: seq<bool>, base: nat, S: nat, x: nat)
    requires x < |row| <= S && base + S <= |cur|
    requires RowPainted(cur, orig, row, base, S, x)
    ensures RowPainted(if row[x] then cur[base + x / 8 := OrByte(cur[base + x / 8], ColumnBit(x))] else cur,
                       orig, row, base, S, x + 1)
  {
    var next := if row[x] then cur[base + x / 8 := OrByte(cur[base + x / 8], ColumnBit(x))] else cur;
    forall k | 0 <= k < |next|
      ensures next[k] as int == if base <= k < base + S then Or(orig[k], RowByte(row, k - base, x + 1)) else orig[k]
    {
      if base <= k < base + S {
        RowByteNext(row, k - base, x);
        if k == base + x / 8 && row[x] {
          OrAssoc(orig[k], RowByte(row, k - base, x), Pow2(7 - x % 8));
        }
      }
    }
  }

  /** A square grid of n rows of n modules. */
  ghost predicate Square(grid: seq<seq<bool>>, n: nat)
  {
    |grid| == n && forall y | 0 <= y < n :: |grid[y]| == n
  }

  /** cur is orig with the first `rows` rows of `grid` ORed in, row y at
      bytes y · S to y · S + S. */
  ghost predicate Painted(cur: seq<Byte>, orig: seq<Byte>, grid: seq<seq<bool>>, n: nat, S: nat, rows: nat)
    requires Square(grid, n) && 0 < S
  {
    |cur| == |orig| &&
    forall k | 0 <= k < |cur| ::
      cur[k] as int == if k < rows * S && k / S < n then Or(orig[k], RowByte(grid[k / S], k % S, n)) else orig[k]
  }

  /** Painting row y keeps Painted. */
  lemma PaintedStep(cur: seq<Byte>, next: seq<Byte>, orig: seq<Byte>, grid: seq<seq<bool>>, n: nat, S: nat, y: nat)
    requires Square(grid, n) && 0 < S && y < n
    requires Painted(cur, orig, grid, n, S, y)
    requires RowPainted(next, cur, grid[y], y * S, S, n)
    ensures Painted(next, orig, grid, n, S, y + 1)
  {
    forall k | 0 <= k < |next| {
      PaintedStepAt(cur, next, orig, grid, n, S, y, k);
    }
  }

  lemma PaintedStepAt(cur: seq<Byte>, next: seq<Byte>, orig: seq<Byte>, grid: seq<seq<bool>>, n: nat, S: nat, y: nat, k: nat)
    requires Square(grid, n) && 0 < S && y < n
    requires Painted(cur, orig, grid, n, S, y)
    requires RowPainted(next, cur, grid[y], y * S, S, n)
    requires k < |next|
    ensures next[k] as int == if k < (y + 1) * S && k / S < n then Or(orig[k], RowByte(grid[k / S], k % S, n)) else orig[k]
  {
    if y * S <= k < (y + 1) * S {
      DivModUnique(k, S, y, k - y * S);
      assert next[k] as int == Or(cur[k], RowByte(grid[y], k - y * S, n));
    } else {
      assert next[k] == cur[k];
    }
  }

  /** Bit 7 - t of byte c of row y in a bitmap with S bytes per row; a
      bit beyond the end of b reads as clear. */
  predicate BitAt(b: seq<Byte>, S: nat, y: nat, c: nat, t: nat)
    requires t < 8
  {
    y * S + c < |b| && TestBit(b[y * S + c], 7 - t)
  }

  /** After painting every row, bit t of byte c of row y is set exactly
      when it was set before or it is the bit of a dark module 8c + t. */
  lemma PaintedBit(cur: seq<Byte>, orig: seq<Byte>, grid: seq<seq<bool>>, n: nat, S: nat, y: nat, c: nat, t: nat)
    requires Square(grid, n) && 0 < S && n * S <= |cur|
    requires Painted(cur, orig, grid, n, S, n)
    requires y < n && c < S && t < 8
    ensures BitAt(cur, S, y, c, t) <==> BitAt(orig, S, y, c, t) || (8 * c + t < n && grid[y][8 * c + t])
  {
    var k := y * S + c;
    MulLe(y + 1, n, S);
    DivModUnique(k, S, y, c);
    assert cur[k] as int == Or(orig[k], RowByte(grid[y], c, n));
    OrTestBit(orig[k], RowByte(grid[y], c, n), 7 - t);
    RowByteTest(grid[y], c, n, t);
  }

  /** No bit of a zeroed bitmap is set. */
  lemma ClearBits(b: seq<Byte>, S: nat, y: nat, c: nat, t: nat)
    requires t < 8 && forall k | 0 <= k < |b| :: b[k] == 0
    ensures !BitAt(b, S, y, c, t)
  {
    ShrZero(7 - t);
  }
}
