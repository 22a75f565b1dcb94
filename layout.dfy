/** The function patterns that vplan draws on the module grid (section 6.3 of
    ISO/IEC 18004): the timing lines, the position squares with their light
    separators, the alignment squares, the version pattern and the dark
    module. Go's grid, `[][]Pixel` rows cut from one backing slice, is an
    `array2<Pixel>` indexed [row, column]. */
module Layout {
  import opened BitMath
  import opened Pixels
  import opened Tables

  function Abs(x: int): nat {
    if x < 0 then -x else x
  }

  /** The ring of module (i, j) around module (ci, cj): their Chebyshev
      distance. */
  function Ring(i: int, j: int, ci: int, cj: int): nat {
    if Abs(i - ci) < Abs(j - cj) then Abs(j - cj) else Abs(i - ci)
  }

  /** A module of a position square at ring d from its centre: dark in the
      3x3 centre (rings 0 and 1) and the outer border (ring 3), light in
      ring 2 and in the separator around the square (ring 4). */
  function FinderPixel(d: nat): Pixel {
    if d == 2 || d == 4 then RolePixel(Position) else RolePixel(Position) + Black
  }

  /** A module of an alignment square at ring d from its centre: dark border
      (ring 2), light ring 1, dark centre. */
  function AlignPixel(d: nat): Pixel {
    if d == 1 then RolePixel(Alignment) else RolePixel(Alignment) + Black
  }

  /** Module k of the timing row or column: dark at even k. */
  function TimingPixel(k: int): Pixel {
    if k % 2 == 0 then RolePixel(Timing) + Black else RolePixel(Timing)
  }

  /** `grid(siz)`: a siz x siz grid of empty (role 0) modules. */
  method Grid(siz: nat) returns (m: array2<Pixel>)
    ensures fresh(m) && m.Length0 == siz && m.Length1 == siz
    ensures forall i, j | 0 <= i < siz && 0 <= j < siz :: m[i, j] == 0
  {
    m := new Pixel[siz, siz]((i, j) => 0);
  }

  // ---------------------------------------------------------------------
  // Position squares

  /** `posBox(m, x, y)`: the position square with its upper left module at
      column x, row y, and the light separator around it wherever that falls
      inside the grid. Nothing else changes. */
  method PosBox(m: array2<Pixel>, x: int, y: int)
    requires m.Length0 == m.Length1
    requires 0 <= x && x + 7 <= m.Length1 && 0 <= y && y + 7 <= m.Length0
    modifies m
    ensures forall i, j | 0 <= i < m.Length0 && 0 <= j < m.Length1 ::
      m[i, j] == if Ring(i, j, y + 3, x + 3) <= 4 then FinderPixel(Ring(i, j, y + 3, x + 3)) else old(m[i, j])
  {
    var dy := 0;
    while dy < 7
      invariant 0 <= dy <= 7
      invariant forall i, j | 0 <= i < m.Length0 && 0 <= j < m.Length1 ::
        m[i, j] == if y <= i < y + dy && x <= j < x + 7 then FinderPixel(Ring(i, j, y + 3, x + 3)) else old(m[i, j])
    {
      PosRow(m, x, y, dy);
      dy := dy + 1;
    }
    PosBorder(m, x, y);
  }

  /** Row dy of the position square: the inner loop of posBox's box. */
  method PosRow(m: array2<Pixel>, x: int, y: int, dy: int)
    requires 0 <= x && x + 7 <= m.Length1 && 0 <= y && 0 <= dy < 7 && y + 7 <= m.Length0
    modifies m
    ensures forall i, j | 0 <= i < m.Length0 && 0 <= j < m.Length1 ::
      m[i, j] == if i == y + dy && x <= j < x + 7 then FinderPixel(Ring(i, j, y + 3, x + 3)) else old(m[i, j])
  {
    var pos := RolePixel(Position);
    RoleBlack(Position);
    var dx := 0;
    while dx < 7
      invariant 0 <= dx <= 7
      invariant forall i, j | 0 <= i < m.Length0 && 0 <= j < m.Length1 ::
        m[i, j] == if i == y + dy && x <= j < x + dx then FinderPixel(Ring(i, j, y + 3, x + 3)) else old(m[i, j])
    {
      var p := pos;
      if dx == 0 || dx == 6 || dy == 0 || dy == 6 || (2 <= dx && dx <= 4 && 2 <= dy && dy <= 4) {
        p := PixelOr(p, Black);
      }
      assert p == FinderPixel(Ring(y + dy, x + dx, y + 3, x + 3));
      m[y + dy, x + dx] := p;
      dx := dx + 1;
    }
  }

  /** The light separator of posBox: the two columns beside the square, then
      the two rows above and below it, each clipped to the grid. */
  method PosBorder(m: array2<Pixel>, x: int, y: int)
    requires m.Length0 == m.Length1
    requires 0 <= x && x + 7 <= m.Length1 && 0 <= y && y + 7 <= m.Length0
    modifies m
    ensures forall i, j | 0 <= i < m.Length0 && 0 <= j < m.Length1 ::
      m[i, j] == if Ring(i, j, y + 3, x + 3) == 4 then RolePixel(Position) else old(m[i, j])
  {
    var pos := RolePixel(Position);
    var n := m.Length0;
    var dy := -1;
    while dy < 8
      invariant -1 <= dy <= 8
      invariant forall i, j | 0 <= i < n && 0 <= j < n ::
        m[i, j] == if (j == x - 1 || j == x + 7) && y - 1 <= i < y + dy then pos else old(m[i, j])
    {
      if 0 <= y + dy && y + dy < n {
        if x > 0 {
          m[y + dy, x - 1] := pos;
        }
        if x + 7 < n {
          m[y + dy, x + 7] := pos;
        }
      }
      dy := dy + 1;
    }
    var dx := -1;
    while dx < 8
      invariant -1 <= dx <= 8
      invariant forall i, j | 0 <= i < n && 0 <= j < n ::
        m[i, j] == if ((j == x - 1 || j == x + 7) && y - 1 <= i <= y + 7)
                      || ((i == y - 1 || i == y + 7) && x - 1 <= j < x + dx) then pos else old(m[i, j])
    {
      if 0 <= x + dx && x + dx < n {
        if y > 0 {
          m[y - 1, x + dx] := pos;
        }
        if y + 7 < n {
          m[y + 7, x + dx] := pos;
        }
      }
      dx := dx + 1;
    }
  }

  // ---------------------------------------------------------------------
  // Alignment squares

  /** `alignBox(m, x, y)`: the alignment square with its upper left module
      at column x, row y. Nothing else changes. */
  method AlignBox(m: array2<Pixel>, x: int, y: int)
    requires 0 <= x && x + 5 <= m.Length1 && 0 <= y && y + 5 <= m.Length0
    modifies m
    ensures forall i, j | 0 <= i < m.Length0 && 0 <= j < m.Length1 ::
      m[i, j] == if Ring(i, j, y + 2, x + 2) <= 2 then AlignPixel(Ring(i, j, y + 2, x + 2)) else old(m[i, j])
  {
    var align := RolePixel(Alignment);
    RoleBlack(Alignment);
    var dy := 0;
    while dy < 5
      invariant 0 <= dy <= 5
      invariant forall i, j | 0 <= i < m.Length0 && 0 <= j < m.Length1 ::
        m[i, j] == if y <= i < y + dy && x <= j < x + 5 then AlignPixel(Ring(i, j, y + 2, x + 2)) else old(m[i, j])
    {
      var dx := 0;
      while dx < 5
        invariant 0 <= dx <= 5
        invariant forall i, j | 0 <= i < m.Length0 && 0 <= j < m.Length1 ::
          m[i, j] == if (y <= i < y + dy && x <= j < x + 5) || (i == y + dy && x <= j < x + dx)
                     then AlignPixel(Ring(i, j, y + 2, x + 2)) else old(m[i, j])
      {
        var p := align;
        if dx == 0 || dx == 4 || dy == 0 || dy == 4 || (dx == 2 && dy == 2) {
          p := PixelOr(p, Black);
        }
        assert p == AlignPixel(Ring(y + dy, x + dx, y + 2, x + 2));
        m[y + dy, x + dx] := p;
        dx := dx + 1;
      }
      dy := dy + 1;
    }
  }

  /** Along one axis, the alignment squares start at 4, at apos and every
      astride after apos. IsOrigin says that c is one of these starts. */
  predicate IsOrigin(apos: int, astride: int, c: int)
    requires astride > 0
  {
    c == 4 || (c >= apos && (c - apos) % astride == 0)
  }

  /** The start of the alignment square that covers coordinate c along one
      axis, or -1 when c lies between squares. */
  function AlignOrigin(apos: int, astride: int, c: int): int
    requires astride > 0
  {
    if 4 <= c < 9 then 4
    else if c >= apos && (c - apos) % astride < 5 then c - (c - apos) % astride
    else -1
  }

  /** The squares vplan leaves out because they would cover a position
      square: origin column x, origin row y, grid side n. */
  predicate NearFinder(n: int, x: int, y: int) {
    (x < 7 && y < 7) || (x < 7 && y + 5 >= n - 7) || (x + 5 >= n - 7 && y < 7)
  }

  /** Module (i, j) lies in an alignment square that vplan draws: both of
      its coordinates are covered by a square start that fits in the grid,
      and that pair of starts is not next to a position square. */
  predicate AlignCell(n: int, apos: int, astride: int, i: int, j: int)
    requires astride > 0
  {
    var oi := AlignOrigin(apos, astride, i);
    var oj := AlignOrigin(apos, astride, j);
    0 <= oi && oi + 5 < n && 0 <= oj && oj + 5 < n && !NearFinder(n, oj, oi)
  }

  /** The square that starts at o covers exactly the coordinates o..o+4. */
  lemma OriginRange(apos: int, astride: int, o: int, c: int)
    requires apos >= 9 && astride >= 5 && IsOrigin(apos, astride, o)
    ensures AlignOrigin(apos, astride, c) == o <==> o <= c < o + 5
  {
    if o != 4 && o <= c < o + 5 {
      var k := (o - apos) / astride;
      assert o - apos == k * astride;
      DivModUnique(c - apos, astride, k, c - o);
    }
  }

  /** After the square at o, the next start is apos when o is 4 and
      o + astride otherwise; no square starts in between. */
  function NextOrigin(apos: int, astride: int, o: int): int {
    if o == 4 then apos else o + astride
  }

  lemma OriginNext(apos: int, astride: int, o: int, c: int)
    requires apos >= 9 && astride >= 5 && IsOrigin(apos, astride, o)
    ensures IsOrigin(apos, astride, NextOrigin(apos, astride, o))
    ensures AlignOrigin(apos, astride, c) < NextOrigin(apos, astride, o) <==> AlignOrigin(apos, astride, c) <= o
  {
    var a := AlignOrigin(apos, astride, c);
    if o == 4 {
      DivModUnique(0, astride, 0, 0);
    } else {
      var k := (o - apos) / astride;
      assert o - apos == k * astride;
      DivModUnique(o + astride - apos, astride, k + 1, 0);
      if a >= apos {
        var k' := (c - apos) / astride;
        assert a - apos == k' * astride;
        if k' <= k {
          MulMono(k', k, astride);
        } else {
          MulMono(k + 1, k', astride);
        }
      }
    }
  }

  /** Multiplying by a non-negative number keeps the order. */
  lemma MulMono(a: int, b: int, d: int)
    requires a <= b && d >= 0
    ensures a * d <= b * d
  {
    assert b * d - a * d == (b - a) * d;
  }

  /** The alignment-square loop of vplan: every square whose starts fit in
      the grid is drawn unless it would cover a position square. Nothing else
      changes. */
  method AlignBoxes(m: array2<Pixel>, apos: int, astride: int)
    requires m.Length0 == m.Length1 && apos >= 9 && astride >= 5
    modifies m
    ensures forall i, j | 0 <= i < m.Length0 && 0 <= j < m.Length1 ::
      m[i, j] == if AlignCell(m.Length0, apos, astride, i, j)
                 then AlignPixel(Ring(i, j, AlignOrigin(apos, astride, i) + 2, AlignOrigin(apos, astride, j) + 2))
                 else old(m[i, j])
  {
    var n := m.Length0;
    var x := 4;
    while x + 5 < n
      invariant IsOrigin(apos, astride, x) && x >= 4
      invariant forall i, j | 0 <= i < n && 0 <= j < n ::
        m[i, j] == if AlignCell(n, apos, astride, i, j) && AlignOrigin(apos, astride, j) < x
                   then AlignPixel(Ring(i, j, AlignOrigin(apos, astride, i) + 2, AlignOrigin(apos, astride, j) + 2))
                   else old(m[i, j])
      decreases n - x
    {
      AlignColumn(m, apos, astride, x);
      forall c | 0 <= c < n
        ensures AlignOrigin(apos, astride, c) < NextOrigin(apos, astride, x) <==> AlignOrigin(apos, astride, c) <= x
      {
        OriginNext(apos, astride, x, c);
      }
      OriginNext(apos, astride, x, 0);
      if x == 4 {
        x := apos;
      } else {
        x := x + astride;
      }
    }
  }

  /** The inner loop of the alignment-square loop: the squares whose start
      column is x. */
  method AlignColumn(m: array2<Pixel>, apos: int, astride: int, x: int)
    requires m.Length0 == m.Length1 && apos >= 9 && astride >= 5
    requires IsOrigin(apos, astride, x) && 0 <= x && x + 5 < m.Length0
    modifies m
    ensures forall i, j | 0 <= i < m.Length0 && 0 <= j < m.Length1 ::
      m[i, j] == if AlignCell(m.Length0, apos, astride, i, j) && AlignOrigin(apos, astride, j) == x
                 then AlignPixel(Ring(i, j, AlignOrigin(apos, astride, i) + 2, x + 2))
                 else old(m[i, j])
  {
    var n := m.Length0;
    forall c | 0 <= c < n
      ensures AlignOrigin(apos, astride, c) == x <==> x <= c < x + 5
    {
      OriginRange(apos, astride, x, c);
    }
    var y := 4;
    while y + 5 < n
      invariant IsOrigin(apos, astride, y) && y >= 4
      invariant forall i, j | 0 <= i < n && 0 <= j < n ::
        m[i, j] == if AlignCell(n, apos, astride, i, j) && AlignOrigin(apos, astride, j) == x && AlignOrigin(apos, astride, i) < y
                   then AlignPixel(Ring(i, j, AlignOrigin(apos, astride, i) + 2, x + 2))
                   else old(m[i, j])
      decreases n - y
    {
      forall c | 0 <= c < n
        ensures AlignOrigin(apos, astride, c) == y <==> y <= c < y + 5
      {
        OriginRange(apos, astride, y, c);
      }
      if (x < 7 && y < 7) || (x < 7 && y + 5 >= n - 7) || (x + 5 >= n - 7 && y < 7) {
        // next to a position square: skipped
      } else {
        AlignBox(m, x, y);
      }
      forall c | 0 <= c < n
        ensures AlignOrigin(apos, astride, c) < NextOrigin(apos, astride, y) <==> AlignOrigin(apos, astride, c) <= y
      {
        OriginNext(apos, astride, y, c);
      }
      OriginNext(apos, astride, y, 0);
      if y == 4 {
        y := apos;
      } else {
        y := y + astride;
      }
    }
  }

  // ---------------------------------------------------------------------
  // Timing lines and the version pattern

  /** The timing loop of vplan: row 6 and column 6 alternate dark and light,
      dark first. Nothing else changes. */
  method TimingLines(m: array2<Pixel>)
    requires m.Length0 == m.Length1 && m.Length0 > 6
    modifies m
    ensures forall i, j | 0 <= i < m.Length0 && 0 <= j < m.Length1 ::
      m[i, j] == if j == 6 then TimingPixel(i) else if i == 6 then TimingPixel(j) else old(m[i, j])
  {
    var n := m.Length0;
    RoleBlack(Timing);
    var i := 0;
    while i < n
      invariant 0 <= i <= n
      invariant forall a, b | 0 <= a < n && 0 <= b < n ::
        m[a, b] == if b == 6 && a < i then TimingPixel(a)
                   else if a == 6 && b < i then TimingPixel(b)
                   else if a == 6 && b == 6 && i > 6 then TimingPixel(6)
                   else old(m[a, b])
    {
      var p := RolePixel(Timing);
      if i % 2 == 0 {
        p := PixelOr(p, Black);
      }
      m[i, 6] := p;
      m[6, i] := p;
      i := i + 1;
    }
  }

  /** Module k of the version pattern: dark when bit k of the pattern is set. */
  function VersionPixel(pat: nat, k: nat): Pixel {
    if TestBit(pat, k) then RolePixel(PVersion) + Black else RolePixel(PVersion)
  }

  /** The version-pattern loop of vplan: bit 3x + y of the pattern goes to
      row n-11+y, column x (the 6x3 block beside the lower left position
      square) and to row x, column n-11+y (the 3x6 block beside the upper
      right one). Nothing else changes. */
  method VersionBlocks(m: array2<Pixel>, pat: nat)
    requires m.Length0 == m.Length1 && m.Length0 >= 17
    modifies m
    ensures forall i, j | 0 <= i < m.Length0 && 0 <= j < m.Length1 ::
      m[i, j] == if m.Length0 - 11 <= i < m.Length0 - 8 && j < 6 then VersionPixel(pat, 3 * j + i - (m.Length0 - 11))
                 else if i < 6 && m.Length0 - 11 <= j < m.Length0 - 8 then VersionPixel(pat, 3 * i + j - (m.Length0 - 11))
                 else old(m[i, j])
  {
    var n := m.Length0;
    var v := pat;
    var x := 0;
    while x < 6
      invariant 0 <= x <= 6 && v == Shr(pat, 3 * x)
      invariant forall i, j | 0 <= i < n && 0 <= j < n ::
        m[i, j] == if n - 11 <= i < n - 8 && j < x then VersionPixel(pat, 3 * j + i - (n - 11))
                   else if i < x && n - 11 <= j < n - 8 then VersionPixel(pat, 3 * i + j - (n - 11))
                   else old(m[i, j])
    {
      v := VersionColumn(m, pat, x, v);
      x := x + 1;
    }
  }

  /** One pass of the inner loop of VersionBlocks: bits 3x..3x+2 of the
      pattern, v holding the pattern shifted right by 3x. */
  method VersionColumn(m: array2<Pixel>, ghost pat: nat, x: nat, v0: nat) returns (v: nat)
    requires m.Length0 == m.Length1 && m.Length0 >= 17 && x < 6 && v0 == Shr(pat, 3 * x)
    modifies m
    ensures v == Shr(pat, 3 * x + 3)
    ensures forall i, j | 0 <= i < m.Length0 && 0 <= j < m.Length1 ::
      m[i, j] == if m.Length0 - 11 <= i < m.Length0 - 8 && j == x then VersionPixel(pat, 3 * j + i - (m.Length0 - 11))
                 else if i == x && m.Length0 - 11 <= j < m.Length0 - 8 then VersionPixel(pat, 3 * i + j - (m.Length0 - 11))
                 else old(m[i, j])
  {
    var n := m.Length0;
    RoleBlack(PVersion);
    v := v0;
    var y := 0;
    while y < 3
      invariant 0 <= y <= 3 && v == Shr(pat, 3 * x + y)
      invariant forall i, j | 0 <= i < n && 0 <= j < n ::
        m[i, j] == if n - 11 <= i < n - 11 + y && j == x then VersionPixel(pat, 3 * j + i - (n - 11))
                   else if i == x && n - 11 <= j < n - 11 + y then VersionPixel(pat, 3 * i + j - (n - 11))
                   else old(m[i, j])
    {
      var p := RolePixel(PVersion);
      if v % 2 == 1 {
        p := PixelOr(p, Black);
      }
      m[n - 11 + y, x] := p;
      m[x, n - 11 + y] := p;
      ShrStep(pat, 3 * x + y);
      v := v / 2;
      y := y + 1;
    }
  }

  /** Shifting right by one more bit halves the shifted value. */
  lemma {:induction false} ShrStep(a: nat, k: nat)
    ensures Shr(a, k + 1) == Shr(a, k) / 2
  {
    if k > 0 {
      ShrStep(a / 2, k - 1);
    }
  }

  // ---------------------------------------------------------------------
  // The whole function-pattern grid

  /** The timing lines on an empty grid. */
  function TimingGrid(i: int, j: int): Pixel {
    if j == 6 then TimingPixel(i) else if i == 6 then TimingPixel(j) else 0
  }

  /** The three position squares (upper left, upper right, lower left, the
      later drawn over the earlier) over the timing lines. */
  function FinderGrid(n: int, i: int, j: int): Pixel {
    if Ring(i, j, n - 4, 3) <= 4 then FinderPixel(Ring(i, j, n - 4, 3))
    else if Ring(i, j, 3, n - 4) <= 4 then FinderPixel(Ring(i, j, 3, n - 4))
    else if Ring(i, j, 3, 3) <= 4 then FinderPixel(Ring(i, j, 3, 3))
    else TimingGrid(i, j)
  }

  /** The alignment squares (coordinates apos and astride) over the
      position squares. */
  function AlignGrid(n: int, apos: int, astride: int, i: int, j: int): Pixel
    requires astride > 0
  {
    if AlignCell(n, apos, astride, i, j) then
      AlignPixel(Ring(i, j, AlignOrigin(apos, astride, i) + 2, AlignOrigin(apos, astride, j) + 2))
    else FinderGrid(n, i, j)
  }

  /** The dark module and the version pattern pat (none when 0) over the
      alignment squares. */
  function PatternGrid(n: int, apos: int, astride: int, pat: nat, i: int, j: int): Pixel
    requires astride > 0
  {
    if i == n - 8 && j == 8 then RolePixel(Unused) + Black
    else if pat != 0 && n - 11 <= i < n - 8 && 0 <= j < 6 then VersionPixel(pat, 3 * j + i - (n - 11))
    else if pat != 0 && 0 <= i < 6 && n - 11 <= j < n - 8 then VersionPixel(pat, 3 * i + j - (n - 11))
    else AlignGrid(n, apos, astride, i, j)
  }

  /** Module (i, j) of the grid that vplan builds for version v, later
      drawings winning over earlier ones: the dark module, the version
      pattern, the alignment squares, the three position squares and the
      timing lines; every other module is still empty (role 0). */
  function VPixel(v: Version, i: int, j: int): Pixel {
    VTabOk(v);
    PatternGrid(Size(v), VTab(v).apos, VTab(v).astride, VTab(v).pattern, i, j)
  }

  /** The first drawings of vplan on an empty grid: the timing lines,
      then the three position squares. */
  method DrawFinders(m: array2<Pixel>)
    requires m.Length0 == m.Length1 && m.Length0 >= 21
    requires forall i, j | 0 <= i < m.Length0 && 0 <= j < m.Length1 :: m[i, j] == 0
    modifies m
    ensures forall i, j | 0 <= i < m.Length0 && 0 <= j < m.Length1 :: m[i, j] == FinderGrid(m.Length0, i, j)
  {
    var siz := m.Length0;
    TimingLines(m);
    assert forall i, j | 0 <= i < siz && 0 <= j < siz :: m[i, j] == TimingGrid(i, j);
    PosBox(m, 0, 0);
    PosBox(m, siz - 7, 0);
    PosBox(m, 0, siz - 7);
  }

  /** The last drawings of vplan: the version pattern pat when it is not 0,
      then the dark module. */
  method DrawPattern(m: array2<Pixel>, apos: int, astride: int, pat: nat)
    requires m.Length0 == m.Length1 && m.Length0 >= 21 && astride > 0 && (pat != 0 ==> m.Length0 >= 45)
    requires forall i, j | 0 <= i < m.Length0 && 0 <= j < m.Length1 :: m[i, j] == AlignGrid(m.Length0, apos, astride, i, j)
    modifies m
    ensures forall i, j | 0 <= i < m.Length0 && 0 <= j < m.Length1 ::
      m[i, j] == PatternGrid(m.Length0, apos, astride, pat, i, j)
  {
    var siz := m.Length0;
    if pat != 0 {
      VersionBlocks(m, pat);
    }
    RoleBlack(Unused);
    m[siz - 8, 8] := PixelOr(RolePixel(Unused), Black);
  }

  /** vplan draws nothing but function patterns and the unused module. */
  lemma VPixelRole(v: Version, i: int, j: int)
    requires 0 <= i < Size(v) && 0 <= j < Size(v)
    ensures Role(VPixel(v, i, j)) < Data
  {
    RoleBlack(Unused);
    RoleBlack(PVersion);
    RoleBlack(Alignment);
    RoleBlack(Position);
    RoleBlack(Timing);
  }

  /** vplan leaves no module of column 6 empty: each belongs to the timing
      line or to a pattern drawn over it. */
  lemma Column6Taken(v: Version, i: int)
    requires 0 <= i < Size(v)
    ensures Role(VPixel(v, i, 6)) != 0
  {
    RoleBlack(Unused);
    RoleBlack(PVersion);
    RoleBlack(Alignment);
    RoleBlack(Position);
    RoleBlack(Timing);
  }
}
