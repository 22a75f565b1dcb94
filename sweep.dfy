/** The zig-zag placement of lplan (section 7.7.3 of ISO/IEC 18004): the
    columns are taken in pairs from the right edge, skipping the vertical
    timing column 6; the sweep goes up the first pair, down the next, and so
    on, and in each row it visits the right module of the pair before the
    left one. Every empty module (role 0) it meets takes the next pixel of
    the source; every other module is left alone. */
module Sweep {
  import opened BitMath
  import opened Pixels

  /** The pair of column c, counted from the right edge of an n-module grid:
      (n-1, n-2) is pair 0, ..., (8, 7), then (5, 4), (3, 2) and (1, 0). */
  function PairOf(n: int, c: int): int {
    if c >= 7 then (n - 1 - c) / 2 else (n - 7) / 2 + (5 - c) / 2
  }

  /** Column c is the right one of its pair (n is odd). */
  predicate RightOf(c: int) {
    if c >= 7 then c % 2 == 0 else c % 2 == 1
  }

  /** The step at which the sweep visits module (y, c): pair after pair,
      row after row (upwards in even pairs, downwards in odd ones), the right
      module before the left. */
  function Visit(n: int, y: int, c: int): int {
    var p := PairOf(n, c);
    p * (2 * n) + 2 * (if p % 2 == 0 then n - 1 - y else y) + (if RightOf(c) then 0 else 1)
  }

  /** A grid side of the form 17 + 4v. */
  predicate GridSide(n: int) {
    n >= 21 && n % 4 == 1
  }

  /** A copy of the grid's modules, row by row. */
  ghost function Snap(m: array2<Pixel>): (g: seq<seq<Pixel>>)
    reads m
    ensures |g| == m.Length0 && forall i | 0 <= i < m.Length0 :: |g[i]| == m.Length1
    ensures forall i, j | 0 <= i < m.Length0 && 0 <= j < m.Length1 :: g[i][j] == m[i, j]
  {
    seq(m.Length0, i reads m requires 0 <= i < m.Length0 =>
      seq(m.Length1, j reads m requires 0 <= j < m.Length1 => m[i, j]))
  }

  /** Where the sweep stands after its first T steps, g0 being the grid it
      started from: the modules filled so far, in `order`, are the empty
      modules of g0 outside column 6 visited before step T, in the order of
      their visits, and the k-th holds src[k]; every other module is as in
      g0. */
  ghost predicate Swept(m: array2<Pixel>, g0: seq<seq<Pixel>>, src: seq<Pixel>, order: seq<(int, int)>, T: int)
    reads m
  {
    var n := m.Length0;
    && m.Length1 == n && |g0| == n && (forall i | 0 <= i < n :: |g0[i]| == n)
    && |order| <= |src| && InOrder(n, order)
    && (forall k | 0 <= k < |order| :: Filled(m, g0, src, order, T, k))
    && (forall i, j | 0 <= i < n && 0 <= j < n :: Kept(m, g0, order, T, i, j))
  }

  /** The k-th module of `order` is an empty module of g0 outside column 6,
      visited before step T, and holds src[k]. */
  ghost predicate Filled(m: array2<Pixel>, g0: seq<seq<Pixel>>, src: seq<Pixel>, order: seq<(int, int)>, T: int, k: int)
    reads m
    requires m.Length0 == m.Length1 && |g0| == m.Length0 && (forall i | 0 <= i < |g0| :: |g0[i]| == m.Length0)
    requires |order| <= |src| && 0 <= k < |order|
  {
    var (i, j) := order[k];
    && 0 <= i < m.Length0 && 0 <= j < m.Length0 && j != 6 && Visit(m.Length0, i, j) < T
    && Role(g0[i][j]) == 0 && m[i, j] == src[k]
  }

  /** Module (i, j) is as in g0 unless it is in `order`, and it is in
      `order` if it is an empty module of g0 outside column 6 visited before
      step T. */
  ghost predicate Kept(m: array2<Pixel>, g0: seq<seq<Pixel>>, order: seq<(int, int)>, T: int, i: int, j: int)
    reads m
    requires 0 <= i < m.Length0 && 0 <= j < m.Length1 && |g0| == m.Length0 && |g0[i]| == m.Length1
  {
    && ((i, j) !in order ==> m[i, j] == g0[i][j])
    && (j != 6 && Visit(m.Length0, i, j) < T && Role(g0[i][j]) == 0 ==> (i, j) in order)
  }

  /** The modules of `order` come in strictly increasing order of visit. */
  ghost predicate InOrder(n: int, order: seq<(int, int)>) {
    forall k, k' | 0 <= k < k' < |order| :: Visit(n, order[k].0, order[k].1) < Visit(n, order[k'].0, order[k'].1)
  }

  /** Distinct modules outside column 6 are visited at distinct steps. */
  lemma VisitInjective(n: int, i: int, j: int, i': int, j': int)
    requires GridSide(n) && 0 <= i < n && 0 <= j < n && 0 <= i' < n && 0 <= j' < n && j != 6 && j' != 6
    requires Visit(n, i, j) == Visit(n, i', j')
    ensures i == i' && j == j'
  {
    var p, w := VisitSplit(n, i, j);
    var p', w' := VisitSplit(n, i', j');
    DivModUnique(Visit(n, i, j), 2 * n, p, w);
    DivModUnique(Visit(n, i', j'), 2 * n, p', w');
    PairSide(n, j, j');
  }

  /** A visit step is the pair times 2n plus the step within the pair. */
  lemma VisitSplit(n: int, i: int, j: int) returns (p: int, w: int)
    requires GridSide(n) && 0 <= i < n && 0 <= j < n && j != 6
    ensures p == PairOf(n, j) && w == 2 * (if p % 2 == 0 then n - 1 - i else i) + (if RightOf(j) then 0 else 1)
    ensures Visit(n, i, j) == p * (2 * n) + w && 0 <= w < 2 * n
  {
    p := PairOf(n, j);
    w := 2 * (if p % 2 == 0 then n - 1 - i else i) + (if RightOf(j) then 0 else 1);
  }

  /** A pair and a side name one column. */
  lemma PairSide(n: int, j: int, j': int)
    requires GridSide(n) && 0 <= j < n && 0 <= j' < n && j != 6 && j' != 6
    requires PairOf(n, j) == PairOf(n, j') && RightOf(j) == RightOf(j')
    ensures j == j'
  {
    ColumnOf(n, j);
    ColumnOf(n, j');
  }

  /** The column of a pair and a side: pairs below (n-7)/2 lie right of the
      timing column. */
  lemma ColumnOf(n: int, j: int)
    requires GridSide(n) && 0 <= j < n && j != 6
    ensures j >= 7 <==> PairOf(n, j) < (n - 7) / 2
    ensures j >= 7 ==> j == n - 1 - 2 * PairOf(n, j) - (if RightOf(j) then 0 else 1)
    ensures j < 7 ==> j == 5 - 2 * (PairOf(n, j) - (n - 7) / 2) - (if RightOf(j) then 0 else 1)
  {
    var k := (n - 1) / 4;
    assert n == 4 * k + 1 && (n - 7) / 2 == 2 * k - 3;
    if j >= 7 {
      var h := (4 * k - j) / 2;
      assert 4 * k - j == 2 * h + (4 * k - j) % 2;
    } else {
      var h := (5 - j) / 2;
      assert 5 - j == 2 * h + (5 - j) % 2;
    }
  }

  /** `zigzag`, the sweep of lplan: from x = n down to 0, up the column
      pair (x-1, x-2), then down the next pair, jumping over column 6. On
      return, the grid is g0 (a copy of the grid as it was) with the empty
      modules met so far, in `order`, filled from src in turn; ok is false
      only when src ran out at an empty module (where Go's slicing panics),
      and when ok every empty module outside column 6 has been filled. */
  method ZigZag(m: array2<Pixel>, src: seq<Pixel>) returns (ok: bool, ghost g0: seq<seq<Pixel>>, ghost order: seq<(int, int)>)
    requires m.Length0 == m.Length1 && GridSide(m.Length0)
    modifies m
    ensures |g0| == m.Length0 && (forall i | 0 <= i < m.Length0 :: |g0[i]| == m.Length0)
    ensures forall i, j | 0 <= i < m.Length0 && 0 <= j < m.Length1 :: g0[i][j] == old(m[i, j])
    ensures ok ==> Swept(m, g0, src, order, Steps(m.Length0))
    ensures !ok ==> |order| == |src|
  {
    var n := m.Length0;
    g0 := Snap(m);
    order := [];
    VisitRange(n);
    var pos := 0;
    var x := n;
    ghost var T := 0;
    ok := true;
    while x > 0
      invariant x == 0 || x == 4 || (9 <= x <= n && x % 4 == 1)
      invariant pos == |order|
      invariant forall i, j | 0 <= i < n && 0 <= j < n :: g0[i][j] == old(m[i, j])
      invariant T == Done(n, x) * (2 * n)
      invariant Swept(m, g0, src, order, T)
      invariant ok
      decreases x
    {
      Columns(n, x);
      ghost var P := Done(n, x);
      PairSteps(T, P, n);
      pos, ok, order, x := Round(m, g0, src, pos, order, x, P, T);
      if !ok {
        return;
      }
      T := T + 4 * n;
    }
  }

  /** One round of the outer loop of the sweep, at x: up the pair (x-1, x-2),
      which is pair P and starts at step T, then down the next pair, ending
      at x' (x - 4, or 4 when x is 9). */
  method Round(m: array2<Pixel>, ghost g0: seq<seq<Pixel>>, src: seq<Pixel>, pos: nat, ghost order: seq<(int, int)>,
               x: int, ghost P: int, ghost T: int)
    returns (next: nat, ok: bool, ghost order': seq<(int, int)>, x': int)
    requires m.Length0 == m.Length1 && GridSide(m.Length0)
    requires PairAt(m.Length0, x, P) && PairAt(m.Length0, Turn(x), P + 1) && P % 2 == 0
    requires T == P * (2 * m.Length0) && T + 2 * m.Length0 == (P + 1) * (2 * m.Length0)
    requires Swept(m, g0, src, order, T) && pos == |order|
    modifies m
    ensures x' == Turn(x) - 2
    ensures ok ==> Swept(m, g0, src, order', T + 4 * m.Length0) && next == |order'|
    ensures !ok ==> |order'| == |src|
  {
    var n := m.Length0;
    next, ok, order' := Pass(m, g0, src, pos, order, x, true, P, T);
    x' := x - 2;
    if x' == 7 {
      x' := x' - 1;
    }
    if !ok {
      x' := x' - 2;
      return;
    }
    assert x' == Turn(x);
    next, ok, order' := Pass(m, g0, src, next, order', x', false, P + 1, T + 2 * n);
    x' := x' - 2;
  }

  /** Pair P starts at step P * 2n; the next two pairs 2n and 4n later. */
  lemma PairSteps(T: int, P: int, n: int)
    requires T == P * (2 * n)
    ensures T + 2 * n == (P + 1) * (2 * n) && T + 4 * n == (P + 2) * (2 * n)
  {
  }

  /** The steps of the whole sweep: (n-1)/2 column pairs of 2n modules. */
  function Steps(n: int): int {
    (n - 1) / 2 * (2 * n)
  }

  /** Every module outside column 6 is visited within the sweep. */
  lemma VisitRange(n: int)
    requires GridSide(n)
    ensures forall i, j | 0 <= i < n && 0 <= j < n && j != 6 :: 0 <= Visit(n, i, j) < Steps(n)
  {
    forall i, j | 0 <= i < n && 0 <= j < n && j != 6
      ensures 0 <= Visit(n, i, j) < Steps(n)
    {
      VisitBelow(n, i, j);
    }
  }

  lemma VisitBelow(n: int, i: int, j: int)
    requires GridSide(n) && 0 <= i < n && 0 <= j < n && j != 6
    ensures 0 <= Visit(n, i, j) < Steps(n)
  {
    var p, w := VisitSplit(n, i, j);
    PairRange(n, j);
    var d := 2 * n;
    MulLe(0, p, d);
    MulLt(p, (n - 1) / 2, d);
  }

  /** Column pairs are numbered 0 to (n-1)/2 - 1. */
  lemma PairRange(n: int, j: int)
    requires GridSide(n) && 0 <= j < n && j != 6
    ensures 0 <= PairOf(n, j) < (n - 1) / 2
  {
    var k := (n - 1) / 4;
    assert n == 4 * k + 1 && (n - 1) / 2 == 2 * k;
  }

  /** The number of column pairs the sweep has finished when its outer loop
      stands at x. */
  function Done(n: int, x: int): int {
    if x >= 9 then (n - x) / 2 else if x == 4 then (n - 7) / 2 + 1 else (n - 1) / 2
  }

  /** Where the outer loop of the sweep turns down: two columns left of x,
      stepping over the timing column. */
  function Turn(x: int): int {
    if x - 2 == 7 then 6 else x - 2
  }

  /** Columns x-1 (right) and x-2 (left) form column pair P of an n-module
      grid, which the sweep goes up when P is even. */
  predicate PairAt(n: int, x: int, P: int) {
    && 2 <= x <= n && x - 1 != 6 && x - 2 != 6
    && PairOf(n, x - 1) == P && PairOf(n, x - 2) == P && RightOf(x - 1) && !RightOf(x - 2)
  }

  /** The column pairs of one round of the outer loop at x: (x-1, x-2) is
      pair Done(n, x), going up; (Turn(x)-1, Turn(x)-2) is the next pair,
      going down; the round ends at Turn(x) - 2. */
  lemma Columns(n: int, x: int)
    requires GridSide(n) && (x == 4 || (9 <= x <= n && x % 4 == 1))
    ensures PairAt(n, x, Done(n, x)) && Done(n, x) % 2 == 0
    ensures PairAt(n, Turn(x), Done(n, x) + 1)
    ensures Turn(x) - 2 == 0 || Turn(x) - 2 == 4 || (9 <= Turn(x) - 2 <= n && (Turn(x) - 2) % 4 == 1)
    ensures Done(n, Turn(x) - 2) == Done(n, x) + 2
  {
    var k := (n - 1) / 4;
    assert n == 4 * k + 1;
    if x == 4 {
      assert Done(n, x) == 2 * k - 2;
    } else if x == 9 {
      assert Done(n, x) == 2 * k - 4;
      assert PairOf(n, 5) == 2 * k - 3 && PairOf(n, 4) == 2 * k - 3;
    } else {
      ColumnsRight(n, x, k);
    }
  }

  lemma ColumnsRight(n: int, x: int, k: int)
    requires GridSide(n) && 13 <= x <= n && x % 4 == 1 && n == 4 * k + 1
    ensures PairOf(n, x - 1) == Done(n, x) && PairOf(n, x - 2) == Done(n, x) && Done(n, x) % 2 == 0
    ensures PairOf(n, x - 3) == Done(n, x) + 1 && PairOf(n, x - 4) == Done(n, x) + 1
    ensures Done(n, x - 4) == Done(n, x) + 2
  {
    var h := (x - 1) / 4;
    assert x == 4 * h + 1;
    assert Done(n, x) == 2 * (k - h);
  }

  /** One of the inner loops of the sweep, at x: up (or down) the column
      pair (x-1, x-2), which is pair P and starts at step T, right module
      first. */
  method Pass(m: array2<Pixel>, ghost g0: seq<seq<Pixel>>, src: seq<Pixel>, pos: nat, ghost order: seq<(int, int)>,
              x: int, up: bool, ghost P: int, ghost T: int)
    returns (next: nat, ok: bool, ghost order': seq<(int, int)>)
    requires m.Length0 == m.Length1 && GridSide(m.Length0) && PairAt(m.Length0, x, P)
    requires up == (P % 2 == 0) && T == P * (2 * m.Length0)
    requires Swept(m, g0, src, order, T) && pos == |order|
    modifies m
    ensures ok ==> Swept(m, g0, src, order', T + 2 * m.Length0) && next == |order'|
    ensures !ok ==> |order'| == |src|
  {
    var n := m.Length0;
    next, ok, order' := pos, true, order;
    var r := 0;
    while r < n
      invariant 0 <= r <= n
      invariant Swept(m, g0, src, order', T + 2 * r) && next == |order'|
    {
      var y := if up then n - 1 - r else r;
      VisitRow(n, y, x, P);
      next, ok, order' := Place(m, g0, src, next, order', y, x - 1, T + 2 * r);
      if !ok {
        return;
      }
      next, ok, order' := Place(m, g0, src, next, order', y, x - 2, T + 2 * r + 1);
      if !ok {
        return;
      }
      r := r + 1;
    }
  }

  /** Row y of the pair at x comes 2 * r steps into the pair, r counting rows
      in the direction of the pass; its right module first, then its left
      one. */
  lemma VisitRow(n: int, y: int, x: int, P: int)
    requires 0 <= y < n && PairAt(n, x, P)
    ensures Visit(n, y, x - 1) == P * (2 * n) + 2 * (if P % 2 == 0 then n - 1 - y else y)
    ensures Visit(n, y, x - 2) == P * (2 * n) + 2 * (if P % 2 == 0 then n - 1 - y else y) + 1
  {
  }

  /** One module of the sweep, the one visited at step T: an empty module
      takes the source pixel at pos; any other module is left alone. With no
      source pixel left at an empty module, ok is false and nothing
      changes. */
  method Place(m: array2<Pixel>, ghost g0: seq<seq<Pixel>>, src: seq<Pixel>, pos: nat, ghost order: seq<(int, int)>,
               y: int, c: int, ghost T: int)
    returns (next: nat, ok: bool, ghost order': seq<(int, int)>)
    requires GridSide(m.Length0) && 0 <= y < m.Length0 && 0 <= c < m.Length1 && c != 6
    requires Swept(m, g0, src, order, T) && pos == |order| && Visit(m.Length0, y, c) == T
    modifies m
    ensures ok ==> Swept(m, g0, src, order', T + 1) && next == |order'|
    ensures !ok ==> |order'| == |src|
  {
    var n := m.Length0;
    forall i, j | 0 <= i < n && 0 <= j < n && j != 6 && Visit(n, i, j) == T
      ensures i == y && j == c
    {
      VisitInjective(n, i, j, y, c);
    }
    assert Kept(m, g0, order, T, y, c);
    forall k | 0 <= k < |order|
      ensures order[k] != (y, c)
    {
      assert Filled(m, g0, src, order, T, k);
    }
    ghost var T1 := T + 1;
    next, ok, order' := pos, true, order;
    if Role(m[y, c]) == 0 {
      if pos == |src| {
        ok := false;
        return;
      }
      m[y, c] := src[pos];
      next := pos + 1;
      order' := order + [(y, c)];
      forall k | 0 <= k < |order'|
        ensures Filled(m, g0, src, order', T1, k)
      {
        if k < |order| {
          assert old(Filled(m, g0, src, order, T, k));
        }
      }
      forall i, j | 0 <= i < n && 0 <= j < n
        ensures Kept(m, g0, order', T1, i, j)
      {
        assert old(Kept(m, g0, order, T, i, j));
      }
      forall k, k' | 0 <= k < k' < |order'|
        ensures Visit(n, order'[k].0, order'[k].1) < Visit(n, order'[k'].0, order'[k'].1)
      {
        assert old(Filled(m, g0, src, order, T, k));
      }
    } else {
      forall i, j | 0 <= i < n && 0 <= j < n
        ensures Kept(m, g0, order', T1, i, j)
      {
        assert Kept(m, g0, order, T, i, j);
      }
      forall k | 0 <= k < |order'|
        ensures Filled(m, g0, src, order', T1, k)
      {
        assert Filled(m, g0, src, order, T, k);
      }
    }
  }
}
