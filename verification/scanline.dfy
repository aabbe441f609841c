/** The scanline triangle filler `fillTriangle` (render.go:516-570): sort the
    three corners by y, build the x table of each edge with `edgeInterpolate`,
    and emit one horizontal span per row from the top corner's row to the
    bottom corner's row. */
module Scanline {
  import opened RenderTypes
  import opened GoInt

  /** Three corners, in the order the swaps leave them. */
  datatype Sorted3 = Sorted3(v0: IVec2, v1: IVec2, v2: IVec2)

  /** The three conditional swaps of the source, in their order; each compares
      the corners as the previous swaps left them. */
  function SortByY(v0: IVec2, v1: IVec2, v2: IVec2): (r: Sorted3)
    ensures r.v0.y <= r.v1.y <= r.v2.y
    ensures multiset{r.v0, r.v1, r.v2} == multiset{v0, v1, v2}
  {
    var (a0, a1) := if v1.y < v0.y then (v1, v0) else (v0, v1);
    var (b0, a2) := if v2.y < a0.y then (v2, a0) else (a0, v2);
    var (b1, b2) := if a2.y < a1.y then (a2, a1) else (a1, a2);
    Sorted3(b0, b1, b2)
  }

  /** Corners already in row order are left where they are: every swap is
      strict, so equal rows are never exchanged. */
  lemma SortByYKeepsSorted(v0: IVec2, v1: IVec2, v2: IVec2)
    requires v0.y <= v1.y <= v2.y
    ensures SortByY(v0, v1, v2) == Sorted3(v0, v1, v2)
  {
  }

  /** `edgeInterpolate(y0, y1, x0, x1)`: the x of the edge on each row from
      `y0` to `y1`. A flat edge gives its start alone; an upward edge gives
      nothing, because the source's loop `i <= dy` does not run. */
  function EdgeInterpolate(y0: int, y1: int, x0: int, x1: int): (r: seq<int>)
    ensures |r| == if y1 >= y0 then y1 - y0 + 1 else 0
  {
    var dy := y1 - y0;
    if dy == 0 then
      [x0]
    else if dy < 0 then
      []
    else
      var dx := x1 - x0;
      seq(dy + 1, i requires 0 <= i <= dy => x0 + TruncDiv(dx * i, dy))
  }

  /** Sorting and edge tables: a flat edge is `[x0]`; otherwise the table has
      one entry per row, starts at `x0`, ends at `x1`, never leaves the range
      between them, and its `i`-th entry is `x0` plus `dx * i / dy` truncated
      toward zero. */
  lemma EdgeEntries(y0: int, y1: int, x0: int, x1: int)
    requires y1 >= y0
    ensures var r := EdgeInterpolate(y0, y1, x0, x1);
      && r[0] == x0
      && (y1 == y0 ==> r == [x0])
      && (y1 > y0 ==> r[|r| - 1] == x1)
      && (forall i :: 0 <= i < |r| ==> Between(x0, r[i], x1))
      && (y1 > y0 ==> forall i :: 0 <= i < |r| ==> TruncQuotient(r[i] - x0, (x1 - x0) * i, y1 - y0))
  {
    var r := EdgeInterpolate(y0, y1, x0, x1);
    var dy, dx := y1 - y0, x1 - x0;
    if dy > 0 {
      forall i | 0 <= i < |r|
        ensures Between(x0, r[i], x1)
      {
        TruncScaled(dx, i, dy);
      }
      TruncScaled(dx, 0, dy);
      TruncScaled(dx, dy, dy);
    }
  }

  /** The span of row `y` between two edge entries, swapped into order first,
      from left to right. */
  function Span(xa: int, xb: int, y: int): (r: seq<IVec2>)
    ensures |r| == Abs(xb - xa) + 1
  {
    var (lo, hi) := if xa > xb then (xb, xa) else (xa, xb);
    seq(hi - lo + 1, k requires 0 <= k <= hi - lo => IVec2(lo + k, y))
  }

  /** A span holds exactly the pixels of its row between its two ends. */
  lemma SpanMembers(xa: int, xb: int, y: int, p: IVec2)
    ensures p in Span(xa, xb, y) <==> p.y == y && Between(xa, p.x, xb)
  {
    var r := Span(xa, xb, y);
    if p.y == y && Between(xa, p.x, xb) {
      assert r[p.x - Min(xa, xb)] == p;
    }
  }

  /** Rows `i` up to `n` of the fill: row `i` is scanline `y0 + i`, and emits a
      span only when both tables have an entry for it. */
  function Rows(x02: seq<int>, x012: seq<int>, y0: int, i: nat, n: nat): seq<IVec2>
    decreases n - i
  {
    if i >= n then
      []
    else
      (if i < |x02| && i < |x012| then Span(x02[i], x012[i], y0 + i) else [])
      + Rows(x02, x012, y0, i + 1, n)
  }

  /** A pixel is emitted by rows `i` to `n` exactly when its row is one of them,
      both tables cover that row, and its x lies between the two entries. */
  lemma {:induction false} RowsMembers(x02: seq<int>, x012: seq<int>, y0: int, i: nat, n: nat, p: IVec2)
    ensures p in Rows(x02, x012, y0, i, n) <==>
      var k := p.y - y0;
      i <= k < n && k < |x02| && k < |x012| && Between(x02[k], p.x, x012[k])
    decreases n - i
  {
    if i < n {
      RowsMembers(x02, x012, y0, i + 1, n, p);
      if i < |x02| && i < |x012| {
        SpanMembers(x02[i], x012[i], y0 + i, p);
      }
    }
  }

  /** Corners in row order, as the swaps leave them. */
  predicate Ordered(s: Sorted3)
  {
    s.v0.y <= s.v1.y <= s.v2.y
  }

  /** The two edge tables the rows are cut from: the long edge `x02` from the
      top corner to the bottom one, and `x012`, the two short edges joined at
      the middle corner. */
  datatype EdgeTables = EdgeTables(x02: seq<int>, x012: seq<int>)

  /** Both tables have one entry per row from the top corner to the bottom
      one, so every scanline of the triangle has a span. */
  function Edges(s: Sorted3): (e: EdgeTables)
    requires Ordered(s)
    ensures |e.x02| == |e.x012| == s.v2.y - s.v0.y + 1
  {
    var x01 := EdgeInterpolate(s.v0.y, s.v1.y, s.v0.x, s.v1.x);
    var x12 := EdgeInterpolate(s.v1.y, s.v2.y, s.v1.x, s.v2.x);
    var x02 := EdgeInterpolate(s.v0.y, s.v2.y, s.v0.x, s.v2.x);
    EdgeTables(x02, x01[..|x01| - 1] + x12)
  }

  /** The rows of a triangle whose corners are in row order. */
  function FillSorted(s: Sorted3): seq<IVec2>
    requires Ordered(s)
  {
    var e := Edges(s);
    Rows(e.x02, e.x012, s.v0.y, 0, s.v2.y - s.v0.y + 1)
  }

  /** `fillTriangle(v0, v1, v2, _, _)`: the pixels it returns, row by row from
      the top corner, each row left to right. */
  function FillTriangle(v0: IVec2, v1: IVec2, v2: IVec2): seq<IVec2>
  {
    FillSorted(SortByY(v0, v1, v2))
  }

  /** Scanline coverage: a pixel is filled exactly when its row lies between
      the top and bottom corners and its x between the two table entries of
      that row. */
  lemma FillMembers(s: Sorted3, p: IVec2)
    requires Ordered(s)
    ensures var e, k := Edges(s), p.y - s.v0.y;
      p in FillSorted(s) <==> s.v0.y <= p.y <= s.v2.y && Between(e.x02[k], p.x, e.x012[k])
  {
    var e, n := Edges(s), s.v2.y - s.v0.y + 1;
    assert FillSorted(s) == Rows(e.x02, e.x012, s.v0.y, 0, n);
    RowsMembers(e.x02, e.x012, s.v0.y, 0, n, p);
  }

  /** Every scanline from the top corner to the bottom one emits at least its
      long-edge pixel. */
  lemma FillEveryRow(s: Sorted3, y: int)
    requires Ordered(s) && s.v0.y <= y <= s.v2.y
    ensures IVec2(Edges(s).x02[y - s.v0.y], y) in FillSorted(s)
  {
    FillMembers(s, IVec2(Edges(s).x02[y - s.v0.y], y));
  }

  /** The entries of the tables: the long edge stays between the top and
      bottom corners' x and starts and ends at them, and the joined table
      stays on one of the two short edges and passes the middle corner on its
      row. */
  lemma TableEntries(s: Sorted3)
    requires Ordered(s)
    ensures var e := Edges(s);
      && (forall k :: 0 <= k < |e.x012| ==>
            Between(s.v0.x, e.x012[k], s.v1.x) || Between(s.v1.x, e.x012[k], s.v2.x))
      && e.x012[s.v1.y - s.v0.y] == s.v1.x
      && (forall k :: 0 <= k < |e.x02| ==> Between(s.v0.x, e.x02[k], s.v2.x))
      && e.x02[0] == s.v0.x
      && (s.v2.y > s.v0.y ==> e.x02[|e.x02| - 1] == s.v2.x)
  {
    var e := Edges(s);
    var x01 := EdgeInterpolate(s.v0.y, s.v1.y, s.v0.x, s.v1.x);
    var x12 := EdgeInterpolate(s.v1.y, s.v2.y, s.v1.x, s.v2.x);
    EdgeEntries(s.v0.y, s.v1.y, s.v0.x, s.v1.x);
    EdgeEntries(s.v1.y, s.v2.y, s.v1.x, s.v2.x);
    EdgeEntries(s.v0.y, s.v2.y, s.v0.x, s.v2.x);
    assert e.x012 == x01[..|x01| - 1] + x12;
    forall k | 0 <= k < |e.x012|
      ensures Between(s.v0.x, e.x012[k], s.v1.x) || Between(s.v1.x, e.x012[k], s.v2.x)
    {
      if k < |x01| - 1 {
        assert e.x012[k] == x01[k];
      } else {
        assert e.x012[k] == x12[k - (|x01| - 1)];
      }
    }
    assert e.x012[s.v1.y - s.v0.y] == x12[0];
  }

  /** Every filled pixel lies in the bounding box of the three corners. */
  lemma FillSortedInBox(s: Sorted3, p: IVec2)
    requires Ordered(s) && p in FillSorted(s)
    ensures s.v0.y <= p.y <= s.v2.y
    ensures Min(s.v0.x, Min(s.v1.x, s.v2.x)) <= p.x <= Max(s.v0.x, Max(s.v1.x, s.v2.x))
  {
    FillMembers(s, p);
    TableEntries(s);
    var e, k := Edges(s), p.y - s.v0.y;
    assert Between(s.v0.x, e.x02[k], s.v2.x);
    assert Between(s.v0.x, e.x012[k], s.v1.x) || Between(s.v1.x, e.x012[k], s.v2.x);
  }

  /** The corners are filled: the top and middle corners always, and the
      bottom one whenever the triangle spans more than one row. */
  lemma FillSortedCorners(s: Sorted3)
    requires Ordered(s)
    ensures s.v0 in FillSorted(s) && s.v1 in FillSorted(s)
    ensures s.v2.y > s.v0.y ==> s.v2 in FillSorted(s)
  {
    TableEntries(s);
    FillMembers(s, s.v0);
    FillMembers(s, s.v1);
    FillMembers(s, s.v2);
  }

  /** Sorting only reorders: the corners' extremes are unchanged. */
  lemma SortByYSameBox(v0: IVec2, v1: IVec2, v2: IVec2)
    ensures var s := SortByY(v0, v1, v2);
      && s.v0.y == Min(v0.y, Min(v1.y, v2.y)) && s.v2.y == Max(v0.y, Max(v1.y, v2.y))
      && Min(s.v0.x, Min(s.v1.x, s.v2.x)) == Min(v0.x, Min(v1.x, v2.x))
      && Max(s.v0.x, Max(s.v1.x, s.v2.x)) == Max(v0.x, Max(v1.x, v2.x))
  {
  }

  /** Every filled pixel lies in the bounding box of the three corners. */
  lemma FillInBox(v0: IVec2, v1: IVec2, v2: IVec2, p: IVec2)
    requires p in FillTriangle(v0, v1, v2)
    ensures Min(v0.y, Min(v1.y, v2.y)) <= p.y <= Max(v0.y, Max(v1.y, v2.y))
    ensures Min(v0.x, Min(v1.x, v2.x)) <= p.x <= Max(v0.x, Max(v1.x, v2.x))
  {
    FillSortedInBox(SortByY(v0, v1, v2), p);
    SortByYSameBox(v0, v1, v2);
  }

  /** All three corners of a triangle that spans more than one row are
      filled. */
  lemma FillCorners(v0: IVec2, v1: IVec2, v2: IVec2)
    requires !(v0.y == v1.y == v2.y)
    ensures v0 in FillTriangle(v0, v1, v2)
    ensures v1 in FillTriangle(v0, v1, v2)
    ensures v2 in FillTriangle(v0, v1, v2)
  {
    var s := SortByY(v0, v1, v2);
    SortByYSameBox(v0, v1, v2);
    FillSortedCorners(s);
    assert v0 in multiset{s.v0, s.v1, s.v2};
    assert v1 in multiset{s.v0, s.v1, s.v2};
    assert v2 in multiset{s.v0, s.v1, s.v2};
  }

  /** A triangle on a single row fills only the span between its first two
      corners: the third corner's x never enters either table. */
  lemma FlatTriangle(v0: IVec2, v1: IVec2, v2: IVec2)
    requires v0.y == v1.y == v2.y
    ensures FillTriangle(v0, v1, v2) == Span(v0.x, v1.x, v0.y)
  {
    var s := SortByY(v0, v1, v2);
    assert s == Sorted3(v0, v1, v2);
    var e := Edges(s);
    assert e.x02 == [v0.x];
    assert e.x012 == [v1.x];
    assert Rows(e.x02, e.x012, v0.y, 1, 1) == [];
    assert Rows(e.x02, e.x012, v0.y, 0, 1) == Span(v0.x, v1.x, v0.y) + [];
  }
}
