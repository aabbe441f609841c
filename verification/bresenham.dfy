/** The integer line tracer `drawLine` (render.go:466-513).

    `States(a, b)` are the loop states from `a` to `b` on the unbounded plane,
    got by iterating the loop body `Step`, and `Trace(a, b)` their points;
    `Line(a, b, mx, my)` is what
    the rasteriser keeps of it: the longest prefix that lies inside an `mx`×`my`
    framebuffer, because the Go loop breaks at the first point outside instead
    of skipping it. `DrawLine` is the loop itself, proved to compute `Line`. */
module Bresenham {
  import opened RenderTypes
  import opened GoInt

  /** The loop's mutable variables: current point and error term. */
  datatype LineState = LineState(x: int, y: int, err: int)

  /** `dx` of the source (|x1 - x0|). */
  function DX(a: IVec2, b: IVec2): nat { Abs(b.x - a.x) }

  /** The magnitude of the source's `dy`, which is stored negated there. */
  function DY(a: IVec2, b: IVec2): nat { Abs(b.y - a.y) }

  /** Step signs: -1 whenever the start is not strictly before the end. */
  function SX(a: IVec2, b: IVec2): int { if a.x >= b.x then -1 else 1 }

  function SY(a: IVec2, b: IVec2): int { if a.y >= b.y then -1 else 1 }

  function Init(a: IVec2, b: IVec2): LineState
  {
    LineState(a.x, a.y, DX(a, b) - DY(a, b))
  }

  predicate AtEnd(b: IVec2, s: LineState)
  {
    s.x == b.x && s.y == b.y
  }

  function Point(s: LineState): IVec2 { IVec2(s.x, s.y) }

  /** The loop's x test `e2 >= dy`, with `e2 = 2 * err`. */
  predicate StepsX(a: IVec2, b: IVec2, s: LineState)
  {
    2 * s.err >= -(DY(a, b) as int)
  }

  /** The loop's y test `e2 <= dx`. */
  predicate StepsY(a: IVec2, b: IVec2, s: LineState)
  {
    2 * s.err <= DX(a, b)
  }

  /** One pass of the loop body after the point is recorded: both tests use the
      error term from before the pass, so a diagonal step is possible. */
  function Step(a: IVec2, b: IVec2, s: LineState): LineState
  {
    var x1 := if StepsX(a, b, s) then s.x + SX(a, b) else s.x;
    var err1 := if StepsX(a, b, s) then s.err - DY(a, b) else s.err;
    var y1 := if StepsY(a, b, s) then s.y + SY(a, b) else s.y;
    var err2 := if StepsY(a, b, s) then err1 + DX(a, b) else err1;
    LineState(x1, y1, err2)
  }

  /** Steps taken along x since `a`, counted toward `b`. The direction test is
      the one that fixes `SX`, so it is the same for every state of a line. */
  function XSteps(a: IVec2, b: IVec2, s: LineState): int
  {
    if a.x >= b.x then a.x - s.x else s.x - a.x
  }

  function YSteps(a: IVec2, b: IVec2, s: LineState): int
  {
    if a.y >= b.y then a.y - s.y else s.y - a.y
  }

  /** max(|dx|, |dy|): the number of steps along the longer axis. */
  function Steps(a: IVec2, b: IVec2): nat
  {
    if DX(a, b) >= DY(a, b) then DX(a, b) else DY(a, b)
  }

  /** Steps still to go along the longer axis. */
  function Left(a: IVec2, b: IVec2, s: LineState): int
  {
    if DX(a, b) >= DY(a, b) then DX(a, b) - XSteps(a, b, s) else DY(a, b) - YSteps(a, b, s)
  }

  /** The states the loop can reach from `Init(a, b)`: neither axis has moved
      past `b`, the error term is determined by how many steps were taken on
      each axis, and twice the deviation from the ideal line stays within the
      longer axis. */
  predicate OnPath(a: IVec2, b: IVec2, s: LineState)
  {
    && XSteps(a, b, s) <= DX(a, b)
    && YSteps(a, b, s) <= DY(a, b)
    && ErrorTerm(DX(a, b), DY(a, b), XSteps(a, b, s), YSteps(a, b, s), s.err)
  }

  /** After `X` steps in x and `Y` in y the error term is `dx + dy` plus `dy`
      per x step and `dx` per y step; twice the deviation `A - B - err` from the
      ideal line never exceeds the longer axis. */
  predicate ErrorTerm(A: int, B: int, X: int, Y: int, err: int)
  {
    && X >= 0 && Y >= 0
    && err == A - B + Times(Y, A) - Times(X, B)
    && -Max(A, B) <= 2 * (A - B - err) <= Max(A, B)
  }

  lemma InitOnPath(a: IVec2, b: IVec2)
    ensures OnPath(a, b, Init(a, b))
  {
  }

  /** The x test fails once x has reached the end while y has not. */
  lemma NoOvershootX(A: int, B: int, X: nat, Y: nat, err: int)
    requires A >= 0 && X == A && Y < B
    requires err == A - B + Times(Y, A) - Times(X, B)
    ensures 2 * err < -B
  {
    TimesIsProduct(Y, A);
    TimesIsProduct(X, B);
    MulNonNeg(A, B - Y - 1);
    assert A * (B - Y - 1) == A * B - Y * A - A;
  }

  /** The y test fails once y has reached the end while x has not. */
  lemma NoOvershootY(A: int, B: int, X: nat, Y: nat, err: int)
    requires B >= 0 && Y == B && X < A
    requires err == A - B + Times(Y, A) - Times(X, B)
    ensures 2 * err > A
  {
    TimesIsProduct(Y, A);
    TimesIsProduct(X, B);
    MulNonNeg(B, A - X - 1);
    assert B * (A - X - 1) == A * B - X * B - B;
  }

  /** The loop's arithmetic in step counts: `X`, `Y` steps taken out of `A`,
      `B`. Some axis always moves, neither overshoots, the error term keeps its
      closed form and its bound, and the longer axis moves every time. */
  lemma StepCounts(A: int, B: int, X: int, Y: int, err: int)
    requires 0 <= X <= A && 0 <= Y <= B && !(X == A && Y == B)
    requires ErrorTerm(A, B, X, Y, err)
    ensures var stepX, stepY := 2 * err >= -B, 2 * err <= A;
      var X', Y' := (if stepX then X + 1 else X), (if stepY then Y + 1 else Y);
      var err' := err + (if stepX then -B else 0) + (if stepY then A else 0);
      && (stepX || stepY)
      && (stepX ==> X < A) && (stepY ==> Y < B)
      && ErrorTerm(A, B, X', Y', err')
      && (A >= B ==> stepX) && (B >= A ==> stepY)
  {
    if X == A && Y < B {
      NoOvershootX(A, B, X, Y, err);
    }
    if Y == B && X < A {
      NoOvershootY(A, B, X, Y, err);
    }
    assert Times(Y + 1, A) == Times(Y, A) + A;
    assert Times(X + 1, B) == Times(X, B) + B;
  }

  /** `StepCounts` read on a loop state. */
  lemma StepArith(a: IVec2, b: IVec2, s: LineState)
    requires OnPath(a, b, s) && !AtEnd(b, s)
    ensures StepsX(a, b, s) || StepsY(a, b, s)
    ensures StepsX(a, b, s) ==> XSteps(a, b, s) < DX(a, b)
    ensures StepsY(a, b, s) ==> YSteps(a, b, s) < DY(a, b)
    ensures DX(a, b) >= DY(a, b) ==> StepsX(a, b, s)
    ensures DY(a, b) >= DX(a, b) ==> StepsY(a, b, s)
    ensures ErrorTerm(DX(a, b), DY(a, b),
                      XSteps(a, b, s) + (if StepsX(a, b, s) then 1 else 0),
                      YSteps(a, b, s) + (if StepsY(a, b, s) then 1 else 0),
                      Step(a, b, s).err)
  {
    StepCounts(DX(a, b), DY(a, b), XSteps(a, b, s), YSteps(a, b, s), s.err);
  }

  /** One loop iteration keeps the state on the path and always advances
      along the longer axis, so exactly one step fewer is left. */
  lemma StepOnPath(a: IVec2, b: IVec2, s: LineState)
    requires OnPath(a, b, s) && !AtEnd(b, s)
    ensures OnPath(a, b, Step(a, b, s))
    ensures Left(a, b, Step(a, b, s)) == Left(a, b, s) - 1
  {
    StepArith(a, b, s);
  }

  /** One loop iteration moves to a different point a king's move away. */
  lemma StepAdjacent(a: IVec2, b: IVec2, s: LineState)
    requires OnPath(a, b, s) && !AtEnd(b, s)
    ensures Adjacent(Point(s), Point(Step(a, b, s)))
  {
    StepArith(a, b, s);
  }

  /** A state on the path lies in the segment's bounding box. */
  lemma OnPathInBox(a: IVec2, b: IVec2, s: LineState)
    requires OnPath(a, b, s)
    ensures Between(a.x, s.x, b.x) && Between(a.y, s.y, b.y)
  {
  }

  /** The states the loop passes through from `s`, for at most `n` further
      steps: it stops at `b` and otherwise steps. */
  function Path(a: IVec2, b: IVec2, s: LineState, n: nat): (r: seq<LineState>)
    ensures |r| >= 1 && r[0] == s
    decreases n
  {
    if AtEnd(b, s) || n == 0 then [s] else [s] + Path(a, b, Step(a, b, s), n - 1)
  }

  /** Every state of a path but the last is short of `b`, and the next one is
      what the loop body makes of it. */
  lemma {:induction false} PathLink(a: IVec2, b: IVec2, s: LineState, n: nat, i: nat)
    requires i < |Path(a, b, s, n)| - 1
    ensures var r := Path(a, b, s, n); !AtEnd(b, r[i]) && r[i + 1] == Step(a, b, r[i])
    decreases n
  {
    var r := Path(a, b, s, n);
    var r' := Path(a, b, Step(a, b, s), n - 1);
    assert r == [s] + r';
    if i > 0 {
      PathLink(a, b, Step(a, b, s), n - 1, i - 1);
      assert r[i] == r'[i - 1] && r[i + 1] == r'[i];
    }
  }

  /** A path that starts on the segment's path stays on it. */
  lemma {:induction false} PathOnPath(a: IVec2, b: IVec2, s: LineState, n: nat, i: nat)
    requires OnPath(a, b, s) && i < |Path(a, b, s, n)|
    ensures OnPath(a, b, Path(a, b, s, n)[i])
    decreases n
  {
    if i > 0 {
      StepOnPath(a, b, s);
      PathOnPath(a, b, Step(a, b, s), n - 1, i - 1);
    }
  }

  /** From a state on the path, given exactly the steps left along the longer
      axis, the loop reaches `b`, one state per step. */
  lemma {:induction false} PathToEnd(a: IVec2, b: IVec2, s: LineState)
    requires OnPath(a, b, s)
    ensures Left(a, b, s) >= 0
    ensures var r := Path(a, b, s, Left(a, b, s)); |r| == Left(a, b, s) + 1 && AtEnd(b, r[|r| - 1])
    decreases Left(a, b, s)
  {
    if !AtEnd(b, s) {
      StepOnPath(a, b, s);
      PathToEnd(a, b, Step(a, b, s));
    }
  }

  /** All the loop states of `drawLine(a, b)` when nothing stops it. The step
      budget is never what ends it (`StatesShape`). */
  function States(a: IVec2, b: IVec2): seq<LineState>
  {
    Path(a, b, Init(a, b), Steps(a, b))
  }

  /** The loop runs from `Init(a, b)` to `b` in max(|dx|, |dy|) steps. */
  lemma StatesShape(a: IVec2, b: IVec2)
    ensures var S := States(a, b);
      |S| == Steps(a, b) + 1 && S[0] == Init(a, b) && AtEnd(b, S[|S| - 1])
  {
    InitOnPath(a, b);
    PathToEnd(a, b, Init(a, b));
  }

  /** The `k`-th state: it is at `b` exactly when it is the last, and
      otherwise the loop body takes it to the next. */
  lemma StatesStep(a: IVec2, b: IVec2, k: nat)
    requires k < |States(a, b)|
    ensures var S := States(a, b);
      && (AtEnd(b, S[k]) <==> k == |S| - 1)
      && (k < |S| - 1 ==> S[k + 1] == Step(a, b, S[k]))
  {
    StatesShape(a, b);
    if k < |States(a, b)| - 1 {
      PathLink(a, b, Init(a, b), Steps(a, b), k);
    }
  }

  lemma StatesOnPath(a: IVec2, b: IVec2, k: nat)
    requires k < |States(a, b)|
    ensures OnPath(a, b, States(a, b)[k])
  {
    InitOnPath(a, b);
    PathOnPath(a, b, Init(a, b), Steps(a, b), k);
  }

  /** The whole path `drawLine(a, b)` walks when nothing stops it. */
  function Trace(a: IVec2, b: IVec2): seq<IVec2>
  {
    var S := States(a, b);
    seq(|S|, i requires 0 <= i < |S| => Point(S[i]))
  }

  /** Line endpoints and steps on the unbounded plane: the path runs from `a`
      to `b` through max(|dx|, |dy|) + 1 points. */
  lemma TraceEnds(a: IVec2, b: IVec2)
    ensures var t := Trace(a, b);
      |t| == Max(DX(a, b), DY(a, b)) + 1 && t[0] == a && t[|t| - 1] == b
  {
    StatesShape(a, b);
  }

  /** Every point of the path lies in the segment's bounding box. */
  lemma TraceInBox(a: IVec2, b: IVec2)
    ensures forall p :: p in Trace(a, b) ==> Between(a.x, p.x, b.x) && Between(a.y, p.y, b.y)
  {
    var t := Trace(a, b);
    forall p | p in t
      ensures Between(a.x, p.x, b.x) && Between(a.y, p.y, b.y)
    {
      var i :| 0 <= i < |t| && t[i] == p;
      StatesOnPath(a, b, i);
      OnPathInBox(a, b, States(a, b)[i]);
    }
  }

  /** Consecutive points of the path are distinct and differ by at most one on
      each axis. */
  lemma TraceChained(a: IVec2, b: IVec2)
    ensures Chained(Trace(a, b))
  {
    var t, S := Trace(a, b), States(a, b);
    forall i | 0 <= i < |t| - 1
      ensures Adjacent(t[i], t[i + 1])
    {
      StatesStep(a, b, i);
      StatesOnPath(a, b, i);
      StepAdjacent(a, b, S[i]);
    }
  }

  /** Each point is a king's move from the previous one. */
  predicate Chained(r: seq<IVec2>)
  {
    forall i :: 0 <= i < |r| - 1 ==> Adjacent(r[i], r[i + 1])
  }

  /** A king's move: distinct points at most one apart on each axis. */
  predicate Adjacent(p: IVec2, q: IVec2)
  {
    p != q && Abs(q.x - p.x) <= 1 && Abs(q.y - p.y) <= 1
  }

  /** The source's bounds test, negated: `x0 < 0 || x0 > h-1 || y0 < 0 || y0 > v-1`
      is what makes the loop break, with the framebuffer's `h` and `v` passed
      as `mx` and `my`. */
  predicate InBounds(p: IVec2, mx: int, my: int)
  {
    !(p.x < 0 || p.x > mx - 1 || p.y < 0 || p.y > my - 1)
  }

  /** The longest prefix of `s` whose points are all in bounds. */
  function TakeInBounds(s: seq<IVec2>, mx: int, my: int): (r: seq<IVec2>)
    ensures r <= s
    ensures forall i :: 0 <= i < |r| ==> InBounds(r[i], mx, my)
    ensures |r| < |s| ==> !InBounds(s[|r|], mx, my)
  {
    if |s| == 0 || !InBounds(s[0], mx, my) then [] else [s[0]] + TakeInBounds(s[1..], mx, my)
  }

  /** What `drawLine(a, b, _)` returns against an `mx`×`my` framebuffer. */
  function Line(a: IVec2, b: IVec2, mx: int, my: int): seq<IVec2>
  {
    TakeInBounds(Trace(a, b), mx, my)
  }

  /** The kept prefix is cut exactly at the first point outside, if any. */
  lemma TakeInBoundsCut(s: seq<IVec2>, k: nat, mx: int, my: int)
    requires k <= |s|
    requires forall i :: 0 <= i < k ==> InBounds(s[i], mx, my)
    requires k < |s| ==> !InBounds(s[k], mx, my)
    ensures TakeInBounds(s, mx, my) == s[..k]
  {
  }

  /** The tracer's output is the path cut at the first point outside. */
  lemma LineCut(a: IVec2, b: IVec2, mx: int, my: int, k: nat)
    requires k <= |Trace(a, b)|
    requires forall i :: 0 <= i < k ==> InBounds(Trace(a, b)[i], mx, my)
    requires k < |Trace(a, b)| ==> !InBounds(Trace(a, b)[k], mx, my)
    ensures Line(a, b, mx, my) == Trace(a, b)[..k]
  {
    TakeInBoundsCut(Trace(a, b), k, mx, my);
  }

  /** Line endpoints and steps: with both endpoints inside the framebuffer the
      tracer runs from `a` all the way to `b`, visiting max(|dx|, |dy|) + 1
      in-bounds points, each a king's move from the previous one. */
  lemma LineInBounds(a: IVec2, b: IVec2, mx: int, my: int)
    requires InBounds(a, mx, my) && InBounds(b, mx, my)
    ensures var l := Line(a, b, mx, my);
      && l == Trace(a, b)
      && l[0] == a && l[|l| - 1] == b
      && |l| == Max(DX(a, b), DY(a, b)) + 1
      && Chained(l)
  {
    var t := Trace(a, b);
    TraceEnds(a, b);
    TraceInBox(a, b);
    TraceChained(a, b);
    forall i | 0 <= i < |t|
      ensures InBounds(t[i], mx, my)
    {
      assert t[i] in t;
    }
    TakeInBoundsCut(t, |t|, mx, my);
  }

  /** Line early stop: a start point outside the framebuffer draws nothing,
      whatever `b` is. */
  lemma LineStartOutside(a: IVec2, b: IVec2, mx: int, my: int)
    requires !InBounds(a, mx, my)
    ensures Line(a, b, mx, my) == []
  {
    TraceEnds(a, b);
    TakeInBoundsCut(Trace(a, b), 0, mx, my);
  }

  /** Line early stop: what the tracer returns is a prefix of the path, lies
      wholly inside the framebuffer, and ends either at the path's end or just
      before the first path point outside. */
  lemma LineIsClippedTrace(a: IVec2, b: IVec2, mx: int, my: int)
    ensures var l, t := Line(a, b, mx, my), Trace(a, b);
      && l <= t
      && (forall i :: 0 <= i < |l| ==> InBounds(l[i], mx, my))
      && (|l| < |t| ==> !InBounds(t[|l|], mx, my))
      && Chained(l)
  {
    var l, t := Line(a, b, mx, my), Trace(a, b);
    TraceChained(a, b);
    forall i | 0 <= i < |l| - 1
      ensures Adjacent(l[i], l[i + 1])
    {
      assert l[i] == t[i] && l[i + 1] == t[i + 1];
    }
  }

  /** The explicit pixel sequence for the segment (0,0)-(4,2). */
  lemma TraceExample()
    ensures Trace(IVec2(0, 0), IVec2(4, 2))
         == [IVec2(0, 0), IVec2(1, 1), IVec2(2, 1), IVec2(3, 2), IVec2(4, 2)]
  {
    var a, b := IVec2(0, 0), IVec2(4, 2);
    var s0 := Init(a, b);
    var s1 := Step(a, b, s0);
    var s2 := Step(a, b, s1);
    var s3 := Step(a, b, s2);
    var s4 := Step(a, b, s3);
    assert s1 == LineState(1, 1, 4);
    assert s2 == LineState(2, 1, 2);
    assert s3 == LineState(3, 2, 4);
    assert s4 == LineState(4, 2, 2);
    assert Path(a, b, s4, 0) == [s4];
    assert Path(a, b, s3, 1) == [s3, s4];
    assert Path(a, b, s2, 2) == [s2, s3, s4];
    assert Path(a, b, s1, 3) == [s1, s2, s3, s4];
    assert States(a, b) == [s0, s1, s2, s3, s4];
  }

  /** The loop's statements after the point is recorded compute `Step`. */
  lemma LoopStep(a: IVec2, b: IVec2, s: LineState, dx: int, dy: int, sx: int, sy: int, next: LineState)
    requires dx == DX(a, b) && dy == -(DY(a, b) as int) && sx == SX(a, b) && sy == SY(a, b)
    requires next.x == if 2 * s.err >= dy then s.x + sx else s.x
    requires next.y == if 2 * s.err <= dx then s.y + sy else s.y
    requires next.err == s.err + (if 2 * s.err >= dy then dy else 0) + (if 2 * s.err <= dx then dx else 0)
    ensures next == Step(a, b, s)
  {
  }

  /** The Go loop, statement for statement. The ghost counter `k` indexes the
      loop state in `States(a, b)`. */
  method DrawLine(a: IVec2, b: IVec2, mx: int, my: int) returns (points: seq<IVec2>)
    ensures points == Line(a, b, mx, my)
    ensures InBounds(a, mx, my) && InBounds(b, mx, my) ==>
              |points| == Max(DX(a, b), DY(a, b)) + 1 && points[0] == a && points[|points| - 1] == b
  {
    points := [];
    var x0, y0 := a.x, a.y;
    var x1, y1 := b.x, b.y;
    var dx: int := Abs(x1 - x0);
    var dy: int := -(Abs(y1 - y0) as int);
    var sx := 1;
    if x0 >= x1 {
      sx := -1;
    }
    var sy := 1;
    if y0 >= y1 {
      sy := -1;
    }
    var err := dx + dy;
    ghost var S, t := States(a, b), Trace(a, b);
    ghost var k: nat := 0;
    StatesShape(a, b);
    while true
      invariant |t| == |S| && k < |S| && S[k] == LineState(x0, y0, err)
      invariant points == t[..k]
      invariant forall i :: 0 <= i < k ==> InBounds(t[i], mx, my)
      decreases |S| - k
    {
      StatesStep(a, b, k);
      if x0 < 0 || x0 > mx - 1 || y0 < 0 || y0 > my - 1 {
        LineCut(a, b, mx, my, k);
        break;
      }
      points := points + [IVec2(x0, y0)];
      if x0 == x1 && y0 == y1 {
        LineCut(a, b, mx, my, k + 1);
        break;
      }
      var s := LineState(x0, y0, err);
      var e2 := 2 * err;
      if e2 >= dy {
        err := err + dy;
        x0 := x0 + sx;
      }
      if e2 <= dx {
        err := err + dx;
        y0 := y0 + sy;
      }
      LoopStep(a, b, s, dx, dy, sx, sy, LineState(x0, y0, err));
      k := k + 1;
    }
    if InBounds(a, mx, my) && InBounds(b, mx, my) {
      LineInBounds(a, b, mx, my);
    }
  }
}
