/** Primitive assembly: `Vertex3f` (render.go:150-273) collects four vertices
    into the pending quad and, on the fourth, rasterises it according to the
    front polygon mode. The floating-point stage in between (model-view
    transform, perspective divide, viewport mapping, face lighting and the
    average squared distance) is a parameter, `shade`. */
module Assembler {
  import opened RenderTypes
  import Bresenham
  import Scanline
  import opened PipelineState

  /** What the floating-point stage hands the rasteriser for one quad: the four
      screen corners, the lit face colour and the depth every point gets. */
  datatype Shaded = Shaded(s0: IVec2, s1: IVec2, s2: IVec2, s3: IVec2, color: Color, distance: real)

  /** The floating-point stage under the current model-view matrix, as a
      function of the quad, the lights and the framebuffer size. */
  type Shader = (Quad, Lights4, int, int) -> Shaded

  /** Appending `pts` to the vertex list together with one colour and one depth
      per point, as `drawLine` and `fillTriangle` do point by point. */
  function Emit(p: Pipeline, pts: seq<IVec2>, c: Color, dist: real): (r: Pipeline)
    ensures r == p.(vertices := r.vertices, colors := r.colors, depth := r.depth)
    ensures |r.vertices| == |p.vertices| + |pts|
    ensures r.vertices[..|p.vertices|] == p.vertices && r.vertices[|p.vertices|..] == pts
    ensures |r.colors| == |p.colors| + |pts| && r.colors[..|p.colors|] == p.colors
    ensures |r.depth| == |p.depth| + |pts| && r.depth[..|p.depth|] == p.depth
    ensures forall k :: |p.colors| <= k < |r.colors| ==> r.colors[k] == c
    ensures forall k :: |p.depth| <= k < |r.depth| ==> r.depth[k] == dist
    ensures Parallel(p) ==> Parallel(r)
  {
    p.(vertices := p.vertices + pts, colors := p.colors + Repeat(c, |pts|), depth := p.depth + Repeat(dist, |pts|))
  }

  /** Two appends with the same colour and depth are one append of both. */
  lemma EmitConcat(p: Pipeline, a: seq<IVec2>, b: seq<IVec2>, c: Color, dist: real)
    ensures Emit(Emit(p, a, c, dist), b, c, dist) == Emit(p, a + b, c, dist)
  {
    var r, r' := Emit(Emit(p, a, c, dist), b, c, dist), Emit(p, a + b, c, dist);
    assert r.vertices == r'.vertices;
    assert r.colors == r'.colors;
    assert r.depth == r'.depth;
  }

  /** The four edges of the quad, each traced and clipped against the
      framebuffer. */
  function Outline(sh: Shaded, mx: int, my: int): seq<IVec2>
  {
    Bresenham.Line(sh.s0, sh.s1, mx, my) + Bresenham.Line(sh.s1, sh.s2, mx, my)
      + Bresenham.Line(sh.s2, sh.s3, mx, my) + Bresenham.Line(sh.s3, sh.s0, mx, my)
  }

  /** The two triangles v0-v1-v2 and v0-v2-v3, filled. */
  function Interior(sh: Shaded): seq<IVec2>
  {
    Scanline.FillTriangle(sh.s0, sh.s1, sh.s2) + Scanline.FillTriangle(sh.s0, sh.s2, sh.s3)
  }

  /** The `switch polygonModeFront` of `Vertex3f`. LINE draws the four edges in
      the unlit submit colour; POINT records the four corners and FILL the two
      triangles, both in the lit colour; any other mode draws nothing. */
  function Dispatch(p: Pipeline, sh: Shaded): Pipeline
  {
    var mx, my := p.fb.h, p.fb.v;
    if p.modeFront == ModeLine then
      var c := p.submitC;
      var p1 := Emit(p, Bresenham.Line(sh.s0, sh.s1, mx, my), c, sh.distance);
      var p2 := Emit(p1, Bresenham.Line(sh.s1, sh.s2, mx, my), c, sh.distance);
      var p3 := Emit(p2, Bresenham.Line(sh.s2, sh.s3, mx, my), c, sh.distance);
      Emit(p3, Bresenham.Line(sh.s3, sh.s0, mx, my), c, sh.distance)
    else if p.modeFront == ModePoint then
      Emit(p, [sh.s0, sh.s1, sh.s2, sh.s3], sh.color, sh.distance)
    else if p.modeFront == ModeFill then
      var p1 := Emit(p, Scanline.FillTriangle(sh.s0, sh.s1, sh.s2), sh.color, sh.distance);
      Emit(p1, Scanline.FillTriangle(sh.s0, sh.s2, sh.s3), sh.color, sh.distance)
    else
      p
  }

  /** LINE mode appends the clipped outline in the submit colour. */
  lemma DispatchLine(p: Pipeline, sh: Shaded)
    requires p.modeFront == ModeLine
    ensures Dispatch(p, sh) == Emit(p, Outline(sh, p.fb.h, p.fb.v), p.submitC, sh.distance)
  {
    var mx, my, c, d := p.fb.h, p.fb.v, p.submitC, sh.distance;
    var l0, l1 := Bresenham.Line(sh.s0, sh.s1, mx, my), Bresenham.Line(sh.s1, sh.s2, mx, my);
    var l2, l3 := Bresenham.Line(sh.s2, sh.s3, mx, my), Bresenham.Line(sh.s3, sh.s0, mx, my);
    EmitConcat(p, l0, l1, c, d);
    EmitConcat(p, l0 + l1, l2, c, d);
    EmitConcat(p, l0 + l1 + l2, l3, c, d);
  }

  /** Every point of the outline lies inside the framebuffer, whatever the
      corners: each edge is cut at its first point outside. */
  lemma OutlineInBounds(sh: Shaded, mx: int, my: int)
    ensures forall q :: q in Outline(sh, mx, my) ==> Bresenham.InBounds(q, mx, my)
  {
    var l0, l1 := Bresenham.Line(sh.s0, sh.s1, mx, my), Bresenham.Line(sh.s1, sh.s2, mx, my);
    var l2, l3 := Bresenham.Line(sh.s2, sh.s3, mx, my), Bresenham.Line(sh.s3, sh.s0, mx, my);
    Bresenham.LineIsClippedTrace(sh.s0, sh.s1, mx, my);
    Bresenham.LineIsClippedTrace(sh.s1, sh.s2, mx, my);
    Bresenham.LineIsClippedTrace(sh.s2, sh.s3, mx, my);
    Bresenham.LineIsClippedTrace(sh.s3, sh.s0, mx, my);
    forall q | q in Outline(sh, mx, my)
      ensures Bresenham.InBounds(q, mx, my)
    {
      assert q in l0 || q in l1 || q in l2 || q in l3;
    }
  }

  /** With all four corners inside the framebuffer the outline is the closed
      loop s0-s1-s2-s3-s0 traced without a cut. */
  lemma OutlineClosed(sh: Shaded, mx: int, my: int)
    requires Bresenham.InBounds(sh.s0, mx, my) && Bresenham.InBounds(sh.s1, mx, my)
    requires Bresenham.InBounds(sh.s2, mx, my) && Bresenham.InBounds(sh.s3, mx, my)
    ensures Outline(sh, mx, my) == Bresenham.Trace(sh.s0, sh.s1) + Bresenham.Trace(sh.s1, sh.s2)
                               + Bresenham.Trace(sh.s2, sh.s3) + Bresenham.Trace(sh.s3, sh.s0)
    ensures sh.s0 in Outline(sh, mx, my) && sh.s1 in Outline(sh, mx, my)
    ensures sh.s2 in Outline(sh, mx, my) && sh.s3 in Outline(sh, mx, my)
  {
    Bresenham.LineInBounds(sh.s0, sh.s1, mx, my);
    Bresenham.LineInBounds(sh.s1, sh.s2, mx, my);
    Bresenham.LineInBounds(sh.s2, sh.s3, mx, my);
    Bresenham.LineInBounds(sh.s3, sh.s0, mx, my);
    var l0 := Bresenham.Line(sh.s0, sh.s1, mx, my);
    var l1 := Bresenham.Line(sh.s1, sh.s2, mx, my);
    var l2 := Bresenham.Line(sh.s2, sh.s3, mx, my);
    var l3 := Bresenham.Line(sh.s3, sh.s0, mx, my);
    assert sh.s0 in l0 && sh.s1 in l1 && sh.s2 in l2 && sh.s3 in l3;
  }

  /** POINT mode appends exactly the four corners, in order, each with the lit
      colour and the quad's depth. */
  lemma DispatchPoint(p: Pipeline, sh: Shaded)
    requires p.modeFront == ModePoint
    ensures Dispatch(p, sh) == Emit(p, [sh.s0, sh.s1, sh.s2, sh.s3], sh.color, sh.distance)
    ensures Dispatch(p, sh).vertices == p.vertices + [sh.s0, sh.s1, sh.s2, sh.s3]
  {
    var r := Dispatch(p, sh);
    assert r.vertices == r.vertices[..|p.vertices|] + r.vertices[|p.vertices|..];
  }

  /** FILL mode appends the two triangles in the lit colour. */
  lemma DispatchFill(p: Pipeline, sh: Shaded)
    requires p.modeFront == ModeFill
    ensures Dispatch(p, sh) == Emit(p, Interior(sh), sh.color, sh.distance)
  {
    EmitConcat(p, Scanline.FillTriangle(sh.s0, sh.s1, sh.s2), Scanline.FillTriangle(sh.s0, sh.s2, sh.s3),
               sh.color, sh.distance);
  }

  /** The bounding box of the four screen corners. */
  predicate InQuadBox(q: IVec2, sh: Shaded)
  {
    && Min(Min(sh.s0.x, sh.s1.x), Min(sh.s2.x, sh.s3.x)) <= q.x <= Max(Max(sh.s0.x, sh.s1.x), Max(sh.s2.x, sh.s3.x))
    && Min(Min(sh.s0.y, sh.s1.y), Min(sh.s2.y, sh.s3.y)) <= q.y <= Max(Max(sh.s0.y, sh.s1.y), Max(sh.s2.y, sh.s3.y))
  }

  /** A point in the bounding box of three of the corners is in the quad's. */
  lemma TriangleBoxInQuadBox(q: IVec2, a: IVec2, b: IVec2, c: IVec2, sh: Shaded)
    requires a == sh.s0 && ((b == sh.s1 && c == sh.s2) || (b == sh.s2 && c == sh.s3))
    requires Min(a.y, Min(b.y, c.y)) <= q.y <= Max(a.y, Max(b.y, c.y))
    requires Min(a.x, Min(b.x, c.x)) <= q.x <= Max(a.x, Max(b.x, c.x))
    ensures InQuadBox(q, sh)
  {
  }

  /** Every filled point lies in the quad's bounding box. */
  lemma InteriorInBox(sh: Shaded)
    ensures forall q :: q in Interior(sh) ==> InQuadBox(q, sh)
  {
    var t0, t1 := Scanline.FillTriangle(sh.s0, sh.s1, sh.s2), Scanline.FillTriangle(sh.s0, sh.s2, sh.s3);
    forall q | q in t0 + t1
      ensures InQuadBox(q, sh)
    {
      if q in t0 {
        Scanline.FillInBox(sh.s0, sh.s1, sh.s2, q);
        TriangleBoxInQuadBox(q, sh.s0, sh.s1, sh.s2, sh);
      } else {
        Scanline.FillInBox(sh.s0, sh.s2, sh.s3, q);
        TriangleBoxInQuadBox(q, sh.s0, sh.s2, sh.s3, sh);
      }
    }
  }

  /** The corners of a quad whose two triangles each span more than one row
      are all filled. */
  lemma InteriorCorners(sh: Shaded)
    requires !(sh.s0.y == sh.s1.y == sh.s2.y) && !(sh.s0.y == sh.s2.y == sh.s3.y)
    ensures sh.s0 in Interior(sh) && sh.s1 in Interior(sh) && sh.s2 in Interior(sh) && sh.s3 in Interior(sh)
  {
    Scanline.FillCorners(sh.s0, sh.s1, sh.s2);
    Scanline.FillCorners(sh.s0, sh.s2, sh.s3);
  }

  /** Rasterising only appends to the three lists, keeps them parallel, and
      changes nothing else. */
  lemma DispatchAppends(p: Pipeline, sh: Shaded)
    ensures var r := Dispatch(p, sh);
      && r == p.(vertices := r.vertices, colors := r.colors, depth := r.depth)
      && |p.vertices| <= |r.vertices| && r.vertices[..|p.vertices|] == p.vertices
      && |p.colors| <= |r.colors| && r.colors[..|p.colors|] == p.colors
      && |p.depth| <= |r.depth| && r.depth[..|p.depth|] == p.depth
      && (Parallel(p) ==> Parallel(r))
  {
    if p.modeFront == ModeLine {
      DispatchLine(p, sh);
    } else if p.modeFront == ModeFill {
      DispatchFill(p, sh);
    }
  }

  /** A front mode other than LINE, POINT and FILL draws nothing. */
  lemma DispatchOtherMode(p: Pipeline, sh: Shaded)
    requires p.modeFront != ModeLine && p.modeFront != ModePoint && p.modeFront != ModeFill
    ensures Dispatch(p, sh) == p
  {
  }

  /** `Vertex3f(x, y, z)`: store the vertex in the next slot with `w = 1`; on
      the fourth, stamp the submit colour on the quad, rasterise it and reset
      the counter. Go indexes `Submit.v[SubmitI]`, which panics outside 0..3,
      hence the precondition. */
  function Vertex3f(p: Pipeline, x: real, y: real, z: real, shade: Shader): (r: Pipeline)
    requires 0 <= p.submitI < 4
    ensures 0 <= r.submitI < 4 && r.submitI == (p.submitI + 1) % 4
    ensures r.submit.v[p.submitI] == Vec4(x, y, z, 1.0)
    ensures forall k :: 0 <= k < 4 && k != p.submitI ==> r.submit.v[k] == p.submit.v[k]
    ensures r.submit.c == if p.submitI == 3 then p.submitC else p.submit.c
    ensures r.fb == p.fb && r.zBuffer == p.zBuffer && r.submitC == p.submitC
    ensures r.modeFront == p.modeFront && r.modeBack == p.modeBack && r.lights == p.lights
    ensures |p.vertices| <= |r.vertices| && r.vertices[..|p.vertices|] == p.vertices
    ensures |p.colors| <= |r.colors| && r.colors[..|p.colors|] == p.colors
    ensures |p.depth| <= |r.depth| && r.depth[..|p.depth|] == p.depth
    ensures p.submitI < 3 ==> r.vertices == p.vertices && r.colors == p.colors && r.depth == p.depth
    ensures Valid(p) ==> Valid(r)
  {
    var q := p.submit.(v := p.submit.v[p.submitI := Vec4(x, y, z, 1.0)]);
    if p.submitI + 1 < 4 then
      p.(submit := q, submitI := p.submitI + 1)
    else
      var quad := q.(c := p.submitC);
      var sh := shade(quad, p.lights, p.fb.h, p.fb.v);
      DispatchAppends(p.(submit := quad), sh);
      Dispatch(p.(submit := quad), sh).(submitI := 0)
  }

  /** Four calls starting from an empty quad assemble exactly those four
      vertices, in the submit colour, and rasterise that quad once. */
  lemma FourVertices(p: Pipeline, a: Vec3, b: Vec3, c: Vec3, d: Vec3, shade: Shader)
    requires p.submitI == 0
    ensures var r := Vertex3f(Vertex3f(Vertex3f(Vertex3f(p, a.x, a.y, a.z, shade),
                                                b.x, b.y, b.z, shade), c.x, c.y, c.z, shade), d.x, d.y, d.z, shade);
      var quad := Quad([Vec4(a.x, a.y, a.z, 1.0), Vec4(b.x, b.y, b.z, 1.0),
                        Vec4(c.x, c.y, c.z, 1.0), Vec4(d.x, d.y, d.z, 1.0)], p.submitC);
      r == Dispatch(p.(submit := quad), shade(quad, p.lights, p.fb.h, p.fb.v)).(submitI := 0)
  {
    var p1 := Vertex3f(p, a.x, a.y, a.z, shade);
    var p2 := Vertex3f(p1, b.x, b.y, b.z, shade);
    var p3 := Vertex3f(p2, c.x, c.y, c.z, shade);
    var quad := Quad([Vec4(a.x, a.y, a.z, 1.0), Vec4(b.x, b.y, b.z, 1.0),
                      Vec4(c.x, c.y, c.z, 1.0), Vec4(d.x, d.y, d.z, 1.0)], p.submitC);
    assert p3 == p.(submit := p3.submit, submitI := 3);
    assert p3.submit.v[..3] == quad.v[..3];
    assert p3.submit.v[3 := Vec4(d.x, d.y, d.z, 1.0)] == quad.v;
  }

  /** The back polygon mode is stored but never read: it does not influence
      what is drawn. */
  lemma DispatchModeBack(p: Pipeline, sh: Shaded, m: int)
    ensures Dispatch(p.(modeBack := m), sh) == Dispatch(p, sh).(modeBack := m)
  {
    var p' := p.(modeBack := m);
    if p.modeFront == ModeLine {
      DispatchLine(p, sh);
      DispatchLine(p', sh);
    } else if p.modeFront == ModeFill {
      DispatchFill(p, sh);
      DispatchFill(p', sh);
    }
  }

  lemma ModeBackIgnored(p: Pipeline, x: real, y: real, z: real, shade: Shader, m: int)
    requires 0 <= p.submitI < 4
    ensures Vertex3f(p.(modeBack := m), x, y, z, shade) == Vertex3f(p, x, y, z, shade).(modeBack := m)
  {
    if p.submitI == 3 {
      var q := p.submit.(v := p.submit.v[p.submitI := Vec4(x, y, z, 1.0)]);
      var quad := q.(c := p.submitC);
      DispatchModeBack(p.(submit := quad), shade(quad, p.lights, p.fb.h, p.fb.v), m);
      assert p.(modeBack := m).(submit := quad) == p.(submit := quad).(modeBack := m);
    }
  }

  /** With the front mode still at Go's zero value, the call that completes a
      quad draws nothing: mode 0 is none of LINE, POINT and FILL. */
  lemma ZeroModeDrawsNothing(p: Pipeline, x: real, y: real, z: real, shade: Shader)
    requires p.submitI == 3 && p.modeFront == Initial.modeFront
    ensures var r := Vertex3f(p, x, y, z, shade);
      r.vertices == p.vertices && r.colors == p.colors && r.depth == p.depth
  {
  }

  /** From Go's zero-valued state, the first four calls complete a quad and
      draw nothing. */
  lemma InitialDrawsNothing(a: Vec3, b: Vec3, c: Vec3, d: Vec3, shade: Shader)
    ensures var r := Vertex3f(Vertex3f(Vertex3f(Vertex3f(Initial, a.x, a.y, a.z, shade),
                                                b.x, b.y, b.z, shade), c.x, c.y, c.z, shade), d.x, d.y, d.z, shade);
      r.submitI == 0 && r.vertices == [] && r.colors == [] && r.depth == []
  {
    FourVertices(Initial, a, b, c, d, shade);
    var quad := Quad([Vec4(a.x, a.y, a.z, 1.0), Vec4(b.x, b.y, b.z, 1.0),
                      Vec4(c.x, c.y, c.z, 1.0), Vec4(d.x, d.y, d.z, 1.0)], Initial.submitC);
    DispatchOtherMode(Initial.(submit := quad), shade(quad, Initial.lights, Initial.fb.h, Initial.fb.v));
  }
}
