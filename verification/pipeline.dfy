/** The renderer's global state as one record, and the operations on it that
    do not assemble primitives: `Viewport` (render.go:80-87), `PolygonMode`
    (render.go:93-103), `Enable`/`Disable` (render.go:105-121), `Lightfv`
    (render.go:123-148), `Color3f` (render.go:312-314), `End`
    (render.go:321-332), `ReadPixels` (render.go:334-347) and `ClearColor`
    (render.go:349-360). */
module PipelineState {
  import opened RenderTypes
  import opened Compositor
  import GoInt

  /** `h` columns by `v` rows of colour, row-major. */
  datatype Framebuffer = Framebuffer(h: int, v: int, d: seq<Color>)

  /** The package-level variables the rasteriser reads and writes. The model
      view matrix belongs to the floating-point stage and `lastVertex` is
      never read, so neither is carried. */
  datatype Pipeline = Pipeline(
    fb: Framebuffer,
    zBuffer: seq<real>,
    submit: Quad,
    submitI: int,
    submitC: Color,
    modeFront: int,
    modeBack: int,
    lights: Lights4,
    vertices: seq<IVec2>,
    colors: seq<Color>,
    depth: seq<real>)

  /** Go's zero values. Both polygon modes start at 0, which is no mode at all,
      so nothing is rasterised until `PolygonMode` is called. */
  const Initial: Pipeline := Pipeline(
    Framebuffer(0, 0, []), [],
    Quad([ZeroVec4, ZeroVec4, ZeroVec4, ZeroVec4], ZeroColor), 0, ZeroColor,
    0, 0, [ZeroLight, ZeroLight, ZeroLight, ZeroLight],
    [], [], [])

  /** The three lists grow together: entry `k` of each describes one point. */
  predicate Parallel(p: Pipeline)
  {
    |p.vertices| == |p.colors| == |p.depth|
  }

  /** Both planes hold `h * v` cells, as `Viewport` allocates them. */
  predicate Sized(p: Pipeline)
  {
    |p.fb.d| == p.fb.h * p.fb.v && |p.zBuffer| == p.fb.h * p.fb.v
  }

  /** The state every public operation keeps: a pending-vertex counter in
      0..3, parallel lists, and planes of the framebuffer's size. */
  predicate Valid(p: Pipeline)
  {
    0 <= p.submitI < 4 && Parallel(p) && Sized(p)
  }

  lemma InitialValid()
    ensures Valid(Initial)
  {
  }

  // ---------------------------------------------------------------- Viewport

  /** `Viewport(h, v)`: fresh zeroed colour and depth planes of `h * v` cells.
      Go's `make` panics on a negative length, hence the precondition. */
  function Viewport(p: Pipeline, h: int, v: int): (r: Pipeline)
    requires h * v >= 0
    ensures r.fb.h == h && r.fb.v == v && |r.fb.d| == h * v && |r.zBuffer| == h * v
    ensures forall q :: 0 <= q < h * v ==> r.fb.d[q] == ZeroColor && r.zBuffer[q] == 0.0
    ensures r == p.(fb := r.fb, zBuffer := r.zBuffer)
    ensures Valid(p) ==> Valid(r)
  {
    p.(fb := Framebuffer(h, v, Repeat(ZeroColor, h * v)), zBuffer := Repeat(0.0, h * v))
  }

  // ------------------------------------------------------------- PolygonMode

  /** `PolygonMode(face, mode)`: FRONT sets the front mode, BACK the back mode,
      FRONT_AND_BACK both, and any other face changes nothing. */
  function PolygonMode(p: Pipeline, face: int, mode: int): (r: Pipeline)
    ensures r == p.(modeFront := r.modeFront, modeBack := r.modeBack)
  {
    if face == FaceFront then
      p.(modeFront := mode)
    else if face == FaceBack then
      p.(modeBack := mode)
    else if face == FaceFrontAndBack then
      p.(modeFront := mode, modeBack := mode)
    else
      p
  }

  /** Which mode each face holds after `PolygonMode`. */
  lemma PolygonModeSets(p: Pipeline, face: int, mode: int)
    ensures var r := PolygonMode(p, face, mode);
      && r.modeFront == (if face == FaceFront || face == FaceFrontAndBack then mode else p.modeFront)
      && r.modeBack == (if face == FaceBack || face == FaceFrontAndBack then mode else p.modeBack)
  {
  }

  /** An unknown face is a no-op. */
  lemma PolygonModeUnknownFace(p: Pipeline, face: int, mode: int)
    requires face != FaceFront && face != FaceBack && face != FaceFrontAndBack
    ensures PolygonMode(p, face, mode) == p
  {
  }

  /** Setting a face twice keeps only the second mode. */
  lemma PolygonModeLastWins(p: Pipeline, face: int, m1: int, m2: int)
    ensures PolygonMode(PolygonMode(p, face, m1), face, m2) == PolygonMode(p, face, m2)
  {
  }

  /** FRONT_AND_BACK is FRONT followed by BACK. */
  lemma PolygonModeBoth(p: Pipeline, mode: int)
    ensures PolygonMode(p, FaceFrontAndBack, mode)
         == PolygonMode(PolygonMode(p, FaceFront, mode), FaceBack, mode)
  {
  }

  // --------------------------------------------------------- Enable, Disable

  /** `LIGHTING0` to `LIGHTING3`. */
  predicate IsLightId(id: int)
  {
    Lighting0 <= id <= Lighting3
  }

  /** The slot of `Lights` that a light id addresses. */
  function Slot(id: int): (k: int)
    requires IsLightId(id)
    ensures 0 <= k < 4
  {
    id - Lighting0
  }

  /** The switch shared by `Enable` and `Disable`: only the `enabled` flag of
      the addressed slot changes, and an unknown id changes nothing. */
  function SetEnabled(p: Pipeline, id: int, on: bool): (r: Pipeline)
    ensures r == p.(lights := r.lights)
    ensures forall k :: 0 <= k < 4 ==> r.lights[k] == p.lights[k].(enabled := r.lights[k].enabled)
    ensures forall k :: 0 <= k < 4 ==>
      r.lights[k].enabled == if IsLightId(id) && k == Slot(id) then on else p.lights[k].enabled
  {
    if IsLightId(id) then
      var k := Slot(id);
      p.(lights := p.lights[k := p.lights[k].(enabled := on)])
    else
      p
  }

  /** `Enable(id)`: the addressed light is switched on. */
  function Enable(p: Pipeline, id: int): (r: Pipeline)
    ensures IsLightId(id) ==> r.lights[Slot(id)].enabled
    ensures !IsLightId(id) ==> r == p
  {
    SetEnabled(p, id, true)
  }

  /** `Disable(id)`: the addressed light is switched off. */
  function Disable(p: Pipeline, id: int): (r: Pipeline)
    ensures IsLightId(id) ==> !r.lights[Slot(id)].enabled
    ensures !IsLightId(id) ==> r == p
  {
    SetEnabled(p, id, false)
  }

  /** Enabling a disabled light and disabling it again restores the state. */
  lemma DisableUndoesEnable(p: Pipeline, id: int)
    requires IsLightId(id) ==> !p.lights[Slot(id)].enabled
    ensures Disable(Enable(p, id), id) == p
  {
    var r := Disable(Enable(p, id), id);
    assert r.lights == p.lights;
  }

  /** Enabling is idempotent. */
  lemma EnableIdempotent(p: Pipeline, id: int)
    ensures Enable(Enable(p, id), id) == Enable(p, id)
  {
    var r, r' := Enable(Enable(p, id), id), Enable(p, id);
    assert r.lights == r'.lights;
  }

  /** Switches on different lights do not interfere. */
  lemma SetEnabledCommutes(p: Pipeline, id1: int, on1: bool, id2: int, on2: bool)
    requires !(IsLightId(id1) && IsLightId(id2) && id1 == id2)
    ensures SetEnabled(SetEnabled(p, id1, on1), id2, on2) == SetEnabled(SetEnabled(p, id2, on2), id1, on1)
  {
    var r, r' := SetEnabled(SetEnabled(p, id1, on1), id2, on2), SetEnabled(SetEnabled(p, id2, on2), id1, on1);
    assert r.lights == r'.lights;
  }

  // ----------------------------------------------------------------- Lightfv

  /** The float32 nearest to 0.99, which is what the literal in `value[3] >
      0.99` becomes when compared with a float32. */
  const DirectionalW: real := 0.9900000095367431640625

  /** `Lightfv(id, attribute, value)`. An id other than `LIGHTING0..3` or an
      attribute other than POSITION and DIFFUSE panics, and so does a `value`
      too short for the entries read, hence the preconditions. POSITION with
      `w > 0.99` makes the light directional and sets its direction; otherwise
      it becomes a point light at the given position. DIFFUSE sets its
      colour. */
  function Lightfv(p: Pipeline, id: int, attribute: int, value: seq<real>): (r: Pipeline)
    requires IsLightId(id)
    requires attribute == AttrPosition || attribute == AttrDiffuse
    requires attribute == AttrPosition ==> |value| >= 4
    requires attribute == AttrDiffuse ==> |value| >= 3
    ensures r == p.(lights := r.lights)
    ensures forall k :: 0 <= k < 4 && k != Slot(id) ==> r.lights[k] == p.lights[k]
    ensures r.lights[Slot(id)].enabled == p.lights[Slot(id)].enabled
  {
    var k := Slot(id);
    var l := p.lights[k];
    var v3 := Vec3(value[0], value[1], value[2]);
    var l' :=
      if attribute == AttrPosition then
        if value[3] > DirectionalW then l.(kind := LightDirectional, dir := v3)
        else l.(kind := LightPoint, pos := v3)
      else
        l.(color := Color(value[0], value[1], value[2]));
    p.(lights := p.lights[k := l'])
  }

  /** What `Lightfv` stores in the addressed light, and which of its fields it
      leaves alone. */
  lemma LightfvSets(p: Pipeline, id: int, attribute: int, value: seq<real>)
    requires IsLightId(id)
    requires attribute == AttrPosition || attribute == AttrDiffuse
    requires attribute == AttrPosition ==> |value| >= 4
    requires attribute == AttrDiffuse ==> |value| >= 3
    ensures var l, l' := p.lights[Slot(id)], Lightfv(p, id, attribute, value).lights[Slot(id)];
      var v3 := Vec3(value[0], value[1], value[2]);
      && (attribute == AttrDiffuse ==>
            l' == l.(color := Color(value[0], value[1], value[2])))
      && (attribute == AttrPosition && value[3] > DirectionalW ==>
            l'.kind == LightDirectional && l'.dir == v3 && l'.pos == l.pos && l'.color == l.color)
      && (attribute == AttrPosition && value[3] <= DirectionalW ==>
            l'.kind == LightPoint && l'.pos == v3 && l'.dir == l.dir && l'.color == l.color)
  {
  }

  /** Setting the colour and the position of a light touch different fields,
      so their order does not matter. */
  lemma LightfvDiffusePositionCommute(p: Pipeline, id: int, pos: seq<real>, diffuse: seq<real>)
    requires IsLightId(id) && |pos| >= 4 && |diffuse| >= 3
    ensures Lightfv(Lightfv(p, id, AttrPosition, pos), id, AttrDiffuse, diffuse)
         == Lightfv(Lightfv(p, id, AttrDiffuse, diffuse), id, AttrPosition, pos)
  {
    var r := Lightfv(Lightfv(p, id, AttrPosition, pos), id, AttrDiffuse, diffuse);
    var r' := Lightfv(Lightfv(p, id, AttrDiffuse, diffuse), id, AttrPosition, pos);
    assert r.lights == r'.lights;
  }

  /** `Lightfv` and `Enable` touch different fields and commute. */
  lemma LightfvEnableCommute(p: Pipeline, id: int, attribute: int, value: seq<real>, e: int)
    requires IsLightId(id)
    requires attribute == AttrPosition || attribute == AttrDiffuse
    requires attribute == AttrPosition ==> |value| >= 4
    requires attribute == AttrDiffuse ==> |value| >= 3
    ensures Enable(Lightfv(p, id, attribute, value), e) == Lightfv(Enable(p, e), id, attribute, value)
  {
    var r, r' := Enable(Lightfv(p, id, attribute, value), e), Lightfv(Enable(p, e), id, attribute, value);
    assert r.lights == r'.lights;
  }

  // ----------------------------------------------------------------- Color3f

  /** `Color3f(r, g, b)`: the colour of the quads submitted from now on. */
  function Color3f(p: Pipeline, r: real, g: real, b: real): (p': Pipeline)
    ensures p' == p.(submitC := p'.submitC)
    ensures p'.submitC.r == r && p'.submitC.g == g && p'.submitC.b == b
  {
    p.(submitC := Color(r, g, b))
  }

  // --------------------------------------------------------------------- End

  /** The planes and lists of the state, as the compositor sees them. */
  predicate CanEnd(p: Pipeline)
  {
    CanComposite(p.fb.h, p.fb.v, Buffers(p.fb.d, p.zBuffer), p.vertices, p.colors, p.depth)
  }

  /** A valid state never makes `End` index out of range. */
  lemma ValidCanEnd(p: Pipeline)
    requires Valid(p)
    ensures CanEnd(p)
  {
    forall k | 0 <= k < |p.vertices| && Accepts(p.vertices[k], p.fb.h, p.fb.v)
      ensures PixelIndex(p.vertices[k], p.fb.h) < |p.fb.d|
    {
      AcceptedIndexInRange(p.vertices[k], p.fb.h, p.fb.v);
    }
  }

  /** `End()`: composite every recorded entry, in order, into the planes. The
      lists and everything else stay as they are. */
  function End(p: Pipeline): (r: Pipeline)
    requires CanEnd(p)
    ensures r == p.(fb := r.fb, zBuffer := r.zBuffer)
    ensures r.fb.h == p.fb.h && r.fb.v == p.fb.v
    ensures |r.fb.d| == |p.fb.d| && |r.zBuffer| == |p.zBuffer|
    ensures forall q :: 0 <= q < |p.zBuffer| ==> r.zBuffer[q] <= p.zBuffer[q]
    ensures Valid(p) ==> Valid(r)
  {
    var b := Composite(p.fb.h, p.fb.v, Buffers(p.fb.d, p.zBuffer), p.vertices, p.colors, p.depth, |p.vertices|);
    p.(fb := p.fb.(d := b.d), zBuffer := b.z)
  }

  /** Compositor: after `End`, each pixel holds the colour and depth of the
      earliest recorded entry with the least depth among those addressing it,
      provided that depth is below what the pixel held; otherwise the pixel is
      unchanged. */
  lemma EndPixel(p: Pipeline, q: int)
    requires CanEnd(p) && 0 <= q < |p.zBuffer| && q < |p.fb.d|
    ensures var r, b := End(p), Buffers(p.fb.d, p.zBuffer);
      var mx, my, n := p.fb.h, p.fb.v, |p.vertices|;
      || (&& (forall k :: 0 <= k < n && Hits(p.vertices, mx, my, k, q) ==> p.depth[k] >= p.zBuffer[q])
          && r.fb.d[q] == p.fb.d[q] && r.zBuffer[q] == p.zBuffer[q])
      || (exists j :: Winner(mx, my, b, p.vertices, p.colors, p.depth, n, j, q)
                      && r.fb.d[q] == p.colors[j] && r.zBuffer[q] == p.depth[j])
  {
    CompositePixel(p.fb.h, p.fb.v, Buffers(p.fb.d, p.zBuffer), p.vertices, p.colors, p.depth, |p.vertices|, q);
  }

  /** Pixels no accepted entry addresses are untouched by `End`. */
  lemma EndUntouched(p: Pipeline, q: int)
    requires CanEnd(p) && 0 <= q < |p.zBuffer| && q < |p.fb.d|
    requires forall k :: 0 <= k < |p.vertices| ==> !Hits(p.vertices, p.fb.h, p.fb.v, k, q)
    ensures End(p).fb.d[q] == p.fb.d[q] && End(p).zBuffer[q] == p.zBuffer[q]
  {
  }

  /** Calling `End` twice draws nothing more. */
  lemma EndIdempotent(p: Pipeline)
    requires CanEnd(p)
    ensures CanEnd(End(p)) && End(End(p)) == End(p)
  {
    CompositeIdempotent(p.fb.h, p.fb.v, Buffers(p.fb.d, p.zBuffer), p.vertices, p.colors, p.depth);
  }

  // ------------------------------------------------ ClearColor, ReadPixels

  /** The cells the nested `i < my`, `j < mx` loops visit: none unless both
      dimensions are positive. */
  function Cells(p: Pipeline): nat
  {
    if p.fb.h > 0 && p.fb.v > 0 then p.fb.h * p.fb.v else 0
  }

  /** The float32 nearest to 999999999.0, which is what the clear writes into
      every depth cell: float32 cannot hold 999999999 and rounds it up. */
  const ClearDepth: real := 1000000000.0

  /** Row `i` of an `mx`-wide plane ends within the first `mx * my` cells. */
  lemma RowFits(i: int, mx: int, my: int)
    requires 0 <= i < my && mx > 0
    ensures 0 <= i * mx && i * mx + mx == (i + 1) * mx <= mx * my
  {
    GoInt.MulNonNeg(i, mx);
    GoInt.MulNonNeg(my - i - 1, mx);
    assert (my - i - 1) * mx == my * mx - (i + 1) * mx;
  }

  /** `ClearColor(r, g, b)`: every visited cell gets the colour and the clear
      depth, the other cells keep theirs, and the three lists are emptied. */
  method ClearColor(p: Pipeline, r: real, g: real, b: real) returns (p': Pipeline)
    requires Cells(p) <= |p.fb.d| && Cells(p) <= |p.zBuffer|
    ensures p' == p.(fb := p'.fb, zBuffer := p'.zBuffer, vertices := [], colors := [], depth := [])
    ensures p'.fb.h == p.fb.h && p'.fb.v == p.fb.v
    ensures |p'.fb.d| == |p.fb.d| && |p'.zBuffer| == |p.zBuffer|
    ensures forall q :: 0 <= q < |p.fb.d| ==> p'.fb.d[q] == if q < Cells(p) then Color(r, g, b) else p.fb.d[q]
    ensures forall q :: 0 <= q < |p.zBuffer| ==> p'.zBuffer[q] == if q < Cells(p) then ClearDepth else p.zBuffer[q]
    ensures Valid(p) ==> Valid(p')
  {
    var mx, my := p.fb.h, p.fb.v;
    var d, z := p.fb.d, p.zBuffer;
    var c := Color(r, g, b);
    var i := 0;
    ghost var done := 0;
    while i < my
      invariant 0 <= i <= (if my > 0 then my else 0)
      invariant mx > 0 ==> done == i * mx
      invariant mx <= 0 ==> done == 0
      invariant 0 <= done <= Cells(p)
      invariant |d| == |p.fb.d| && |z| == |p.zBuffer|
      invariant forall q :: 0 <= q < |d| ==> d[q] == if q < done then c else p.fb.d[q]
      invariant forall q :: 0 <= q < |z| ==> z[q] == if q < done then ClearDepth else p.zBuffer[q]
    {
      if mx > 0 {
        RowFits(i, mx, my);
      }
      var j := 0;
      while j < mx
        invariant 0 <= j <= (if mx > 0 then mx else 0)
        invariant mx > 0 ==> done + mx <= Cells(p)
        invariant |d| == |p.fb.d| && |z| == |p.zBuffer|
        invariant forall q :: 0 <= q < |d| ==> d[q] == if q < done + j then c else p.fb.d[q]
        invariant forall q :: 0 <= q < |z| ==> z[q] == if q < done + j then ClearDepth else p.zBuffer[q]
      {
        d := d[j + i * mx := c];
        z := z[j + i * mx := ClearDepth];
        j := j + 1;
      }
      i := i + 1;
      done := done + (if mx > 0 then mx else 0);
    }
    p' := p.(fb := p.fb.(d := d), zBuffer := z, vertices := [], colors := [], depth := []);
  }

  /** One pixel as `ReadPixels` reports it: its three channels. */
  function Channels(c: Color): seq<real>
  {
    [c.r, c.g, c.b]
  }

  /** `ReadPixels()`: the visited cells in row-major order, one triple each. */
  method ReadPixels(p: Pipeline) returns (image: seq<seq<real>>)
    requires Cells(p) <= |p.fb.d|
    ensures |image| == Cells(p)
    ensures forall q :: 0 <= q < |image| ==> image[q] == Channels(p.fb.d[q])
  {
    var mx, my := p.fb.h, p.fb.v;
    image := [];
    var i := 0;
    while i < my
      invariant 0 <= i <= (if my > 0 then my else 0)
      invariant mx > 0 ==> |image| == i * mx
      invariant mx <= 0 ==> |image| == 0
      invariant |image| <= Cells(p)
      invariant forall q :: 0 <= q < |image| ==> image[q] == Channels(p.fb.d[q])
    {
      if mx > 0 {
        RowFits(i, mx, my);
      }
      ghost var done := |image|;
      var j := 0;
      while j < mx
        invariant 0 <= j <= (if mx > 0 then mx else 0)
        invariant mx > 0 ==> done + mx <= Cells(p)
        invariant |image| == done + j
        invariant forall q :: 0 <= q < |image| ==> image[q] == Channels(p.fb.d[q])
      {
        var fbcolor := p.fb.d[j + i * mx];
        image := image + [[fbcolor.r, fbcolor.g, fbcolor.b]];
        j := j + 1;
      }
      i := i + 1;
    }
  }
}
