/** Value types shared by the rasteriser: screen points, colours, homogeneous
    vertices, lights, and the integer enumerants of the API, numbered exactly as
    the Go constant block numbers them with `iota`. */
module RenderTypes {

  /** An integer pixel coordinate produced by the viewport mapping. */
  datatype IVec2 = IVec2(x: int, y: int)

  /** A colour. Channels are float32 values in the source; the rasteriser only
      copies them, so they are carried as opaque reals. */
  datatype Color = Color(r: real, g: real, b: real)

  datatype Vec3 = Vec3(x: real, y: real, z: real)

  datatype Vec4 = Vec4(x: real, y: real, z: real, w: real)

  /** Go's `[4]Vec4`: exactly four vertex slots. */
  type Slots4 = s: seq<Vec4> | |s| == 4 witness [ZeroVec4, ZeroVec4, ZeroVec4, ZeroVec4]

  /** The primitive being assembled: four vertex slots and a flat colour. */
  datatype Quad = Quad(v: Slots4, c: Color)

  /** One light slot; `kind` is LightDirectional or LightPoint. */
  datatype Light = Light(pos: Vec3, dir: Vec3, color: Color, kind: int, enabled: bool)

  /** Go's `[4]Light`: exactly four light slots. */
  type Lights4 = s: seq<Light> | |s| == 4 witness [ZeroLight, ZeroLight, ZeroLight, ZeroLight]

  // The API's enumerants, in declaration order of the single `iota` block.
  const LightDirectional: int := 0
  const LightPoint: int := 1
  const FaceFrontAndBack: int := 2
  const FaceFront: int := 3
  const FaceBack: int := 4
  const ModeFill: int := 5
  const ModeLine: int := 6
  const ModePoint: int := 7
  const Lighting0: int := 8
  const Lighting1: int := 9
  const Lighting2: int := 10
  const Lighting3: int := 11
  const AttrPosition: int := 12
  const AttrDiffuse: int := 13

  /** The zero values Go gives to fresh variables of these types. */
  const ZeroColor: Color := Color(0.0, 0.0, 0.0)
  const ZeroVec3: Vec3 := Vec3(0.0, 0.0, 0.0)
  const ZeroVec4: Vec4 := Vec4(0.0, 0.0, 0.0, 0.0)
  const ZeroLight: Light := Light(ZeroVec3, ZeroVec3, ZeroColor, LightDirectional, false)

  function Abs(n: int): (r: nat)
    ensures r == n || r == -n
  {
    if n < 0 then -n else n
  }

  function Min(a: int, b: int): int { if a <= b then a else b }

  function Max(a: int, b: int): int { if a <= b then b else a }

  /** `lo` and `hi` in either order bound `x`. */
  predicate Between(e0: int, x: int, e1: int)
  {
    Min(e0, e1) <= x <= Max(e0, e1)
  }

  /** `n` copies of `x`. */
  function Repeat<T>(x: T, n: nat): (r: seq<T>)
    ensures |r| == n
    ensures forall i :: 0 <= i < n ==> r[i] == x
  {
    seq(n, _ => x)
  }
}
