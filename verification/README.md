# go-sr rasteriser core in Dafny

go-sr is a small immediate-mode software renderer with an OpenGL-like API. This
project models the integer half of its rasteriser in `render.go`: it traces lines
with Bresenham's algorithm, fills triangles scanline by scanline, assembles quads
from four `Vertex3f` calls and dispatches them by polygon mode, composites the
recorded points into a depth-tested framebuffer in `End`, and keeps the small
framebuffer and state setters.

Modules, one per piece of the rasteriser:

- `RenderTypes` (`types.dfy`) holds the value types and the API enumerants. The
  enumerants are numbered as Go's single `iota` block numbers them, so an unknown
  face or light id is simply another integer.
- `GoInt` (`intmath.dfy`) has Go's integer division, which truncates toward
  zero, plus the multiplication facts the proofs use.
- `Bresenham` (`bresenham.dfy`) models `drawLine`:
  - `Trace` is a functional reference path;
  - `Line` is that path cut at the first point outside the framebuffer;
  - `DrawLine` is the source's loop, proved equal to `Line`.
- `Scanline` (`scanline.dfy`) models `fillTriangle` and its `edgeInterpolate`.
- `Compositor` (`compositor.dfy`) is the loop of `End` as a fold over the
  recorded entries, with a characterisation of which entry wins each pixel.
- `PipelineState` (`pipeline.dfy`) covers:
  - the package-level state as one record;
  - `Viewport`, `PolygonMode`, `Enable`/`Disable`, `Lightfv`, `Color3f` and
    `End`;
  - the `ClearColor` and `ReadPixels` loops.
- `Assembler` (`assembler.dfy`) models the pending-vertex counter of `Vertex3f`
  and its dispatch on the front polygon mode.

Modelling choices:

- Colours are opaque reals, since the rasteriser only copies them.
- Depths are reals, so a depth is always a finite number. The floating-point
  stage can produce NaN or infinite depths, which this model excludes (see
  "## Left out").
- Two float32 literals are carried at the value float32 gives them:
  - the clear depth `999999999.0` is `1000000000.0`;
  - the `0.99` threshold of `Lightfv` is `0.9900000095367431640625`.
- The floating-point stage of `Vertex3f` is a parameter `shade` of type
  `Shader`. It covers the model-view transform, perspective divide, viewport
  mapping, face lighting and average distance. It maps the stamped quad, the
  lights and the framebuffer size to four screen corners, a lit colour and a
  depth.

Behaviour follows the code, including these details:

- `drawLine` stops at the first point outside the framebuffer. It does not skip
  that point and carry on.
- `End` accepts only `0 < x < mx` and `0 < y < my`, so row 0 and column 0 are
  never written. `drawLine` and `fillTriangle` do emit points there.
- `Lightfv` with `w > 0.99` makes a light directional; otherwise it makes a point
  light at the given position.
- LINE mode records the unlit submit colour. POINT and FILL record the lit colour.
- Both polygon modes start at Go's zero value 0, which is none of FILL, LINE and
  POINT. So nothing is drawn until `PolygonMode` is called. The back mode is
  stored but never read.
- Some cases of `fillTriangle`:
  - A triangle on a single row fills the span between its first two corners
    only. The third corner's x never reaches an edge table.
  - A row is emitted only while both edge tables have an entry for it, and both
    always have one entry per row.
- `ClearColor` and `ReadPixels` visit rows `i < v` and columns `j < h`, so a
  framebuffer with a non-positive dimension is neither cleared nor read. That
  holds even when `Viewport` allocated cells for it, because the product of two
  negative sizes is positive.

## Model

| member | source | states |
|---|---|---|
| GoInt.TruncDiv | render.go:536-538 | Go's `dx*i/dy` for a positive divisor: the quotient is truncated toward zero. It is bracketed by multiples of the divisor from below for a non-negative dividend and from above for a negative one. |
| GoInt.TruncDivNeg | render.go:536-538 | Truncating division is odd-symmetric: negating the dividend negates the quotient. |
| GoInt.TruncScaled | render.go:536-538 | For `0 <= i <= dy`, `dx*i/dy` lies between 0 and `dx`. It is 0 at `i == 0` and exactly `dx` at `i == dy`. |
| Bresenham.Init | render.go:469-485 | The loop's starting state: the point `a` and the error term `dx + dy`, where `dy` is stored negated. `Bresenham.InitOnPath` and `Bresenham.StatesShape` characterise it. |
| Bresenham.Step | render.go:501-509 | One pass of the loop body. Both tests read the error term from before the pass. `Bresenham.StepOnPath` and `Bresenham.StepAdjacent` characterise it. |
| Bresenham.StepOnPath | render.go:500-509 | One loop iteration from a state on the path to `b` (which has not reached `b`) gives a state still on the path, with one fewer step to go along the longer axis. This is the termination measure. |
| Bresenham.StepAdjacent | render.go:500-509 | One iteration moves the current point to a distinct point at most one away on each axis. |
| Bresenham.OnPathInBox | render.go:466-513 | Every point on the path from `a` to `b` lies in the bounding box of `a` and `b`. |
| Bresenham.PathToEnd | render.go:485-499 | Iterating the step from the initial state for max(\|dx\|,\|dy\|) steps reaches `b`, and reaches it at no earlier step. |
| Bresenham.StatesShape | render.go:485-509 | The unclipped state sequence has max(\|dx\|,\|dy\|)+1 states, starts at the initial state and ends on `b`. |
| Bresenham.Trace | render.go:485-509 | The points the loop visits when no bounds test stops it. `Bresenham.TraceEnds`, `Bresenham.TraceChained`, `Bresenham.TraceInBox` and `Bresenham.TraceExample` characterise it. |
| Bresenham.TraceEnds | render.go:466-513 | The unclipped path starts at `a`, ends at `b` and has max(\|dx\|,\|dy\|)+1 points. |
| Bresenham.TraceChained | render.go:500-509 | Consecutive path points differ by at most one on each axis and are distinct. |
| Bresenham.TraceInBox | render.go:466-513 | Every path point lies in the bounding box of the endpoints. |
| Bresenham.TakeInBounds | render.go:486-489 | The kept points form a prefix of the path and all lie in bounds. The first point left out, if any, is out of bounds. |
| Bresenham.Line | render.go:466-513 | What `drawLine` returns: a prefix of the trace, every point of it in bounds. `Bresenham.LineCut`, `Bresenham.LineInBounds`, `Bresenham.LineStartOutside` and `Bresenham.LineIsClippedTrace` characterise it, and `Bresenham.DrawLine` computes it. |
| Bresenham.LineCut | render.go:486-489 | The tracer's result is the path cut at its first out-of-bounds point. |
| Bresenham.LineInBounds | render.go:466-513 | With both endpoints in `[0,h)×[0,v)`, the result is the whole path. It starts at `a`, ends at `b`, has max(\|dx\|,\|dy\|)+1 points, and consecutive points are king's moves apart. |
| Bresenham.LineStartOutside | render.go:486-489 | A start point outside the framebuffer yields no points at all. |
| Bresenham.LineIsClippedTrace | render.go:486-498 | For any endpoints, the result is an in-bounds prefix of the path that stops just before the first point outside. Its points are chained. |
| Bresenham.TraceExample | render.go:466-513 | The segment (0,0)-(4,2) is traced as (0,0),(1,1),(2,1),(3,2),(4,2). |
| Bresenham.DrawLine | render.go:466-513 | The source's loop terminates and returns exactly the clipped path. When both endpoints are in bounds, it returns max(\|dx\|,\|dy\|)+1 points from `a` to `b`. |
| Scanline.SortByY | render.go:520-528 | After the three swaps the corners are in non-decreasing y. They are a permutation of the inputs. |
| Scanline.SortByYKeepsSorted | render.go:520-528 | Corners already in y order are not moved, because every swap is strict. |
| Scanline.EdgeInterpolate | render.go:530-542 | The table has `dy+1` entries for `dy >= 0` and none for `dy < 0`. |
| Scanline.EdgeEntries | render.go:530-542 | A flat edge gives `[x0]`. Otherwise the first entry is `x0` and the last is `x1`. Every entry lies between `x0` and `x1`, and entry `i` is `x0` plus `dx*i/dy` truncated toward zero. |
| Scanline.Span | render.go:558-566 | A row span has one pixel per column between its two entries, in either order. |
| Scanline.SpanMembers | render.go:558-566 | A pixel is in a span exactly when it is on that row and its x lies between the two entries. |
| Scanline.Rows | render.go:554-567 | The spans of rows `i..n-1`, where a row is emitted only while both tables have an entry for it. `Scanline.RowsMembers` characterises it. |
| Scanline.RowsMembers | render.go:554-567 | A pixel is emitted by rows `i..n-1` exactly when its row is one of them, both tables cover it, and its x lies between the two entries. |
| Scanline.Edges | render.go:545-549 | The long-edge table and the joined short-edge table both have `v2.y - v0.y + 1` entries, one per scanline. |
| Scanline.FillMembers | render.go:545-567 | Scanline coverage: a pixel is filled exactly when its row lies in `[v0.y, v2.y]` and its x lies between the two table entries of that row. |
| Scanline.FillEveryRow | render.go:551-567 | Every scanline from the top corner to the bottom one emits at least its long-edge pixel. |
| Scanline.TableEntries | render.go:545-549 | The long-edge table runs from `v0.x` to `v2.x` and stays between them. The joined table stays on one of the two short edges and passes `v1.x` on `v1`'s row. |
| Scanline.FillTriangle | render.go:516-570 | What `fillTriangle` returns. `Scanline.FillMembers`, `Scanline.FillInBox`, `Scanline.FillCorners` and `Scanline.FlatTriangle` characterise it. |
| Scanline.FillInBox | render.go:516-570 | Every filled pixel lies in the bounding box of the three corners. |
| Scanline.FillCorners | render.go:516-570 | A triangle spanning more than one row fills all three corners. |
| Scanline.FlatTriangle | render.go:530-567 | A triangle on one row fills exactly the span between its first two corners. |
| Compositor.AcceptedIndexInRange | render.go:324-325 | An accepted point's index `x + mx*y` lies strictly inside `[0, mx*my)`. |
| Compositor.Apply | render.go:323-330 | One iteration changes no pixel other than the one the entry addresses. |
| Compositor.Composite | render.go:321-332 | The loop keeps both planes' sizes and never raises a depth. A pixel that no accepted entry addresses is untouched. Every accepted entry ends at or above its pixel's final depth. |
| Compositor.Winner | render.go:321-332 | The reference definition `End` is proved against. Entry `j` wins pixel `q` when it addresses `q`, is strictly closer than the starting depth, is no farther than any entry addressing `q`, and is strictly closer than every earlier one. `Compositor.WinnerUnique` and `Compositor.CompositePixel` use it. |
| Compositor.WinnerUnique | render.go:321-332 | At most one entry wins a pixel. |
| Compositor.CompositePixel | render.go:321-332 | Each pixel ends either unchanged, because no entry addressing it was strictly closer than its start, or with the colour and depth of the earliest entry of minimal depth among those addressing it. |
| Compositor.CompositeStable | render.go:321-332 | When no accepted entry is strictly closer than what its pixel holds, the loop changes nothing at all. |
| Compositor.CompositeIdempotent | render.go:321-332 | Compositing is idempotent. |
| PipelineState.InitialValid | render.go:63-78 | Go's zero-valued state has the counter at 0, empty parallel lists and empty planes. |
| PipelineState.Viewport | render.go:80-87 | Both planes are `h*v` zeroed cells. Only the framebuffer and depth plane change, and validity is kept. |
| PipelineState.PolygonMode | render.go:93-103 | Only the two polygon modes can change. |
| PipelineState.PolygonModeSets | render.go:93-103 | FRONT and FRONT_AND_BACK set the front mode, BACK and FRONT_AND_BACK set the back mode, and each mode is otherwise kept. |
| PipelineState.PolygonModeUnknownFace | render.go:93-103 | An unknown face is a no-op. |
| PipelineState.PolygonModeLastWins | render.go:93-103 | Setting a face twice keeps only the second mode. |
| PipelineState.PolygonModeBoth | render.go:99-101 | FRONT_AND_BACK is FRONT followed by BACK. |
| PipelineState.SetEnabled | render.go:105-121 | Only the `enabled` flag of the addressed light slot changes, and an unknown id changes nothing. |
| PipelineState.Enable | render.go:105-112 | The addressed light is switched on, and an unknown id is a no-op. |
| PipelineState.Disable | render.go:114-121 | The addressed light is switched off, and an unknown id is a no-op. |
| PipelineState.DisableUndoesEnable | render.go:105-121 | Disabling a light that enabling switched on restores the state. |
| PipelineState.EnableIdempotent | render.go:105-112 | Enabling twice is enabling once. |
| PipelineState.SetEnabledCommutes | render.go:105-121 | Switches on different lights commute. |
| PipelineState.Lightfv | render.go:123-148 | The id must be one of LIGHTING0..3 and the attribute POSITION or DIFFUSE, with enough values. Only the addressed light changes, and its `enabled` flag is kept. |
| PipelineState.LightfvSets | render.go:134-145 | POSITION with `w > 0.99` makes the light directional with the given direction. Otherwise it becomes a point light at the given position. DIFFUSE sets the colour. The other fields are kept. |
| PipelineState.LightfvDiffusePositionCommute | render.go:134-145 | Setting a light's position and its colour commute. |
| PipelineState.LightfvEnableCommute | render.go:105-145 | `Lightfv` and `Enable` commute. |
| PipelineState.Color3f | render.go:312-314 | Only the submit colour changes, to the given channels. |
| PipelineState.ValidCanEnd | render.go:321-332 | In a valid state no index in `End` is out of range. |
| PipelineState.End | render.go:321-332 | Only the colour and depth planes change. Their sizes are kept, no depth rises, and validity is kept. |
| PipelineState.EndPixel | render.go:321-332 | After `End`, each pixel holds the earliest minimal-depth entry addressing it, if that entry beats the old depth. Otherwise the pixel is unchanged. |
| PipelineState.EndUntouched | render.go:324 | A pixel no accepted entry addresses is untouched. |
| PipelineState.EndIdempotent | render.go:321-332 | Calling `End` twice draws nothing more. |
| PipelineState.RowFits | render.go:352-355 | Row `i < my` of an `mx`-wide plane ends within the first `mx*my` cells. |
| PipelineState.ClearColor | render.go:349-360 | Every cell `j+i*mx` the loops visit gets the colour and the clear depth, the other cells are unchanged, and the three lists are emptied. Nothing else changes. |
| PipelineState.ReadPixels | render.go:334-347 | One triple per visited cell, `mx*my` when both are positive. Entry `j+i*mx` holds the channels of pixel `j+i*mx`. |
| Assembler.Emit | render.go:491-495 | Appending points adds exactly one colour and one depth per point after the existing entries, keeps the lists parallel, and changes nothing else. |
| Assembler.EmitConcat | render.go:250-253 | Two successive appends with the same colour and depth are one append of both point lists. |
| Assembler.Dispatch | render.go:244-270 | The switch on the front polygon mode, as the source's sequence of appends. `Assembler.DispatchLine`, `Assembler.DispatchPoint`, `Assembler.DispatchFill`, `Assembler.DispatchOtherMode` and `Assembler.DispatchAppends` characterise it. |
| Assembler.DispatchLine | render.go:244-253 | LINE mode appends the four clipped edges in the unlit submit colour. |
| Assembler.OutlineInBounds | render.go:486-489 | Every point LINE mode appends lies inside the framebuffer. |
| Assembler.OutlineClosed | render.go:244-253 | With all four corners in bounds, LINE mode draws the closed loop through all four corners. |
| Assembler.DispatchPoint | render.go:254-260 | POINT mode appends exactly the four corners, in order, each with the lit colour and the quad's depth. |
| Assembler.DispatchFill | render.go:261-269 | FILL mode appends triangles v0-v1-v2 and v0-v2-v3 in the lit colour. |
| Assembler.TriangleBoxInQuadBox | render.go:261-269 | The bounding box of either triangle lies within the quad's. |
| Assembler.InteriorInBox | render.go:261-269 | Every filled point lies in the quad's bounding box. |
| Assembler.InteriorCorners | render.go:261-269 | When neither triangle is flat, all four corners are filled. |
| Assembler.DispatchAppends | render.go:244-269 | The dispatch keeps the old entries of all three lists as prefixes, keeps the lists parallel, and changes nothing else. |
| Assembler.DispatchOtherMode | render.go:244-270 | A front mode other than LINE, POINT and FILL draws nothing. |
| Assembler.Vertex3f | render.go:150-273 | The vertex goes into slot `SubmitI` with `w = 1` and the counter advances modulo 4 within 0..3. Calls 1-3 change nothing else. The 4th stamps the submit colour, keeps the old entries of all three lists as prefixes, and keeps the state valid. |
| Assembler.FourVertices | render.go:150-158 | Four calls from an empty quad store those four vertices in the submit colour, rasterise that quad once and reset the counter. |
| Assembler.DispatchModeBack | render.go:244-270 | The back polygon mode does not influence the dispatch. |
| Assembler.ModeBackIgnored | render.go:150-273 | The back polygon mode does not influence `Vertex3f`. |
| Assembler.ZeroModeDrawsNothing | render.go:244-270 | With the front mode at its zero value 0, the call that completes a quad leaves all three lists unchanged. |
| Assembler.InitialDrawsNothing | render.go:63-78 | From Go's zero-valued state, the four calls that complete the first quad reset the counter and leave all three lists empty. |

## Left out

- The floating-point geometry and lighting stage is the `shade` parameter of
  `Assembler.Vertex3f`, not a model of float32 arithmetic. This stage covers:
  - `transformVertex`, `MultMatrix`, `SetCamera`, `LookAt`, `Frustum`,
    `Rotatef`, `normalize`, `cross` and `dot`;
  - the per-face lighting and its clamp (render.go:170-238);
  - the average distance;
  - `perspectiveDivide` and `viewportTransform`.
  The model-view matrix belongs to that stage and is not part of the state
  record.
- NaN and infinite depths are excluded, because depths are typed as reals. A
  degenerate floating-point stage can produce them: for example, `LookAt` with
  the eye at the centre normalises a zero vector. In Go such an entry never
  passes the depth test `Depth[k] < zBuffer[index]` when it is NaN. The model
  cannot express this case.
- float32 precision: depths and colour channels are reals. Only the two literals
  whose float32 value matters are rounded as float32 rounds them.
- Go's 64-bit `int` wrap-around, in `h*v`, `x + mx*y` and the Bresenham error
  term, is not modelled. Integers are unbounded.
- Panics are preconditions:
  - `Viewport` with a negative `h*v`;
  - `Lightfv` with an invalid id or attribute, or too few values;
  - `Vertex3f` with a counter outside 0..3;
  - `End`, `ClearColor` and `ReadPixels` indexing outside the planes.
- `Translatef` and `Begin` do nothing, and `lastVertex` is assigned but never
  read, so none of them is modelled.
- The demo program and its terminal output are I/O wiring, not rasteriser logic.
- Go slice aliasing in `append(x01[:len(x01)-1], x12...)` is modelled as
  sequence concatenation. `x01` is not read afterwards.
- `XY` only returns the two framebuffer sizes. It is inlined as the record
  fields.
- PipelineState.End: its precondition asks every accepted entry to have a
  colour and a depth. Go reads `Colors[k]` only when the depth test passes. In a
  valid state the lists are parallel, so the two demands coincide
  (`PipelineState.ValidCanEnd`).
