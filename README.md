# Terrain mesh post-processing of `marching_squares_system`

The planet generator builds a 2-D terrain mesh with marching squares. Each time
the settings change, `marching_squares_system` regenerates the mesh and then
post-processes its flat buffers in three steps:

1. **Triangle cull.** A backward walk over the index list removes, in place,
   every index triple whose three vertices all lie farther than `size` from
   the origin in the XY plane.
2. **Vertex clamp.** A forward walk over the position buffer overwrites every
   position with its projection onto z = 0. A projection farther than `size`
   is also rescaled along its direction to length `size`.
3. **Wireframe.** When the user interface asks for it, a list of debug lines is
   built: three per complete triangle of the culled list (a→b, b→c, c→a),
   drawn between the clamped positions lifted to z = 0.1. The list is
   attached to the entity as its `Wireframe` component. When the wireframe
   is off, the component is removed.

The model is imperative, like the source:

- the position buffer is an `array<Vec3>` of reals that the clamp overwrites;
- the index list is a `seq<nat>` that the cull reassigns, one `Vec::remove`
  at a time;
- the wireframe is a sequence built by appending.

Each loop is a method proved against a specification function:

| method | specification function | what the function is |
|---|---|---|
| `Cull` | `Culled` | an order-preserving filter over triangles |
| `Clamp` | `ClampAll` | a map over positions |
| `BuildWireframe` | `Outline` | a concatenation over triangles |

Lemmas then prove what these functions mean. The cull is also related to an
independent reference list `SurvivorsBelow`: the ascending numbers of the
triangles that are kept.

Files:

- `geometry.dfy` (module `Geometry`): positions, the squared planar length,
  the "farther than `size`" test, projection and scaling.
- `cull.dfy` (module `TriangleCull`): the filter specification, the backward
  walk step by step, and the `Cull` method.
- `clamp.dfy` (module `VertexClamp`): the per-position clamp, its geometry,
  and the `Clamp` method.
- `wireframe.dfy` (module `WireframeOverlay`): the line list, its shape, and
  the `BuildWireframe` and `RefreshOverlay` methods.
- `postprocess.dfy` (module `MeshPostProcess`): the three steps in the
  source's order, and properties of the result.

Modelling decisions:

- **The distance test.** `Vec3::new(x, y, 0.0).length() > size` is modelled
  exactly over the reals as `size < 0 || x*x + y*y > size*size`. A length is
  a non-negative square root, so it exceeds every negative `size`. No
  precondition on the sign of `size` is needed. `OutsideIsLengthTest` proves
  that, for the true planar length, the two tests agree.
- **The rescale.** `normalize()` multiplies by `length_recip()`. The model
  takes that reciprocal as a function parameter `recip`, because square
  roots have no counterpart among Dafny's reals. Properties that depend on
  its value, such as landing on the circle, assume it is exact at the point
  concerned (`ExactRecip`). Properties that do not, such as flattening to
  z = 0 and leaving inner points alone, hold for any `recip`.
- **The cull's guard.** The guard `indices.len() >= i + 3` compares against
  the triangle number `i`, not against the triple's end `3i + 3`. It is
  nonetheless always true. By the time triangle `i` is visited, only
  triangles above it have been removed, so at least `3i + 3` indices remain.
  The model keeps the guard and proves that its else branch is dead
  (`assert false` in `Cull`).
- **Indices.** The source indexes `positions` with every index of a complete
  triangle, and panics if one is out of range. The methods therefore require
  `ValidIndices`. The short tail left when `indices.len()` is not a multiple
  of three is never read, and the cull leaves it in place.

## Model

| member | source | states |
|---|---|---|
| Geometry.OutsideIsLengthTest | src/main.rs:175-178 | for the non-negative square root `len` of the squared planar length, `Outside` holds if and only if `len > size`, for every sign of `size`; the same test recurs in the clamp at lines 196-197 |
| Geometry.Planar | src/main.rs:195 | dropping a point onto z = 0 keeps its planar length |
| Geometry.Scale | src/main.rs:198 | multiplying a vector by `k` multiplies its squared planar length by `k*k` |
| TriangleCull.TriangleCount | src/main.rs:169 | `indices.len() / 3` is the number of complete triples: `3n <= len < 3n + 3` |
| TriangleCull.Cull | src/main.rs:169-187 | the in-place backward walk, guard included, leaves exactly `Culled` of the list, computed from the positions as given; positions are only read |
| TriangleCull.VisitAt | src/main.rs:170-185 | one iteration: when all three vertices of triangle `t` are outside, its three indices are removed (highest first), otherwise the list is unchanged |
| TriangleCull.WalkLookup | src/main.rs:170-174 | while walking down, triangle `i` of the current list lies within it (so the guard holds) and its three indices address positions |
| TriangleCull.RemovesCutTriple | src/main.rs:182-184 | `remove(j+2)`, `remove(j+1)`, `remove(j)` cut exactly `s[j..j+3]` out of the list |
| TriangleCull.VisitKeepsBelow | src/main.rs:169-185 | visiting triangle `t` never changes the entries before its triple, so the triangles still to be visited are intact |
| TriangleCull.WalkIsFilter | src/main.rs:169-187 | the walk over the first `i` triangles of `ix[..3i] + rest` yields the kept triples in order, followed by `rest` unchanged |
| TriangleCull.WalkIsCulled | src/main.rs:169-187 | the full backward walk equals the order-preserving filter `Culled` |
| TriangleCull.SurvivorsExact | src/main.rs:178 | a triangle survives if and only if not all three of its vertices are outside |
| TriangleCull.SurvivorsAscending | src/main.rs:169-187 | the surviving triangle numbers are strictly increasing, so the original order is kept |
| TriangleCull.KeepBelowMatchesSurvivors | src/main.rs:169-187 | the kept triples are, one for one and in order, the survivors' triples |
| TriangleCull.CulledTriples | src/main.rs:169-187 | the culled list has one triangle per survivor, and triangle `j` is survivor `j`'s triple |
| TriangleCull.CulledTail | src/main.rs:169-187 | after the survivors' triples comes the original short tail, unchanged |
| TriangleCull.CulledIsFilter | src/main.rs:169-187 | the culled list is the survivors' triples, ascending, plus the original tail; its length is three per survivor plus `len % 3`; a triangle survives exactly when some vertex is within the radius |
| TriangleCull.CulledKeepsWholeTriangles | src/main.rs:182-184 | a list whose length is a multiple of three keeps that property after the cull |
| TriangleCull.CulledTrianglesTouchDisc | src/main.rs:178 | every triangle left after the cull has at least one vertex within the radius |
| TriangleCull.CulledStaysValid | src/main.rs:179-184 | positions are not removed, so every index valid before the cull is valid after it |
| VertexClamp.ClampedPosition | src/main.rs:195-200 | every clamped position has z = 0 |
| VertexClamp.ClampKeepsInside | src/main.rs:195-197 | a position within the radius keeps its x and y and only loses its height |
| VertexClamp.ClampOntoCircle | src/main.rs:197-198 | a position outside the radius ends on the circle of radius `size`, on its own ray from the origin (x and y scaled by the same positive factor when `size > 0`) |
| VertexClamp.ClampWithinDisc | src/main.rs:194-201 | for a non-negative radius, every clamped position is within it |
| VertexClamp.ClampIdempotent | src/main.rs:194-201 | clamping a clamped position changes nothing |
| VertexClamp.NegativeSizeReflects | src/main.rs:196-198 | with a negative radius every position is outside; it is sent to distance `-size` on the opposite side of the origin |
| VertexClamp.ClampAll | src/main.rs:194 | the clamp keeps the number of positions |
| VertexClamp.ClampAllWithinDisc | src/main.rs:194-201 | after the clamp the whole mesh is flat and, for a non-negative radius, within the disc |
| VertexClamp.ClampAllIdempotent | src/main.rs:194-201 | running the clamp twice is running it once |
| VertexClamp.Clamp | src/main.rs:194-201 | the in-place loop replaces every position by its clamped value and nothing else |
| WireframeOverlay.TriangleEdges | src/main.rs:206-219 | one triangle contributes three lines |
| WireframeOverlay.OutlineBelow | src/main.rs:206-220 | the first `t` triangles contribute three lines each |
| WireframeOverlay.OutlineAt | src/main.rs:206-220 | lines `3u .. 3u + 3` are triangle `u`'s edges, in push order |
| WireframeOverlay.OutlineMatchesTriangles | src/main.rs:203-220 | the wireframe has exactly `3 * (indices.len() / 3)` lines, and triangle `u` contributes lines `3u`, `3u+1`, `3u+2` as (a,b), (b,c), (c,a) |
| WireframeOverlay.TriangleEdgesClosed | src/main.rs:217-219 | a triangle's three lines form a closed loop through its lifted corners a, b, c |
| WireframeOverlay.OutlineAtHeight | src/main.rs:217-219 | every endpoint of every line is at z = 0.1 |
| WireframeOverlay.OutlineWithin | src/main.rs:206-220 | every endpoint is a lifted position, so a bound on the positions' planar length bounds every endpoint |
| WireframeOverlay.BuildWireframe | src/main.rs:204-220 | the push loop builds exactly `Outline` of the positions and indices |
| WireframeOverlay.RefreshOverlay | src/main.rs:203-235 | wireframe on: the component holds exactly `Outline`; wireframe off: the component is removed |
| MeshPostProcess.PostProcess | src/main.rs:169-235 | the three steps in order: indices culled against the generated positions, positions clamped, and the wireframe drawn from the culled indices over the clamped positions |
| MeshPostProcess.ResultIndicesValid | src/main.rs:169-201 | the mesh handed on is well formed: every index of a complete culled triangle addresses a clamped position |
| MeshPostProcess.WireframeWithinDisc | src/main.rs:169-220 | for a non-negative radius, every endpoint of every wireframe line lies within it |

## Left out

- `generate_vertices` (the field sampling, the marching-squares case table,
  and edge placement) is not part of this model. Its source is not available.
  The model takes its `positions` and `indices` as inputs.
- f32 arithmetic: coordinates are exact reals and `indices` are `nat`. Rounding
  in `length()` and `normalize()`, and the u32 width of indices, are not
  modelled. The height 0.1 is the exact real 0.1.
- The square root inside `length_recip()` is the parameter `recip`.
- VertexClamp.ClampOntoCircle, VertexClamp.ClampWithinDisc and
  VertexClamp.ClampIdempotent assume the reciprocal is exact. In f32 a
  rescaled point lands near the circle, not on it, and a second clamp may
  move it again.
- VertexClamp.NegativeSizeReflects does not cover the zero vector. With a
  negative `size` the zero vector is outside too, and `normalize()` of it
  yields NaN; the model has no NaN and needs an exact reciprocal.
- The panic on an out-of-range index (`positions[indices[i] as usize]` in the
  cull and in the wireframe) is not modelled as an error path. `Cull`,
  `BuildWireframe` and `RefreshOverlay` (when enabled) require `ValidIndices`
  instead, since the source has no recovery from it.
- The `normals` and `uvs` buffers pass through unchanged and are not modelled.
- Bevy ECS plumbing is modelled only as the `Overlay` value:
  - the query over entities;
  - `commands.entity(..).insert/remove`;
  - building the new `Mesh` and replacing the `Mesh2dHandle`.
- The `is_up_to_date` flag that gates the whole pass is not modelled: it is
  frame-driven user-interface state. Neither is the egui settings window.
- The drawing of the lines through `DebugLines` in `wifreframe_update` is not
  modelled.
