/**
 * The post-processing of one freshly generated terrain mesh in
 * `marching_squares_system`, in the order the source runs it: the triangle
 * cull (which reads the positions as generated), then the vertex clamp
 * (which overwrites them), then the optional wireframe (which reads the
 * culled indices and the clamped positions).
 */
module MeshPostProcess {
  import opened Geometry
  import opened TriangleCull
  import opened VertexClamp
  import opened WireframeOverlay

  /**
   * One pass over a mesh.  `positions` is the position buffer, changed in
   * place; the culled index list and the wireframe component come back.
   */
  method PostProcess(positions: array<Vec3>, indices: seq<nat>, size: real, recip: Vec3 -> real, wireframe: bool)
    returns (kept: seq<nat>, overlay: Overlay)
    requires ValidIndices(indices, positions.Length)
    modifies positions
    ensures kept == Culled(old(positions[..]), indices, Beyond(size))
    ensures positions[..] == ClampAll(old(positions[..]), size, recip)
    ensures wireframe ==> overlay == Attach(Outline(positions[..], kept))
    ensures !wireframe ==> overlay == Detach
  {
    kept := Cull(positions, indices, size);
    CulledStaysValid(old(positions[..]), indices, Beyond(size), positions.Length);
    Clamp(positions, size, recip);
    overlay := RefreshOverlay(wireframe, positions, kept);
  }

  /**
   * The mesh handed on is well formed: every index of a complete triangle
   * of the culled list still addresses a position, and the clamp keeps the
   * number of positions.
   */
  lemma ResultIndicesValid(ps: seq<Vec3>, ix: seq<nat>, size: real, recip: Vec3 -> real)
    requires ValidIndices(ix, |ps|)
    ensures ValidIndices(Culled(ps, ix, Beyond(size)), |ClampAll(ps, size, recip)|)
  {
    CulledStaysValid(ps, ix, Beyond(size), |ps|);
  }

  /**
   * For a non-negative radius, and with exact reciprocal lengths where the
   * clamp rescales, every endpoint of every wireframe line lies within the
   * radius.
   */
  lemma WireframeWithinDisc(ps: seq<Vec3>, ix: seq<nat>, size: real, recip: Vec3 -> real)
    requires size >= 0.0
    requires forall i :: 0 <= i < |ps| && Outside(Planar(ps[i]), size) ==> ExactRecip(recip, Planar(ps[i]))
    ensures var lines := Outline(ClampAll(ps, size, recip), Culled(ps, ix, Beyond(size)));
      forall j :: 0 <= j < |lines| ==> !Outside(lines[j].from, size) && !Outside(lines[j].to, size)
  {
    ClampedWithin(ps, size, recip);
    OutlineInsideDisc(ClampAll(ps, size, recip), Culled(ps, ix, Beyond(size)), size);
  }

  /** The clamped positions are within squared radius `size * size`. */
  lemma ClampedWithin(ps: seq<Vec3>, size: real, recip: Vec3 -> real)
    requires size >= 0.0
    requires forall i :: 0 <= i < |ps| && Outside(Planar(ps[i]), size) ==> ExactRecip(recip, Planar(ps[i]))
    ensures forall i :: 0 <= i < |ClampAll(ps, size, recip)| ==> PlanarNorm2(ClampAll(ps, size, recip)[i]) <= size * size
  {
    ClampAllWithinDisc(ps, size, recip);
  }
}
