/**
 * The optional wireframe of `marching_squares_system`: when the user
 * interface asks for it, three debug lines per complete triangle of the
 * (culled) index list, drawn between its corners lifted to height 0.1, are
 * attached to the entity as its `Wireframe` component; otherwise the
 * component is removed.
 */
module WireframeOverlay {
  import opened Geometry
  import opened TriangleCull

  /** A debug line, the pair `(from, to)` the source pushes. */
  datatype Segment = Segment(from: Vec3, to: Vec3)

  /**
   * What the entity carries after the frame: a `Wireframe` component holding
   * these lines, or no such component.
   */
  datatype Overlay = Attach(lines: seq<Segment>) | Detach

  /** Height of the wireframe above the flattened terrain. */
  const LineHeight: real := 0.1

  /** `Vec3::new(p[0], p[1], 0.1)`. */
  function Lift(p: Vec3): Vec3
  {
    Vec3(p.x, p.y, LineHeight)
  }

  /** The three lines of triangle `t`: its corners a, b, c joined a-b, b-c, c-a. */
  function TriangleEdges(pos: seq<Vec3>, ix: seq<nat>, t: nat): (r: seq<Segment>)
    requires 3 * t + 3 <= |ix|
    ensures |r| == 3
  {
    var a, b, c := Lift(Vertex(pos, ix[3 * t])), Lift(Vertex(pos, ix[3 * t + 1])), Lift(Vertex(pos, ix[3 * t + 2]));
    [Segment(a, b), Segment(b, c), Segment(c, a)]
  }

  /** The lines of the first `t` triangles, in order. */
  function OutlineBelow(pos: seq<Vec3>, ix: seq<nat>, t: nat): (r: seq<Segment>)
    requires 3 * t <= |ix|
    ensures |r| == 3 * t
  {
    if t == 0 then [] else OutlineBelow(pos, ix, t - 1) + TriangleEdges(pos, ix, t - 1)
  }

  /** All the wireframe lines of an index list: those of its complete triangles. */
  function Outline(pos: seq<Vec3>, ix: seq<nat>): seq<Segment>
  {
    OutlineBelow(pos, ix, TriangleCount(ix))
  }

  /** The three lines at `3t .. 3t + 3`. */
  function EdgesAt(lines: seq<Segment>, t: nat): (r: seq<Segment>)
    requires 3 * t + 3 <= |lines|
    ensures |r| == 3
  {
    lines[3 * t .. 3 * t + 3]
  }

  /** OutlineBelow, unfolded once at `t = k + 1`. */
  lemma OutlineStep(pos: seq<Vec3>, ix: seq<nat>, k: nat)
    requires 3 * k + 3 <= |ix|
    ensures OutlineBelow(pos, ix, k + 1) == OutlineBelow(pos, ix, k) + TriangleEdges(pos, ix, k)
  {
  }

  /** The lines at `3u .. 3u + 3` of `init + last` lie in `init` when `init` is long enough. */
  lemma EdgesOfPrefix(init: seq<Segment>, last: seq<Segment>, u: nat)
    requires 3 * u + 3 <= |init|
    ensures EdgesAt(init + last, u) == EdgesAt(init, u)
  {
  }

  /** Lines `3u .. 3u + 3` of the outline of the first `t` triangles are triangle `u`'s. */
  lemma {:induction false} OutlineAt(pos: seq<Vec3>, ix: seq<nat>, t: nat, u: nat)
    requires u < t && 3 * t <= |ix|
    ensures EdgesAt(OutlineBelow(pos, ix, t), u) == TriangleEdges(pos, ix, u)
    decreases t, 1
  {
    OutlineAtAbove(pos, ix, t, t - 1, u);
  }

  /** The inductive step of OutlineAt, at `t = k + 1`. */
  lemma {:induction false} OutlineAtAbove(pos: seq<Vec3>, ix: seq<nat>, t: nat, k: nat, u: nat)
    requires t == k + 1 && u <= k && 3 * t <= |ix|
    ensures EdgesAt(OutlineBelow(pos, ix, t), u) == TriangleEdges(pos, ix, u)
    decreases t, 0
  {
    OutlineStep(pos, ix, k);
    if u < k {
      OutlineAt(pos, ix, k, u);
      EdgesOfPrefix(OutlineBelow(pos, ix, k), TriangleEdges(pos, ix, k), u);
    }
  }

  /**
   * The wireframe has three lines per complete triangle, and lines
   * `3u .. 3u + 3` are triangle `u`'s edges, in the order the source pushes
   * them; the short tail of the index list draws nothing.
   */
  lemma OutlineMatchesTriangles(pos: seq<Vec3>, ix: seq<nat>)
    ensures |Outline(pos, ix)| == 3 * TriangleCount(ix)
    ensures forall u :: 0 <= u < TriangleCount(ix) ==> EdgesAt(Outline(pos, ix), u) == TriangleEdges(pos, ix, u)
  {
    forall u | 0 <= u < TriangleCount(ix)
      ensures EdgesAt(Outline(pos, ix), u) == TriangleEdges(pos, ix, u)
    {
      OutlineAt(pos, ix, TriangleCount(ix), u);
    }
  }

  /**
   * Each triangle's three lines form a closed loop through its lifted
   * corners: every line ends where the next begins, and the last ends where
   * the first begins.
   */
  lemma TriangleEdgesClosed(pos: seq<Vec3>, ix: seq<nat>, t: nat)
    requires 3 * t + 3 <= |ix|
    ensures var e := TriangleEdges(pos, ix, t);
      && e[0].to == e[1].from && e[1].to == e[2].from && e[2].to == e[0].from
      && e[0].from == Lift(Vertex(pos, ix[3 * t]))
      && e[1].from == Lift(Vertex(pos, ix[3 * t + 1]))
      && e[2].from == Lift(Vertex(pos, ix[3 * t + 2]))
  {
  }

  /** Every endpoint of every wireframe line sits at the line height. */
  lemma {:induction false} OutlineAtHeight(pos: seq<Vec3>, ix: seq<nat>, t: nat)
    requires 3 * t <= |ix|
    ensures forall k :: 0 <= k < |OutlineBelow(pos, ix, t)| ==>
      OutlineBelow(pos, ix, t)[k].from.z == LineHeight && OutlineBelow(pos, ix, t)[k].to.z == LineHeight
    decreases t, 1
  {
    if t > 0 {
      OutlineAtHeightAbove(pos, ix, t, t - 1);
    }
  }

  /** The inductive step of OutlineAtHeight, at `t = k + 1`. */
  lemma {:induction false} OutlineAtHeightAbove(pos: seq<Vec3>, ix: seq<nat>, t: nat, k: nat)
    requires t == k + 1 && 3 * t <= |ix|
    ensures forall j :: 0 <= j < |OutlineBelow(pos, ix, t)| ==>
      OutlineBelow(pos, ix, t)[j].from.z == LineHeight && OutlineBelow(pos, ix, t)[j].to.z == LineHeight
    decreases t, 0
  {
    OutlineStep(pos, ix, k);
    OutlineAtHeight(pos, ix, k);
  }

  /**
   * Lifting keeps planar distance, so when every position (and the origin,
   * which stands for a missing one) is within squared radius `bound`, so is
   * every endpoint of every wireframe line.
   */
  lemma {:induction false} OutlineWithin(pos: seq<Vec3>, ix: seq<nat>, t: nat, bound: real)
    requires 3 * t <= |ix| && bound >= 0.0
    requires forall i :: 0 <= i < |pos| ==> PlanarNorm2(pos[i]) <= bound
    ensures forall j :: 0 <= j < |OutlineBelow(pos, ix, t)| ==>
      PlanarNorm2(OutlineBelow(pos, ix, t)[j].from) <= bound && PlanarNorm2(OutlineBelow(pos, ix, t)[j].to) <= bound
    decreases t, 1
  {
    if t > 0 {
      OutlineWithinAbove(pos, ix, t, t - 1, bound);
    }
  }

  /** The inductive step of OutlineWithin, at `t = k + 1`. */
  lemma {:induction false} OutlineWithinAbove(pos: seq<Vec3>, ix: seq<nat>, t: nat, k: nat, bound: real)
    requires t == k + 1 && 3 * t <= |ix| && bound >= 0.0
    requires forall i :: 0 <= i < |pos| ==> PlanarNorm2(pos[i]) <= bound
    ensures forall j :: 0 <= j < |OutlineBelow(pos, ix, t)| ==>
      PlanarNorm2(OutlineBelow(pos, ix, t)[j].from) <= bound && PlanarNorm2(OutlineBelow(pos, ix, t)[j].to) <= bound
    decreases t, 0
  {
    OutlineStep(pos, ix, k);
    OutlineWithin(pos, ix, k, bound);
    VertexWithin(pos, ix[3 * k], bound);
    VertexWithin(pos, ix[3 * k + 1], bound);
    VertexWithin(pos, ix[3 * k + 2], bound);
  }

  /** A looked-up vertex, lifted, is within squared radius `bound`. */
  lemma VertexWithin(pos: seq<Vec3>, i: nat, bound: real)
    requires bound >= 0.0
    requires forall i :: 0 <= i < |pos| ==> PlanarNorm2(pos[i]) <= bound
    ensures PlanarNorm2(Lift(Vertex(pos, i))) <= bound
  {
  }

  /**
   * When every position is within radius `size`, every endpoint of every
   * wireframe line is too.
   */
  lemma OutlineInsideDisc(pos: seq<Vec3>, ix: seq<nat>, size: real)
    requires size >= 0.0
    requires forall i :: 0 <= i < |pos| ==> PlanarNorm2(pos[i]) <= size * size
    ensures forall j :: 0 <= j < |Outline(pos, ix)| ==>
      !Outside(Outline(pos, ix)[j].from, size) && !Outside(Outline(pos, ix)[j].to, size)
  {
    OutlineWithin(pos, ix, TriangleCount(ix), size * size);
  }

  /** Pushing three lines one by one appends the three of them. */
  lemma PushThree(lines: seq<Segment>, s0: Segment, s1: Segment, s2: Segment)
    ensures lines + [s0] + [s1] + [s2] == lines + [s0, s1, s2]
  {
  }

  /**
   * `for i in 0..indices.len() / 3` with its three `wireframe.push` calls.
   * The source indexes `positions` with every index of a complete triangle.
   */
  method BuildWireframe(positions: array<Vec3>, indices: seq<nat>) returns (lines: seq<Segment>)
    requires ValidIndices(indices, positions.Length)
    ensures lines == Outline(positions[..], indices)
  {
    ghost var pos := positions[..];
    lines := [];
    for t := 0 to |indices| / 3
      invariant lines == OutlineBelow(pos, indices, t)
    {
      var a := positions[indices[3 * t]];
      var b := positions[indices[3 * t + 1]];
      var c := positions[indices[3 * t + 2]];
      ghost var before := lines;
      lines := lines + [Segment(Lift(a), Lift(b))];
      lines := lines + [Segment(Lift(b), Lift(c))];
      lines := lines + [Segment(Lift(c), Lift(a))];
      PushThree(before, Segment(Lift(a), Lift(b)), Segment(Lift(b), Lift(c)), Segment(Lift(c), Lift(a)));
      OutlineStep(pos, indices, t);
    }
  }

  /**
   * `if ui_state.wireframe { … insert(Wireframe { lines }) } else { remove::<Wireframe>() }`.
   */
  method RefreshOverlay(enabled: bool, positions: array<Vec3>, indices: seq<nat>) returns (overlay: Overlay)
    requires enabled ==> ValidIndices(indices, positions.Length)
    ensures enabled ==> overlay == Attach(Outline(positions[..], indices))
    ensures !enabled ==> overlay == Detach
  {
    if enabled {
      var lines := BuildWireframe(positions, indices);
      overlay := Attach(lines);
    } else {
      overlay := Detach;
    }
  }
}
