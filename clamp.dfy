/**
 * The vertex clamp of `marching_squares_system`: every position is dropped
 * onto the plane z = 0 and, when it lies farther than `size` from the
 * origin, pulled back along its direction onto the circle of radius `size`.
 *
 * `Vec3::normalize` multiplies a vector by `length_recip()`, the reciprocal
 * of its length; square roots have no counterpart among Dafny's reals, so
 * the model takes that reciprocal as a parameter `recip`.  Properties that
 * depend on its value assume it is exact at the point concerned.
 */
module VertexClamp {
  import opened Geometry

  /** `recip(q)` is the reciprocal of the planar length of `q`. */
  predicate ExactRecip(recip: Vec3 -> real, q: Vec3)
  {
    recip(q) > 0.0 && recip(q) * recip(q) * PlanarNorm2(q) == 1.0
  }

  /** The loop body for one position: flatten, and pull back when outside. */
  function ClampedPosition(p: Vec3, size: real, recip: Vec3 -> real): (r: Vec3)
    ensures r.z == 0.0
  {
    var q := Planar(p);
    if Outside(q, size) then Scale(Scale(q, recip(q)), size) else q
  }

  /** A position within the radius only loses its height. */
  lemma ClampKeepsInside(p: Vec3, size: real, recip: Vec3 -> real)
    requires !Outside(Planar(p), size)
    ensures ClampedPosition(p, size, recip) == Vec3(p.x, p.y, 0.0)
  {
  }

  /**
   * A position outside the radius ends on the circle of radius `size`, on
   * the same ray from the origin as its planar projection.
   */
  lemma ClampOntoCircle(p: Vec3, size: real, recip: Vec3 -> real)
    requires Outside(Planar(p), size) && ExactRecip(recip, Planar(p))
    ensures var r, k := ClampedPosition(p, size, recip), recip(Planar(p)) * size;
      && PlanarNorm2(r) == size * size
      && r.x == k * p.x && r.y == k * p.y
  {
    var q := Planar(p);
    var u := recip(q);
    var r := ClampedPosition(p, size, recip);
    assert PlanarNorm2(Scale(q, u)) == u * u * PlanarNorm2(q) == 1.0;
    assert r.x == (p.x * u) * size == u * size * p.x;
    assert r.y == (p.y * u) * size == u * size * p.y;
  }

  /**
   * For a non-negative radius every clamped position lies within it: it was
   * inside already, or was moved onto the circle.
   */
  lemma ClampWithinDisc(p: Vec3, size: real, recip: Vec3 -> real)
    requires size >= 0.0
    requires Outside(Planar(p), size) ==> ExactRecip(recip, Planar(p))
    ensures !Outside(ClampedPosition(p, size, recip), size)
  {
    if Outside(Planar(p), size) {
      ClampOntoCircle(p, size, recip);
    }
  }

  /** Clamping a clamped position changes nothing. */
  lemma ClampIdempotent(p: Vec3, size: real, recip: Vec3 -> real)
    requires size >= 0.0
    requires Outside(Planar(p), size) ==> ExactRecip(recip, Planar(p))
    ensures ClampedPosition(ClampedPosition(p, size, recip), size, recip) == ClampedPosition(p, size, recip)
  {
    var r := ClampedPosition(p, size, recip);
    ClampWithinDisc(p, size, recip);
    assert Planar(r) == r;
  }

  /**
   * With a negative radius every position counts as outside, since every
   * length exceeds it: each one is sent onto the circle of radius `-size`,
   * through the origin to the opposite side of its ray.
   */
  lemma NegativeSizeReflects(p: Vec3, size: real, recip: Vec3 -> real)
    requires size < 0.0 && ExactRecip(recip, Planar(p))
    ensures var r := ClampedPosition(p, size, recip);
      && PlanarNorm2(r) == size * size
      && r.x * p.x + r.y * p.y <= 0.0
  {
    var k := recip(Planar(p)) * size;
    ClampOntoCircle(p, size, recip);
    assert k < 0.0;
    assert k * p.x * p.x + k * p.y * p.y == k * PlanarNorm2(p);
  }

  /** The positions after the clamp loop, one for one. */
  function ClampAll(ps: seq<Vec3>, size: real, recip: Vec3 -> real): (r: seq<Vec3>)
    ensures |r| == |ps|
  {
    seq(|ps|, i requires 0 <= i < |ps| => ClampedPosition(ps[i], size, recip))
  }

  /** After the clamp the whole mesh is flat and, for a non-negative radius, inside the disc. */
  lemma ClampAllWithinDisc(ps: seq<Vec3>, size: real, recip: Vec3 -> real)
    requires size >= 0.0
    requires forall i :: 0 <= i < |ps| && Outside(Planar(ps[i]), size) ==> ExactRecip(recip, Planar(ps[i]))
    ensures forall i :: 0 <= i < |ps| ==>
      ClampAll(ps, size, recip)[i].z == 0.0 && !Outside(ClampAll(ps, size, recip)[i], size)
  {
    forall i | 0 <= i < |ps|
      ensures !Outside(ClampAll(ps, size, recip)[i], size)
    {
      ClampWithinDisc(ps[i], size, recip);
    }
  }

  /** Running the clamp twice is running it once. */
  lemma ClampAllIdempotent(ps: seq<Vec3>, size: real, recip: Vec3 -> real)
    requires size >= 0.0
    requires forall i :: 0 <= i < |ps| && Outside(Planar(ps[i]), size) ==> ExactRecip(recip, Planar(ps[i]))
    ensures ClampAll(ClampAll(ps, size, recip), size, recip) == ClampAll(ps, size, recip)
  {
    var once := ClampAll(ps, size, recip);
    forall i | 0 <= i < |ps|
      ensures ClampAll(once, size, recip)[i] == once[i]
    {
      ClampIdempotent(ps[i], size, recip);
    }
  }

  /**
   * `for i in 0..positions.len()`: each position is replaced in place by
   * its clamped value.
   */
  method Clamp(positions: array<Vec3>, size: real, recip: Vec3 -> real)
    modifies positions
    ensures positions[..] == ClampAll(old(positions[..]), size, recip)
  {
    for i := 0 to positions.Length
      invariant forall j :: 0 <= j < i ==> positions[j] == ClampedPosition(old(positions[j]), size, recip)
      invariant forall j :: i <= j < positions.Length ==> positions[j] == old(positions[j])
    {
      var pos := Planar(positions[i]);
      if Outside(pos, size) {
        pos := Scale(Scale(pos, recip(pos)), size);
      }
      positions[i] := pos;
    }
  }
}
