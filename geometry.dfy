/**
 * Points of the generated terrain mesh and the planar radius test used by
 * both the triangle cull and the vertex clamp.  Coordinates are exact reals
 * standing for the mesh's `[f32; 3]` positions.
 */
module Geometry {

  /** A mesh position `[x, y, z]`. */
  datatype Vec3 = Vec3(x: real, y: real, z: real)

  /** Squared length of the projection of `p` onto the XY plane. */
  function PlanarNorm2(p: Vec3): (r: real)
    ensures r >= 0.0
  {
    p.x * p.x + p.y * p.y
  }

  /**
   * `Vec3::new(p[0], p[1], 0.0).length() > size`.  The length is the
   * non-negative square root of PlanarNorm2, so for a non-negative size the
   * test is the squared comparison, and every length exceeds a negative size.
   */
  predicate Outside(p: Vec3, size: real)
  {
    size < 0.0 || PlanarNorm2(p) > size * size
  }

  /**
   * Outside is the source's test: for any non-negative `len` whose square is
   * the squared planar length, that is, the planar length itself,
   * `len > size` holds exactly when Outside does.
   */
  lemma OutsideIsLengthTest(p: Vec3, size: real, len: real)
    requires len >= 0.0 && len * len == PlanarNorm2(p)
    ensures Outside(p, size) <==> len > size
  {
    if size >= 0.0 {
      if len > size {
        ProductPositive(len - size, len + size);
        assert (len - size) * (len + size) == len * len - size * size;
        assert PlanarNorm2(p) > size * size;
      } else {
        ProductNonNegative(size - len, size + len);
        assert (size - len) * (size + len) == size * size - len * len;
        assert PlanarNorm2(p) <= size * size;
      }
    }
  }

  lemma ProductPositive(a: real, b: real)
    requires a > 0.0 && b > 0.0
    ensures a * b > 0.0
  {
  }

  lemma ProductNonNegative(a: real, b: real)
    requires a >= 0.0 && b >= 0.0
    ensures a * b >= 0.0
  {
  }

  /** `Vec3::new(p[0], p[1], 0.0)`: the point dropped onto the plane z = 0. */
  function Planar(p: Vec3): (r: Vec3)
    ensures r.z == 0.0 && PlanarNorm2(r) == PlanarNorm2(p)
  {
    Vec3(p.x, p.y, 0.0)
  }

  /** Componentwise product `p * k` of a vector and a scalar. */
  function Scale(p: Vec3, k: real): (r: Vec3)
    ensures PlanarNorm2(r) == k * k * PlanarNorm2(p)
  {
    ScaleNorm(p, k);
    Vec3(p.x * k, p.y * k, p.z * k)
  }

  lemma ScaleNorm(p: Vec3, k: real)
    ensures (p.x * k) * (p.x * k) + (p.y * k) * (p.y * k) == k * k * (p.x * p.x + p.y * p.y)
  {
    calc {
      (p.x * k) * (p.x * k) + (p.y * k) * (p.y * k);
      k * k * (p.x * p.x) + k * k * (p.y * p.y);
      k * k * (p.x * p.x + p.y * p.y);
    }
  }
}
