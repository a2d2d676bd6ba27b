/** Geometry primitives the mesh engine works with.
    Vectors are exact reals: the engine's single-precision float behaviour is not
    modelled. Operations whose real definition is not part of this model
    (normalisation, spherical interpolation, plane/segment intersection, division of
    a size by integer step counts) are passed
    to the engine's operations as function parameters instead of being defined here. */
module Geometry {

  datatype Vec2 = Vec2(x: real, y: real)
  datatype Vec3 = Vec3(x: real, y: real, z: real)

  /** An integer pair: the grid step counts of a plane. */
  datatype Int2 = Int2(x: int, y: int)

  /** A plane `dot(normal, p) + distance == 0`. */
  datatype Plane = Plane(normal: Vec3, distance: real)

  /** What a plane/segment intersection reports: whether it hit, the point, and the
      segment parameter of the point. */
  datatype Hit = Hit(hit: bool, point: Vec3, t: real)

  /** The default texture coordinate of a vertex created without one; its value
      is left open. */
  const EmptyUV: Vec2

  /** The default forward axis of a plane grid. */
  const Forward := Vec3(0.0, 0.0, 1.0)

  function Add(a: Vec3, b: Vec3): Vec3 { Vec3(a.x + b.x, a.y + b.y, a.z + b.z) }

  function Sub(a: Vec3, b: Vec3): Vec3 { Vec3(a.x - b.x, a.y - b.y, a.z - b.z) }

  function Scale(a: Vec3, k: real): Vec3 { Vec3(a.x * k, a.y * k, a.z * k) }

  function DivScalar(a: Vec3, d: real): Vec3
    requires d != 0.0
  {
    Vec3(a.x / d, a.y / d, a.z / d)
  }

  function Cross(a: Vec3, b: Vec3): Vec3
  {
    Vec3(a.y * b.z - a.z * b.y, a.z * b.x - a.x * b.z, a.x * b.y - a.y * b.x)
  }

  /** The half-space test used by slicing and selection: the signed distance
      `distance(p, v)` of `v` from the plane `p` is at least zero. */
  predicate Keep(distance: (Plane, Vec3) -> real, p: Plane, v: Vec3) { distance(p, v) >= 0.0 }

  /** A segment parameter strictly inside the segment. */
  predicate Inside01(t: real) { 0.0 < t < 1.0 }

  /** The flat face normal the builders give a triangle or quad with corners
      `a, b, c`: the normalised cross product of `c - a` and `a - b`. */
  function FaceNormal(normalize: Vec3 -> Vec3, a: Vec3, b: Vec3, c: Vec3): Vec3
  {
    normalize(Cross(Sub(c, a), Sub(a, b)))
  }

  /** Multiplying by a natural number keeps the order of natural numbers. */
  lemma MulLeq(a: nat, b: nat, c: nat)
    requires a <= b
    ensures a * c <= b * c
  {
  }
}
