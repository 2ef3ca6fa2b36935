/** Three-component vectors over the reals: the `vector` and `point` types of the
    mesh library, without floating-point rounding. */
module Vectors {

  datatype Vec3 = Vec3(x: real, y: real, z: real)

  const Zero: Vec3 := Vec3(0.0, 0.0, 0.0)

  function Add(a: Vec3, b: Vec3): Vec3 {
    Vec3(a.x + b.x, a.y + b.y, a.z + b.z)
  }

  function Sub(a: Vec3, b: Vec3): Vec3 {
    Vec3(a.x - b.x, a.y - b.y, a.z - b.z)
  }

  function Scale(k: real, a: Vec3): Vec3 {
    Vec3(k * a.x, k * a.y, k * a.z)
  }

  function Dot(a: Vec3, b: Vec3): real {
    a.x * b.x + a.y * b.y + a.z * b.z
  }

  function Cross(a: Vec3, b: Vec3): Vec3 {
    Vec3(a.y * b.z - a.z * b.y, a.z * b.x - a.x * b.z, a.x * b.y - a.y * b.x)
  }

  /** `a` and `b` point along one line: their cross product vanishes. */
  predicate Parallel(a: Vec3, b: Vec3) {
    Cross(a, b) == Zero
  }

  /** The dot product is linear in a scaled left argument. */
  lemma DotScale(k: real, a: Vec3, b: Vec3)
    ensures Dot(Scale(k, a), b) == k * Dot(a, b)
  {
  }

  /** A scaled copy of `n` is parallel to `n`. */
  lemma ScaleParallel(k: real, n: Vec3)
    ensures Parallel(Scale(k, n), n)
  {
  }
}
