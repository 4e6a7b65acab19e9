/** Exact real-valued stand-ins for MonoGame's `Vector2`, `Vector3` and
    `BoundingBox` (single-precision floats in the engine). */
module Vectors {

  datatype Vec2 = Vec2(x: real, y: real)

  datatype Vec3 = Vec3(x: real, y: real, z: real)

  const Zero: Vec3 := Vec3(0.0, 0.0, 0.0)

  /** `float.MaxValue` and `float.MinValue`, the sentinels the min/max folds
      start from. */
  const FloatMax: real := 340282346638528859811704183484516925440.0
  const FloatMin: real := -340282346638528859811704183484516925440.0

  function Add(a: Vec3, b: Vec3): Vec3 { Vec3(a.x + b.x, a.y + b.y, a.z + b.z) }

  function Sub(a: Vec3, b: Vec3): Vec3 { Vec3(a.x - b.x, a.y - b.y, a.z - b.z) }

  function Scale(k: real, a: Vec3): Vec3 { Vec3(k * a.x, k * a.y, k * a.z) }

  function Dot(a: Vec3, b: Vec3): real { a.x * b.x + a.y * b.y + a.z * b.z }

  function LengthSq(a: Vec3): real { Dot(a, a) }

  /** Component-wise minimum and maximum (`Vector3.Min` / `Vector3.Max`). */
  function Min3(a: Vec3, b: Vec3): Vec3 {
    Vec3(if a.x <= b.x then a.x else b.x,
         if a.y <= b.y then a.y else b.y,
         if a.z <= b.z then a.z else b.z)
  }

  function Max3(a: Vec3, b: Vec3): Vec3 {
    Vec3(if a.x >= b.x then a.x else b.x,
         if a.y >= b.y then a.y else b.y,
         if a.z >= b.z then a.z else b.z)
  }

  /** `a <= b` on every axis. */
  predicate LessEq(a: Vec3, b: Vec3) { a.x <= b.x && a.y <= b.y && a.z <= b.z }

  /** An axis-aligned box, MonoGame's `BoundingBox(min, max)`. */
  datatype Box = Box(min: Vec3, max: Vec3)

  /** A box translated to `p`: `new BoundingBox(p + aabb.Min, p + aabb.Max)`. */
  function Translate(b: Box, p: Vec3): Box { Box(Add(p, b.min), Add(p, b.max)) }

  /** `BoundingBox.Intersects`: the closed intervals overlap on all three axes
      (touching faces count as intersecting). */
  predicate Intersects(a: Box, b: Box) {
    && a.max.x >= b.min.x && a.min.x <= b.max.x
    && a.max.y >= b.min.y && a.min.y <= b.max.y
    && a.max.z >= b.min.z && a.min.z <= b.max.z
  }
}
