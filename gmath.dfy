/**
 * The vector and matrix types that the scene-object tree stores.
 *
 * The single-precision float arithmetic behind them is not modelled. A float is
 * kept as its 32-bit IEEE-754 pattern, because the modelled code only copies
 * floats and never computes with them. A 4x4 matrix is a term built from the
 * three operations the tree uses (identity, translation and product).
 * Associativity is not assumed. As constructors the three are distinct and
 * injective, which real matrices are not (the translation by zero is the
 * identity), but no proof here relies on that: the proofs also go through
 * with `Matrix4` an abstract type and the three operations unknown functions.
 */
module GMath {

  /** A `float`, as its bit pattern. */
  type Float32 = bv32

  datatype Vector3 = Vector3(x: Float32, y: Float32, z: Float32)

  /** `vec3Zero()`: every component is +0.0f, the all-zero bit pattern. */
  const Vec3Zero: Vector3 := Vector3(0, 0, 0)

  /**
   * `Identity` is `mat4Identity()`, `Translation(v)` is
   * `mat4CreateTranslation(v)` and `Mul(a, b)` is `mat4Multiply(a, b)`.
   */
  datatype Matrix4 =
    | Identity
    | Translation(offset: Vector3)
    | Mul(lhs: Matrix4, rhs: Matrix4)
}
