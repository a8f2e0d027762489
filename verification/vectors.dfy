/** The glm vector and matrix types the animation code uses (`glm::vec3`,
    `glm::vec4`, `glm::mat4`), over `real` instead of `float`. Matrices are
    column-major as in glm: `m.c3` is the fourth column. */
module Vectors {

  datatype Vec3 = Vec3(x: real, y: real, z: real)

  datatype Vec4 = Vec4(x: real, y: real, z: real, w: real)

  /** A 4x4 matrix stored as its four columns. */
  datatype Mat4 = Mat4(c0: Vec4, c1: Vec4, c2: Vec4, c3: Vec4)

  /** `glm::vec3(0.0f)` and `glm::vec3(1.0f)`. */
  const Zero3 := Vec3(0.0, 0.0, 0.0)
  const One3 := Vec3(1.0, 1.0, 1.0)

  function Add3(a: Vec3, b: Vec3): Vec3 { Vec3(a.x + b.x, a.y + b.y, a.z + b.z) }

  function Sub3(a: Vec3, b: Vec3): Vec3 { Vec3(a.x - b.x, a.y - b.y, a.z - b.z) }

  function Neg3(a: Vec3): Vec3 { Vec3(-a.x, -a.y, -a.z) }

  function Scale3(a: Vec3, f: real): Vec3 { Vec3(a.x * f, a.y * f, a.z * f) }

  /** glm's `vec3 * vec3`: the componentwise (Hadamard) product. */
  function Mul3(a: Vec3, b: Vec3): Vec3 { Vec3(a.x * b.x, a.y * b.y, a.z * b.z) }

  /** The componentwise product commutes with negation. */
  lemma Mul3Neg(a: Vec3, b: Vec3)
    ensures Mul3(a, Neg3(b)) == Neg3(Mul3(a, b))
  {
  }

  function Dot3(a: Vec3, b: Vec3): real { a.x * b.x + a.y * b.y + a.z * b.z }

  function Cross3(a: Vec3, b: Vec3): Vec3
  {
    Vec3(a.y * b.z - a.z * b.y, a.z * b.x - a.x * b.z, a.x * b.y - a.y * b.x)
  }

  /** `glm::lerp(a, b, t)`, which glm computes as `a * (1 - t) + b * t`. */
  function Lerp3(a: Vec3, b: Vec3, t: real): (r: Vec3)
    ensures t == 0.0 ==> r == a
    ensures t == 1.0 ==> r == b
  {
    Add3(Scale3(a, 1.0 - t), Scale3(b, t))
  }

  function Add4(a: Vec4, b: Vec4): Vec4 { Vec4(a.x + b.x, a.y + b.y, a.z + b.z, a.w + b.w) }

  function Scale4(a: Vec4, f: real): Vec4 { Vec4(a.x * f, a.y * f, a.z * f, a.w * f) }

  /** A point (`w == 1`) or a direction (`w == 0`) in homogeneous form. */
  function Point(p: Vec3): Vec4 { Vec4(p.x, p.y, p.z, 1.0) }
  function Direction(v: Vec3): Vec4 { Vec4(v.x, v.y, v.z, 0.0) }

  function Xyz(v: Vec4): Vec3 { Vec3(v.x, v.y, v.z) }

  /** `m * v`: the combination of the columns weighted by `v`'s coordinates. */
  function MulVec(m: Mat4, v: Vec4): Vec4
  {
    Add4(Add4(Scale4(m.c0, v.x), Scale4(m.c1, v.y)), Add4(Scale4(m.c2, v.z), Scale4(m.c3, v.w)))
  }

  /** `a * b`: column `k` of the product is `a` applied to column `k` of `b`. */
  function MulMat(a: Mat4, b: Mat4): Mat4
  {
    Mat4(MulVec(a, b.c0), MulVec(a, b.c1), MulVec(a, b.c2), MulVec(a, b.c3))
  }

  /** Row `i` of a matrix (`0 <= i < 4`). */
  function Row(m: Mat4, i: nat): (r: Vec4)
    requires i < 4
  {
    match i
    case 0 => Vec4(m.c0.x, m.c1.x, m.c2.x, m.c3.x)
    case 1 => Vec4(m.c0.y, m.c1.y, m.c2.y, m.c3.y)
    case 2 => Vec4(m.c0.z, m.c1.z, m.c2.z, m.c3.z)
    case _ => Vec4(m.c0.w, m.c1.w, m.c2.w, m.c3.w)
  }
}
