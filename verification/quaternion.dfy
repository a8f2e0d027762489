/** The quaternion type `Q::quat` and its polynomial operations. The product
    `Mul(q, p)` reverses its arguments, so that a child rotation is written
    first: `Mul(child, parent)`. Operations that need a square root take the
    reciprocal square root `rsqrt` as a parameter. */
module Quaternions {
  import opened Numeric
  import opened Vectors

  datatype Quat = Quat(x: real, y: real, z: real, w: real)
  {
    /** The vector part `(x, y, z)`. */
    function Vector(): Vec3 { Vec3(x, y, z) }
  }

  /** `QUAT_EPSILON`, the source's `0.000001f`. */
  const QuatEpsilon: real := 0.000001

  /** What the default constructor builds: the identity rotation (0, 0, 0, 1). */
  const Identity := Quat(0.0, 0.0, 0.0, 1.0)

  function Add(a: Quat, b: Quat): Quat { Quat(a.x + b.x, a.y + b.y, a.z + b.z, a.w + b.w) }

  function Sub(a: Quat, b: Quat): Quat { Quat(a.x - b.x, a.y - b.y, a.z - b.z, a.w - b.w) }

  /** Negation: the same rotation, with the same length, in the opposite
      hemisphere. */
  function Neg(q: Quat): (r: Quat)
    ensures SquaredLength(r) == SquaredLength(q)
    ensures forall p :: Dot(p, r) == -Dot(p, q)
  {
    NegSquare(q.x);
    NegSquare(q.y);
    NegSquare(q.z);
    NegSquare(q.w);
    Quat(-q.x, -q.y, -q.z, -q.w)
  }

  lemma NegSquare(a: real)
    ensures (-a) * (-a) == a * a
  {
  }

  function Scale(q: Quat, f: real): Quat { Quat(q.x * f, q.y * f, q.z * f, q.w * f) }

  /** `q * p`, which computes the Hamilton product `p q`. */
  function Mul(q: Quat, p: Quat): Quat
  {
    Quat( p.x * q.w + p.y * q.z - p.z * q.y + p.w * q.x,
         -p.x * q.z + p.y * q.w + p.z * q.x + p.w * q.y,
          p.x * q.y - p.y * q.x + p.z * q.w + p.w * q.z,
         -p.x * q.x - p.y * q.y - p.z * q.z + p.w * q.w)
  }

  /** The Hamilton product `a b` in scalar/vector form:
      scalar `a.w b.w - a.v . b.v`, vector `a.w b.v + b.w a.v + a.v x b.v`. */
  function Hamilton(a: Quat, b: Quat): Quat
  {
    var v := Add3(Add3(Scale3(b.Vector(), a.w), Scale3(a.Vector(), b.w)), Cross3(a.Vector(), b.Vector()));
    Quat(v.x, v.y, v.z, a.w * b.w - Dot3(a.Vector(), b.Vector()))
  }

  /** The product operator is the Hamilton product with its operands swapped. */
  lemma MulIsReversedHamilton(q: Quat, p: Quat)
    ensures Mul(q, p) == Hamilton(p, q)
  {
  }

  /** `q * v`: rotation of a vector, `u * 2 * (u . v) + v * (s^2 - u . u) + (u x v) * 2 * s`
      where `u` is the vector part and `s` the scalar part, written out per
      coordinate with `d = u . v`, `n = s^2 - u . u` and `k = u x v`. */
  function Rotate(q: Quat, v: Vec3): Vec3
  {
    var u := q.Vector();
    var d, n, k := Dot3(u, v), q.w * q.w - Dot3(u, u), Cross3(u, v);
    Vec3(u.x * 2.0 * d + v.x * n + k.x * 2.0 * q.w,
         u.y * 2.0 * d + v.y * n + k.y * 2.0 * q.w,
         u.z * 2.0 * d + v.z * n + k.z * 2.0 * q.w)
  }

  /** The pure quaternion `(v, 0)`. */
  function Pure(v: Vec3): Quat { Quat(v.x, v.y, v.z, 0.0) }

  /** The rotation formula is the sandwich `conjugate(q) * (v, 0) * q` under the
      reversed product, i.e. the Hamilton product `q (v, 0) q*`. For a unit
      quaternion the conjugate is the inverse, which is the sandwich the source
      describes. */
  lemma RotateIsSandwich(q: Quat, v: Vec3)
    ensures Rotate(q, v) == Mul(Mul(Conjugate(q), Pure(v)), q).Vector()
  {
    var t := Mul(Conjugate(q), Pure(v));
    var u := q.Vector();
    var d, n, k := Dot3(u, v), q.w * q.w - Dot3(u, u), Cross3(u, v);
    SandwichCoordinates(q, v);
    SandwichX(q.x, q.y, q.z, q.w, v.x, v.y, v.z, t, d, n, k.x);
    SandwichY(q.x, q.y, q.z, q.w, v.x, v.y, v.z, t, d, n, k.y);
    SandwichZ(q.x, q.y, q.z, q.w, v.x, v.y, v.z, t, d, n, k.z);
  }

  lemma SandwichCoordinates(q: Quat, v: Vec3)
    ensures var t := Mul(Conjugate(q), Pure(v));
            && HalfSandwich(q.x, q.y, q.z, q.w, v.x, v.y, v.z, t)
            && Mul(t, q).Vector() == Vec3(q.x * t.w + q.y * t.z - q.z * t.y + q.w * t.x,
                                          -q.x * t.z + q.y * t.w + q.z * t.x + q.w * t.y,
                                          q.x * t.y - q.y * t.x + q.z * t.w + q.w * t.z)
  {
    HalfProduct(q.x, q.y, q.z, q.w, v.x, v.y, v.z);
    ProductVector(Mul(Conjugate(q), Pure(v)), q);
  }

  /** The vector part of the product `t * q`, expanded. */
  lemma ProductVector(t: Quat, q: Quat)
    ensures Mul(t, q).Vector() == Vec3(q.x * t.w + q.y * t.z - q.z * t.y + q.w * t.x,
                                       -q.x * t.z + q.y * t.w + q.z * t.x + q.w * t.y,
                                       q.x * t.y - q.y * t.x + q.z * t.w + q.w * t.z)
  {
  }

  lemma HalfProduct(a: real, b: real, c: real, s: real, x: real, y: real, z: real)
    ensures HalfSandwich(a, b, c, s, x, y, z, Mul(Quat(-a, -b, -c, s), Quat(x, y, z, 0.0)))
  {
  }

  /** The first product of the sandwich, `conjugate(q) * (v, 0)`, expanded. */
  predicate HalfSandwich(a: real, b: real, c: real, s: real, x: real, y: real, z: real, t: Quat)
  {
    t == Quat(s * x - c * y + b * z, c * x + s * y - a * z, -b * x + a * y + s * z, a * x + b * y + c * z)
  }

  /** The three coordinates of the full sandwich, expanded; `d` is the dot
      product, `n` the scalar factor and `k` the cross-product coordinate. */
  lemma SandwichX(a: real, b: real, c: real, s: real, x: real, y: real, z: real, t: Quat, d: real, n: real, k: real)
    requires HalfSandwich(a, b, c, s, x, y, z, t)
    requires d == Dot3(Vec3(a, b, c), Vec3(x, y, z)) && n == s * s - Dot3(Vec3(a, b, c), Vec3(a, b, c))
    requires k == Cross3(Vec3(a, b, c), Vec3(x, y, z)).x
    ensures a * t.w + b * t.z - c * t.y + s * t.x == a * 2.0 * d + x * n + k * 2.0 * s
  {
  }

  lemma SandwichY(a: real, b: real, c: real, s: real, x: real, y: real, z: real, t: Quat, d: real, n: real, k: real)
    requires HalfSandwich(a, b, c, s, x, y, z, t)
    requires d == Dot3(Vec3(a, b, c), Vec3(x, y, z)) && n == s * s - Dot3(Vec3(a, b, c), Vec3(a, b, c))
    requires k == Cross3(Vec3(a, b, c), Vec3(x, y, z)).y
    ensures -a * t.z + b * t.w + c * t.x + s * t.y == b * 2.0 * d + y * n + k * 2.0 * s
  {
  }

  lemma SandwichZ(a: real, b: real, c: real, s: real, x: real, y: real, z: real, t: Quat, d: real, n: real, k: real)
    requires HalfSandwich(a, b, c, s, x, y, z, t)
    requires d == Dot3(Vec3(a, b, c), Vec3(x, y, z)) && n == s * s - Dot3(Vec3(a, b, c), Vec3(a, b, c))
    requires k == Cross3(Vec3(a, b, c), Vec3(x, y, z)).z
    ensures a * t.y - b * t.x + c * t.w + s * t.z == c * 2.0 * d + z * n + k * 2.0 * s
  {
  }

  /** Row `i` of the rotation matrix of `q`: `Rotate(q, w)` has `Dot3(RotationRow(q, i), w)`
      as its coordinate `i`. */
  function RotationRow(q: Quat, i: nat): Vec3
    requires i < 3
  {
    var a, b, c, s := q.x, q.y, q.z, q.w;
    var n := s * s - Dot3(q.Vector(), q.Vector());
    if i == 0 then Vec3(2.0 * a * a + n, 2.0 * a * b - 2.0 * c * s, 2.0 * a * c + 2.0 * b * s)
    else if i == 1 then Vec3(2.0 * a * b + 2.0 * c * s, 2.0 * b * b + n, 2.0 * b * c - 2.0 * a * s)
    else Vec3(2.0 * a * c - 2.0 * b * s, 2.0 * b * c + 2.0 * a * s, 2.0 * c * c + n)
  }

  /** The rotation formula is linear in the vector: a matrix with rows
      `RotationRow(q, i)` applied to `w`. */
  lemma RotateByRows(q: Quat, w: Vec3)
    ensures Rotate(q, w) == Vec3(Dot3(RotationRow(q, 0), w), Dot3(RotationRow(q, 1), w), Dot3(RotationRow(q, 2), w))
  {
    var u := q.Vector();
    RowX(q.x, q.y, q.z, q.w, w, Dot3(u, w), q.w * q.w - Dot3(u, u), Cross3(u, w).x);
    RowY(q.x, q.y, q.z, q.w, w, Dot3(u, w), q.w * q.w - Dot3(u, u), Cross3(u, w).y);
    RowZ(q.x, q.y, q.z, q.w, w, Dot3(u, w), q.w * q.w - Dot3(u, u), Cross3(u, w).z);
  }

  /** The coordinates of the rotation formula regrouped by the coordinates of `w`. */
  lemma RowX(a: real, b: real, c: real, s: real, w: Vec3, d: real, n: real, k: real)
    requires d == Dot3(Vec3(a, b, c), w) && k == Cross3(Vec3(a, b, c), w).x
    ensures a * 2.0 * d + w.x * n + k * 2.0 * s
         == Dot3(Vec3(2.0 * a * a + n, 2.0 * a * b - 2.0 * c * s, 2.0 * a * c + 2.0 * b * s), w)
  {}
  lemma RowY(a: real, b: real, c: real, s: real, w: Vec3, d: real, n: real, k: real)
    requires d == Dot3(Vec3(a, b, c), w) && k == Cross3(Vec3(a, b, c), w).y
    ensures b * 2.0 * d + w.y * n + k * 2.0 * s
         == Dot3(Vec3(2.0 * a * b + 2.0 * c * s, 2.0 * b * b + n, 2.0 * b * c - 2.0 * a * s), w)
  {}
  lemma RowZ(a: real, b: real, c: real, s: real, w: Vec3, d: real, n: real, k: real)
    requires d == Dot3(Vec3(a, b, c), w) && k == Cross3(Vec3(a, b, c), w).z
    ensures c * 2.0 * d + w.z * n + k * 2.0 * s
         == Dot3(Vec3(2.0 * a * c - 2.0 * b * s, 2.0 * b * c + 2.0 * a * s, 2.0 * c * c + n), w)
  {}

  /** Rotation commutes with negating the vector. */
  lemma RotateNeg(q: Quat, w: Vec3)
    ensures Rotate(q, Neg3(w)) == Neg3(Rotate(q, w))
  {
    RotateByRows(q, w);
    RotateByRows(q, Neg3(w));
  }

  /** The rotated unit axes are the columns of the rotation matrix. */
  lemma RotateBasis(q: Quat)
    ensures Rotate(q, Vec3(1.0, 0.0, 0.0)) == Vec3(RotationRow(q, 0).x, RotationRow(q, 1).x, RotationRow(q, 2).x)
    ensures Rotate(q, Vec3(0.0, 1.0, 0.0)) == Vec3(RotationRow(q, 0).y, RotationRow(q, 1).y, RotationRow(q, 2).y)
    ensures Rotate(q, Vec3(0.0, 0.0, 1.0)) == Vec3(RotationRow(q, 0).z, RotationRow(q, 1).z, RotationRow(q, 2).z)
  {
    RotateByRows(q, Vec3(1.0, 0.0, 0.0));
    RotateByRows(q, Vec3(0.0, 1.0, 0.0));
    RotateByRows(q, Vec3(0.0, 0.0, 1.0));
  }
  /** The identity quaternion leaves every vector in place. */
  lemma RotateIdentity(v: Vec3)
    ensures Rotate(Identity, v) == v
  {
    RotateByUnit(Identity, v);
  }

  /** A quaternion with no vector part and unit scalar part fixes every vector. */
  lemma RotateByUnit(q: Quat, v: Vec3)
    requires q.Vector() == Zero3 && q.w == 1.0
    ensures Rotate(q, v) == v
  {
    var u := q.Vector();
    CrossZeroLeft(v);
    UnitScalarPart(q.w);
    FixedCoordinate(q.x, q.w, Dot3(u, v), v.x, q.w * q.w - Dot3(u, u), Cross3(u, v).x);
    FixedCoordinate(q.y, q.w, Dot3(u, v), v.y, q.w * q.w - Dot3(u, u), Cross3(u, v).y);
    FixedCoordinate(q.z, q.w, Dot3(u, v), v.z, q.w * q.w - Dot3(u, u), Cross3(u, v).z);
  }

  lemma CrossZeroLeft(v: Vec3)
    ensures Cross3(Zero3, v) == Zero3
  {}

  lemma UnitScalarPart(s: real)
    requires s == 1.0
    ensures s * s - Dot3(Zero3, Zero3) == 1.0
  {}

  lemma FixedCoordinate(c: real, s: real, d: real, x: real, n: real, k: real)
    requires c == 0.0 && n == 1.0 && k == 0.0
    ensures c * 2.0 * d + x * n + k * 2.0 * s == x
  {}

  /** Every quaternion maps the zero vector to itself. */
  lemma RotateZero(q: Quat)
    ensures Rotate(q, Zero3) == Zero3
  {
    var u := q.Vector();
    assert Dot3(u, Zero3) == 0.0;
    assert Cross3(u, Zero3) == Zero3;
  }

  function Dot(a: Quat, b: Quat): real { a.x * b.x + a.y * b.y + a.z * b.z + a.w * b.w }

  function SquaredLength(q: Quat): (r: real)
    ensures r >= 0.0
    ensures r == Dot(q, q)
  {
    q.x * q.x + q.y * q.y + q.z * q.z + q.w * q.w
  }

  /** The conjugate: the vector part negated. */
  function Conjugate(q: Quat): Quat
  {
    Quat(-q.x, -q.y, -q.z, q.w)
  }

  /** The conjugate keeps the length, and its product with `q` on either side
      is the real quaternion `|q|^2`. */
  lemma ConjugateProduct(q: Quat)
    ensures SquaredLength(Conjugate(q)) == SquaredLength(q)
    ensures Mul(Conjugate(q), q) == Quat(0.0, 0.0, 0.0, SquaredLength(q))
    ensures Mul(q, Conjugate(q)) == Quat(0.0, 0.0, 0.0, SquaredLength(q))
  {
  }

  /** The quaternion scaled to unit length, or the identity when its squared
      length is below `QUAT_EPSILON`. */
  function Normalized(q: Quat, rsqrt: real -> real): (r: Quat)
    ensures SquaredLength(q) < QuatEpsilon ==> r == Identity
  {
    var sq := SquaredLength(q);
    if sq < QuatEpsilon then Identity else Scale(q, rsqrt(sq))
  }

  /** `rsqrt` is the reciprocal square root on the positive reals. */
  ghost predicate IsRsqrt(rsqrt: real -> real)
  {
    forall a: real :: a > 0.0 ==> rsqrt(a) > 0.0 && rsqrt(a) * rsqrt(a) * a == 1.0
  }

  /** With a faithful reciprocal square root, normalising a quaternion that
      passes the guard yields unit length. */
  lemma NormalizedIsUnit(q: Quat, rsqrt: real -> real)
    requires IsRsqrt(rsqrt)
    requires SquaredLength(q) >= QuatEpsilon
    ensures SquaredLength(Normalized(q, rsqrt)) == 1.0
  {
    var sq := SquaredLength(q);
    var k := rsqrt(sq);
    assert k * k * sq == 1.0;
    assert SquaredLength(Scale(q, k)) == k * k * sq;
  }

  /** A unit quaternion is left unchanged by normalisation. */
  lemma NormalizedOfUnit(q: Quat, rsqrt: real -> real)
    requires IsRsqrt(rsqrt)
    requires SquaredLength(q) == 1.0
    ensures Normalized(q, rsqrt) == q
  {
    var k := rsqrt(1.0);
    assert k > 0.0 && k * k == 1.0;
    assert (k - 1.0) * (k + 1.0) == 0.0;
    ZeroFactor(k - 1.0, k + 1.0);
  }

  /** The multiplicative inverse `conjugate(q) / |q|^2`, or the identity when
      the squared length is below `QUAT_EPSILON`. */
  function Inverse(q: Quat): (r: Quat)
    ensures SquaredLength(q) < QuatEpsilon ==> r == Identity
    ensures SquaredLength(q) >= QuatEpsilon ==> r == Scale(Conjugate(q), 1.0 / SquaredLength(q))
  {
    var sq := SquaredLength(q);
    if sq < QuatEpsilon then Identity
    else Quat(-q.x / sq, -q.y / sq, -q.z / sq, q.w / sq)
  }

  /** Outside the guard, `Inverse` really inverts: both products give the
      identity. */
  lemma InverseIsInverse(q: Quat)
    requires SquaredLength(q) >= QuatEpsilon
    ensures Mul(q, Inverse(q)) == Identity
    ensures Mul(Inverse(q), q) == Identity
  {
    var sq := SquaredLength(q);
    var i := Inverse(q);
    assert i == Scale(Conjugate(q), 1.0 / sq);
    var m := Mul(q, i);
    var n := Mul(i, q);
    assert m.w == sq * (1.0 / sq);
    assert n.w == sq * (1.0 / sq);
  }

  /** For a unit quaternion the inverse is the conjugate, so the rotation is
      the reference sandwich `inverse(q) * (v, 0) * q`. */
  lemma RotateIsInverseSandwich(q: Quat, v: Vec3)
    requires SquaredLength(q) == 1.0
    ensures Rotate(q, v) == Mul(Mul(Inverse(q), Pure(v)), q).Vector()
  {
    assert Inverse(q) == Conjugate(q);
    RotateIsSandwich(q, v);
  }

  /** The identity is neutral on both sides of the product. */
  lemma IdentityNeutral(q: Quat)
    ensures Mul(q, Identity) == q
    ensures Mul(Identity, q) == q
  {
  }

  /** `mix(s, e, t) = s (1 - t) + e t`, without normalisation. */
  function Mix(s: Quat, e: Quat, t: real): (r: Quat)
    ensures t == 0.0 ==> r == s
    ensures t == 1.0 ==> r == e
  {
    Add(Scale(s, 1.0 - t), Scale(e, t))
  }

  /** `nlerp(s, e, t) = normalized(s + (e - s) t)`. */
  function Nlerp(s: Quat, e: Quat, t: real, rsqrt: real -> real): (r: Quat)
    ensures r == Normalized(Mix(s, e, t), rsqrt)
  {
    var m := Add(s, Scale(Sub(e, s), t));
    OffsetIsMix(s.x, e.x, t);
    OffsetIsMix(s.y, e.y, t);
    OffsetIsMix(s.z, e.z, t);
    OffsetIsMix(s.w, e.w, t);
    assert m == Mix(s, e, t);
    Normalized(m, rsqrt)
  }

  /** The two ways of writing a linear blend agree: `a + (b - a) t = a (1 - t) + b t`. */
  lemma OffsetIsMix(a: real, b: real, t: real)
    ensures a + (b - a) * t == a * (1.0 - t) + b * t
  {
  }

  /** For unit endpoints `nlerp` starts at `s` and ends at `e`. */
  lemma NlerpEndpoints(s: Quat, e: Quat, rsqrt: real -> real)
    requires IsRsqrt(rsqrt)
    requires SquaredLength(s) == 1.0 && SquaredLength(e) == 1.0
    ensures Nlerp(s, e, 0.0, rsqrt) == s
    ensures Nlerp(s, e, 1.0, rsqrt) == e
  {
    NormalizedOfUnit(s, rsqrt);
    NormalizedOfUnit(e, rsqrt);
  }

  /** `operator==`: every component within `QUAT_EPSILON`. */
  predicate ApproxEqual(a: Quat, b: Quat)
  {
    Abs(a.x - b.x) <= QuatEpsilon && Abs(a.y - b.y) <= QuatEpsilon &&
    Abs(a.z - b.z) <= QuatEpsilon && Abs(a.w - b.w) <= QuatEpsilon
  }

  /** `sameOrientation`: componentwise close, or componentwise close to each
      other's negation (`|a + b|` small). */
  predicate SameOrientation(a: Quat, b: Quat)
  {
    ApproxEqual(a, b) ||
    (Abs(a.x + b.x) <= QuatEpsilon && Abs(a.y + b.y) <= QuatEpsilon &&
     Abs(a.z + b.z) <= QuatEpsilon && Abs(a.w + b.w) <= QuatEpsilon)
  }

  /** `sameOrientation(a, b)` holds exactly when `a == b` or `a == -b` in the
      approximate sense; so a quaternion and its negation always agree. */
  lemma SameOrientationMeaning(a: Quat, b: Quat)
    ensures SameOrientation(a, b) <==> ApproxEqual(a, b) || ApproxEqual(a, Neg(b))
    ensures SameOrientation(a, Neg(a)) && SameOrientation(a, a)
    ensures SameOrientation(a, b) <==> SameOrientation(b, a)
  {
  }
}
