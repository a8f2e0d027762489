/** The rigid-plus-scale `Transform` (position, rotation, scale) and the
    operations that compose, invert, blend and flatten it. */
module Transforms {
  import opened Numeric
  import opened Vectors
  import opened Quaternions

  datatype Transform = Transform(position: Vec3, rotation: Quat, scale: Vec3)

  /** `TRANSFORM_EPSILON`, the source's `0.000001f`. */
  const TransformEpsilon: real := 0.000001

  /** What the default constructor builds: no translation, the identity
      rotation and unit scale. */
  const IdentityTransform := Transform(Zero3, Identity, One3)

  /** `transformVector`: scale, then rotate; the position plays no part. */
  function TransformVector(t: Transform, v: Vec3): Vec3
  {
    Rotate(t.rotation, Mul3(t.scale, v))
  }

  /** `transformPoint`: scale, rotate, then translate. */
  function TransformPoint(t: Transform, p: Vec3): (r: Vec3)
    ensures r == Add3(t.position, TransformVector(t, p))
  {
    Add3(t.position, Rotate(t.rotation, Mul3(t.scale, p)))
  }

  /** `combine(parent, child)`: the child expressed in the parent's space.
      Scales multiply, the rotations compose child-first under the reversed
      product, and the child's position is carried through the parent. */
  function Combine(parent: Transform, child: Transform): (r: Transform)
    ensures r.position == TransformPoint(parent, child.position)
    ensures r.rotation == Hamilton(parent.rotation, child.rotation)
    ensures r.scale == Mul3(parent.scale, child.scale)
  {
    MulIsReversedHamilton(child.rotation, parent.rotation);
    Transform(Add3(parent.position, Rotate(parent.rotation, Mul3(parent.scale, child.position))),
              Mul(child.rotation, parent.rotation),
              Mul3(parent.scale, child.scale))
  }

  /** The identity transform is neutral on both sides of `Combine`. */
  lemma CombineIdentity(t: Transform)
    ensures Combine(IdentityTransform, t) == t
    ensures Combine(t, IdentityTransform) == t
  {
    CombineIdentityParent(t);
    CombineIdentityChild(t);
  }

  lemma CombineIdentityParent(t: Transform)
    ensures Combine(IdentityTransform, t) == t
  {
    IdentityNeutral(t.rotation);
    RotateIdentity(Mul3(One3, t.position));
  }

  lemma CombineIdentityChild(t: Transform)
    ensures Combine(t, IdentityTransform) == t
  {
    IdentityNeutral(t.rotation);
    RotateZero(t.rotation);
  }

  /** One scale component of the inverse: `0` when it is within
      `TRANSFORM_EPSILON` of zero, its reciprocal otherwise. */
  function InverseScale(s: real): (r: real)
    ensures Abs(s) < TransformEpsilon ==> r == 0.0
    ensures Abs(s) >= TransformEpsilon ==> r * s == 1.0
  {
    if Abs(s) < TransformEpsilon then 0.0 else 1.0 / s
  }

  /** `inverse(t)`: inverse scale and rotation, and the negated position
      brought into the inverted space. */
  function Inverse(t: Transform): (r: Transform)
    ensures r.scale == Vec3(InverseScale(t.scale.x), InverseScale(t.scale.y), InverseScale(t.scale.z))
    ensures r.rotation == Quaternions.Inverse(t.rotation)
    ensures r.position == Rotate(r.rotation, Mul3(r.scale, Neg3(t.position)))
  {
    var s := Vec3(InverseScale(t.scale.x), InverseScale(t.scale.y), InverseScale(t.scale.z));
    var q := Quaternions.Inverse(t.rotation);
    Transform(Rotate(q, Mul3(s, Neg3(t.position))), q, s)
  }

  /** When neither the rotation nor any scale component is degenerate, the
      inverse undoes the transform: `combine(inverse(t), t)` is the identity. */
  lemma InverseCombineIdentity(t: Transform)
    requires SquaredLength(t.rotation) >= QuatEpsilon
    requires Abs(t.scale.x) >= TransformEpsilon && Abs(t.scale.y) >= TransformEpsilon && Abs(t.scale.z) >= TransformEpsilon
    ensures Combine(Inverse(t), t) == IdentityTransform
  {
    var c := Combine(Inverse(t), t);
    InverseCombinePosition(t);
    InverseCombineRotation(t);
    InverseCombineScale(t);
    assert c == Transform(c.position, c.rotation, c.scale);
  }

  /** The rotations cancel whenever the rotation is not degenerate. */
  lemma InverseCombineRotation(t: Transform)
    requires SquaredLength(t.rotation) >= QuatEpsilon
    ensures Combine(Inverse(t), t).rotation == Identity
  {
    InverseIsInverse(t.rotation);
  }

  /** The scales cancel whenever no component is degenerate. */
  lemma InverseCombineScale(t: Transform)
    requires Abs(t.scale.x) >= TransformEpsilon && Abs(t.scale.y) >= TransformEpsilon && Abs(t.scale.z) >= TransformEpsilon
    ensures Combine(Inverse(t), t).scale == One3
  {
    var i := Inverse(t);
    InverseScaleCancels(t.scale);
    assert i.scale == Vec3(InverseScale(t.scale.x), InverseScale(t.scale.y), InverseScale(t.scale.z));
  }

  lemma InverseScaleCancels(s: Vec3)
    requires Abs(s.x) >= TransformEpsilon && Abs(s.y) >= TransformEpsilon && Abs(s.z) >= TransformEpsilon
    ensures Mul3(Vec3(InverseScale(s.x), InverseScale(s.y), InverseScale(s.z)), s) == One3
  {
  }

  /** The translations always cancel, whatever the scale and rotation. */
  lemma InverseCombinePosition(t: Transform)
    ensures Combine(Inverse(t), t).position == Zero3
  {
    var i := Inverse(t);
    var w := Mul3(i.scale, t.position);
    Mul3Neg(i.scale, t.position);
    RotateNeg(i.rotation, w);
  }

  /** `mix(a, b, t)`: positions and scales are lerped; the rotations are
      nlerped after `b`'s rotation is negated when it lies in the opposite
      hemisphere from `a`'s (`dot < 0`). */
  function Mix(a: Transform, b: Transform, t: real, rsqrt: real -> real): (r: Transform)
    ensures r.position == Lerp3(a.position, b.position, t)
    ensures r.scale == Lerp3(a.scale, b.scale, t)
  {
    var bRotation := if Dot(a.rotation, b.rotation) < 0.0 then Neg(b.rotation) else b.rotation;
    Transform(Lerp3(a.position, b.position, t), Nlerp(a.rotation, bRotation, t, rsqrt), Lerp3(a.scale, b.scale, t))
  }

  /** At `t = 0` the blend of unit rotations is `a`. */
  lemma MixAtStart(a: Transform, b: Transform, rsqrt: real -> real)
    requires IsRsqrt(rsqrt)
    requires SquaredLength(a.rotation) == 1.0 && SquaredLength(b.rotation) == 1.0
    ensures Mix(a, b, 0.0, rsqrt) == a
  {
    if Dot(a.rotation, b.rotation) < 0.0 {
      NlerpEndpoints(a.rotation, Neg(b.rotation), rsqrt);
    } else {
      NlerpEndpoints(a.rotation, b.rotation, rsqrt);
    }
  }

  /** At `t = 1` the blend of unit rotations is `b`, with `b`'s rotation
      negated when the neighbourhood check flipped it. */
  lemma MixAtEnd(a: Transform, b: Transform, rsqrt: real -> real)
    requires IsRsqrt(rsqrt)
    requires SquaredLength(a.rotation) == 1.0 && SquaredLength(b.rotation) == 1.0
    ensures Mix(a, b, 1.0, rsqrt) == if Dot(a.rotation, b.rotation) < 0.0 then b.(rotation := Neg(b.rotation)) else b
  {
    if Dot(a.rotation, b.rotation) < 0.0 {
      NlerpEndpoints(a.rotation, Neg(b.rotation), rsqrt);
    } else {
      NlerpEndpoints(a.rotation, b.rotation, rsqrt);
    }
  }

  /** `transformToMat4`: the scaled rotated basis vectors in the first three
      columns and the position in the fourth. */
  function ToMat4(t: Transform): (r: Mat4)
    ensures r.c3 == Point(t.position)
    ensures Row(r, 3) == Vec4(0.0, 0.0, 0.0, 1.0)
  {
    var right := Scale3(Rotate(t.rotation, Vec3(1.0, 0.0, 0.0)), t.scale.x);
    var up := Scale3(Rotate(t.rotation, Vec3(0.0, 1.0, 0.0)), t.scale.y);
    var fwd := Scale3(Rotate(t.rotation, Vec3(0.0, 0.0, 1.0)), t.scale.z);
    Mat4(Direction(right), Direction(up), Direction(fwd), Point(t.position))
  }

  /** The matrix does what the transform does: applied to a point it gives
      `transformPoint`, applied to a direction `transformVector`. */
  lemma ToMat4Point(t: Transform, p: Vec3)
    ensures MulVec(ToMat4(t), Point(p)) == Point(TransformPoint(t, p))
    ensures MulVec(ToMat4(t), Direction(p)) == Direction(TransformVector(t, p))
  {
    var q, s := t.rotation, t.scale;
    RotateByRows(q, Mul3(s, p));
    RotateBasis(q);
    var r0, r1, r2 := RotationRow(q, 0), RotationRow(q, 1), RotationRow(q, 2);
    MatrixCoordinate(r0.x, r0.y, r0.z, s.x, s.y, s.z, p.x, p.y, p.z, t.position.x);
    MatrixCoordinate(r1.x, r1.y, r1.z, s.x, s.y, s.z, p.x, p.y, p.z, t.position.y);
    MatrixCoordinate(r2.x, r2.y, r2.z, s.x, s.y, s.z, p.x, p.y, p.z, t.position.z);
  }

  /** One coordinate of a matrix column sum, regrouped as a row dot product. */
  lemma MatrixCoordinate(a: real, b: real, c: real, sx: real, sy: real, sz: real, px: real, py: real, pz: real, o: real)
    ensures ((a * sx) * px + (b * sy) * py) + ((c * sz) * pz + o * 1.0) == o + (a * (sx * px) + b * (sy * py) + c * (sz * pz))
    ensures ((a * sx) * px + (b * sy) * py) + ((c * sz) * pz + o * 0.0) == a * (sx * px) + b * (sy * py) + c * (sz * pz)
  {
  }

  /** `operator==`: exact position and scale, approximate rotation. */
  predicate Equal(a: Transform, b: Transform)
  {
    a.position == b.position && ApproxEqual(a.rotation, b.rotation) && a.scale == b.scale
  }

  /** Every transform is `==` to itself: the rotation comparison tolerates
      its own rounding. */
  lemma EqualReflexive(t: Transform)
    ensures Equal(t, t)
  {
  }

  /** `operator!=` is the negation of `operator==`. */
  predicate NotEqual(a: Transform, b: Transform)
  {
    !Equal(a, b)
  }
}
