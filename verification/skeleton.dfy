/** `Skeleton`: a rest pose, a bind pose, the joint names, and the inverse
    bind pose derived from the bind pose. `glm::inverse` of a 4x4 matrix is
    supplied by the caller as `invert`. */
module Skeletons {
  import opened Vectors
  import opened Transforms
  import opened Poses

  datatype Skeleton = Skeleton(
    restPose: Pose,
    bindPose: Pose,
    invBindPose: seq<Mat4>,
    jointNames: seq<string>)

  /** What `GetGlobalTransform` needs of the bind pose to terminate and stay
      in range. */
  predicate BindPoseReady(bind: Pose)
  {
    WellFormed(bind) && Acyclic(bind)
  }

  /** The inverse of the matrix of joint `j`'s global bind transform. */
  function InverseBindMatrix(bind: Pose, j: nat, invert: Mat4 -> Mat4): Mat4
    requires BindPoseReady(bind) && j < JointCount(bind)
  {
    invert(ToMat4(GlobalTransform(bind, j)))
  }

  /** The cache holds one entry per bind-pose joint, each the inverse of
      that joint's global bind matrix. */
  predicate CacheCurrent(s: Skeleton, invert: Mat4 -> Mat4)
  {
    && BindPoseReady(s.bindPose)
    && |s.invBindPose| == JointCount(s.bindPose)
    && forall j :: 0 <= j < |s.invBindPose| ==> s.invBindPose[j] == InverseBindMatrix(s.bindPose, j, invert)
  }

  /** `UpdateInverseBindPose`: the cache is resized to the bind pose's joint
      count and every entry recomputed; the poses and names are untouched. */
  method UpdateInverseBindPose(s: Skeleton, invert: Mat4 -> Mat4) returns (r: Skeleton)
    requires BindPoseReady(s.bindPose)
    ensures r.restPose == s.restPose && r.bindPose == s.bindPose && r.jointNames == s.jointNames
    ensures |r.invBindPose| == JointCount(s.bindPose)
    ensures forall j :: 0 <= j < |r.invBindPose| ==>
              r.invBindPose[j] == invert(ToMat4(GlobalTransform(s.bindPose, j)))
  {
    var n := JointCount(s.bindPose);
    var inv: seq<Mat4> := [];
    var j := 0;
    while j < n
      invariant 0 <= j <= n
      invariant |inv| == j
      invariant forall i :: 0 <= i < j ==> inv[i] == InverseBindMatrix(s.bindPose, i, invert)
    {
      inv := inv + [InverseBindMatrix(s.bindPose, j, invert)];
      j := j + 1;
    }
    r := s.(invBindPose := inv);
  }

  /** The constructor and `Set`: store the three fields, then rebuild the
      cache, so whatever the skeleton held before leaves no trace and the
      cache matches the new bind pose. */
  method Set(rest: Pose, bind: Pose, names: seq<string>, invert: Mat4 -> Mat4) returns (s: Skeleton)
    requires BindPoseReady(bind)
    ensures s.restPose == rest && s.bindPose == bind && s.jointNames == names
    ensures CacheCurrent(s, invert)
  {
    s := UpdateInverseBindPose(Skeleton(rest, bind, [], names), invert);
  }

  /** A root joint's inverse bind matrix inverts its own local matrix. */
  lemma RootInverseBind(s: Skeleton, j: nat, invert: Mat4 -> Mat4)
    requires CacheCurrent(s, invert) && j < |s.invBindPose|
    requires s.bindPose.parents[j] < 0
    ensures s.invBindPose[j] == invert(ToMat4(s.bindPose.locals[j]))
  {
  }
}
