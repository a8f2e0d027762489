/** `Pose`: the local transforms of a skeleton's joints and, in a parallel
    sequence, each joint's parent index (negative for a root). */
module Poses {
  import opened Vectors
  import opened Transforms

  datatype Pose = Pose(locals: seq<Transform>, parents: seq<int>)

  /** The class keeps its two vectors the same length. */
  predicate WellFormed(p: Pose)
  {
    |p.locals| == |p.parents|
  }

  function JointCount(p: Pose): nat
  {
    |p.locals|
  }

  /** The empty pose of the default constructor. */
  const EmptyPose := Pose([], [])

  /** `SetNumberOfJoints(n)`: both vectors are resized; existing joints are
      kept, new ones get the default transform and parent 0 (what
      `std::vector::resize` value-initialises an `int` to). */
  function SetNumberOfJoints(p: Pose, n: nat): (r: Pose)
    ensures WellFormed(r) && JointCount(r) == n
    ensures forall j :: 0 <= j < n && j < |p.locals| ==> r.locals[j] == p.locals[j]
    ensures forall j :: 0 <= j < n && j < |p.parents| ==> r.parents[j] == p.parents[j]
    ensures forall j :: |p.locals| <= j < n ==> r.locals[j] == IdentityTransform
    ensures forall j :: |p.parents| <= j < n ==> r.parents[j] == 0
  {
    Pose(seq(n, j requires 0 <= j < n => if j < |p.locals| then p.locals[j] else IdentityTransform),
         seq(n, j requires 0 <= j < n => if j < |p.parents| then p.parents[j] else 0))
  }

  /** `Pose(numJoints)`: the sized constructor. */
  function NewPose(n: nat): (r: Pose)
    ensures WellFormed(r) && JointCount(r) == n
    ensures forall j :: 0 <= j < n ==> r.locals[j] == IdentityTransform && r.parents[j] == 0
  {
    SetNumberOfJoints(EmptyPose, n)
  }

  /** `SetLocalTransform(j, t)`: only joint `j`'s transform changes. */
  function SetLocalTransform(p: Pose, j: nat, t: Transform): (r: Pose)
    requires j < |p.locals|
    ensures |r.locals| == |p.locals| && r.parents == p.parents
    ensures r.locals[j] == t
    ensures forall i :: 0 <= i < |p.locals| && i != j ==> r.locals[i] == p.locals[i]
  {
    p.(locals := p.locals[j := t])
  }

  /** `SetParent(j, parent)`: only joint `j`'s parent changes. */
  function SetParent(p: Pose, j: nat, parent: int): (r: Pose)
    requires j < |p.parents|
    ensures |r.parents| == |p.parents| && r.locals == p.locals
    ensures r.parents[j] == parent
    ensures forall i :: 0 <= i < |p.parents| && i != j ==> r.parents[i] == p.parents[i]
  {
    p.(parents := p.parents[j := parent])
  }

  /** `operator==`: same sizes, equal parents, and local transforms equal in
      the sense of `Transform`'s `operator==` (rotations only approximately). */
  predicate Equal(a: Pose, b: Pose)
    requires WellFormed(a) && WellFormed(b)
  {
    && |a.locals| == |b.locals|
    && |a.parents| == |b.parents|
    && forall j :: 0 <= j < |a.locals| ==> a.parents[j] == b.parents[j] && Transforms.Equal(a.locals[j], b.locals[j])
  }

  /** `operator=`: both vectors are resized to the source's size and copied
      over element by element. */
  function Assign(target: Pose, source: Pose): (r: Pose)
    requires WellFormed(source)
  {
    var sized := SetNumberOfJoints(target, JointCount(source));
    Pose(seq(|sized.locals|, j requires 0 <= j < |sized.locals| => source.locals[j]),
         seq(|sized.parents|, j requires 0 <= j < |sized.parents| => source.parents[j]))
  }

  /** After assignment the target is `==` to the source, whatever it held. */
  lemma AssignIsEqual(target: Pose, source: Pose)
    requires WellFormed(source)
    ensures WellFormed(Assign(target, source))
    ensures Assign(target, source) == source
    ensures Equal(Assign(target, source), source)
  {
    EqualReflexive(source);
  }

  /** `==` is reflexive and symmetric, and exact equality implies it. */
  lemma EqualReflexive(a: Pose)
    requires WellFormed(a)
    ensures Equal(a, a)
  {
    forall j | 0 <= j < |a.locals|
      ensures Transforms.Equal(a.locals[j], a.locals[j])
    {
      Transforms.EqualReflexive(a.locals[j]);
    }
  }

  lemma EqualSymmetric(a: Pose, b: Pose)
    requires WellFormed(a) && WellFormed(b)
    ensures Equal(a, b) <==> Equal(b, a)
  {
  }

  /** Mismatched sizes are never equal. */
  lemma EqualNeedsSameSize(a: Pose, b: Pose)
    requires WellFormed(a) && WellFormed(b)
    requires JointCount(a) != JointCount(b)
    ensures !Equal(a, b)
  {
  }

  // ----- the parent chain -----

  /** Following parents from joint `j` reaches a root (a negative parent)
      within `steps` hops, through in-range joints only. */
  predicate ReachesRoot(p: Pose, j: nat, steps: nat)
    requires j < |p.parents|
    decreases steps
  {
    p.parents[j] < 0
    || (p.parents[j] < |p.parents| && steps > 0 && ReachesRoot(p, p.parents[j], steps - 1))
  }

  /** Every joint's chain ends at a root: parents are in range and acyclic.
      (The first conjunct follows from the second; it is stated so that
      contracts can index by a parent directly.) */
  predicate Acyclic(p: Pose)
  {
    && (forall j :: 0 <= j < |p.parents| ==> p.parents[j] < |p.parents|)
    && (forall j :: 0 <= j < |p.parents| ==> ReachesRoot(p, j, |p.parents|))
  }

  /** More hops never hurt. */
  lemma {:induction false} ReachesRootMonotone(p: Pose, j: nat, steps: nat, more: nat)
    requires j < |p.parents| && ReachesRoot(p, j, steps) && steps <= more
    ensures ReachesRoot(p, j, more)
    decreases steps
  {
    if p.parents[j] >= 0 {
      ReachesRootMonotone(p, p.parents[j], steps - 1, more - 1);
    }
  }

  /** When parents precede their children, joint `j` reaches a root within
      `j` hops, since every hop lowers the index. */
  lemma {:induction false} ParentsBeforeChildrenReach(p: Pose, j: nat)
    requires forall i :: 0 <= i < |p.parents| ==> p.parents[i] < i
    requires j < |p.parents|
    ensures ReachesRoot(p, j, j)
    decreases j
  {
    if p.parents[j] >= 0 {
      var q := p.parents[j];
      ParentsBeforeChildrenReach(p, q);
      ReachesRootMonotone(p, q, q, j - 1);
    }
  }

  /** Parents that always precede their children make the pose acyclic. */
  lemma ParentsBeforeChildrenAcyclic(p: Pose)
    requires forall i :: 0 <= i < |p.parents| ==> p.parents[i] < i
    ensures Acyclic(p)
  {
    forall j | 0 <= j < |p.parents|
      ensures ReachesRoot(p, j, |p.parents|)
    {
      ParentsBeforeChildrenReach(p, j);
      ReachesRootMonotone(p, j, j, |p.parents|);
    }
  }

  /** The loop of `GetGlobalTransform`: from joint `j` with the transform
      accumulated so far, combine each ancestor's local transform on the
      parent side until a root is passed. */
  function Walk(p: Pose, j: nat, acc: Transform, steps: nat): Transform
    requires WellFormed(p) && j < |p.parents| && ReachesRoot(p, j, steps)
    decreases steps
  {
    if p.parents[j] < 0 then acc
    else Walk(p, p.parents[j], Combine(p.locals[p.parents[j]], acc), steps - 1)
  }

  /** `GetGlobalTransform(j)`. */
  function GlobalTransform(p: Pose, j: nat): (r: Transform)
    requires WellFormed(p) && j < |p.parents| && ReachesRoot(p, j, |p.parents|)
    ensures p.parents[j] < 0 ==> r == p.locals[j]
  {
    Walk(p, j, p.locals[j], |p.parents|)
  }

  /** The ancestors of `j`, nearest first, ending at the root. */
  function Ancestors(p: Pose, j: nat, steps: nat): (r: seq<nat>)
    requires j < |p.parents| && ReachesRoot(p, j, steps)
    ensures forall i :: 0 <= i < |r| ==> r[i] < |p.parents|
    ensures |r| <= steps
    decreases steps
  {
    if p.parents[j] < 0 then []
    else [p.parents[j] as nat] + Ancestors(p, p.parents[j], steps - 1)
  }

  /** Combines the local transforms of `path`, in order, onto `acc`, each
      on the parent side. */
  function CombineAlong(p: Pose, path: seq<nat>, acc: Transform): Transform
    requires WellFormed(p)
    requires forall i :: 0 <= i < |path| ==> path[i] < |p.locals|
    decreases |path|
  {
    if |path| == 0 then acc else CombineAlong(p, path[1..], Combine(p.locals[path[0]], acc))
  }

  /** The walk is the local transform combined with every ancestor's, from
      the parent up to the root. */
  lemma {:induction false} WalkIsCombineAlong(p: Pose, j: nat, acc: Transform, steps: nat)
    requires WellFormed(p) && j < |p.parents| && ReachesRoot(p, j, steps)
    ensures Walk(p, j, acc, steps) == CombineAlong(p, Ancestors(p, j, steps), acc)
    decreases steps
  {
    if p.parents[j] >= 0 {
      var q := p.parents[j];
      WalkIsCombineAlong(p, q, Combine(p.locals[q], acc), steps - 1);
      var path := Ancestors(p, j, steps);
      assert path[1..] == Ancestors(p, q, steps - 1);
    }
  }

  /** The global transform is the joint's local transform with the local
      transforms of its ancestors combined onto it, nearest first. */
  lemma GlobalIsCombineAlong(p: Pose, j: nat)
    requires WellFormed(p) && j < |p.parents| && ReachesRoot(p, j, |p.parents|)
    ensures GlobalTransform(p, j) == CombineAlong(p, Ancestors(p, j, |p.parents|), p.locals[j])
  {
    WalkIsCombineAlong(p, j, p.locals[j], |p.parents|);
  }

  /** The walk does not depend on the hop budget it is given. */
  lemma {:induction false} WalkStepsIrrelevant(p: Pose, j: nat, acc: Transform, s1: nat, s2: nat)
    requires WellFormed(p) && j < |p.parents| && ReachesRoot(p, j, s1) && ReachesRoot(p, j, s2)
    ensures Walk(p, j, acc, s1) == Walk(p, j, acc, s2)
    decreases s1
  {
    if p.parents[j] >= 0 {
      var q := p.parents[j];
      WalkStepsIrrelevant(p, q, Combine(p.locals[q], acc), s1 - 1, s2 - 1);
    }
  }

  /** The global transform of a non-root continues the walk at its parent,
      with its own local transform combined under the parent's. */
  lemma GlobalOfChild(p: Pose, j: nat)
    requires WellFormed(p) && Acyclic(p) && j < |p.parents| && p.parents[j] >= 0
    ensures var q := p.parents[j] as nat;
            q < |p.parents| &&
            GlobalTransform(p, j) == Walk(p, q, Combine(p.locals[q], p.locals[j]), |p.parents|)
  {
    var q := p.parents[j];
    assert ReachesRoot(p, j, |p.parents|);
    WalkStepsIrrelevant(p, q, Combine(p.locals[q], p.locals[j]), |p.parents| - 1, |p.parents|);
  }

  /** A joint whose ancestors all have the identity local transform has its
      own local transform as its global one. */
  lemma {:induction false} WalkThroughIdentities(p: Pose, j: nat, acc: Transform, steps: nat)
    requires WellFormed(p) && j < |p.parents| && ReachesRoot(p, j, steps)
    requires forall i :: 0 <= i < |p.locals| ==> p.locals[i] == IdentityTransform
    ensures Walk(p, j, acc, steps) == acc
    decreases steps
  {
    if p.parents[j] >= 0 {
      var q := p.parents[j];
      CombineIdentity(acc);
      WalkThroughIdentities(p, q, Combine(p.locals[q], acc), steps - 1);
    }
  }

  // ----- the matrix palette -----

  /** The length of the prefix on which every joint's parent index is at
      most its own: where `GetMatrixPalette`'s single pass applies. */
  function FastPrefix(p: Pose): (r: nat)
    ensures r <= |p.parents|
    ensures forall j :: 0 <= j < r ==> p.parents[j] <= j
    ensures r < |p.parents| ==> p.parents[r] > r
  {
    FastPrefixFrom(p, 0)
  }

  function FastPrefixFrom(p: Pose, j: nat): (r: nat)
    requires j <= |p.parents|
    requires forall i :: 0 <= i < j ==> p.parents[i] <= i
    ensures j <= r <= |p.parents|
    ensures forall i :: 0 <= i < r ==> p.parents[i] <= i
    ensures r < |p.parents| ==> p.parents[r] > r
    decreases |p.parents| - j
  {
    if j == |p.parents| || p.parents[j] > j then j else FastPrefixFrom(p, j + 1)
  }

  /** The fast path's entry for joint `j`, given the entries computed so far. */
  function FastEntry(p: Pose, palette: seq<Mat4>, j: nat): Mat4
    requires WellFormed(p) && j < |p.parents| && p.parents[j] < |palette|
  {
    if p.parents[j] < 0 then ToMat4(p.locals[j])
    else MulMat(palette[p.parents[j]], ToMat4(p.locals[j]))
  }

  /** `GetMatrixPalette`. Joints before the first whose parent index exceeds
      its own take the single pass: a root's matrix is its local transform's,
      a child's is its parent's palette entry times its own local matrix.
      From that joint onward every entry is the matrix of the joint's global
      transform. The palette is rebuilt in full, so what it held before plays
      no part. A joint that is its own parent would read its own unwritten
      slot; that case is excluded. */
  method MatrixPalette(p: Pose) returns (palette: seq<Mat4>)
    requires WellFormed(p)
    requires forall j :: 0 <= j < |p.parents| ==> p.parents[j] != j
    requires forall j :: FastPrefix(p) <= j < |p.parents| ==> ReachesRoot(p, j, |p.parents|)
    ensures |palette| == JointCount(p)
    ensures forall j :: 0 <= j < FastPrefix(p) ==>
              p.parents[j] < j &&
              palette[j] == if p.parents[j] < 0 then ToMat4(p.locals[j]) else MulMat(palette[p.parents[j]], ToMat4(p.locals[j]))
    ensures forall j :: FastPrefix(p) <= j < |palette| ==> palette[j] == ToMat4(GlobalTransform(p, j))
  {
    var n := |p.parents|;
    var k := FastPrefix(p);
    palette := [];
    var j := 0;
    while j < n && p.parents[j] <= j
      invariant 0 <= j <= k
      invariant |palette| == j
      invariant forall i :: 0 <= i < j ==> p.parents[i] < i && palette[i] == FastEntry(p, palette, i)
    {
      var m := FastEntry(p, palette, j);
      palette := palette + [m];
      j := j + 1;
    }
    assert j == k;
    while j < n
      invariant k <= j <= n
      invariant |palette| == j
      invariant forall i :: 0 <= i < k ==> p.parents[i] < i && palette[i] == FastEntry(p, palette, i)
      invariant forall i :: k <= i < j ==> palette[i] == ToMat4(GlobalTransform(p, i))
    {
      palette := palette + [ToMat4(GlobalTransform(p, j))];
      j := j + 1;
    }
  }

  /** When every parent precedes its child, the whole palette is built by the
      single pass. */
  lemma OrderedPoseIsFast(p: Pose)
    requires forall i :: 0 <= i < |p.parents| ==> p.parents[i] < i
    ensures FastPrefix(p) == |p.parents|
  {
  }
}
