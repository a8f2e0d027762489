/** `RearrangeBones`: renumbers a skeleton's joints breadth-first from its
    roots so that every parent comes before its children, and carries the
    renumbering over to clips and mesh influences through a `JointMap`
    (`std::map<int, int>`). */
module Rearrange {
  import opened Numeric
  import opened Vectors
  import opened Transforms
  import opened Poses
  import opened Skeletons
  import Clips
  import TT = TransformTracks
  import opened Meshes

  /** `std::map<int, int>` from joint indices to joint indices. */
  type JointMap = map<int, int>

  /** `operator[]` on a key: the stored value, or 0 for a missing key (the
      source inserts a value-initialised entry, which this model does not
      keep, since every later lookup of that key gives 0 either way). */
  function Lookup(m: JointMap, k: int): (r: int)
    ensures k in m ==> r == m[k]
    ensures k !in m ==> r == 0
  {
    if k in m then m[k] else 0
  }

  // ----- the joint hierarchy -----

  /** Joint `c` hangs under `x` in the hierarchy: `x` is its parent, or `x`
      is negative and `c` is a root. The roots are thereby the children of
      any negative index. */
  predicate ChildOf(parents: seq<int>, c: nat, x: int)
    requires c < |parents|
  {
    if x < 0 then parents[c] < 0 else parents[c] == x
  }

  /** The joints from index `j` on that hang under `x`, in ascending order:
      one row of `jointHierarchy`, filled by the source's first loop. */
  function ChildrenFrom(parents: seq<int>, x: int, j: nat): (r: seq<nat>)
    requires j <= |parents|
    ensures forall i :: 0 <= i < |r| ==> j <= r[i] < |parents| && ChildOf(parents, r[i], x)
    ensures forall i, k :: 0 <= i < k < |r| ==> r[i] < r[k]
    ensures forall c :: j <= c < |parents| && ChildOf(parents, c, x) ==> c in r
    decreases |parents| - j
  {
    if j == |parents| then []
    else (if ChildOf(parents, j, x) then [j] else []) + ChildrenFrom(parents, x, j + 1)
  }

  /** The direct children of joint `x`, or the roots when `x` is negative. */
  function Children(parents: seq<int>, x: int): (r: seq<nat>)
    ensures forall i :: 0 <= i < |r| ==> r[i] < |parents| && ChildOf(parents, r[i], x)
    ensures forall i, k :: 0 <= i < k < |r| ==> r[i] < r[k]
    ensures forall c :: 0 <= c < |parents| && ChildOf(parents, c, x) ==> c in r
  {
    ChildrenFrom(parents, x, 0)
  }

  // ----- sequences of distinct joints -----

  predicate Distinct(s: seq<nat>)
  {
    forall i, k :: 0 <= i < k < |s| ==> s[i] != s[k]
  }

  predicate Below(s: seq<nat>, n: nat)
  {
    forall i :: 0 <= i < |s| ==> s[i] < n
  }

  /** A visiting order that lists every joint exactly once. */
  predicate Permutation(order: seq<nat>, n: nat)
  {
    |order| == n && Distinct(order) && Below(order, n)
  }

  function Elements(s: seq<nat>): set<nat>
  {
    set i | 0 <= i < |s| :: s[i]
  }

  function Range(n: nat): (r: set<nat>)
    ensures forall x: int :: x in r <==> 0 <= x < n
  {
    if n == 0 then {} else Range(n - 1) + {n - 1}
  }

  lemma {:induction false} RangeSize(n: nat)
    ensures |Range(n)| == n
  {
    if n > 0 {
      var below := Range(n - 1);
      RangeSize(n - 1);
      assert n - 1 !in below;
      assert |below + {n - 1}| == |below| + 1;
    }
  }

  lemma {:induction false} DistinctElements(s: seq<nat>)
    requires Distinct(s)
    ensures |Elements(s)| == |s|
  {
    if |s| > 0 {
      var t := s[..|s| - 1];
      DistinctElements(t);
      assert Elements(s) == Elements(t) + {s[|s| - 1]};
      assert s[|s| - 1] !in Elements(t);
    }
  }

  /** Subsets of a finite set are no larger than it. */
  lemma {:induction false} SubsetSize(a: set<nat>, b: set<nat>)
    requires a <= b
    ensures |a| <= |b|
    decreases |b|
  {
    if a != {} {
      var x :| x in a;
      SubsetSize(a - {x}, b - {x});
    }
  }

  /** A list of distinct joints below `n` is no longer than `n`. */
  lemma DistinctBelowBound(s: seq<nat>, n: nat)
    requires Distinct(s) && Below(s, n)
    ensures |s| <= n
  {
    DistinctElements(s);
    RangeSize(n);
    SubsetSize(Elements(s), Range(n));
  }

  /** A list of distinct joints below `n` that holds each of them has
      exactly `n` entries. */
  lemma DistinctCoveringSize(s: seq<nat>, n: nat)
    requires Distinct(s) && Below(s, n)
    requires forall x :: 0 <= x < n ==> x in s
    ensures |s| == n
  {
    DistinctElements(s);
    RangeSize(n);
    assert Elements(s) == Range(n) by {
      forall x | x in Range(n) ensures x in Elements(s) {
        assert x in s;
        var i :| 0 <= i < |s| && s[i] == x;
      }
    }
  }

  // ----- the breadth-first renumbering -----

  /** Every entry at or after `head` whose parent is not a root marker has
      that parent among the first `head` entries, ahead of it. */
  predicate ParentsAhead(parents: seq<int>, visit: seq<nat>, head: nat)
    requires Below(visit, |parents|)
  {
    forall i :: 0 <= i < |visit| ==>
      parents[visit[i]] < 0 || exists k :: 0 <= k < head && k < i && visit[k] == parents[visit[i]]
  }

  /** The children of each of the first `head` entries have been queued. */
  predicate ChildrenQueued(parents: seq<int>, visit: seq<nat>, head: nat)
    requires head <= |visit|
  {
    forall i, c :: 0 <= i < head && 0 <= c < |parents| && parents[c] == visit[i] ==> c in visit
  }

  /** The while-loop over `jointsToBeMapped`. `visit` lists every joint ever
      pushed onto the list, in push order; the first `head` of them have been
      popped, so `visit[..head]` is the new joint order and `visit[head..]`
      the list still to be processed. The list starts with the roots in
      ascending index; each popped joint appends its children. With parents
      in range and free of cycles, every joint is visited exactly once and
      after its parent. */
  method BreadthFirstOrder(p: Pose) returns (order: seq<nat>)
    requires WellFormed(p) && Acyclic(p)
    ensures Permutation(order, JointCount(p))
    ensures forall j :: 0 <= j < JointCount(p) ==> j in order
    ensures forall i :: 0 <= i < |order| ==>
              p.parents[order[i]] < 0 || exists k :: 0 <= k < i && order[k] == p.parents[order[i]]
    ensures |Children(p.parents, -1)| <= |order|
    ensures order[..|Children(p.parents, -1)|] == Children(p.parents, -1)
  {
    var parents := p.parents;
    var n := |parents|;
    var roots := Children(parents, -1);
    var visit := roots;
    var head := 0;
    DistinctBelowBound(visit, n);
    while head < |visit|
      invariant head <= |visit| <= n
      invariant Distinct(visit) && Below(visit, n)
      invariant |roots| <= |visit| && visit[..|roots|] == roots
      invariant ParentsAhead(parents, visit, head)
      invariant ChildrenQueued(parents, visit, head)
      decreases n - head
    {
      var x := visit[head];
      var kids := Children(parents, x);
      VisitStep(parents, visit, head, kids);
      visit := visit + kids;
      head := head + 1;
      DistinctBelowBound(visit, n);
    }
    forall j | 0 <= j < n
      ensures j in visit
    {
      VisitedAll(p, visit, roots, j, n);
    }
    DistinctCoveringSize(visit, n);
    order := visit;
  }

  /** Popping `visit[head]` and queueing its children keeps the invariants:
      no child was queued before, since its one parent had not been popped. */
  lemma VisitStep(parents: seq<int>, visit: seq<nat>, head: nat, kids: seq<nat>)
    requires head < |visit|
    requires Distinct(visit) && Below(visit, |parents|)
    requires ParentsAhead(parents, visit, head)
    requires ChildrenQueued(parents, visit, head)
    requires kids == Children(parents, visit[head])
    ensures Distinct(visit + kids) && Below(visit + kids, |parents|)
    ensures ParentsAhead(parents, visit + kids, head + 1)
    ensures ChildrenQueued(parents, visit + kids, head + 1)
  {
    var x := visit[head];
    var v := visit + kids;
    forall i, k | 0 <= i < k < |v|
      ensures v[i] != v[k]
    {
      if i < |visit| && k >= |visit| {
        var c := kids[k - |visit|];
        assert parents[c] == x;
      }
    }
    forall i | 0 <= i < |v|
      ensures parents[v[i]] < 0 || exists k :: 0 <= k < head + 1 && k < i && v[k] == parents[v[i]]
    {
      if i >= |visit| {
        assert v[head] == x && parents[v[i]] == x;
      } else if parents[v[i]] >= 0 {
        var k :| 0 <= k < head && k < i && visit[k] == parents[visit[i]];
        assert v[k] == parents[v[i]];
      }
    }
    forall i, c | 0 <= i < head + 1 && 0 <= c < |parents| && parents[c] == v[i]
      ensures c in v
    {
      if i == head {
        assert ChildOf(parents, c, x);
        assert c in kids;
      } else {
        assert c in visit;
      }
    }
  }

  /** Once the list is empty, a joint whose chain reaches a root within
      `steps` hops has been visited. */
  lemma {:induction false} VisitedAllWithin(p: Pose, visit: seq<nat>, roots: seq<nat>, j: nat, steps: nat)
    requires WellFormed(p) && j < |p.parents| && ReachesRoot(p, j, steps)
    requires roots == Children(p.parents, -1)
    requires |roots| <= |visit| && visit[..|roots|] == roots
    requires ChildrenQueued(p.parents, visit, |visit|)
    ensures j in visit
    decreases steps
  {
    if p.parents[j] < 0 {
      assert ChildOf(p.parents, j, -1);
      var i :| 0 <= i < |roots| && roots[i] == j;
      assert visit[i] == j;
    } else {
      var q := p.parents[j];
      VisitedAllWithin(p, visit, roots, q, steps - 1);
      var i :| 0 <= i < |visit| && visit[i] == q;
      assert p.parents[j] == visit[i];
    }
  }

  lemma VisitedAll(p: Pose, visit: seq<nat>, roots: seq<nat>, j: nat, n: nat)
    requires WellFormed(p) && Acyclic(p) && n == |p.parents| && j < n
    requires roots == Children(p.parents, -1)
    requires |roots| <= |visit| && visit[..|roots|] == roots
    requires ChildrenQueued(p.parents, visit, |visit|)
    ensures j in visit
  {
    VisitedAllWithin(p, visit, roots, j, n);
  }

  // ----- the two joint maps -----

  /** `mapNewToOld`: new index `i` to the `i`-th visited joint, and -1 to -1. */
  function NewToOld(order: seq<nat>): (m: JointMap)
    ensures forall k :: k in m <==> -1 <= k < |order|
    ensures m[-1] == -1
    ensures forall i :: 0 <= i < |order| ==> m[i] == order[i]
  {
    (map i | 0 <= i < |order| :: order[i] as int)[-1 := -1]
  }

  /** `mapOldToNew`: each visited joint to its position, and -1 to -1. */
  function OldToNew(order: seq<nat>): (m: JointMap)
    requires Distinct(order)
    ensures forall k :: k in m <==> k == -1 || k in order
    ensures m[-1] == -1
    ensures forall i :: 0 <= i < |order| ==> m[order[i]] == i
  {
    (map i | 0 <= i < |order| :: order[i] as int := i)[-1 := -1]
  }

  /** A renumbering of `n` joints: keyed by -1 and every joint, -1 kept, and
      the joints mapped one-to-one onto themselves. */
  ghost predicate IsRenumbering(m: JointMap, n: nat)
  {
    && (forall k :: k in m <==> -1 <= k < n)
    && m[-1] == -1
    && (forall k :: 0 <= k < n ==> 0 <= m[k] < n)
    && (forall a, b :: 0 <= a < b < n ==> m[a] != m[b])
  }

  /** Two maps undo each other on every key. */
  ghost predicate MutualInverse(m1: JointMap, m2: JointMap)
  {
    && (forall k :: k in m1 ==> m1[k] in m2 && m2[m1[k]] == k)
    && (forall k :: k in m2 ==> m2[k] in m1 && m1[m2[k]] == k)
  }

  /** The maps built from a visiting order that lists each joint once are
      mutually inverse renumberings. */
  lemma OrderMaps(order: seq<nat>, n: nat)
    requires Permutation(order, n)
    requires forall j :: 0 <= j < n ==> j in order
    ensures IsRenumbering(NewToOld(order), n)
    ensures IsRenumbering(OldToNew(order), n)
    ensures MutualInverse(NewToOld(order), OldToNew(order))
  {
    NewToOldRenumbers(order, n);
    OldToNewRenumbers(order, n);
    OrderMapsInverse(order, n);
  }

  lemma NewToOldRenumbers(order: seq<nat>, n: nat)
    requires Permutation(order, n)
    ensures IsRenumbering(NewToOld(order), n)
  {
    var no := NewToOld(order);
    forall a, b | 0 <= a < b < n
      ensures no[a] != no[b]
    {
      assert no[a] == order[a] && no[b] == order[b];
    }
  }

  /** Each joint is somewhere in the order. */
  lemma PositionOf(order: seq<nat>, n: nat, k: int) returns (i: nat)
    requires Permutation(order, n)
    requires forall j :: 0 <= j < n ==> j in order
    requires 0 <= k < n
    ensures i < |order| && order[i] == k
  {
    assert k in order;
    i :| 0 <= i < |order| && order[i] == k;
  }

  lemma OldToNewRenumbers(order: seq<nat>, n: nat)
    requires Permutation(order, n)
    requires forall j :: 0 <= j < n ==> j in order
    ensures IsRenumbering(OldToNew(order), n)
  {
    var on := OldToNew(order);
    forall k | -1 <= k < n
      ensures k in on
    {
      if k >= 0 {
        var i := PositionOf(order, n, k);
      }
    }
    forall k | 0 <= k < n
      ensures 0 <= on[k] < n
    {
      var i := PositionOf(order, n, k);
    }
    forall a, b | 0 <= a < b < n
      ensures on[a] != on[b]
    {
      var i := PositionOf(order, n, a);
      var j := PositionOf(order, n, b);
    }
  }

  lemma OrderMapsInverse(order: seq<nat>, n: nat)
    requires Permutation(order, n)
    requires forall j :: 0 <= j < n ==> j in order
    ensures MutualInverse(NewToOld(order), OldToNew(order))
  {
    var no := NewToOld(order);
    var on := OldToNew(order);
    forall k | k in no
      ensures no[k] in on && on[no[k]] == k
    {
      if k >= 0 {
        assert no[k] == order[k];
      }
    }
    forall k | k in on
      ensures on[k] in no && no[on[k]] == k
    {
      if k >= 0 {
        var i := PositionOf(order, n, k);
      }
    }
  }

  /** The `JointMap`s of the while-loop, mapping new indices to old and old
      to new. With no joints the source builds neither map. */
  method JointMaps(p: Pose) returns (newToOld: JointMap, oldToNew: JointMap)
    requires WellFormed(p) && Acyclic(p)
    ensures JointCount(p) == 0 ==> newToOld == map[] && oldToNew == map[]
    ensures JointCount(p) > 0 ==> IsRenumbering(newToOld, JointCount(p)) && IsRenumbering(oldToNew, JointCount(p))
    ensures JointCount(p) > 0 ==> MutualInverse(newToOld, oldToNew)
    ensures JointCount(p) > 0 ==> forall o :: 0 <= o < JointCount(p) && 0 <= p.parents[o] < JointCount(p) ==>
              oldToNew[p.parents[o]] < oldToNew[o]
    ensures JointCount(p) > 0 ==> forall i :: 0 <= i < JointCount(p) && i < |Children(p.parents, -1)| ==>
              newToOld[i] == Children(p.parents, -1)[i]
  {
    if JointCount(p) == 0 {
      return map[], map[];
    }
    var order := BreadthFirstOrder(p);
    newToOld := NewToOld(order);
    oldToNew := OldToNew(order);
    OrderMaps(order, JointCount(p));
    forall o | 0 <= o < JointCount(p) && 0 <= p.parents[o] < JointCount(p)
      ensures oldToNew[p.parents[o]] < oldToNew[o]
    {
      var i := PositionOf(order, JointCount(p), o);
      var k :| 0 <= k < i && order[k] == p.parents[order[i]];
    }
    forall i | 0 <= i < JointCount(p) && i < |Children(p.parents, -1)|
      ensures newToOld[i] == Children(p.parents, -1)[i]
    {
      assert order[..|Children(p.parents, -1)|][i] == order[i];
    }
  }

  // ----- rearranging the skeleton -----

  /** Joint `i` of the rearranged pose is old joint `newToOld[i]`, with its
      old parent renumbered through `oldToNew`. */
  function Renumbered(p: Pose, parents: seq<int>, newToOld: JointMap, oldToNew: JointMap, n: nat): (r: Pose)
    requires IsRenumbering(newToOld, n) && |p.locals| == n && |parents| == n
    ensures WellFormed(r) && JointCount(r) == n
    ensures forall i :: 0 <= i < n ==> r.locals[i] == p.locals[newToOld[i]]
    ensures forall i :: 0 <= i < n ==> r.parents[i] == Lookup(oldToNew, parents[newToOld[i]])
  {
    Pose(seq(n, i requires 0 <= i < n => p.locals[newToOld[i]]),
         seq(n, i requires 0 <= i < n => Lookup(oldToNew, parents[newToOld[i]])))
  }

  function RenumberedNames(names: seq<string>, newToOld: JointMap, n: nat): (r: seq<string>)
    requires IsRenumbering(newToOld, n) && |names| >= n
    ensures |r| == n
    ensures forall i :: 0 <= i < n ==> r[i] == names[newToOld[i]]
  {
    seq(n, i requires 0 <= i < n => names[newToOld[i]])
  }

  /** Old joint `o` lands at `oldToNew[o]`, taking its transform and its
      renumbered parent along. */
  lemma RenumberedMoves(p: Pose, parents: seq<int>, newToOld: JointMap, oldToNew: JointMap, n: nat)
    requires IsRenumbering(newToOld, n) && IsRenumbering(oldToNew, n) && MutualInverse(newToOld, oldToNew)
    requires |p.locals| == n && |parents| == n
    ensures forall o :: 0 <= o < n ==>
              && Renumbered(p, parents, newToOld, oldToNew, n).locals[oldToNew[o]] == p.locals[o]
              && Renumbered(p, parents, newToOld, oldToNew, n).parents[oldToNew[o]] == Lookup(oldToNew, parents[o])
  {
    forall o | 0 <= o < n
      ensures newToOld[oldToNew[o]] == o
    {
      assert o in oldToNew;
    }
  }

  lemma RenumberedNamesMove(names: seq<string>, newToOld: JointMap, oldToNew: JointMap, n: nat)
    requires IsRenumbering(newToOld, n) && IsRenumbering(oldToNew, n) && MutualInverse(newToOld, oldToNew)
    requires |names| >= n
    ensures forall o :: 0 <= o < n ==> RenumberedNames(names, newToOld, n)[oldToNew[o]] == names[o]
  {
    forall o | 0 <= o < n
      ensures newToOld[oldToNew[o]] == o
    {
      assert o in oldToNew;
    }
  }

  /** Roots marked -1 stay roots, and every other joint's renumbered parent
      comes before it. */
  lemma NewParentsPrecede(p: Pose, newToOld: JointMap, oldToNew: JointMap)
    requires WellFormed(p) && Acyclic(p) && JointCount(p) > 0
    requires forall j :: 0 <= j < |p.parents| ==> p.parents[j] >= -1
    requires IsRenumbering(newToOld, JointCount(p)) && IsRenumbering(oldToNew, JointCount(p))
    requires MutualInverse(newToOld, oldToNew)
    requires forall o :: 0 <= o < JointCount(p) && 0 <= p.parents[o] < JointCount(p) ==>
               oldToNew[p.parents[o]] < oldToNew[o]
    ensures forall i :: 0 <= i < JointCount(p) ==>
              var q := Lookup(oldToNew, p.parents[newToOld[i]]);
              q == -1 || 0 <= q < i
  {
    var n := JointCount(p);
    forall i | 0 <= i < n
      ensures Lookup(oldToNew, p.parents[newToOld[i]]) == -1 || 0 <= Lookup(oldToNew, p.parents[newToOld[i]]) < i
    {
      var o := newToOld[i];
      assert ReachesRoot(p, o, n);
      assert oldToNew[o] == i;
    }
  }

  /** What `RearrangeSkeleton` needs: both poses well formed with the same
      parents, the rest pose's chains ending at roots marked -1, and a name
      for every joint. */
  predicate CanRearrange(s: Skeleton)
  {
    && WellFormed(s.restPose) && Acyclic(s.restPose)
    && WellFormed(s.bindPose) && s.bindPose.parents == s.restPose.parents
    && (forall j :: 0 <= j < |s.restPose.parents| ==> s.restPose.parents[j] >= -1)
    && |s.jointNames| >= JointCount(s.restPose)
  }

  /** The properties of the two maps that `JointMaps` guarantees. */
  ghost predicate OrderingMaps(p: Pose, newToOld: JointMap, oldToNew: JointMap)
    requires WellFormed(p)
  {
    && IsRenumbering(newToOld, JointCount(p)) && IsRenumbering(oldToNew, JointCount(p))
    && MutualInverse(newToOld, oldToNew)
    && (forall o :: 0 <= o < JointCount(p) && 0 <= p.parents[o] < JointCount(p) ==>
          oldToNew[p.parents[o]] < oldToNew[o])
  }

  /** The skeleton `r` is `s` renumbered by `jointMap`: the same number of
      joints, each old joint `o` at index `jointMap[o]` with its rest and
      bind transforms, its name, and its parent renumbered the same way; one
      parent sequence shared by both poses; and each parent ahead of its
      child. */
  ghost predicate Rearranged(s: Skeleton, r: Skeleton, jointMap: JointMap)
    requires WellFormed(s.restPose) && WellFormed(s.bindPose)
    requires |s.jointNames| >= JointCount(s.restPose) && JointCount(s.bindPose) == JointCount(s.restPose)
    requires IsRenumbering(jointMap, JointCount(s.restPose))
  {
    && JointCount(r.restPose) == JointCount(s.restPose) && WellFormed(r.restPose)
    && JointCount(r.bindPose) == JointCount(s.restPose) && WellFormed(r.bindPose)
    && |r.jointNames| == JointCount(s.restPose)
    && r.restPose.parents == r.bindPose.parents
    && (forall o :: 0 <= o < JointCount(s.restPose) ==>
          && r.restPose.locals[jointMap[o]] == s.restPose.locals[o]
          && r.bindPose.locals[jointMap[o]] == s.bindPose.locals[o]
          && r.jointNames[jointMap[o]] == s.jointNames[o]
          && r.restPose.parents[jointMap[o]] == Lookup(jointMap, s.bindPose.parents[o]))
    && (forall j :: 0 <= j < JointCount(r.restPose) ==>
          r.restPose.parents[j] == -1 || 0 <= r.restPose.parents[j] < j)
  }

  /** `RearrangeSkeleton`: with no joints nothing changes and the map is
      empty. Otherwise each old joint `o` moves to index `jointMap[o]`,
      taking its rest and bind transforms and its name along; its parent is
      renumbered the same way (the bind pose's parents are used for both
      poses, so the two must agree); parents end up ahead of their children;
      and `Set` rebuilds the inverse bind pose. Roots must be marked -1: the
      map sends any other negative index to 0. */
  method RearrangeSkeleton(s: Skeleton, invert: Mat4 -> Mat4) returns (r: Skeleton, jointMap: JointMap)
    requires CanRearrange(s)
    ensures JointCount(s.restPose) == 0 ==> r == s && jointMap == map[]
    ensures JointCount(s.restPose) > 0 ==> IsRenumbering(jointMap, JointCount(s.restPose))
    ensures JointCount(s.restPose) > 0 ==> Rearranged(s, r, jointMap)
    ensures JointCount(s.restPose) > 0 ==> CacheCurrent(r, invert)
  {
    var n := JointCount(s.restPose);
    if n == 0 {
      r, jointMap := s, map[];
    } else {
      var newToOld, oldToNew := JointMaps(s.restPose);
      assert OrderingMaps(s.restPose, newToOld, oldToNew);
      var parents := s.bindPose.parents;
      var newRest := Renumbered(s.restPose, parents, newToOld, oldToNew, n);
      var newBind := Renumbered(s.bindPose, parents, newToOld, oldToNew, n);
      var newNames := RenumberedNames(s.jointNames, newToOld, n);
      RenumberedAcyclic(s, newToOld, oldToNew);
      r := Set(newRest, newBind, newNames, invert);
      jointMap := oldToNew;
      RearrangedShape(s, r, newToOld, oldToNew);
    }
  }

  /** The renumbered bind pose has its parents ahead of their children, so
      its chains all reach a root. */
  lemma RenumberedAcyclic(s: Skeleton, newToOld: JointMap, oldToNew: JointMap)
    requires CanRearrange(s) && JointCount(s.restPose) > 0
    requires OrderingMaps(s.restPose, newToOld, oldToNew)
    ensures Acyclic(Renumbered(s.bindPose, s.bindPose.parents, newToOld, oldToNew, JointCount(s.restPose)))
  {
    var newBind := Renumbered(s.bindPose, s.bindPose.parents, newToOld, oldToNew, JointCount(s.restPose));
    NewParentsPrecede(s.restPose, newToOld, oldToNew);
    assert forall i :: 0 <= i < |newBind.parents| ==> newBind.parents[i] < i;
    ParentsBeforeChildrenAcyclic(newBind);
  }

  /** The contents of the rearranged skeleton, from the maps' properties. */
  lemma RearrangedShape(s: Skeleton, r: Skeleton, newToOld: JointMap, oldToNew: JointMap)
    requires CanRearrange(s) && JointCount(s.restPose) > 0
    requires OrderingMaps(s.restPose, newToOld, oldToNew)
    requires r.restPose == Renumbered(s.restPose, s.bindPose.parents, newToOld, oldToNew, JointCount(s.restPose))
    requires r.bindPose == Renumbered(s.bindPose, s.bindPose.parents, newToOld, oldToNew, JointCount(s.restPose))
    requires r.jointNames == RenumberedNames(s.jointNames, newToOld, JointCount(s.restPose))
    ensures Rearranged(s, r, oldToNew)
  {
    var n := JointCount(s.restPose);
    RenumberedMoves(s.restPose, s.bindPose.parents, newToOld, oldToNew, n);
    RenumberedMoves(s.bindPose, s.bindPose.parents, newToOld, oldToNew, n);
    RenumberedNamesMove(s.jointNames, newToOld, oldToNew, n);
    NewParentsPrecede(s.restPose, newToOld, oldToNew);
  }

  /** `ReachesRoot` looks only at the parents. */
  lemma {:induction false} ReachesRootSameParents(a: Pose, b: Pose, j: nat, steps: nat)
    requires a.parents == b.parents && j < |a.parents| && ReachesRoot(a, j, steps)
    ensures ReachesRoot(b, j, steps)
    decreases steps
  {
    if a.parents[j] >= 0 {
      ReachesRootSameParents(a, b, a.parents[j], steps - 1);
    }
  }

  /** The parent walk of an old joint and of its renumbered image combine
      the same local transforms, so they agree. */
  lemma {:induction false} WalkMoves(p: Pose, q: Pose, m: JointMap, n: nat, k: nat, acc: Transform, steps: nat)
    requires WellFormed(p) && WellFormed(q) && JointCount(p) == n && JointCount(q) == n
    requires IsRenumbering(m, n)
    requires forall o :: 0 <= o < n ==> q.locals[m[o]] == p.locals[o] && q.parents[m[o]] == Lookup(m, p.parents[o])
    requires forall o :: 0 <= o < n ==> p.parents[o] >= -1
    requires k < n && ReachesRoot(p, k, steps) && ReachesRoot(q, m[k], steps)
    ensures Walk(q, m[k], acc, steps) == Walk(p, k, acc, steps)
    decreases steps
  {
    if p.parents[k] >= 0 {
      var pk := p.parents[k];
      assert q.parents[m[k]] == m[pk];
      WalkMoves(p, q, m, n, pk, Combine(p.locals[pk], acc), steps - 1);
    }
  }

  /** Rearranging moves every joint's global transform, in the rest and in
      the bind pose, to its new index unchanged. */
  lemma RearrangeKeepsGlobals(s: Skeleton, r: Skeleton, jointMap: JointMap, o: nat)
    requires CanRearrange(s) && IsRenumbering(jointMap, JointCount(s.restPose))
    requires Rearranged(s, r, jointMap)
    requires o < JointCount(s.restPose)
    ensures Acyclic(s.bindPose) && Acyclic(r.restPose) && Acyclic(r.bindPose)
    ensures GlobalTransform(r.restPose, jointMap[o]) == GlobalTransform(s.restPose, o)
    ensures GlobalTransform(r.bindPose, jointMap[o]) == GlobalTransform(s.bindPose, o)
  {
    var n := JointCount(s.restPose);
    forall j | 0 <= j < n
      ensures ReachesRoot(s.bindPose, j, n)
    {
      ReachesRootSameParents(s.restPose, s.bindPose, j, n);
    }
    ParentsBeforeChildrenAcyclic(r.restPose);
    ParentsBeforeChildrenAcyclic(r.bindPose);
    WalkMoves(s.restPose, r.restPose, jointMap, n, o, s.restPose.locals[o], n);
    WalkMoves(s.bindPose, r.bindPose, jointMap, n, o, s.bindPose.locals[o], n);
  }

  // ----- clips and meshes -----

  /** The joint ID of a track's joint, cast to `int` and looked up in the
      map, with the result cast back to `unsigned int`. */
  function RearrangedId(jointMap: JointMap, id: nat): nat
  {
    ToUnsigned32(Lookup(jointMap, ToSigned32(id)))
  }

  /** `RearrangeClip` and `RearrangeFastClip`: each track's joint ID is cast
      to `int`, replaced by `jointMap[id]` and cast back to `unsigned int`;
      nothing else changes. */
  function RearrangeClip(c: Clips.Clip, jointMap: JointMap): (r: Clips.Clip)
    ensures r.name == c.name && r.startTime == c.startTime && r.endTime == c.endTime && r.looping == c.looping
    ensures |r.tracks| == |c.tracks|
    ensures forall i :: 0 <= i < |c.tracks| ==>
              r.tracks[i] == c.tracks[i].(jointId := ToUnsigned32(Lookup(jointMap, ToSigned32(c.tracks[i].jointId))))
  {
    c.(tracks := seq(|c.tracks|, i requires 0 <= i < |c.tracks| =>
                   c.tracks[i].(jointId := RearrangedId(jointMap, c.tracks[i].jointId))))
  }

  /** The joint indices of a skeleton fit a signed 32-bit `int`. */
  const MaxJoints: nat := 0x8000_0000

  /** The joint ID a clip holds for a channel whose target node was not
      found: the loader's -1, stored as an `unsigned int`. */
  const UnmatchedJoint: nat := 0xFFFF_FFFF

  /** Every track of the clip targets one of the `n` joints or no node. */
  predicate JointIdsWithin(c: Clips.Clip, n: nat)
  {
    forall i :: 0 <= i < |c.tracks| ==> c.tracks[i].jointId < n || c.tracks[i].jointId == UnmatchedJoint
  }

  /** A track without a target node keeps its joint ID: it goes through the
      map's entry for -1 and back. */
  lemma RearrangeClipKeepsUnmatched(m: JointMap, n: nat)
    requires IsRenumbering(m, n)
    ensures RearrangedId(m, UnmatchedJoint) == UnmatchedJoint
  {
    assert ToSigned32(UnmatchedJoint) == -1;
  }

  /** Renumbering a clip and then applying the inverse map restores it. */
  lemma RearrangeClipRoundTrip(c: Clips.Clip, m1: JointMap, m2: JointMap, n: nat)
    requires n <= MaxJoints
    requires IsRenumbering(m1, n) && IsRenumbering(m2, n) && MutualInverse(m1, m2)
    requires JointIdsWithin(c, n)
    ensures RearrangeClip(RearrangeClip(c, m1), m2) == c
  {
    var r := RearrangeClip(RearrangeClip(c, m1), m2);
    assert r.tracks == c.tracks by {
      forall i | 0 <= i < |c.tracks|
        ensures r.tracks[i] == c.tracks[i]
      {
        var id := c.tracks[i].jointId;
        if id == UnmatchedJoint {
          RearrangeClipKeepsUnmatched(m1, n);
          RearrangeClipKeepsUnmatched(m2, n);
        } else {
          assert m1[id] in m2;
        }
      }
    }
  }

  /** A renumbering keeps distinct joint IDs distinct. */
  lemma RearrangeClipKeepsUniqueIds(c: Clips.Clip, m: JointMap, n: nat)
    requires n <= MaxJoints
    requires IsRenumbering(m, n)
    requires JointIdsWithin(c, n)
    requires Clips.UniqueIds(c.tracks)
    ensures Clips.UniqueIds(RearrangeClip(c, m).tracks)
  {
    var r := RearrangeClip(c, m);
    RearrangeClipKeepsUnmatched(m, n);
    forall i, j | 0 <= i < j < |r.tracks|
      ensures r.tracks[i].jointId != r.tracks[j].jointId
    {
      var a, b := c.tracks[i].jointId, c.tracks[j].jointId;
      if a == UnmatchedJoint || b == UnmatchedJoint {
      } else if a < b {
        assert m[a] != m[b];
      } else {
        assert m[b] != m[a];
      }
    }
  }

  /** `RearrangeMesh`: all four joint indices of every vertex go through the
      map; the number of vertices is unchanged. */
  function RearrangeMesh(influences: seq<JointInfluence>, jointMap: JointMap): (r: seq<JointInfluence>)
    ensures |r| == |influences|
    ensures forall i :: 0 <= i < |r| ==> r[i] == MapInfluence(influences[i], k => Lookup(jointMap, k))
  {
    seq(|influences|, i requires 0 <= i < |influences| => MapInfluence(influences[i], k => Lookup(jointMap, k)))
  }

  /** Renumbering the influences and then applying the inverse map restores
      them, as long as every index is a joint or -1. */
  lemma RearrangeMeshRoundTrip(influences: seq<JointInfluence>, m1: JointMap, m2: JointMap, n: nat)
    requires IsRenumbering(m1, n) && IsRenumbering(m2, n) && MutualInverse(m1, m2)
    requires forall i :: 0 <= i < |influences| ==> InfluenceWithin(influences[i], -1, n)
    ensures RearrangeMesh(RearrangeMesh(influences, m1), m2) == influences
  {
    var r := RearrangeMesh(RearrangeMesh(influences, m1), m2);
    forall i | 0 <= i < |influences|
      ensures r[i] == influences[i]
    {
      var v := influences[i];
      assert v.x in m1 && v.y in m1 && v.z in m1 && v.w in m1;
    }
  }
}
