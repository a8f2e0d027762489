/** The pure data-unpacking steps of the glTF loader: finding a node's index,
    turning an animation sampler's float arrays into keyframes (section 3.11
    of the glTF 2.0 specification, and its Appendix C for cubic splines),
    default joint names, joint-influence conversion, and the conversion of
    the global bind pose into local transforms. Accessors are plain
    sequences of floats and nodes are values compared by identity. */
module Gltf {
  import opened Numeric
  import opened Vectors
  import opened Transforms
  import opened Poses
  import Tracks
  import opened Meshes

  // ----- node lookup -----

  /** The first index from `i` on whose node is `target`, or -1. */
  function NodeIndexFrom<N(==)>(target: N, nodes: seq<N>, i: nat): (r: int)
    requires i <= |nodes|
    ensures r == -1 || (i <= r < |nodes| && nodes[r] == target)
    ensures r == -1 <==> forall k :: i <= k < |nodes| ==> nodes[k] != target
    ensures r >= 0 ==> forall k :: i <= k < r ==> nodes[k] != target
    decreases |nodes| - i
  {
    if i == |nodes| then -1
    else if nodes[i] == target then i
    else NodeIndexFrom(target, nodes, i + 1)
  }

  /** `GetNodeIndex`: -1 for a null target or one that is not in the list;
      otherwise the index of its first occurrence. */
  function NodeIndex<N(==)>(target: Option<N>, nodes: seq<N>): (r: int)
    ensures target.None? ==> r == -1
    ensures target.Some? && target.value !in nodes ==> r == -1
    ensures target.Some? && target.value in nodes ==>
              && 0 <= r < |nodes| && nodes[r] == target.value
              && forall k :: 0 <= k < r ==> nodes[k] != target.value
  {
    match target
    case None => -1
    case Some(t) => NodeIndexFrom(t, nodes, 0)
  }

  predicate DistinctNodes<N(==)>(nodes: seq<N>)
  {
    forall a, b :: 0 <= a < b < |nodes| ==> nodes[a] != nodes[b]
  }

  /** Looking up the node stored at index `i` of a list of distinct nodes
      gives back `i`. */
  lemma NodeIndexOfNode<N>(nodes: seq<N>, i: nat)
    requires DistinctNodes(nodes) && i < |nodes|
    ensures NodeIndex(Some(nodes[i]), nodes) == i
  {
    assert nodes[i] in nodes;
  }

  // ----- samplers -----

  /** The interpolation of a glTF animation sampler. */
  datatype SamplerInterpolation = StepSampler | LinearSampler | CubicSplineSampler

  /** `LINEAR` gives a linear track, `CUBICSPLINE` a cubic one and anything
      else a constant one. */
  function TrackInterpolation(s: SamplerInterpolation): (r: Tracks.Interpolation)
    ensures r == Tracks.Linear <==> s == LinearSampler
    ensures r == Tracks.Cubic <==> s == CubicSplineSampler
    ensures r == Tracks.Constant <==> s == StepSampler
  {
    match s
    case LinearSampler => Tracks.Linear
    case CubicSplineSampler => Tracks.Cubic
    case StepSampler => Tracks.Constant
  }

  // ----- keyframes -----

  function Zeros(n: nat): (r: seq<real>)
    ensures |r| == n
    ensures forall i :: 0 <= i < n ==> r[i] == 0.0
  {
    seq(n, _ => 0.0)
  }

  /** The floats one keyframe of an `n`-component value occupies: in-tangent,
      value and out-tangent for a cubic spline, the value alone otherwise. */
  function FloatsPerFrame(cubic: bool, n: nat): nat
  {
    if cubic then 3 * n else n
  }

  /** One keyframe read from `values` at `first`: the tangents are read only
      for a cubic spline and are zero otherwise. */
  function ReadFrame(values: seq<real>, first: nat, n: nat, cubic: bool, time: real): (r: Tracks.Frame<seq<real>>)
    requires first + FloatsPerFrame(cubic, n) <= |values|
    ensures r.time == time
    ensures |r.value| == n && |r.inSlope| == n && |r.outSlope| == n
  {
    if cubic then
      Tracks.Frame(values[first + n .. first + 2 * n], values[first .. first + n], values[first + 2 * n .. first + 3 * n], time)
    else
      Tracks.Frame(values[first .. first + n], Zeros(n), Zeros(n), time)
  }

  /** Frame `i` of `count` frames, each `total / count` floats wide, ends
      within the `total` floats. */
  lemma FrameFits(i: nat, count: nat, total: nat, need: nat)
    requires i < count && need <= total / count
    ensures i * (total / count) + need <= total
  {
    var q := total / count;
    assert count * q <= total;
    MulLeft(q, i + 1, count);
    assert (i + 1) * q == i * q + q;
  }

  lemma MulLeft(q: nat, a: nat, b: nat)
    requires a <= b
    ensures a * q <= b * q
  {
  }

  /** The frame-unpacking loop of `GetTrackFromChannel`: the track takes the
      sampler's interpolation and one frame per input time; each frame is
      `|values| / |times|` floats wide. The division needs at least one
      input time, and every frame must have room for its floats. */
  function ChannelTrack(track: Tracks.Track<seq<real>>, s: SamplerInterpolation, times: seq<real>, values: seq<real>, n: nat): (r: Tracks.Track<seq<real>>)
    requires |times| > 0
    requires |values| / |times| >= FloatsPerFrame(s == CubicSplineSampler, n)
    ensures r.interpolation == TrackInterpolation(s) && r.search == track.search
    ensures |r.frames| == |times|
    ensures forall i :: 0 <= i < |times| ==> r.frames[i].time == times[i]
    ensures forall i :: 0 <= i < |times| ==> |r.frames[i].value| == n
    ensures s != CubicSplineSampler ==> forall i :: 0 <= i < |times| ==>
              r.frames[i].inSlope == Zeros(n) && r.frames[i].outSlope == Zeros(n)
  {
    var cubic := s == CubicSplineSampler;
    var stride := |values| / |times|;
    var frames := seq(|times|, i requires 0 <= i < |times| =>
      FrameFits(i, |times|, |values|, FloatsPerFrame(cubic, n));
      ReadFrame(values, i * stride, n, cubic, times[i]));
    track.(interpolation := TrackInterpolation(s), frames := frames)
  }

  /** The floats a keyframe is stored as. */
  function PackFrame(f: Tracks.Frame<seq<real>>, cubic: bool): seq<real>
  {
    if cubic then f.inSlope + f.value + f.outSlope else f.value
  }

  /** A sampler's output array: the keyframes' floats one after the other. */
  function PackFrames(frames: seq<Tracks.Frame<seq<real>>>, cubic: bool): seq<real>
    decreases |frames|
  {
    if |frames| == 0 then [] else PackFrame(frames[0], cubic) + PackFrames(frames[1..], cubic)
  }

  function Times(frames: seq<Tracks.Frame<seq<real>>>): (r: seq<real>)
    ensures |r| == |frames|
    ensures forall i :: 0 <= i < |frames| ==> r[i] == frames[i].time
  {
    seq(|frames|, i requires 0 <= i < |frames| => frames[i].time)
  }

  /** A keyframe a sampler can hold: `n` components, and zero tangents unless
      the spline is cubic. */
  predicate Shaped(f: Tracks.Frame<seq<real>>, n: nat, cubic: bool)
  {
    && |f.value| == n && |f.inSlope| == n && |f.outSlope| == n
    && (!cubic ==> f.inSlope == Zeros(n) && f.outSlope == Zeros(n))
  }

  predicate AllShaped(frames: seq<Tracks.Frame<seq<real>>>, n: nat, cubic: bool)
  {
    forall i :: 0 <= i < |frames| ==> Shaped(frames[i], n, cubic)
  }

  lemma {:induction false} PackFramesLength(frames: seq<Tracks.Frame<seq<real>>>, n: nat, cubic: bool)
    requires AllShaped(frames, n, cubic)
    ensures |PackFrames(frames, cubic)| == |frames| * FloatsPerFrame(cubic, n)
    decreases |frames|
  {
    if |frames| > 0 {
      PackFramesLength(frames[1..], n, cubic);
      assert Shaped(frames[0], n, cubic);
      assert |frames| * FloatsPerFrame(cubic, n) == FloatsPerFrame(cubic, n) + (|frames| - 1) * FloatsPerFrame(cubic, n);
    }
  }

  /** Keyframe `i`'s floats sit at offset `i * k` of the packed floats;
      the offset is accumulated one frame at a time. */
  lemma {:induction false} PackFramesSlice(frames: seq<Tracks.Frame<seq<real>>>, n: nat, cubic: bool, i: nat, offset: nat)
    requires AllShaped(frames, n, cubic) && i < |frames|
    requires offset == i * FloatsPerFrame(cubic, n)
    ensures offset + FloatsPerFrame(cubic, n) <= |PackFrames(frames, cubic)|
    ensures PackFrames(frames, cubic)[offset .. offset + FloatsPerFrame(cubic, n)] == PackFrame(frames[i], cubic)
    decreases i
  {
    var k := FloatsPerFrame(cubic, n);
    var head := PackFrame(frames[0], cubic);
    var tail := PackFrames(frames[1..], cubic);
    assert Shaped(frames[0], n, cubic);
    assert |head| == k;
    assert PackFrames(frames, cubic) == head + tail;
    if i > 0 {
      OffsetStep(i, k);
      PackFramesSlice(frames[1..], n, cubic, i - 1, offset - k);
      assert frames[1..][i - 1] == frames[i];
      assert (head + tail)[offset .. offset + k] == tail[offset - k .. offset - k + k];
    }
  }

  lemma OffsetStep(i: nat, k: nat)
    requires i > 0
    ensures i * k == (i - 1) * k + k && i * k >= k
  {
  }

  lemma SliceOfSlice(s: seq<real>, a: nat, b: nat, c: nat, d: nat)
    requires a <= b <= |s| && c <= d <= b - a
    ensures s[a..b][c..d] == s[a + c .. a + d]
  {
    assert forall j :: 0 <= j < d - c ==> s[a..b][c..d][j] == s[a + c .. a + d][j];
  }

  /** Reading back a packed keyframe gives the keyframe. */
  lemma ReadPackedFrame(values: seq<real>, first: nat, f: Tracks.Frame<seq<real>>, n: nat, cubic: bool)
    requires Shaped(f, n, cubic)
    requires first + FloatsPerFrame(cubic, n) <= |values|
    requires values[first .. first + FloatsPerFrame(cubic, n)] == PackFrame(f, cubic)
    ensures ReadFrame(values, first, n, cubic, f.time) == f
  {
    var packed := values[first .. first + FloatsPerFrame(cubic, n)];
    if cubic {
      SliceOfSlice(values, first, first + 3 * n, 0, n);
      SliceOfSlice(values, first, first + 3 * n, n, 2 * n);
      SliceOfSlice(values, first, first + 3 * n, 2 * n, 3 * n);
      assert packed[..n] == f.inSlope;
      assert packed[n .. 2 * n] == f.value;
      assert packed[2 * n ..] == f.outSlope;
    }
  }

  lemma MulDivCancel(a: nat, b: nat)
    requires a > 0
    ensures (a * b) / a == b
  {
    var q := (a * b) / a;
    var r := (a * b) % a;
    assert a * b == a * q + r && 0 <= r < a;
    assert a * (b - q) == r;
    if b - q >= 1 {
      MulAtLeast(a, b - q);
    } else if b - q <= -1 {
      MulAtLeast(a, q - b);
    }
  }

  lemma MulAtLeast(a: int, c: int)
    requires a > 0 && c >= 1
    ensures a * c >= a
  {
  }

  /** Packing keyframes into a sampler's arrays and unpacking them again
      gives back the keyframes. */
  lemma ChannelRoundTrip(track: Tracks.Track<seq<real>>, s: SamplerInterpolation, frames: seq<Tracks.Frame<seq<real>>>, n: nat)
    requires |frames| > 0
    requires AllShaped(frames, n, s == CubicSplineSampler)
    ensures |PackFrames(frames, s == CubicSplineSampler)| / |Times(frames)| >= FloatsPerFrame(s == CubicSplineSampler, n)
    ensures ChannelTrack(track, s, Times(frames), PackFrames(frames, s == CubicSplineSampler), n).frames == frames
  {
    var cubic := s == CubicSplineSampler;
    var k := FloatsPerFrame(cubic, n);
    var values := PackFrames(frames, cubic);
    PackedStride(frames, n, cubic);
    var r := ChannelTrack(track, s, Times(frames), values, n);
    forall i | 0 <= i < |frames|
      ensures r.frames[i] == frames[i]
    {
      ChannelFrame(track, s, frames, n, i);
    }
  }

  /** The packed floats are exactly one frame width per keyframe. */
  lemma PackedStride(frames: seq<Tracks.Frame<seq<real>>>, n: nat, cubic: bool)
    requires |frames| > 0 && AllShaped(frames, n, cubic)
    ensures |PackFrames(frames, cubic)| / |frames| == FloatsPerFrame(cubic, n)
  {
    PackFramesLength(frames, n, cubic);
    MulDivCancel(|frames|, FloatsPerFrame(cubic, n));
  }

  lemma ChannelFrame(track: Tracks.Track<seq<real>>, s: SamplerInterpolation, frames: seq<Tracks.Frame<seq<real>>>, n: nat, i: nat)
    requires |frames| > 0 && i < |frames|
    requires AllShaped(frames, n, s == CubicSplineSampler)
    requires |PackFrames(frames, s == CubicSplineSampler)| / |frames| == FloatsPerFrame(s == CubicSplineSampler, n)
    ensures ChannelTrack(track, s, Times(frames), PackFrames(frames, s == CubicSplineSampler), n).frames[i] == frames[i]
  {
    var cubic := s == CubicSplineSampler;
    var values := PackFrames(frames, cubic);
    var first := i * FloatsPerFrame(cubic, n);
    ChannelTrackFrame(track, s, Times(frames), values, n, i);
    PackFramesSlice(frames, n, cubic, i, first);
    ReadPackedFrame(values, first, frames[i], n, cubic);
  }

  /** Frame `i` of a channel is read at `i` strides into the output floats. */
  lemma ChannelTrackFrame(track: Tracks.Track<seq<real>>, s: SamplerInterpolation, times: seq<real>, values: seq<real>, n: nat, i: nat)
    requires |times| > 0 && i < |times|
    requires |values| / |times| >= FloatsPerFrame(s == CubicSplineSampler, n)
    ensures i * (|values| / |times|) + FloatsPerFrame(s == CubicSplineSampler, n) <= |values|
    ensures ChannelTrack(track, s, times, values, n).frames[i]
         == ReadFrame(values, i * (|values| / |times|), n, s == CubicSplineSampler, times[i])
  {
    FrameFits(i, |times|, |values|, FloatsPerFrame(s == CubicSplineSampler, n));
  }

  // ----- joint names -----

  /** `LoadJointNames`: one name per node, "Unnamed" for a node without one. */
  method JointNames(names: seq<Option<string>>) returns (r: seq<string>)
    ensures |r| == |names|
    ensures forall i :: 0 <= i < |names| ==> r[i] == if names[i].Some? then names[i].value else "Unnamed"
  {
    r := seq(|names|, _ => "Unnamed");
    var i := 0;
    while i < |names|
      invariant 0 <= i <= |names| && |r| == |names|
      invariant forall k :: 0 <= k < i ==> r[k] == if names[k].Some? then names[k].value else "Unnamed"
      invariant forall k :: i <= k < |names| ==> r[k] == "Unnamed"
    {
      if names[i].Some? {
        r := r[i := names[i].value];
      }
      i := i + 1;
    }
  }

  // ----- joint influences -----

  /** A joint index read as a float, rounded by adding one half and
      truncating toward zero. */
  function RoundIndex(f: real): int
  {
    Trunc(f + 0.5)
  }

  /** A float within half a unit below or above a whole index rounds to it. */
  lemma RoundIndexNearest(f: real, k: nat)
    requires k as real - 0.5 <= f < k as real + 0.5
    ensures RoundIndex(f) == k
  {
  }

  /** One joint index of a vertex: the rounded skin-relative index picks a
      skin joint, whose node index is stored, or 0 when that node is not in
      the list. */
  function InfluenceIndex<N(==)>(f: real, skinJoints: seq<N>, nodes: seq<N>): (r: int)
    requires 0 <= RoundIndex(f) < |skinJoints|
    ensures r >= 0
    ensures skinJoints[RoundIndex(f)] in nodes ==> r == NodeIndex(Some(skinJoints[RoundIndex(f)]), nodes)
    ensures skinJoints[RoundIndex(f)] !in nodes ==> r == 0
  {
    var found := NodeIndex(Some(skinJoints[RoundIndex(f)]), nodes);
    if found < 0 then 0 else found
  }

  predicate SkinIndexInRange(f: real, skinJoints: nat)
  {
    0 <= RoundIndex(f) < skinJoints
  }

  /** The joint-influence conversion for one vertex. */
  function VertexInfluence<N(==)>(floats: Vec4, skinJoints: seq<N>, nodes: seq<N>): (r: JointInfluence)
    requires SkinIndexInRange(floats.x, |skinJoints|) && SkinIndexInRange(floats.y, |skinJoints|)
    requires SkinIndexInRange(floats.z, |skinJoints|) && SkinIndexInRange(floats.w, |skinJoints|)
    ensures r.x == InfluenceIndex(floats.x, skinJoints, nodes) && r.y == InfluenceIndex(floats.y, skinJoints, nodes)
    ensures r.z == InfluenceIndex(floats.z, skinJoints, nodes) && r.w == InfluenceIndex(floats.w, skinJoints, nodes)
  {
    JointInfluence(
      InfluenceIndex(floats.x, skinJoints, nodes), InfluenceIndex(floats.y, skinJoints, nodes),
      InfluenceIndex(floats.z, skinJoints, nodes), InfluenceIndex(floats.w, skinJoints, nodes))
  }

  /** Every converted index names a node, so the influences can go through a
      joint renumbering of the node list. */
  lemma VertexInfluenceInRange<N>(floats: Vec4, skinJoints: seq<N>, nodes: seq<N>)
    requires |nodes| > 0
    requires SkinIndexInRange(floats.x, |skinJoints|) && SkinIndexInRange(floats.y, |skinJoints|)
    requires SkinIndexInRange(floats.z, |skinJoints|) && SkinIndexInRange(floats.w, |skinJoints|)
    ensures InfluenceWithin(VertexInfluence(floats, skinJoints, nodes), 0, |nodes|)
  {
    var r := VertexInfluence(floats, skinJoints, nodes);
    IndexBelow(floats.x, skinJoints, nodes);
    IndexBelow(floats.y, skinJoints, nodes);
    IndexBelow(floats.z, skinJoints, nodes);
    IndexBelow(floats.w, skinJoints, nodes);
  }

  lemma IndexBelow<N>(f: real, skinJoints: seq<N>, nodes: seq<N>)
    requires |nodes| > 0 && 0 <= RoundIndex(f) < |skinJoints|
    ensures InfluenceIndex(f, skinJoints, nodes) < |nodes|
  {
  }

  // ----- the bind pose -----

  /** A glTF skin: its joint nodes and one inverse bind matrix per joint. */
  datatype Skin<N> = Skin(joints: seq<N>, inverseBindMatrices: seq<Mat4>)

  /** Every joint of the skin has a matrix and is one of the nodes. */
  predicate SkinFits<N(==)>(skin: Skin<N>, nodes: seq<N>)
  {
    |skin.inverseBindMatrices| >= |skin.joints|
    && forall k :: 0 <= k < |skin.joints| ==> skin.joints[k] in nodes
  }

  /** The inner loop of `LoadBindPose` from joint `k` of `skin` on: each
      joint's global bind transform replaces the one stored at its node's
      index. `bindOf` is `mat4ToTransform(glm::inverse(m))`. */
  function ApplySkin<N(==)>(globals: seq<Transform>, skin: Skin<N>, nodes: seq<N>, bindOf: Mat4 -> Transform, k: nat): (r: seq<Transform>)
    requires |globals| == |nodes| && SkinFits(skin, nodes) && k <= |skin.joints|
    ensures |r| == |globals|
    decreases |skin.joints| - k
  {
    if k == |skin.joints| then globals
    else
      var j := NodeIndex(Some(skin.joints[k]), nodes);
      ApplySkin(globals[j := bindOf(skin.inverseBindMatrices[k])], skin, nodes, bindOf, k + 1)
  }

  /** The outer loop over the skins, from skin `s` on. */
  function ApplySkins<N(==)>(globals: seq<Transform>, skins: seq<Skin<N>>, nodes: seq<N>, bindOf: Mat4 -> Transform, s: nat): (r: seq<Transform>)
    requires |globals| == |nodes| && s <= |skins|
    requires forall i :: 0 <= i < |skins| ==> SkinFits(skins[i], nodes)
    ensures |r| == |globals|
    decreases |skins| - s
  {
    if s == |skins| then globals
    else ApplySkins(ApplySkin(globals, skins[s], nodes, bindOf, 0), skins, nodes, bindOf, s + 1)
  }

  /** Node `j` is a joint of some skin from skin `s` on. */
  predicate TargetedFrom<N(==)>(skins: seq<Skin<N>>, nodes: seq<N>, j: nat, s: nat)
    requires j < |nodes|
  {
    exists i, k :: s <= i < |skins| && 0 <= k < |skins[i].joints| && skins[i].joints[k] == nodes[j]
  }

  /** A node that no remaining joint of the skin targets keeps its transform;
      a targeted one ends up with the bind transform of the last joint naming
      it, since each later write overwrites the earlier ones. */
  lemma {:induction false} ApplySkinEffect<N>(globals: seq<Transform>, skin: Skin<N>, nodes: seq<N>, bindOf: Mat4 -> Transform, k: nat, j: nat)
    requires |globals| == |nodes| && SkinFits(skin, nodes) && k <= |skin.joints|
    requires DistinctNodes(nodes) && j < |nodes|
    ensures (forall m :: k <= m < |skin.joints| ==> skin.joints[m] != nodes[j]) ==>
              ApplySkin(globals, skin, nodes, bindOf, k)[j] == globals[j]
    ensures (exists m :: k <= m < |skin.joints| && skin.joints[m] == nodes[j]) ==>
              exists m :: k <= m < |skin.joints| && skin.joints[m] == nodes[j]
                && (forall m' :: m < m' < |skin.joints| ==> skin.joints[m'] != nodes[j])
                && ApplySkin(globals, skin, nodes, bindOf, k)[j] == bindOf(skin.inverseBindMatrices[m])
    decreases |skin.joints| - k
  {
    if k < |skin.joints| {
      var t := NodeIndex(Some(skin.joints[k]), nodes);
      var next := globals[t := bindOf(skin.inverseBindMatrices[k])];
      ApplySkinEffect(next, skin, nodes, bindOf, k + 1, j);
      var later := exists m :: k + 1 <= m < |skin.joints| && skin.joints[m] == nodes[j];
      if t == j {
        assert skin.joints[k] == nodes[j];
        if !later {
          assert ApplySkin(globals, skin, nodes, bindOf, k)[j] == bindOf(skin.inverseBindMatrices[k]);
        }
      } else {
        assert skin.joints[k] != nodes[j] by {
          if skin.joints[k] == nodes[j] {
            NodeIndexOfNode(nodes, j);
          }
        }
      }
    }
  }

  /** Over all skins from `s` on: an untargeted node keeps its transform, a
      targeted one gets the bind transform of the last joint naming it, in
      the last skin that names it. */
  lemma {:induction false} ApplySkinsEffect<N>(globals: seq<Transform>, skins: seq<Skin<N>>, nodes: seq<N>, bindOf: Mat4 -> Transform, s: nat, j: nat)
    requires |globals| == |nodes| && s <= |skins|
    requires forall i :: 0 <= i < |skins| ==> SkinFits(skins[i], nodes)
    requires DistinctNodes(nodes) && j < |nodes|
    ensures !TargetedFrom(skins, nodes, j, s) ==> ApplySkins(globals, skins, nodes, bindOf, s)[j] == globals[j]
    ensures TargetedFrom(skins, nodes, j, s) ==>
              exists i, k :: s <= i < |skins| && 0 <= k < |skins[i].joints| && skins[i].joints[k] == nodes[j]
                && !TargetedFrom(skins, nodes, j, i + 1)
                && (forall k' :: k < k' < |skins[i].joints| ==> skins[i].joints[k'] != nodes[j])
                && ApplySkins(globals, skins, nodes, bindOf, s)[j] == bindOf(skins[i].inverseBindMatrices[k])
    decreases |skins| - s
  {
    if s < |skins| {
      var next := ApplySkin(globals, skins[s], nodes, bindOf, 0);
      ApplySkinEffect(globals, skins[s], nodes, bindOf, 0, j);
      ApplySkinsEffect(next, skins, nodes, bindOf, s + 1, j);
      if TargetedFrom(skins, nodes, j, s) && !TargetedFrom(skins, nodes, j, s + 1) {
        var i, k :| s <= i < |skins| && 0 <= k < |skins[i].joints| && skins[i].joints[k] == nodes[j];
        assert i == s;
      }
    }
  }

  /** The global bind transforms: each joint's rest global transform, then
      overwritten skin by skin from the inverse bind matrices. */
  function GlobalBindTransforms<N(==)>(rest: Pose, skins: seq<Skin<N>>, nodes: seq<N>, bindOf: Mat4 -> Transform): (r: seq<Transform>)
    requires WellFormed(rest) && Acyclic(rest) && JointCount(rest) == |nodes|
    requires forall i :: 0 <= i < |skins| ==> SkinFits(skins[i], nodes)
    ensures |r| == JointCount(rest)
  {
    var globals := seq(JointCount(rest), j requires 0 <= j < JointCount(rest) => GlobalTransform(rest, j));
    ApplySkins(globals, skins, nodes, bindOf, 0)
  }

  /** A joint no skin names keeps its rest global transform; a joint some
      skin names gets the bind transform of the inverse bind matrix of the
      last joint naming it, in the last skin that names it. */
  lemma GlobalBindTransformsSource<N>(rest: Pose, skins: seq<Skin<N>>, nodes: seq<N>, bindOf: Mat4 -> Transform, j: nat)
    requires WellFormed(rest) && Acyclic(rest) && JointCount(rest) == |nodes|
    requires forall i :: 0 <= i < |skins| ==> SkinFits(skins[i], nodes)
    requires DistinctNodes(nodes) && j < |nodes|
    ensures !TargetedFrom(skins, nodes, j, 0) ==>
              GlobalBindTransforms(rest, skins, nodes, bindOf)[j] == GlobalTransform(rest, j)
    ensures TargetedFrom(skins, nodes, j, 0) ==>
              exists i, k :: 0 <= i < |skins| && 0 <= k < |skins[i].joints| && skins[i].joints[k] == nodes[j]
                && !TargetedFrom(skins, nodes, j, i + 1)
                && (forall k' :: k < k' < |skins[i].joints| ==> skins[i].joints[k'] != nodes[j])
                && GlobalBindTransforms(rest, skins, nodes, bindOf)[j] == bindOf(skins[i].inverseBindMatrices[k])
  {
    var globals := seq(JointCount(rest), j requires 0 <= j < JointCount(rest) => GlobalTransform(rest, j));
    ApplySkinsEffect(globals, skins, nodes, bindOf, 0, j);
  }

  /** The last loop of `LoadBindPose`: a copy of the rest pose whose root
      joints take their global bind transform as it is, and whose other
      joints take it relative to their parent's, `combine(inverse(parent),
      global)`. */
  method LocalBindPose(rest: Pose, globals: seq<Transform>) returns (bind: Pose)
    requires WellFormed(rest) && |globals| == JointCount(rest)
    requires forall j :: 0 <= j < |rest.parents| ==> rest.parents[j] < |rest.parents|
    ensures WellFormed(bind) && bind.parents == rest.parents && JointCount(bind) == JointCount(rest)
    ensures forall j :: 0 <= j < JointCount(bind) && rest.parents[j] < 0 ==> bind.locals[j] == globals[j]
    ensures forall j :: 0 <= j < JointCount(bind) && rest.parents[j] >= 0 ==>
              bind.locals[j] == Combine(Inverse(globals[rest.parents[j]]), globals[j])
  {
    bind := rest;
    var j := 0;
    while j < JointCount(rest)
      invariant 0 <= j <= JointCount(rest)
      invariant WellFormed(bind) && bind.parents == rest.parents && JointCount(bind) == JointCount(rest)
      invariant forall i :: 0 <= i < j && rest.parents[i] < 0 ==> bind.locals[i] == globals[i]
      invariant forall i :: 0 <= i < j && rest.parents[i] >= 0 ==>
                  bind.locals[i] == Combine(Inverse(globals[rest.parents[i]]), globals[i])
    {
      var t := globals[j];
      var parent := bind.parents[j];
      if parent >= 0 {
        t := Combine(Inverse(globals[parent]), t);
      }
      bind := SetLocalTransform(bind, j, t);
      j := j + 1;
    }
  }

  /** `LoadBindPose`, given the rest pose built from the nodes. */
  method LoadBindPose<N(==)>(rest: Pose, skins: seq<Skin<N>>, nodes: seq<N>, bindOf: Mat4 -> Transform) returns (bind: Pose)
    requires WellFormed(rest) && Acyclic(rest) && JointCount(rest) == |nodes|
    requires forall i :: 0 <= i < |skins| ==> SkinFits(skins[i], nodes)
    ensures WellFormed(bind) && bind.parents == rest.parents
    ensures forall j :: 0 <= j < JointCount(bind) && rest.parents[j] < 0 ==>
              bind.locals[j] == GlobalBindTransforms(rest, skins, nodes, bindOf)[j]
    ensures forall j :: 0 <= j < JointCount(bind) && rest.parents[j] >= 0 ==>
              bind.locals[j] == Combine(Inverse(GlobalBindTransforms(rest, skins, nodes, bindOf)[rest.parents[j]]),
                                        GlobalBindTransforms(rest, skins, nodes, bindOf)[j])
  {
    var globals := GlobalBindTransforms(rest, skins, nodes, bindOf);
    bind := LocalBindPose(rest, globals);
  }
}
