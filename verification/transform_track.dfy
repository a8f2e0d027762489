/** `TTransformTrack`: the position, rotation and scale curves that animate
    one joint, identified by its joint ID. The same record stands for both
    `TransformTrack` and `FastTransformTrack`; which one it is shows in the
    curves' `search` field. */
module TransformTracks {
  import opened Numeric
  import opened Vectors
  import Q = Quaternions
  import opened Transforms
  import Tracks

  datatype TransformTrack = TransformTrack(
    jointId: nat,
    position: Tracks.Track<Vec3>,
    rotation: Tracks.Track<Q.Quat>,
    scale: Tracks.Track<Vec3>)

  /** A default-constructed transform track: joint 0 and three empty curves. */
  function NewTransformTrack(): (r: TransformTrack)
    ensures r.jointId == 0
    ensures |r.position.frames| == 0 && |r.rotation.frames| == 0 && |r.scale.frames| == 0
  {
    TransformTrack(0, Tracks.NewTrack(), Tracks.NewTrack(), Tracks.NewTrack())
  }

  /** A curve takes part in sampling and timing only with two or more frames. */
  predicate Animated<T>(track: Tracks.Track<T>)
  {
    |track.frames| > 1
  }

  /** `IsValid`: at least one of the three curves is animated. */
  predicate IsValid(t: TransformTrack)
  {
    Animated(t.position) || Animated(t.rotation) || Animated(t.scale)
  }

  /** The start and end times of the animated curves, in the order the
      source visits them (position, rotation, scale). */
  function Starts(t: TransformTrack): seq<real>
  {
    (if Animated(t.position) then [Tracks.StartTime(t.position.frames)] else [])
    + (if Animated(t.rotation) then [Tracks.StartTime(t.rotation.frames)] else [])
    + (if Animated(t.scale) then [Tracks.StartTime(t.scale.frames)] else [])
  }

  function Ends(t: TransformTrack): seq<real>
  {
    (if Animated(t.position) then [Tracks.EndTime(t.position.frames)] else [])
    + (if Animated(t.rotation) then [Tracks.EndTime(t.rotation.frames)] else [])
    + (if Animated(t.scale) then [Tracks.EndTime(t.scale.frames)] else [])
  }

  lemma TimesNonEmpty(t: TransformTrack)
    ensures IsValid(t) <==> |Starts(t)| > 0
    ensures IsValid(t) <==> |Ends(t)| > 0
  {
  }

  /** One step of the running minimum of `GetStartTime`: the candidate
      replaces the value found so far when it is smaller or when nothing has
      been found yet. */
  function Earlier(found: Option<real>, candidate: real): (r: Option<real>)
    ensures r.Some?
    ensures r.value <= candidate
    ensures found.Some? ==> r.value <= found.value
    ensures r.value == candidate || (found.Some? && r.value == found.value)
  {
    if found.None? || candidate < found.value then Some(candidate) else found
  }

  /** One step of the running maximum of `GetEndTime`. */
  function Later(found: Option<real>, candidate: real): (r: Option<real>)
    ensures r.Some?
    ensures r.value >= candidate
    ensures found.Some? ==> r.value >= found.value
    ensures r.value == candidate || (found.Some? && r.value == found.value)
  {
    if found.None? || candidate > found.value then Some(candidate) else found
  }

  /** Folds a step over the candidates, as the source's chain of `if`s does. */
  function FoldEarlier(found: Option<real>, xs: seq<real>): Option<real>
    decreases |xs|
  {
    if |xs| == 0 then found else FoldEarlier(Earlier(found, xs[0]), xs[1..])
  }

  function FoldLater(found: Option<real>, xs: seq<real>): Option<real>
    decreases |xs|
  {
    if |xs| == 0 then found else FoldLater(Later(found, xs[0]), xs[1..])
  }

  /** The running minimum is the least of the start value and the candidates,
      and is one of them. */
  lemma {:induction false} FoldEarlierIsMin(found: Option<real>, xs: seq<real>)
    ensures (found.Some? || |xs| > 0) <==> FoldEarlier(found, xs).Some?
    ensures FoldEarlier(found, xs).Some? ==>
              && (forall i :: 0 <= i < |xs| ==> FoldEarlier(found, xs).value <= xs[i])
              && (found.Some? ==> FoldEarlier(found, xs).value <= found.value)
              && (FoldEarlier(found, xs).value in xs || FoldEarlier(found, xs) == found)
    decreases |xs|
  {
    if |xs| > 0 {
      FoldEarlierIsMin(Earlier(found, xs[0]), xs[1..]);
      var r := FoldEarlier(found, xs);
      assert r == FoldEarlier(Earlier(found, xs[0]), xs[1..]);
      forall i | 0 <= i < |xs|
        ensures r.value <= xs[i]
      {
        if i > 0 {
          assert xs[i] == xs[1..][i - 1];
        }
      }
      if r.value !in xs[1..] {
        assert r == Earlier(found, xs[0]);
      }
    }
  }

  lemma {:induction false} FoldLaterIsMax(found: Option<real>, xs: seq<real>)
    ensures (found.Some? || |xs| > 0) <==> FoldLater(found, xs).Some?
    ensures FoldLater(found, xs).Some? ==>
              && (forall i :: 0 <= i < |xs| ==> FoldLater(found, xs).value >= xs[i])
              && (found.Some? ==> FoldLater(found, xs).value >= found.value)
              && (FoldLater(found, xs).value in xs || FoldLater(found, xs) == found)
    decreases |xs|
  {
    if |xs| > 0 {
      FoldLaterIsMax(Later(found, xs[0]), xs[1..]);
      var r := FoldLater(found, xs);
      assert r == FoldLater(Later(found, xs[0]), xs[1..]);
      forall i | 0 <= i < |xs|
        ensures r.value >= xs[i]
      {
        if i > 0 {
          assert xs[i] == xs[1..][i - 1];
        }
      }
      if r.value !in xs[1..] {
        assert r == Later(found, xs[0]);
      }
    }
  }

  /** `GetStartTime`: the earliest start of an animated curve, or 0 when
      none is animated. */
  function StartTime(t: TransformTrack): real
  {
    match FoldEarlier(None, Starts(t))
    case None => 0.0
    case Some(s) => s
  }

  /** `GetEndTime`: the latest end of an animated curve, or 0 when none is
      animated. */
  function EndTime(t: TransformTrack): real
  {
    match FoldLater(None, Ends(t))
    case None => 0.0
    case Some(e) => e
  }

  /** The start time is 0 for an invalid track; otherwise it is the start of
      one animated curve and no later than the start of any animated curve. */
  lemma StartTimeIsMin(t: TransformTrack)
    ensures !IsValid(t) ==> StartTime(t) == 0.0
    ensures IsValid(t) ==> StartTime(t) in Starts(t)
    ensures Animated(t.position) ==> StartTime(t) <= Tracks.StartTime(t.position.frames)
    ensures Animated(t.rotation) ==> StartTime(t) <= Tracks.StartTime(t.rotation.frames)
    ensures Animated(t.scale) ==> StartTime(t) <= Tracks.StartTime(t.scale.frames)
  {
    FoldEarlierIsMin(None, Starts(t));
    TimesNonEmpty(t);
    StartsMembers(t);
  }

  /** The end time is 0 for an invalid track; otherwise it is the end of one
      animated curve and no earlier than the end of any animated curve. */
  lemma EndTimeIsMax(t: TransformTrack)
    ensures !IsValid(t) ==> EndTime(t) == 0.0
    ensures IsValid(t) ==> EndTime(t) in Ends(t)
    ensures Animated(t.position) ==> EndTime(t) >= Tracks.EndTime(t.position.frames)
    ensures Animated(t.rotation) ==> EndTime(t) >= Tracks.EndTime(t.rotation.frames)
    ensures Animated(t.scale) ==> EndTime(t) >= Tracks.EndTime(t.scale.frames)
  {
    FoldLaterIsMax(None, Ends(t));
    TimesNonEmpty(t);
    EndsMembers(t);
  }

  lemma StartsMembers(t: TransformTrack)
    ensures Animated(t.position) ==> Tracks.StartTime(t.position.frames) in Starts(t)
    ensures Animated(t.rotation) ==> Tracks.StartTime(t.rotation.frames) in Starts(t)
    ensures Animated(t.scale) ==> Tracks.StartTime(t.scale.frames) in Starts(t)
  {
  }

  lemma EndsMembers(t: TransformTrack)
    ensures Animated(t.position) ==> Tracks.EndTime(t.position.frames) in Ends(t)
    ensures Animated(t.rotation) ==> Tracks.EndTime(t.rotation.frames) in Ends(t)
    ensures Animated(t.scale) ==> Tracks.EndTime(t.scale.frames) in Ends(t)
  {
  }

  /** `Sample(defaultTransform, time, looping)`: each animated curve is
      sampled on its own; a component whose curve is not animated keeps the
      default's value. */
  function Sample(t: TransformTrack, default: Transform, time: real, looping: bool, rsqrt: real -> real): (r: Transform)
    ensures r.position == if Animated(t.position) then Tracks.Sample(t.position, Tracks.VectorBlend(), time, looping) else default.position
    ensures r.rotation == if Animated(t.rotation) then Tracks.Sample(t.rotation, Tracks.QuatBlend(rsqrt), time, looping) else default.rotation
    ensures r.scale == if Animated(t.scale) then Tracks.Sample(t.scale, Tracks.VectorBlend(), time, looping) else default.scale
  {
    var p := if Animated(t.position) then Tracks.Sample(t.position, Tracks.VectorBlend(), time, looping) else default.position;
    var q := if Animated(t.rotation) then Tracks.Sample(t.rotation, Tracks.QuatBlend(rsqrt), time, looping) else default.rotation;
    var s := if Animated(t.scale) then Tracks.Sample(t.scale, Tracks.VectorBlend(), time, looping) else default.scale;
    Transform(p, q, s)
  }

  /** An invalid track samples to the default transform, whatever the time. */
  lemma SampleInvalid(t: TransformTrack, default: Transform, time: real, looping: bool, rsqrt: real -> real)
    requires !IsValid(t)
    ensures Sample(t, default, time, looping, rsqrt) == default
  {
  }

  /** What a sampled transform depends on: two defaults that agree on the
      non-animated components sample to the same transform. */
  lemma SampleIgnoresAnimatedDefaults(t: TransformTrack, d1: Transform, d2: Transform, time: real, looping: bool, rsqrt: real -> real)
    requires !Animated(t.position) ==> d1.position == d2.position
    requires !Animated(t.rotation) ==> d1.rotation == d2.rotation
    requires !Animated(t.scale) ==> d1.scale == d2.scale
    ensures Sample(t, d1, time, looping, rsqrt) == Sample(t, d2, time, looping, rsqrt)
  {
  }

  /** `OptimizeTransformTrack`: same joint, each curve optimised. */
  function Optimize(t: TransformTrack): (r: TransformTrack)
    ensures r.jointId == t.jointId
    ensures r.position == Tracks.Optimize(t.position)
    ensures r.rotation == Tracks.Optimize(t.rotation)
    ensures r.scale == Tracks.Optimize(t.scale)
  {
    TransformTrack(t.jointId, Tracks.Optimize(t.position), Tracks.Optimize(t.rotation), Tracks.Optimize(t.scale))
  }

  /** Optimising keeps every frame, so validity and the start and end times
      are unchanged. */
  lemma OptimizeKeepsTiming(t: TransformTrack)
    ensures IsValid(Optimize(t)) <==> IsValid(t)
    ensures StartTime(Optimize(t)) == StartTime(t)
    ensures EndTime(Optimize(t)) == EndTime(t)
  {
    assert Starts(Optimize(t)) == Starts(t);
    assert Ends(Optimize(t)) == Ends(t);
  }
}
