/** `TClip`: a named animation made of transform tracks, with the time range
    they cover and a looping flag; it samples itself into a pose. `Clip` and
    `FastClip` share this record, as the transform tracks do. */
module Clips {
  import opened Numeric
  import opened Transforms
  import TT = TransformTracks
  import Poses
  import Tracks

  datatype Clip = Clip(name: string, tracks: seq<TT.TransformTrack>, startTime: real, endTime: real, looping: bool)

  /** A default-constructed clip. */
  function NewClip(): (r: Clip)
    ensures r.name == "Unnamed" && |r.tracks| == 0
    ensures r.startTime == 0.0 && r.endTime == 0.0 && r.looping
  {
    Clip("Unnamed", [], 0.0, 0.0, true)
  }

  function Duration(c: Clip): real
  {
    c.endTime - c.startTime
  }

  /** No two tracks animate the same joint. */
  predicate UniqueIds(tracks: seq<TT.TransformTrack>)
  {
    forall i, j :: 0 <= i < j < |tracks| ==> tracks[i].jointId != tracks[j].jointId
  }

  /** The joints some track animates. */
  function AnimatedJoints(tracks: seq<TT.TransformTrack>): set<nat>
  {
    set i | 0 <= i < |tracks| :: tracks[i].jointId
  }

  /** The index of the first track for joint `id`, if any. */
  function FindTrack(tracks: seq<TT.TransformTrack>, id: nat): (r: Option<nat>)
    ensures r.Some? ==> r.value < |tracks| && tracks[r.value].jointId == id
    ensures r.Some? ==> forall i :: 0 <= i < r.value ==> tracks[i].jointId != id
    ensures r.None? <==> id !in AnimatedJoints(tracks)
    decreases |tracks|
  {
    if |tracks| == 0 then None
    else if tracks[|tracks| - 1].jointId == id && FindTrack(tracks[..|tracks| - 1], id).None? then Some(|tracks| - 1)
    else
      var r := FindTrack(tracks[..|tracks| - 1], id);
      assert AnimatedJoints(tracks) == AnimatedJoints(tracks[..|tracks| - 1]) + {tracks[|tracks| - 1].jointId};
      r
  }

  /** `GetTransformTrackOfJoint(id)`: the clip (grown by one empty track for
      `id` when none existed) and the index of the track the source returns
      a reference to. */
  function TrackOfJoint(c: Clip, id: nat): (r: (Clip, nat))
    ensures r.1 < |r.0.tracks| && r.0.tracks[r.1].jointId == id
    ensures r.0.name == c.name && r.0.startTime == c.startTime && r.0.endTime == c.endTime && r.0.looping == c.looping
    ensures id in AnimatedJoints(c.tracks) ==> r.0 == c && forall i :: 0 <= i < r.1 ==> c.tracks[i].jointId != id
    ensures id !in AnimatedJoints(c.tracks) ==>
              r.0.tracks == c.tracks + [TT.NewTransformTrack().(jointId := id)] && r.1 == |c.tracks|
  {
    match FindTrack(c.tracks, id)
    case Some(i) => (c, i)
    case None => (c.(tracks := c.tracks + [TT.NewTransformTrack().(jointId := id)]), |c.tracks|)
  }

  /** `SetTransformTrackOfJoint(id, track)`: the first track for `id` is
      overwritten by `track` as given (its own joint ID included); when there
      is none, `track` is appended with its joint ID set to `id`. */
  function SetTrackOfJoint(c: Clip, id: nat, track: TT.TransformTrack): (r: Clip)
    ensures r.name == c.name && r.startTime == c.startTime && r.endTime == c.endTime && r.looping == c.looping
    ensures id in AnimatedJoints(c.tracks) ==>
              |r.tracks| == |c.tracks| &&
              exists k :: 0 <= k < |c.tracks| && c.tracks[k].jointId == id && r.tracks == c.tracks[k := track] &&
                          forall j :: 0 <= j < k ==> c.tracks[j].jointId != id
    ensures id !in AnimatedJoints(c.tracks) ==> r.tracks == c.tracks + [track.(jointId := id)]
  {
    match FindTrack(c.tracks, id)
    case Some(i) => c.(tracks := c.tracks[i := track])
    case None => c.(tracks := c.tracks + [track.(jointId := id)])
  }

  /** Setting a track whose joint ID is `id` keeps the joint IDs unique and
      makes `track` the one found for `id`. */
  lemma SetTrackOfJointUnique(c: Clip, id: nat, track: TT.TransformTrack)
    requires UniqueIds(c.tracks) && track.jointId == id
    ensures UniqueIds(SetTrackOfJoint(c, id, track).tracks)
    ensures AnimatedJoints(SetTrackOfJoint(c, id, track).tracks) == AnimatedJoints(c.tracks) + {id}
    ensures var r := SetTrackOfJoint(c, id, track);
            FindTrack(r.tracks, id).Some? && r.tracks[FindTrack(r.tracks, id).value] == track
  {
    var r := SetTrackOfJoint(c, id, track);
    var ts := r.tracks;
    match FindTrack(c.tracks, id)
    case Some(i) =>
      assert ts == c.tracks[i := track];
      assert AnimatedJoints(ts) == AnimatedJoints(c.tracks) by {
        forall x ensures x in AnimatedJoints(ts) <==> x in AnimatedJoints(c.tracks) {
          if x in AnimatedJoints(c.tracks) {
            var k :| 0 <= k < |c.tracks| && c.tracks[k].jointId == x;
            assert ts[k].jointId == x;
          }
        }
      }
      UniqueFindIsOnly(ts, i, id);
    case None =>
      assert ts == c.tracks + [track];
      assert AnimatedJoints(ts) == AnimatedJoints(c.tracks) + {id} by {
        forall x ensures x in AnimatedJoints(ts) <==> x in AnimatedJoints(c.tracks) + {id} {
          if x in AnimatedJoints(c.tracks) {
            var k :| 0 <= k < |c.tracks| && c.tracks[k].jointId == x;
            assert ts[k].jointId == x;
          }
          if x == id {
            assert ts[|c.tracks|].jointId == x;
          }
        }
      }
      UniqueFindIsOnly(ts, |c.tracks|, id);
  }

  /** With unique joint IDs the track found for an ID is the only one. */
  lemma UniqueFindIsOnly(tracks: seq<TT.TransformTrack>, i: nat, id: nat)
    requires UniqueIds(tracks) && i < |tracks| && tracks[i].jointId == id
    ensures FindTrack(tracks, id) == Some(i)
  {
  }

  /** The running minimum of `RecalculateDuration` over the valid tracks:
      a valid track's start replaces the value found so far when it is
      smaller or when nothing has been found yet. */
  function EarliestStart(found: Option<real>, tracks: seq<TT.TransformTrack>): Option<real>
    decreases |tracks|
  {
    if |tracks| == 0 then found
    else EarliestStart(if TT.IsValid(tracks[0]) then TT.Earlier(found, TT.StartTime(tracks[0])) else found, tracks[1..])
  }

  /** The running maximum of the valid tracks' ends. */
  function LatestEnd(found: Option<real>, tracks: seq<TT.TransformTrack>): Option<real>
    decreases |tracks|
  {
    if |tracks| == 0 then found
    else LatestEnd(if TT.IsValid(tracks[0]) then TT.Later(found, TT.EndTime(tracks[0])) else found, tracks[1..])
  }

  predicate AnyValid(tracks: seq<TT.TransformTrack>)
  {
    exists i :: 0 <= i < |tracks| && TT.IsValid(tracks[i])
  }

  /** The running minimum is no later than any valid track's start and than
      the value it started from, and is one of those. */
  lemma {:induction false} EarliestStartIsMin(found: Option<real>, tracks: seq<TT.TransformTrack>)
    ensures EarliestStart(found, tracks).Some? <==> found.Some? || AnyValid(tracks)
    ensures EarliestStart(found, tracks).Some? ==>
              && (forall i :: 0 <= i < |tracks| && TT.IsValid(tracks[i]) ==> EarliestStart(found, tracks).value <= TT.StartTime(tracks[i]))
              && (found.Some? ==> EarliestStart(found, tracks).value <= found.value)
              && (EarliestStart(found, tracks) == found ||
                  exists i :: 0 <= i < |tracks| && TT.IsValid(tracks[i]) && EarliestStart(found, tracks).value == TT.StartTime(tracks[i]))
    decreases |tracks|
  {
    if |tracks| > 0 {
      var t0 := tracks[0];
      var next := if TT.IsValid(t0) then TT.Earlier(found, TT.StartTime(t0)) else found;
      EarliestStartIsMin(next, tracks[1..]);
      var r := EarliestStart(found, tracks);
      assert r == EarliestStart(next, tracks[1..]);
      ShiftValid(tracks);
      if r.Some? {
        forall i | 0 <= i < |tracks| && TT.IsValid(tracks[i])
          ensures r.value <= TT.StartTime(tracks[i])
        {
          if i > 0 {
            assert tracks[i] == tracks[1..][i - 1];
          }
        }
        if r != found && r != next {
          var i :| 0 <= i < |tracks[1..]| && TT.IsValid(tracks[1..][i]) && r.value == TT.StartTime(tracks[1..][i]);
          assert tracks[i + 1] == tracks[1..][i];
        }
      }
    }
  }

  lemma {:induction false} LatestEndIsMax(found: Option<real>, tracks: seq<TT.TransformTrack>)
    ensures LatestEnd(found, tracks).Some? <==> found.Some? || AnyValid(tracks)
    ensures LatestEnd(found, tracks).Some? ==>
              && (forall i :: 0 <= i < |tracks| && TT.IsValid(tracks[i]) ==> LatestEnd(found, tracks).value >= TT.EndTime(tracks[i]))
              && (found.Some? ==> LatestEnd(found, tracks).value >= found.value)
              && (LatestEnd(found, tracks) == found ||
                  exists i :: 0 <= i < |tracks| && TT.IsValid(tracks[i]) && LatestEnd(found, tracks).value == TT.EndTime(tracks[i]))
    decreases |tracks|
  {
    if |tracks| > 0 {
      var t0 := tracks[0];
      var next := if TT.IsValid(t0) then TT.Later(found, TT.EndTime(t0)) else found;
      LatestEndIsMax(next, tracks[1..]);
      var r := LatestEnd(found, tracks);
      assert r == LatestEnd(next, tracks[1..]);
      ShiftValid(tracks);
      if r.Some? {
        forall i | 0 <= i < |tracks| && TT.IsValid(tracks[i])
          ensures r.value >= TT.EndTime(tracks[i])
        {
          if i > 0 {
            assert tracks[i] == tracks[1..][i - 1];
          }
        }
        if r != found && r != next {
          var i :| 0 <= i < |tracks[1..]| && TT.IsValid(tracks[1..][i]) && r.value == TT.EndTime(tracks[1..][i]);
          assert tracks[i + 1] == tracks[1..][i];
        }
      }
    }
  }

  lemma ShiftValid(tracks: seq<TT.TransformTrack>)
    requires |tracks| > 0
    ensures AnyValid(tracks) <==> TT.IsValid(tracks[0]) || AnyValid(tracks[1..])
  {
    if AnyValid(tracks) && !TT.IsValid(tracks[0]) {
      var i :| 0 <= i < |tracks| && TT.IsValid(tracks[i]);
      assert tracks[1..][i - 1] == tracks[i];
    }
    if AnyValid(tracks[1..]) {
      var i :| 0 <= i < |tracks[1..]| && TT.IsValid(tracks[1..][i]);
      assert tracks[i + 1] == tracks[1..][i];
    }
  }

  /** `RecalculateDuration`: the start becomes the earliest start and the end
      the latest end over the valid tracks, both 0 when there are none. */
  function RecalculateDuration(c: Clip): (r: Clip)
    ensures r.name == c.name && r.tracks == c.tracks && r.looping == c.looping
  {
    var s := EarliestStart(None, c.tracks);
    var e := LatestEnd(None, c.tracks);
    c.(startTime := if s.Some? then s.value else 0.0, endTime := if e.Some? then e.value else 0.0)
  }

  /** The recalculated range is exactly the hull of the valid tracks' ranges:
      it contains each of them, its ends are attained by some valid track,
      and it is `[0, 0]` when no track is valid. */
  lemma RecalculateDurationIsHull(c: Clip)
    ensures !AnyValid(c.tracks) ==> RecalculateDuration(c).startTime == 0.0 && RecalculateDuration(c).endTime == 0.0
    ensures forall i :: 0 <= i < |c.tracks| && TT.IsValid(c.tracks[i]) ==>
              RecalculateDuration(c).startTime <= TT.StartTime(c.tracks[i]) &&
              TT.EndTime(c.tracks[i]) <= RecalculateDuration(c).endTime
    ensures AnyValid(c.tracks) ==>
              exists i :: 0 <= i < |c.tracks| && TT.IsValid(c.tracks[i]) && RecalculateDuration(c).startTime == TT.StartTime(c.tracks[i])
    ensures AnyValid(c.tracks) ==>
              exists i :: 0 <= i < |c.tracks| && TT.IsValid(c.tracks[i]) && RecalculateDuration(c).endTime == TT.EndTime(c.tracks[i])
  {
    EarliestStartIsMin(None, c.tracks);
    LatestEndIsMax(None, c.tracks);
  }

  /** `IsTimePastEnd`: only a non-looping clip ends. */
  predicate IsTimePastEnd(c: Clip, time: real)
  {
    !c.looping && time >= c.endTime
  }

  /** `AdjustTimeToBeWithinClip`. Looping: 0 for a non-positive duration,
      otherwise the floored remainder of the offset from the start, moved
      back to the start (the same wrap a looping track applies). Not
      looping: raised to the start, then lowered to the end. */
  function AdjustTime(c: Clip, time: real): (r: real)
    ensures c.looping && Duration(c) <= 0.0 ==> r == 0.0
    ensures c.looping && Duration(c) > 0.0 ==> c.startTime <= r < c.endTime
    ensures !c.looping && c.startTime <= time <= c.endTime ==> r == time
    ensures !c.looping && c.startTime <= c.endTime ==> c.startTime <= r <= c.endTime
    ensures !c.looping && time < c.startTime && c.startTime <= c.endTime ==> r == c.startTime
    ensures !c.looping && time > c.endTime ==> r == c.endTime
  {
    if c.looping then
      var duration := c.endTime - c.startTime;
      if duration <= 0.0 then 0.0
      else Tracks.LoopTime(time, c.startTime, duration).value
    else
      var raised := if time < c.startTime then c.startTime else time;
      if raised > c.endTime then c.endTime else raised
  }

  /** Looping, times a whole number of durations apart adjust alike. */
  lemma AdjustTimePeriodic(c: Clip, time: real, k: int)
    requires c.looping && Duration(c) > 0.0
    ensures AdjustTime(c, Tracks.Shift(time, k, Duration(c))) == AdjustTime(c, time)
  {
    Tracks.LoopTimePeriodic(time, c.startTime, Duration(c), k);
  }

  /** Adjusting is idempotent: an adjusted time is left alone. */
  lemma AdjustTimeIdempotent(c: Clip, time: real)
    ensures AdjustTime(c, AdjustTime(c, time)) == AdjustTime(c, time)
  {
    if c.looping && Duration(c) > 0.0 {
      var t := AdjustTime(c, time);
      FloorModOfInRange(t - c.startTime, Duration(c));
    }
  }

  /** What `Sample` leaves in the pose: track by track, the joint's local
      transform replaced by the track's sample with that transform as the
      default. */
  function SampleTracks(tracks: seq<TT.TransformTrack>, pose: Poses.Pose, time: real, looping: bool, rsqrt: real -> real): (r: Poses.Pose)
    requires forall i :: 0 <= i < |tracks| ==> tracks[i].jointId < |pose.locals|
    ensures |r.locals| == |pose.locals| && r.parents == pose.parents
    decreases |tracks|
  {
    if |tracks| == 0 then pose
    else
      var before := SampleTracks(tracks[..|tracks| - 1], pose, time, looping, rsqrt);
      var id := tracks[|tracks| - 1].jointId;
      Poses.SetLocalTransform(before, id, TT.Sample(tracks[|tracks| - 1], before.locals[id], time, looping, rsqrt))
  }

  /** `Sample(pose, time)`. A clip of non-positive duration returns 0 and
      leaves the pose alone. Otherwise the time is adjusted, each track in
      turn overwrites its joint's local transform with its sample (the
      joint's current transform supplying the non-animated components), and
      the adjusted time is returned. Parents and the joints no track animates
      are untouched; with unique joint IDs each animated joint holds its
      track's sample of its original transform. */
  method Sample(c: Clip, pose: Poses.Pose, time: real, rsqrt: real -> real) returns (adjusted: real, out: Poses.Pose)
    requires Duration(c) > 0.0 ==> forall i :: 0 <= i < |c.tracks| ==> c.tracks[i].jointId < |pose.locals|
    ensures Duration(c) <= 0.0 ==> adjusted == 0.0 && out == pose
    ensures Duration(c) > 0.0 ==> adjusted == AdjustTime(c, time)
    ensures |out.locals| == |pose.locals| && out.parents == pose.parents
    ensures forall j :: 0 <= j < |pose.locals| && j !in AnimatedJoints(c.tracks) ==> out.locals[j] == pose.locals[j]
    ensures Duration(c) > 0.0 ==> out == SampleTracks(c.tracks, pose, adjusted, c.looping, rsqrt)
    ensures Duration(c) > 0.0 && UniqueIds(c.tracks) ==>
              forall i :: 0 <= i < |c.tracks| ==>
                out.locals[c.tracks[i].jointId] == TT.Sample(c.tracks[i], pose.locals[c.tracks[i].jointId], adjusted, c.looping, rsqrt)
  {
    if Duration(c) <= 0.0 {
      return 0.0, pose;
    }
    adjusted := AdjustTime(c, time);
    out := pose;
    var k := 0;
    while k < |c.tracks|
      invariant 0 <= k <= |c.tracks|
      invariant out == SampleTracks(c.tracks[..k], pose, adjusted, c.looping, rsqrt)
    {
      var track := c.tracks[k];
      var id := track.jointId;
      out := Poses.SetLocalTransform(out, id, TT.Sample(track, out.locals[id], adjusted, c.looping, rsqrt));
      assert c.tracks[..k + 1][..k] == c.tracks[..k];
      k := k + 1;
    }
    assert c.tracks[..k] == c.tracks;
    SampleTracksUntouched(c.tracks, pose, adjusted, c.looping, rsqrt);
    if UniqueIds(c.tracks) {
      SampleTracksUnique(c.tracks, pose, adjusted, c.looping, rsqrt);
    }
  }

  /** Joints no track animates keep their local transform. */
  lemma {:induction false} SampleTracksUntouched(tracks: seq<TT.TransformTrack>, pose: Poses.Pose, time: real, looping: bool, rsqrt: real -> real)
    requires forall i :: 0 <= i < |tracks| ==> tracks[i].jointId < |pose.locals|
    ensures forall j :: 0 <= j < |pose.locals| && j !in AnimatedJoints(tracks) ==>
              SampleTracks(tracks, pose, time, looping, rsqrt).locals[j] == pose.locals[j]
    decreases |tracks|
  {
    if |tracks| > 0 {
      var prefix := tracks[..|tracks| - 1];
      SampleTracksUntouched(prefix, pose, time, looping, rsqrt);
      assert tracks == prefix + [tracks[|tracks| - 1]];
      assert AnimatedJoints(tracks) == AnimatedJoints(prefix) + {tracks[|tracks| - 1].jointId};
    }
  }

  /** With unique joint IDs every animated joint ends up with its track's
      sample of the joint's original local transform. */
  lemma {:induction false} SampleTracksUnique(tracks: seq<TT.TransformTrack>, pose: Poses.Pose, time: real, looping: bool, rsqrt: real -> real)
    requires forall i :: 0 <= i < |tracks| ==> tracks[i].jointId < |pose.locals|
    requires UniqueIds(tracks)
    ensures forall i :: 0 <= i < |tracks| ==>
              SampleTracks(tracks, pose, time, looping, rsqrt).locals[tracks[i].jointId]
              == TT.Sample(tracks[i], pose.locals[tracks[i].jointId], time, looping, rsqrt)
    decreases |tracks|
  {
    if |tracks| > 0 {
      var n := |tracks|;
      var prefix := tracks[..n - 1];
      var id := tracks[n - 1].jointId;
      SampleTracksUnique(prefix, pose, time, looping, rsqrt);
      SampleTracksUntouched(prefix, pose, time, looping, rsqrt);
      assert id !in AnimatedJoints(prefix);
      forall i | 0 <= i < n
        ensures SampleTracks(tracks, pose, time, looping, rsqrt).locals[tracks[i].jointId]
                == TT.Sample(tracks[i], pose.locals[tracks[i].jointId], time, looping, rsqrt)
      {
        if i < n - 1 {
          assert tracks[i] == prefix[i];
        }
      }
    }
  }

  /** What `OptimizeClip` has built after visiting the first `i` source
      tracks. */
  predicate OptimizedUpTo(c: Clip, fast: Clip, i: nat)
    requires i <= |c.tracks|
  {
    && fast.name == c.name && fast.looping == c.looping
    && UniqueIds(fast.tracks)
    && AnimatedJoints(fast.tracks) == AnimatedJoints(c.tracks[..i])
    && (UniqueIds(c.tracks) ==> fast.tracks == seq(i, k requires 0 <= k < i => TT.Optimize(c.tracks[k])))
  }

  /** One iteration of `OptimizeClip`'s loop keeps `OptimizedUpTo`. */
  lemma OptimizeStep(c: Clip, fast: Clip, i: nat)
    requires i < |c.tracks| && OptimizedUpTo(c, fast, i)
    ensures var id := c.tracks[i].jointId;
            var found := TrackOfJoint(c, id);
            OptimizedUpTo(c, SetTrackOfJoint(fast, id, TT.Optimize(found.0.tracks[found.1])), i + 1)
  {
    var id := c.tracks[i].jointId;
    assert id in AnimatedJoints(c.tracks);
    var found := TrackOfJoint(c, id);
    var track := TT.Optimize(found.0.tracks[found.1]);
    OptimizeStepJoints(c, fast, i, track);
    if UniqueIds(c.tracks) {
      UniqueFindIsOnly(c.tracks, i, id);
      OptimizeStepOrdered(c, fast, i);
    }
  }

  lemma OptimizeStepJoints(c: Clip, fast: Clip, i: nat, track: TT.TransformTrack)
    requires i < |c.tracks| && UniqueIds(fast.tracks) && AnimatedJoints(fast.tracks) == AnimatedJoints(c.tracks[..i])
    requires track.jointId == c.tracks[i].jointId
    ensures UniqueIds(SetTrackOfJoint(fast, c.tracks[i].jointId, track).tracks)
    ensures AnimatedJoints(SetTrackOfJoint(fast, c.tracks[i].jointId, track).tracks) == AnimatedJoints(c.tracks[..i + 1])
  {
    var id := c.tracks[i].jointId;
    SetTrackOfJointUnique(fast, id, track);
    assert c.tracks[..i + 1] == c.tracks[..i] + [c.tracks[i]];
    assert AnimatedJoints(c.tracks[..i + 1]) == AnimatedJoints(c.tracks[..i]) + {id};
  }

  lemma OptimizeStepOrdered(c: Clip, fast: Clip, i: nat)
    requires i < |c.tracks| && UniqueIds(c.tracks)
    requires AnimatedJoints(fast.tracks) == AnimatedJoints(c.tracks[..i])
    requires fast.tracks == seq(i, k requires 0 <= k < i => TT.Optimize(c.tracks[k]))
    ensures SetTrackOfJoint(fast, c.tracks[i].jointId, TT.Optimize(c.tracks[i])).tracks
            == seq(i + 1, k requires 0 <= k < i + 1 => TT.Optimize(c.tracks[k]))
  {
    var id := c.tracks[i].jointId;
    assert id !in AnimatedJoints(c.tracks[..i]);
  }

  /** `OptimizeClip`: name and looping copied; for each source track, the
      first source track for its joint is optimised and set on the fast clip;
      then the duration is recalculated. The fast clip has one track per
      animated joint; with unique joint IDs it has exactly the optimised
      tracks, in the same order. */
  method OptimizeClip(c: Clip) returns (fast: Clip)
    ensures fast.name == c.name && fast.looping == c.looping
    ensures UniqueIds(fast.tracks)
    ensures AnimatedJoints(fast.tracks) == AnimatedJoints(c.tracks)
    ensures fast == RecalculateDuration(fast)
    ensures UniqueIds(c.tracks) ==> |fast.tracks| == |c.tracks|
    ensures UniqueIds(c.tracks) ==> forall i :: 0 <= i < |c.tracks| ==> fast.tracks[i] == TT.Optimize(c.tracks[i])
    ensures UniqueIds(c.tracks) ==>
              fast.startTime == RecalculateDuration(c).startTime && fast.endTime == RecalculateDuration(c).endTime
  {
    fast := NewClip().(name := c.name, looping := c.looping);
    var i := 0;
    while i < |c.tracks|
      invariant 0 <= i <= |c.tracks|
      invariant OptimizedUpTo(c, fast, i)
    {
      var id := c.tracks[i].jointId;
      var found := TrackOfJoint(c, id);
      OptimizeStep(c, fast, i);
      fast := SetTrackOfJoint(fast, id, TT.Optimize(found.0.tracks[found.1]));
      i := i + 1;
    }
    assert c.tracks[..i] == c.tracks;
    fast := RecalculateDuration(fast);
    if UniqueIds(c.tracks) {
      OptimizedTimesAgree(None, c.tracks, fast.tracks);
    }
  }

  /** Optimised tracks cover the same time range as the originals. */
  lemma {:induction false} OptimizedTimesAgree(found: Option<real>, tracks: seq<TT.TransformTrack>, optimized: seq<TT.TransformTrack>)
    requires |optimized| == |tracks|
    requires forall i :: 0 <= i < |tracks| ==> optimized[i] == TT.Optimize(tracks[i])
    ensures EarliestStart(found, optimized) == EarliestStart(found, tracks)
    ensures LatestEnd(found, optimized) == LatestEnd(found, tracks)
    decreases |tracks|
  {
    if |tracks| > 0 {
      TT.OptimizeKeepsTiming(tracks[0]);
      var s := if TT.IsValid(tracks[0]) then TT.Earlier(found, TT.StartTime(tracks[0])) else found;
      var e := if TT.IsValid(tracks[0]) then TT.Later(found, TT.EndTime(tracks[0])) else found;
      OptimizedTimesAgree(s, tracks[1..], optimized[1..]);
      OptimizedTimesAgree(e, tracks[1..], optimized[1..]);
    }
  }
}
