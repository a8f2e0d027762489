/** Keyframe tracks (`Track<T, N>` and `FastTrack<T, N>`): finding the frame
    before a time, bringing a time into the track's range, constant, linear
    and cubic Hermite sampling, and the fast sample-to-frame table.

    The C++ class template is instantiated for `float`, `glm::vec3` and
    `Q::quat`; here one generic `Track<T>` takes a `Blend<T>` record that
    holds what differs between the three instantiations (the `TrackHelpers`
    overloads, `Cast` and `T()`). */
module Tracks {
  import opened Numeric
  import opened Vectors
  import Q = Quaternions

  /** `Interpolation::Constant`, `Linear` and `Cubic`. */
  datatype Interpolation = Constant | Linear | Cubic

  /** A keyframe: its value, the incoming and outgoing slopes used by cubic
      sampling, and its time. */
  datatype Frame<T> = Frame(value: T, inSlope: T, outSlope: T, time: real)

  /** How the frame before a time is found: the backward linear scan of
      `Track`, or the sample-to-frame table of `FastTrack`. */
  datatype FrameSearch = LinearScan | SampleTable(entries: seq<nat>)

  datatype Track<T> = Track(interpolation: Interpolation, frames: seq<Frame<T>>, search: FrameSearch)

  /** The per-type helpers of one instantiation: `T()`, `+`, `* float`,
      `TrackHelpers::Interpolate`, `TrackHelpers::NeighborhoodCheck` (the
      adjusted second argument), `TrackHelpers::AdjustResultOfCubicHermiteSpline`
      and `Cast`. */
  datatype Blend<!T> = Blend(
    zero: T,
    add: (T, T) -> T,
    scale: (T, real) -> T,
    interpolate: (T, T, real) -> T,
    neighbourhood: (T, T) -> T,
    adjustCubic: T -> T,
    cast: T -> T)

  /** `ScalarTrack`: `a + (b - a) t`, no neighbourhood check, no adjustment. */
  function ScalarBlend(): Blend<real>
  {
    Blend(0.0, (a: real, b: real) => a + b, (a: real, f: real) => a * f,
          (a: real, b: real, t: real) => a + (b - a) * t,
          (a: real, b: real) => b, (a: real) => a, (a: real) => a)
  }

  /** `VectorTrack`: `glm::lerp`, no neighbourhood check, no adjustment. */
  function VectorBlend(): Blend<Vec3>
  {
    Blend(Zero3, (a: Vec3, b: Vec3) => Add3(a, b), (a: Vec3, f: real) => Scale3(a, f),
          (a: Vec3, b: Vec3, t: real) => Lerp3(a, b, t),
          (a: Vec3, b: Vec3) => b, (a: Vec3) => a, (a: Vec3) => a)
  }

  /** The quaternion neighbourhood check: `b` is negated when it lies in the
      opposite hemisphere from `a`. */
  function Neighbour(a: Q.Quat, b: Q.Quat): (r: Q.Quat)
    ensures Q.Dot(a, b) < 0.0 ==> r == Q.Neg(b)
    ensures Q.Dot(a, b) >= 0.0 ==> r == b
    ensures Q.Dot(a, r) >= 0.0
  {
    if Q.Dot(a, b) < 0.0 then Q.Neg(b) else b
  }

  /** `QuaternionTrack`: nlerp after the neighbourhood check, and both `Cast`
      and the Hermite result are normalised; `rsqrt` is the reciprocal square
      root `normalized` relies on. */
  function QuatBlend(rsqrt: real -> real): Blend<Q.Quat>
  {
    Blend(Q.Identity, (a: Q.Quat, b: Q.Quat) => Q.Add(a, b), (a: Q.Quat, f: real) => Q.Scale(a, f),
          (a: Q.Quat, b: Q.Quat, t: real) => Q.Nlerp(a, Neighbour(a, b), t, rsqrt),
          (a: Q.Quat, b: Q.Quat) => Neighbour(a, b),
          (a: Q.Quat) => Q.Normalized(a, rsqrt), (a: Q.Quat) => Q.Normalized(a, rsqrt))
  }

  /** A default-constructed track: linear interpolation and no frames. */
  function NewTrack<T>(): (r: Track<T>)
    ensures r.interpolation == Linear && |r.frames| == 0 && r.search == LinearScan
  {
    Track(Linear, [], LinearScan)
  }

  function StartTime<T>(frames: seq<Frame<T>>): real
    requires |frames| > 0
  {
    frames[0].time
  }

  function EndTime<T>(frames: seq<Frame<T>>): real
    requires |frames| > 0
  {
    frames[|frames| - 1].time
  }

  /** Frame times never decrease. */
  predicate Sorted<T>(frames: seq<Frame<T>>)
  {
    forall i, j :: 0 <= i < j < |frames| ==> frames[i].time <= frames[j].time
  }

  /** Frame times strictly increase. */
  predicate StrictlySorted<T>(frames: seq<Frame<T>>)
  {
    forall i, j :: 0 <= i < j < |frames| ==> frames[i].time < frames[j].time
  }

  // ----- finding the frame before a time -----

  /** The backward scan over the first `count` frames: the last frame whose
      time is at or before `time`, or `None` when every one lies after it. */
  function ScanBack<T>(frames: seq<Frame<T>>, time: real, count: nat): (r: Option<nat>)
    requires count <= |frames|
    decreases count
    ensures r.Some? ==> r.value < count && frames[r.value].time <= time
    ensures r.Some? ==> forall j :: r.value < j < count ==> frames[j].time > time
    ensures r.None? ==> forall j :: 0 <= j < count ==> frames[j].time > time
  {
    if count == 0 then None
    else if time >= frames[count - 1].time then Some(count - 1)
    else ScanBack(frames, time, count - 1)
  }

  /** The looped time `start + mod(time - start, duration)`, with the
      source's extra `+ duration` for a negative remainder; `None` stands for
      the NaN that `glm::mod` yields for a zero duration. */
  function LoopTime(time: real, start: real, duration: real): (r: Option<real>)
    ensures duration == 0.0 <==> r.None?
    ensures duration > 0.0 ==> r.Some? && start <= r.value < start + duration
  {
    if duration == 0.0 then None
    else
      var m := FloorMod(time - start, duration);
      var t := (if m < 0.0 then m + duration else m) + start;
      if duration > 0.0 then FloorModRange(time - start, duration); Some(t) else Some(t)
  }

  /** `time` moved by `k` whole durations. */
  function Shift(time: real, k: int, duration: real): real
  {
    time + (k as real) * duration
  }

  /** Shifting the time by whole durations does not change the looped time. */
  lemma LoopTimePeriodic(time: real, start: real, duration: real, k: int)
    requires duration > 0.0
    ensures LoopTime(Shift(time, k, duration), start, duration) == LoopTime(time, start, duration)
  {
    var x := time - start;
    assert time + (k as real) * duration - start == x + (k as real) * duration;
    FloorModPeriodic(x, duration, k);
  }

  /** What the lookup does before it searches: an early answer, or the time
      to search for. */
  datatype LookupStep = Early(index: int) | SearchFor(time: real)

  /** The part of `GetIndexOfLastFrameBeforeTime` shared by both track kinds:
      fewer than two frames give -1; looping wraps the time (a zero duration
      gives -1); otherwise a time at or before the first frame gives 0 and a
      time at or after the second-to-last frame gives `n - 2`. */
  function LookupStart<T>(frames: seq<Frame<T>>, time: real, looping: bool): LookupStep
  {
    var n := |frames|;
    if n <= 1 then Early(-1)
    else if looping then
      match LoopTime(time, StartTime(frames), EndTime(frames) - StartTime(frames))
      case None => Early(-1)
      case Some(t) => SearchFor(t)
    else if time <= frames[0].time then Early(0)
    else if time >= frames[n - 2].time then Early(n - 2)
    else SearchFor(time)
  }

  /** `60 + static_cast<unsigned int>(duration * 60)` as an `unsigned int`. */
  function SampleCount(duration: real): (r: nat)
    ensures r < 0x1_0000_0000
    ensures 0.0 <= duration && Trunc(duration * 60.0) < 0x1_0000_0000 - 60 ==> r == 60 + Trunc(duration * 60.0)
  {
    (60 + ToUnsigned32(Trunc(duration * 60.0))) % 0x1_0000_0000
  }

  /** The table slot for a time as the source computes it: the time divided
      by the duration, without first subtracting the start time. */
  function TableSlotAsWritten(time: real, start: real, duration: real, count: nat): nat
    requires duration != 0.0
  {
    ToUnsigned32(Trunc(time / duration * count as real))
  }

  /** The table slot for a time measured from the start of the track, which
      is how the table is built. */
  function TableSlot(time: real, start: real, duration: real, count: nat): (r: nat)
    requires duration != 0.0
    ensures duration > 0.0 && start <= time < start + duration && 0 < count < 0x1_0000_0000 ==> r < count
  {
    var x := (time - start) / duration;
    var slot := ToUnsigned32(Trunc(x * count as real));
    if duration > 0.0 && start <= time < start + duration && 0 < count < 0x1_0000_0000 then
      FractionOfWhole(time - start, duration);
      FractionSlot(x, count);
      slot
    else slot
  }

  /** A fraction of the range `[0, 1)` lands in one of `count` slots. */
  lemma FractionSlot(x: real, count: nat)
    requires 0.0 <= x < 1.0 && 0 < count
    ensures 0 <= Trunc(x * count as real) < count
  {
    ScaleFraction(count as real, x);
    TruncBelow(count as real * x, count);
    assert count as real * x == x * count as real;
  }

  /** The table slot that `TableIndex` reads for the track time `time`,
      computed as the source does (`asWritten`) or from the start time. */
  function Slot<T>(frames: seq<Frame<T>>, time: real, asWritten: bool): nat
    requires |frames| > 0 && EndTime(frames) - StartTime(frames) != 0.0
  {
    var start, duration := StartTime(frames), EndTime(frames) - StartTime(frames);
    var count := SampleCount(duration);
    if asWritten then TableSlotAsWritten(time, start, duration, count)
    else TableSlot(time, start, duration, count)
  }

  /** The table lookup of `FastTrack`: -1 when the slot is past the table,
      otherwise the stored frame index. `asWritten` selects the source's slot
      computation; the model's tracks use the start-relative one. A zero
      duration (a NaN slot in the source) gives -1. */
  function TableIndex<T>(entries: seq<nat>, frames: seq<Frame<T>>, time: real, asWritten: bool): (r: int)
    requires |frames| > 0
    ensures r == -1 || (0 <= r && r in entries)
    ensures EndTime(frames) - StartTime(frames) == 0.0 ==> r == -1
    ensures EndTime(frames) - StartTime(frames) != 0.0 ==>
              (r == -1 <==> Slot(frames, time, asWritten) >= |entries|)
    ensures EndTime(frames) - StartTime(frames) != 0.0 && Slot(frames, time, asWritten) < |entries| ==>
              r == entries[Slot(frames, time, asWritten)]
  {
    if EndTime(frames) - StartTime(frames) == 0.0 then -1
    else
      var slot := Slot(frames, time, asWritten);
      if slot >= |entries| then -1 else entries[slot]
  }

  /** `GetIndexOfLastFrameBeforeTime` of a track, with the fast table read
      through the start-relative slot. The correction touches fast tracks
      only: on a slow track it is the source's lookup. */
  function Lookup<T>(track: Track<T>, time: real, looping: bool): (r: int)
    ensures |track.frames| <= 1 ==> r == -1
    ensures track.search.LinearScan? ==> r == LookupAsWritten(track, time, looping)
  {
    LookupWith(track, time, looping, false)
  }

  /** `FastTrack::GetIndexOfLastFrameBeforeTime` exactly as the source writes
      it. */
  function LookupAsWritten<T>(track: Track<T>, time: real, looping: bool): int
  {
    LookupWith(track, time, looping, true)
  }

  function LookupWith<T>(track: Track<T>, time: real, looping: bool, asWritten: bool): (r: int)
    ensures r >= -1
    ensures |track.frames| <= 1 ==> r == -1
    ensures track.search.LinearScan? ==> r < |track.frames|
    ensures !looping && |track.frames| >= 2 && time <= track.frames[0].time ==> r == 0
    ensures var n := |track.frames|;
            !looping && n >= 2 && track.frames[0].time < time && time >= track.frames[n - 2].time ==> r == n - 2
  {
    match LookupStart(track.frames, time, looping)
    case Early(i) => i
    case SearchFor(t) =>
      match track.search
      case LinearScan =>
        (match ScanBack(track.frames, t, |track.frames|)
         case None => -1
         case Some(i) => i)
      case SampleTable(entries) => TableIndex(entries, track.frames, t, asWritten)
  }

  /** The linear-scan lookup on a sorted track with a positive duration picks
      the frame that brackets the track time: `frames[i].time <= t < frames[i + 1].time`
      for the looped or clamped time `t` (clamping to the first and to the
      second-to-last frame outside the interior when not looping). */
  lemma ScanLookupBrackets<T>(track: Track<T>, time: real, looping: bool)
    requires track.search == LinearScan && Sorted(track.frames)
    requires |track.frames| >= 2 && EndTime(track.frames) - StartTime(track.frames) > 0.0
    ensures var i := Lookup(track, time, looping);
            var t := AdjustTime(track.frames, time, looping);
            && 0 <= i <= |track.frames| - 2
            && (looping || track.frames[0].time < time < track.frames[|track.frames| - 2].time ==>
                  track.frames[i].time <= t < track.frames[i + 1].time)
  {
    var frames := track.frames;
    var n := |frames|;
    match LookupStart(frames, time, looping)
    case Early(i) =>
    case SearchFor(t) =>
      assert t == AdjustTime(frames, time, looping);
      assert frames[0].time <= t < frames[n - 1].time;
      var found := ScanBack(frames, t, n);
      assert found.Some?;
  }

  // ----- bringing a time into the track -----

  /** `AdjustTimeToBeWithinTrack`: 0 for fewer than two frames or a
      non-positive duration, the looped time when looping, and the time
      clamped to `[start, end]` otherwise. */
  function AdjustTime<T>(frames: seq<Frame<T>>, time: real, looping: bool): (r: real)
    ensures |frames| <= 1 ==> r == 0.0
    ensures |frames| > 1 && EndTime(frames) - StartTime(frames) <= 0.0 ==> r == 0.0
    ensures |frames| > 1 && EndTime(frames) - StartTime(frames) > 0.0 ==>
              StartTime(frames) <= r <= EndTime(frames)
    ensures |frames| > 1 && EndTime(frames) - StartTime(frames) > 0.0 && looping ==> r < EndTime(frames)
  {
    var n := |frames|;
    if n <= 1 then 0.0
    else
      var start, end := StartTime(frames), EndTime(frames);
      if end - start <= 0.0 then 0.0
      else if looping then LoopTime(time, start, end - start).value
      else
        var t := if time <= frames[0].time then start else time;
        if t >= frames[n - 1].time then end else t
  }

  /** Inside a valid track, adjusting changes nothing: the adjusted time of an
      adjusted time is itself. */
  lemma AdjustTimeIdempotent<T>(frames: seq<Frame<T>>, time: real, looping: bool)
    requires |frames| > 1 && EndTime(frames) - StartTime(frames) > 0.0
    ensures AdjustTime(frames, AdjustTime(frames, time, looping), looping) == AdjustTime(frames, time, looping)
  {
    var start, end := StartTime(frames), EndTime(frames);
    var t := AdjustTime(frames, time, looping);
    if looping {
      FloorModOfInRange(t - start, end - start);
    }
  }

  /** Looping makes the adjusted time periodic in the duration. */
  lemma AdjustTimePeriodic<T>(frames: seq<Frame<T>>, time: real, k: int)
    requires |frames| > 1 && EndTime(frames) - StartTime(frames) > 0.0
    ensures AdjustTime(frames, Shift(time, k, EndTime(frames) - StartTime(frames)), true)
         == AdjustTime(frames, time, true)
  {
    LoopTimePeriodic(time, StartTime(frames), EndTime(frames) - StartTime(frames), k);
    AdjustTimeLooping(frames, time);
    AdjustTimeLooping(frames, Shift(time, k, EndTime(frames) - StartTime(frames)));
  }

  /** For a valid track the looping adjustment is the looped time. */
  lemma AdjustTimeLooping<T>(frames: seq<Frame<T>>, time: real)
    requires |frames| > 1 && EndTime(frames) - StartTime(frames) > 0.0
    ensures AdjustTime(frames, time, true) == LoopTime(time, StartTime(frames), EndTime(frames) - StartTime(frames)).value
  {
  }

  // ----- sampling -----

  /** `SampleConstant`: `T()` when the lookup fails, otherwise the cast value
      of the frame found. */
  function SampleConstant<T>(track: Track<T>, blend: Blend<T>, time: real, looping: bool): (r: T)
    ensures var i := Lookup(track, time, looping);
            r == if 0 <= i < |track.frames| then blend.cast(track.frames[i].value) else blend.zero
  {
    var i := Lookup(track, time, looping);
    if i < 0 || i >= |track.frames| then blend.zero else blend.cast(track.frames[i].value)
  }

  /** Where linear and cubic sampling interpolate: the frame before the time,
      and the interpolation factor within the gap to the next frame; `None`
      when the lookup fails or the gap is not positive (both give `T()`). */
  datatype Segment = Segment(index: nat, gap: real, factor: real)

  /** The segment starting at frame `i` for the track time `t`. */
  function SegmentAt<T>(frames: seq<Frame<T>>, i: int, t: real): (r: Option<Segment>)
    ensures r.Some? <==> 0 <= i < |frames| - 1 && frames[i + 1].time - frames[i].time > 0.0
    ensures r.Some? ==> r.value.index == i
    ensures r.Some? ==> r.value.gap == frames[i + 1].time - frames[i].time
    ensures r.Some? ==> r.value.factor * r.value.gap == t - frames[i].time
  {
    if i < 0 || i >= |frames| - 1 then None
    else
      var gap := frames[i + 1].time - frames[i].time;
      if gap <= 0.0 then None
      else
        var offset := t - frames[i].time;
        DivMulCancel(offset, gap);
        Some(Segment(i, gap, offset / gap))
  }

  /** `SampleLinear`: interpolate between the cast values of the bracketing
      frames by the factor, or `T()`. */
  function SampleLinear<T>(track: Track<T>, blend: Blend<T>, time: real, looping: bool): (r: T)
    ensures SegmentAt(track.frames, Lookup(track, time, looping), AdjustTime(track.frames, time, looping)).None? ==> r == blend.zero
  {
    match SegmentAt(track.frames, Lookup(track, time, looping), AdjustTime(track.frames, time, looping))
    case None => blend.zero
    case Some(s) =>
      blend.interpolate(blend.cast(track.frames[s.index].value), blend.cast(track.frames[s.index + 1].value), s.factor)
  }

  /** The cubic Hermite basis functions at `t`: weights of `p1`, of the
      out-tangent of `p1`, of `p2` and of the in-tangent of `p2`. */
  datatype Basis = Basis(p1: real, out1: real, p2: real, in2: real)

  function HermiteBasis(t: real): (r: Basis)
    ensures r.p1 + r.p2 == 1.0
  {
    BasisOfPowers(t, t * t, t * t * t)
  }

  /** The basis as a combination of `t`, `t^2` and `t^3`. */
  function BasisOfPowers(t: real, tt: real, ttt: real): Basis
  {
    Basis(2.0 * ttt - 3.0 * tt + 1.0, ttt - 2.0 * tt + t, -2.0 * ttt + 3.0 * tt, ttt - tt)
  }

  /** The basis interpolates: at `t = 0` only `p1` has weight, at `t = 1`
      only `p2`. */
  lemma HermiteBasisEndpoints()
    ensures HermiteBasis(0.0) == Basis(1.0, 0.0, 0.0, 0.0)
    ensures HermiteBasis(1.0) == Basis(0.0, 0.0, 1.0, 0.0)
  {
  }

  /** `InterpolateUsingCubicHermiteSpline`: the neighbourhood-adjusted `p2`,
      the basis-weighted sum, then the per-type adjustment. */
  function Hermite<T>(blend: Blend<T>, t: real, p1: T, out1: T, p2: T, in2: T): T
  {
    Weighted(blend, HermiteBasis(t), p1, out1, blend.neighbourhood(p1, p2), in2)
  }

  /** At `t = 0` and `t = 1` the spline is the weighted sum under the
      endpoint bases. */
  lemma HermiteEnds<T>(blend: Blend<T>, p1: T, out1: T, p2: T, in2: T)
    ensures Hermite(blend, 0.0, p1, out1, p2, in2) == Weighted(blend, Basis(1.0, 0.0, 0.0, 0.0), p1, out1, blend.neighbourhood(p1, p2), in2)
    ensures Hermite(blend, 1.0, p1, out1, p2, in2) == Weighted(blend, Basis(0.0, 0.0, 1.0, 0.0), p1, out1, blend.neighbourhood(p1, p2), in2)
  {
    HermiteBasisEndpoints();
  }

  /** The basis-weighted sum of the four control values, adjusted. */
  function Weighted<T>(blend: Blend<T>, h: Basis, p1: T, out1: T, p2: T, in2: T): T
  {
    blend.adjustCubic(blend.add(blend.add(blend.add(blend.scale(p1, h.p1), blend.scale(out1, h.out1)),
                                          blend.scale(p2, h.p2)),
                                blend.scale(in2, h.in2)))
  }

  /** `SampleCubic`: the Hermite spline between the bracketing frames; the
      values are cast, the slopes are read raw and scaled by the gap. */
  function SampleCubic<T>(track: Track<T>, blend: Blend<T>, time: real, looping: bool): (r: T)
    ensures SegmentAt(track.frames, Lookup(track, time, looping), AdjustTime(track.frames, time, looping)).None? ==> r == blend.zero
  {
    match SegmentAt(track.frames, Lookup(track, time, looping), AdjustTime(track.frames, time, looping))
    case None => blend.zero
    case Some(s) =>
      var a, b := track.frames[s.index], track.frames[s.index + 1];
      Hermite(blend, s.factor, blend.cast(a.value), blend.scale(a.outSlope, s.gap),
              blend.cast(b.value), blend.scale(b.inSlope, s.gap))
  }

  /** `Sample`: dispatch on the interpolation mode. */
  function Sample<T>(track: Track<T>, blend: Blend<T>, time: real, looping: bool): (r: T)
    ensures track.interpolation == Constant ==> r == SampleConstant(track, blend, time, looping)
    ensures track.interpolation == Linear ==> r == SampleLinear(track, blend, time, looping)
    ensures track.interpolation == Cubic ==> r == SampleCubic(track, blend, time, looping)
  {
    match track.interpolation
    case Constant => SampleConstant(track, blend, time, looping)
    case Linear => SampleLinear(track, blend, time, looping)
    case Cubic => SampleCubic(track, blend, time, looping)
  }

  /** Fewer than two frames: every sampling mode gives `T()`. */
  lemma SampleDegenerate<T>(track: Track<T>, blend: Blend<T>, time: real, looping: bool)
    requires |track.frames| <= 1
    ensures Sample(track, blend, time, looping) == blend.zero
    ensures AdjustTime(track.frames, time, looping) == 0.0
  {
  }

  /** A looping track samples alike at times a whole number of durations
      apart. */
  lemma SamplePeriodic<T>(track: Track<T>, blend: Blend<T>, time: real, k: int)
    requires |track.frames| > 1 && EndTime(track.frames) - StartTime(track.frames) > 0.0
    ensures Sample(track, blend, Shift(time, k, EndTime(track.frames) - StartTime(track.frames)), true)
         == Sample(track, blend, time, true)
  {
    LoopTimePeriodic(time, StartTime(track.frames), EndTime(track.frames) - StartTime(track.frames), k);
    AdjustTimePeriodic(track.frames, time, k);
  }

  /** A non-looping track holds its first sample before its start and its
      last sample after its end. */
  lemma SampleClamped<T>(track: Track<T>, blend: Blend<T>, time: real)
    requires Sorted(track.frames) && |track.frames| > 1
    requires EndTime(track.frames) - StartTime(track.frames) > 0.0
    ensures time < StartTime(track.frames) ==>
              Sample(track, blend, time, false) == Sample(track, blend, StartTime(track.frames), false)
    ensures time > EndTime(track.frames) ==>
              Sample(track, blend, time, false) == Sample(track, blend, EndTime(track.frames), false)
  {
  }

  /** The blend reproduces its endpoints, keeps `b` as `a`'s neighbour,
      casts nothing away, and its spline weights pick out the endpoint
      values: what holds for scalar and vector tracks. */
  ghost predicate ExactBlend<T(!new)>(blend: Blend<T>)
  {
    && (forall x, y :: blend.interpolate(x, y, 0.0) == x)
    && (forall x, y :: blend.interpolate(x, y, 1.0) == y)
    && (forall x, y :: blend.neighbourhood(x, y) == y)
    && (forall x :: blend.cast(x) == x)
    && (forall p1, o, p2, i :: Weighted(blend, Basis(1.0, 0.0, 0.0, 0.0), p1, o, p2, i) == p1)
    && (forall p1, o, p2, i :: Weighted(blend, Basis(0.0, 0.0, 1.0, 0.0), p1, o, p2, i) == p2)
  }

  lemma ScalarBlendExact()
    ensures ExactBlend(ScalarBlend())
  {
    forall p1: real, o: real, p2: real, i: real
      ensures Weighted(ScalarBlend(), Basis(1.0, 0.0, 0.0, 0.0), p1, o, p2, i) == p1
      ensures Weighted(ScalarBlend(), Basis(0.0, 0.0, 1.0, 0.0), p1, o, p2, i) == p2
    {
      ScalarWeightedEnds(p1, o, p2, i);
    }
  }

  /** The scalar spline starts at `p1` and ends at `p2`. */
  lemma ScalarHermiteEndpoints(p1: real, o: real, p2: real, i: real)
    ensures Hermite(ScalarBlend(), 0.0, p1, o, p2, i) == p1
    ensures Hermite(ScalarBlend(), 1.0, p1, o, p2, i) == p2
  {
    HermiteEnds(ScalarBlend(), p1, o, p2, i);
    ScalarWeightedEnds(p1, o, p2, i);
  }

  /** The weighted sum picks `p1` out under the start basis and `p2` under
      the end basis. */
  lemma ScalarWeightedEnds(p1: real, o: real, p2: real, i: real)
    ensures Weighted(ScalarBlend(), Basis(1.0, 0.0, 0.0, 0.0), p1, o, p2, i) == p1
    ensures Weighted(ScalarBlend(), Basis(0.0, 0.0, 1.0, 0.0), p1, o, p2, i) == p2
  {
  }

  lemma VectorBlendExact()
    ensures ExactBlend(VectorBlend())
  {
    forall p1: Vec3, o: Vec3, p2: Vec3, i: Vec3
      ensures Weighted(VectorBlend(), Basis(1.0, 0.0, 0.0, 0.0), p1, o, p2, i) == p1
      ensures Weighted(VectorBlend(), Basis(0.0, 0.0, 1.0, 0.0), p1, o, p2, i) == p2
    {
      VectorWeightedEnds(p1, o, p2, i);
    }
  }

  /** The vector spline starts at `p1` and ends at `p2`. */
  lemma VectorHermiteEndpoints(p1: Vec3, o: Vec3, p2: Vec3, i: Vec3)
    ensures Hermite(VectorBlend(), 0.0, p1, o, p2, i) == p1
    ensures Hermite(VectorBlend(), 1.0, p1, o, p2, i) == p2
  {
    HermiteEnds(VectorBlend(), p1, o, p2, i);
    VectorWeightedEnds(p1, o, p2, i);
  }

  lemma VectorWeightedEnds(p1: Vec3, o: Vec3, p2: Vec3, i: Vec3)
    ensures Weighted(VectorBlend(), Basis(1.0, 0.0, 0.0, 0.0), p1, o, p2, i) == p1
    ensures Weighted(VectorBlend(), Basis(0.0, 0.0, 1.0, 0.0), p1, o, p2, i) == p2
  {
  }

  /** For quaternions the spline starts at the normalised `p1` and ends at
      the normalised, neighbourhood-adjusted `p2`. */
  lemma QuatHermiteEndpoints(rsqrt: real -> real, p1: Q.Quat, o: Q.Quat, p2: Q.Quat, i: Q.Quat)
    ensures Hermite(QuatBlend(rsqrt), 0.0, p1, o, p2, i) == Q.Normalized(p1, rsqrt)
    ensures Hermite(QuatBlend(rsqrt), 1.0, p1, o, p2, i) == Q.Normalized(Neighbour(p1, p2), rsqrt)
  {
    HermiteEnds(QuatBlend(rsqrt), p1, o, p2, i);
    QuatWeightedEnds(rsqrt, p1, o, Neighbour(p1, p2), i);
  }

  lemma QuatWeightedEnds(rsqrt: real -> real, p1: Q.Quat, o: Q.Quat, p2: Q.Quat, i: Q.Quat)
    ensures Weighted(QuatBlend(rsqrt), Basis(1.0, 0.0, 0.0, 0.0), p1, o, p2, i) == Q.Normalized(p1, rsqrt)
    ensures Weighted(QuatBlend(rsqrt), Basis(0.0, 0.0, 1.0, 0.0), p1, o, p2, i) == Q.Normalized(p2, rsqrt)
  {
    var b := QuatBlend(rsqrt);
    var zero := Q.Quat(0.0, 0.0, 0.0, 0.0);
    assert b.scale(p1, 1.0) == p1 && b.scale(p2, 1.0) == p2;
    assert b.scale(p1, 0.0) == zero && b.scale(o, 0.0) == zero;
    assert b.scale(p2, 0.0) == zero && b.scale(i, 0.0) == zero;
    assert b.add(b.add(b.add(p1, zero), zero), zero) == p1;
    assert b.add(b.add(b.add(zero, zero), p2), zero) == p2;
  }

  /** Sampled without looping at the time of frame `k` of a strictly sorted
      track, the segment is the one starting at `k` with factor 0, or for the
      last frame the final segment with factor 1. */
  lemma KeyframeSegment<T>(track: Track<T>, k: nat)
    requires track.search == LinearScan && StrictlySorted(track.frames)
    requires |track.frames| >= 2 && k < |track.frames|
    ensures var frames := track.frames;
            var s := SegmentAt(frames, Lookup(track, frames[k].time, false), AdjustTime(frames, frames[k].time, false));
            && s.Some?
            && (k < |frames| - 1 ==> s.value.index == k && s.value.factor == 0.0)
            && (k == |frames| - 1 ==> s.value.index == k - 1 && s.value.factor == 1.0)
  {
    var frames := track.frames;
    var n := |frames|;
    var i := if k < n - 1 then k else n - 2;
    KeyframeLookup(track, k);
    var s := SegmentAt(frames, i, frames[k].time);
    assert frames[i].time < frames[i + 1].time;
    assert s.Some?;
    if k < n - 1 {
      ZeroFactor(s.value.factor, s.value.gap);
    } else {
      assert (s.value.factor - 1.0) * s.value.gap == 0.0;
      ZeroFactor(s.value.factor - 1.0, s.value.gap);
    }
  }

  /** Without looping, the lookup at frame `k`'s time finds `k`, or the last
      segment's start for the last frame, and leaves the time as it is. */
  lemma KeyframeLookup<T>(track: Track<T>, k: nat)
    requires track.search == LinearScan && StrictlySorted(track.frames)
    requires |track.frames| >= 2 && k < |track.frames|
    ensures Lookup(track, track.frames[k].time, false) == if k < |track.frames| - 1 then k else k - 1
    ensures AdjustTime(track.frames, track.frames[k].time, false) == track.frames[k].time
  {
    var frames := track.frames;
    var n := |frames|;
    var time := frames[k].time;
    if 0 < k < n - 2 {
      assert frames[0].time < time < frames[n - 2].time;
      var found := ScanBack(frames, time, n);
      assert found.Some? && frames[found.value].time <= time;
      assert found == Some(k);
    }
  }

  /** Linear sampling of a scalar or vector track at a keyframe's time gives
      that keyframe's value. */
  lemma SampleLinearAtKeyframe<T(!new)>(track: Track<T>, blend: Blend<T>, k: nat)
    requires track.search == LinearScan && StrictlySorted(track.frames)
    requires |track.frames| >= 2 && k < |track.frames|
    requires ExactBlend(blend)
    ensures SampleLinear(track, blend, track.frames[k].time, false) == track.frames[k].value
  {
    KeyframeSegment(track, k);
  }

  /** Constant sampling at a keyframe's time holds that keyframe's value,
      except at the last keyframe, which still shows the one before it. */
  lemma SampleConstantAtKeyframe<T>(track: Track<T>, blend: Blend<T>, k: nat)
    requires track.search == LinearScan && StrictlySorted(track.frames)
    requires |track.frames| >= 2 && k < |track.frames|
    ensures SampleConstant(track, blend, track.frames[k].time, false)
            == blend.cast(track.frames[if k < |track.frames| - 1 then k else k - 1].value)
  {
    KeyframeLookup(track, k);
  }

  /** Cubic sampling of a scalar or vector track at a keyframe's time gives
      that keyframe's value. */
  lemma SampleCubicAtKeyframe<T(!new)>(track: Track<T>, blend: Blend<T>, k: nat)
    requires track.search == LinearScan && StrictlySorted(track.frames)
    requires |track.frames| >= 2 && k < |track.frames|
    requires ExactBlend(blend)
    ensures SampleCubic(track, blend, track.frames[k].time, false) == track.frames[k].value
  {
    KeyframeSegment(track, k);
    var frames := track.frames;
    var n := |frames|;
    var last := if k < n - 1 then k else k - 1;
    var a, b := frames[last], frames[last + 1];
    var gap := b.time - a.time;
    HermiteEnds(blend, a.value, blend.scale(a.outSlope, gap), b.value, blend.scale(b.inSlope, gap));
  }

  // ----- the fast table -----

  /** The time of table sample `i` out of `count`:
      `i / (count - 1) * duration + start`; `None` for the NaN that a
      one-sample table produces. */
  function SampleTime(i: nat, count: nat, duration: real, start: real): Option<real>
  {
    if count <= 1 then None
    else Some((i as real) / ((count - 1) as real) * duration + start)
  }

  /** One table entry: the last frame at or before the sample time, capped at
      the second-to-last frame, or 0 when there is none. */
  function TableEntry<T>(frames: seq<Frame<T>>, sampleTime: Option<real>): (r: nat)
    requires |frames| >= 2
    ensures r <= |frames| - 2
    ensures sampleTime.Some? && ScanBack(frames, sampleTime.value, |frames|).Some? ==>
              r == Min(ScanBack(frames, sampleTime.value, |frames|).value, |frames| - 2)
  {
    match sampleTime
    case None => 0
    case Some(t) =>
      match ScanBack(frames, t, |frames|)
      case None => 0
      case Some(i) => if i >= |frames| - 2 then |frames| - 2 else i
  }

  function Min(a: nat, b: nat): nat { if a <= b then a else b }

  /** `GenerateSampleToFrameIndexMap`: nothing for fewer than two frames,
      otherwise one entry per sample. */
  function BuildTable<T>(frames: seq<Frame<T>>): (r: seq<nat>)
    ensures |frames| <= 1 ==> r == []
    ensures |frames| >= 2 ==> |r| == SampleCount(EndTime(frames) - StartTime(frames))
    ensures |frames| >= 2 ==> forall i :: 0 <= i < |r| ==> r[i] <= |frames| - 2
  {
    if |frames| <= 1 then []
    else
      var duration := EndTime(frames) - StartTime(frames);
      var count := SampleCount(duration);
      seq(count, i requires 0 <= i < count => TableEntry(frames, SampleTime(i, count, duration, StartTime(frames))))
  }

  /** A table of at least 60 entries for every non-negative duration. */
  lemma BuildTableSize<T>(frames: seq<Frame<T>>)
    requires |frames| >= 2 && Sorted(frames)
    requires EndTime(frames) - StartTime(frames) < 71582787.0
    ensures 60 <= |BuildTable(frames)|
  {
    var d := EndTime(frames) - StartTime(frames);
    assert d >= 0.0;
  }

  /** `OptimizeTrack`: same interpolation, same frames, and the table. */
  function Optimize<T>(track: Track<T>): (r: Track<T>)
    ensures r.interpolation == track.interpolation && r.frames == track.frames
    ensures r.search == SampleTable(BuildTable(track.frames))
  {
    Track(track.interpolation, track.frames, SampleTable(BuildTable(track.frames)))
  }

  /** Optimising twice is optimising once. */
  lemma OptimizeIdempotent<T>(track: Track<T>)
    ensures Optimize(Optimize(track)) == Optimize(track)
  {
  }

  /** On an optimised sorted track with a positive duration, the
      start-relative table lookup always answers with a frame in `[0, n - 2]`,
      as the linear scan does. */
  lemma TableLookupInRange<T>(track: Track<T>, time: real, looping: bool)
    requires Sorted(track.frames) && |track.frames| >= 2
    requires 0.0 < EndTime(track.frames) - StartTime(track.frames) < 71582787.0
    ensures 0 <= Lookup(Optimize(track), time, looping) <= |track.frames| - 2
  {
    var frames := track.frames;
    var n := |frames|;
    var table := BuildTable(frames);
    match LookupStart(frames, time, looping)
    case Early(i) =>
    case SearchFor(t) =>
      var start, duration := StartTime(frames), EndTime(frames) - StartTime(frames);
      assert frames[n - 2].time <= EndTime(frames);
      assert start <= t < start + duration;
      BuildTableSize(frames);
      var slot := TableSlot(t, start, duration, SampleCount(duration));
      assert slot < |table|;
      assert TableIndex(table, frames, t, false) == table[slot];
  }

  /** The source's table slot ignores the start time: a looping track with
      frames at 1.0 and 2.0 sampled at 1.5 computes slot 180 of a 120-entry
      table and reports no frame, where the linear scan and the start-relative
      slot find frame 0. */
  lemma LookupAsWrittenMissesFrame()
    ensures var frames := [Frame(0.0, 0.0, 0.0, 1.0), Frame(1.0, 0.0, 0.0, 2.0)];
            && LookupAsWritten(Optimize(Track(Linear, frames, LinearScan)), 1.5, true) == -1
            && Lookup(Optimize(Track(Linear, frames, LinearScan)), 1.5, true) == 0
            && Lookup(Track(Linear, frames, LinearScan), 1.5, true) == 0
  {
    var frames := [Frame(0.0, 0.0, 0.0, 1.0), Frame(1.0, 0.0, 0.0, 2.0)];
    FloorModOfInRange(0.5, 1.0);
    assert LoopTime(1.5, 1.0, 1.0) == Some(1.5);
    assert Trunc(60.0) == 60;
    assert SampleCount(1.0) == 120;
    var table := BuildTable(frames);
    assert |table| == 120;
    assert Trunc(1.5 / 1.0 * 120.0) == 180;
    assert Trunc(0.5 / 1.0 * 120.0) == 60;
    assert table[60] == 0;
  }

  /** The same failure seen from sampling: the source's fast track yields
      `T()` where the linear track interpolates. */
  lemma SampleAsWrittenMissesFrame()
    ensures var frames := [Frame(0.0, 0.0, 0.0, 1.0), Frame(1.0, 0.0, 0.0, 2.0)];
            var fast := Optimize(Track(Linear, frames, LinearScan));
            && SampleLinear(Track(Linear, frames, LinearScan), ScalarBlend(), 1.5, true) == 0.5
            && SampleLinear(fast, ScalarBlend(), 1.5, true) == 0.5
            && LookupAsWritten(fast, 1.5, true) == -1
  {
    LookupAsWrittenMissesFrame();
    var frames := [Frame(0.0, 0.0, 0.0, 1.0), Frame(1.0, 0.0, 0.0, 2.0)];
    assert AdjustTime(frames, 1.5, true) == 1.5;
  }
}
