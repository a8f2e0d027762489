# Animation-Magic skeletal animation core, in Dafny

This project models the skeletal animation core of Animation-Magic, a C++
OpenGL renderer. It covers:

- quaternions and transforms (`quat.cpp`, `Transform.cpp`);
- keyframe tracks and their constant, linear and cubic Hermite sampling,
  in the slow form (linear scan) and the fast form (sample-to-frame table)
  (`Track.cpp`);
- transform tracks, clips and poses (`TransformTrack.cpp`, `Clip.cpp`,
  `Pose.cpp`);
- the skeleton's inverse bind pose cache (`Skeleton.cpp`);
- the breadth-first joint rearrangement of a skeleton, its clips and its
  meshes (`RearrangeBones.cpp`);
- the parts of the glTF loader that turn accessor data into tracks, joint
  names, skin influences and a bind pose (`GLTFLoader.cpp`).

Modules follow the source files: `Numeric`, `Vectors`, `Quaternions`,
`Transforms`, `Tracks`, `TransformTracks`, `Poses`, `Clips`, `Skeletons`,
`Meshes`, `Rearrange` and `Gltf`.

These choices shape the whole model:

- `float` is `real`, so the model has no rounding and no NaN. Where the
  source divides by a value that can be zero, the model returns `None`, and
  callers see the value the source's comparisons would give a NaN.
- Square roots cannot be written as polynomials, so each operation that
  needs one takes it as a parameter. Quaternion normalisation takes the
  reciprocal square root as `rsqrt`. The skeleton takes `glm::inverse` of a
  4x4 matrix as `invert`. The glTF bind pose takes the decomposition of a
  bind matrix as `bindOf`. Each contract holds for every such function, or
  for every one that meets its stated `requires`.
- Integer truncation (`static_cast<int>`, `static_cast<unsigned int>`) and
  the unsigned 32-bit wrap-around are written out in `Numeric`.
- The fast track's lookup table is part of the track value (`SampleTable`),
  and `LinearScan` marks a slow track. Both kinds go through one sampling
  code path, but it departs from the source for fast tracks. `Tracks.Lookup`
  reads the table through the start-relative slot `(time - start) / duration`,
  which is the corrected fast lookup described under "## Findings". The
  source's own slot, `time / duration`, is kept as `Tracks.LookupAsWritten`.
  Slow tracks look up exactly as the source does.
- Per-type helpers (`TrackHelpers::Interpolate`, `Hermite` scaling and
  adding, `Cast`, `T()`) are a `Blend<T>` record, with one instance each for
  scalars, vectors and quaternions.

## Model

| member | source | states |
|---|---|---|
| Numeric.Trunc | src/GLTFLoader.cpp:291-294 | Casting to int truncates toward zero: the result is at most the input and more than the input minus one for non-negative inputs, and mirrored for negative ones. |
| Numeric.FloorModRange | src/Track.cpp:176-186 | `glm::mod` by a positive duration gives a value in `[0, duration)`. |
| Numeric.ToUnsigned32 | src/RearrangeBones.cpp:200-202 | An int cast to `unsigned int` keeps values in `[0, 2^32)` and adds `2^32` to negative values. |
| Numeric.ToSigned32 | src/RearrangeBones.cpp:200 | An `unsigned int` cast to `int` lands in `[-2^31, 2^31)`, keeps values below `2^31`, and casting it back to `unsigned int` gives the original value. |
| Vectors.Lerp3 | src/Transform.cpp:51-63 | Linear interpolation of vectors gives the first vector at 0 and the second at 1. |
| Quaternions.Neg | src/quat.cpp:99-103 | Negation keeps the squared length and negates the dot product with every quaternion. |
| Quaternions.MulIsReversedHamilton | src/quat.cpp:121-144 | `Q1 * Q2` is the Hamilton product of `Q2` and `Q1`, in that order. |
| Quaternions.RotateIsSandwich | src/quat.cpp:146-170 | For every `q`, rotating a vector by `q` agrees with the sandwich product `conj(q) v q` built from the reversed quaternion product. |
| Quaternions.RotateIsInverseSandwich | src/quat.cpp:146-170 | For a unit `q`, rotating a vector agrees with the reference formula `inverse(q) * (v, 0) * q`. |
| Quaternions.RotateByRows | src/quat.cpp:146-170 | Rotating a vector is linear: each output coordinate is the dot product of a row determined by `q` with the input. |
| Quaternions.RotateNeg | src/quat.cpp:146-170 | `q` and `-q` rotate every vector the same way. |
| Quaternions.RotateZero | src/quat.cpp:146-170 | The zero vector is fixed by every rotation. |
| Quaternions.RotateBasis | src/Transform.cpp:65-82 | Rotating each basis vector gives the corresponding column of the rotation's rows, the axes that `transformToMat4` lays out. |
| Quaternions.RotateIdentity | src/quat.cpp:146-170 | The identity quaternion fixes every vector. |
| Quaternions.SquaredLength | src/quat.cpp:233-241 | The squared length is non-negative and is the quaternion's dot product with itself. |
| Quaternions.ConjugateProduct | src/quat.cpp:283-290 | The product of a quaternion with its conjugate is the scalar quaternion of its squared length. |
| Quaternions.Normalized | src/quat.cpp:268-281 | A quaternion whose squared length is below epsilon normalises to the identity quaternion; the other case is stated by `NormalizedIsUnit`. |
| Quaternions.NormalizedIsUnit | src/quat.cpp:268-281 | With an exact reciprocal square root, the normalised non-degenerate quaternion has unit length. |
| Quaternions.NormalizedOfUnit | src/quat.cpp:268-281 | Normalising a unit quaternion with an exact reciprocal square root leaves it unchanged. |
| Quaternions.Inverse | src/quat.cpp:292-307 | The inverse is the identity when the squared length is below epsilon, and otherwise the conjugate scaled by the reciprocal of the squared length. |
| Quaternions.InverseIsInverse | src/quat.cpp:292-307 | For a non-degenerate quaternion, its product with its inverse, in either order, is the identity. |
| Quaternions.IdentityNeutral | inc/quat.h:14-21 | The identity quaternion is a left and right unit of the product. |
| Quaternions.Mix | src/quat.cpp:309-322 | `mix` gives the first quaternion at 0 and the second at 1. |
| Quaternions.Nlerp | src/quat.cpp:324-330 | `nlerp` is the normalised `mix` of its two quaternions. |
| Quaternions.NlerpEndpoints | src/quat.cpp:324-330 | With an exact reciprocal square root, `nlerp` of unit quaternions gives the first at 0 and the second at 1. |
| Quaternions.SameOrientationMeaning | src/quat.cpp:205-231 | Two quaternions pass the same-orientation test exactly when one approximately equals the other or its negation; the test is reflexive, symmetric and accepts a quaternion with its negation. |
| Transforms.TransformPoint | src/Transform.cpp:116-128 | A point maps to the position plus the point transformed as a vector (scaled, then rotated). |
| Transforms.Combine | src/Transform.cpp:17-32 | Combining places the child's position where the parent maps it, composes rotations parent first, and multiplies the scales componentwise. |
| Transforms.CombineIdentity | src/Transform.cpp:17-32 | The identity transform is a left and right unit of `combine`. |
| Transforms.InverseScale | src/Transform.cpp:38-40 | A scale component below epsilon inverts to 0, and any other inverts to its reciprocal. |
| Transforms.Inverse | src/Transform.cpp:34-49 | The inverse holds the inverted rotation and scale, with the negated position mapped through them. |
| Transforms.InverseCombineIdentity | src/Transform.cpp:34-49 | For a rotation and scale components at or above epsilon, combining a transform's inverse with it gives the identity transform. |
| Transforms.InverseCombineRotation | src/Transform.cpp:34-49 | For a rotation at or above epsilon, the rotation of the inverse combined with the transform is the identity quaternion. |
| Transforms.InverseCombineScale | src/Transform.cpp:34-49 | For scale components at or above epsilon, the scale of the inverse combined with the transform is one in every coordinate. |
| Transforms.InverseCombinePosition | src/Transform.cpp:34-49 | The position of a transform's inverse combined with the transform is the origin, for every transform. |
| Transforms.Mix | src/Transform.cpp:51-63 | Mixing lerps the position and the scale; the rotation is stated by `MixAtStart` and `MixAtEnd`. |
| Transforms.MixAtStart | src/Transform.cpp:51-63 | Mixing two transforms with unit rotations at 0 gives the first transform. |
| Transforms.MixAtEnd | src/Transform.cpp:51-63 | Mixing two transforms with unit rotations at 1 gives the second transform, with its rotation negated when it lies in the opposite hemisphere of the first. |
| Transforms.ToMat4 | src/Transform.cpp:65-82 | The matrix's last column is the position as a point and its last row is `(0, 0, 0, 1)`. |
| Transforms.ToMat4Point | src/Transform.cpp:65-128 | The matrix applied to a point gives `transformPoint`, and applied to a direction gives `transformVector`. |
| Tracks.Neighbour | src/Track.cpp:16-19 | The second quaternion is negated exactly when its dot product with the first is negative, so the result never points away from the first. |
| Tracks.NewTrack | src/Track.cpp:24-29 | A new track has no frames, uses linear interpolation and is a slow track. |
| Tracks.ScanBack | src/Track.cpp:141-152 | The backward scan finds the last frame among the first `count` whose time is at most the query time, and finds nothing when no frame qualifies. |
| Tracks.LoopTime | src/Track.cpp:107-124 | The wrap is undefined (the NaN of `glm::mod`) exactly for a zero duration, and lies in `[start, start + duration)` for a positive one. |
| Tracks.LoopTimePeriodic | src/Track.cpp:176-186 | Looping is periodic: shifting the time by whole durations does not change the wrapped time. |
| Tracks.SampleCount | src/Track.cpp:394-401 | The sample count is below 2^32, and is 60 plus the truncated duration times 60 when that fits in `unsigned int`. |
| Tracks.TableSlot | src/Track.cpp:403-407 | The corrected slot for a time inside the track's span lies within the table. |
| Tracks.TableIndex | src/Track.cpp:394-413 | A table lookup gives -1 exactly when the duration is zero or the slot lies past the table, and otherwise the table's entry at that slot. |
| Tracks.LookupWith | src/Track.cpp:96-153 | A lookup gives -1 or more, gives -1 for fewer than two frames, and on a slow track gives an index of an existing frame. When not looping it gives 0 at or before the first frame and `n - 2` at or after the second-to-last frame. |
| Tracks.Lookup | src/Track.cpp:350-413 | The model's lookup gives -1 for fewer than two frames and agrees with the source's lookup on every slow track. |
| Tracks.ScanLookupBrackets | src/Track.cpp:96-153 | On a sorted slow track with a span, the index found is a segment start. When looping, or when the time lies strictly between the first frame and the last segment's start, the adjusted time lies in that segment. |
| Tracks.AdjustTime | src/Track.cpp:155-203 | The time is clamped to the track's span when not looping, and wrapped into it when looping; tracks without a span give 0. |
| Tracks.AdjustTimeIdempotent | src/Track.cpp:155-203 | Adjusting an adjusted time changes nothing. |
| Tracks.AdjustTimePeriodic | src/Track.cpp:155-203 | A looping adjustment ignores shifts by whole multiples of the track's duration. |
| Tracks.AdjustTimeLooping | src/Track.cpp:155-203 | A looping adjustment agrees with the wrap that the lookup uses. |
| Tracks.SampleConstant | src/Track.cpp:255-268 | A constant sample is the cast value of the frame found, or `T()` when the lookup fails. |
| Tracks.SampleConstantAtKeyframe | src/Track.cpp:255-268 | At a keyframe's time, a constant sample shows that keyframe's value, except at the last keyframe, which shows the one before it. |
| Tracks.SegmentAt | src/Track.cpp:270-295 | A segment exists exactly when the index has a following frame at a later time; its gap is the time between the two frames and its factor times the gap is the time elapsed since the first. |
| Tracks.SampleLinear | src/Track.cpp:270-300 | A linear sample is `T()` whenever there is no segment at the adjusted time; its value at keyframes is stated by `SampleLinearAtKeyframe`. |
| Tracks.HermiteBasis | src/Track.cpp:218-226 | The two position weights of the Hermite basis always sum to one. |
| Tracks.HermiteBasisEndpoints | src/Track.cpp:218-226 | At 0 the basis picks the first point, and at 1 the second point, with no slope weight. |
| Tracks.HermiteEnds | src/Track.cpp:205-233 | At 0 the Hermite curve is the basis-weighted sum that keeps only the first point, and at 1 the one that keeps only the second point (brought to the first point's neighbourhood). |
| Tracks.SampleCubic | src/Track.cpp:302-345 | A cubic sample is `T()` whenever there is no segment at the adjusted time; its value at keyframes is stated by `SampleCubicAtKeyframe`. |
| Tracks.Sample | src/Track.cpp:79-94 | `Sample` dispatches on the interpolation kind to the constant, linear or cubic sampler. Its looping and clamping behaviour is stated by `SamplePeriodic` and `SampleClamped`. |
| Tracks.SamplePeriodic | src/Track.cpp:155-203 | A looping track with two or more frames and a positive duration samples alike at times that differ by a whole number of durations. |
| Tracks.SampleClamped | src/Track.cpp:155-203 | A sorted non-looping track with a positive duration samples before its start as at its start, and after its end as at its end. |
| Tracks.SampleDegenerate | src/Track.cpp:96-105 | A track with fewer than two frames samples to `T()` under every interpolation. |
| Tracks.ScalarBlendExact | src/Track.cpp:7 | The scalar helpers give exact endpoints, scale by one and zero, and add zero neutrally. |
| Tracks.ScalarHermiteEndpoints | src/Track.cpp:205-233 | Scalar Hermite curves pass through their endpoints. |
| Tracks.VectorBlendExact | src/Track.cpp:8 | The vector helpers give exact endpoints, scale by one and zero, and add zero neutrally. |
| Tracks.VectorHermiteEndpoints | src/Track.cpp:205-233 | Vector Hermite curves pass through their endpoints. |
| Tracks.QuatHermiteEndpoints | src/Track.cpp:205-233 | Quaternion Hermite curves give the normalised first point at 0 and the normalised neighbour of the second point at 1. |
| Tracks.KeyframeSegment | src/Track.cpp:270-295 | At a keyframe's time, a slow strictly sorted track finds the segment starting at that keyframe with factor 0, or the last segment with factor 1. |
| Tracks.KeyframeLookup | src/Track.cpp:126-152 | Without looping, the lookup at a keyframe's time finds that keyframe, or the one before it for the last keyframe. |
| Tracks.SampleLinearAtKeyframe | src/Track.cpp:270-300 | Linear sampling at a keyframe's time gives that keyframe's value. |
| Tracks.SampleCubicAtKeyframe | src/Track.cpp:302-345 | Cubic sampling at a keyframe's time gives that keyframe's value. |
| Tracks.TableEntry | src/Track.cpp:434-464 | A table entry is at most the start of the last segment; when some frame lies at or before the sample time, it is the last such frame, capped at that start. |
| Tracks.BuildTable | src/Track.cpp:417-466 | Tracks with fewer than two frames get no table. Otherwise the table has one entry per sample, each at most the start of the last segment. |
| Tracks.BuildTableSize | src/Track.cpp:425-433 | A sorted track's table holds at least 60 entries. |
| Tracks.Optimize | src/Track.cpp:468-488 | Optimising keeps the frames and interpolation and attaches the table built from the frames. |
| Tracks.OptimizeIdempotent | src/Track.cpp:468-488 | Optimising an optimised track changes nothing. |
| Tracks.TableLookupInRange | src/Track.cpp:349-414 | With the corrected slot, a fast lookup on a track with a span always finds a real segment start, for every time and either looping mode. |
| Tracks.LookupAsWrittenMissesFrame | src/Track.cpp:403-413 | With the slot as written, a looping track starting at 1.0 and ending at 2.0 looks up -1 at time 1.5. |
| Tracks.SampleAsWrittenMissesFrame | src/Track.cpp:403-413 | On the same track, slow sampling and sampling with the corrected slot give 0.5 at time 1.5, while the as-written lookup gives -1. |
| TransformTracks.NewTransformTrack | src/TransformTrack.cpp:3-8 | A new transform track targets joint 0 and its three component tracks have no frames. |
| TransformTracks.TimesNonEmpty | src/TransformTrack.cpp:58-64 | A transform track has a start and end time exactly when one of its component tracks has at least two frames. |
| TransformTracks.Earlier | src/TransformTrack.cpp:83-87 | The running start becomes the candidate or stays as it was, whichever is smaller; an empty running start takes the candidate. |
| TransformTracks.Later | src/TransformTrack.cpp:120-124 | The running end becomes the candidate or stays as it was, whichever is larger; an empty running end takes the candidate. |
| TransformTracks.FoldEarlierIsMin | src/TransformTrack.cpp:66-101 | Folding `Earlier` over the candidates gives their least element. |
| TransformTracks.FoldLaterIsMax | src/TransformTrack.cpp:103-138 | Folding `Later` over the candidates gives their greatest element. |
| TransformTracks.StartTimeIsMin | src/TransformTrack.cpp:66-101 | The start time is the least start among the components with at least two frames, and 0 when there is none. |
| TransformTracks.EndTimeIsMax | src/TransformTrack.cpp:103-138 | The end time is the greatest end among the components with at least two frames, and 0 when there is none. |
| TransformTracks.Sample | src/TransformTrack.cpp:140-164 | Each component with at least two frames overwrites its part of the reference transform with its sample. The other parts are kept. |
| TransformTracks.SampleInvalid | src/TransformTrack.cpp:140-164 | A transform track with no component of two frames returns the reference transform unchanged. |
| TransformTracks.SampleIgnoresAnimatedDefaults | src/TransformTrack.cpp:140-164 | Two references that differ only in animated components sample to the same transform. |
| TransformTracks.Optimize | src/TransformTrack.cpp:166-177 | Optimising keeps the joint and optimises each component track. |
| TransformTracks.OptimizeKeepsTiming | src/TransformTrack.cpp:166-177 | Optimising changes neither validity nor the start and end times. |
| Poses.SetNumberOfJoints | src/Pose.cpp:82-86 | Resizing keeps the first joints' parents and transforms, and fills new joints with parent 0 and the identity. |
| Poses.NewPose | src/Pose.cpp:3-6 | A new pose of `n` joints has `n` identity transforms and `n` parents of 0. |
| Poses.SetLocalTransform | src/Pose.cpp:93-96 | Setting a local transform changes that joint's transform and nothing else. |
| Poses.SetParent | src/Pose.cpp:256-259 | Setting a parent changes that joint's parent and nothing else. |
| Poses.AssignIsEqual | src/Pose.cpp:13-41 | An assigned pose compares equal to its source. |
| Poses.EqualReflexive | src/Pose.cpp:43-70 | Every well-formed pose equals itself. |
| Poses.EqualSymmetric | src/Pose.cpp:43-70 | Pose equality is symmetric. |
| Poses.EqualNeedsSameSize | src/Pose.cpp:43-53 | Poses with different joint counts are never equal. |
| Transforms.EqualReflexive | src/Transform.cpp:5-15 | Every transform equals itself under the tolerance comparison. |
| Poses.ParentsBeforeChildrenAcyclic | src/Pose.cpp:207-221 | A pose in which every parent index is below its child's reaches a root from every joint, which is the layout the fast loop relies on. |
| Poses.GlobalTransform | src/Pose.cpp:98-135 | A root joint's global transform is its local transform; other joints are stated by `GlobalOfChild` and `GlobalIsCombineAlong`. |
| Poses.WalkIsCombineAlong | src/Pose.cpp:98-135 | The parent walk combines the local transforms along the ancestor path, root first. |
| Poses.GlobalIsCombineAlong | src/Pose.cpp:98-135 | A joint's global transform is the combination of the locals on its ancestor path, root first, ending with itself. |
| Poses.GlobalOfChild | src/Pose.cpp:98-135 | The global transform of a child is the walk up from its parent, starting from the parent's local combined with the child's local. |
| Poses.WalkThroughIdentities | src/Pose.cpp:98-135 | In a pose whose locals are all the identity, walking to the root leaves the accumulated transform unchanged. |
| Poses.FastPrefix | src/Pose.cpp:207-221 | The fast loop covers a prefix in which no parent index exceeds its joint's, and stops at the first joint whose parent index is above its own. |
| Poses.MatrixPalette | src/Pose.cpp:137-249 | The palette has one matrix per joint. Each joint in the fast prefix gets its local matrix, times its parent's palette entry when it has a parent. Every later joint gets the matrix of its global transform. |
| Poses.OrderedPoseIsFast | src/Pose.cpp:207-240 | When every parent precedes its child, the fast loop covers the whole pose and the fallback loop does nothing. |
| Clips.NewClip | src/Clip.cpp:3-11 | A new clip is named "Unnamed", has no tracks, spans from 0.0 to 0.0 and loops. |
| Clips.FindTrack | src/Clip.cpp:35-44 | The search finds the first track for the joint, or nothing when no track targets it. |
| Clips.TrackOfJoint | src/Clip.cpp:31-51 | Asking for a joint's track returns its existing track unchanged, or appends a new empty track for it. |
| Clips.SetTrackOfJoint | src/Clip.cpp:53-73 | When the joint has a track, the first such track is replaced by the given one and every other track is kept. Otherwise the given track is appended with its joint id set. |
| Clips.SetTrackOfJointUnique | src/Clip.cpp:53-73 | Setting a track keeps the joint ids distinct when they were distinct. |
| Clips.UniqueFindIsOnly | src/Clip.cpp:35-44 | With distinct joint ids, the track found is the only one for its joint. |
| Clips.EarliestStartIsMin | src/Clip.cpp:105-138 | The clip's start is the least start among its valid tracks. |
| Clips.LatestEndIsMax | src/Clip.cpp:105-138 | The clip's end is the greatest end among its valid tracks. |
| Clips.RecalculateDuration | src/Clip.cpp:105-138 | Recalculating keeps the name, tracks and looping flag; the new span is stated by `RecalculateDurationIsHull`. |
| Clips.RecalculateDurationIsHull | src/Clip.cpp:105-138 | Without valid tracks the span is 0.0 to 0.0. Otherwise the span contains every valid track's span, and its start and end are some valid track's start and end. |
| Clips.AdjustTime | src/Clip.cpp:198-236 | A looping clip wraps the time into `[start, end)`, or gives 0 without a span; a non-looping clip clamps the time into `[start, end]`. |
| Clips.AdjustTimePeriodic | src/Clip.cpp:198-236 | A looping clip's adjustment ignores shifts by whole durations. |
| Clips.AdjustTimeIdempotent | src/Clip.cpp:198-236 | Adjusting an adjusted time changes nothing. |
| Clips.SampleTracks | src/Clip.cpp:175-193 | Sampling the tracks keeps the pose's joint count and parents. |
| Clips.Sample | src/Clip.cpp:163-196 | A clip without a positive duration returns 0 and leaves the pose alone. Otherwise it returns the adjusted time and samples every track at it. Unanimated joints keep their transforms, and with distinct joint ids each animated joint holds its track's sample. |
| Clips.SampleTracksUntouched | src/Clip.cpp:175-193 | Joints that no track targets keep their transforms and every joint keeps its parent. |
| Clips.SampleTracksUnique | src/Clip.cpp:175-193 | With distinct joint ids, each animated joint holds its own track's sample, taken against its previous transform. |
| Clips.OptimizeClip | src/Clip.cpp:238-258 | The optimised clip keeps the name, looping flag and set of animated joints, has distinct ids and a recalculated span. With distinct ids in the input, track `i` is the optimised track `i` and the span is the input's recalculated span. |
| Clips.OptimizedTimesAgree | src/Clip.cpp:238-258 | Optimising the tracks changes neither the earliest start nor the latest end found among them. |
| Skeletons.UpdateInverseBindPose | src/Skeleton.cpp:44-63 | The cache holds one entry per bind joint: the inverse of that joint's global bind matrix. The poses and names stay unchanged. |
| Skeletons.Set | src/Skeleton.cpp:3-17 | Setting stores the rest pose, bind pose and names, and leaves the cache current. |
| Skeletons.RootInverseBind | src/Skeleton.cpp:56-62 | A root joint's cached entry inverts its own local matrix. |
| Meshes.MapInfluence | src/RearrangeBones.cpp:227-234 | Each of a vertex's four joint indices is mapped individually. |
| Rearrange.Lookup | src/RearrangeBones.cpp:172-184 | A map lookup gives the stored value, or 0 for a missing key, as `std::map::operator[]` does. |
| Rearrange.ChildrenFrom | src/RearrangeBones.cpp:82-98 | The children found are exactly the joints from the given index on whose parent is the given joint, in index order. |
| Rearrange.Children | src/RearrangeBones.cpp:82-98 | A joint's children are exactly the joints whose parent it is, in increasing index order. |
| Rearrange.BreadthFirstOrder | src/RearrangeBones.cpp:132-159 | The order lists every joint exactly once, begins with the roots in index order, and lists every joint after its parent. |
| Rearrange.VisitStep | src/RearrangeBones.cpp:135-151 | Dequeuing a joint and enqueueing its children keeps the queue free of repeats and within range, keeps every queued joint after its parent, and keeps every dequeued joint's children queued. |
| Rearrange.VisitedAll | src/RearrangeBones.cpp:132-159 | Once the queue holds the roots and the children of every joint in it, it holds every joint of an acyclic pose. |
| Rearrange.NewToOld | src/RearrangeBones.cpp:153-163 | The new-to-old map sends each new index to the joint at that position of the order. |
| Rearrange.OldToNew | src/RearrangeBones.cpp:153-163 | The old-to-new map sends each joint to its position in the order. |
| Rearrange.OrderMaps | src/RearrangeBones.cpp:132-163 | For an order listing every joint once, the two maps are mutually inverse bijections of `[0, n)`. |
| Rearrange.JointMaps | src/RearrangeBones.cpp:82-163 | With no joints both maps are empty. Otherwise they are mutually inverse renumberings of the joints, the new numbering puts every parent before its child, and the first new indices are the roots. |
| Rearrange.Renumbered | src/RearrangeBones.cpp:165-184 | Joint `i` of the renumbered pose is old joint `newToOld[i]`, with its parent looked up in the old-to-new map. |
| Rearrange.RenumberedNames | src/RearrangeBones.cpp:168-179 | Name `i` of the rearranged skeleton is the name of old joint `newToOld[i]`. |
| Rearrange.RenumberedMoves | src/RearrangeBones.cpp:165-184 | Old joint `j` reappears at its new index, with the same transform and the same parent in new numbering. |
| Rearrange.RenumberedNamesMove | src/RearrangeBones.cpp:168-179 | Old joint `j`'s name reappears at its new index. |
| Rearrange.NewParentsPrecede | src/RearrangeBones.cpp:181-183 | After renumbering, every parent is -1 or an index below its child's. |
| Rearrange.RearrangeSkeleton | src/RearrangeBones.cpp:38-190 | With no joints nothing changes. Otherwise every old joint moves to its new index, taking its rest and bind transforms, its name and its renumbered parent along. Parents precede children, and the inverse bind pose cache is current. Global transforms move unchanged, as `RearrangeKeepsGlobals` states. |
| Rearrange.RearrangeKeepsGlobals | src/RearrangeBones.cpp:165-190 | After rearrangement, the rest and bind global transforms of each joint's new index equal those of the old joint, and all poses involved are acyclic. |
| Rearrange.RenumberedAcyclic | src/RearrangeBones.cpp:181-187 | The renumbered bind pose is acyclic, so its global transforms are defined. |
| Rearrange.RearrangeClip | src/RearrangeBones.cpp:192-218 | Every track's joint id is cast to `int`, looked up in the map and cast back to `unsigned int`; name, span, looping flag and track contents are kept. |
| Rearrange.RearrangeClipKeepsUnmatched | src/RearrangeBones.cpp:200-201 | A track whose joint id is `0xFFFFFFFF`, the loader's -1 for a missing target node, keeps that id: it casts to -1, which the map sends to -1. |
| Rearrange.RearrangeClipRoundTrip | src/RearrangeBones.cpp:192-218 | Rearranging a clip by the old-to-new map and then by the new-to-old map gives back the original joint ids, including `0xFFFFFFFF`. |
| Rearrange.RearrangeClipKeepsUniqueIds | src/RearrangeBones.cpp:192-218 | Distinct joint ids, `0xFFFFFFFF` among them, stay distinct after rearrangement. |
| Rearrange.RearrangeMesh | src/RearrangeBones.cpp:220-236 | Every vertex's four joint indices are replaced by their new indices. Only the influences of a mesh are modelled. |
| Rearrange.RearrangeMeshRoundTrip | src/RearrangeBones.cpp:220-236 | Rearranging a mesh by the old-to-new map and then by the new-to-old map gives back the original influences. |
| Gltf.NodeIndexFrom | src/GLTFLoader.cpp:17-33 | The scan from a position finds the first later node equal to the target, and -1 exactly when there is none. |
| Gltf.NodeIndex | src/GLTFLoader.cpp:17-33 | A node's index is the position of its first occurrence, and -1 for a missing node. |
| Gltf.NodeIndexOfNode | src/GLTFLoader.cpp:17-33 | With distinct nodes, the index of node `i` is `i`. |
| Gltf.TrackInterpolation | src/GLTFLoader.cpp:108-122 | Each sampler interpolation maps to exactly one track interpolation: step to constant, linear to linear, cubic spline to cubic. |
| Gltf.ReadFrame | src/GLTFLoader.cpp:160-188 | A frame read from the values has the given time and `n` floats in its value and in each slope. |
| Gltf.ChannelTrack | src/GLTFLoader.cpp:103-190 | The track gets the sampler's interpolation, one frame per time, with that time and `n` value floats; non-cubic samplers give zero slopes. |
| Gltf.ReadPackedFrame | src/GLTFLoader.cpp:160-188 | Reading a frame back from where it was packed gives the frame. |
| Gltf.ChannelTrackFrame | src/GLTFLoader.cpp:134-188 | Frame `i` of a channel's track is read at offset `i` times the stride. |
| Gltf.ChannelRoundTrip | src/GLTFLoader.cpp:134-188 | Packing frames in glTF layout (slopes only for cubic) and reading the channel back gives the same frames. |
| Gltf.JointNames | src/GLTFLoader.cpp:479-495 | There is one name per node: its own name, or "Unnamed" for a node without one. |
| Gltf.RoundIndexNearest | src/GLTFLoader.cpp:289-294 | Rounding a non-negative float index by adding 0.5 and truncating gives the nearest integer. |
| Gltf.InfluenceIndex | src/GLTFLoader.cpp:296-301 | A rounded skin joint index maps to the file node index of that skin joint, and to 0 when the node is not found. |
| Gltf.VertexInfluence | src/GLTFLoader.cpp:291-302 | Each of the four influences is mapped through the skin's joint list independently. |
| Gltf.VertexInfluenceInRange | src/GLTFLoader.cpp:291-302 | In a file with nodes, every mapped influence is a valid node index. |
| Gltf.ApplySkin | src/GLTFLoader.cpp:586-600 | Applying a skin keeps the table's length; its effect is stated by `ApplySkinEffect`. |
| Gltf.ApplySkins | src/GLTFLoader.cpp:575-601 | Applying the skins keeps the table's length; their effect is stated by `ApplySkinsEffect`. |
| Gltf.ApplySkinEffect | src/GLTFLoader.cpp:586-600 | After a skin, an entry the skin does not list keeps its old value. An entry it lists holds the bind transform of the matrix of the last joint naming that node. |
| Gltf.ApplySkinsEffect | src/GLTFLoader.cpp:575-601 | After all skins, an entry no skin lists keeps its old value. Any other holds the bind transform of the matrix of the last joint naming that node, in the last skin that names it. |
| Gltf.GlobalBindTransforms | src/GLTFLoader.cpp:562-601 | The global bind table has one entry per joint; its contents are stated by `GlobalBindTransformsSource`. |
| Gltf.GlobalBindTransformsSource | src/GLTFLoader.cpp:562-601 | An entry that no skin lists is the rest pose's global transform. Any other is the bind transform of the matrix of the last joint naming that node, in the last skin that names it. |
| Gltf.LocalBindPose | src/GLTFLoader.cpp:603-648 | The bind pose keeps the rest pose's parents. A root gets its global bind transform, and any other joint gets the inverse of its parent's global bind transform combined with its own. |
| Gltf.LoadBindPose | src/GLTFLoader.cpp:562-649 | The bind pose keeps the rest pose's parents, and its locals are computed from the global bind table as `LocalBindPose` states. |

## Left out

- Float rounding, NaN propagation and `float` overflow are not modelled; `real` is exact. Where the source would produce NaN (a zero-duration loop, a one-sample table), the model returns `None` and follows the branch the source's comparisons would take.
- Square roots, `glm::inverse` of a 4x4 matrix and the glTF matrix decomposition (`mat4ToTransform`) are parameters (`rsqrt`, `invert`, `bindOf`), because they are not polynomial. Properties that need them exact say so in their `requires`.
- `slerp`, `angleAxis`, `lookRotation`, `fromTo` and the other quaternion constructors that need trigonometry are not part of the core modelled here.
- Poses.MatrixPalette: the fast loop (products of matrices) and the fallback loop (`transformToMat4` of a combined transform) are characterised separately against the same ancestor path, but not proved equal. `combine` is not associative under non-uniform scale, so the two can differ.
- Poses.MatrixPalette requires that no joint is its own parent. The source's fast loop would read that joint's unset slot.
- Transforms.ToMat4 is not claimed to turn `combine` into matrix multiplication, because `combine` is not associative under non-uniform scale.
- Gltf.LocalBindPose is not proved to invert `GetGlobalTransform`, because that needs `combine` to be associative.
- Tracks.BuildTableSize and Tracks.TableLookupInRange require the track duration to keep the sample count inside `unsigned int`, which needs fewer than 71582787 seconds.
- Tracks.SampleCount models the float-to-unsigned truncation of `duration * 60`, not the rounding of that product.
- Tracks.TableLookupInRange: the table is built with `(count - 1)` in the denominator and looked up with `count`, so the fast and slow lookups are not claimed to agree.
- Clips.Sample requires every track's joint id to index the pose, as the source's `mJoints[id]` does without a check.
- Clips.OptimizeClip relates each optimised track to its input track only when the joint ids are distinct. With a repeated id, every later track for that joint is dropped, because the source looks up the joint's first track each time; the contract says only which joints remain.
- Poses.EqualReflexive requires a well-formed pose, one with as many parents as transforms, which the source keeps by construction.
- Rearrange.RearrangeSkeleton requires the rest parents to be acyclic, roots to be marked -1, and the bind pose's parents to equal the rest pose's. Other negative parents would be renumbered through the map to 0.
- Rearrange.Lookup does not model the insertion that `std::map::operator[]` performs on a missing key, because later lookups give 0 either way.
- Rearrange.RearrangeClipRoundTrip and Rearrange.RearrangeClipKeepsUniqueIds require at most 2^31 joints, and every joint id below the joint count or equal to `0xFFFFFFFF`. Other ids from 2^31 on cast to negative keys the map does not hold, and are sent to 0.
- Gltf.ChannelTrack requires at least one time value, because the source divides the value count by the time count.
- Gltf.InfluenceIndex requires the rounded float index to lie within the skin's joint list, as the source indexes it unchecked.
- Gltf.ApplySkin, Gltf.ApplySkins, Gltf.ApplySkinEffect, Gltf.ApplySkinsEffect, Gltf.GlobalBindTransforms, Gltf.GlobalBindTransformsSource and Gltf.LoadBindPose require every skin joint to have an inverse bind matrix and to be one of the file's nodes (`SkinFits`). A valid glTF file guarantees both, and the source indexes the matrices and the node table without checking. A skin missing either is not modelled.
- Gltf.NodeIndexOfNode, Gltf.ApplySkinEffect, Gltf.ApplySkinsEffect and Gltf.GlobalBindTransformsSource require the glTF nodes to be distinct values. The source compares node pointers, which are distinct by construction.
- Quaternions.Normalized states only the degenerate case in its own contract. The scaled case is stated through Quaternions.NormalizedIsUnit and Quaternions.NormalizedOfUnit, which need an exact reciprocal square root.
- Tracks.Lookup: on a fast track it reads the table at the start-relative slot, not at the source's `time / duration` slot. With a nonzero start time the source's slot is shifted by `start / duration`, so the source reads a later entry or runs past the table and gives -1, where the model reads the entry at the start-relative slot, which lies inside the table (see "## Findings").
- Tracks.SampleConstant: on a fast track it samples through the corrected slot of Tracks.Lookup. Where the source's slot reads another entry or misses the table, the source returns that frame's value or `T()`, and the model returns the value of the frame named by the entry at the start-relative slot. Slow tracks sample as in the source.
- Tracks.SampleLinear: on a fast track it samples through the corrected slot of Tracks.Lookup, so it interpolates in the segment named by the entry at the start-relative slot where the source's slot would read another segment or miss the table and return `T()`. Slow tracks sample as in the source. TransformTracks.Sample and Clips.Sample inherit this.
- Tracks.SampleCubic: on a fast track it samples through the corrected slot of Tracks.Lookup, so it interpolates in the segment named by the entry at the start-relative slot where the source's slot would read another segment or miss the table and return `T()`. Slow tracks sample as in the source.
- Tracks.SampleLinear and Tracks.SampleCubic state their own failure case only. Their values are stated at keyframe times (Tracks.SampleLinearAtKeyframe, Tracks.SampleCubicAtKeyframe) and not between keyframes.
- Transforms.Mix states position and scale in its own contract. Its rotation is stated at the two ends only (Transforms.MixAtStart, Transforms.MixAtEnd).
- Clips.SampleTracks states only the pose's shape in its own contract. What each joint receives is in Clips.SampleTracksUntouched and Clips.SampleTracksUnique.
- Gltf.ApplySkin and Gltf.ApplySkins state only the table's length in their own contracts. What each entry receives is in Gltf.ApplySkinEffect and Gltf.ApplySkinsEffect.
- `LoadRestPose`, `GetLocalTransformFromNode`, `GetFloatsFromAccessor`, the `LoadClips` and `LoadAnimatedMeshes` glue, normals, positions, texture coordinates, weights, GPU buffers and the OpenGL state are I/O or rendering code and are not part of this model.
- The `Skeleton` getters are the datatype's fields.

## Findings

| source | as written | input that shows it | evidently intended | confidence | as-written member | corrected member |
|---|---|---|---|---|---|---|
| src/Track.cpp:403-407 | the fast lookup normalises the track time as `time / duration`, ignoring the start time, while the table is built over `[start, end]` (src/Track.cpp:437-440) | a fast track with frames at times 1.0 and 2.0, looping, sampled at 1.5: slot 1.5 × 120 = 180 lies past the 120-entry table, so the lookup gives -1 and the sample is `T()` | normalise as `(time - start) / duration`, which always lands in the table | not executed | Tracks.LookupAsWrittenMissesFrame | Tracks.TableLookupInRange |
