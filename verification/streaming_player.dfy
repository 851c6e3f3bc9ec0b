/** The virtual timeline of StreamingAudioPlayer.tsx: the article's audio is
    a list of segments, each its own media element, and the player shows one
    position on the concatenation of all of them. Durations become known as
    segments load; an unknown one counts as 0. The media elements, React's
    effects and the timers are the external driver: each of their events is
    a method of the class below. */
module Streaming {
  import opened Base
  import opened Timeline

  // ---------------------------------------------------------------------
  // seek: overall time -> segment and time within it

  /** The search of `seek` continued from entry `i` with `rem` seconds still
      to place: stop at the first entry whose duration (missing as 0) covers
      `rem`, else step past it; past the last known entry the index is the
      number of entries. */
  function LocateFrom(ds: seq<Option<real>>, i: nat, rem: real): (int, real)
    requires i <= |ds|
    decreases |ds| - i
  {
    if i == |ds| then (|ds|, rem)
    else if rem <= Or0(ds[i]) then (i, rem)
    else LocateFrom(ds, i + 1, rem - Or0(ds[i]))
  }

  /** The segment and in-segment time that `seek(p)` computes before clamping. */
  function Locate(ds: seq<Option<real>>, p: real): (int, real)
  {
    LocateFrom(ds, 0, p)
  }

  /** The overall time at which segment `j` ends. */
  function SegmentEnd(ds: seq<Option<real>>, j: nat): real
  {
    Prefix(ds, j + 1)
  }

  /** What the search has established once it reaches entry `i`. */
  ghost predicate SearchedUpTo(ds: seq<Option<real>>, p: real, i: nat, rem: real)
  {
    && i <= |ds|
    && rem == p - Prefix(ds, i)
    && forall j: nat :: j < i ==> p > SegmentEnd(ds, j)
  }

  lemma {:induction false} LocateFromSpec(ds: seq<Option<real>>, p: real, i: nat, rem: real)
    requires SearchedUpTo(ds, p, i, rem)
    ensures var (k, r) := LocateFrom(ds, i, rem);
      && i <= k <= |ds|
      && SearchedUpTo(ds, p, k, r)
      && (k < |ds| ==> p <= SegmentEnd(ds, k))
    decreases |ds| - i
  {
    if i < |ds| && rem > Or0(ds[i]) {
      assert Prefix(ds, i + 1) == Prefix(ds, i) + Or0(ds[i]);
      forall j: nat | j < i + 1
        ensures p > SegmentEnd(ds, j)
      {
      }
      LocateFromSpec(ds, p, i + 1, rem - Or0(ds[i]));
    } else if i < |ds| {
      assert Prefix(ds, i + 1) == Prefix(ds, i) + Or0(ds[i]);
    }
  }

  /** `seek(p)` picks the first segment whose end (the running sum up to and
      including it) is at or after `p`, or the number of known durations if
      there is none; the in-segment time is `p` minus the durations before
      the pick, so the two add back up to `p`. */
  lemma LocateSpec(ds: seq<Option<real>>, p: real)
    ensures var (k, r) := Locate(ds, p);
      && 0 <= k <= |ds|
      && (forall j: nat :: j < k ==> p > SegmentEnd(ds, j))
      && (k < |ds| ==> p <= SegmentEnd(ds, k))
      && r == p - Prefix(ds, k)
      && Prefix(ds, k) + r == p
  {
    LocateFromSpec(ds, p, 0, p);
  }

  /** A position on the known timeline lands inside a known segment, at a
      time between 0 and that segment's duration. */
  lemma LocateWithin(ds: seq<Option<real>>, p: real)
    requires |ds| > 0 && 0.0 <= p <= Total(ds)
    ensures var (k, r) := Locate(ds, p);
      && 0 <= k < |ds|
      && 0.0 <= r <= Or0(ds[k])
  {
    LocateSpec(ds, p);
    var (k, r) := Locate(ds, p);
    if k == |ds| {
      assert false;
    }
    assert Prefix(ds, k + 1) == Prefix(ds, k) + Or0(ds[k]);
    if k > 0 {
      assert p > SegmentEnd(ds, k - 1);
    }
  }

  /** A position past every known duration goes to the index one past the
      last known segment, with the excess as the in-segment time. */
  lemma LocatePastEnd(ds: seq<Option<real>>, p: real)
    requires NonNegative(ds) && p > Total(ds)
    ensures Locate(ds, p) == (|ds|, p - Total(ds))
  {
    LocateSpec(ds, p);
    var (k, r) := Locate(ds, p);
    if k < |ds| {
      PrefixMonotone(ds, k + 1, |ds|);
      assert false;
    }
  }

  /** Durations 10, 15 and 7: time 20 is 10 seconds into the second segment,
      and time 10 is the end of the first, not the start of the second. */
  lemma LocateExample()
    ensures Locate([Some(10.0), Some(15.0), Some(7.0)], 20.0) == (1, 10.0)
    ensures Locate([Some(10.0), Some(15.0), Some(7.0)], 10.0) == (0, 10.0)
  {
  }

  /** The loop of `seek`. */
  method FindSegment(ds: seq<Option<real>>, p: real) returns (target: int, remaining: real)
    ensures (target, remaining) == Locate(ds, p)
  {
    remaining := p;
    target := 0;
    var i := 0;
    while i < |ds|
      invariant 0 <= i <= |ds| && target == i
      invariant LocateFrom(ds, i, remaining) == Locate(ds, p)
    {
      var duration := Or0(ds[i]);
      if remaining <= duration {
        target := i;
        break;
      }
      remaining := remaining - duration;
      target := i + 1;
      i := i + 1;
    }
  }

  // ---------------------------------------------------------------------
  // updatePosition: segment and time within it -> overall time

  /** The loop of `updatePosition`: the durations before segment `current`
      (missing ones as 0) plus the current element's time. */
  method PositionOf(ds: seq<Option<real>>, current: nat, currentTime: real) returns (pos: real)
    ensures pos == Prefix(ds, current) + currentTime
  {
    pos := 0.0;
    var i := 0;
    while i < current
      invariant 0 <= i <= current
      invariant pos == Prefix(ds, i)
    {
      pos := pos + Or0(Get(ds, i));
      i := i + 1;
    }
    pos := pos + currentTime;
  }

  // ---------------------------------------------------------------------
  // skipping

  /** `Math.min(position + 15, totalDuration)`. */
  function ForwardTarget(position: real, total: real): real
  {
    RealMin(position + 15.0, total)
  }

  /** `Math.max(position - 15, 0)`. */
  function BackwardTarget(position: real): real
  {
    RealMax(position - 15.0, 0.0)
  }

  /** From a position on the timeline both skips stay on it, and each moves
      15 seconds unless that would leave the timeline. */
  lemma SkipTargetsInRange(position: real, total: real)
    requires 0.0 <= position <= total
    ensures 0.0 <= ForwardTarget(position, total) <= total
    ensures 0.0 <= BackwardTarget(position) <= total
    ensures position + 15.0 <= total ==> ForwardTarget(position, total) == position + 15.0
    ensures position >= 15.0 ==> BackwardTarget(position) == position - 15.0
    ensures ForwardTarget(position, total) >= position
    ensures BackwardTarget(position) <= position
  {
  }

  // ---------------------------------------------------------------------
  // the component's state

  class StreamingPlayer {
    /** `segments.length`. */
    const segmentCount: nat
    var currentSegment: int
    var loadedSegments: set<int>
    /** The loads started so far, in order: each entry is a segment whose
        media element was given its source and told to load. A `loadeddata`
        event only arrives for one of these. */
    var requested: seq<int>
    var segmentDurations: seq<Option<real>>
    var isPlaying: bool
    var position: real
    var totalDuration: real
    /** The `currentTime` of each segment's media element. */
    var currentTimes: seq<real>

    /** The current index is a segment (or -1 once a seek clamps against an
        empty list), only real segments are requested, only requested ones
        get loaded, and the total is the sum of the known durations. */
    ghost predicate Valid()
      reads this
    {
      && |currentTimes| == segmentCount
      && -1 <= currentSegment < Max(segmentCount, 1)
      && (segmentCount > 0 ==> currentSegment >= 0)
      && (forall k :: 0 <= k < |requested| ==> 0 <= requested[k] < segmentCount)
      && (forall i :: i in loadedSegments ==> i in requested)
      && |segmentDurations| <= segmentCount
      && totalDuration == Total(segmentDurations)
    }

    constructor (count: nat)
      ensures Valid()
      ensures segmentCount == count && currentSegment == 0
      ensures loadedSegments == {} && requested == [] && segmentDurations == []
      ensures !isPlaying && position == 0.0 && totalDuration == 0.0
      ensures currentTimes == seq(count, _ => 0.0)
    {
      segmentCount := count;
      currentSegment := 0;
      loadedSegments := {};
      requested := [];
      segmentDurations := [];
      isPlaying := false;
      position := 0.0;
      totalDuration := 0.0;
      currentTimes := seq(count, _ => 0.0);
    }

    /** `loadSegment` up to the point where it waits for the element: a load
        starts only for a segment that exists and is not loaded yet, and then
        that segment is appended to the started loads. A segment that has had
        its `loadeddata` is never loaded again, and nothing else changes. */
    method LoadSegment(segmentIndex: int) returns (starts: bool)
      requires Valid()
      modifies this
      ensures Valid()
      ensures starts <==> segmentIndex !in loadedSegments && 0 <= segmentIndex < segmentCount
      ensures requested == old(requested) + (if starts then [segmentIndex] else [])
      ensures segmentIndex in old(loadedSegments) ==> requested == old(requested)
      ensures loadedSegments == old(loadedSegments) && segmentDurations == old(segmentDurations)
      ensures currentSegment == old(currentSegment) && currentTimes == old(currentTimes)
      ensures totalDuration == old(totalDuration) && position == old(position)
      ensures isPlaying == old(isPlaying)
    {
      starts := !(segmentIndex in loadedSegments) && 0 <= segmentIndex < segmentCount;
      if starts {
        requested := requested + [segmentIndex];
      }
    }

    /** `onLoadedData` for a segment `i` whose load was started, followed by the
        total-duration effect: the segment is marked loaded, its duration
        recorded, and the total moves by the change of that entry. */
    method OnLoadedData(i: nat, duration: Option<real>)
      requires Valid() && i in requested
      modifies this
      ensures Valid()
      ensures loadedSegments == old(loadedSegments) + {i} && requested == old(requested)
      ensures segmentDurations == SetAt(old(segmentDurations), i, duration)
      ensures totalDuration == old(totalDuration) + Or0(duration) - Or0(Get(old(segmentDurations), i))
      ensures currentSegment == old(currentSegment) && currentTimes == old(currentTimes)
      ensures position == old(position) && isPlaying == old(isPlaying)
    {
      TotalSetAt(segmentDurations, i, duration);
      loadedSegments := loadedSegments + {i};
      segmentDurations := SetAt(segmentDurations, i, duration);
      totalDuration := Total(segmentDurations);
    }

    /** `updatePosition`: with a current media element, the position becomes
        the durations before it plus its time; without one nothing changes. */
    method UpdatePosition()
      requires Valid()
      modifies this
      ensures Valid()
      ensures 0 <= currentSegment < segmentCount
        ==> position == Prefix(segmentDurations, currentSegment) + currentTimes[currentSegment]
      ensures !(0 <= currentSegment < segmentCount) ==> position == old(position)
      ensures currentSegment == old(currentSegment) && currentTimes == old(currentTimes)
      ensures loadedSegments == old(loadedSegments) && segmentDurations == old(segmentDurations)
      ensures requested == old(requested)
      ensures totalDuration == old(totalDuration) && isPlaying == old(isPlaying)
    {
      if 0 <= currentSegment < segmentCount {
        position := PositionOf(segmentDurations, currentSegment, currentTimes[currentSegment]);
      }
    }

    /** `seek(p)`: the located segment, clamped to the last one, becomes
        current; if it is loaded its element jumps to the located time. When
        no clamping happened and the segment is loaded, the position formula
        of `updatePosition` gives back exactly `p`. */
    method Seek(p: real)
      requires Valid()
      modifies this
      ensures Valid()
      ensures currentSegment == Min(Locate(segmentDurations, p).0, segmentCount - 1)
      ensures currentSegment in loadedSegments
        ==> currentTimes == old(currentTimes)[currentSegment := Locate(segmentDurations, p).1]
      ensures currentSegment !in loadedSegments ==> currentTimes == old(currentTimes)
      ensures Locate(segmentDurations, p).0 < segmentCount && currentSegment in loadedSegments
        ==> Prefix(segmentDurations, currentSegment) + currentTimes[currentSegment] == p
      ensures loadedSegments == old(loadedSegments) && segmentDurations == old(segmentDurations)
      ensures requested == old(requested)
      ensures totalDuration == old(totalDuration) && position == old(position)
      ensures isPlaying == old(isPlaying)
    {
      LocateSpec(segmentDurations, p);
      var located, remaining := FindSegment(segmentDurations, p);
      var target := Min(located, segmentCount - 1);
      currentSegment := target;
      if target in loadedSegments {
        currentTimes := currentTimes[target := remaining];
      }
    }

    /** `skipForward`: seek 15 seconds ahead, at most to the end; everything
        `seek` promises holds for that target. */
    method SkipForward()
      requires Valid()
      modifies this
      ensures Valid()
      ensures currentSegment == Min(Locate(segmentDurations, ForwardTarget(old(position), old(totalDuration))).0, segmentCount - 1)
      ensures currentSegment in loadedSegments
        ==> currentTimes == old(currentTimes)[currentSegment := Locate(segmentDurations, ForwardTarget(old(position), old(totalDuration))).1]
      ensures currentSegment !in loadedSegments ==> currentTimes == old(currentTimes)
      ensures Locate(segmentDurations, ForwardTarget(old(position), old(totalDuration))).0 < segmentCount && currentSegment in loadedSegments
        ==> Prefix(segmentDurations, currentSegment) + currentTimes[currentSegment] == ForwardTarget(old(position), old(totalDuration))
      ensures loadedSegments == old(loadedSegments) && segmentDurations == old(segmentDurations)
      ensures requested == old(requested)
      ensures totalDuration == old(totalDuration) && position == old(position)
      ensures isPlaying == old(isPlaying)
    {
      Seek(ForwardTarget(position, totalDuration));
    }

    /** `skipBackward`: seek 15 seconds back, at most to the start; everything
        `seek` promises holds for that target. */
    method SkipBackward()
      requires Valid()
      modifies this
      ensures Valid()
      ensures currentSegment == Min(Locate(segmentDurations, BackwardTarget(old(position))).0, segmentCount - 1)
      ensures currentSegment in loadedSegments
        ==> currentTimes == old(currentTimes)[currentSegment := Locate(segmentDurations, BackwardTarget(old(position))).1]
      ensures currentSegment !in loadedSegments ==> currentTimes == old(currentTimes)
      ensures Locate(segmentDurations, BackwardTarget(old(position))).0 < segmentCount && currentSegment in loadedSegments
        ==> Prefix(segmentDurations, currentSegment) + currentTimes[currentSegment] == BackwardTarget(old(position))
      ensures loadedSegments == old(loadedSegments) && segmentDurations == old(segmentDurations)
      ensures requested == old(requested)
      ensures totalDuration == old(totalDuration) && position == old(position)
      ensures isPlaying == old(isPlaying)
    {
      Seek(BackwardTarget(position));
    }

    /** `onended`: move on to the next segment if there is one, else stop. */
    method OnEnded()
      requires Valid()
      modifies this
      ensures Valid()
      ensures old(currentSegment) + 1 < segmentCount
        ==> currentSegment == old(currentSegment) + 1 && isPlaying == old(isPlaying)
      ensures old(currentSegment) + 1 >= segmentCount
        ==> currentSegment == old(currentSegment) && !isPlaying
      ensures loadedSegments == old(loadedSegments) && segmentDurations == old(segmentDurations)
      ensures currentTimes == old(currentTimes) && position == old(position)
      ensures totalDuration == old(totalDuration) && requested == old(requested)
    {
      if currentSegment + 1 < segmentCount {
        currentSegment := currentSegment + 1;
      } else {
        isPlaying := false;
      }
    }
  }
}
