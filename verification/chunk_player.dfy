/** The virtual timeline of AudioPlayer.tsx, the older player: one sound is
    loaded at a time, the chunk at `currentChunkIndex`, and each load records
    that chunk's duration. The player's total is only set once every chunk
    has a positive duration. Its seek search differs from the streaming
    player's: a position that no known chunk reaches falls back to chunk 0.
    The sound library, the timers and React's effects are the external
    driver: each of their callbacks is a method of the class below. */
module ChunkPlayer {
  import opened Base
  import opened Timeline
  import Streaming

  // ---------------------------------------------------------------------
  // sums of known durations

  /** `chunkDurations.slice(0, n).reduce((sum, d) => sum + d, 0)`. */
  function PrefixSum(ds: seq<real>, n: nat): real
    requires n <= |ds|
  {
    if n == 0 then 0.0 else PrefixSum(ds, n - 1) + ds[n - 1]
  }

  /** `chunkDurations.reduce((sum, d) => sum + d, 0)`. */
  function Sum(ds: seq<real>): real
  {
    PrefixSum(ds, |ds|)
  }

  /** The overall time at which chunk `j` ends. */
  function ChunkEnd(ds: seq<real>, j: nat): real
    requires j < |ds|
  {
    PrefixSum(ds, j + 1)
  }

  predicate AllPositive(ds: seq<real>)
  {
    forall i :: 0 <= i < |ds| ==> ds[i] > 0.0
  }

  /** `newDurations[i] = d` where `i` is at most the current length: the
      entry is replaced, or appended at the end. */
  function Record(ds: seq<real>, i: nat, d: real): (r: seq<real>)
    requires i <= |ds|
    ensures |r| == Max(|ds|, i + 1) && r[i] == d
    ensures forall j :: 0 <= j < |ds| && j != i ==> r[j] == ds[j]
  {
    if i < |ds| then ds[i := d] else ds + [d]
  }

  /** The total-duration rule of `onload`: a total exists once there is one
      duration per chunk and each of them is positive, and it is their sum. */
  function CompleteTotal(ds: seq<real>, chunkCount: nat): Option<real>
  {
    if |ds| == chunkCount && AllPositive(ds) then Some(Sum(ds)) else None
  }

  lemma {:induction false} PrefixSumPositive(ds: seq<real>, n: nat)
    requires AllPositive(ds) && n <= |ds|
    ensures PrefixSum(ds, n) >= 0.0
    ensures n > 0 ==> PrefixSum(ds, n) > 0.0
    ensures forall j :: 0 <= j < n ==> ds[j] <= PrefixSum(ds, n)
  {
    if n > 0 {
      PrefixSumPositive(ds, n - 1);
    }
  }

  /** A total that has been set is positive for a non-empty article, at
      least every chunk's duration, and the end of the last chunk. */
  lemma CompleteTotalBounds(ds: seq<real>, chunkCount: nat)
    requires CompleteTotal(ds, chunkCount).Some?
    ensures var total := CompleteTotal(ds, chunkCount).value;
      && total == Sum(ds)
      && (chunkCount > 0 ==> total > 0.0 && total == ChunkEnd(ds, chunkCount - 1))
      && forall j :: 0 <= j < |ds| ==> ds[j] <= total
  {
    PrefixSumPositive(ds, |ds|);
  }

  /** No total while a chunk is still missing or has no positive duration. */
  lemma CompleteTotalMissing(ds: seq<real>, chunkCount: nat, i: nat)
    requires |ds| < chunkCount || (i < |ds| && ds[i] <= 0.0)
    ensures CompleteTotal(ds, chunkCount).None?
  {
  }

  // ---------------------------------------------------------------------
  // the chunk search of handleSeek, skipForward and skipBackward

  /** The search continued from chunk `i`, `cumulative` being the durations
      before it: the first chunk whose end reaches `p`, with the time into
      it; when no chunk does, chunk 0 with the whole of `p`. */
  function ChunkFrom(ds: seq<real>, i: nat, cumulative: real, p: real): (int, real)
    requires i <= |ds|
    decreases |ds| - i
  {
    if i == |ds| then (0, p)
    else if cumulative + ds[i] >= p then (i, p - cumulative)
    else ChunkFrom(ds, i + 1, cumulative + ds[i], p)
  }

  /** The target chunk and `positionInChunk` of the search for `p`. */
  function FindChunk(ds: seq<real>, p: real): (int, real)
  {
    ChunkFrom(ds, 0, 0.0, p)
  }

  /** Some known chunk ends at or after `p`. */
  ghost predicate Reaches(ds: seq<real>, p: real, from: nat)
  {
    exists j: nat :: from <= j < |ds| && p <= ChunkEnd(ds, j)
  }

  ghost predicate SearchedChunks(ds: seq<real>, p: real, i: nat, cumulative: real)
  {
    && i <= |ds|
    && cumulative == PrefixSum(ds, i)
    && forall j: nat :: j < i ==> p > ChunkEnd(ds, j)
  }

  lemma {:induction false} ChunkFromSpec(ds: seq<real>, p: real, i: nat, cumulative: real)
    requires SearchedChunks(ds, p, i, cumulative)
    ensures var (t, q) := ChunkFrom(ds, i, cumulative, p);
      && (Reaches(ds, p, i) ==>
            && i <= t < |ds| && p <= ChunkEnd(ds, t)
            && (forall j: nat :: j < t ==> p > ChunkEnd(ds, j))
            && q == p - PrefixSum(ds, t))
      && (!Reaches(ds, p, i) ==> t == 0 && q == p)
    decreases |ds| - i
  {
    if i < |ds| {
      if cumulative + ds[i] >= p {
        assert p <= ChunkEnd(ds, i);
      } else {
        assert p > ChunkEnd(ds, i);
        forall j: nat | j < i + 1
          ensures p > ChunkEnd(ds, j)
        {
        }
        ChunkFromSpec(ds, p, i + 1, cumulative + ds[i]);
        if Reaches(ds, p, i) {
          var j: nat :| i <= j < |ds| && p <= ChunkEnd(ds, j);
          assert j != i;
          assert Reaches(ds, p, i + 1);
        }
        if Reaches(ds, p, i + 1) {
          var j: nat :| i + 1 <= j < |ds| && p <= ChunkEnd(ds, j);
          assert Reaches(ds, p, i);
        }
      }
    }
  }

  /** The search picks the first chunk whose end reaches `p` and the time into
      it, which adds back up to `p`; if no chunk reaches `p` it falls back to
      chunk 0 with `positionInChunk` equal to `p`. */
  lemma FindChunkSpec(ds: seq<real>, p: real)
    ensures var (t, q) := FindChunk(ds, p);
      && (Reaches(ds, p, 0) ==>
            && 0 <= t < |ds| && p <= ChunkEnd(ds, t)
            && (forall j: nat :: j < t ==> p > ChunkEnd(ds, j))
            && q == p - PrefixSum(ds, t)
            && PrefixSum(ds, t) + q == p)
      && (!Reaches(ds, p, 0) ==> t == 0 && q == p)
  {
    ChunkFromSpec(ds, p, 0, 0.0);
  }

  /** A position on the known timeline lands in a known chunk, between its
      start and its end. */
  lemma FindChunkWithin(ds: seq<real>, p: real)
    requires |ds| > 0 && 0.0 <= p <= Sum(ds)
    ensures var (t, q) := FindChunk(ds, p);
      && 0 <= t < |ds|
      && 0.0 <= q <= ds[t]
  {
    assert p <= ChunkEnd(ds, |ds| - 1);
    assert Reaches(ds, p, 0);
    FindChunkSpec(ds, p);
    var (t, q) := FindChunk(ds, p);
    if t > 0 {
      assert p > ChunkEnd(ds, t - 1);
    }
  }

  lemma {:induction false} PrefixSumMonotone(ds: seq<real>, m: nat, n: nat)
    requires forall i :: 0 <= i < |ds| ==> ds[i] >= 0.0
    requires m <= n <= |ds|
    ensures PrefixSum(ds, m) <= PrefixSum(ds, n)
    decreases n
  {
    if m < n {
      PrefixSumMonotone(ds, m, n - 1);
    }
  }

  /** With no negative duration, the fallback to chunk 0 happens exactly for
      the positions past the sum of all known durations. */
  lemma FindChunkFallback(ds: seq<real>, p: real)
    requires forall i :: 0 <= i < |ds| ==> ds[i] >= 0.0
    requires |ds| > 0
    ensures p > Sum(ds) <==> !Reaches(ds, p, 0)
    ensures p > Sum(ds) ==> FindChunk(ds, p) == (0, p)
  {
    FindChunkSpec(ds, p);
    if p > Sum(ds) && Reaches(ds, p, 0) {
      var j: nat :| j < |ds| && p <= ChunkEnd(ds, j);
      PrefixSumMonotone(ds, j + 1, |ds|);
      assert false;
    }
    if p <= Sum(ds) {
      assert p <= ChunkEnd(ds, |ds| - 1);
    }
  }

  /** Durations 10, 15 and 7: time 20 is 10 seconds into the second chunk,
      and time 40 reaches no chunk and falls back to chunk 0. */
  lemma FindChunkExample()
    ensures FindChunk([10.0, 15.0, 7.0], 20.0) == (1, 10.0)
    ensures FindChunk([10.0, 15.0, 7.0], 40.0) == (0, 40.0)
  {
  }

  /** The durations as the streaming player's entries, every one known. */
  function Known(ds: seq<real>): (r: seq<Option<real>>)
    ensures |r| == |ds|
  {
    seq(|ds|, i requires 0 <= i < |ds| => Some(ds[i]))
  }

  lemma {:induction false} KnownPrefix(ds: seq<real>, n: nat)
    requires n <= |ds|
    ensures Prefix(Known(ds), n) == PrefixSum(ds, n)
  {
    if n > 0 {
      KnownPrefix(ds, n - 1);
    }
  }

  /** On a position some known chunk reaches, the two players' searches pick
      the same chunk and the same time into it. */
  lemma SameAsStreamingSeek(ds: seq<real>, p: real)
    requires Reaches(ds, p, 0)
    ensures FindChunk(ds, p) == Streaming.Locate(Known(ds), p)
  {
    FindChunkSpec(ds, p);
    Streaming.LocateSpec(Known(ds), p);
    var (t, q) := FindChunk(ds, p);
    var (k, r) := Streaming.Locate(Known(ds), p);
    KnownPrefix(ds, t);
    KnownPrefix(ds, t + 1);
    assert Streaming.SegmentEnd(Known(ds), t) == ChunkEnd(ds, t);
    if k < |ds| {
      KnownPrefix(ds, k + 1);
      assert Streaming.SegmentEnd(Known(ds), k) == ChunkEnd(ds, k);
    }
    if t < k {
      assert false;
    }
    if k < t {
      assert false;
    }
    KnownPrefix(ds, k);
  }

  /** The loop of the search, as each of the three handlers runs it. */
  method SearchChunk(ds: seq<real>, p: real) returns (targetChunk: int, positionInChunk: real)
    ensures (targetChunk, positionInChunk) == FindChunk(ds, p)
  {
    var cumulativeTime := 0.0;
    targetChunk := 0;
    positionInChunk := p;
    var i := 0;
    while i < |ds|
      invariant 0 <= i <= |ds|
      invariant targetChunk == 0 && positionInChunk == p
      invariant ChunkFrom(ds, i, cumulativeTime, p) == FindChunk(ds, p)
    {
      if cumulativeTime + ds[i] >= p {
        targetChunk := i;
        positionInChunk := p - cumulativeTime;
        break;
      }
      cumulativeTime := cumulativeTime + ds[i];
      i := i + 1;
    }
  }

  /** The durations a first pass over the chunks records as written, under
      an assumption about the audio hook that is not derived from `OnLoad`.
      The `onload` of chunk `k` stores the `duration` captured when its load
      effect ran, before the new sound had loaded, and the assumption is that
      the hook still reports chunk `k - 1`'s duration then, and 0 before any
      sound loaded. The shift to `[0] + actual[..n - 1]` is that assumption,
      written out. */
  function StaleDurations(actual: seq<real>): seq<real>
  {
    if actual == [] then [] else [0.0] + actual[..|actual| - 1]
  }

  /** As written, and under the assumption of `StaleDurations`, a first
      pass never sets the total, whatever the chunks' real durations: chunk 0
      is recorded with 0. The total stays at 0, so
      skipping forward from anywhere on the timeline seeks to time 0. */
  lemma StaleFirstPass(actual: seq<real>, overall: real)
    requires |actual| > 0 && overall >= 0.0
    ensures |StaleDurations(actual)| == |actual| && StaleDurations(actual)[0] == 0.0
    ensures CompleteTotal(StaleDurations(actual), |actual|).None?
    ensures Streaming.ForwardTarget(overall, 0.0) == 0.0
  {
    CompleteTotalMissing(StaleDurations(actual), |actual|, 0);
  }

  /** Corrected, with each chunk's own positive duration recorded, one pass
      sets the total to their sum, and skipping forward then moves 15
      seconds ahead wherever 15 seconds remain. */
  lemma OwnDurationsTotal(actual: seq<real>)
    requires |actual| > 0 && AllPositive(actual)
    ensures CompleteTotal(actual, |actual|) == Some(Sum(actual)) && Sum(actual) > 0.0
    ensures forall overall ::
      0.0 <= overall <= Sum(actual) - 15.0 ==> Streaming.ForwardTarget(overall, Sum(actual)) == overall + 15.0
  {
    CompleteTotalBounds(actual, |actual|);
  }

  // ---------------------------------------------------------------------
  // the component's state

  class ChunkedPlayer {
    /** `audioChunks.length`. */
    const chunkCount: nat
    var currentChunkIndex: nat
    var chunkDurations: seq<real>
    var totalDuration: real
    var position: real
    var overallPosition: real
    /** The last time handed to the sound library's `seek`. */
    var playhead: real
    /** Seeks waiting on their 200 ms timer, oldest first. */
    var pendingSeeks: seq<real>

    /** The current chunk is one of the article's chunks, at most one past
        the last chunk with a recorded duration. */
    ghost predicate Valid()
      reads this
    {
      && |chunkDurations| <= chunkCount
      && currentChunkIndex <= |chunkDurations|
      && (chunkCount > 0 ==> currentChunkIndex < chunkCount)
    }

    constructor (count: nat)
      ensures Valid()
      ensures chunkCount == count && currentChunkIndex == 0 && chunkDurations == []
      ensures totalDuration == 0.0 && position == 0.0 && overallPosition == 0.0
      ensures playhead == 0.0 && pendingSeeks == []
    {
      chunkCount := count;
      currentChunkIndex := 0;
      chunkDurations := [];
      totalDuration := 0.0;
      position := 0.0;
      overallPosition := 0.0;
      playhead := 0.0;
      pendingSeeks := [];
    }

    /** `onload` of the current chunk with a `duration`: the duration is
        recorded at the current index and the total is set when the rule
        allows it. In the source `duration` is the value captured when the
        load effect ran (see `StaleDurations`); the model takes it as an
        argument, the chunk's own duration in the corrected reading. */
    method OnLoad(duration: real)
      requires Valid() && currentChunkIndex < chunkCount
      modifies this
      ensures Valid()
      ensures chunkDurations == Record(old(chunkDurations), old(currentChunkIndex), duration)
      ensures CompleteTotal(chunkDurations, chunkCount).Some?
        ==> totalDuration == CompleteTotal(chunkDurations, chunkCount).value
      ensures CompleteTotal(chunkDurations, chunkCount).None? ==> totalDuration == old(totalDuration)
      ensures currentChunkIndex == old(currentChunkIndex) && pendingSeeks == old(pendingSeeks)
      ensures position == old(position) && overallPosition == old(overallPosition)
      ensures playhead == old(playhead)
    {
      var newDurations := Record(chunkDurations, currentChunkIndex, duration);
      chunkDurations := newDurations;
      var total := CompleteTotal(newDurations, chunkCount);
      if total.Some? {
        totalDuration := total.value;
      }
    }

    /** `onend`: move to the next chunk if there is one. */
    method OnEnd()
      requires Valid() && currentChunkIndex < |chunkDurations|
      modifies this
      ensures Valid()
      ensures currentChunkIndex == if old(currentChunkIndex) + 1 < chunkCount
        then old(currentChunkIndex) + 1 else old(currentChunkIndex)
      ensures chunkDurations == old(chunkDurations) && totalDuration == old(totalDuration)
      ensures position == old(position) && overallPosition == old(overallPosition)
      ensures playhead == old(playhead) && pendingSeeks == old(pendingSeeks)
    {
      if currentChunkIndex + 1 < chunkCount {
        currentChunkIndex := currentChunkIndex + 1;
      }
    }

    /** One 100 ms tick after the current chunk loaded, with the sound's
        position `currentPos` and `duration`: the overall position is the
        durations before the current chunk plus `currentPos`, and within
        0.1 s of the end the player moves to the next chunk if there is one. */
    method Tick(currentPos: real, duration: real)
      requires Valid() && currentChunkIndex < |chunkDurations|
      modifies this
      ensures Valid()
      ensures position == currentPos
      ensures overallPosition == PrefixSum(old(chunkDurations), old(currentChunkIndex)) + currentPos
      ensures currentChunkIndex == if currentPos >= duration - 0.1 && old(currentChunkIndex) + 1 < chunkCount
        then old(currentChunkIndex) + 1 else old(currentChunkIndex)
      ensures chunkDurations == old(chunkDurations) && totalDuration == old(totalDuration)
      ensures playhead == old(playhead) && pendingSeeks == old(pendingSeeks)
    {
      position := currentPos;
      overallPosition := PrefixSum(chunkDurations, currentChunkIndex) + currentPos;
      if currentPos >= duration - 0.1 && currentChunkIndex + 1 < chunkCount {
        currentChunkIndex := currentChunkIndex + 1;
      }
    }

    /** The tail shared by `handleSeek`, `skipForward` and `skipBackward`:
        switch to the target chunk and defer the seek if it is another chunk,
        else seek at once. Once any deferred seek has run, the overall
        position formula gives back `p` (on a chunk the search found). */
    method SeekTo(p: real)
      requires Valid()
      modifies this
      ensures Valid()
      ensures currentChunkIndex == FindChunk(chunkDurations, p).0
      ensures old(currentChunkIndex) != currentChunkIndex
        ==> (pendingSeeks == old(pendingSeeks) + [FindChunk(chunkDurations, p).1]
             && playhead == old(playhead))
      ensures old(currentChunkIndex) == currentChunkIndex
        ==> (playhead == FindChunk(chunkDurations, p).1 && pendingSeeks == old(pendingSeeks))
      ensures PrefixSum(chunkDurations, currentChunkIndex) + FindChunk(chunkDurations, p).1 == p
      ensures chunkDurations == old(chunkDurations) && totalDuration == old(totalDuration)
      ensures position == old(position) && overallPosition == old(overallPosition)
    {
      FindChunkSpec(chunkDurations, p);
      var targetChunk, positionInChunk := SearchChunk(chunkDurations, p);
      if targetChunk != currentChunkIndex {
        currentChunkIndex := targetChunk;
        pendingSeeks := pendingSeeks + [positionInChunk];
      } else {
        playhead := positionInChunk;
      }
    }

    /** The oldest deferred seek's timer fires and seeks the loaded chunk. */
    method FirePendingSeek()
      requires Valid() && |pendingSeeks| > 0
      modifies this
      ensures Valid()
      ensures playhead == old(pendingSeeks)[0] && pendingSeeks == old(pendingSeeks)[1..]
      ensures currentChunkIndex == old(currentChunkIndex) && chunkDurations == old(chunkDurations)
      ensures totalDuration == old(totalDuration)
      ensures position == old(position) && overallPosition == old(overallPosition)
    {
      playhead := pendingSeeks[0];
      pendingSeeks := pendingSeeks[1..];
    }

    /** `handleSeek` with the slider's value: everything `SeekTo` promises. */
    method HandleSeek(value: real)
      requires Valid()
      modifies this
      ensures Valid()
      ensures currentChunkIndex == FindChunk(chunkDurations, value).0
      ensures old(currentChunkIndex) != currentChunkIndex
        ==> (pendingSeeks == old(pendingSeeks) + [FindChunk(chunkDurations, value).1]
             && playhead == old(playhead))
      ensures old(currentChunkIndex) == currentChunkIndex
        ==> (playhead == FindChunk(chunkDurations, value).1 && pendingSeeks == old(pendingSeeks))
      ensures PrefixSum(chunkDurations, currentChunkIndex) + FindChunk(chunkDurations, value).1
        == value
      ensures chunkDurations == old(chunkDurations) && totalDuration == old(totalDuration)
      ensures position == old(position) && overallPosition == old(overallPosition)
    {
      SeekTo(value);
    }

    /** `skipForward`: 15 seconds ahead of the overall position, at most to
        the total; everything `SeekTo` promises holds for that target. */
    method SkipForward()
      requires Valid()
      modifies this
      ensures Valid()
      ensures currentChunkIndex == FindChunk(chunkDurations, Streaming.ForwardTarget(old(overallPosition), old(totalDuration))).0
      ensures old(currentChunkIndex) != currentChunkIndex
        ==> (pendingSeeks == old(pendingSeeks) + [FindChunk(chunkDurations, Streaming.ForwardTarget(old(overallPosition), old(totalDuration))).1]
             && playhead == old(playhead))
      ensures old(currentChunkIndex) == currentChunkIndex
        ==> (playhead == FindChunk(chunkDurations, Streaming.ForwardTarget(old(overallPosition), old(totalDuration))).1 && pendingSeeks == old(pendingSeeks))
      ensures PrefixSum(chunkDurations, currentChunkIndex) + FindChunk(chunkDurations, Streaming.ForwardTarget(old(overallPosition), old(totalDuration))).1
        == Streaming.ForwardTarget(old(overallPosition), old(totalDuration))
      ensures chunkDurations == old(chunkDurations) && totalDuration == old(totalDuration)
      ensures position == old(position) && overallPosition == old(overallPosition)
    {
      SeekTo(Streaming.ForwardTarget(overallPosition, totalDuration));
    }

    /** `skipBackward`: 15 seconds before the overall position, at least 0;
        everything `SeekTo` promises holds for that target. */
    method SkipBackward()
      requires Valid()
      modifies this
      ensures Valid()
      ensures currentChunkIndex == FindChunk(chunkDurations, Streaming.BackwardTarget(old(overallPosition))).0
      ensures old(currentChunkIndex) != currentChunkIndex
        ==> (pendingSeeks == old(pendingSeeks) + [FindChunk(chunkDurations, Streaming.BackwardTarget(old(overallPosition))).1]
             && playhead == old(playhead))
      ensures old(currentChunkIndex) == currentChunkIndex
        ==> (playhead == FindChunk(chunkDurations, Streaming.BackwardTarget(old(overallPosition))).1 && pendingSeeks == old(pendingSeeks))
      ensures PrefixSum(chunkDurations, currentChunkIndex) + FindChunk(chunkDurations, Streaming.BackwardTarget(old(overallPosition))).1
        == Streaming.BackwardTarget(old(overallPosition))
      ensures chunkDurations == old(chunkDurations) && totalDuration == old(totalDuration)
      ensures position == old(position) && overallPosition == old(overallPosition)
    {
      SeekTo(Streaming.BackwardTarget(overallPosition));
    }
  }
}
