/** The size-bounded splitter of the generation code (`splitTextIntoChunks`
    in server/generate_audio.ts): text is cut into contiguous slices of at
    most `chunkSize` characters, preferring a cut just after the last ". "
    in the 200 characters before the limit, then at the last space, then a
    hard cut at the limit. */
module Splitter {
  import opened Base

  /** How far back from the limit a sentence end is looked for. */
  const SearchWindow: nat := 200

  /** A ". " starts at index `k` of `s`. */
  predicate SentenceEndAt(s: string, k: int)
  {
    0 <= k && k + 1 < |s| && s[k] == '.' && s[k + 1] == ' '
  }

  /** `s.lastIndexOf(". ")`: the start of the last ". " in `s`, or -1. */
  function LastSentenceEnd(s: string): (j: int)
    ensures j == -1 || SentenceEndAt(s, j)
    ensures forall k :: j < k ==> !SentenceEndAt(s, k)
  {
    if |s| < 2 then -1
    else if s[|s| - 2] == '.' && s[|s| - 1] == ' ' then |s| - 2
    else
      assert forall k :: k + 2 < |s| && SentenceEndAt(s, k) ==> SentenceEndAt(s[..|s| - 1], k);
      LastSentenceEnd(s[..|s| - 1])
  }

  /** `s.lastIndexOf(' ', from)` for `from >= 0`: the last space at an index
      at most `from`, or -1. */
  function LastSpaceAtOrBefore(s: string, from: int): (j: int)
    ensures j == -1 || (0 <= j <= from && j < |s| && s[j] == ' ')
    ensures forall k :: j < k <= from && k < |s| ==> s[k] != ' '
    decreases from + 1
  {
    if from < 0 then -1
    else if from >= |s| then LastSpaceAtOrBefore(s, |s| - 1)
    else if s[from] == ' ' then from
    else LastSpaceAtOrBefore(s, from - 1)
  }

  /** `text.slice(a, b)` for `0 <= a <= b`: the end is clamped to the length. */
  function Slice(text: string, a: nat, b: nat): string
    requires a <= b
  {
    if a >= |text| then [] else text[a..Min(b, |text|)]
  }

  /** Where the chunk that starts at `cur` ends (`endIndex` after the
      boundary search). It may lie past the end of the text. */
  function CutIndex(text: string, cur: nat, chunkSize: nat): (e: nat)
    requires chunkSize >= 1
    ensures cur < e <= cur + chunkSize
  {
    var limit := cur + chunkSize;
    if limit < |text| then
      var searchStart := Max(cur, limit - SearchWindow);
      var j := LastSentenceEnd(text[searchStart..limit]);
      if j != -1 then searchStart + j + 2
      else
        var w := LastSpaceAtOrBefore(text, limit);
        if w > cur then w else limit
    else limit
  }

  /** The chunks from position `cur` on. */
  function ChunksFrom(text: string, cur: nat, chunkSize: nat): seq<string>
    requires chunkSize >= 1
    decreases |text| - cur
  {
    if cur >= |text| then []
    else
      var e := CutIndex(text, cur, chunkSize);
      [Slice(text, cur, e)] + ChunksFrom(text, e, chunkSize)
  }

  function Chunks(text: string, chunkSize: nat): seq<string>
    requires chunkSize >= 1
  {
    ChunksFrom(text, 0, chunkSize)
  }

  /** The boundary search of one iteration of the loop below: where the chunk
      that starts at `currentIndex` ends. */
  method FindChunkEnd(text: string, currentIndex: nat, chunkSize: nat) returns (endIndex: nat)
    requires chunkSize >= 1
    ensures endIndex == CutIndex(text, currentIndex, chunkSize)
  {
    endIndex := currentIndex + chunkSize;
    if endIndex < |text| {
      var searchStart := Max(currentIndex, endIndex - SearchWindow);
      var searchText := text[searchStart..endIndex];
      var sentenceEnd := LastSentenceEnd(searchText);
      if sentenceEnd != -1 {
        endIndex := searchStart + sentenceEnd + 2;
      } else {
        var wordEnd := LastSpaceAtOrBefore(text, endIndex);
        if wordEnd > currentIndex {
          endIndex := wordEnd;
        }
      }
    }
  }

  /** `splitTextIntoChunks(text, chunkSize)`. With `chunkSize == 0` the
      source's loop never advances, so the size must be positive. */
  method SplitTextIntoChunks(text: string, chunkSize: nat) returns (chunks: seq<string>)
    requires chunkSize >= 1
    ensures chunks == Chunks(text, chunkSize)
  {
    chunks := [];
    var currentIndex: nat := 0;
    while currentIndex < |text|
      invariant chunks + ChunksFrom(text, currentIndex, chunkSize) == Chunks(text, chunkSize)
      decreases |text| - currentIndex
    {
      var endIndex := FindChunkEnd(text, currentIndex, chunkSize);
      var piece := Slice(text, currentIndex, endIndex);
      ghost var rest := ChunksFrom(text, endIndex, chunkSize);
      assert ChunksFrom(text, currentIndex, chunkSize) == [piece] + rest;
      AppendAssoc(chunks, piece, rest);
      chunks := chunks + [piece];
      currentIndex := endIndex;
    }
  }

  /** One cut: the slice up to `e` followed by pieces that join to the rest. */
  lemma CutJoin(text: string, cur: nat, e: nat, rest: seq<string>)
    requires cur < e && cur < |text|
    requires if e < |text| then Flatten(rest) == text[e..] else rest == []
    ensures Flatten([Slice(text, cur, e)] + rest) == text[cur..]
  {
    var parts := [Slice(text, cur, e)] + rest;
    assert parts[1..] == rest;
    assert Flatten(parts) == Slice(text, cur, e) + Flatten(rest);
    if e < |text| {
      assert text[cur..] == text[cur..e] + text[e..];
    } else {
      assert Slice(text, cur, e) == text[cur..];
    }
  }

  /** The chunks run contiguously: joined, they give back the text exactly. */
  lemma {:induction false} ChunksFromConcat(text: string, cur: nat, chunkSize: nat)
    requires chunkSize >= 1 && cur <= |text|
    ensures Flatten(ChunksFrom(text, cur, chunkSize)) == text[cur..]
    decreases |text| - cur
  {
    if cur < |text| {
      var e := CutIndex(text, cur, chunkSize);
      var rest := ChunksFrom(text, e, chunkSize);
      if e < |text| {
        ChunksFromConcat(text, e, chunkSize);
      }
      CutJoin(text, cur, e, rest);
    }
  }

  lemma ChunksConcat(text: string, chunkSize: nat)
    requires chunkSize >= 1
    ensures Flatten(Chunks(text, chunkSize)) == text
  {
    ChunksFromConcat(text, 0, chunkSize);
  }

  /** Every chunk is non-empty and at most `chunkSize` characters long. */
  lemma {:induction false} ChunksFromBounded(text: string, cur: nat, chunkSize: nat)
    requires chunkSize >= 1
    ensures forall c :: c in ChunksFrom(text, cur, chunkSize) ==> 0 < |c| <= chunkSize
    decreases |text| - cur
  {
    if cur < |text| {
      var e := CutIndex(text, cur, chunkSize);
      ChunksFromBounded(text, e, chunkSize);
    }
  }

  lemma ChunksBounded(text: string, chunkSize: nat)
    requires chunkSize >= 1
    ensures forall c :: c in Chunks(text, chunkSize) ==> 0 < |c| <= chunkSize
  {
    ChunksFromBounded(text, 0, chunkSize);
  }

  /** Text that fits in one chunk is one chunk; empty text is no chunk. */
  lemma ShortText(text: string, chunkSize: nat)
    requires chunkSize >= 1 && |text| <= chunkSize
    ensures Chunks(text, chunkSize) == if text == [] then [] else [text]
  {
    if text != [] {
      var e := CutIndex(text, 0, chunkSize);
      assert ChunksFrom(text, e, chunkSize) == [];
      assert text[0..|text|] == text;
    }
  }

  /** A ". " in the piece `text[a..b]` is one in `text`, shifted by `a`. */
  lemma WindowPairs(text: string, a: nat, b: nat, j: int)
    requires a <= b <= |text| && -1 <= j
    requires forall q :: j < q ==> !SentenceEndAt(text[a..b], q)
    ensures forall m :: a + j < m && m + 2 <= b ==> !SentenceEndAt(text, m)
  {
    forall m | a + j < m && m + 2 <= b
      ensures !SentenceEndAt(text, m)
    {
      SliceIndex(text, a, b, m);
      SliceIndex(text, a, b, m + 1);
      assert !SentenceEndAt(text[a..b], m - a);
    }
  }

  lemma SliceSentenceEnd(text: string, a: nat, b: nat, q: int)
    requires a <= b <= |text| && SentenceEndAt(text[a..b], q)
    ensures SentenceEndAt(text, a + q) && a + q + 2 <= b
  {
    SliceIndex(text, a, b, a + q);
    SliceIndex(text, a, b, a + q + 1);
  }

  /** When the window before the limit holds a ". ", the chunk ends just after
      its last occurrence there, so the chunk ends with ". ". */
  lemma SentenceCut(text: string, cur: nat, chunkSize: nat, k: nat)
    requires chunkSize >= 1 && cur + chunkSize < |text|
    requires Max(cur, cur + chunkSize - SearchWindow) <= k && k + 2 <= cur + chunkSize
    requires SentenceEndAt(text, k)
    ensures var e := CutIndex(text, cur, chunkSize);
      && k + 2 <= e <= cur + chunkSize
      && text[e - 2] == '.' && text[e - 1] == ' '
      && forall m :: e - 2 < m && m + 2 <= cur + chunkSize ==> !SentenceEndAt(text, m)
  {
    var limit := cur + chunkSize;
    var searchStart := Max(cur, limit - SearchWindow);
    var window := text[searchStart..limit];
    SliceIndex(text, searchStart, limit, k);
    SliceIndex(text, searchStart, limit, k + 1);
    assert SentenceEndAt(window, k - searchStart);
    var j := LastSentenceEnd(window);
    SliceSentenceEnd(text, searchStart, limit, j);
    WindowPairs(text, searchStart, limit, j);
  }

  /** With no ". " in the window, the chunk ends at the last space at or before
      the limit when that space lies after the chunk's start (the space then
      begins the next chunk); otherwise the cut is hard at the limit. A space
      in `(cur, limit]` forces the cut onto a space, so onto the last one, and
      without one the cut is the limit. */
  lemma WordCut(text: string, cur: nat, chunkSize: nat)
    requires chunkSize >= 1 && cur + chunkSize < |text|
    requires forall k :: Max(cur, cur + chunkSize - SearchWindow) <= k && k + 2 <= cur + chunkSize
               ==> !SentenceEndAt(text, k)
    ensures var e := CutIndex(text, cur, chunkSize);
      && (e < cur + chunkSize ==> text[e] == ' ')
      && (forall m :: e < m <= cur + chunkSize ==> text[m] != ' ')
      && (e == cur + chunkSize || text[e] == ' ')
      && (forall m :: cur < m <= cur + chunkSize && text[m] == ' ' ==> m <= e)
    ensures var e := CutIndex(text, cur, chunkSize);
      && ((exists m :: cur < m <= cur + chunkSize && text[m] == ' ') ==> cur < e && text[e] == ' ')
      && ((forall m :: cur < m <= cur + chunkSize ==> text[m] != ' ') ==> e == cur + chunkSize)
  {
    var limit := cur + chunkSize;
    var searchStart := Max(cur, limit - SearchWindow);
    var window := text[searchStart..limit];
    var j := LastSentenceEnd(window);
    if j != -1 {
      SliceSentenceEnd(text, searchStart, limit, j);
      assert false;
    }
    var w := LastSpaceAtOrBefore(text, limit);
    var e := if w > cur then w else limit;
    assert CutIndex(text, cur, chunkSize) == e;
    assert e < limit ==> text[e] == ' ';
    if exists m :: cur < m <= limit && text[m] == ' ' {
      var m :| cur < m <= limit && text[m] == ' ';
      assert m <= w;
    }
  }

  /** `"a bcdef"` with a limit of 5 has no ". " before the limit and one
      space after the start, so the first chunk is `"a"` and the second
      starts at that space. */
  lemma WordCutExample()
    ensures CutIndex("a bcdef", 0, 5) == 1
    ensures Chunks("a bcdef", 5)[0] == "a"
  {
    var text := "a bcdef";
    assert LastSentenceEnd(text[0..5]) == -1;
    assert LastSpaceAtOrBefore(text, 5) == 1;
    assert Slice(text, 0, 1) == "a";
  }
}
