/** The document pipeline of processing.js: the audio path derived from the
    source URL, the sentence-packing splitter (`splitTextIntoChunks`, which
    tokenises with the regular expression `[^.!?]+[.!?]*` and greedily packs
    sentences into chunks of at most `maxSize` characters, then trims each
    chunk), and `generateAndWriteFile`, which streams one audio file for the
    whole document and drives the row's status and progress columns. */
module Processing {
  import opened Base
  import opened Storage
  import Generation

  /** `AUDIO_DIR`. */
  const AudioDir: string := "./audio"

  /** The default of `splitTextIntoChunks`' `maxSize`, the only one used. */
  const DefaultMaxSize: nat := 2500

  // ---------------------------------------------------------------------
  // The audio path of a document

  /** `${AUDIO_DIR}/${sha256(sourceUrl)}.mp3`: a function of the URL alone. */
  function ContentUrl(sha256: string -> string, sourceUrl: string): string
  {
    Generation.AudioPath(AudioDir, sha256(sourceUrl))
  }

  /** The path lies in the audio directory, names the URL's digest and ends in `.mp3`. */
  lemma ContentUrlShape(sha256: string -> string, sourceUrl: string)
    ensures var p := ContentUrl(sha256, sourceUrl);
      && p[..|AudioDir| + 1] == "./audio/"
      && p[|p| - 4..] == ".mp3"
      && p[|AudioDir| + 1..|p| - 4] == sha256(sourceUrl)
  {
    Generation.AudioPathShape(AudioDir, sha256(sourceUrl));
  }

  /** Two URLs share an audio file exactly when their digests agree. */
  lemma ContentUrlSameIffSameDigest(sha256: string -> string, url1: string, url2: string)
    ensures ContentUrl(sha256, url1) == ContentUrl(sha256, url2) <==> sha256(url1) == sha256(url2)
  {
    if ContentUrl(sha256, url1) == ContentUrl(sha256, url2) {
      Generation.AudioPathInjective(AudioDir, sha256(url1), sha256(url2));
    }
  }

  // ---------------------------------------------------------------------
  // Sentence tokens: the global matches of [^.!?]+[.!?]*

  predicate IsTerminator(c: char) { c == '.' || c == '!' || c == '?' }

  /** The end of the run of non-terminators that starts at `p`. */
  function NonTermEnd(s: string, p: nat): (e: nat)
    requires p <= |s|
    ensures p <= e <= |s|
    ensures forall k :: p <= k < e ==> !IsTerminator(s[k])
    ensures e < |s| ==> IsTerminator(s[e])
    decreases |s| - p
  {
    if p == |s| || IsTerminator(s[p]) then p else NonTermEnd(s, p + 1)
  }

  /** The end of the run of terminators that starts at `p`. */
  function TermEnd(s: string, p: nat): (e: nat)
    requires p <= |s|
    ensures p <= e <= |s|
    ensures forall k :: p <= k < e ==> IsTerminator(s[k])
    ensures e < |s| ==> !IsTerminator(s[e])
    decreases |s| - p
  {
    if p == |s| || !IsTerminator(s[p]) then p else TermEnd(s, p + 1)
  }

  /** The matches found by scanning from `p`: a terminator cannot start a
      match and is skipped; a non-terminator starts a match that takes the
      whole run of non-terminators and then the whole run of terminators. */
  function TokensFrom(s: string, p: nat): seq<string>
    requires p <= |s|
    decreases |s| - p
  {
    if p == |s| then []
    else if IsTerminator(s[p]) then TokensFrom(s, p + 1)
    else
      var e := TermEnd(s, NonTermEnd(s, p));
      [s[p..e]] + TokensFrom(s, e)
  }

  function Tokens(s: string): seq<string>
  {
    TokensFrom(s, 0)
  }

  /** `text.match(/[^.!?]+[.!?]*\/g) || [text]`. */
  function SentencesOf(text: string): seq<string>
  {
    if Tokens(text) == [] then [text] else Tokens(text)
  }

  /** The shape of one match: it starts with a non-terminator, and after its
      first terminator only terminators follow. */
  predicate IsSentence(t: string)
  {
    && |t| > 0
    && !IsTerminator(t[0])
    && forall a, b :: 0 <= a < b < |t| && IsTerminator(t[a]) ==> IsTerminator(t[b])
  }

  predicate EndsWithTerminator(t: string)
  {
    |t| > 0 && IsTerminator(t[|t| - 1])
  }

  /** The scan skips a terminator without changing where the text read from it begins. */
  lemma TermEndStep(s: string, p: nat)
    requires p < |s| && IsTerminator(s[p])
    ensures TermEnd(s, p) == TermEnd(s, p + 1)
  {
  }

  /** Joined, the matches from `p` give the text from `p` with any leading
      terminators removed. */
  lemma {:induction false} TokensFromConcat(s: string, p: nat)
    requires p <= |s|
    ensures Flatten(TokensFrom(s, p)) == s[TermEnd(s, p)..]
    decreases |s| - p
  {
    if p < |s| {
      if IsTerminator(s[p]) {
        TokensFromConcat(s, p + 1);
        TermEndStep(s, p);
      } else {
        var e := TermEnd(s, NonTermEnd(s, p));
        var rest := TokensFrom(s, e);
        assert TokensFrom(s, p) == [s[p..e]] + rest;
        assert ([s[p..e]] + rest)[1..] == rest;
        TokensFromConcat(s, e);
        assert s[p..] == s[p..e] + s[e..];
      }
    }
  }

  lemma TokensConcat(s: string)
    ensures Flatten(Tokens(s)) == s[TermEnd(s, 0)..]
  {
    TokensFromConcat(s, 0);
  }

  /** The match that starts at a non-terminator has the sentence shape. */
  lemma MatchIsSentence(s: string, p: nat)
    requires p < |s| && !IsTerminator(s[p])
    ensures IsSentence(s[p..TermEnd(s, NonTermEnd(s, p))])
  {
    var j := NonTermEnd(s, p);
    var e := TermEnd(s, j);
    var t := s[p..e];
    forall a, b | 0 <= a < b < |t| && IsTerminator(t[a])
      ensures IsTerminator(t[b])
    {
      assert t[a] == s[p + a] && t[b] == s[p + b];
    }
  }

  /** Every match has the sentence shape, and every match but the last ends
      with a terminator (its terminator run was taken whole and the next
      match starts with a non-terminator). */
  lemma {:induction false} TokensFromShape(s: string, p: nat)
    requires p <= |s|
    ensures forall k :: 0 <= k < |TokensFrom(s, p)| ==> IsSentence(TokensFrom(s, p)[k])
    ensures forall k :: 0 <= k < |TokensFrom(s, p)| - 1 ==> EndsWithTerminator(TokensFrom(s, p)[k])
    decreases |s| - p
  {
    if p < |s| {
      if IsTerminator(s[p]) {
        assert TokensFrom(s, p) == TokensFrom(s, p + 1);
        TokensFromShape(s, p + 1);
      } else {
        var j := NonTermEnd(s, p);
        var e := TermEnd(s, j);
        var rest := TokensFrom(s, e);
        var ts := TokensFrom(s, p);
        assert ts == [s[p..e]] + rest;
        TokensFromShape(s, e);
        MatchIsSentence(s, p);
        if rest != [] {
          assert e < |s|;
          assert j < |s|;
          assert IsTerminator(s[e - 1]);
          assert ts[0][|ts[0]| - 1] == s[e - 1];
          assert EndsWithTerminator(ts[0]);
        }
        forall k | 1 <= k < |ts|
          ensures IsSentence(ts[k])
          ensures k < |ts| - 1 ==> EndsWithTerminator(ts[k])
        {
          assert ts[k] == rest[k - 1];
        }
      }
    }
  }

  lemma TokensShape(s: string)
    ensures forall k :: 0 <= k < |Tokens(s)| ==> IsSentence(Tokens(s)[k])
    ensures forall k :: 0 <= k < |Tokens(s)| - 1 ==> EndsWithTerminator(Tokens(s)[k])
  {
    assert Tokens(s) == TokensFrom(s, 0);
    TokensFromShape(s, 0);
  }

  /** There is no match exactly when the text is made of terminators only
      (the empty text included); the fallback list is then `[text]`. */
  lemma {:induction false} TokensFromEmpty(s: string, p: nat)
    requires p <= |s|
    ensures TokensFrom(s, p) == [] <==> forall k :: p <= k < |s| ==> IsTerminator(s[k])
    decreases |s| - p
  {
    if p < |s| && IsTerminator(s[p]) {
      TokensFromEmpty(s, p + 1);
    }
  }

  lemma NoMatchFallback(text: string)
    ensures (forall k :: 0 <= k < |text| ==> IsTerminator(text[k])) ==> SentencesOf(text) == [text]
    ensures (exists k :: 0 <= k < |text| && !IsTerminator(text[k])) ==> SentencesOf(text) == Tokens(text)
  {
    TokensFromEmpty(text, 0);
  }

  // ---------------------------------------------------------------------
  // String.prototype.trim

  /** The characters `trim()` removes: the ECMAScript white space and line
      terminators (tab to carriage return, space, no-break space, the Unicode
      space separators, the line and paragraph separators and the byte order mark). */
  const JsSpaces: set<char> := {
    '\U{9}', '\U{A}', '\U{B}', '\U{C}', '\U{D}', ' ', '\U{A0}', '\U{1680}',
    '\U{2000}', '\U{2001}', '\U{2002}', '\U{2003}', '\U{2004}', '\U{2005}',
    '\U{2006}', '\U{2007}', '\U{2008}', '\U{2009}', '\U{200A}',
    '\U{2028}', '\U{2029}', '\U{202F}', '\U{205F}', '\U{3000}', '\U{FEFF}' }

  predicate IsJsSpace(c: char)
  {
    c in JsSpaces
  }

  /** The index of the first character at or after `i` that is not white space. */
  function SpanStart(s: string, i: nat): (n: nat)
    requires i <= |s|
    ensures i <= n <= |s|
    ensures forall k :: i <= k < n ==> IsJsSpace(s[k])
    ensures n == |s| || !IsJsSpace(s[n])
    decreases |s| - i
  {
    if i < |s| && IsJsSpace(s[i]) then SpanStart(s, i + 1) else i
  }

  /** The index just after the last character before `j` that is not white space. */
  function SpanEnd(s: string, j: nat): (n: nat)
    requires j <= |s|
    ensures n <= j
    ensures forall k :: n <= k < j ==> IsJsSpace(s[k])
    ensures n == 0 || !IsJsSpace(s[n - 1])
  {
    if j > 0 && IsJsSpace(s[j - 1]) then SpanEnd(s, j - 1) else j
  }

  /** `s` without its leading white space. */
  function TrimStart(s: string): string
  {
    s[SpanStart(s, 0)..]
  }

  /** `s` without its trailing white space. */
  function TrimEnd(s: string): string
  {
    s[..SpanEnd(s, |s|)]
  }

  function Trim(s: string): string
  {
    TrimEnd(TrimStart(s))
  }

  /** A trimmed string neither starts nor ends with white space. */
  lemma TrimEdges(s: string)
    ensures var r := Trim(s);
      r == [] || (!IsJsSpace(r[0]) && !IsJsSpace(r[|r| - 1]))
  {
    var i := SpanStart(s, 0);
    var a := s[i..];
    var n := SpanEnd(a, |a|);
    if n > 0 {
      assert a[..n][0] == s[i];
      assert a[..n][n - 1] == a[n - 1];
    }
  }

  /** A trimmed string is the contiguous piece of the original that lies
      between its leading and its trailing white space. */
  lemma TrimShape(s: string)
    ensures var start := |s| - |TrimStart(s)|;
      && start <= |s|
      && Trim(s) == s[start..start + |Trim(s)|]
      && (forall k :: 0 <= k < start ==> IsJsSpace(s[k]))
      && (forall k :: start + |Trim(s)| <= k < |s| ==> IsJsSpace(s[k]))
  {
    var i := SpanStart(s, 0);
    var a := s[i..];
    var n := SpanEnd(a, |a|);
    SuffixPrefix(s, i, n);
    forall k | i + n <= k < |s|
      ensures IsJsSpace(s[k])
    {
      assert a[k - i] == s[k];
    }
  }

  lemma TrimStartOfNonSpace(s: string)
    requires s == [] || !IsJsSpace(s[0])
    ensures TrimStart(s) == s
  {
    assert s[0..] == s;
  }

  lemma TrimEndOfNonSpace(s: string)
    requires s == [] || !IsJsSpace(s[|s| - 1])
    ensures TrimEnd(s) == s
  {
    assert s[..|s|] == s;
  }

  /** Trimming twice is trimming once. */
  lemma TrimIdempotent(s: string)
    ensures Trim(Trim(s)) == Trim(s)
  {
    var r := Trim(s);
    TrimEdges(s);
    TrimEndOfNonSpace(r);
    TrimStartOfNonSpace(r);
  }

  /** `raw.map(trim)`. */
  function TrimAll(raw: seq<string>): (r: seq<string>)
    ensures |r| == |raw|
  {
    seq(|raw|, k requires 0 <= k < |raw| => Trim(raw[k]))
  }

  lemma TrimAllAppend(raw: seq<string>, c: string)
    ensures TrimAll(raw + [c]) == TrimAll(raw) + [Trim(c)]
  {
    var lhs := TrimAll(raw + [c]);
    var rhs := TrimAll(raw) + [Trim(c)];
    forall k | 0 <= k < |lhs|
      ensures lhs[k] == rhs[k]
    {
      if k < |raw| {
        assert (raw + [c])[k] == raw[k];
      }
    }
  }

  // ---------------------------------------------------------------------
  // Greedy packing

  /** The chunks, before trimming, that packing `sents` produces when the
      chunk being built holds `cur`: a sentence joins it if the sum of the
      lengths is at most `maxSize`, and otherwise the chunk is pushed (even
      when empty) and the sentence starts the next one; the last chunk is
      pushed only when non-empty. */
  function Pack(sents: seq<string>, cur: string, maxSize: nat): seq<string>
    decreases |sents|
  {
    if sents == [] then (if |cur| > 0 then [cur] else [])
    else if |cur| + |sents[0]| <= maxSize then Pack(sents[1..], cur + sents[0], maxSize)
    else [cur] + Pack(sents[1..], sents[0], maxSize)
  }

  /** What `splitTextIntoChunks(text, maxSize)` returns. */
  function Chunks(text: string, maxSize: nat): seq<string>
  {
    TrimAll(Pack(SentencesOf(text), "", maxSize))
  }

  /** One sentence of the loop below, stated on `Pack`. */
  lemma PackStep(sents: seq<string>, i: nat, cur: string, maxSize: nat)
    requires i < |sents|
    ensures Pack(sents[i..], cur, maxSize)
         == if |cur| + |sents[i]| <= maxSize then Pack(sents[i + 1..], cur + sents[i], maxSize)
            else [cur] + Pack(sents[i + 1..], sents[i], maxSize)
  {
    assert sents[i..][1..] == sents[i + 1..];
  }

  /** `splitTextIntoChunks(text, maxSize)`. */
  method SplitTextIntoChunks(text: string, maxSize: nat) returns (chunks: seq<string>)
    ensures chunks == Chunks(text, maxSize)
  {
    var sentences := SentencesOf(text);
    chunks := [];
    var currentChunk := "";
    ghost var raw: seq<string> := [];
    for i := 0 to |sentences|
      invariant raw + Pack(sentences[i..], currentChunk, maxSize) == Pack(sentences, "", maxSize)
      invariant chunks == TrimAll(raw)
    {
      var sentence := sentences[i];
      PackStep(sentences, i, currentChunk, maxSize);
      if |currentChunk| + |sentence| <= maxSize {
        currentChunk := currentChunk + sentence;
      } else {
        TrimAllAppend(raw, currentChunk);
        AppendAssoc(raw, currentChunk, Pack(sentences[i + 1..], sentence, maxSize));
        chunks := chunks + [Trim(currentChunk)];
        raw := raw + [currentChunk];
        currentChunk := sentence;
      }
    }
    if |currentChunk| > 0 {
      TrimAllAppend(raw, currentChunk);
      chunks := chunks + [Trim(currentChunk)];
      raw := raw + [currentChunk];
    }
    assert raw == Pack(sentences, "", maxSize);
  }

  /** Packing keeps the text and its order: the untrimmed chunks, joined,
      are the chunk being built followed by the sentences. */
  lemma {:induction false} PackConcat(sents: seq<string>, cur: string, maxSize: nat)
    ensures Flatten(Pack(sents, cur, maxSize)) == cur + Flatten(sents)
    decreases |sents|
  {
    if sents == [] {
      if |cur| > 0 {
        FlattenSingle(cur);
      }
    } else {
      var s := sents[0];
      assert Flatten(sents) == s + Flatten(sents[1..]);
      PackConcat(sents[1..], if |cur| + |s| <= maxSize then cur + s else s, maxSize);
      if |cur| + |s| > maxSize {
        var rest := Pack(sents[1..], s, maxSize);
        assert ([cur] + rest)[1..] == rest;
      }
    }
  }

  /** The untrimmed chunks of a text, joined, give back the text without its
      leading terminators (or the whole text when there was no match). */
  lemma RawChunksConcat(text: string, maxSize: nat)
    ensures Flatten(Pack(SentencesOf(text), "", maxSize))
         == if Tokens(text) == [] then text else text[TermEnd(text, 0)..]
  {
    PackConcat(SentencesOf(text), "", maxSize);
    if Tokens(text) == [] {
      FlattenSingle(text);
    } else {
      TokensConcat(text);
    }
  }

  /** A chunk longer than `maxSize` was never added to: it is the chunk being
      built at the start or a single sentence. */
  lemma {:induction false} PackLong(sents: seq<string>, cur: string, maxSize: nat)
    ensures forall c :: c in Pack(sents, cur, maxSize) ==> |c| <= maxSize || c == cur || c in sents
    decreases |sents|
  {
    if sents != [] {
      var s := sents[0];
      if |cur| + |s| <= maxSize {
        PackLong(sents[1..], cur + s, maxSize);
      } else {
        PackLong(sents[1..], s, maxSize);
      }
      forall c | c in sents[1..]
        ensures c in sents
      {
      }
    }
  }

  /** A chunk of a text longer than `maxSize` before trimming is one of its
      sentences, emitted unsplit. */
  lemma LongChunkIsOneSentence(text: string, maxSize: nat)
    ensures forall c :: c in Pack(SentencesOf(text), "", maxSize) && |c| > maxSize ==> c in SentencesOf(text)
  {
    PackLong(SentencesOf(text), "", maxSize);
  }

  /** A first sentence longer than `maxSize` pushes the empty chunk first. */
  lemma LeadingEmptyChunk(text: string, maxSize: nat)
    requires |SentencesOf(text)[0]| > maxSize
    ensures |Chunks(text, maxSize)| >= 1 && Chunks(text, maxSize)[0] == ""
  {
  }

  /** Empty text has no chunk. */
  lemma EmptyTextNoChunks(maxSize: nat)
    ensures Chunks("", maxSize) == []
  {
    assert Tokens("") == [];
    assert Pack([""], "", maxSize) == Pack([], "", maxSize);
  }

  /** No chunk starts or ends with white space. */
  lemma ChunksTrimmed(text: string, maxSize: nat)
    ensures forall c :: c in Chunks(text, maxSize) ==> c == [] || (!IsJsSpace(c[0]) && !IsJsSpace(c[|c| - 1]))
  {
    var raw := Pack(SentencesOf(text), "", maxSize);
    forall c | c in Chunks(text, maxSize)
      ensures c == [] || (!IsJsSpace(c[0]) && !IsJsSpace(c[|c| - 1]))
    {
      var k :| 0 <= k < |raw| && Chunks(text, maxSize)[k] == c;
      TrimEdges(raw[k]);
    }
  }

  // ---------------------------------------------------------------------
  // generateAndWriteFile

  /** The request made for one chunk: voice nova, model gpt-4o-mini-tts, mp3. */
  function RequestFor(chunk: string): SpeechRequest
  {
    SpeechRequest(chunk, Nova, Gpt4oMiniTts)
  }

  /** The index of the first chunk from `i` on whose synthesis fails, or the
      number of chunks when none does. */
  function DoneFrom(chunks: seq<string>, reply: SpeechRequest -> SpeechReply, i: nat): (n: nat)
    requires i <= |chunks|
    ensures i <= n <= |chunks|
    decreases |chunks| - i
  {
    if i == |chunks| || reply(RequestFor(chunks[i])).ApiError? then i
    else DoneFrom(chunks, reply, i + 1)
  }

  /** How many chunks are synthesised before the first failure. */
  function Done(chunks: seq<string>, reply: SpeechRequest -> SpeechReply): nat
  {
    DoneFrom(chunks, reply, 0)
  }

  lemma {:induction false} DoneFromIsFirstFailure(chunks: seq<string>, reply: SpeechRequest -> SpeechReply, i: nat)
    requires i <= |chunks|
    ensures var n := DoneFrom(chunks, reply, i);
      && (forall k :: i <= k < n ==> reply(RequestFor(chunks[k])).Audio?)
      && (n < |chunks| ==> reply(RequestFor(chunks[n])).ApiError?)
    decreases |chunks| - i
  {
    if i < |chunks| && reply(RequestFor(chunks[i])).Audio? {
      DoneFromIsFirstFailure(chunks, reply, i + 1);
    }
  }

  /** `Done` is the index of the first failing chunk: every chunk before it
      was synthesised, and it failed (or it is the end). */
  lemma DoneIsFirstFailure(chunks: seq<string>, reply: SpeechRequest -> SpeechReply)
    ensures var n := Done(chunks, reply);
      && n <= |chunks|
      && (forall k :: 0 <= k < n ==> reply(RequestFor(chunks[k])).Audio?)
      && (n < |chunks| ==> reply(RequestFor(chunks[n])).ApiError?)
  {
    DoneFromIsFirstFailure(chunks, reply, 0);
  }

  /** The progress writes after the first `n` chunks: 1, 2, ..., n. */
  function ProgressWrites(n: nat): (w: seq<RowWrite>)
    ensures |w| == n
  {
    if n == 0 then [] else ProgressWrites(n - 1) + [SetChunksGenerated(n)]
  }

  lemma {:induction false} ProgressWritesAt(n: nat)
    ensures forall k :: 0 <= k < n ==> ProgressWrites(n)[k] == SetChunksGenerated(k + 1)
  {
    if n > 0 {
      ProgressWritesAt(n - 1);
    }
  }

  function ReplyBytes(r: SpeechReply): seq<Byte>
  {
    if r.Audio? then r.bytes else []
  }

  /** The file's contents after the first `n` chunks: their audio, in order. */
  function AudioPrefix(chunks: seq<string>, reply: SpeechRequest -> SpeechReply, n: nat): seq<Byte>
    requires n <= |chunks|
  {
    if n == 0 then [] else AudioPrefix(chunks, reply, n - 1) + ReplyBytes(reply(RequestFor(chunks[n - 1])))
  }

  /** The requests for the first `n` chunks, in order. */
  function RequestsUpTo(chunks: seq<string>, n: nat): (r: seq<SpeechRequest>)
    requires n <= |chunks|
    ensures |r| == n
  {
    if n == 0 then [] else RequestsUpTo(chunks, n - 1) + [RequestFor(chunks[n - 1])]
  }

  lemma {:induction false} RequestsUpToAt(chunks: seq<string>, n: nat)
    requires n <= |chunks|
    ensures forall k :: 0 <= k < n ==> RequestsUpTo(chunks, n)[k] == RequestFor(chunks[k])
  {
    if n > 0 {
      RequestsUpToAt(chunks, n - 1);
    }
  }

  /** How many requests are sent: the synthesised chunks and the failing one. */
  function Attempted(chunks: seq<string>, reply: SpeechRequest -> SpeechReply): nat
  {
    var n := Done(chunks, reply);
    if n < |chunks| then n + 1 else n
  }

  function FinalStatus(chunks: seq<string>, reply: SpeechRequest -> SpeechReply): ContentStatus
  {
    if Done(chunks, reply) == |chunks| then Completed else Error
  }

  /** The writes `generateAndWriteFile` makes to the row, given whether the
      target file already existed. */
  function GenerationWrites(existed: bool, chunks: seq<string>, reply: SpeechRequest -> SpeechReply): seq<RowWrite>
  {
    if existed then [SetStatus(Completed)]
    else [SetStatus(Processing)] + SynthesisWrites(chunks, reply)
  }

  /** The writes of the synthesis loop and what follows it. */
  function SynthesisWrites(chunks: seq<string>, reply: SpeechRequest -> SpeechReply): seq<RowWrite>
  {
    ProgressWrites(Done(chunks, reply)) + [SetStatus(FinalStatus(chunks, reply))]
  }

  /** The `try` block of `generateAndWriteFile` after the stream is opened:
      one request per chunk, its audio appended to the file and the progress
      written, until a request fails (status `error`) or the chunks run out
      (status `completed`). */
  method SynthesiseChunks(textChunks: seq<string>, filename: string,
                          row: ContentRow, store: FileStore, client: SpeechClient)
    requires filename in store.files
    modifies row, store, client
    ensures var n := Done(textChunks, client.reply);
      && row.writes == old(row.writes) + SynthesisWrites(textChunks, client.reply)
      && row.status == FinalStatus(textChunks, client.reply)
      && row.chunksGenerated == (if n == 0 then old(row.chunksGenerated) else n)
      && store.files == old(store.files)[filename := old(store.files)[filename] + AudioPrefix(textChunks, client.reply, n)]
      && client.requests == old(client.requests) + RequestsUpTo(textChunks, Attempted(textChunks, client.reply))
  {
    ghost var w0 := row.writes;
    ghost var c0 := row.chunksGenerated;
    ghost var f0 := store.files;
    ghost var r0 := client.requests;
    var chunksGenerated: nat := 0;
    assert f0[filename] + AudioPrefix(textChunks, client.reply, 0) == f0[filename];
    assert f0[filename := f0[filename]] == f0;
    for i := 0 to |textChunks|
      invariant chunksGenerated == i
      invariant DoneFrom(textChunks, client.reply, i) == Done(textChunks, client.reply)
      invariant row.writes == w0 + ProgressWrites(i)
      invariant row.chunksGenerated == if i == 0 then c0 else i
      invariant store.files == f0[filename := f0[filename] + AudioPrefix(textChunks, client.reply, i)]
      invariant client.requests == r0 + RequestsUpTo(textChunks, i)
    {
      var r := client.Create(textChunks[i], Nova, Gpt4oMiniTts);
      SnocAssoc(r0, RequestsUpTo(textChunks, i), RequestFor(textChunks[i]));
      match r
      case ApiError(_) =>
        assert DoneFrom(textChunks, client.reply, i) == i;
        row.UpdateStatus(Error);
        return;
      case Audio(bytes) =>
        ghost var prefix := AudioPrefix(textChunks, client.reply, i);
        assert AudioPrefix(textChunks, client.reply, i + 1) == prefix + bytes;
        ConcatAssoc(f0[filename], prefix, bytes);
        UpdateTwice(f0, filename, f0[filename] + prefix, f0[filename] + prefix + bytes);
        store.Append(filename, bytes);
        chunksGenerated := chunksGenerated + 1;
        SnocAssoc(w0, ProgressWrites(i), SetChunksGenerated(i + 1));
        row.UpdateChunksGenerated(chunksGenerated);
    }
    row.UpdateStatus(Completed);
  }

  /** `generateAndWriteFile(text, filename, contentId)`. Each chunk's audio
      body is appended as one piece; the parts of the stream it arrives in
      join to the same bytes. */
  method GenerateAndWriteFile(text: string, filename: string, row: ContentRow, store: FileStore, client: SpeechClient)
    modifies row, store, client
    ensures filename in old(store.files) ==>
      && row.writes == old(row.writes) + GenerationWrites(true, Chunks(text, DefaultMaxSize), client.reply)
      && row.status == Completed && row.chunksGenerated == old(row.chunksGenerated)
      && store.files == old(store.files)
      && client.requests == old(client.requests)
    ensures filename !in old(store.files) ==>
      var chunks := Chunks(text, DefaultMaxSize);
      var n := Done(chunks, client.reply);
      && row.writes == old(row.writes) + GenerationWrites(false, chunks, client.reply)
      && row.status == FinalStatus(chunks, client.reply)
      && row.chunksGenerated == (if n == 0 then old(row.chunksGenerated) else n)
      && store.files == old(store.files)[filename := AudioPrefix(chunks, client.reply, n)]
      && client.requests == old(client.requests) + RequestsUpTo(chunks, Attempted(chunks, client.reply))
  {
    var present := store.Exists(filename);
    if present {
      row.UpdateStatus(Completed);
      return;
    }
    ghost var w0 := row.writes;
    ghost var f0 := store.files;
    row.UpdateStatus(Processing);
    var textChunks := SplitTextIntoChunks(text, DefaultMaxSize);
    store.Truncate(filename);
    SynthesiseChunks(textChunks, filename, row, store, client);
    FreshFile(f0, filename, AudioPrefix(textChunks, client.reply, Done(textChunks, client.reply)));
    WritesAfterProcessing(w0, textChunks, client.reply);
  }

  lemma UpdateTwice(files: map<string, seq<Byte>>, path: string, a: seq<Byte>, b: seq<Byte>)
    ensures files[path := a][path := b] == files[path := b]
  {
  }

  lemma FreshFile(files: map<string, seq<Byte>>, path: string, bytes: seq<Byte>)
    ensures files[path := []][path := files[path := []][path] + bytes] == files[path := bytes]
  {
    assert [] + bytes == bytes;
  }

  lemma WritesAfterProcessing(w0: seq<RowWrite>, chunks: seq<string>, reply: SpeechRequest -> SpeechReply)
    ensures w0 + [SetStatus(Processing)] + SynthesisWrites(chunks, reply) == w0 + GenerationWrites(false, chunks, reply)
  {
  }

  /** The status column goes `processing`, then one progress write per
      synthesised chunk in the order 1, 2, ..., and ends `completed` exactly
      when every chunk was synthesised and `error` otherwise; a file that
      already exists is marked `completed` with no other write. */
  lemma WritesShape(existed: bool, chunks: seq<string>, reply: SpeechRequest -> SpeechReply)
    ensures var w := GenerationWrites(existed, chunks, reply);
      var n := Done(chunks, reply);
      && (existed ==> w == [SetStatus(Completed)])
      && (!existed ==>
            && |w| == n + 2
            && w[0] == SetStatus(Processing)
            && (forall k :: 1 <= k <= n ==> w[k] == SetChunksGenerated(k))
            && (w[n + 1] == SetStatus(Completed) <==> forall k :: 0 <= k < |chunks| ==> reply(RequestFor(chunks[k])).Audio?)
            && (w[n + 1] == SetStatus(Error) <==> exists k :: 0 <= k < |chunks| && reply(RequestFor(chunks[k])).ApiError?))
  {
    if !existed {
      var w := GenerationWrites(existed, chunks, reply);
      var n := Done(chunks, reply);
      ProgressWritesAt(n);
      DoneIsFirstFailure(chunks, reply);
      forall k | 1 <= k <= n
        ensures w[k] == SetChunksGenerated(k)
      {
        assert w[k] == ProgressWrites(n)[k - 1];
      }
      if n < |chunks| {
        assert reply(RequestFor(chunks[n])).ApiError?;
      }
    }
  }

  /** The requests go out one per chunk, in order, up to and including the
      first that fails: every request before the last one sent got audio,
      the last one failed unless every chunk was sent, and no request follows
      a failure. */
  lemma RequestsInOrder(chunks: seq<string>, reply: SpeechRequest -> SpeechReply)
    ensures var a := Attempted(chunks, reply);
      && a <= |chunks|
      && (forall k :: 0 <= k < a ==> RequestsUpTo(chunks, a)[k] == RequestFor(chunks[k]))
      && (a < |chunks| ==> reply(RequestFor(chunks[a - 1])).ApiError?)
    ensures var a := Attempted(chunks, reply);
      var n := Done(chunks, reply);
      && (forall k :: 0 <= k < n ==> reply(RequestsUpTo(chunks, a)[k]).Audio?)
      && (n < |chunks| ==> a == n + 1 && reply(RequestsUpTo(chunks, a)[n]).ApiError?)
      && (n == |chunks| ==> a == |chunks|)
  {
    DoneIsFirstFailure(chunks, reply);
    RequestsUpToAt(chunks, Attempted(chunks, reply));
  }
}
