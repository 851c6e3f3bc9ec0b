# readtomelater — a verified model of its core

readtomelater turns an article into speech and plays it back. The server
splits the article's text into chunks and has a text-to-speech service
synthesise each chunk into an MP3 file. The web client then plays the
chunks as one continuous timeline.

This project models five parts of it in Dafny and proves their properties:

- **Generation with a cache** (`splitter.dfy`, `generation.dfy`). The
  size-bounded splitter cuts the text into chunks. The generation loop names
  each chunk's file by the SHA-256 hash of the chunk text, voice, model and
  chunk index. It synthesises only the chunks whose file is missing.
- **Sentence packing and the status machine** (`processing.dfy`). The text
  is tokenised into sentences, which are packed greedily into chunks. The
  content row then moves from `pending` to `processing` and on to
  `completed` or `error`, with a per-chunk progress counter.
- **The `/api/stream` responder** (`responder.dfy`).
  - Range requests: the `bytes=N-M` header is parsed, `end` is clamped, and
    the status, `Content-Length` and `Content-Range` are computed.
  - Live streaming: while a file is still being generated, its growth is
    appended to the reply. Each look at the file reads its size and then,
    in a later await, its contents, so the file may grow between the two.
  - Both the handler as written and a corrected handler are modelled; the
    corrected one is the subject of the findings below.
- **The streaming player's timeline** (`streaming_player.dfy`, on top of
  `timeline.dfy`): running sums of the segment durations, the inverse seek,
  skip clamping, auto-advance, the load guard and the `m:ss` display.
- **The older chunk player's timeline** (`chunk_player.dfy`): its own seek
  search with a fallback to chunk 0, a total that exists only once every
  chunk is known, and auto-advance bounded at the last chunk.

Three modules are shared. `base.dfy` holds Option, bytes, flattening and
decimal rendering. `storage.dfy` holds the file store, the speech client and
the content row as classes with a write log. `timeline.dfy` holds the
duration sums and `formatTime`.

Outside services become parameters:

- SHA-256 is a function `string -> string`.
- The speech service is a `SpeechClient` whose replies are fixed by a
  function and whose requests are logged.
- The file system is a `FileStore` holding a map from path to bytes.
- The database row is a `ContentRow` that logs its writes.
- A media element's `duration` and `currentTime` are arguments of the
  event methods.
- Times are exact reals.

Where the code and its prose description disagree, the model follows the
code:

- A `Range` header that does not match `bytes=(\d+)-(\d*)` still gets status
  206, with the whole file as the body.
- Empty text packs into no chunk at all.
- The test file for the splitter imports a `chunkText` that
  server/parse_url.ts does not define. That file is not part of this model.
  Only its reconstruction check is covered, by `Splitter.ChunksConcat`.

## Model

| member | source | states |
|---|---|---|
| Splitter.CutIndex | server/generate_audio.ts:32-50 | every cut moves forward by at least one character and at most `chunkSize` |
| Splitter.FindChunkEnd | server/generate_audio.ts:32-50 | the loop body's choice of `endIndex` is the sentence, word or hard cut of `CutIndex` |
| Splitter.SplitTextIntoChunks | server/generate_audio.ts:27-57 | the while loop returns exactly the chunk list `Chunks(text, chunkSize)`, for `chunkSize >= 1` |
| Splitter.ChunksConcat | server/generate_audio.ts:31-53 | joining the chunks gives back the input text exactly |
| Splitter.ChunksBounded | server/generate_audio.ts:32-53 | every chunk is non-empty and at most `chunkSize` long |
| Splitter.ShortText | server/generate_audio.ts:31-35 | text no longer than `chunkSize` is one chunk equal to the text; empty text gives no chunk |
| Splitter.SentenceCut | server/generate_audio.ts:37-42 | if `". "` occurs in the 200-character window, the chunk ends right after its last occurrence |
| Splitter.WordCut | server/generate_audio.ts:44-49 | with no `". "` in the window, a space in `(cur, limit]` puts the cut on a space after the start, and on the last such space, so no later space up to the limit is skipped; with no such space the cut is hard at the limit; the space begins the next chunk |
| Splitter.WordCutExample | server/generate_audio.ts:31-50 | `"a bcdef"` with a chunk size of 5 has no `". "` before the limit, so the cut falls on the space at 1 and the first chunk is `"a"` |
| Splitter.LastSentenceEnd | server/generate_audio.ts:39 | `lastIndexOf('. ')`: -1 or an occurrence with no later one |
| Splitter.LastSpaceAtOrBefore | server/generate_audio.ts:45 | `lastIndexOf(' ', from)`: -1 or the last space at or before `from` |
| Generation.HashInputDistinguishesIndex | server/generate_audio.ts:89-91 | equal chunk text, voice and model with different indices give different hash inputs |
| Generation.AudioPathShape | server/generate_audio.ts:92 | the path is the directory, `/`, the hash, then `.mp3` |
| Generation.AudioPathInjective | server/generate_audio.ts:92 | in one directory, different hashes give different paths |
| Generation.ProcessJob | server/generate_audio.ts:94-116 | an existing file is reported and nothing is synthesised; otherwise one request is sent, and the reply's audio is written or its error reported |
| Generation.GenerateChunks | server/generate_audio.ts:85-131 | the loop leaves the store, the request log and the result equal to the pure trace `Run` |
| Generation.GenerateAudio | server/generate_audio.ts:59-132 | defaults applied, split, then the loop: the outcome is `OutcomeOf` the trace |
| Generation.RunChunks | server/generate_audio.ts:118-124 | record `k` belongs to job `k`, and records stop where the run stopped |
| Generation.RunKeepsFiles | server/generate_audio.ts:97-110 | no file that existed before the run is changed |
| Generation.RunWritesPaths | server/generate_audio.ts:97-116 | every chunk before the stop has its file afterwards; a failure stops at a chunk whose file is still missing |
| Generation.RunCacheHits | server/generate_audio.ts:94-99 | `fileExists` is false exactly for the chunks that were synthesised |
| Generation.RunSynthesisesAbsent | server/generate_audio.ts:97-106 | only chunks whose path was absent at the start are synthesised |
| Generation.AllPresentIsNoOp | server/generate_audio.ts:97-99 | when every path exists there is no request, no write and no failure |
| Generation.GeneratedRecords | server/generate_audio.ts:118-131 | on success, record `k` has index `k`, the `k`-th chunk's text, and its hash and path |
| Generation.SecondRunIsCached | server/generate_audio.test.ts:42-54 | a second run over the files of a successful first run synthesises nothing and reports every file as existing, with the same hashes and paths |
| Generation.ResumeAfterFailure | server/generate_audio.ts:111-115 | after a failure at chunk `f`, a rerun finds chunks before `f` cached and synthesises only from `f` on |
| Generation.RunFailureCause | server/generate_audio.ts:85-116 | over a whole run: a failure names a chunk whose file was missing at the start, carries the message of that chunk's speech error, and is the run's last call; a run without a failure leaves every chunk's file on disk; files already on disk keep their bytes |
| Processing.ContentUrlShape | processing.js:20-21 | the audio path is `./audio/`, the URL's digest, then `.mp3` |
| Processing.ContentUrlSameIffSameDigest | processing.js:20-21 | two URLs share an audio path exactly when their digests are equal |
| Processing.TokensConcat | processing.js:85 | the sentences joined give the text with any leading run of `.!?` removed |
| Processing.TokensShape | processing.js:85 | each match is a run of non-terminators followed by terminators, and every match but the last ends in a terminator |
| Processing.NoMatchFallback | processing.js:85 | text made only of terminators (or empty) gives the list `[text]`; otherwise the list is the matches |
| Processing.SplitTextIntoChunks | processing.js:83-100 | the packing loop returns exactly the chunk list `Chunks(text, maxSize)` |
| Processing.RawChunksConcat | processing.js:88-98 | joining the untrimmed chunks gives back the joined sentences, in order |
| Processing.LongChunkIsOneSentence | processing.js:89-93 | a chunk longer than `maxSize` is a single sentence |
| Processing.LeadingEmptyChunk | processing.js:91-92 | a first sentence longer than `maxSize` produces a leading empty chunk |
| Processing.EmptyTextNoChunks | processing.js:96-98 | empty text gives no chunk |
| Processing.ChunksTrimmed | processing.js:92-97 | every chunk is trimmed: empty, or without white space at either end |
| Processing.TrimIdempotent | processing.js:92-97 | trimming twice is trimming once |
| Processing.DoneIsFirstFailure | processing.js:65-74 | the number of chunks synthesised is the index of the first failing request |
| Processing.SynthesiseChunks | processing.js:58-79 | status `processing`, then each chunk's audio appended and progress `k` recorded after chunk `k`, then `completed`, or `error` at the first failure |
| Processing.GenerateAndWriteFile | processing.js:47-81 | an existing file only sets `completed`; otherwise the file is rewritten from empty and the writes follow `GenerationWrites` |
| Processing.WritesShape | processing.js:50-79 | the row writes are `[completed]` for an existing file; otherwise `processing`, progress 1..n, then `completed` exactly when no request failed and `error` exactly when one did |
| Processing.RequestsInOrder | processing.js:65-68 | the requests sent are those of the first chunks, in chunk order; every one before the first failure got audio; after a failure exactly one more request (the failing one) has been sent and none follows it; with no failure every chunk is requested |
| Responder.ParseRangeHeader | server.js:126-133 | parsing the header text of any range gives back that range |
| Responder.FirstMatch | server.js:127 | the unanchored regex: the first position where `bytes=` and digits start a match, or none |
| Responder.NoRangeWholeFile | server.js:122-124 | with no Range header, as written and corrected alike: 200 and the whole file, with its length as `Content-Length` |
| Responder.UnmatchedHeaderWholeFile | server.js:126-134 | as written and corrected alike, a header that does not match still gets 206, with the whole file |
| Responder.ContentLengthAsWritten | server.js:136-159 | for every reading of the header, the handler as written announces a `Content-Length` equal to the body's length exactly when `start <= end + 1` (the clamped `end + 1` never passes the file's end); otherwise the body is empty and the announced length is the negative `end - start + 1` |
| Responder.SatisfiableRange | server.js:126-156 | for a range starting inside the file, as written and corrected alike: 206, the body is the requested bytes with `end` clamped, and both headers agree with it |
| Responder.HundredBytes | server.js:126-156 | `bytes=100-199` on a 1000-byte file, as written and corrected alike: 206, bytes 100..199, length "100", range "bytes 100-199/1000" |
| Responder.ContentLengthMatchesBody | server.js:137-153 | corrected reply: unless the status is 416, `Content-Length` is the decimal length of the body |
| Responder.RangeResponseCorrection | server.js:137-159 | the corrected reply is 416 exactly for an unsatisfiable range and equals the reply as written otherwise |
| Responder.UnsatisfiableReply | server.js:137-159 | corrected reply for an unsatisfiable range: 416, empty body, no `Content-Length`, `Content-Range: bytes */size` |
| Responder.ReversedRangeAsWritten | server.js:137-159 | as written, `bytes=500-100` on 1000 bytes gives 206, an empty body and `Content-Length: -399` |
| Responder.PastEndAsWritten | server.js:137-159 | as written, `bytes=2000-` on 1000 bytes gives 206, an empty body and `Content-Length: -1000` |
| Responder.PastEndRefused | server.js:137-159 | corrected, `bytes=2000-` on 1000 bytes gives 416 with `bytes */1000` |
| Responder.LiveStream | server.js:69-111 | the live loop's enqueued pieces are `LivePieces`: per look, when the size read grew, the buffer read afterwards from `lastSize` on, with `lastSize` set to the size read; then the final flush, by the same rule |
| Responder.LivePiecesShape | server.js:74-106 | as written, the last size is the largest size read; for the looks of one growing file every piece is non-empty; when no look saw the file grow between its two reads, the pieces are as long as the largest size read |
| Responder.PolledSendsPrefix | server.js:74-96 | as written, for a growing file that no look saw grow between its two reads, the pieces sent so far join to the buffer last read |
| Responder.LiveStreamSendsFile | server.js:70-106 | as written, under the same conditions, the joined pieces are the file as the final flush read it |
| Responder.GrowthBetweenReadsAsWritten | server.js:77-84 | as written, a file that grows between a look's size read and its buffer read has bytes sent twice: size 1 with buffer `[x, y]`, then a final flush of 2 bytes, sends `[x, y, y]`; the corrected loop sends `[x, y]` |
| Responder.SettledAgrees | server.js:77-84 | when no look sees the file grow between its two reads, the loop as written and the corrected loop are in the same state after every look |
| Responder.LiveStreamFixedSendsFile | server.js:70-106 | corrected (`lastSize` set to the buffer's length), for the looks of one growing file, the joined pieces are a prefix of the file as the final flush read it, at least the final size long, and exactly that file once it had stopped growing |
| Responder.ProcessingIsLive | server.js:54-65 | while generating, as written and corrected: 200, `Accept-Ranges: none` and no `Content-Length` whatever the Range header; the corrected body is the file as last read once it had stopped growing, and the body as written is that file when no look saw the file grow between its reads |
| Timeline.TotalSetAt | client/src/StreamingAudioPlayer.tsx:61-67 | recording a segment's duration changes the total by exactly the change of that entry |
| Timeline.PrefixMonotone | client/src/StreamingAudioPlayer.tsx:97-103 | with no negative duration the running sums never decrease |
| Timeline.FormatPositive | client/src/StreamingAudioPlayer.tsx:227-232 | a positive time shows as whole minutes, `:`, and the remaining whole seconds padded to two digits; the two make up the whole seconds |
| Timeline.FormatZero | client/src/AudioPlayer.tsx:204-209 | 0 and NaN show as "0:00" |
| Timeline.FormatExamples | client/src/AudioPlayer.tsx:204-209 | 75 seconds show as "1:15" and 5.5 seconds as "0:05" |
| Streaming.LocateSpec | client/src/StreamingAudioPlayer.tsx:191-204 | seek picks the first segment whose end is at or after `p`, or the count of known durations; the in-segment time is `p` minus the earlier durations, so the two add back to `p` |
| Streaming.LocateWithin | client/src/StreamingAudioPlayer.tsx:196-204 | a position on the known timeline lands in a known segment, between 0 and its duration |
| Streaming.LocatePastEnd | client/src/StreamingAudioPlayer.tsx:196-207 | past every known duration: index one past the last, remainder `p - total` |
| Streaming.LocateExample | client/src/StreamingAudioPlayer.tsx:196-204 | durations 10, 15, 7: time 20 is `(1, 10)`, and time 10 stays at the end of segment 0 |
| Streaming.FindSegment | client/src/StreamingAudioPlayer.tsx:192-204 | the loop with `break` computes `Locate` |
| Streaming.PositionOf | client/src/StreamingAudioPlayer.tsx:128-136 | the position loop gives the durations before the current segment plus its `currentTime` |
| Streaming.SkipTargetsInRange | client/src/StreamingAudioPlayer.tsx:217-225 | from a position in `[0, total]` both skip targets stay in `[0, total]` and move by 15 s when there is room |
| Streaming.StreamingPlayer.LoadSegment | client/src/StreamingAudioPlayer.tsx:52-93 | the log of started loads grows by this segment exactly when it exists and is not loaded yet, and a segment that has had its `loadeddata` is never loaded again; the invariant that only existing segments are requested and only requested ones get loaded is kept |
| Streaming.StreamingPlayer.OnLoadedData | client/src/StreamingAudioPlayer.tsx:61-67 | for a segment whose load was started, the segment is marked loaded and its duration recorded, and the total stays the sum of known durations |
| Streaming.StreamingPlayer.UpdatePosition | client/src/StreamingAudioPlayer.tsx:124-139 | position = durations before the current segment + its element's time |
| Streaming.StreamingPlayer.Seek | client/src/StreamingAudioPlayer.tsx:191-215 | the located segment, clamped to the last one, becomes current; a loaded target's time becomes the remainder, and then the position formula gives back `p` |
| Streaming.StreamingPlayer.SkipForward | client/src/StreamingAudioPlayer.tsx:217-220 | everything `Seek` promises, for the target `min(position + 15, total)`: the located segment (clamped) becomes current, a loaded one jumps to the located time so the position formula gives back the target, an unloaded one keeps every element's time, and the durations, total, loads, position and play state are unchanged |
| Streaming.StreamingPlayer.SkipBackward | client/src/StreamingAudioPlayer.tsx:222-225 | everything `Seek` promises, for the target `max(position - 15, 0)`: the located segment (clamped) becomes current, a loaded one jumps to the located time so the position formula gives back the target, an unloaded one keeps every element's time, and the durations, total, loads, position and play state are unchanged |
| Streaming.StreamingPlayer.OnEnded | client/src/StreamingAudioPlayer.tsx:165-173 | advance to the next segment if one exists, otherwise stop playing |
| ChunkPlayer.CompleteTotalBounds | client/src/AudioPlayer.tsx:53-58 | a total that was set is the sum, positive for a non-empty article, at least every duration, and the end of the last chunk |
| ChunkPlayer.CompleteTotalMissing | client/src/AudioPlayer.tsx:53-58 | no total while a chunk is missing or has a non-positive duration |
| ChunkPlayer.FindChunkSpec | client/src/AudioPlayer.tsx:124-135 | the search picks the first chunk whose end reaches `p`, with `p` minus the earlier durations; if none does, chunk 0 with `p` |
| ChunkPlayer.FindChunkWithin | client/src/AudioPlayer.tsx:128-135 | for `0 <= p <= sum`, the time into the chunk lies in `[0, d[target]]` |
| ChunkPlayer.FindChunkFallback | client/src/AudioPlayer.tsx:124-135 | with no negative duration, the fallback to chunk 0 happens exactly for `p` past the sum |
| ChunkPlayer.FindChunkExample | client/src/AudioPlayer.tsx:128-135 | durations 10, 15, 7: time 20 is `(1, 10)`, and time 40 falls back to `(0, 40)` |
| ChunkPlayer.SameAsStreamingSeek | client/src/AudioPlayer.tsx:128-135 | on a position some chunk reaches, this search and the streaming player's agree |
| ChunkPlayer.SearchChunk | client/src/AudioPlayer.tsx:124-135 | the loop shared by the three handlers computes `FindChunk` |
| ChunkPlayer.ChunkedPlayer.OnLoad | client/src/AudioPlayer.tsx:44-58 | the duration given is recorded at the current index, and the total is set to the sum exactly when every chunk has a positive duration |
| ChunkPlayer.StaleFirstPass | client/src/AudioPlayer.tsx:49-58 | as written, a first pass records each chunk with the duration captured before it loaded (chunk 0 with 0), so the total is never set and skipping forward seeks to 0 |
| ChunkPlayer.OwnDurationsTotal | client/src/AudioPlayer.tsx:53-58 | with each chunk's own positive duration, one pass sets the total to the sum, and skipping forward then moves 15 s ahead wherever 15 s remain |
| ChunkPlayer.ChunkedPlayer.Tick | client/src/AudioPlayer.tsx:64-80 | overall = durations before the current chunk + position; within 0.1 s of the end, advance only below the last chunk |
| ChunkPlayer.ChunkedPlayer.OnEnd | client/src/AudioPlayer.tsx:83-88 | advance only below the last chunk, so the index stays in range |
| ChunkPlayer.ChunkedPlayer.SeekTo | client/src/AudioPlayer.tsx:138-147 | another chunk: switch and defer the seek; the same chunk: seek at once; either way the earlier durations plus the seek time give `p` |
| ChunkPlayer.ChunkedPlayer.FirePendingSeek | client/src/AudioPlayer.tsx:141-143 | the oldest deferred seek runs on the chunk switched to: the playhead takes its time and it leaves the queue; nothing else changes |
| ChunkPlayer.ChunkedPlayer.HandleSeek | client/src/AudioPlayer.tsx:120-148 | everything `SeekTo` promises for the slider's value: the searched chunk becomes current, its seek is deferred if the chunk changed and done at once otherwise, the earlier durations plus the seek time give the value, and the durations, total, position and overall position are unchanged |
| ChunkPlayer.ChunkedPlayer.SkipForward | client/src/AudioPlayer.tsx:150-175 | everything `SeekTo` promises for `min(overall + 15, total)`: the searched chunk becomes current, its seek is deferred if the chunk changed and done at once otherwise, the earlier durations plus the seek time give the target, and the durations, total, position and overall position are unchanged |
| ChunkPlayer.ChunkedPlayer.SkipBackward | client/src/AudioPlayer.tsx:177-202 | everything `SeekTo` promises for `max(overall - 15, 0)`: the searched chunk becomes current, its seek is deferred if the chunk changed and done at once otherwise, the earlier durations plus the seek time give the target, and the durations, total, position and overall position are unchanged |

## Left out

- Authentication, e-mail, the database's SQL, article fetching and
  extraction, the OpenAI logger, route dispatch and UI-only components:
  none of them is part of this model.
- Creating the audio directory (`mkdir`) is left out: it does not change
  which files exist.
- I/O failures other than a synthesis error are left out: write failures
  and unreadable files.
- Missing content rows (404/500 replies) are left out.
- database.js does not export the `updateChunksGenerated` that processing.js
  imports. The progress write is therefore modelled as an abstract row
  write.
- The background, fire-and-forget call of `generateAndWriteFile` is left
  out, and so is concurrency with the stream handler.
- Streaming audio in parts: each synthesis reply is one byte sequence,
  appended in one step.
- Responder.LiveStream: the status polling and the 500 ms sleep are
  abstracted into the number of looks taken before generation ends. The
  loop's `catch`/`break` on a read error is left out.
- Responder.LiveStream: the final look is the file as it is on disk when
  the final flush reads it, not necessarily the finished audio.
  processing.js:75-76 sets the status to `completed` right after calling
  `fileWriteStream.end()`, without waiting for the write stream to flush.
  The final flush can therefore miss the audio's tail, and nothing in the
  model promises that the stream carries the whole generated audio.
- `Number()` precision on very long digit strings and JavaScript number
  limits on sizes are left out.
- Timers, React effects and re-renders are left out. Each callback is a
  method called by an external driver.
- Stale closures are left out. In the source a callback can see an older
  `currentSegment`, `chunkDurations` or `duration`; the model passes the
  values in as arguments.
- Media elements are left out. Browser clamping of `currentTime` to the
  media's duration is not modelled.
- Automatic play after a segment change is left out.
- Floating-point rounding, `Infinity` and the 0.1 s tolerance are
  idealised: times are exact reals. NaN durations and holes count as
  missing, and so as 0 where the code writes `|| 0`.
- Streaming.StreamingPlayer.Seek: a `NaN` position (from `parseFloat`) is
  not modelled.
- ChunkPlayer.ChunkedPlayer.HandleSeek: a `NaN` slider value (from
  `parseFloat` at client/src/AudioPlayer.tsx:121) is not modelled. In the
  source every `>=` test fails on it, so the search falls back to chunk 0
  with a `NaN` seek time.
- Splitter and Processing: strings are sequences of Unicode scalar values,
  while JavaScript's `length`, `slice` and `lastIndexOf` count UTF-16 code
  units. Text outside the Basic Multilingual Plane is therefore measured and
  cut differently: an emoji counts 2 toward `chunkSize` in the source, and
  the source can cut between the two halves of a surrogate pair.
- Splitter.SplitTextIntoChunks: a `chunkSize` of 0 or less is not
  modelled (the model requires at least 1). In the source such a size makes
  no cut move forward, so on non-empty text the loop never ends; the only caller passes the
  default 4096.
- Streaming.StreamingPlayer.LoadSegment: the `error` event of a load and the
  promise it returns are left out; a started load either gets its
  `loadeddata` (`OnLoadedData`) or nothing further happens.
- ChunkPlayer.ChunkedPlayer: the durations have no holes. The current index
  never runs more than one past the recorded durations, so each write
  replaces an entry or appends one.
- Progress percentages and the loaded-segment counters are display only and
  are not modelled.

## Findings

| source | as written | input that shows it | evidently intended | confidence | as-written member | corrected member |
|---|---|---|---|---|---|---|
| server.js:137-159 | `Content-Length` is `end - start + 1` with no check that `start <= end` or that `start` lies inside the file, and the status stays 206 | `Range: bytes=500-100` or `bytes=2000-` on a 1000-byte file: 206, an empty body, and `Content-Length: -399` or `-1000` | an unsatisfiable range is refused with 416 and `Content-Range: bytes */1000`, following section 15.5.17 of RFC 9110; `Content-Length` always equals the body length | not executed | Responder.ContentLengthAsWritten, Responder.ReversedRangeAsWritten, Responder.PastEndAsWritten | Responder.PastEndRefused, Responder.ContentLengthMatchesBody |
| server.js:77-84 | the size is read by one await and the buffer by a later one; the piece sent is the buffer from `lastSize` to its end, but `lastSize` becomes the size read first | the file has 1 byte at the size read and 2 bytes `[x, y]` at the buffer read, then the final flush reads 2 bytes: the stream sends `[x, y, y]` | each byte is sent once: `lastSize` becomes the length of the buffer the piece was cut from | not executed | Responder.GrowthBetweenReadsAsWritten | Responder.LiveStreamFixedSendsFile |
| client/src/AudioPlayer.tsx:49-58 | `onload` stores the `duration` captured when the load effect ran, before the new sound had loaded, and the total needs every stored duration to be positive | two chunks of 10 s and 20 s on a first pass: the stored durations are 0 and 10, so the total stays 0 and +15 s seeks to 0 | each chunk's own duration is stored, and after one pass the total is 30 s | not executed (it depends on when the audio hook updates `duration`) | ChunkPlayer.StaleFirstPass | ChunkPlayer.OwnDurationsTotal |
