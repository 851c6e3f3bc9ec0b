/** The content-addressed generation loop (`generate_audio` in
    server/generate_audio.ts): every chunk of the split text gets a key
    derived from its text, the voice, the model and its position; the audio
    for a key already on disk is reused, and otherwise synthesised and
    written. SHA-256 is a parameter (any deterministic function from the
    hash input to the hex digest); the disk and the speech service are the
    Storage classes. */
module Generation {
  import opened Base
  import opened Storage
  import Splitter

  /** `GenerateAudioOptions`: every field may be left out. */
  datatype GenerateAudioOptions = GenerateAudioOptions(
    voice: Option<Voice>, model: Option<TtsModel>, audioDir: Option<string>, chunkSize: Option<nat>)

  /** The options once the defaults are filled in. */
  datatype Config = Config(voice: Voice, model: TtsModel, audioDir: string, chunkSize: nat)

  function WithDefaults(o: GenerateAudioOptions): Config
  {
    Config(
      if o.voice.Some? then o.voice.value else Alloy,
      if o.model.Some? then o.model.value else Gpt4oMiniTts,
      if o.audioDir.Some? then o.audioDir.value else "./audio",
      if o.chunkSize.Some? then o.chunkSize.value else 4096)
  }

  datatype AudioChunk = AudioChunk(audioPath: string, hash: string, fileExists: bool, chunkIndex: nat, text: string)

  datatype GenerateAudioResult = GenerateAudioResult(chunks: seq<AudioChunk>, totalChunks: nat, totalLength: nat)

  /** The resolved promise, or the error it is rejected with. */
  datatype Outcome = Generated(result: GenerateAudioResult) | Failed(message: string)

  /** The string that is hashed for chunk `index`: `${chunkText}-${voice}-${model}-${i}`. */
  function HashInput(chunkText: string, voice: Voice, model: TtsModel, index: nat): string
  {
    chunkText + "-" + VoiceName(voice) + "-" + ModelName(model) + "-" + DecimalString(index)
  }

  /** Two chunks with the same text, voice and model at different positions
      hash different inputs. */
  lemma HashInputDistinguishesIndex(chunkText: string, voice: Voice, model: TtsModel, i: nat, j: nat)
    requires HashInput(chunkText, voice, model, i) == HashInput(chunkText, voice, model, j)
    ensures i == j
  {
    var prefix := chunkText + "-" + VoiceName(voice) + "-" + ModelName(model) + "-";
    assert HashInput(chunkText, voice, model, i) == prefix + DecimalString(i);
    assert HashInput(chunkText, voice, model, j) == prefix + DecimalString(j);
    assert DecimalString(i) == (prefix + DecimalString(i))[|prefix|..];
    assert DecimalString(j) == (prefix + DecimalString(j))[|prefix|..];
    DecimalStringInjective(i, j);
  }

  /** The key of a chunk: a function of its text, the voice, the model and its index only. */
  function ChunkHash(sha256: string -> string, chunkText: string, voice: Voice, model: TtsModel, index: nat): string
  {
    sha256(HashInput(chunkText, voice, model, index))
  }

  /** `${audioDir}/${chunkHash}.mp3`. */
  function AudioPath(audioDir: string, hash: string): string
  {
    audioDir + "/" + hash + ".mp3"
  }

  /** A path names its directory, then the key, then the `.mp3` extension,
      and so determines the key. */
  lemma AudioPathShape(audioDir: string, hash: string)
    ensures var p := AudioPath(audioDir, hash);
      && |p| == |audioDir| + |hash| + 5
      && p[..|audioDir| + 1] == audioDir + "/"
      && p[|p| - 4..] == ".mp3"
      && p[|audioDir| + 1..|p| - 4] == hash
  {
  }

  lemma AudioPathInjective(audioDir: string, hash1: string, hash2: string)
    requires AudioPath(audioDir, hash1) == AudioPath(audioDir, hash2)
    ensures hash1 == hash2
  {
    AudioPathShape(audioDir, hash1);
    AudioPathShape(audioDir, hash2);
  }

  /** What the loop derives for the chunk at index `k` before it looks at
      the disk: its text, its key, its path and the request it would send. */
  datatype Job = Job(text: string, index: nat, hash: string, path: string, request: SpeechRequest)

  function JobOf(cfg: Config, sha256: string -> string, texts: seq<string>, k: nat): Job
    requires k < |texts|
  {
    var hash := ChunkHash(sha256, texts[k], cfg.voice, cfg.model, k);
    Job(texts[k], k, hash, AudioPath(cfg.audioDir, hash), SpeechRequest(texts[k], cfg.voice, cfg.model))
  }

  /** The jobs of all split chunks, in order. */
  function Jobs(cfg: Config, sha256: string -> string, texts: seq<string>): seq<Job>
  {
    seq(|texts|, k requires 0 <= k < |texts| => JobOf(cfg, sha256, texts, k))
  }

  /** The record pushed for a job. */
  function RecordOf(job: Job, fileExists: bool): AudioChunk
  {
    AudioChunk(job.path, job.hash, fileExists, job.index, job.text)
  }

  datatype Failure = Failure(chunkIndex: nat, apiMessage: string)

  /** What processing the jobs from index `i` on does: the files on disk
      afterwards, the indices of the chunks for which the speech service was
      called (in call order), the records pushed, and the failure that
      stopped the loop, if any. */
  datatype Trace = Trace(
    files: map<string, seq<Byte>>, synthesised: seq<nat>, chunks: seq<AudioChunk>, failure: Option<Failure>)

  function Run(reply: SpeechRequest -> SpeechReply, jobs: seq<Job>, i: nat, files: map<string, seq<Byte>>): (t: Trace)
    ensures forall k :: 0 <= k < |t.synthesised| ==> i <= t.synthesised[k] < |jobs|
    decreases |jobs| - i
  {
    if i >= |jobs| then Trace(files, [], [], None)
    else if jobs[i].path in files then
      var rest := Run(reply, jobs, i + 1, files);
      rest.(chunks := [RecordOf(jobs[i], true)] + rest.chunks)
    else
      match reply(jobs[i].request)
      case ApiError(msg) => Trace(files, [i], [], Some(Failure(i, msg)))
      case Audio(bytes) =>
        var rest := Run(reply, jobs, i + 1, files[jobs[i].path := bytes]);
        rest.(synthesised := [i] + rest.synthesised, chunks := [RecordOf(jobs[i], false)] + rest.chunks)
  }

  /** Run, one step at a time: a job whose path is on disk. */
  lemma RunHit(reply: SpeechRequest -> SpeechReply, jobs: seq<Job>, i: nat, files: map<string, seq<Byte>>)
    requires i < |jobs| && jobs[i].path in files
    ensures var rest := Run(reply, jobs, i + 1, files);
      Run(reply, jobs, i, files) == rest.(chunks := [RecordOf(jobs[i], true)] + rest.chunks)
  {
  }

  /** The files after job `i`, when its path is absent and synthesis succeeds. */
  function FilesAfter(reply: SpeechRequest -> SpeechReply, jobs: seq<Job>, i: nat, files: map<string, seq<Byte>>)
    : map<string, seq<Byte>>
    requires i < |jobs| && reply(jobs[i].request).Audio?
  {
    files[jobs[i].path := reply(jobs[i].request).bytes]
  }

  /** A job whose path is absent and whose synthesis succeeds. */
  lemma RunMiss(reply: SpeechRequest -> SpeechReply, jobs: seq<Job>, i: nat, files: map<string, seq<Byte>>)
    requires i < |jobs| && jobs[i].path !in files && reply(jobs[i].request).Audio?
    ensures var rest := Run(reply, jobs, i + 1, FilesAfter(reply, jobs, i, files));
      Run(reply, jobs, i, files)
        == rest.(synthesised := [i] + rest.synthesised, chunks := [RecordOf(jobs[i], false)] + rest.chunks)
  {
  }

  /** A job whose path is absent and whose synthesis fails. */
  lemma RunFail(reply: SpeechRequest -> SpeechReply, jobs: seq<Job>, i: nat, files: map<string, seq<Byte>>)
    requires i < |jobs| && jobs[i].path !in files && reply(jobs[i].request).ApiError?
    ensures Run(reply, jobs, i, files) == Trace(files, [i], [], Some(Failure(i, reply(jobs[i].request).message)))
  {
  }

  /** The request of job `k`, as a sequence of at most one element. */
  function RequestAt(jobs: seq<Job>, k: nat): seq<SpeechRequest>
  {
    if k < |jobs| then [jobs[k].request] else []
  }

  /** The requests sent for the jobs at the given indices (an index past
      the jobs, which a run never records, contributes nothing). */
  function RequestsFor(jobs: seq<Job>, indices: seq<nat>): seq<SpeechRequest>
  {
    if indices == [] then [] else RequestAt(jobs, indices[0]) + RequestsFor(jobs, indices[1..])
  }

  lemma {:induction false} RequestsForAppend(jobs: seq<Job>, a: seq<nat>, b: seq<nat>)
    ensures RequestsFor(jobs, a + b) == RequestsFor(jobs, a) + RequestsFor(jobs, b)
  {
    if a == [] {
      assert a + b == b;
    } else {
      var ab := a + b;
      assert ab[0] == a[0] && ab[1..] == a[1..] + b;
      RequestsForAppend(jobs, a[1..], b);
      var h := RequestAt(jobs, a[0]);
      assert RequestsFor(jobs, ab) == h + RequestsFor(jobs, a[1..] + b);
      assert RequestsFor(jobs, a) == h + RequestsFor(jobs, a[1..]);
      ConcatAssoc(h, RequestsFor(jobs, a[1..]), RequestsFor(jobs, b));
    }
  }

  lemma RequestsForSnoc(jobs: seq<Job>, a: seq<nat>, i: nat)
    requires i < |jobs|
    ensures RequestsFor(jobs, a + [i]) == RequestsFor(jobs, a) + [jobs[i].request]
  {
    RequestsForAppend(jobs, a, [i]);
    assert RequestsFor(jobs, [i]) == [jobs[i].request] + RequestsFor(jobs, [i][1..]);
  }

  /** `Failed to generate audio for chunk ${i}: ${error.message}`. */
  function FailureMessage(f: Failure): string
  {
    "Failed to generate audio for chunk " + DecimalString(f.chunkIndex) + ": " + f.apiMessage
  }

  function OutcomeOf(t: Trace, texts: seq<string>, text: string): Outcome
  {
    if t.failure.Some? then Failed(FailureMessage(t.failure.value))
    else Generated(GenerateAudioResult(t.chunks, |texts|, |text|))
  }

  /** The index the run stopped at: the failing chunk, or `n` when none failed. */
  function StopOf(t: Trace, n: nat): nat
  {
    if t.failure.Some? then t.failure.value.chunkIndex else n
  }

  /** A trace with the given calls and records put in front of it. */
  function Prepend(synthesised: seq<nat>, chunks: seq<AudioChunk>, t: Trace): Trace
  {
    t.(synthesised := synthesised + t.synthesised, chunks := chunks + t.chunks)
  }

  lemma StepHit(reply: SpeechRequest -> SpeechReply, jobs: seq<Job>, i: nat, files: map<string, seq<Byte>>,
                s: seq<nat>, c: seq<AudioChunk>)
    requires i < |jobs| && jobs[i].path in files
    ensures Prepend(s, c, Run(reply, jobs, i, files))
         == Prepend(s, c + [RecordOf(jobs[i], true)], Run(reply, jobs, i + 1, files))
  {
    RunHit(reply, jobs, i, files);
    AppendAssoc(c, RecordOf(jobs[i], true), Run(reply, jobs, i + 1, files).chunks);
  }

  lemma StepMiss(reply: SpeechRequest -> SpeechReply, jobs: seq<Job>, i: nat, files: map<string, seq<Byte>>,
                 s: seq<nat>, c: seq<AudioChunk>)
    requires i < |jobs| && jobs[i].path !in files && reply(jobs[i].request).Audio?
    ensures Prepend(s, c, Run(reply, jobs, i, files))
         == Prepend(s + [i], c + [RecordOf(jobs[i], false)], Run(reply, jobs, i + 1, FilesAfter(reply, jobs, i, files)))
  {
    RunMiss(reply, jobs, i, files);
    var rest := Run(reply, jobs, i + 1, FilesAfter(reply, jobs, i, files));
    AppendAssoc(c, RecordOf(jobs[i], false), rest.chunks);
    AppendAssoc(s, i, rest.synthesised);
  }

  lemma StepFail(reply: SpeechRequest -> SpeechReply, jobs: seq<Job>, i: nat, files: map<string, seq<Byte>>,
                 s: seq<nat>, c: seq<AudioChunk>)
    requires i < |jobs| && jobs[i].path !in files && reply(jobs[i].request).ApiError?
    ensures Prepend(s, c, Run(reply, jobs, i, files))
         == Trace(files, s + [i], c, Some(Failure(i, reply(jobs[i].request).message)))
  {
    RunFail(reply, jobs, i, files);
    assert c + [] == c;
  }

  lemma StepEnd(reply: SpeechRequest -> SpeechReply, jobs: seq<Job>, files: map<string, seq<Byte>>,
                s: seq<nat>, c: seq<AudioChunk>)
    ensures Prepend(s, c, Run(reply, jobs, |jobs|, files)) == Trace(files, s, c, None)
  {
    assert s + [] == s && c + [] == c;
  }

  /** The body of one iteration of the loop: look for the chunk's file,
      otherwise call the speech service and write the audio it returns.
      `failure` holds the service's error message when the call failed. */
  method ProcessJob(job: Job, store: FileStore, client: SpeechClient) returns (fileExists: bool, failure: Option<string>)
    modifies store, client
    ensures fileExists <==> job.path in old(store.files)
    ensures fileExists ==> failure == None && store.files == old(store.files) && client.requests == old(client.requests)
    ensures !fileExists ==> client.requests == old(client.requests) + [job.request]
    ensures !fileExists && client.reply(job.request).ApiError? ==>
              failure == Some(client.reply(job.request).message) && store.files == old(store.files)
    ensures !fileExists && client.reply(job.request).Audio? ==>
              failure == None && store.files == old(store.files)[job.path := client.reply(job.request).bytes]
  {
    fileExists := store.Exists(job.path);
    failure := None;
    if !fileExists {
      var reply := client.Create(job.request.input, job.request.voice, job.request.model);
      match reply
      case ApiError(msg) =>
        failure := Some(msg);
      case Audio(bytes) =>
        store.Write(job.path, bytes);
    }
  }

  /** The loop of `generate_audio` over the split chunks, and the result it
      resolves with (`totalLength` is the length of the unsplit text). */
  method GenerateChunks(textChunks: seq<string>, totalLength: nat, cfg: Config, sha256: string -> string,
                        store: FileStore, client: SpeechClient) returns (out: Outcome)
    modifies store, client
    ensures var jobs := Jobs(cfg, sha256, textChunks);
      var t := Run(client.reply, jobs, 0, old(store.files));
      && store.files == t.files
      && client.requests == old(client.requests) + RequestsFor(jobs, t.synthesised)
      && out == (if t.failure.Some? then Failed(FailureMessage(t.failure.value))
                 else Generated(GenerateAudioResult(t.chunks, |textChunks|, totalLength)))
  {
    ghost var jobs := Jobs(cfg, sha256, textChunks);
    var chunks: seq<AudioChunk> := [];
    ghost var synthesised: seq<nat> := [];
    ghost var t0 := Run(client.reply, jobs, 0, store.files);
    ghost var requests0 := client.requests;
    assert t0 == Prepend([], [], t0);

    for i := 0 to |textChunks|
      invariant t0 == Prepend(synthesised, chunks, Run(client.reply, jobs, i, store.files))
      invariant client.requests == requests0 + RequestsFor(jobs, synthesised)
    {
      ghost var n: nat := i;
      var job := JobOf(cfg, sha256, textChunks, i);
      assert job == jobs[i];
      ghost var files := store.files;
      if job.path in files {
        StepHit(client.reply, jobs, i, files, synthesised, chunks);
      } else {
        if client.reply(job.request).Audio? {
          StepMiss(client.reply, jobs, i, files, synthesised, chunks);
        } else {
          StepFail(client.reply, jobs, i, files, synthesised, chunks);
        }
      }
      ghost var before := client.requests;
      var fileExists, failure := ProcessJob(job, store, client);
      if !fileExists {
        RequestsForSnoc(jobs, synthesised, i);
        assert client.requests == before + [jobs[i].request];
        SnocAssoc(requests0, RequestsFor(jobs, synthesised), jobs[i].request);
        synthesised := synthesised + [n];
        assert client.requests == requests0 + RequestsFor(jobs, synthesised);
      }
      if failure.Some? {
        assert t0.synthesised == synthesised;
        out := Failed(FailureMessage(Failure(i, failure.value)));
        return;
      }
      chunks := chunks + [RecordOf(job, fileExists)];
    }
    StepEnd(client.reply, jobs, store.files, synthesised, chunks);
    assert t0.synthesised == synthesised;
    assert client.requests == requests0 + RequestsFor(jobs, t0.synthesised);
    out := Generated(GenerateAudioResult(chunks, |textChunks|, totalLength));
  }

  /** `generate_audio(text, options)`. A chunk size of 0 would make the
      splitter loop forever, so it is excluded. Creating the audio directory
      is not modelled. */
  method GenerateAudio(text: string, options: GenerateAudioOptions, sha256: string -> string,
                       store: FileStore, client: SpeechClient) returns (out: Outcome)
    requires WithDefaults(options).chunkSize >= 1
    modifies store, client
    ensures var cfg := WithDefaults(options);
      var texts := Splitter.Chunks(text, cfg.chunkSize);
      var jobs := Jobs(cfg, sha256, texts);
      var t := Run(client.reply, jobs, 0, old(store.files));
      && store.files == t.files
      && client.requests == old(client.requests) + RequestsFor(jobs, t.synthesised)
      && out == OutcomeOf(t, texts, text)
  {
    var cfg := WithDefaults(options);
    var textChunks := Splitter.SplitTextIntoChunks(text, cfg.chunkSize);
    out := GenerateChunks(textChunks, |text|, cfg, sha256, store, client);
  }

  /** The records are the jobs' records in order, and a run that does not
      fail covers every job. */
  lemma {:induction false} RunChunks(reply: SpeechRequest -> SpeechReply, jobs: seq<Job>, i: nat,
                                     files: map<string, seq<Byte>>)
    requires i <= |jobs|
    ensures var t := Run(reply, jobs, i, files);
      && i + |t.chunks| <= |jobs|
      && StopOf(t, |jobs|) == i + |t.chunks|
      && forall k :: 0 <= k < |t.chunks| ==> t.chunks[k] == RecordOf(jobs[i + k], t.chunks[k].fileExists)
    decreases |jobs| - i
  {
    if i < |jobs| {
      var t := Run(reply, jobs, i, files);
      var p := jobs[i].path;
      if p in files || reply(jobs[i].request).Audio? {
        var files' := if p in files then files else FilesAfter(reply, jobs, i, files);
        if p in files {
          RunHit(reply, jobs, i, files);
        } else {
          RunMiss(reply, jobs, i, files);
        }
        var rest := Run(reply, jobs, i + 1, files');
        RunChunks(reply, jobs, i + 1, files');
        assert t.chunks == [t.chunks[0]] + rest.chunks && t.failure == rest.failure;
        forall k | 1 <= k < |t.chunks|
          ensures t.chunks[k] == RecordOf(jobs[i + k], t.chunks[k].fileExists)
        {
          assert t.chunks[k] == rest.chunks[k - 1];
        }
      } else {
        RunFail(reply, jobs, i, files);
      }
    }
  }

  /** Files already on disk are never rewritten, whether the run succeeds or fails. */
  lemma {:induction false} RunKeepsFiles(reply: SpeechRequest -> SpeechReply, jobs: seq<Job>, i: nat,
                                         files: map<string, seq<Byte>>)
    ensures forall p :: p in files ==> (p in Run(reply, jobs, i, files).files && Run(reply, jobs, i, files).files[p] == files[p])
    decreases |jobs| - i
  {
    if i < |jobs| {
      if jobs[i].path in files {
        RunHit(reply, jobs, i, files);
        RunKeepsFiles(reply, jobs, i + 1, files);
      } else if reply(jobs[i].request).Audio? {
        RunMiss(reply, jobs, i, files);
        RunKeepsFiles(reply, jobs, i + 1, FilesAfter(reply, jobs, i, files));
      } else {
        RunFail(reply, jobs, i, files);
      }
    }
  }

  /** After a run, the path of every job before the failing one (every job,
      if none failed) exists; the failing job's path does not. */
  lemma {:induction false} RunWritesPaths(reply: SpeechRequest -> SpeechReply, jobs: seq<Job>, i: nat,
                                          files: map<string, seq<Byte>>)
    requires i <= |jobs|
    ensures i <= StopOf(Run(reply, jobs, i, files), |jobs|) <= |jobs|
    ensures forall k :: i <= k < StopOf(Run(reply, jobs, i, files), |jobs|) ==> jobs[k].path in Run(reply, jobs, i, files).files
    ensures Run(reply, jobs, i, files).failure.Some? ==>
              && StopOf(Run(reply, jobs, i, files), |jobs|) < |jobs|
              && jobs[StopOf(Run(reply, jobs, i, files), |jobs|)].path !in Run(reply, jobs, i, files).files
    decreases |jobs| - i
  {
    if i < |jobs| {
      var t := Run(reply, jobs, i, files);
      var p := jobs[i].path;
      if p in files || reply(jobs[i].request).Audio? {
        var files' := if p in files then files else FilesAfter(reply, jobs, i, files);
        if p in files {
          RunHit(reply, jobs, i, files);
        } else {
          RunMiss(reply, jobs, i, files);
        }
        assert p in files';
        var rest := Run(reply, jobs, i + 1, files');
        RunWritesPaths(reply, jobs, i + 1, files');
        RunKeepsFiles(reply, jobs, i + 1, files');
        assert t.files == rest.files && t.failure == rest.failure;
        assert p in t.files;
      } else {
        RunFail(reply, jobs, i, files);
      }
    }
  }

  /** The failure of a run names a job from `i` on whose path was absent at
      the start, carries that job's error message, and is the last call. */
  lemma {:induction false} RunFailureNamesCall(reply: SpeechRequest -> SpeechReply, jobs: seq<Job>, i: nat,
                                               files: map<string, seq<Byte>>)
    requires i <= |jobs|
    ensures var t := Run(reply, jobs, i, files);
      t.failure.Some? ==>
        var f := t.failure.value.chunkIndex;
        && i <= f < |jobs|
        && jobs[f].path !in files
        && reply(jobs[f].request) == ApiError(t.failure.value.apiMessage)
        && |t.synthesised| > 0 && t.synthesised[|t.synthesised| - 1] == f
    decreases |jobs| - i
  {
    if i < |jobs| {
      if jobs[i].path in files {
        RunHit(reply, jobs, i, files);
        RunFailureNamesCall(reply, jobs, i + 1, files);
      } else if reply(jobs[i].request).Audio? {
        var files' := FilesAfter(reply, jobs, i, files);
        RunMiss(reply, jobs, i, files);
        RunFailureNamesCall(reply, jobs, i + 1, files');
      } else {
        RunFail(reply, jobs, i, files);
      }
    }
  }

  /** A run without a failure leaves the path of every job from `i` on on disk. */
  lemma {:induction false} RunCompleteWritesAll(reply: SpeechRequest -> SpeechReply, jobs: seq<Job>, i: nat,
                                                files: map<string, seq<Byte>>)
    requires i <= |jobs|
    ensures var t := Run(reply, jobs, i, files);
      t.failure.None? ==> forall k :: i <= k < |jobs| ==> jobs[k].path in t.files
    decreases |jobs| - i
  {
    if i < |jobs| {
      var files' := if jobs[i].path in files then files
        else if reply(jobs[i].request).Audio? then FilesAfter(reply, jobs, i, files) else files;
      if jobs[i].path in files {
        RunHit(reply, jobs, i, files);
      } else if reply(jobs[i].request).Audio? {
        RunMiss(reply, jobs, i, files);
      } else {
        RunFail(reply, jobs, i, files);
        return;
      }
      RunCompleteWritesAll(reply, jobs, i + 1, files');
      RunKeepsFiles(reply, jobs, i + 1, files');
    }
  }

  /** A run fails only because of a synthesis error: the failure names a
      job from `i` on whose path was absent at the start, carries that job's
      error message, and is the last call the run made; the files already
      on disk keep their bytes. A run without a failure leaves every job's
      path from `i` on on disk. */
  lemma RunFailureCause(reply: SpeechRequest -> SpeechReply, jobs: seq<Job>, i: nat,
                        files: map<string, seq<Byte>>)
    requires i <= |jobs|
    ensures var t := Run(reply, jobs, i, files);
      t.failure.Some? ==>
        var f := t.failure.value.chunkIndex;
        && i <= f < |jobs|
        && jobs[f].path !in files
        && reply(jobs[f].request) == ApiError(t.failure.value.apiMessage)
        && |t.synthesised| > 0 && t.synthesised[|t.synthesised| - 1] == f
    ensures var t := Run(reply, jobs, i, files);
      t.failure.None? ==> forall k :: i <= k < |jobs| ==> jobs[k].path in t.files
    ensures var t := Run(reply, jobs, i, files);
      forall p :: p in files ==> p in t.files && t.files[p] == files[p]
  {
    RunFailureNamesCall(reply, jobs, i, files);
    RunCompleteWritesAll(reply, jobs, i, files);
    RunKeepsFiles(reply, jobs, i, files);
  }

  /** Record `k` of a run from `i` reports an existing file exactly when job
      `i + k` was not synthesised. */
  predicate HitsMatch(i: nat, chunks: seq<AudioChunk>, synthesised: seq<nat>)
  {
    forall k :: 0 <= k < |chunks| ==> (chunks[k].fileExists <==> i + k !in synthesised)
  }

  lemma HitsMatchCons(i: nat, c: AudioChunk, head: seq<nat>, chunks: seq<AudioChunk>, synthesised: seq<nat>)
    requires HitsMatch(i + 1, chunks, synthesised)
    requires forall k :: 0 <= k < |synthesised| ==> i < synthesised[k]
    requires head == (if c.fileExists then [] else [i])
    ensures HitsMatch(i, [c] + chunks, head + synthesised)
  {
    var cs, ss := [c] + chunks, head + synthesised;
    forall k | 0 <= k < |cs|
      ensures cs[k].fileExists <==> i + k !in ss
    {
      if k == 0 {
        assert i !in synthesised;
      } else {
        assert cs[k] == chunks[k - 1];
        assert i + k in ss <==> i + k in synthesised;
      }
    }
  }

  /** `fileExists` is false exactly for the chunks that were synthesised. */
  lemma {:induction false} RunCacheHits(reply: SpeechRequest -> SpeechReply, jobs: seq<Job>, i: nat,
                                        files: map<string, seq<Byte>>)
    requires i <= |jobs|
    ensures HitsMatch(i, Run(reply, jobs, i, files).chunks, Run(reply, jobs, i, files).synthesised)
    decreases |jobs| - i
  {
    if i < |jobs| {
      var p := jobs[i].path;
      if p in files || reply(jobs[i].request).Audio? {
        var files' := if p in files then files else FilesAfter(reply, jobs, i, files);
        if p in files {
          RunHit(reply, jobs, i, files);
        } else {
          RunMiss(reply, jobs, i, files);
        }
        var rest := Run(reply, jobs, i + 1, files');
        RunCacheHits(reply, jobs, i + 1, files');
        HitsMatchCons(i, RecordOf(jobs[i], p in files), if p in files then [] else [i], rest.chunks, rest.synthesised);
      } else {
        RunFail(reply, jobs, i, files);
      }
    }
  }

  /** The speech service is only called for a job whose path was not on disk
      when the run began. */
  lemma {:induction false} RunSynthesisesAbsent(reply: SpeechRequest -> SpeechReply, jobs: seq<Job>, i: nat,
                                                files: map<string, seq<Byte>>)
    requires i <= |jobs|
    ensures forall k :: k in Run(reply, jobs, i, files).synthesised ==> k < |jobs| && jobs[k].path !in files
    decreases |jobs| - i
  {
    if i < |jobs| {
      var t := Run(reply, jobs, i, files);
      if jobs[i].path in files {
        RunHit(reply, jobs, i, files);
        RunSynthesisesAbsent(reply, jobs, i + 1, files);
      } else if reply(jobs[i].request).Audio? {
        var files' := FilesAfter(reply, jobs, i, files);
        RunMiss(reply, jobs, i, files);
        var rest := Run(reply, jobs, i + 1, files');
        RunSynthesisesAbsent(reply, jobs, i + 1, files');
        forall k | k in t.synthesised
          ensures k < |jobs| && jobs[k].path !in files
        {
          if k != i {
            assert k in rest.synthesised;
          }
        }
      } else {
        RunFail(reply, jobs, i, files);
      }
    }
  }

  /** When the paths of the jobs from `i` to `stop` are all on disk, none of
      them is synthesised and all are reported as existing. */
  lemma {:induction false} PresentPathsAreSkipped(reply: SpeechRequest -> SpeechReply, jobs: seq<Job>, i: nat,
                                                  stop: nat, files: map<string, seq<Byte>>)
    requires i <= stop <= |jobs|
    requires forall k :: i <= k < stop ==> jobs[k].path in files
    ensures forall k :: k in Run(reply, jobs, i, files).synthesised ==> k >= stop
    ensures StopOf(Run(reply, jobs, i, files), |jobs|) >= stop
    ensures i + |Run(reply, jobs, i, files).chunks| >= stop
    ensures forall k :: 0 <= k < stop - i ==> Run(reply, jobs, i, files).chunks[k].fileExists
    decreases |jobs| - i
  {
    RunChunks(reply, jobs, i, files);
    if i < stop {
      RunHit(reply, jobs, i, files);
      PresentPathsAreSkipped(reply, jobs, i + 1, stop, files);
      var t := Run(reply, jobs, i, files);
      var rest := Run(reply, jobs, i + 1, files);
      forall k | 0 <= k < stop - i
        ensures t.chunks[k].fileExists
      {
        if k > 0 {
          assert t.chunks[k] == rest.chunks[k - 1];
        }
      }
    }
  }

  /** A run over a disk that holds every job's path synthesises nothing,
      writes nothing, and succeeds. */
  lemma {:induction false} AllPresentIsNoOp(reply: SpeechRequest -> SpeechReply, jobs: seq<Job>, i: nat,
                                            files: map<string, seq<Byte>>)
    requires i <= |jobs|
    requires forall k :: i <= k < |jobs| ==> jobs[k].path in files
    ensures var t := Run(reply, jobs, i, files);
      t.synthesised == [] && t.files == files && t.failure == None
    decreases |jobs| - i
  {
    if i < |jobs| {
      RunHit(reply, jobs, i, files);
      AllPresentIsNoOp(reply, jobs, i + 1, files);
    }
  }

  /** The records `generate_audio` reports: on success, one per split chunk,
      chunk `k` carrying index `k`, the `k`-th split text, the key of
      (text, voice, model, k) and the path of that key. */
  lemma GeneratedRecords(cfg: Config, sha256: string -> string, reply: SpeechRequest -> SpeechReply,
                         texts: seq<string>, files: map<string, seq<Byte>>)
    requires Run(reply, Jobs(cfg, sha256, texts), 0, files).failure == None
    ensures var cs := Run(reply, Jobs(cfg, sha256, texts), 0, files).chunks;
      && |cs| == |texts|
      && forall k :: 0 <= k < |cs| ==>
           && cs[k].chunkIndex == k
           && cs[k].text == texts[k]
           && cs[k].hash == ChunkHash(sha256, texts[k], cfg.voice, cfg.model, k)
           && cs[k].audioPath == AudioPath(cfg.audioDir, cs[k].hash)
  {
    var jobs := Jobs(cfg, sha256, texts);
    RunChunks(reply, jobs, 0, files);
    var cs := Run(reply, jobs, 0, files).chunks;
    forall k | 0 <= k < |cs|
      ensures cs[k] == RecordOf(JobOf(cfg, sha256, texts, k), cs[k].fileExists)
    {
      assert jobs[k] == JobOf(cfg, sha256, texts, k);
    }
  }

  /** Running the generation twice with the same inputs: the second run makes
      no speech call (whatever the service would answer now), leaves the
      disk as it is, and reports every chunk with `fileExists` true and the
      same key and path as the first run. */
  lemma SecondRunIsCached(reply1: SpeechRequest -> SpeechReply, reply2: SpeechRequest -> SpeechReply,
                          jobs: seq<Job>, files: map<string, seq<Byte>>)
    requires Run(reply1, jobs, 0, files).failure == None
    ensures var t1 := Run(reply1, jobs, 0, files);
      var t2 := Run(reply2, jobs, 0, t1.files);
      && t2.synthesised == [] && t2.files == t1.files && t2.failure == None
      && |t2.chunks| == |t1.chunks| == |jobs|
      && forall k :: 0 <= k < |jobs| ==> t2.chunks[k] == t1.chunks[k].(fileExists := true)
  {
    var t1 := Run(reply1, jobs, 0, files);
    RunWritesPaths(reply1, jobs, 0, files);
    AllPresentIsNoOp(reply2, jobs, 0, t1.files);
    RunChunks(reply1, jobs, 0, files);
    RunChunks(reply2, jobs, 0, t1.files);
    RunCacheHits(reply2, jobs, 0, t1.files);
  }

  /** Resuming after a failure at chunk `f`: the chunks before `f` are all
      cache hits, so the service is only called again from `f` on. */
  lemma ResumeAfterFailure(reply1: SpeechRequest -> SpeechReply, reply2: SpeechRequest -> SpeechReply,
                           jobs: seq<Job>, files: map<string, seq<Byte>>)
    requires Run(reply1, jobs, 0, files).failure.Some?
    ensures var t1 := Run(reply1, jobs, 0, files);
      var f := t1.failure.value.chunkIndex;
      var t2 := Run(reply2, jobs, 0, t1.files);
      && f < |jobs| && f <= |t2.chunks|
      && (forall k :: k in t2.synthesised ==> k >= f)
      && (forall k :: 0 <= k < f ==> t2.chunks[k].fileExists)
  {
    var t1 := Run(reply1, jobs, 0, files);
    RunWritesPaths(reply1, jobs, 0, files);
    PresentPathsAreSkipped(reply2, jobs, 0, t1.failure.value.chunkIndex, t1.files);
  }
}
