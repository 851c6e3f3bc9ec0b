/** The external collaborators the generation code talks to, modelled as
    state: the file system as a map from path to bytes, the hosted speech
    service as a client that logs every request and answers with a fixed
    (but arbitrary) function of the request, and the document row whose
    status and progress columns the pipeline writes. */
module Storage {
  import opened Base

  datatype Voice = Alloy | Echo | Fable | Onyx | Nova | Shimmer
  datatype TtsModel = Tts1 | Tts1Hd | Gpt4oMiniTts

  /** The name the speech service and the hash input use for a voice. */
  function VoiceName(v: Voice): string
  {
    match v
    case Alloy => "alloy"
    case Echo => "echo"
    case Fable => "fable"
    case Onyx => "onyx"
    case Nova => "nova"
    case Shimmer => "shimmer"
  }

  function ModelName(m: TtsModel): string
  {
    match m
    case Tts1 => "tts-1"
    case Tts1Hd => "tts-1-hd"
    case Gpt4oMiniTts => "gpt-4o-mini-tts"
  }

  /** What the speech service returns for one request: audio, or a thrown error's message. */
  datatype SpeechReply = Audio(bytes: seq<Byte>) | ApiError(message: string)

  datatype SpeechRequest = SpeechRequest(input: string, voice: Voice, model: TtsModel)

  /** The speech-synthesis client. `reply` stands for the remote service;
      `requests` counts and records every call that was made. */
  class SpeechClient {
    const reply: SpeechRequest -> SpeechReply
    var requests: seq<SpeechRequest>

    constructor (reply: SpeechRequest -> SpeechReply)
      ensures this.reply == reply && requests == []
    {
      this.reply := reply;
      requests := [];
    }

    method Create(input: string, voice: Voice, model: TtsModel) returns (r: SpeechReply)
      modifies this
      ensures requests == old(requests) + [SpeechRequest(input, voice, model)]
      ensures r == reply(SpeechRequest(input, voice, model))
    {
      requests := requests + [SpeechRequest(input, voice, model)];
      r := reply(SpeechRequest(input, voice, model));
    }
  }

  /** The audio directory on disk. */
  class FileStore {
    var files: map<string, seq<Byte>>

    constructor (initial: map<string, seq<Byte>>)
      ensures files == initial
    {
      files := initial;
    }

    /** `existsSync(path)`. */
    method Exists(path: string) returns (b: bool)
      ensures b <==> path in files
    {
      b := path in files;
    }

    /** `Bun.write(path, data)`: the whole file at once. */
    method Write(path: string, data: seq<Byte>)
      modifies this
      ensures files == old(files)[path := data]
    {
      files := files[path := data];
    }

    /** `fs.createWriteStream(path)`: creates (or truncates) the file. */
    method Truncate(path: string)
      modifies this
      ensures files == old(files)[path := []]
    {
      files := files[path := []];
    }

    /** `stream.write(part)` on a stream opened on `path`. */
    method Append(path: string, data: seq<Byte>)
      requires path in files
      modifies this
      ensures files == old(files)[path := old(files)[path] + data]
    {
      files := files[path := files[path] + data];
    }
  }

  /** The `status` column of a content row. */
  datatype ContentStatus = Pending | Processing | Completed | Error

  /** One write the generation code makes to a content row. */
  datatype RowWrite = SetStatus(status: ContentStatus) | SetChunksGenerated(count: nat)

  /** A content row: its current columns and the log of writes made to it. */
  class ContentRow {
    var status: ContentStatus
    var chunksGenerated: nat
    var writes: seq<RowWrite>

    /** A freshly inserted row (`status DEFAULT 'pending'`, progress 0). */
    constructor ()
      ensures status == Pending && chunksGenerated == 0 && writes == []
    {
      status := Pending;
      chunksGenerated := 0;
      writes := [];
    }

    /** `updateContentStatus(id, s)`. */
    method UpdateStatus(s: ContentStatus)
      modifies this
      ensures status == s && chunksGenerated == old(chunksGenerated)
      ensures writes == old(writes) + [SetStatus(s)]
    {
      status := s;
      writes := writes + [SetStatus(s)];
    }

    /** `updateChunksGenerated(id, n)`: the per-chunk progress write. */
    method UpdateChunksGenerated(n: nat)
      modifies this
      ensures status == old(status) && chunksGenerated == n
      ensures writes == old(writes) + [SetChunksGenerated(n)]
    {
      chunksGenerated := n;
      writes := writes + [SetChunksGenerated(n)];
    }
  }
}
