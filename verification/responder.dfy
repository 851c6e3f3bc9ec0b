/** The `/api/stream` handler of server.js: a byte-range responder for a
    finished audio file, and a live stream that follows a file while it is
    still being generated. The header value, the file and the snapshots the
    live loop observes are parameters; the route dispatch, the database
    lookup and the timers are not part of this model. */
module Responder {
  import opened Base
  import opened Storage

  // ---------------------------------------------------------------------
  // The pattern /bytes=(\d+)-(\d*)/ (not anchored)

  /** The end of the run of decimal digits that starts at `i`. */
  function DigitsEnd(s: string, i: nat): (j: nat)
    requires i <= |s|
    ensures i <= j <= |s|
    ensures forall k :: i <= k < j ==> IsDigit(s[k])
    ensures j == |s| || !IsDigit(s[j])
    decreases |s| - i
  {
    if i < |s| && IsDigit(s[i]) then DigitsEnd(s, i + 1) else i
  }

  /** Any index with the two properties of `DigitsEnd` is `DigitsEnd`. */
  lemma DigitsEndUnique(s: string, i: nat, j: nat)
    requires i <= j <= |s|
    requires forall k :: i <= k < j ==> IsDigit(s[k])
    requires j == |s| || !IsDigit(s[j])
    ensures DigitsEnd(s, i) == j
  {
  }

  /** The pattern matches at index `p`: "bytes=", one or more digits, then
      a '-'. The greedy `\d+` can only stop where the digits stop, since the
      '-' must follow. */
  predicate MatchAt(s: string, p: nat)
  {
    && p + 6 <= |s| && s[p..p + 6] == "bytes="
    && var d := DigitsEnd(s, p + 6);
      p + 6 < d < |s| && s[d] == '-'
  }

  /** The leftmost index at or after `p` where the pattern matches. */
  function FirstMatch(s: string, p: nat): (r: Option<nat>)
    ensures r.Some? ==> p <= r.value && MatchAt(s, r.value)
    ensures forall q :: p <= q && (r.None? || q < r.value) ==> !MatchAt(s, q)
    decreases |s| - p
  {
    if p + 6 > |s| then None
    else if MatchAt(s, p) then Some(p)
    else FirstMatch(s, p + 1)
  }

  /** The two capture groups, read as numbers: `matches[2]` is falsy (no
      last byte) when it is the empty string. */
  datatype RangeSpec = RangeSpec(first: nat, last: Option<nat>)

  /** `rangeHeader.match(/bytes=(\d+)-(\d*)/)`, with `Number` applied to the groups. */
  function ParseRange(h: string): Option<RangeSpec>
  {
    match FirstMatch(h, 0)
    case None => None
    case Some(p) =>
      var d := DigitsEnd(h, p + 6);
      var e := DigitsEnd(h, d + 1);
      Some(RangeSpec(ParseDecimal(h[p + 6..d]), if e == d + 1 then None else Some(ParseDecimal(h[d + 1..e]))))
  }

  /** The header a client sends for a range. */
  function RangeHeader(r: RangeSpec): string
  {
    "bytes=" + DecimalString(r.first) + "-" + (if r.last.Some? then DecimalString(r.last.value) else "")
  }

  /** Where the pieces of `"bytes=" + a + "-" + b` sit. */
  lemma HeaderSlices(a: string, b: string)
    ensures var h := "bytes=" + a + "-" + b;
      var d := 6 + |a|;
      && |h| == d + 1 + |b|
      && h[0..6] == "bytes=" && h[6..d] == a && h[d] == '-' && h[d + 1..|h|] == b
  {
    var h := "bytes=" + a + "-" + b;
    assert h == ("bytes=" + a) + ("-" + b);
  }

  /** The pattern matches `"bytes=" + a + "-" + b` at its start, with the
      digit runs ending where `a` and `b` end. */
  lemma HeaderMatch(a: string, b: string)
    requires 1 <= |a| && AllDigits(a) && AllDigits(b)
    ensures var h := "bytes=" + a + "-" + b;
      var d := 6 + |a|;
      && DigitsEnd(h, 6) == d && DigitsEnd(h, d + 1) == |h|
      && FirstMatch(h, 0) == Some(0)
  {
    var h := "bytes=" + a + "-" + b;
    var d := 6 + |a|;
    HeaderSlices(a, b);
    assert forall k :: 6 <= k < d ==> h[k] == a[k - 6];
    assert forall k :: d + 1 <= k < |h| ==> h[k] == b[k - d - 1];
    DigitsEndUnique(h, 6, d);
    DigitsEndUnique(h, d + 1, |h|);
    assert MatchAt(h, 0);
  }

  /** Matching `"bytes=" + a + "-" + b` captures `a` and `b`. */
  lemma ParseParts(a: string, b: string)
    requires 1 <= |a| && AllDigits(a) && AllDigits(b)
    ensures ParseRange("bytes=" + a + "-" + b)
              == Some(RangeSpec(ParseDecimal(a), if b == "" then None else Some(ParseDecimal(b))))
  {
    HeaderSlices(a, b);
    HeaderMatch(a, b);
  }

  /** Parsing the header a client would send for a range gives that range back. */
  lemma ParseRangeHeader(r: RangeSpec)
    ensures ParseRange(RangeHeader(r)) == Some(r)
  {
    var a := DecimalString(r.first);
    var b := if r.last.Some? then DecimalString(r.last.value) else "";
    DecimalStringDigits(r.first);
    ParseDecimalString(r.first);
    if r.last.Some? {
      DecimalStringDigits(r.last.value);
      ParseDecimalString(r.last.value);
    }
    ParseParts(a, b);
  }

  // ---------------------------------------------------------------------
  // Responses

  /** The response headers the handler sets. */
  datatype HeaderName = ContentType | ContentLength | ContentRange | AcceptRanges | CacheControl | Connection
  {
    /** The name as written on the wire. */
    function Wire(): string
    {
      match this
      case ContentType => "Content-Type"
      case ContentLength => "Content-Length"
      case ContentRange => "Content-Range"
      case AcceptRanges => "Accept-Ranges"
      case CacheControl => "Cache-Control"
      case Connection => "Connection"
    }
  }

  /** A header value in the form the handler builds it: a fixed text, a
      number turned to text with `toString()`, or a `Content-Range` built
      from a template. `Wire` is the text that is sent. */
  datatype HeaderValue =
    | Literal(text: string)
    | Number(n: int)
    | ByteRange(first: int, last: int, size: nat)
    | UnsatisfiedRange(size: nat)
  {
    function Wire(): string
    {
      match this
      case Literal(text) => text
      case Number(n) => IntToString(n)
      case ByteRange(first, last, size) =>
        "bytes " + IntToString(first) + "-" + IntToString(last) + "/" + DecimalString(size)
      case UnsatisfiedRange(size) => "bytes */" + DecimalString(size)
    }
  }

  datatype Response = Response(status: nat, headers: map<HeaderName, HeaderValue>, body: seq<Byte>)

  /** `arrayBuffer.slice(a, b)`: negative bounds count from the end, bounds
      are clamped to the length, and a reversed pair gives an empty piece. */
  function ArraySlice(data: seq<Byte>, a: int, b: int): (r: seq<Byte>)
    ensures |r| <= |data|
  {
    var first := if a < 0 then Max(|data| + a, 0) else Min(a, |data|);
    var final := if b < 0 then Max(|data| + b, 0) else Min(b, |data|);
    if final <= first then [] else data[first..final]
  }

  /** `if (rangeHeader)`: the header is present and not the empty string. */
  predicate HasRange(header: Option<string>)
  {
    header.Some? && header.value != ""
  }

  /** The range the request asks for, if the header is present and matches. */
  function RequestedRange(header: Option<string>): Option<RangeSpec>
  {
    if HasRange(header) then ParseRange(header.value) else None
  }

  /** `start` after the header is read. */
  function RangeStart(spec: Option<RangeSpec>): nat
  {
    if spec.Some? then spec.value.first else 0
  }

  /** `end` after the header is read and clamped to the last byte. */
  function RangeEnd(spec: Option<RangeSpec>, size: nat): int
  {
    var end := if spec.Some? && spec.value.last.Some? then spec.value.last.value else size - 1;
    Min(end, size - 1)
  }

  /** The headers of a ranged reply for `start..end` of a file of `size` bytes. */
  function RangeHeaders(start: int, end: int, size: nat): map<HeaderName, HeaderValue>
  {
    map[
      ContentType := Literal("audio/mpeg"),
      ContentLength := Number(end - start + 1),
      ContentRange := ByteRange(start, end, size),
      AcceptRanges := Literal("bytes")]
  }

  /** The reply for a finished file, as the handler computes it once the
      header has been read (`ranged` is `if (rangeHeader)`, `spec` the
      match): no check that the range is satisfiable or that
      `start <= end`, and 206 for any present header, matched or not. */
  function ReplyAsWritten(file: seq<Byte>, ranged: bool, spec: Option<RangeSpec>): Response
  {
    var start := RangeStart(spec);
    var end := RangeEnd(spec, |file|);
    Response(if ranged then 206 else 200, RangeHeaders(start, end, |file|), ArraySlice(file, start, end + 1))
  }

  function RangeResponseAsWritten(file: seq<Byte>, header: Option<string>): Response
  {
    ReplyAsWritten(file, HasRange(header), RequestedRange(header))
  }

  /** A requested range that holds no byte of the file: it starts at or past
      the end, or its last byte comes before its first. */
  predicate Unsatisfiable(spec: Option<RangeSpec>, size: nat)
  {
    spec.Some? && RangeEnd(spec, size) < spec.value.first
  }

  /** The reply with the evident intent restored: an unsatisfiable range is
      answered with 416 and `Content-Range: bytes *\/size` (section 15.5.17 of
      RFC 9110) instead of a negative `Content-Length`; every other request
      is answered as before. */
  function Reply(file: seq<Byte>, ranged: bool, spec: Option<RangeSpec>): Response
  {
    if Unsatisfiable(spec, |file|) then Response(416, map[ContentRange := UnsatisfiedRange(|file|)], [])
    else ReplyAsWritten(file, ranged, spec)
  }

  function RangeResponse(file: seq<Byte>, header: Option<string>): Response
  {
    Reply(file, HasRange(header), RequestedRange(header))
  }

  /** What the reply as written carries, for any reading of the header. */
  lemma ReplyFields(file: seq<Byte>, ranged: bool, spec: Option<RangeSpec>)
    ensures var r := ReplyAsWritten(file, ranged, spec);
      var start := RangeStart(spec);
      var end := RangeEnd(spec, |file|);
      && r.status == (if ranged then 206 else 200)
      && r.body == ArraySlice(file, start, end + 1)
      && r.headers[ContentLength] == Number(end - start + 1)
      && r.headers[ContentRange] == ByteRange(start, end, |file|)
      && r.headers[AcceptRanges] == Literal("bytes")
  {
  }

  /** The handler as written announces the true body length exactly when
      the range is not reversed past its own start (`start <= end + 1`;
      the clamped `end + 1` never passes the end of the file). Otherwise
      the body is empty and `Content-Length` is the negative
      `end - start + 1`. */
  lemma ContentLengthAsWritten(file: seq<Byte>, ranged: bool, spec: Option<RangeSpec>)
    ensures var r := ReplyAsWritten(file, ranged, spec);
      var start := RangeStart(spec);
      var end := RangeEnd(spec, |file|);
      && end + 1 <= |file|
      && (r.headers[ContentLength] == Number(|r.body|) <==> start <= end + 1)
      && (start > end + 1 ==> r.body == [] && r.headers[ContentLength] == Number(end - start + 1))
  {
    var r := ReplyAsWritten(file, ranged, spec);
    var start := RangeStart(spec);
    var end := RangeEnd(spec, |file|);
    ReplyFields(file, ranged, spec);
    assert -1 <= end <= |file| - 1;
    if start <= end + 1 {
      SliceWithin(file, start, end);
      assert |r.body| == end + 1 - start;
    } else {
      assert r.body == [];
    }
  }

  /** A slice within the file is the plain slice. */
  lemma SliceWithin(file: seq<Byte>, start: int, end: int)
    requires 0 <= start <= end + 1 <= |file|
    ensures ArraySlice(file, start, end + 1) == file[start..end + 1]
  {
  }

  /** Without a range the whole file is sent. */
  lemma WholeFileReply(file: seq<Byte>, ranged: bool)
    ensures var r := ReplyAsWritten(file, ranged, None);
      && r.body == file
      && r.headers[ContentLength] == Number(|file|)
      && r.headers[AcceptRanges] == Literal("bytes")
  {
    ReplyFields(file, ranged, None);
    SliceWithin(file, 0, |file| - 1);
    assert file[0..|file|] == file;
  }

  /** Without a Range header the whole file is sent with 200, by the
      handler as written and by the corrected one alike. */
  lemma NoRangeWholeFile(file: seq<Byte>)
    ensures RangeResponseAsWritten(file, None) == RangeResponse(file, None)
    ensures var r := RangeResponse(file, None);
      && r.status == 200 && r.body == file
      && r.headers[ContentLength] == Number(|file|)
      && r.headers[AcceptRanges] == Literal("bytes")
  {
    WholeFileReply(file, false);
    RangeResponseCorrection(file, None);
  }

  /** A header that does not match the pattern still gets 206, with the
      whole file, by the handler as written and by the corrected one alike. */
  lemma UnmatchedHeaderWholeFile(file: seq<Byte>, h: string)
    requires h != "" && FirstMatch(h, 0).None?
    ensures RangeResponseAsWritten(file, Some(h)) == RangeResponse(file, Some(h))
    ensures var r := RangeResponse(file, Some(h));
      && r.status == 206 && r.body == file
      && r.headers[ContentLength] == Number(|file|)
  {
    assert RequestedRange(Some(h)) == None;
    RangeResponseCorrection(file, Some(h));
    ReplyFields(file, true, None);
    WholeFileReply(file, true);
  }

  /** The replies to a present header that parses to `spec`. */
  lemma ParsedReply(file: seq<Byte>, h: string, spec: RangeSpec)
    requires h != "" && ParseRange(h) == Some(spec)
    ensures RangeResponseAsWritten(file, Some(h)) == ReplyAsWritten(file, true, Some(spec))
    ensures RangeResponse(file, Some(h)) == Reply(file, true, Some(spec))
  {
    assert RequestedRange(Some(h)) == Some(spec);
  }

  /** A range holding at least one byte is answered with exactly those bytes. */
  lemma SatisfiedReply(file: seq<Byte>, ranged: bool, r: RangeSpec)
    requires !Unsatisfiable(Some(r), |file|)
    ensures var resp := ReplyAsWritten(file, ranged, Some(r));
      var end := RangeEnd(Some(r), |file|);
      && 0 <= r.first <= end < |file|
      && resp.body == file[r.first..end + 1]
      && resp.headers[ContentLength] == Number(|resp.body|)
      && resp.headers[ContentRange] == ByteRange(r.first, end, |file|)
  {
    var end := RangeEnd(Some(r), |file|);
    ReplyFields(file, ranged, Some(r));
    SliceWithin(file, r.first, end);
  }

  /** A satisfiable range is served with 206: the body is the bytes from the
      first position to the last (clamped to the end of the file), and the
      length and range headers describe exactly that body. The handler as
      written gives the same reply. */
  lemma SatisfiableRange(file: seq<Byte>, r: RangeSpec)
    requires r.first < |file| && (r.last.Some? ==> r.first <= r.last.value)
    ensures RangeResponseAsWritten(file, Some(RangeHeader(r))) == RangeResponse(file, Some(RangeHeader(r)))
    ensures var resp := RangeResponse(file, Some(RangeHeader(r)));
      var last := if r.last.Some? then Min(r.last.value, |file| - 1) else |file| - 1;
      && resp.status == 206
      && resp.body == file[r.first..last + 1]
      && resp.headers[ContentLength] == Number(|resp.body|)
      && resp.headers[ContentRange] == ByteRange(r.first, last, |file|)
  {
    var h := RangeHeader(r);
    ParseExample(r.first, r.last, h);
    ParsedReply(file, h, r);
    assert !Unsatisfiable(Some(r), |file|);
    SatisfiedReply(file, true, r);
    RangeResponseCorrection(file, Some(h));
  }

  /** A number that is not negative goes on the wire as its decimal digits. */
  lemma NumberWire(n: nat)
    ensures Number(n).Wire() == DecimalString(n)
  {
  }

  /** For every reading of the header the corrected reply is either 416 or
      carries a `Content-Length` equal to the length of its body, which goes
      on the wire as the decimal digits of that length. */
  lemma ContentLengthMatchesBody(file: seq<Byte>, ranged: bool, spec: Option<RangeSpec>)
    ensures var r := Reply(file, ranged, spec);
      r.status == 416 || r.headers[ContentLength].Wire() == DecimalString(|r.body|)
  {
    if !Unsatisfiable(spec, |file|) {
      var r := Reply(file, ranged, spec);
      assert r == ReplyAsWritten(file, ranged, spec);
      if spec.None? {
        WholeFileReply(file, ranged);
      } else {
        SatisfiedReply(file, ranged, spec.value);
      }
      NumberWire(|r.body|);
    }
  }

  /** The corrected reply is 416 exactly for an unsatisfiable range, and
      agrees with the handler as written on every other request. */
  lemma RangeResponseCorrection(file: seq<Byte>, header: Option<string>)
    ensures RangeResponse(file, header).status == 416 <==> Unsatisfiable(RequestedRange(header), |file|)
    ensures !Unsatisfiable(RequestedRange(header), |file|) ==>
              RangeResponse(file, header) == RangeResponseAsWritten(file, header)
  {
    ReplyFields(file, HasRange(header), RequestedRange(header));
  }

  /** An unsatisfiable range gets 416, no body, no `Content-Length`, and the
      size of the file in `Content-Range`. */
  lemma UnsatisfiableReply(file: seq<Byte>, ranged: bool, spec: Option<RangeSpec>)
    requires Unsatisfiable(spec, |file|)
    ensures var r := Reply(file, ranged, spec);
      && r.status == 416 && r.body == []
      && ContentLength !in r.headers
      && r.headers[ContentRange] == UnsatisfiedRange(|file|)
  {
  }

  /** The header a client sends for `first..last`, parsed. */
  lemma ParseExample(first: nat, last: Option<nat>, h: string)
    requires h == RangeHeader(RangeSpec(first, last))
    ensures h != "" && ParseRange(h) == Some(RangeSpec(first, last))
  {
    ParseRangeHeader(RangeSpec(first, last));
  }

  // Proof helpers of the concrete examples below (HundredBytes,
  // ReversedRangeAsWritten, PastEndAsWritten, PastEndRefused): each one
  // renders fixed literals, so that the example proofs stay small. They
  // state nothing about the handler themselves.
  lemma Decimal100() ensures DecimalString(100) == "100" {}
  lemma Decimal199() ensures DecimalString(199) == "199" {}
  lemma Decimal399() ensures DecimalString(399) == "399" {}
  lemma Decimal500() ensures DecimalString(500) == "500" {}
  lemma Decimal1000() ensures DecimalString(1000) == "1000" {}
  lemma Decimal2000() ensures DecimalString(2000) == "2000" {}

  lemma HundredText()
    ensures RangeHeader(RangeSpec(100, Some(199))) == "bytes=100-199"
    ensures Number(100).Wire() == "100"
  {
    Decimal100();
    Decimal199();
  }

  lemma HundredRangeText()
    ensures ByteRange(100, 199, 1000).Wire() == "bytes 100-199/1000"
  {
    Decimal100();
    Decimal199();
    Decimal1000();
  }

  lemma ReversedText()
    ensures RangeHeader(RangeSpec(500, Some(100))) == "bytes=500-100"
    ensures Number(-399).Wire() == "-399"
  {
    Decimal500();
    Decimal100();
    Decimal399();
  }

  lemma PastEndText()
    ensures RangeHeader(RangeSpec(2000, None)) == "bytes=2000-"
    ensures Number(-1000).Wire() == "-1000"
  {
    Decimal2000();
    Decimal1000();
  }

  lemma UnsatisfiedText()
    ensures UnsatisfiedRange(1000).Wire() == "bytes */1000"
  {
    Decimal1000();
  }

  /** `bytes=100-199` on a 1000-byte file: 206, 100 bytes, as written and
      corrected alike. */
  lemma HundredBytes(file: seq<Byte>)
    requires |file| == 1000
    ensures RangeResponseAsWritten(file, Some("bytes=100-199")) == RangeResponse(file, Some("bytes=100-199"))
    ensures var r := RangeResponse(file, Some("bytes=100-199"));
      && r.status == 206 && r.body == file[100..200]
      && r.headers[ContentLength].Wire() == "100"
      && r.headers[ContentRange].Wire() == "bytes 100-199/1000"
  {
    var spec := RangeSpec(100, Some(199));
    HundredText();
    HundredRangeText();
    SatisfiableRange(file, spec);
  }

  /** As written, `bytes=500-100` on a 1000-byte file announces a
      `Content-Length` of -399 for an empty body. */
  lemma ReversedRangeAsWritten(file: seq<Byte>)
    requires |file| == 1000
    ensures var r := RangeResponseAsWritten(file, Some("bytes=500-100"));
      && r.status == 206 && r.body == []
      && r.headers[ContentLength].Wire() == "-399"
  {
    var spec := RangeSpec(500, Some(100));
    ReversedText();
    ParseExample(500, Some(100), "bytes=500-100");
    ParsedReply(file, "bytes=500-100", spec);
    assert RangeEnd(Some(spec), |file|) == 100;
    ReplyFields(file, true, Some(spec));
  }

  /** As written, `bytes=2000-` on a 1000-byte file announces a
      `Content-Length` of -1000 for an empty body. */
  lemma PastEndAsWritten(file: seq<Byte>)
    requires |file| == 1000
    ensures var r := RangeResponseAsWritten(file, Some("bytes=2000-"));
      && r.status == 206 && r.body == []
      && r.headers[ContentLength].Wire() == "-1000"
  {
    var spec := RangeSpec(2000, None);
    PastEndText();
    ParseExample(2000, None, "bytes=2000-");
    ParsedReply(file, "bytes=2000-", spec);
    assert RangeEnd(Some(spec), |file|) == 999;
    ReplyFields(file, true, Some(spec));
  }

  /** Corrected, `bytes=2000-` on a 1000-byte file is refused with 416. */
  lemma PastEndRefused(file: seq<Byte>)
    requires |file| == 1000
    ensures var r := RangeResponse(file, Some("bytes=2000-"));
      && r.status == 416 && r.body == []
      && ContentLength !in r.headers
      && r.headers[ContentRange].Wire() == "bytes */1000"
  {
    var spec := RangeSpec(2000, None);
    PastEndText();
    UnsatisfiedText();
    ParseExample(2000, None, "bytes=2000-");
    ParsedReply(file, "bytes=2000-", spec);
    assert RangeEnd(Some(spec), |file|) == 999;
    UnsatisfiableReply(file, true, Some(spec));
  }

  // ---------------------------------------------------------------------
  // Live streaming while the file is being generated

  /** One look at the growing file, made in two awaits: `size` is what
      `currentFile.size` returned, and `contents` is what the later
      `currentFile.arrayBuffer()` returns (it is read only when the size
      grew). The file may grow between the two reads. */
  datatype Look = Look(size: nat, contents: seq<Byte>)

  /** What the live loop has sent so far and the size it last saw. */
  datatype LiveState = LiveState(pieces: seq<seq<Byte>>, lastSize: nat)

  /** One look as the handler makes it: when the size grew, everything the
      buffer holds past `lastSize` is sent, and `lastSize` becomes the size
      the first await read. */
  function Observe(st: LiveState, look: Look): LiveState
  {
    if look.size > st.lastSize
    then LiveState(st.pieces + [ArraySlice(look.contents, st.lastSize, |look.contents|)], look.size)
    else st
  }

  /** The state after the first `n` looks. */
  function Polled(looks: seq<Look>, n: nat): LiveState
    requires n <= |looks|
  {
    if n == 0 then LiveState([], 0) else Observe(Polled(looks, n - 1), looks[n - 1])
  }

  /** Everything the live stream enqueues: one look per loop iteration, then
      the final flush, which makes the same test and sends the same slice. */
  function LivePieces(looks: seq<Look>, final: Look): seq<seq<Byte>>
  {
    Polled(looks + [final], |looks| + 1).pieces
  }

  /** The `start` of the live stream. The loop makes one look per element
      of `looks` (the status was `processing` before each of them and is no
      longer after the last), then the final flush makes `final`. */
  method LiveStream(looks: seq<Look>, final: Look) returns (pieces: seq<seq<Byte>>)
    ensures pieces == LivePieces(looks, final)
  {
    ghost var all := looks + [final];
    pieces := [];
    var lastSize: nat := 0;
    for i := 0 to |looks|
      invariant Polled(all, i) == LiveState(pieces, lastSize)
    {
      assert all[i] == looks[i];
      var currentSize := looks[i].size;
      if currentSize > lastSize {
        var fileBuffer := looks[i].contents;
        pieces := pieces + [ArraySlice(fileBuffer, lastSize, |fileBuffer|)];
        lastSize := currentSize;
      }
    }
    assert all[|looks|] == final;
    var finalSize := final.size;
    if finalSize > lastSize {
      var fileBuffer := final.contents;
      pieces := pieces + [ArraySlice(fileBuffer, lastSize, |fileBuffer|)];
    }
  }

  /** The corrected look: `lastSize` becomes the length of the buffer the
      piece was cut from, so no byte is sent twice. */
  function ObserveFixed(st: LiveState, look: Look): LiveState
  {
    if look.size > st.lastSize
    then LiveState(st.pieces + [ArraySlice(look.contents, st.lastSize, |look.contents|)], |look.contents|)
    else st
  }

  function PolledFixed(looks: seq<Look>, n: nat): LiveState
    requires n <= |looks|
  {
    if n == 0 then LiveState([], 0) else ObserveFixed(PolledFixed(looks, n - 1), looks[n - 1])
  }

  /** What the corrected live stream enqueues. */
  function LivePiecesFixed(looks: seq<Look>, final: Look): seq<seq<Byte>>
  {
    PolledFixed(looks + [final], |looks| + 1).pieces
  }

  /** The looks of one growing file, in time order: each buffer is read
      after its size, so it holds at least that many bytes, and each buffer
      is a prefix of the next one. */
  predicate Chronological(looks: seq<Look>)
  {
    && (forall k :: 0 <= k < |looks| ==> looks[k].size <= |looks[k].contents|)
    && (forall k :: 0 <= k < |looks| - 1 ==> looks[k].contents <= looks[k + 1].contents)
  }

  /** No look saw the file grow between its two reads. */
  predicate Settled(looks: seq<Look>)
  {
    forall k :: 0 <= k < |looks| ==> looks[k].size == |looks[k].contents|
  }

  /** The largest size among the looks. */
  function MaxSize(looks: seq<Look>): nat
  {
    if looks == [] then 0 else Max(MaxSize(looks[..|looks| - 1]), looks[|looks| - 1].size)
  }

  /** `slice(from)` of a buffer at least `from` long is its plain tail. */
  lemma TailSlice(c: seq<Byte>, from: nat)
    requires from <= |c|
    ensures ArraySlice(c, from, |c|) == c[from..]
  {
  }

  /** As written, `lastSize` is the largest size read; when each buffer holds
      at least the size read before it, every piece is non-empty; and when
      no look saw the file grow between its reads, the pieces together are
      exactly `lastSize` long. */
  lemma {:induction false} PolledShape(looks: seq<Look>, n: nat)
    requires n <= |looks|
    ensures var st := Polled(looks, n);
      && st.lastSize == MaxSize(looks[..n])
      && ((forall k :: 0 <= k < |looks| ==> looks[k].size <= |looks[k].contents|)
          ==> forall k :: 0 <= k < |st.pieces| ==> |st.pieces[k]| > 0)
      && (Settled(looks) ==> |Flatten(st.pieces)| == st.lastSize)
  {
    if n > 0 {
      PolledShape(looks, n - 1);
      var prev := Polled(looks, n - 1);
      var look := looks[n - 1];
      assert looks[..n][..n - 1] == looks[..n - 1];
      if look.size > prev.lastSize {
        var piece := ArraySlice(look.contents, prev.lastSize, |look.contents|);
        FlattenAppend(prev.pieces, [piece]);
        FlattenSingle(piece);
        if look.size <= |look.contents| {
          TailSlice(look.contents, prev.lastSize);
        }
      }
    }
  }

  /** Whatever the looks, the stream's last size is the largest size read;
      for the looks of one growing file every piece is non-empty; and when
      no look saw the file grow between its reads, the pieces together are
      as long as the largest size read. */
  lemma LivePiecesShape(looks: seq<Look>, final: Look)
    ensures var all := looks + [final];
      var st := Polled(all, |all|);
      && st.pieces == LivePieces(looks, final)
      && st.lastSize == MaxSize(all)
      && (Chronological(all) ==> forall k :: 0 <= k < |st.pieces| ==> |st.pieces[k]| > 0)
      && (Settled(all) ==> |Flatten(st.pieces)| == MaxSize(all))
  {
    var all := looks + [final];
    PolledShape(all, |all|);
    assert all[..|all|] == all;
  }

  /** One corrected look at a buffer that extends what has been sent keeps
      the sent bytes a prefix of that buffer, at least as long as its size. */
  lemma FixedStep(st: LiveState, look: Look)
    requires Flatten(st.pieces) <= look.contents && st.lastSize == |Flatten(st.pieces)|
    requires look.size <= |look.contents|
    ensures var st' := ObserveFixed(st, look);
      && Flatten(st'.pieces) <= look.contents
      && st'.lastSize == |Flatten(st'.pieces)|
      && look.size <= st'.lastSize
  {
    if look.size > st.lastSize {
      var sent := Flatten(st.pieces);
      TailSlice(look.contents, st.lastSize);
      var piece := look.contents[|sent|..];
      FlattenAppend(st.pieces, [piece]);
      FlattenSingle(piece);
      assert sent + piece == look.contents;
    }
  }

  /** For the looks of one growing file, what the corrected loop has sent is
      a prefix of the buffer last looked at, and at least as long as the
      size last read. */
  lemma {:induction false} PolledFixedSendsPrefix(looks: seq<Look>, n: nat)
    requires Chronological(looks) && 0 < n <= |looks|
    ensures var st := PolledFixed(looks, n);
      && Flatten(st.pieces) <= looks[n - 1].contents
      && st.lastSize == |Flatten(st.pieces)|
      && looks[n - 1].size <= st.lastSize
  {
    if n == 1 {
      FixedStep(LiveState([], 0), looks[0]);
    } else {
      PolledFixedSendsPrefix(looks, n - 1);
      var prev := PolledFixed(looks, n - 1);
      var sent := Flatten(prev.pieces);
      assert looks[n - 2].contents <= looks[n - 1].contents;
      assert sent <= looks[n - 1].contents by {
        assert sent == looks[n - 2].contents[..|sent|];
        assert looks[n - 2].contents == looks[n - 1].contents[..|looks[n - 2].contents|];
      }
      FixedStep(prev, looks[n - 1]);
    }
  }

  /** The corrected stream sends a prefix of the file as the final flush
      read it, at least as long as the final size; when the file had stopped
      growing by the final flush, exactly that file. */
  lemma LiveStreamFixedSendsFile(looks: seq<Look>, final: Look)
    requires Chronological(looks + [final])
    ensures var sent := Flatten(LivePiecesFixed(looks, final));
      && sent <= final.contents
      && final.size <= |sent|
      && (final.size == |final.contents| ==> sent == final.contents)
  {
    var all := looks + [final];
    PolledFixedSendsPrefix(all, |all|);
    assert all[|all| - 1] == final;
  }

  /** When no look sees the file grow between its two reads, the handler as
      written and the corrected one make the same looks. */
  lemma {:induction false} SettledAgrees(looks: seq<Look>, n: nat)
    requires Settled(looks) && n <= |looks|
    ensures Polled(looks, n) == PolledFixed(looks, n)
  {
    if n > 0 {
      SettledAgrees(looks, n - 1);
      assert looks[n - 1].size == |looks[n - 1].contents|;
    }
  }

  /** As written, while the file only grows and no look sees it grow
      between its two reads, what has been sent is the file as last seen. */
  lemma PolledSendsPrefix(looks: seq<Look>, n: nat)
    requires Chronological(looks) && Settled(looks) && 0 < n <= |looks|
    ensures Flatten(Polled(looks, n).pieces) == looks[n - 1].contents
    ensures Polled(looks, n).lastSize == looks[n - 1].size
  {
    SettledAgrees(looks, n);
    PolledFixedSendsPrefix(looks, n);
    assert looks[n - 1].size == |looks[n - 1].contents|;
  }

  /** As written, under the same conditions the pieces join to the file as
      the final flush read it. */
  lemma LiveStreamSendsFile(looks: seq<Look>, final: Look)
    requires Chronological(looks + [final]) && Settled(looks + [final])
    ensures Flatten(LivePieces(looks, final)) == final.contents
  {
    var all := looks + [final];
    PolledSendsPrefix(all, |all|);
    assert all[|all| - 1] == final;
  }

  /** As written, a file that grows between a look's two reads has bytes
      sent twice: the size reads 1 while the buffer already holds two bytes,
      so both are sent and `lastSize` becomes 1, and the final flush sends
      the second byte again. The corrected loop sends the file once. */
  lemma GrowthBetweenReadsAsWritten(x: Byte, y: Byte)
    ensures var looks := [Look(1, [x, y])];
      var final := Look(2, [x, y]);
      && Chronological(looks + [final])
      && final.size == |final.contents|
      && Flatten(LivePieces(looks, final)) == [x, y, y]
      && Flatten(LivePiecesFixed(looks, final)) == [x, y]
  {
    var looks := [Look(1, [x, y])];
    var final := Look(2, [x, y]);
    var all := looks + [final];
    assert all == [Look(1, [x, y]), Look(2, [x, y])];
    TailSlice([x, y], 0);
    TailSlice([x, y], 1);
    assert [x, y][1..] == [y];
    assert [[x, y]] + [[y]] == [[x, y], [y]];
    assert Polled(all, 1) == LiveState([[x, y]], 1);
    assert Polled(all, 2) == LiveState([[x, y], [y]], 2);
    assert Flatten([[x, y], [y]]) == [x, y] + Flatten([[y]]);
    FlattenSingle([y]);
    assert PolledFixed(all, 1) == LiveState([[x, y]], 2);
    assert PolledFixed(all, 2) == LiveState([[x, y]], 2);
    FlattenSingle([x, y]);
  }

  /** The headers of the live reply: no length and no ranges. */
  function LiveHeaders(): map<HeaderName, HeaderValue>
  {
    map[
      ContentType := Literal("audio/mpeg"),
      AcceptRanges := Literal("none"),
      CacheControl := Literal("no-cache"),
      Connection := Literal("keep-alive")]
  }

  /** The `/api/stream` reply as written, for a content row with the given
      status: the live stream while it is processing, the range reply
      otherwise. */
  function StreamResponseAsWritten(status: ContentStatus, file: seq<Byte>, header: Option<string>,
                                   looks: seq<Look>, final: Look): Response
  {
    if status == Processing then Response(200, LiveHeaders(), Flatten(LivePieces(looks, final)))
    else RangeResponseAsWritten(file, header)
  }

  /** The corrected `/api/stream` reply: the corrected live loop while the
      row is processing, the corrected range reply (416 for an unsatisfiable
      range) otherwise. */
  function StreamResponse(status: ContentStatus, file: seq<Byte>, header: Option<string>,
                          looks: seq<Look>, final: Look): Response
  {
    if status == Processing then Response(200, LiveHeaders(), Flatten(LivePiecesFixed(looks, final)))
    else RangeResponse(file, header)
  }

  /** While the audio is being generated, both the reply as written and the
      corrected one are 200, refuse ranges and carry no `Content-Length`,
      whatever Range header was sent. For the looks of one growing file the
      corrected body is the file as the final flush read it, once the file
      had stopped growing by then; the body as written is that file only
      when no look saw the file grow between its two reads. */
  lemma ProcessingIsLive(file: seq<Byte>, header: Option<string>, looks: seq<Look>, final: Look)
    requires Chronological(looks + [final])
    ensures var r := StreamResponseAsWritten(Processing, file, header, looks, final);
      && r.status == 200
      && r.headers[AcceptRanges] == Literal("none")
      && ContentLength !in r.headers
      && (Settled(looks + [final]) ==> r.body == final.contents)
    ensures var c := StreamResponse(Processing, file, header, looks, final);
      && c.status == 200
      && c.headers[AcceptRanges] == Literal("none")
      && ContentLength !in c.headers
      && (final.size == |final.contents| ==> c.body == final.contents)
  {
    LiveStreamFixedSendsFile(looks, final);
    if Settled(looks + [final]) {
      LiveStreamSendsFile(looks, final);
    }
  }
}
