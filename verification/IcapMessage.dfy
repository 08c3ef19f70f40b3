/** ICAP messages: reading a request head and its encapsulated sections, and printing the requests and
    replies that must read back (sections 4.4.1 and 4.5 of RFC 3507). */
module IcapMessage {
  import opened Text
  import opened ChunkedBody

  const ICAP_VERSION := "ICAP/1.0"

  // ---- Start line ----

  /** The first line that is not blank, trimmed. */
  function FirstLine(s: string): LineRead
    decreases |s|
  {
    match ReadLine(s)
    case NoLine => NoLine
    case GotLine(line, rest) =>
      if TrimSpace(line) == "" then FirstLine(rest) else GotLine(TrimSpace(line), rest)
  }

  /** Method and URL of a line of exactly three parts whose third is the ICAP version. */
  function StartLine(line: string): Option<(string, string)> {
    var i := IndexByte(line, ' ');
    if i == -1 then None
    else
      var tail := line[i + 1..];
      var j := IndexByte(tail, ' ');
      if j == -1 || tail[j + 1..] != ICAP_VERSION then None
      else Some((line[..i], tail[..j]))
  }

  // ---- Headers ----

  type Headers = map<string, string>

  datatype HeadRead = Head(headers: Headers, rest: string) | NoHead

  /** One header line entered into the map, or ignored when it has no name before a colon. */
  function WithHeader(headers: Headers, line: string): Headers {
    var idx := IndexByte(line, ':');
    if idx > 0 then headers[ToLower(TrimSpace(line[..idx])) := TrimSpace(line[idx + 1..])] else headers
  }

  function ReadHeaders(s: string, headers: Headers): HeadRead
    decreases |s|
  {
    match ReadLine(s)
    case NoLine => NoHead
    case GotLine(line, rest) =>
      if TrimSpace(line) == "" then Head(headers, rest)
      else ReadHeaders(rest, WithHeader(headers, TrimSpace(line)))
  }

  // ---- The Encapsulated header ----

  function Split(s: string, sep: char): (parts: seq<string>)
    ensures |parts| > 0
    decreases |s|
  {
    var i := IndexByte(s, sep);
    if i == -1 then [s] else [s[..i]] + Split(s[i + 1..], sep)
  }

  /** `strconv.Atoi` with its error dropped. */
  function Atoi(s: string): int {
    match ParseInt(s, 10)
    case Num(n) => n
    case NotANumber => 0
    case OutOfRange(limit) => limit
  }

  datatype Layout = Layout(hdrLen: int, hasBody: bool)

  function WithPart(layout: Layout, part: string): Layout {
    var p := TrimSpace(part);
    var i := IndexByte(p, '=');
    if i == -1 then layout
    else
      var key := TrimSpace(p[..i]);
      var val := Atoi(TrimSpace(p[i + 1..]));
      if key == "req-body" || key == "res-body" then Layout(val, true)
      else if key == "null-body" then Layout(val, false)
      else layout
  }

  function WithParts(layout: Layout, parts: seq<string>): Layout
    decreases |parts|
  {
    if parts == [] then layout else WithParts(WithPart(layout, parts[0]), parts[1..])
  }

  function Encapsulated(s: string): Layout {
    WithParts(Layout(0, false), Split(s, ','))
  }

  /** `parseEncapsulated`. */
  method ParseEncapsulated(s: string) returns (layout: Layout)
    ensures layout == Encapsulated(s)
  {
    layout := Layout(0, false);
    var parts := Split(s, ',');
    for k := 0 to |parts|
      invariant WithParts(layout, parts[k..]) == Encapsulated(s)
    {
      assert parts[k..][0] == parts[k] && parts[k..][1..] == parts[k + 1..];
      layout := WithPart(layout, parts[k]);
    }
  }

  // ---- Sections ----

  datatype SectionsRead = Sections(raw: string, body: string, rest: string) | BadSections(error: ReadError)

  function EncapsulatedValue(headers: Headers): string {
    if "encapsulated" in headers then headers["encapsulated"] else ""
  }

  /** The raw header section, then the chunked body when the layout announces one. */
  function ReadSections(layout: Layout, s: string): SectionsRead {
    var n := if layout.hdrLen > 0 then layout.hdrLen else 0;
    if |s| < n then BadSections(HeaderSectionShort)
    else if !layout.hasBody then Sections(s[..n], "", s[n..])
    else match DecodeChunks(s[n..], 0)
      case BadBody(e) => BadSections(e)
      case Body(bytes, rest) => Sections(s[..n], bytes, rest)
  }

  datatype Request = Request(verb: string, url: string, headers: Headers, raw: string, body: string)

  datatype RequestRead = Got(request: Request, rest: string) | Failed(error: ReadError)

  function ReadRequest(s: string): RequestRead {
    match FirstLine(s)
    case NoLine => Failed(EndOfInput)
    case GotLine(line, afterLine) =>
      match StartLine(line)
      case None => Failed(BadStartLine)
      case Some((verb, url)) =>
        match ReadHeaders(afterLine, map[])
        case NoHead => Failed(EndOfInput)
        case Head(headers, afterHead) =>
          if verb == "OPTIONS" then Got(Request(verb, url, headers, "", ""), afterHead)
          else
            match ReadSections(Encapsulated(EncapsulatedValue(headers)), afterHead)
            case BadSections(e) => Failed(e)
            case Sections(raw, body, rest) => Got(Request(verb, url, headers, raw, body), rest)
  }

  /** `readRequest`, up to the parsing of the encapsulated HTTP headers. */
  method ReadRequestFrom(r: Reader) returns (req: Request, failure: Option<ReadError>)
    modifies r
    ensures match ReadRequest(old(r.rest))
      case Got(request, rest) => failure == None && req == request && r.rest == rest
      case Failed(e) => failure == Some(e)
  {
    hide ReadLine, StartLine, WithHeader, Encapsulated, DecodeChunks, EncapsulatedValue;
    ghost var input := r.rest;
    req := Request("", "", map[], "", "");
    var line, ok := r.ReadString();
    while ok && TrimSpace(line) == ""
      invariant ok ==> FirstLine(input) ==
                       if TrimSpace(line) == "" then FirstLine(r.rest) else GotLine(TrimSpace(line), r.rest)
      invariant !ok ==> FirstLine(input) == NoLine
      decreases |r.rest|, ok
    {
      line, ok := r.ReadString();
    }
    if !ok { return req, Some(EndOfInput); }
    var parts := StartLine(TrimSpace(line));
    if parts == None { return req, Some(BadStartLine); }
    ghost var afterLine := r.rest;
    var headers, complete := ReadHeaderLines(r);
    if !complete { return req, Some(EndOfInput); }
    req := Request(parts.value.0, parts.value.1, headers, "", "");
    if req.verb == "OPTIONS" { return req, None; }
    var layout := ParseEncapsulated(EncapsulatedValue(headers));
    var raw := "";
    if layout.hdrLen > 0 {
      var whole;
      raw, whole := r.ReadFull(layout.hdrLen);
      if !whole { return req, Some(HeaderSectionShort); }
    }
    var body := "";
    if layout.hasBody {
      var bad;
      body, bad := ReadChunked(r);
      if bad != None { return req, bad; }
    }
    req := req.(raw := raw, body := body);
    return req, None;
  }

  method ReadHeaderLines(r: Reader) returns (headers: Headers, complete: bool)
    modifies r
    ensures match ReadHeaders(old(r.rest), map[])
      case Head(hs, rest) => complete && headers == hs && r.rest == rest
      case NoHead => !complete
  {
    hide ReadLine, WithHeader;
    headers := map[];
    while true
      invariant ReadHeaders(old(r.rest), map[]) == ReadHeaders(r.rest, headers)
      decreases |r.rest|
    {
      var line, ok := r.ReadString();
      if !ok { return headers, false; }
      if TrimSpace(line) == "" { return headers, true; }
      headers := WithHeader(headers, TrimSpace(line));
    }
  }

  lemma {:induction false} HeadersConsume(s: string, headers: Headers)
    requires ReadHeaders(s, headers).Head?
    ensures |ReadHeaders(s, headers).rest| < |s|
    decreases |s|
  {
    hide ReadLine, WithHeader, TrimSpace;
    var GotLine(line, rest) := ReadLine(s);
    if TrimSpace(line) != "" { HeadersConsume(rest, WithHeader(headers, TrimSpace(line))); }
  }

  lemma {:induction false} FirstLineConsumes(s: string)
    requires FirstLine(s).GotLine?
    ensures |FirstLine(s).rest| < |s|
    decreases |s|
  {
    hide ReadLine, TrimSpace;
    var GotLine(line, rest) := ReadLine(s);
    if TrimSpace(line) == "" { FirstLineConsumes(rest); }
  }

  lemma DecodingConsumes(s: string, have: nat)
    requires DecodeChunks(s, have).Body?
    ensures |DecodeChunks(s, have).rest| < |s|
  {
    var ps, last := DecodedIsFramed(s, have);
    hide DecodeChunks, PiecesText, DataPiece, ChunkSize;
    PiecesAreLonger(ps, last, DecodeChunks(s, have).rest);
  }

  /** Every request that is read uses up input, so serving a connection ends. */
  lemma RequestConsumes(s: string)
    requires ReadRequest(s).Got?
    ensures |ReadRequest(s).rest| < |s|
  {
    hide FirstLine, StartLine, ReadHeaders, Encapsulated, EncapsulatedValue, DecodeChunks;
    FirstLineConsumes(s);
    var afterLine := FirstLine(s).rest;
    HeadersConsume(afterLine, map[]);
    var head := ReadHeaders(afterLine, map[]);
    var layout := Encapsulated(EncapsulatedValue(head.headers));
    var n := if layout.hdrLen > 0 then layout.hdrLen else 0;
    if n <= |head.rest| && DecodeChunks(head.rest[n..], 0).Body? {
      DecodingConsumes(head.rest[n..], 0);
    }
  }

  /** The requests of one connection in order, and why reading stopped. */
  function ReadAll(s: string): (seq<Request>, ReadError)
    decreases |s|
  {
    match ReadRequest(s)
    case Failed(e) => ([], e)
    case Got(req, rest) =>
      RequestConsumes(s);
      var more := ReadAll(rest);
      ([req] + more.0, more.1)
  }

  // ---- Lines that read back ----

  /** Non-empty text without white space at its ends and without a newline. */
  ghost predicate Field(s: string) {
    s != "" && Tight(s) && '\n' !in s
  }

  lemma HeaderLine(name: string, value: string)
    requires Field(name) && ':' !in name && Field(value)
    ensures var line := name + ": " + value + "\r\n";
            IsLine(line) && TrimSpace(line) == name + ": " + value
  {
    var t := name + ": " + value;
    TextLine(t);
    assert t[0] == name[0] && t[|t| - 1] == value[|value| - 1];
    assert "" + t + "\r\n" == t + "\r\n";
    TrimExact("", t, "\r\n");
  }

  lemma HeaderEntered(name: string, value: string, headers: Headers)
    requires Field(name) && ':' !in name && Field(value)
    ensures WithHeader(headers, name + ": " + value) == headers[ToLower(name) := value]
  {
    var t := name + ": " + value;
    assert t == name + [':'] + (" " + value);
    IndexByteExact(name, ':', " " + value);
    TrimTight(name);
    assert " " + value == " " + value + "";
    TrimExact(" ", value, "");
  }

  lemma HeaderRead(name: string, value: string, rest: string, headers: Headers)
    requires Field(name) && ':' !in name && Field(value)
    ensures ReadHeaders((name + ": " + value + "\r\n") + rest, headers) == ReadHeaders(rest, headers[ToLower(name) := value])
  {
    hide WithHeader, ReadLine, TrimSpace, ToLower;
    HeaderLine(name, value);
    ReadLineExact(name + ": " + value + "\r\n", rest);
    HeaderEntered(name, value, headers);
  }

  lemma BlankRead(rest: string, headers: Headers)
    ensures ReadHeaders("\r\n" + rest, headers) == Head(headers, rest)
  {
    hide WithHeader, ReadLine;
    assert IsLine("\r\n");
    ReadLineExact("\r\n", rest);
    assert "" + "" + "\r\n" == "\r\n";
    TrimExact("", "", "\r\n");
  }

  lemma StartRead(verb: string, url: string, rest: string)
    requires Field(verb) && Field(url) && ' ' !in verb && ' ' !in url
    ensures var line := verb + " " + url + " " + ICAP_VERSION;
            && FirstLine((line + "\r\n") + rest) == GotLine(line, rest)
            && StartLine(line) == Some((verb, url))
  {
    hide StartLine;
    var line := verb + " " + url + " " + ICAP_VERSION;
    StartSplits(verb, url, ICAP_VERSION);
    TextLine(line);
    ReadLineExact(line + "\r\n", rest);
    assert line[0] == verb[0] && line[|line| - 1] == '0';
    assert "" + line + "\r\n" == line + "\r\n";
    hide ReadLine, TrimSpace, IsLine;
    TrimExact("", line, "\r\n");
  }

  lemma StartSplits(verb: string, url: string, version: string)
    requires ' ' !in verb && ' ' !in url
    ensures StartLine(verb + " " + url + " " + version) == if version == ICAP_VERSION then Some((verb, url)) else None
  {
    var tail := url + [' '] + version;
    assert verb + " " + url + " " + version == verb + [' '] + tail;
    IndexByteExact(verb, ' ', tail);
    IndexByteExact(url, ' ', version);
  }

  // ---- Encapsulated values that read back ----

  function EncapsulatedText(kind: string, offset: nat): string {
    "req-hdr=0, " + kind + "=" + Digits(offset, 10)
  }

  lemma SplitStep(a: string, sep: char, b: string)
    requires sep !in a
    ensures Split(a + [sep] + b, sep) == [a] + Split(b, sep)
  {
    IndexByteExact(a, sep, b);
  }

  lemma PartRead(pad: string, key: string, digits: string, layout: Layout)
    requires AllSpace(pad) && key != "" && Tight(key) && '=' !in key
    requires digits != "" && AllDigits(digits, 10) && Value(digits, 10) <= MAX_INT64
    ensures WithPart(layout, pad + key + "=" + digits) ==
            if key == "req-body" || key == "res-body" then Layout(Value(digits, 10), true)
            else if key == "null-body" then Layout(Value(digits, 10), false)
            else layout
  {
    hide ParseInt, Value;
    var p := key + ['='] + digits;
    assert IsDigit(digits[|digits| - 1], 10);
    assert p[0] == key[0] && p[|p| - 1] == digits[|digits| - 1];
    assert pad + key + "=" + digits == pad + p + "";
    TrimExact(pad, p, "");
    IndexByteExact(key, '=', digits);
    TrimTight(key);
    DigitsAreTight(digits, 10);
    TrimTight(digits);
    ParseIntOfDigits(digits, 10);
  }

  lemma HeaderPart(layout: Layout)
    ensures WithPart(layout, "req-hdr=0") == layout
    ensures ',' !in "req-hdr=0"
  {
    hide WithPart;
    OneDigit('0', 10);
    PartRead("", "req-hdr", "0", layout);
    assert "" + "req-hdr" + "=" + "0" == "req-hdr=0";
  }

  lemma TwoParts(a: string, b: string, layout: Layout)
    ensures WithParts(layout, [a] + [b]) == WithPart(WithPart(layout, a), b)
  {
    hide WithPart;
    var parts := [a] + [b];
    assert parts[1..] == [b] && [b][1..] == [];
    var first := WithPart(layout, a);
    assert WithParts(first, [b]) == WithParts(WithPart(first, b), []);
  }

  lemma SplitInTwo(a: string, b: string)
    requires ',' !in a && ',' !in b
    ensures Split(a + [','] + b, ',') == [a] + [b]
  {
    SplitStep(a, ',', b);
  }

  lemma EncapsulatedParts(kind: string, digits: string)
    requires ',' !in kind && ',' !in digits
    ensures Split("req-hdr=0, " + kind + "=" + digits, ',') == ["req-hdr=0"] + [" " + kind + "=" + digits]
  {
    hide Split;
    var second := " " + kind + "=" + digits;
    assert "req-hdr=0, " == "req-hdr=0" + [','] + " ";
    assert "req-hdr=0, " + kind + "=" + digits == "req-hdr=0" + [','] + second;
    SplitInTwo("req-hdr=0", second);
  }

  /** The printed header says where the body starts and whether there is one. */
  lemma EncapsulatedRead(kind: string, offset: nat)
    requires kind == "req-body" || kind == "null-body"
    requires offset <= MAX_INT64
    ensures Encapsulated(EncapsulatedText(kind, offset)) == Layout(offset, kind == "req-body")
  {
    hide WithPart, Digits, Value, AllDigits, WithParts, Split;
    var digits := Digits(offset, 10);
    ValueOfDigits(offset, 10);
    DigitsHaveNo(digits, 10, ',');
    HeaderPart(Layout(0, false));
    PartRead(" ", kind, digits, Layout(0, false));
    EncapsulatedParts(kind, digits);
    TwoParts("req-hdr=0", " " + kind + "=" + digits, Layout(0, false));
  }

  lemma EncapsulatedIsField(kind: string, offset: nat)
    requires kind == "req-body" || kind == "null-body"
    ensures Field(EncapsulatedText(kind, offset))
  {
    var digits := Digits(offset, 10);
    DigitsHaveNo(digits, 10, '\n');
    assert IsDigit(digits[|digits| - 1], 10);
    hide Digits, AllDigits;
    var t := EncapsulatedText(kind, offset);
    assert t[0] == 'r' && t[|t| - 1] == digits[|digits| - 1];
  }

  // ---- The request printer ----

  const SERVER := "127.0.0.1:19344"
  const SERVICE := "ai-scan"
  const SERVICE_URL := "icap://" + SERVER + "/" + SERVICE
  const CRLF2 := "\r\n\r\n"

  predicate HasSuffix(s: string, suffix: string) {
    |suffix| <= |s| && s[|s| - |suffix|..] == suffix
  }

  /** The header section the printer sends: it ends with a blank line. */
  function HeaderSection(httpHdrs: string): string {
    if HasSuffix(httpHdrs, CRLF2) then httpHdrs else httpHdrs + CRLF2
  }

  function EncapsulatedFor(httpHdrs: string, body: string): string {
    EncapsulatedText(if body != "" then "req-body" else "null-body", |HeaderSection(httpHdrs)|)
  }

  function BodySection(body: string): string {
    if body != "" then OneChunk(body) else ""
  }

  /** A REQMOD message followed by `tail`. */
  function Reqmod(httpHdrs: string, body: string, tail: string): string {
    ("REQMOD" + " " + SERVICE_URL + " " + ICAP_VERSION + "\r\n") +
    (("Host" + ": " + SERVER + "\r\n") +
     (("Encapsulated" + ": " + EncapsulatedFor(httpHdrs, body) + "\r\n") +
      ("\r\n" + (HeaderSection(httpHdrs) + (BodySection(body) + tail)))))
  }

  function RequestFor(httpHdrs: string, body: string): Request {
    Request("REQMOD", SERVICE_URL, map["host" := SERVER, "encapsulated" := EncapsulatedFor(httpHdrs, body)],
            HeaderSection(httpHdrs), body)
  }

  lemma StartFields()
    ensures Field("REQMOD") && Field(SERVICE_URL) && ' ' !in "REQMOD" && ' ' !in SERVICE_URL
  {
  }

  lemma ReqmodHead(rest: string)
    ensures FirstLine(("REQMOD" + " " + SERVICE_URL + " " + ICAP_VERSION + "\r\n") + rest) ==
            GotLine("REQMOD" + " " + SERVICE_URL + " " + ICAP_VERSION, rest)
    ensures StartLine("REQMOD" + " " + SERVICE_URL + " " + ICAP_VERSION) == Some(("REQMOD", SERVICE_URL))
  {
    StartFields();
    hide FirstLine, StartLine, Field, SERVICE_URL, ICAP_VERSION;
    StartRead("REQMOD", SERVICE_URL, rest);
  }

  lemma LowerNames()
    ensures ToLower("Host") == "host" && ToLower("Encapsulated") == "encapsulated" && ToLower("ISTag") == "istag"
  {
  }

  lemma ReqmodHeaders(encap: string, rest: string)
    requires Field(encap)
    ensures ReadHeaders(("Host" + ": " + SERVER + "\r\n") +
                        (("Encapsulated" + ": " + encap + "\r\n") + ("\r\n" + rest)), map[]) ==
            Head(map["host" := SERVER, "encapsulated" := encap], rest)
  {
    hide ReadHeaders, ToLower;
    var one := map[]["host" := SERVER];
    HeaderRead("Host", SERVER, ("Encapsulated" + ": " + encap + "\r\n") + ("\r\n" + rest), map[]);
    HeaderRead("Encapsulated", encap, "\r\n" + rest, one);
    BlankRead(rest, one["encapsulated" := encap]);
    LowerNames();
  }

  /** The sections a printer emits are read back whole, for every body length. */
  lemma PrintedSections(hdr: string, body: string, tail: string)
    requires |body| <= MAX_INT64
    ensures ReadSections(Layout(|hdr|, true), hdr + (OneChunk(body) + tail)) ==
            if |body| > MAX_CHUNK_SIZE then BadSections(ChunkTooLarge)
            else if body == "" then Sections(hdr, "", "0\r\n\r\n" + tail)
            else Sections(hdr, body, tail)
  {
    hide DecodeChunks, OneChunk;
    var s := hdr + (OneChunk(body) + tail);
    assert s[..|hdr|] == hdr && s[|hdr|..] == OneChunk(body) + tail;
    OneChunkDecodes(body, tail);
  }

  /** `readRequest` undoes `buildREQMOD` whatever follows on the connection, as long as the body fits
      the single chunk the printer makes of it; a longer body is refused. */
  lemma RequestRoundTrip(httpHdrs: string, body: string, tail: string)
    requires |httpHdrs| + 4 <= MAX_INT64 && |body| <= MAX_INT64
    ensures ReadRequest(Reqmod(httpHdrs, body, tail)) ==
            if |body| <= MAX_CHUNK_SIZE then Got(RequestFor(httpHdrs, body), tail) else Failed(ChunkTooLarge)
  {
    hide FirstLine, StartLine, ReadHeaders, Encapsulated, ReadSections, EncapsulatedText, OneChunk;
    var hdr := HeaderSection(httpHdrs);
    var kind := if body != "" then "req-body" else "null-body";
    var encap := EncapsulatedFor(httpHdrs, body);
    var sections := hdr + (BodySection(body) + tail);
    EncapsulatedIsField(kind, |hdr|);
    EncapsulatedRead(kind, |hdr|);
    ReqmodHead(("Host" + ": " + SERVER + "\r\n") + (("Encapsulated" + ": " + encap + "\r\n") + ("\r\n" + sections)));
    ReqmodHeaders(encap, sections);
    if body != "" {
      PrintedSections(hdr, body, tail);
    } else {
      EmptySections(hdr, tail);
    }
  }

  lemma EmptySections(hdr: string, tail: string)
    ensures ReadSections(Layout(|hdr|, false), hdr + ("" + tail)) == Sections(hdr, "", tail)
  {
    var s := hdr + ("" + tail);
    assert s[..|hdr|] == hdr && s[|hdr|..] == tail;
  }

  // ---- Pipelining ----

  datatype Message = Message(httpHdrs: string, body: string)

  function Pipeline(msgs: seq<Message>, tail: string): string {
    if msgs == [] then tail else Reqmod(msgs[0].httpHdrs, msgs[0].body, Pipeline(msgs[1..], tail))
  }

  function RequestsFor(msgs: seq<Message>): seq<Request> {
    if msgs == [] then [] else [RequestFor(msgs[0].httpHdrs, msgs[0].body)] + RequestsFor(msgs[1..])
  }

  lemma ReadAllStep(s: string, req: Request, rest: string)
    requires ReadRequest(s) == Got(req, rest)
    ensures ReadAll(s) == ([req] + ReadAll(rest).0, ReadAll(rest).1)
  {
    hide ReadRequest;
  }

  /** Any number of printed messages on one connection are read back in order, and reading then goes on
      with exactly the bytes behind them. */
  lemma {:induction false} PipelinedRoundTrip(msgs: seq<Message>, tail: string)
    requires forall k :: 0 <= k < |msgs| ==> |msgs[k].httpHdrs| + 4 <= MAX_INT64 && |msgs[k].body| <= MAX_CHUNK_SIZE
    ensures ReadAll(Pipeline(msgs, tail)) == (RequestsFor(msgs) + ReadAll(tail).0, ReadAll(tail).1)
  {
    hide ReadRequest, Reqmod, RequestFor, ReadAll;
    if msgs == [] {
      assert RequestsFor(msgs) + ReadAll(tail).0 == ReadAll(tail).0;
    } else {
      var req, rest := RequestFor(msgs[0].httpHdrs, msgs[0].body), Pipeline(msgs[1..], tail);
      PipelinedRoundTrip(msgs[1..], tail);
      RequestRoundTrip(msgs[0].httpHdrs, msgs[0].body, rest);
      ReadAllStep(Pipeline(msgs, tail), req, rest);
      Associate([req], RequestsFor(msgs[1..]), ReadAll(tail).0);
    }
  }

  /** Nothing is left over: the connection then ends at a message boundary. */
  lemma WholePipeline(msgs: seq<Message>)
    requires forall k :: 0 <= k < |msgs| ==> |msgs[k].httpHdrs| + 4 <= MAX_INT64 && |msgs[k].body| <= MAX_CHUNK_SIZE
    ensures ReadAll(Pipeline(msgs, "")) == (RequestsFor(msgs), EndOfInput)
  {
    PipelinedRoundTrip(msgs, "");
    assert ReadLine("") == NoLine;
    assert RequestsFor(msgs) + [] == RequestsFor(msgs);
  }

  /** `buildREQMOD`. */
  method BuildREQMOD(httpHdrs: string, httpBody: string) returns (msg: string)
    ensures msg == Reqmod(httpHdrs, httpBody, "")
  {
    hide Digits;
    var hdrs := httpHdrs;
    if !HasSuffix(hdrs, CRLF2) {
      hdrs := hdrs + CRLF2;
    }
    var encap, bodySection;
    if |httpBody| > 0 {
      encap := "req-hdr=0, " + "req-body" + "=" + Digits(|hdrs|, 10);
      bodySection := Digits(|httpBody|, 16) + "\r\n";
      bodySection := bodySection + httpBody;
      bodySection := bodySection + ("\r\n" + "0\r\n\r\n");
    } else {
      encap := "req-hdr=0, " + "null-body" + "=" + Digits(|hdrs|, 10);
      bodySection := "";
    }
    assert bodySection == BodySection(httpBody) && hdrs == HeaderSection(httpHdrs) && encap == EncapsulatedFor(httpHdrs, httpBody);
    hide OneChunk, HeaderSection, EncapsulatedFor, BodySection;
    ghost var start, host := "REQMOD" + " " + SERVICE_URL + " " + ICAP_VERSION + "\r\n", "Host" + ": " + SERVER + "\r\n";
    ghost var encapLine := "Encapsulated" + ": " + encap + "\r\n";
    var buf := "REQMOD" + " " + SERVICE_URL + " " + ICAP_VERSION + "\r\n";
    buf := buf + ("Host" + ": " + SERVER + "\r\n");
    buf := buf + ("Encapsulated" + ": " + encap + "\r\n");
    buf := buf + "\r\n";
    buf := buf + hdrs;
    buf := buf + bodySection;
    Regroup6(start, host, encapLine, "\r\n", hdrs, bodySection);
    return buf;
  }

  lemma Regroup6(a: string, b: string, c: string, d: string, e: string, f: string)
    ensures a + b + c + d + e + f == a + (b + (c + (d + (e + (f + "")))))
  {
  }
}
