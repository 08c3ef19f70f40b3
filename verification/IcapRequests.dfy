/** Every text that `readRequest` accepts, whatever its method, its header lines and its sections, and what is read
    from it (sections 4.4.1 and 4.5 of RFC 3507, read leniently). */
module IcapRequests {
  import opened Text
  import opened ChunkedBody
  import opened IcapMessage

  // ---- The lines of a head ----

  ghost function Concat(lines: seq<string>): string {
    if lines == [] then "" else lines[0] + Concat(lines[1..])
  }

  ghost predicate BlankLine(line: string) {
    IsLine(line) && TrimSpace(line) == ""
  }

  ghost predicate TextLines(lines: seq<string>) {
    forall k :: 0 <= k < |lines| ==> IsLine(lines[k]) && TrimSpace(lines[k]) != ""
  }

  ghost predicate BlankLines(lines: seq<string>) {
    forall k :: 0 <= k < |lines| ==> BlankLine(lines[k])
  }

  ghost predicate Starts(line: string, verb: string, url: string) {
    IsLine(line) && TrimSpace(line) == verb + " " + url + " " + ICAP_VERSION && ' ' !in verb && ' ' !in url
  }

  /** Blank lines (keep-alive pings), the start line, header lines, and the blank line that ends them. */
  datatype Lines = Lines(pings: seq<string>, start: string, fields: seq<string>, end: string)

  ghost function HeadText(h: Lines, after: string): string {
    Concat(h.pings) + (h.start + (Concat(h.fields) + (h.end + after)))
  }

  ghost predicate Heads(h: Lines, verb: string, url: string) {
    BlankLines(h.pings) && Starts(h.start, verb, url) && TextLines(h.fields) && BlankLine(h.end)
  }

  // ---- The headers that lines state ----

  /** The text in front of the first `c` and behind it. */
  ghost predicate Splits(text: string, a: string, c: char, b: string) {
    text == a + [c] + b && c !in a
  }

  /** A line states a header by a name in front of its first colon; other lines state none. */
  ghost predicate States(line: string, name: string, value: string) {
    exists a, b :: Splits(TrimSpace(line), a, ':', b) && a != "" && name == ToLower(TrimSpace(a)) && value == TrimSpace(b)
  }

  /** The last line for a name decides. */
  ghost predicate Decided(lines: seq<string>, name: string, value: string) {
    exists k :: 0 <= k < |lines| && States(lines[k], name, value) && SilentAfter(lines, k, name)
  }

  ghost predicate SilentAfter(lines: seq<string>, k: nat, name: string) {
    forall j, w :: k < j < |lines| ==> !States(lines[j], name, w)
  }

  ghost predicate Collected(lines: seq<string>, headers: Headers) {
    forall name, value :: (name in headers && headers[name] == value) <==> Decided(lines, name, value)
  }

  ghost function Entered(lines: seq<string>): Headers {
    if lines == [] then map[] else WithHeader(Entered(lines[..|lines| - 1]), TrimSpace(lines[|lines| - 1]))
  }

  lemma SplitsAt(text: string, c: char)
    requires c in text
    ensures var i := IndexByte(text, c);
            0 <= i < |text| && Splits(text, text[..i], c, text[i + 1..])
  {
    SplitAtByte(text, c);
  }

  lemma SplitsOnce(text: string, a: string, c: char, b: string)
    requires Splits(text, a, c, b)
    ensures var i := IndexByte(text, c);
            i == |a| && text[..i] == a && text[i + 1..] == b
  {
    IndexByteExact(a, c, b);
  }

  lemma OneStates(headers: Headers, line: string, name: string, value: string)
    ensures var after := WithHeader(headers, TrimSpace(line));
            (name in after && after[name] == value) <==>
            States(line, name, value) || ((forall w :: !States(line, name, w)) && name in headers && headers[name] == value)
  {
    hide TrimSpace, ToLower;
    var text := TrimSpace(line);
    if ':' in text {
      SplitsAt(text, ':');
      var i := IndexByte(text, ':');
      forall a, b | Splits(text, a, ':', b) ensures a == text[..i] && b == text[i + 1..] {
        SplitsOnce(text, a, ':', b);
      }
      hide IndexByte, Splits;
      if i > 0 {
        assert States(line, ToLower(TrimSpace(text[..i])), TrimSpace(text[i + 1..]));
      }
    } else {
      assert forall a, b :: !Splits(text, a, ':', b);
    }
  }

  lemma {:induction false} EnteredIs(lines: seq<string>)
    ensures Collected(lines, Entered(lines))
    decreases |lines|
  {
    hide WithHeader, States;
    if lines != [] {
      var n := |lines| - 1;
      var front, last := lines[..n], lines[n];
      EnteredIs(front);
      forall name, value
        ensures (name in Entered(lines) && Entered(lines)[name] == value) <==> Decided(lines, name, value)
      {
        OneStates(Entered(front), last, name, value);
        DecidedByLast(lines, name, value);
      }
    }
  }

  lemma DecidedByLast(lines: seq<string>, name: string, value: string)
    requires lines != []
    ensures var n := |lines| - 1;
            Decided(lines, name, value) <==>
            States(lines[n], name, value) || ((forall w :: !States(lines[n], name, w)) && Decided(lines[..n], name, value))
  {
    hide States;
    var n := |lines| - 1;
    var front := lines[..n];
    if Decided(lines, name, value) {
      var k :| 0 <= k < |lines| && States(lines[k], name, value) && SilentAfter(lines, k, name);
      if k < n {
        assert front[k] == lines[k] && SilentAfter(front, k, name);
      }
    }
    if States(lines[n], name, value) { assert SilentAfter(lines, n, name); }
    if (forall w :: !States(lines[n], name, w)) && Decided(front, name, value) {
      var k :| 0 <= k < n && States(front[k], name, value) && SilentAfter(front, k, name);
      assert forall j :: k < j < n ==> front[j] == lines[j];
      assert lines[k] == front[k] && SilentAfter(lines, k, name);
    }
  }

  lemma SameHeaders(lines: seq<string>, headers: Headers)
    requires Collected(lines, headers)
    ensures headers == Entered(lines)
  {
    hide Decided, Entered;
    EnteredIs(lines);
    var other := Entered(lines);
    forall name ensures name in headers <==> name in other {
      if name in headers { assert Decided(lines, name, headers[name]); }
      if name in other { assert Decided(lines, name, other[name]); }
    }
    forall name | name in headers ensures headers[name] == other[name] {
      assert Decided(lines, name, headers[name]);
    }
  }

  // ---- Reading a head ----

  lemma StartIs(line: string, verb: string, url: string)
    ensures StartLine(line) == Some((verb, url)) <==>
            line == verb + " " + url + " " + ICAP_VERSION && ' ' !in verb && ' ' !in url
  {
    if ' ' !in verb && ' ' !in url { StartSplits(verb, url, ICAP_VERSION); }
    if StartLine(line) == Some((verb, url)) { StartParts(line, verb, url); }
  }

  lemma StartParts(line: string, verb: string, url: string)
    requires StartLine(line) == Some((verb, url))
    ensures line == verb + " " + url + " " + ICAP_VERSION && ' ' !in verb && ' ' !in url
  {
    var tail := line[|verb| + 1..];
    SplitAtByte(line, ' ');
    SplitAtByte(tail, ' ');
    assert line == verb + ([' '] + tail) && tail == url + ([' '] + ICAP_VERSION) && ' ' !in verb && ' ' !in url;
    hide *;
    ThreeParts(verb, url, ICAP_VERSION);
  }

  lemma ThreeParts(a: string, b: string, c: string)
    ensures a + ([' '] + (b + ([' '] + c))) == a + " " + b + " " + c
  {
  }

  lemma {:induction false} FirstLineReads(pings: seq<string>, start: string, rest: string)
    requires BlankLines(pings) && IsLine(start) && TrimSpace(start) != ""
    ensures FirstLine(Concat(pings) + (start + rest)) == GotLine(TrimSpace(start), rest)
    decreases |pings|
  {
    hide ReadLine, TrimSpace, IsLine;
    if pings == [] {
      assert "" + (start + rest) == start + rest;
      ReadLineExact(start, rest);
    } else {
      assert BlankLine(pings[0]);
      Associate(pings[0], Concat(pings[1..]), start + rest);
      ReadLineExact(pings[0], Concat(pings[1..]) + (start + rest));
      FirstLineReads(pings[1..], start, rest);
    }
  }

  lemma NoLines(tail: string)
    ensures Concat([]) + tail == tail
  {
  }

  lemma LineInFront(line: string, lines: seq<string>, tail: string)
    ensures Concat([line] + lines) + tail == line + (Concat(lines) + tail)
  {
    assert ([line] + lines)[1..] == lines;
    Associate(line, Concat(lines), tail);
  }

  lemma LineRead(s: string) returns (line: string, rest: string)
    requires ReadLine(s).GotLine?
    ensures ReadLine(s) == GotLine(line, rest) && s == line + rest && IsLine(line) && |rest| < |s|
  {
    line, rest := ReadLine(s).line, ReadLine(s).rest;
  }

  lemma {:induction false} FirstLineParts(s: string) returns (pings: seq<string>, start: string)
    requires FirstLine(s).GotLine?
    ensures BlankLines(pings) && IsLine(start) && TrimSpace(start) != "" && TrimSpace(start) == FirstLine(s).line
    ensures s == Concat(pings) + (start + FirstLine(s).rest)
    decreases |s|
  {
    hide TrimSpace, IsLine, Concat, ReadLine;
    var line, rest := LineRead(s);
    if TrimSpace(line) == "" {
      assert FirstLine(s) == FirstLine(rest);
      hide FirstLine;
      var more;
      more, start := FirstLineParts(rest);
      pings := [line] + more;
      LineInFront(line, more, start + FirstLine(rest).rest);
    } else {
      assert FirstLine(s) == GotLine(TrimSpace(line), rest);
      hide FirstLine;
      pings, start := [], line;
      NoLines(start + rest);
    }
  }

  lemma {:induction false} FieldsRead(fields: seq<string>, k: nat, end: string, after: string)
    requires TextLines(fields) && BlankLine(end) && k <= |fields|
    ensures ReadHeaders(Concat(fields[k..]) + (end + after), Entered(fields[..k])) == Head(Entered(fields), after)
    decreases |fields| - k
  {
    hide ReadLine, TrimSpace, IsLine, WithHeader;
    if k == |fields| {
      assert fields[..k] == fields;
      assert "" + (end + after) == end + after;
      ReadLineExact(end, after);
    } else {
      var rest := Concat(fields[k + 1..]) + (end + after);
      assert fields[k..][0] == fields[k] && fields[k..][1..] == fields[k + 1..];
      assert fields[..k + 1][..k] == fields[..k] && fields[..k + 1][k] == fields[k];
      Associate(fields[k], Concat(fields[k + 1..]), end + after);
      ReadLineExact(fields[k], rest);
      FieldsRead(fields, k + 1, end, after);
    }
  }

  lemma {:induction false} FieldsParts(s: string, headers: Headers) returns (fields: seq<string>, end: string)
    requires ReadHeaders(s, headers).Head?
    ensures TextLines(fields) && BlankLine(end)
    ensures s == Concat(fields) + (end + ReadHeaders(s, headers).rest)
    decreases |s|
  {
    hide TrimSpace, IsLine, WithHeader, Concat, ReadLine;
    var line, rest := LineRead(s);
    if TrimSpace(line) == "" {
      assert ReadHeaders(s, headers) == Head(headers, rest);
      hide ReadHeaders;
      fields, end := [], line;
      NoLines(end + rest);
    } else {
      var next := WithHeader(headers, TrimSpace(line));
      assert ReadHeaders(s, headers) == ReadHeaders(rest, next);
      hide ReadHeaders;
      var more;
      more, end := FieldsParts(rest, next);
      fields := [line] + more;
      LineInFront(line, more, end + ReadHeaders(rest, next).rest);
    }
  }

  // ---- The sections behind a head ----

  ghost function Commas(parts: seq<string>): string
    requires parts != []
  {
    if |parts| == 1 then parts[0] else parts[0] + [','] + Commas(parts[1..])
  }

  ghost predicate CommaFree(parts: seq<string>) {
    forall k :: 0 <= k < |parts| ==> ',' !in parts[k]
  }

  predicate KindOf(key: string, hasBody: bool) {
    if hasBody then key == "req-body" || key == "res-body" else key == "null-body"
  }

  /** A part that says where a body starts, or that none follows. */
  ghost predicate Places(part: string, layout: Layout) {
    exists a, b :: Splits(TrimSpace(part), a, '=', b) && KindOf(TrimSpace(a), layout.hasBody) &&
                   layout.hdrLen == Atoi(TrimSpace(b))
  }

  /** The last such part decides; without one there is neither header section nor body. */
  ghost predicate Announced(parts: seq<string>, layout: Layout) {
    || (layout == Layout(0, false) && forall k, any :: 0 <= k < |parts| ==> !Places(parts[k], any))
    || exists k :: 0 <= k < |parts| && Places(parts[k], layout) && QuietAfter(parts, k)
  }

  ghost predicate QuietAfter(parts: seq<string>, k: nat) {
    forall j, any :: k < j < |parts| ==> !Places(parts[j], any)
  }

  ghost predicate Says(value: string, layout: Layout) {
    exists parts :: parts != [] && CommaFree(parts) && value == Commas(parts) && Announced(parts, layout)
  }

  lemma PlacesAt(part: string, a: string, b: string, l: Layout)
    requires Splits(TrimSpace(part), a, '=', b)
    ensures Places(part, l) <==> KindOf(TrimSpace(a), l.hasBody) && l.hdrLen == Atoi(TrimSpace(b))
  {
    hide KindOf;
    hide TrimSpace, Atoi, IndexByte;
    var p := TrimSpace(part);
    SplitsOnce(p, a, '=', b);
    forall x, y | Splits(p, x, '=', y) ensures x == a && y == b {
      SplitsOnce(p, x, '=', y);
    }
    hide Splits;
  }

  lemma WithPartAt(layout: Layout, part: string, a: string, b: string)
    requires Splits(TrimSpace(part), a, '=', b)
    ensures var next, key, n := WithPart(layout, part), TrimSpace(a), Atoi(TrimSpace(b));
            forall l: Layout :: KindOf(key, l.hasBody) && l.hdrLen == n ==> l == next
    ensures var next, key, n := WithPart(layout, part), TrimSpace(a), Atoi(TrimSpace(b));
            (KindOf(key, next.hasBody) && next.hdrLen == n) || (next == layout && forall h :: !KindOf(key, h))
  {
    hide TrimSpace, Atoi, IndexByte, Splits;
    SplitsOnce(TrimSpace(part), a, '=', b);
  }

  /** A part decides at most one layout, and that is the one it leaves. */
  ghost predicate Follows(layout: Layout, part: string) {
    var next := WithPart(layout, part);
    && (forall l :: Places(part, l) ==> l == next)
    && (Places(part, next) || (next == layout && forall l :: !Places(part, l)))
  }

  lemma FollowsAt(layout: Layout, part: string, a: string, b: string)
    requires Splits(TrimSpace(part), a, '=', b)
    ensures Follows(layout, part)
  {
    hide TrimSpace, Atoi, Splits, Places, WithPart, KindOf;
    WithPartAt(layout, part, a, b);
    forall l ensures Places(part, l) <==> KindOf(TrimSpace(a), l.hasBody) && l.hdrLen == Atoi(TrimSpace(b)) {
      PlacesAt(part, a, b, l);
    }
  }

  lemma FollowsNot(layout: Layout, part: string)
    requires '=' !in TrimSpace(part)
    ensures Follows(layout, part)
  {
    hide TrimSpace, Atoi;
    assert forall a, b :: !Splits(TrimSpace(part), a, '=', b);
  }

  lemma OnePlaces(layout: Layout, part: string)
    ensures Follows(layout, part)
  {
    hide TrimSpace, Follows;
    var p := TrimSpace(part);
    if '=' in p {
      SplitsAt(p, '=');
      FollowsAt(layout, part, p[..IndexByte(p, '=')], p[IndexByte(p, '=') + 1..]);
    } else {
      FollowsNot(layout, part);
    }
  }

  lemma {:induction false} WithPartsIs(parts: seq<string>, layout: Layout)
    ensures var r := WithParts(layout, parts);
            || (r == layout && forall k, any :: 0 <= k < |parts| ==> !Places(parts[k], any))
            || exists k :: 0 <= k < |parts| && Places(parts[k], r) && QuietAfter(parts, k)
    decreases |parts|
  {
    hide WithPart, Places;
    if parts != [] {
      var next, more := WithPart(layout, parts[0]), parts[1..];
      var r := WithParts(layout, parts);
      OnePlaces(layout, parts[0]);
      WithPartsIs(more, next);
      if k :| 0 <= k < |more| && Places(more[k], r) && QuietAfter(more, k) {
        assert parts[k + 1] == more[k];
        assert forall j :: k + 1 < j < |parts| ==> parts[j] == more[j - 1];
        assert QuietAfter(parts, k + 1);
      } else if Places(parts[0], next) {
        assert forall j :: 0 < j < |parts| ==> parts[j] == more[j - 1];
        assert QuietAfter(parts, 0);
      } else {
        assert forall j :: 0 < j < |parts| ==> parts[j] == more[j - 1];
      }
    }
  }

  lemma OneLayout(parts: seq<string>, x: Layout, y: Layout)
    requires Announced(parts, x) && Announced(parts, y)
    ensures x == y
  {
    forall part, a, b | Places(part, a) && Places(part, b) ensures a == b {
      OnePlaces(a, part);
    }
    hide Places;
    if i :| 0 <= i < |parts| && Places(parts[i], x) && QuietAfter(parts, i) {
      if j :| 0 <= j < |parts| && Places(parts[j], y) && QuietAfter(parts, j) {
        assert i == j;
      }
    }
  }

  lemma SplitOnce(s: string, sep: char)
    requires sep in s
    ensures var i := IndexByte(s, sep);
            0 <= i < |s| && Split(s, sep) == [s[..i]] + Split(s[i + 1..], sep)
  {
  }

  lemma CommaInFront(a: string, parts: seq<string>)
    requires parts != [] && CommaFree(parts) && ',' !in a
    ensures CommaFree([a] + parts) && Commas([a] + parts) == a + ([','] + Commas(parts))
  {
    assert ([a] + parts)[1..] == parts;
    Associate(a, [','], Commas(parts));
  }

  lemma {:induction false} SplitJoins(s: string)
    ensures CommaFree(Split(s, ',')) && Commas(Split(s, ',')) == s
    decreases |s|
  {
    if ',' in s {
      SplitAtByte(s, ',');
      SplitOnce(s, ',');
      var i := IndexByte(s, ',');
      hide IndexByte, Split, Commas, CommaFree;
      SplitJoins(s[i + 1..]);
      CommaInFront(s[..i], Split(s[i + 1..], ','));
    } else {
      SplitWhole(s, ',');
    }
  }

  lemma {:induction false} SplitOfJoined(parts: seq<string>)
    requires parts != [] && CommaFree(parts)
    ensures Split(Commas(parts), ',') == parts
    decreases |parts|
  {
    hide Split;
    if |parts| == 1 {
      SplitWhole(parts[0], ',');
    } else {
      SplitOfJoined(parts[1..]);
      SplitStep(parts[0], ',', Commas(parts[1..]));
      assert parts == [parts[0]] + parts[1..];
    }
  }

  lemma SplitWhole(s: string, sep: char)
    requires sep !in s
    ensures Split(s, sep) == [s]
  {
  }

  lemma EncapsulatedSays(value: string, layout: Layout)
    ensures layout == Encapsulated(value) <==> Says(value, layout)
  {
    hide Split, WithParts, Announced, CommaFree, Commas;
    var parts := Split(value, ',');
    SplitJoins(value);
    LayoutOfParts(parts);
    assert Says(value, Encapsulated(value));
    forall other | other != [] && CommaFree(other) && value == Commas(other) && Announced(other, layout)
      ensures layout == Encapsulated(value)
    {
      SplitOfJoined(other);
      OneLayout(parts, layout, Encapsulated(value));
    }
  }

  lemma LayoutOfParts(parts: seq<string>)
    ensures Announced(parts, WithParts(Layout(0, false), parts))
  {
    WithPartsIs(parts, Layout(0, false));
  }

  // ---- Offsets ----

  lemma {:induction false} ScanBehind(a: string, t: string, k: nat, acc: nat)
    requires k <= |t|
    ensures ScanUint(a + t, |a| + k, 10, acc) == ScanUint(t, k, 10, acc)
    decreases |t| - k
  {
    if k < |t| {
      assert (a + t)[|a| + k] == t[k];
      if IsDigit(t[k], 10) { ScanBehind(a, t, k + 1, Shift(acc, 10) + DigitOf(t[k])); }
    }
  }

  lemma {:induction false} ScanOverflows(s: string, k: nat)
    requires AllDigits(s, 10) && k <= |s| && ValueTo(s, k, 10) <= MAX_UINT64 < Value(s, 10)
    ensures ScanUint(s, k, 10, ValueTo(s, k, 10)) == OutOfRange(MAX_UINT64)
    decreases |s| - k
  {
    if k < |s| {
      assert IsDigit(s[k], 10);
      if ValueTo(s, k + 1, 10) <= MAX_UINT64 { ScanOverflows(s, k + 1); }
    }
  }

  lemma {:induction false} ScanStops(d: string, junk: string, k: nat)
    requires AllDigits(d, 10) && k <= |d| && Value(d, 10) <= MAX_UINT64 && junk != "" && !IsDigit(junk[0], 10)
    ensures ScanUint(d + junk, k, 10, ValueTo(d, k, 10)) == NotANumber
    decreases |d| - k
  {
    if k < |d| {
      assert IsDigit(d[k], 10) && (d + junk)[k] == d[k];
      ValueGrows(d, k + 1, |d|, 10);
      ScanStops(d, junk, k + 1);
    } else {
      assert (d + junk)[k] == junk[0];
    }
  }

  predicate Sign(sign: string) {
    sign == "" || sign == "+" || sign == "-"
  }

  lemma ScanOf(sign: string, t: string)
    requires Sign(sign) && t != "" && (sign == "" ==> t[0] != '+' && t[0] != '-')
    ensures ParseInt(sign + t, 10) ==
            match ScanUint(t, 0, 10, 0)
            case NotANumber => NotANumber
            case OutOfRange(_) => OutOfRange(if sign == "-" then -MAX_INT64 - 1 else MAX_INT64)
            case Num(n) =>
              if sign != "-" && n > MAX_INT64 then OutOfRange(MAX_INT64)
              else if sign == "-" && n > MAX_INT64 + 1 then OutOfRange(-MAX_INT64 - 1)
              else Num(if sign == "-" then -n else n)
  {
    ScanBehind(sign, t, 0, 0);
    assert sign == "" ==> sign + t == t;
    hide ScanUint;
  }

  /** An offset is its number, at most that of 64 bits with a sign. */
  lemma OffsetOfDigits(sign: string, d: string)
    requires Sign(sign) && d != "" && AllDigits(d, 10)
    ensures var v: int := Value(d, 10);
            Atoi(sign + d) == if sign == "-" then (if v > 0x8000_0000_0000_0000 then -0x8000_0000_0000_0000 else -v)
                              else if v > 0x7FFF_FFFF_FFFF_FFFF then 0x7FFF_FFFF_FFFF_FFFF else v
  {
    assert IsDigit(d[0], 10);
    ScanOf(sign, d);
    assert ValueTo(d, 0, 10) == 0;
    if Value(d, 10) <= MAX_UINT64 { ScanDigits(d, 0, 10); } else { ScanOverflows(d, 0); }
  }

  /** Anything else than digits behind the sign, or nothing, counts as zero. */
  lemma OffsetOfJunk(sign: string, d: string, junk: string)
    requires Sign(sign) && AllDigits(d, 10) && Value(d, 10) <= MAX_UINT64
    requires junk != "" && !IsDigit(junk[0], 10) && (sign == "" && d == "" ==> junk[0] != '+' && junk[0] != '-')
    ensures Atoi(sign + (d + junk)) == 0 && Atoi(sign) == 0
  {
    assert d != "" ==> (d + junk)[0] == d[0] && IsDigit(d[0], 10);
    assert d == "" ==> (d + junk)[0] == junk[0];
    ScanOf(sign, d + junk);
    assert ValueTo(d, 0, 10) == 0;
    ScanStops(d, junk, 0);
  }

  /** A raw section of the announced length, then the chunked body if one is announced. */
  ghost predicate Carries(after: string, layout: Layout, raw: string, body: string, rest: string) {
    && |raw| == (if layout.hdrLen > 0 then layout.hdrLen else 0)
    && if layout.hasBody then
         |body| <= MAX_BODY_SIZE && exists ps, last :: FramedBehind(after, raw, ps, last, rest) && PiecesData(ps) == body
       else body == "" && after == raw + rest
  }

  ghost predicate FramedBehind(after: string, raw: string, ps: seq<Piece>, last: Piece, rest: string) {
    |raw| <= |after| && after == raw + after[|raw|..] && Framed(after[|raw|..], ps, last, rest)
  }

  lemma SectionsRead(layout: Layout, after: string, raw: string, body: string, rest: string)
    ensures ReadSections(layout, after) == Sections(raw, body, rest) <==> Carries(after, layout, raw, body, rest)
  {
    hide DecodeChunks, Framed, PiecesData;
    var n := if layout.hdrLen > 0 then layout.hdrLen else 0;
    if n <= |after| {
      var s := after[n..];
      DecodesExactly(s, body, rest);
      assert after == after[..n] + s;
      if raw == after[..n] && DecodeChunks(s, 0) == Body(body, rest) && layout.hasBody {
        var ps, last :| Framed(s, ps, last, rest) && PiecesData(ps) == body;
        assert FramedBehind(after, raw, ps, last, rest);
      }
    }
    if after == raw + rest { assert after[..|raw|] == raw && after[|raw|..] == rest; }
  }

  // ---- What is accepted, exactly ----

  /** What the header lines say about the sections. */
  ghost predicate Announces(headers: Headers, layout: Layout) {
    if "encapsulated" in headers then Says(headers["encapsulated"], layout) else layout == Layout(0, false)
  }

  ghost predicate Brings(req: Request, after: string, rest: string) {
    if req.verb == "OPTIONS" then req.raw == "" && req.body == "" && after == rest
    else exists layout :: Announces(req.headers, layout) && Carries(after, layout, req.raw, req.body, rest)
  }

  ghost predicate Accepted(s: string, h: Lines, after: string, req: Request, rest: string) {
    && s == HeadText(h, after) && Heads(h, req.verb, req.url)
    && Collected(h.fields, req.headers) && Brings(req, after, rest)
  }

  lemma HeadReads(h: Lines, verb: string, url: string, after: string)
    requires Heads(h, verb, url)
    ensures var more := Concat(h.fields) + (h.end + after);
            && FirstLine(HeadText(h, after)) == GotLine(TrimSpace(h.start), more)
            && StartLine(TrimSpace(h.start)) == Some((verb, url))
            && ReadHeaders(more, map[]) == Head(Entered(h.fields), after)
  {
    hide FirstLine, StartLine, ReadHeaders, TrimSpace, IsLine, Concat, Entered, TextLines, BlankLine, BlankLines;
    StartIs(TrimSpace(h.start), verb, url);
    FirstLineReads(h.pings, h.start, Concat(h.fields) + (h.end + after));
    assert h.fields[0..] == h.fields && h.fields[..0] == [];
    assert Entered([]) == map[] by { NothingEntered(); }
    FieldsRead(h.fields, 0, h.end, after);
  }

  lemma NothingEntered()
    ensures Entered([]) == map[]
  {
  }

  lemma AnnouncesIs(headers: Headers, layout: Layout)
    ensures Announces(headers, layout) <==> layout == Encapsulated(EncapsulatedValue(headers))
  {
    hide Encapsulated, Says;
    EncapsulatedSays(EncapsulatedValue(headers), layout);
    if "encapsulated" !in headers { NothingSaid(layout); }
  }

  lemma NothingSaid(layout: Layout)
    ensures layout == Encapsulated("") <==> layout == Layout(0, false)
  {
    hide TrimSpace;
    assert Split("", ',') == [""];
    assert WithParts(WithPart(Layout(0, false), ""), []) == WithPart(Layout(0, false), "");
    assert TrimSpace("") == "";
  }

  /** What a request brings behind its head is what the reader makes of it. */
  lemma BringsIs(req: Request, after: string, rest: string)
    requires req.verb != "OPTIONS"
    ensures Brings(req, after, rest) <==>
            ReadSections(Encapsulated(EncapsulatedValue(req.headers)), after) == Sections(req.raw, req.body, rest)
  {
    hide Encapsulated, EncapsulatedValue, Announces, Carries, ReadSections;
    var layout := Encapsulated(EncapsulatedValue(req.headers));
    forall l ensures Announces(req.headers, l) <==> l == layout {
      AnnouncesIs(req.headers, l);
    }
    SectionsRead(layout, after, req.raw, req.body, rest);
  }

  /** The exact language of the reader: a request is read from a text if and only if the text is blank lines, its
      start line, header lines that state its headers, a blank line and the sections they announce, with what is
      left behind them. */
  lemma ReadsExactly(s: string, req: Request, rest: string)
    ensures ReadRequest(s) == Got(req, rest) <==> exists h, after :: Accepted(s, h, after, req, rest)
  {
    hide Accepted;
    if ReadRequest(s) == Got(req, rest) {
      var h, after := PartsOfRead(s, req, rest);
    }
    forall h, after | Accepted(s, h, after, req, rest) ensures ReadRequest(s) == Got(req, rest) {
      AcceptedIsRead(s, h, after, req, rest);
    }
  }

  lemma AcceptedIsRead(s: string, h: Lines, after: string, req: Request, rest: string)
    requires Accepted(s, h, after, req, rest)
    ensures ReadRequest(s) == Got(req, rest)
  {
    hide FirstLine, StartLine, ReadHeaders, ReadSections, Encapsulated, EncapsulatedValue, TrimSpace;
    hide Concat, Entered, Heads, HeadText, Collected;
    HeadReads(h, req.verb, req.url, after);
    SameHeaders(h.fields, req.headers);
    if req.verb != "OPTIONS" {
      hide Brings;
      BringsIs(req, after, rest);
    }
  }

  lemma PartsOfRead(s: string, req: Request, rest: string) returns (h: Lines, after: string)
    requires ReadRequest(s) == Got(req, rest)
    ensures Accepted(s, h, after, req, rest)
  {
    hide FirstLine, StartLine, ReadHeaders, ReadSections, Encapsulated, EncapsulatedValue, TrimSpace, ICAP_VERSION, IsLine;
    hide Concat, Entered, TextLines, BlankLine, BlankLines, Collected, Brings;
    var afterLine := FirstLine(s).rest;
    after := ReadHeaders(afterLine, map[]).rest;
    var pings, start := FirstLineParts(s);
    var fields, end := FieldsParts(afterLine, map[]);
    h := Lines(pings, start, fields, end);
    StartIs(TrimSpace(start), req.verb, req.url);
    HeadReads(h, req.verb, req.url, after);
    EnteredIs(fields);
    if req.verb == "OPTIONS" {
      OptionsBrings(req, after);
    } else {
      BringsIs(req, after, rest);
    }
  }

  lemma OptionsBrings(req: Request, after: string)
    requires req.verb == "OPTIONS"
    ensures Brings(req, after, after) <==> req.raw == "" && req.body == ""
  {
  }

  // ---- What is refused ----

  /** A first line of other than three parts, or of another version, is refused. */
  lemma BadStart(pings: seq<string>, start: string, rest: string)
    requires BlankLines(pings) && IsLine(start) && TrimSpace(start) != ""
    requires forall verb, url :: !Starts(start, verb, url)
    ensures ReadRequest(Concat(pings) + (start + rest)) == RequestRead.Failed(BadStartLine)
  {
    hide FirstLine, StartLine, ReadHeaders, ReadSections, TrimSpace, IsLine, Concat, ICAP_VERSION;
    FirstLineReads(pings, start, rest);
    forall verb, url ensures StartLine(TrimSpace(start)) != Some((verb, url)) {
      StartIs(TrimSpace(start), verb, url);
      assert !Starts(start, verb, url);
    }
  }

  lemma {:induction false} NoFirstLine(pings: seq<string>, cut: string)
    requires BlankLines(pings) && '\n' !in cut
    ensures FirstLine(Concat(pings) + cut) == NoLine
    decreases |pings|
  {
    hide TrimSpace, IsLine;
    if pings == [] {
      NoLines(cut);
      hide ReadLine;
    } else {
      hide ReadLine;
      assert BlankLine(pings[0]);
      Associate(pings[0], Concat(pings[1..]), cut);
      ReadLineExact(pings[0], Concat(pings[1..]) + cut);
      NoFirstLine(pings[1..], cut);
    }
  }

  lemma {:induction false} NoEnd(fields: seq<string>, cut: string, headers: Headers)
    requires TextLines(fields) && '\n' !in cut
    ensures ReadHeaders(Concat(fields) + cut, headers) == NoHead
    decreases |fields|
  {
    hide TrimSpace, IsLine, WithHeader;
    if fields == [] {
      NoLines(cut);
      hide ReadLine;
    } else {
      hide ReadLine;
      Associate(fields[0], Concat(fields[1..]), cut);
      ReadLineExact(fields[0], Concat(fields[1..]) + cut);
      NoEnd(fields[1..], cut, WithHeader(headers, TrimSpace(fields[0])));
    }
  }

  /** Input that stops within a head is no request, wherever it stops. */
  lemma CutOff(h: Lines, verb: string, url: string, cut: string)
    requires Heads(h, verb, url) && '\n' !in cut
    ensures ReadRequest(Concat(h.pings) + cut) == RequestRead.Failed(EndOfInput)
    ensures ReadRequest(Concat(h.pings) + (h.start + (Concat(h.fields) + cut))) == RequestRead.Failed(EndOfInput)
  {
    hide FirstLine, StartLine, ReadHeaders, ReadSections, TrimSpace, IsLine, Concat, TextLines, BlankLine, BlankLines;
    NoFirstLine(h.pings, cut);
    StartIs(TrimSpace(h.start), verb, url);
    FirstLineReads(h.pings, h.start, Concat(h.fields) + cut);
    NoEnd(h.fields, cut, map[]);
  }

  /** So is one with fewer bytes behind the head than it announces. */
  lemma TooShort(h: Lines, verb: string, url: string, headers: Headers, layout: Layout, after: string)
    requires Heads(h, verb, url) && verb != "OPTIONS" && Collected(h.fields, headers)
    requires Announces(headers, layout) && |after| < layout.hdrLen
    ensures ReadRequest(HeadText(h, after)) == RequestRead.Failed(HeaderSectionShort)
  {
    hide ReadRequest, Collected, Entered, Heads, HeadText, Encapsulated, EncapsulatedValue, Announces;
    SameHeaders(h.fields, headers);
    AnnouncesIs(headers, layout);
    RequestAfterHead(h, verb, url, after);
  }

  // ---- Round trips ----

  /** What a sender announces: sections of a request or of a response, and where the body starts. */
  function EncapsulatedOf(first: string, kind: string, offset: nat): string {
    first + "=0, " + kind + "=" + Digits(offset, 10)
  }

  predicate Sectional(first: string, kind: string) {
    first in {"req-hdr", "res-hdr"} && kind in {"req-body", "res-body", "null-body"}
  }

  lemma FirstPart(first: string, layout: Layout)
    requires first in {"req-hdr", "res-hdr"}
    ensures WithPart(layout, first + "=0") == layout && ',' !in first + "=0"
  {
    hide WithPart;
    OneDigit('0', 10);
    PartRead("", first, "0", layout);
    assert "" + first + "=" + "0" == first + "=0";
  }

  lemma EncapsulatedOfReads(first: string, kind: string, offset: nat)
    requires Sectional(first, kind) && offset <= MAX_INT64
    ensures Encapsulated(EncapsulatedOf(first, kind, offset)) == Layout(offset, kind != "null-body")
  {
    hide WithPart, Digits, Value, AllDigits, WithParts, Split;
    var digits := Digits(offset, 10);
    ValueOfDigits(offset, 10);
    DigitsHaveNo(digits, 10, ',');
    FirstPart(first, Layout(0, false));
    PartRead(" ", kind, digits, Layout(0, false));
    TwoOfThem(first, kind, digits);
    TwoParts(first + "=0", " " + kind + "=" + digits, Layout(0, false));
  }

  lemma TwoOfThem(first: string, kind: string, digits: string)
    requires ',' !in first && ',' !in kind && ',' !in digits
    ensures Split(first + "=0, " + kind + "=" + digits, ',') == [first + "=0"] + [" " + kind + "=" + digits]
  {
    hide Split;
    var a, b := first + "=0", " " + kind + "=" + digits;
    assert first + "=0, " + kind + "=" + digits == a + [','] + b;
    SplitInTwo(a, b);
  }

  lemma RequestAfterHead(h: Lines, verb: string, url: string, after: string)
    requires Heads(h, verb, url)
    ensures ReadRequest(HeadText(h, after)) ==
            if verb == "OPTIONS" then Got(Request(verb, url, Entered(h.fields), "", ""), after)
            else match ReadSections(Encapsulated(EncapsulatedValue(Entered(h.fields))), after)
              case BadSections(e) => RequestRead.Failed(e)
              case Sections(raw, body, rest) => Got(Request(verb, url, Entered(h.fields), raw, body), rest)
  {
    hide FirstLine, StartLine, ReadHeaders, ReadSections, Encapsulated, EncapsulatedValue, TrimSpace, Concat, Entered, Heads, HeadText;
    HeadReads(h, verb, url, after);
  }

  lemma DecidedValue(fields: seq<string>, value: string)
    requires Decided(fields, "encapsulated", value)
    ensures EncapsulatedValue(Entered(fields)) == value
  {
    hide Entered, Decided;
    EnteredIs(fields);
  }

  /** An OPTIONS request leaves exactly what follows its head, whatever its headers announce. */
  lemma OptionsLeaves(h: Lines, url: string, after: string)
    requires Heads(h, "OPTIONS", url)
    ensures exists headers :: Collected(h.fields, headers) &&
                              ReadRequest(HeadText(h, after)) == Got(Request("OPTIONS", url, headers, "", ""), after)
  {
    hide ReadRequest, Collected, Entered, Heads, HeadText;
    EnteredIs(h.fields);
    RequestAfterHead(h, "OPTIONS", url, after);
  }

  lemma InHeaders(fields: seq<string>, headers: Headers, name: string)
    requires Collected(fields, headers)
    ensures name in headers <==> exists w :: Decided(fields, name, w)
  {
    hide Decided;
    if name in headers { assert Decided(fields, name, headers[name]); }
  }

  /** A request without an Encapsulated line has no sections. */
  lemma BareRequest(h: Lines, verb: string, url: string, after: string)
    requires Heads(h, verb, url) && forall w :: !Decided(h.fields, "encapsulated", w)
    ensures exists headers :: Collected(h.fields, headers) &&
                              ReadRequest(HeadText(h, after)) == Got(Request(verb, url, headers, "", ""), after)
  {
    hide ReadRequest, Decided, Entered, Heads, HeadText, Encapsulated;
    EnteredIs(h.fields);
    RequestAfterHead(h, verb, url, after);
    var headers := Entered(h.fields);
    InHeaders(h.fields, headers, "encapsulated");
    NothingSaid(Layout(0, false));
    assert EncapsulatedValue(headers) == "";
    assert after[..0] == "" && after[0..] == after;
  }

  /** Any method but OPTIONS, any URL, any header lines and any section lengths: the raw section and the body are
      read back, however the body is split into chunks, and exactly what follows is left. */
  lemma MessageRoundTrip(h: Lines, verb: string, url: string, first: string, kind: string, hdr: string,
                         chunks: seq<Chunk>, last: Chunk, tail: string)
    requires Heads(h, verb, url) && verb != "OPTIONS" && Sectional(first, kind) && |hdr| <= MAX_INT64
    requires Decided(h.fields, "encapsulated", EncapsulatedOf(first, kind, |hdr|))
    requires forall k :: 0 <= k < |chunks| ==> ValidChunk(chunks[k]) && chunks[k].data != ""
    requires ValidChunk(last) && last.data == ""
    ensures exists headers ::
              && Collected(h.fields, headers)
              && ReadRequest(HeadText(h, hdr + (if kind == "null-body" then tail else Encode(chunks, last, tail)))) ==
                 if kind == "null-body" then Got(Request(verb, url, headers, hdr, ""), tail)
                 else if |Joined(chunks)| <= MAX_BODY_SIZE then Got(Request(verb, url, headers, hdr, Joined(chunks)), tail)
                 else RequestRead.Failed(BodyTooLarge)
  {
    hide ReadRequest, Collected, Entered, Heads, HeadText, Encapsulated, EncapsulatedOf, Decided, ReadSections, EncapsulatedValue;
    hide ValidChunk, Encode, Joined;
    var sections := if kind == "null-body" then tail else Encode(chunks, last, tail);
    EnteredIs(h.fields);
    RequestAfterHead(h, verb, url, hdr + sections);
    DecidedValue(h.fields, EncapsulatedOf(first, kind, |hdr|));
    EncapsulatedOfReads(first, kind, |hdr|);
    if kind == "null-body" {
      SectionsApart(hdr, tail, Layout(|hdr|, false));
    } else {
      SectionsApart(hdr, sections, Layout(|hdr|, true));
      ChunkingIsIrrelevant(chunks, last, tail);
    }
    assert Collected(h.fields, Entered(h.fields));
  }

  lemma SectionsApart(hdr: string, s: string, layout: Layout)
    requires layout.hdrLen == |hdr|
    ensures ReadSections(layout, hdr + s) ==
            if !layout.hasBody then Sections(hdr, "", s)
            else match DecodeChunks(s, 0)
              case BadBody(e) => BadSections(e)
              case Body(bytes, rest) => Sections(hdr, bytes, rest)
  {
    hide DecodeChunks;
    assert (hdr + s)[..|hdr|] == hdr && (hdr + s)[|hdr|..] == s;
  }

  // ---- Printed heads ----

  function Printed(fields: seq<(string, string)>): seq<string> {
    seq(|fields|, k requires 0 <= k < |fields| => fields[k].0 + ": " + fields[k].1 + "\r\n")
  }

  function PrintedHead(verb: string, url: string, fields: seq<(string, string)>): Lines {
    Lines([], verb + " " + url + " " + ICAP_VERSION + "\r\n", Printed(fields), "\r\n")
  }

  ghost predicate Printable(fields: seq<(string, string)>) {
    forall k :: 0 <= k < |fields| ==> Field(fields[k].0) && ':' !in fields[k].0 && Field(fields[k].1)
  }

  lemma PrintedLineStates(name: string, value: string, k: string, v: string)
    requires Field(name) && ':' !in name && Field(value)
    ensures var line := name + ": " + value + "\r\n";
            && IsLine(line) && TrimSpace(line) != ""
            && (States(line, k, v) <==> k == ToLower(name) && v == value)
  {
    HeaderLine(name, value);
    hide *;
    var line := name + ": " + value + "\r\n";
    PrintedStates(line, name, value, k, v);
  }

  lemma PrintedStates(line: string, name: string, value: string, k: string, v: string)
    requires Field(name) && ':' !in name && Field(value) && TrimSpace(line) == name + ": " + value
    ensures States(line, k, v) <==> k == ToLower(name) && v == value
  {
    ValueTrims(name, value);
    hide TrimSpace, ToLower, IndexByte;
    var text, b := TrimSpace(line), " " + value;
    assert text == name + [':'] + b;
    assert Splits(text, name, ':', b);
    forall x, y | Splits(text, x, ':', y) ensures x == name && y == b {
      SplitsOnce(text, x, ':', y);
      SplitsOnce(text, name, ':', b);
    }
    hide Splits;
  }

  lemma ValueTrims(name: string, value: string)
    requires Field(name) && Field(value)
    ensures TrimSpace(name) == name && TrimSpace(" " + value) == value
  {
    hide TrimSpace;
    TrimTight(name);
    assert " " + value + "" == " " + value;
    TrimExact(" ", value, "");
  }

  /** A printed head is one, and it states what was printed, the last of equal names deciding. */
  lemma PrintedHeads(verb: string, url: string, fields: seq<(string, string)>)
    requires Field(verb) && Field(url) && ' ' !in verb && ' ' !in url && Printable(fields)
    ensures Heads(PrintedHead(verb, url, fields), verb, url)
    ensures forall name, value ::
              Decided(Printed(fields), name, value) <==>
              exists k :: 0 <= k < |fields| && LastFor(fields, k, name) && value == fields[k].1
  {
    hide TrimSpace, IsLine, States, ToLower, ICAP_VERSION, Starts;
    PrintedStart(verb, url);
    PrintedEnd();
    forall j | 0 <= j < |fields| ensures IsLine(Printed(fields)[j]) && TrimSpace(Printed(fields)[j]) != "" {
      PrintedLineStates(fields[j].0, fields[j].1, "", "");
    }
    assert TextLines(Printed(fields));
    assert BlankLines([]);
    forall j, k, v | 0 <= j < |fields|
      ensures States(Printed(fields)[j], k, v) <==> k == ToLower(fields[j].0) && v == fields[j].1
    {
      PrintedLineStates(fields[j].0, fields[j].1, k, v);
    }
    hide Field;
    forall name, value
      ensures Decided(Printed(fields), name, value) <==>
              exists k :: 0 <= k < |fields| && LastFor(fields, k, name) && value == fields[k].1
    {
      if k :| 0 <= k < |fields| && States(Printed(fields)[k], name, value) && SilentAfter(Printed(fields), k, name) {
        forall j | k < j < |fields| ensures ToLower(fields[j].0) != name {
          assert !States(Printed(fields)[j], name, fields[j].1);
        }
        assert LastFor(fields, k, name);
      }
      if k :| 0 <= k < |fields| && LastFor(fields, k, name) && value == fields[k].1 {
        assert SilentAfter(Printed(fields), k, name);
      }
    }
  }

  ghost predicate LastFor(fields: seq<(string, string)>, k: nat, name: string)
    requires k < |fields|
  {
    ToLower(fields[k].0) == name && forall j :: k < j < |fields| ==> ToLower(fields[j].0) != name
  }

  lemma PrintedStart(verb: string, url: string)
    requires Field(verb) && Field(url) && ' ' !in verb && ' ' !in url
    ensures Starts(verb + " " + url + " " + ICAP_VERSION + "\r\n", verb, url)
  {
    var line := verb + " " + url + " " + ICAP_VERSION;
    TextLine(line);
    assert line[0] == verb[0] && line[|line| - 1] == '0';
    assert "" + line + "\r\n" == line + "\r\n";
    hide TrimSpace, IsLine;
    TrimExact("", line, "\r\n");
  }

  lemma PrintedEnd()
    ensures BlankLine("\r\n")
  {
    hide TrimSpace;
    assert "" + "" + "\r\n" == "\r\n";
    TrimExact("", "", "\r\n");
  }
}
