/** The reply that carries a masked request: the raw header bytes with a new Content-Length, and the
    masked body as one chunk. */
module MaskedReply {
  import opened Text
  import opened ChunkedBody
  import opened IcapMessage

  // ---- Content-Length ----

  const MARK := "\ncontent-length:"
  const CRLF := "\r\n"

  function LengthLine(n: nat): (line: string)
    ensures IsAscii(line) && '\r' !in line && '\n' !in line
  {
    DigitsHaveNo(Digits(n, 10), 10, '\r');
    DigitsHaveNo(Digits(n, 10), 10, '\n');
    assert forall k :: 0 <= k < |Digits(n, 10)| ==> IsDigit(Digits(n, 10)[k], 10);
    "Content-Length: " + Digits(n, 10)
  }

  /** Where the first Content-Length line starts; the request line is never one. */
  function LineStart(h: string): int {
    var i := Index(ToLower(h), MARK);
    if i == -1 then -1 else i + 1
  }

  /** Where the first Content-Length line ends, when a CRLF ends it. */
  function LineEnd(h: string): (end: int)
    ensures end != -1 ==> 0 <= LineStart(h) <= end <= |h|
  {
    var start := LineStart(h);
    if start == -1 then -1
    else
      var end := Index(h[start..], CRLF);
      if end == -1 then -1 else start + end
  }

  /** `rawUpdateContentLength`, on headers for which `strings.ToLower` changes single bytes only. */
  function UpdateLength(h: string, n: nat): (r: string)
    requires IsAscii(h)
    ensures IsAscii(r)
  {
    if LineEnd(h) != -1 then
      AsciiParts(h, LineStart(h), LineEnd(h));
      AsciiJoin(h[..LineStart(h)], LengthLine(n), h[LineEnd(h)..]);
      h[..LineStart(h)] + LengthLine(n) + h[LineEnd(h)..]
    else
      var terminator := LastIndex(h, CRLF2);
      if terminator != -1 then
        AsciiParts(h, terminator + 2, |h|);
        AsciiJoin(h[..terminator + 2], LengthLine(n), CRLF2);
        h[..terminator + 2] + LengthLine(n) + CRLF2
      else h
  }

  lemma AsciiParts(h: string, i: nat, j: nat)
    requires IsAscii(h) && i <= |h| && j <= |h|
    ensures IsAscii(h[..i]) && IsAscii(h[j..])
  {
  }

  lemma AsciiJoin(a: string, b: string, c: string)
    requires IsAscii(a) && IsAscii(b) && IsAscii(c)
    ensures IsAscii(a + b + c)
  {
  }

  /** The number on the first CRLF-ended Content-Length line, as a reader takes it. */
  function ReadLength(h: string): Option<Number> {
    if LineEnd(h) == -1 then None
    else
      var line := h[LineStart(h)..LineEnd(h)];
      Some(ParseInt(TrimSpace(line[IndexByte(line, ':') + 1..]), 10))
  }

  /** `h` is `before`, its first Content-Length line, and `after`; said without searching.  The line runs up to
      the next CRLF: text behind a bare newline in it belongs to it. */
  ghost predicate FirstLengthLine(h: string, before: string, line: string, after: string) {
    && h == before + line + after
    && |before| > 0 && before[|before| - 1] == '\n' && !Contains(ToLower(before), MARK)
    && |line| >= 15 && ToLower(line[..15]) == MARK[1..] && !Contains(line, CRLF)
    && |after| >= 2 && after[..2] == CRLF
  }

  lemma MarkShape()
    ensures LeadOnly(MARK) && |MARK| == 16 && '\r' !in MARK && LeadOnly(CRLF)
    ensures MARK == "\n" + MARK[1..]
  {
  }

  lemma LengthLineShape(n: nat)
    ensures |LengthLine(n)| >= 15 && ToLower(LengthLine(n)[..15]) == MARK[1..]
    ensures !Contains(LengthLine(n), CRLF)
  {
    var l := LengthLine(n);
    assert l[..15] == "Content-Length:";
    assert ToLower("Content-Length:") == "content-length:" == MARK[1..];
    MissingCharMissingPattern(l, CRLF, 0);
  }

  lemma LowerConcat(a: string, b: string)
    ensures ToLower(a + b) == ToLower(a) + ToLower(b)
  {
  }

  lemma MarkAt(before: string, line: string, after: string)
    requires |before| > 0 && before[|before| - 1] == '\n' && |line| >= 15 && ToLower(line[..15]) == MARK[1..]
    ensures ToLower(before + line + after) ==
            ToLower(before[..|before| - 1]) + MARK + ToLower(line[15..] + after)
  {
    var front, name, tail := before[..|before| - 1], line[..15], line[15..] + after;
    MarkShape();
    assert ToLower("\n") == "\n";
    hide ToLower;
    Regrouped(before, line, after, front, name, line[15..]);
    LowerConcat(front, "\n" + (name + tail));
    LowerConcat("\n", name + tail);
    LowerConcat(name, tail);
    Regroup4(ToLower(front), "\n", MARK[1..], ToLower(tail));
  }

  lemma Regrouped(before: string, line: string, after: string, front: string, name: string, value: string)
    requires before == front + "\n" && line == name + value
    ensures before + line + after == front + ("\n" + (name + (value + after)))
  {
  }

  lemma Regroup4(a: string, b: string, c: string, d: string)
    ensures a + (b + (c + d)) == a + (b + c) + d
  {
  }

  lemma FreePrefix(a: string, b: string)
    requires !Contains(ToLower(a + b), MARK)
    ensures !Contains(ToLower(a), MARK)
  {
    LowerConcat(a, b);
    if Contains(ToLower(a), MARK) {
      ContainedInPrefix(ToLower(a), ToLower(b), MARK);
    }
  }

  lemma StartFound(before: string, line: string, after: string)
    requires |before| > 0 && before[|before| - 1] == '\n' && !Contains(ToLower(before), MARK)
    requires |line| >= 15 && ToLower(line[..15]) == MARK[1..]
    ensures LineStart(before + line + after) == |before|
  {
    hide ToLower, Contains;
    var front := before[..|before| - 1];
    MarkAt(before, line, after);
    assert before == front + "\n";
    FreePrefix(front, "\n");
    LowerLength(front);
    MarkShape();
    hide LeadOnly;
    FirstAfterPrefix(ToLower(front), MARK, ToLower(line[15..] + after));
  }

  /** The search finds exactly the first Content-Length line. */
  lemma LineFound(h: string, before: string, line: string, after: string)
    requires FirstLengthLine(h, before, line, after)
    ensures LineStart(h) == |before| && LineEnd(h) == |before| + |line|
  {
    hide ToLower, Contains, LineStart;
    StartFound(before, line, after);
    LineEndFound(line, after);
    assert h[|before|..] == line + after;
  }

  lemma LowerLength(s: string)
    ensures |ToLower(s)| == |s|
  {
  }

  lemma LineEndFound(line: string, after: string)
    requires !Contains(line, CRLF) && |after| >= 2 && after[..2] == CRLF
    ensures Index(line + after, CRLF) == |line|
  {
    MarkShape();
    assert line + after == line + CRLF + after[2..];
    FirstAfterPrefix(line, CRLF, after[2..]);
  }

  lemma LowerKeeps(s: string, k: nat, c: char)
    requires k < |s| && (c == '\n' || c == '\r')
    ensures ToLower(s)[k] == c <==> s[k] == c
  {
  }

  lemma LowerSlice(s: string, i: nat, j: nat)
    requires i <= j <= |s|
    ensures ToLower(s[i..j]) == ToLower(s)[i..j]
  {
  }

  lemma NoMarkBefore(h: string, start: nat)
    requires start <= |h| && forall i :: HasAt(ToLower(h), MARK, i) ==> start <= i + 1
    ensures !Contains(ToLower(h[..start]), MARK)
  {
    LowerSlice(h, 0, start);
    hide ToLower;
    LowerLength(h);
    forall i: nat ensures !HasAt(ToLower(h)[..start], MARK, i) {
      HasAtInFront(ToLower(h), MARK, start, i);
    }
  }

  lemma MarkText(h: string, i: nat)
    requires HasAt(ToLower(h), MARK, i)
    ensures i + 16 <= |h| && h[i] == '\n' && ToLower(h[i + 1..i + 16]) == MARK[1..]
    ensures forall k :: i < k < i + 16 ==> h[k] != '\r'
  {
    MarkShape();
    CharAt(ToLower(h), MARK, i, i);
    LowerKeeps(h, i, '\n');
    LowerSlice(h, i + 1, i + 16);
    assert ToLower(h)[i..i + 16][1..] == ToLower(h)[i + 1..i + 16];
    forall k | i < k < i + 16 ensures h[k] != '\r' {
      CharAt(ToLower(h), MARK, i, k);
      LowerKeeps(h, k, '\r');
    }
  }

  lemma NoCRLFBefore(s: string, end: nat)
    requires end <= |s| && forall i :: HasAt(s, CRLF, i) ==> end <= i
    ensures !Contains(s[..end], CRLF)
  {
    forall i: nat ensures !HasAt(s[..end], CRLF, i) {
      HasAtInFront(s, CRLF, end, i);
    }
  }

  lemma EndIsCRLF(h: string)
    requires LineEnd(h) != -1
    ensures LineEnd(h) + 2 <= |h| && h[LineEnd(h)] == '\r' && h[LineEnd(h)..][..2] == CRLF
    ensures !Contains(h[LineStart(h)..][..LineEnd(h) - LineStart(h)], CRLF)
  {
    hide ToLower, LineStart;
    var start, end := LineStart(h), LineEnd(h);
    HasAtInTail(h, CRLF, start, end - start);
    CharAt(h, CRLF, end, end);
    NoCRLFBefore(h[start..], end - start);
    assert h[end..][..2] == h[end..end + 2];
  }

  lemma StartIsMark(h: string)
    requires LineStart(h) != -1
    ensures 1 <= LineStart(h) <= |h| - 15 && h[LineStart(h) - 1] == '\n'
    ensures ToLower(h[LineStart(h)..LineStart(h) + 15]) == MARK[1..] && !Contains(ToLower(h[..LineStart(h)]), MARK)
    ensures forall k :: LineStart(h) <= k < LineStart(h) + 15 ==> h[k] != '\r'
  {
    hide ToLower;
    MarkText(h, LineStart(h) - 1);
    NoMarkBefore(h, LineStart(h));
  }

  lemma ThreeParts(h: string, i: nat, j: nat)
    requires i + 15 <= j <= |h|
    ensures h == h[..i] + h[i..j] + h[j..] && h[i..][..j - i] == h[i..j] && h[i..j][..15] == h[i..i + 15]
  {
  }

  /** Whenever the search succeeds there is a first Content-Length line, and it is what was found. */
  lemma FoundIsFirst(h: string)
    requires LineEnd(h) != -1
    ensures FirstLengthLine(h, h[..LineStart(h)], h[LineStart(h)..LineEnd(h)], h[LineEnd(h)..])
  {
    EndIsCRLF(h);
    StartIsMark(h);
    hide ToLower, Contains, LineStart, LineEnd;
    ThreeParts(h, LineStart(h), LineEnd(h));
  }

  /** A writer's place: what stands before the line, and what stands after it. */
  lemma EditPlace(h: string) returns (before: string, after: string)
    requires IsAscii(h) && Editable(h)
    ensures forall n: nat {:trigger UpdateLength(h, n)} :: UpdateLength(h, n) == before + LengthLine(n) + after
    ensures forall n: nat {:trigger UpdateLength(h, n)} ::
              FirstLengthLine(UpdateLength(h, n), before, LengthLine(n), after)
  {
    hide ToLower;
    if LineEnd(h) != -1 {
      FoundIsFirst(h);
      before, after := h[..LineStart(h)], h[LineEnd(h)..];
    } else {
      before, after := InsertPlace(h);
    }
    forall n: nat ensures FirstLengthLine(before + LengthLine(n) + after, before, LengthLine(n), after) {
      LengthLineShape(n);
    }
  }

  lemma InsertPlace(h: string) returns (before: string, after: string)
    requires LineEnd(h) == -1 && LastIndex(h, CRLF2) != -1
    ensures before == h[..LastIndex(h, CRLF2) + 2] && after == CRLF2
    ensures |before| > 0 && before[|before| - 1] == '\n' && !Contains(ToLower(before), MARK)
  {
    hide ToLower;
    var t := LastIndex(h, CRLF2);
    before, after := h[..t + 2], CRLF2;
    CharAt(h, CRLF2, t, t + 1);
    NoLaterCRLF(h, t);
    NoMarkBefore(h, t + 2);
  }

  /** When no CRLF follows the first mark, every blank line stands before it. */
  lemma NoLaterCRLF(h: string, t: nat)
    requires LineEnd(h) == -1 && HasAt(h, CRLF2, t)
    ensures forall i :: HasAt(ToLower(h), MARK, i) ==> t + 2 <= i + 1
  {
    hide ToLower;
    var start := LineStart(h);
    HasAtFront(h, CRLF2, t, 2);
    if 0 <= start <= t + 2 {
      HasAtInTail(h, CRLF, start, t + 2 - start);
    }
  }

  predicate Editable(h: string) {
    LineEnd(h) != -1 || LastIndex(h, CRLF2) != -1
  }

  // ---- What the edit guarantees ----

  /** Every byte outside the first Content-Length line stays where it was. */
  lemma OnlyTheLineChanges(h: string, before: string, line: string, after: string, n: nat)
    requires IsAscii(h) && FirstLengthLine(h, before, line, after)
    ensures UpdateLength(h, n) == before + LengthLine(n) + after
  {
    hide ToLower, FirstLengthLine;
    LineFound(h, before, line, after);
    assert h == before + line + after by { FirstLineParts(h, before, line, after); }
    assert h[..|before|] == before && h[|before| + |line|..] == after;
  }

  /** So header lines that only a bare newline divides from it go with it, without a trace. */
  lemma JoinedLinesGo(h: string, before: string, line: string, joined: string, after: string, n: nat)
    requires IsAscii(h) && |line| >= 15 && FirstLengthLine(h, before, line + ("\n" + joined), after)
    ensures IsAscii(before + line + after) && UpdateLength(h, n) == UpdateLength(before + line + after, n)
  {
    ShorterLine(h, before, line, joined, after);
    hide FirstLengthLine, UpdateLength, ToLower;
    OnlyTheLineChanges(h, before, line + ("\n" + joined), after, n);
    OnlyTheLineChanges(before + line + after, before, line, after, n);
  }

  lemma ShorterLine(h: string, before: string, line: string, joined: string, after: string)
    requires IsAscii(h) && |line| >= 15 && FirstLengthLine(h, before, line + ("\n" + joined), after)
    ensures IsAscii(before + line + after) && FirstLengthLine(before + line + after, before, line, after)
  {
    var whole, rest := line + ("\n" + joined), "\n" + joined;
    assert whole[..15] == line[..15];
    if Contains(line, CRLF) { ContainedInPrefix(line, rest, CRLF); }
    hide ToLower, Contains;
    ShorterIsAscii(before, line, rest, after);
  }

  lemma ShorterIsAscii(before: string, line: string, rest: string, after: string)
    requires IsAscii(before + (line + rest) + after)
    ensures IsAscii(before + line + after)
  {
    var h, t := before + (line + rest) + after, before + line + after;
    forall k | 0 <= k < |t| ensures t[k] as int < 128 {
      assert t[k] == h[if k < |before| + |line| then k else k + |rest|];
    }
  }

  /** When the line is inserted, it goes to the last blank line: the text up to there is kept, and what stands
      behind that blank line is dropped. */
  lemma InsertedAtLastBlankLine(h: string, front: string, behind: string, n: nat)
    requires IsAscii(h) && LineEnd(h) == -1 && h == front + (CRLF2 + behind)
    requires forall i :: HasAt(h, CRLF2, i) ==> i <= |front|
    ensures UpdateLength(h, n) == (front + CRLF) + LengthLine(n) + CRLF2
  {
    hide LineEnd, LineStart, LengthLine, ToLower;
    assert h[|front|..|front| + 4] == CRLF2;
    assert HasAt(h, CRLF2, |front|);
    assert LastIndex(h, CRLF2) == |front|;
    assert h[..|front| + 2] == front + CRLF;
  }

  lemma FirstLineParts(h: string, before: string, line: string, after: string)
    requires FirstLengthLine(h, before, line, after)
    ensures h == before + line + after
  {
  }

  lemma EditedAgain(h: string, n: nat, before: string, after: string, m: nat)
    requires IsAscii(h) && UpdateLength(h, n) == before + LengthLine(n) + after
    requires FirstLengthLine(UpdateLength(h, n), before, LengthLine(n), after)
    ensures UpdateLength(UpdateLength(h, n), m) == before + LengthLine(m) + after
  {
    hide UpdateLength, FirstLengthLine, LengthLine;
    OnlyTheLineChanges(UpdateLength(h, n), before, LengthLine(n), after, m);
  }

  /** The last write wins, on all headers. */
  lemma LastWriteWins(h: string, a: nat, b: nat)
    requires IsAscii(h)
    ensures UpdateLength(UpdateLength(h, a), b) == UpdateLength(h, b)
  {
    if Editable(h) {
      var before, after := EditPlace(h);
      hide UpdateLength, FirstLengthLine, LengthLine;
      EditedAgain(h, a, before, after, b);
    }
  }

  lemma NumberOnLine(n: nat)
    requires n <= MAX_INT64
    ensures var line := LengthLine(n); ParseInt(TrimSpace(line[IndexByte(line, ':') + 1..]), 10) == Num(n)
  {
    var digits := Digits(n, 10);
    ValueOfDigits(n, 10);
    ParseIntOfDigits(digits, 10);
    DigitsAreTight(digits, 10);
    hide Digits, ParseInt, AllDigits;
    assert LengthLine(n) == "Content-Length" + [':'] + (" " + digits);
    IndexByteExact("Content-Length", ':', " " + digits);
    assert " " + digits == " " + digits + "";
    TrimExact(" ", digits, "");
  }

  lemma Middle(before: string, line: string, after: string)
    ensures (before + line + after)[|before|..|before| + |line|] == line
  {
  }

  /** The number on a line that the search found. */
  lemma ReadLengthAt(h: string, line: string)
    requires LineEnd(h) != -1 && h[LineStart(h)..LineEnd(h)] == line
    ensures ReadLength(h) == Some(ParseInt(TrimSpace(line[IndexByte(line, ':') + 1..]), 10))
  {
    hide ParseInt, TrimSpace, LineStart, LineEnd;
  }

  lemma LengthReadBack(h: string, before: string, n: nat, after: string)
    requires FirstLengthLine(h, before, LengthLine(n), after) && n <= MAX_INT64
    ensures ReadLength(h) == Some(Num(n))
  {
    hide *;
    LineFound(h, before, LengthLine(n), after);
    FirstLineParts(h, before, LengthLine(n), after);
    NumberOnLine(n);
    Middle(before, LengthLine(n), after);
    ReadLengthAt(h, LengthLine(n));
  }

  /** The new length can be read back exactly when there was a place to write it: a CRLF-ended
      Content-Length line or a blank line. */
  lemma ReadsBackIff(h: string, n: nat)
    requires IsAscii(h) && n <= MAX_INT64
    ensures ReadLength(UpdateLength(h, n)) == Some(Num(n)) <==> Editable(h)
  {
    if Editable(h) {
      var before, after := EditPlace(h);
      hide UpdateLength, FirstLengthLine, LengthLine, ReadLength;
      LengthReadBack(UpdateLength(h, n), before, n, after);
    }
  }

  /** A header section that ends with its blank line still does. */
  lemma KeepsBlankLine(h: string, n: nat)
    requires IsAscii(h) && HasSuffix(h, CRLF2)
    ensures HasSuffix(UpdateLength(h, n), CRLF2) && Editable(h)
  {
    hide ToLower;
    var last := |h| - 4;
    assert HasAt(h, CRLF2, last);
    if LineEnd(h) != -1 {
      EndsByBlankLine(h);
      SuffixOfTail(h[..LineStart(h)] + LengthLine(n), h, LineEnd(h));
    } else {
      SuffixOfTail(h[..LastIndex(h, CRLF2) + 2] + LengthLine(n), CRLF2, 0);
    }
  }

  lemma SuffixOfTail(front: string, h: string, from: nat)
    requires HasSuffix(h, CRLF2) && from <= |h| - 4
    ensures HasSuffix(front + h[from..], CRLF2)
  {
    var r := front + h[from..];
    assert r[|r| - 4..] == h[|h| - 4..];
  }

  lemma EndsByBlankLine(h: string)
    requires HasSuffix(h, CRLF2) && LineEnd(h) != -1
    ensures LineEnd(h) <= |h| - 4
  {
    hide ToLower;
    var start, last := LineStart(h), |h| - 4;
    assert HasAt(h, CRLF2, last);
    HasAtFront(h, CRLF2, last, 2);
    CharAt(h, CRLF2, last, last);
    MarkText(h, start - 1);
    HasAtInTail(h, CRLF, start, last - start);
  }

  /** A CRLF-ended Content-Length line is found exactly when there is one. */
  lemma FoundIff(h: string)
    ensures LineEnd(h) != -1 <==> exists before, line, after :: FirstLengthLine(h, before, line, after)
  {
    hide FirstLengthLine, LineEnd;
    if LineEnd(h) != -1 { FoundIsFirst(h); }
    forall before, line, after | FirstLengthLine(h, before, line, after) ensures LineEnd(h) != -1 {
      LineFound(h, before, line, after);
    }
  }

  // ---- The reply ----

  const ISTAG := "\"AI-SCAN-1.0\""
  const OK_LINE := "ICAP/1.0 200 OK"
  const NO_MODIFICATIONS := "ICAP/1.0 204 No Modifications Needed\r\nISTag: \"AI-SCAN-1.0\"\r\n\r\n"

  /** An ICAP 200 reply that replaces the request, followed by `tail`. */
  function Masked(hdr: string, body: string, tail: string): string {
    (OK_LINE + "\r\n") +
    (("ISTag" + ": " + ISTAG + "\r\n") +
     (("Encapsulated" + ": " + EncapsulatedText("req-body", |hdr|) + "\r\n") +
      ("\r\n" + (hdr + (OneChunk(body) + tail)))))
  }

  class Connection {
    var sent: string

    constructor ()
      ensures sent == ""
    {
      sent := "";
    }

    method Write(bytes: string)
      modifies this
      ensures sent == old(sent) + bytes
    {
      sent := sent + bytes;
    }
  }

  /** `WriteMasked`: `raw` is the header section as received, `rebuilt` what Go's header writer makes of
      the parsed request when there is one. */
  method WriteMasked(conn: Connection, raw: string, rebuilt: Option<string>, maskedBody: string)
    requires IsAscii(raw)
    modifies conn
    ensures conn.sent == old(conn.sent) +
                         if raw != "" then Masked(UpdateLength(raw, |maskedBody|), maskedBody, "")
                         else if rebuilt.Some? then Masked(rebuilt.value, maskedBody, "")
                         else NO_MODIFICATIONS
  {
    hide UpdateLength, Digits;
    var hdr;
    if |raw| > 0 {
      hdr := UpdateLength(raw, |maskedBody|);
    } else if rebuilt.Some? {
      hdr := rebuilt.value;
    } else {
      conn.Write(NO_MODIFICATIONS);
      return;
    }
    ghost var before := conn.sent;
    var encap := EncapsulatedText("req-body", |hdr|);
    var status, tag := OK_LINE + "\r\n", "ISTag" + ": " + ISTAG + "\r\n";
    var sections := "Encapsulated" + ": " + encap + "\r\n";
    var size, end := Digits(|maskedBody|, 16) + "\r\n", "\r\n" + "0\r\n\r\n";
    hide EncapsulatedText;
    assert Masked(hdr, maskedBody, "") ==
           status + (tag + (sections + ("\r\n" + (hdr + (size + maskedBody + end + "")))));
    hide Masked;
    conn.Write(status + tag + sections + "\r\n");
    conn.Write(hdr);
    conn.Write(size);
    conn.Write(maskedBody);
    conn.Write(end);
    Regroup8(before, status, tag, sections, "\r\n", hdr, size, maskedBody, end);
  }

  lemma Regroup8(z: string, a: string, b: string, c: string, d: string, e: string, f: string, g: string, h: string)
    ensures z + (a + b + c + d) + e + f + g + h == z + (a + (b + (c + (d + (e + (f + g + h + ""))))))
  {
  }

  datatype ReplyRead = Reply(status: string, headers: Headers, raw: string, body: string, rest: string)
                     | BadReply(error: ReadError)

  /** An ICAP client's view of a reply: the head, then the sections it announces. */
  function ReadReply(s: string): ReplyRead {
    match FirstLine(s)
    case NoLine => BadReply(EndOfInput)
    case GotLine(line, afterLine) =>
      match ReadHeaders(afterLine, map[])
      case NoHead => BadReply(EndOfInput)
      case Head(headers, afterHead) =>
        match ReadSections(Encapsulated(EncapsulatedValue(headers)), afterHead)
        case BadSections(e) => BadReply(e)
        case Sections(raw, body, rest) => Reply(line, headers, raw, body, rest)
  }

  function ReplyHeaders(hdr: string): Headers {
    map["istag" := ISTAG, "encapsulated" := EncapsulatedText("req-body", |hdr|)]
  }

  lemma MaskedHead(rest: string)
    ensures FirstLine((OK_LINE + "\r\n") + rest) == GotLine(OK_LINE, rest)
  {
    TextLine(OK_LINE);
    ReadLineExact(OK_LINE + "\r\n", rest);
    hide ReadLine;
    assert "" + OK_LINE + "\r\n" == OK_LINE + "\r\n";
    TrimExact("", OK_LINE, "\r\n");
  }

  lemma MaskedHeaders(encap: string, rest: string)
    requires Field(encap)
    ensures ReadHeaders(("ISTag" + ": " + ISTAG + "\r\n") +
                        (("Encapsulated" + ": " + encap + "\r\n") + ("\r\n" + rest)), map[]) ==
            Head(map["istag" := ISTAG, "encapsulated" := encap], rest)
  {
    hide ReadHeaders, ToLower;
    var one := map[]["istag" := ISTAG];
    HeaderRead("ISTag", ISTAG, ("Encapsulated" + ": " + encap + "\r\n") + ("\r\n" + rest), map[]);
    HeaderRead("Encapsulated", encap, "\r\n" + rest, one);
    BlankRead(rest, one["encapsulated" := encap]);
    LowerNames();
  }

  /** What a client decodes from the emitted reply, for every body length: the headers and the body whole
      when the body is between 1 byte and 16 MiB; an empty body leaves five bytes unread, and a longer one
      is refused.  So nothing is left over if and only if 0 < |body| <= 16 MiB. */
  lemma ReplyRoundTrip(hdr: string, body: string, tail: string)
    requires |hdr| <= MAX_INT64 && |body| <= MAX_INT64
    ensures ReadReply(Masked(hdr, body, tail)) ==
            if |body| > MAX_CHUNK_SIZE then BadReply(ChunkTooLarge)
            else Reply(OK_LINE, ReplyHeaders(hdr), hdr, body, if body == "" then "0\r\n\r\n" + tail else tail)
  {
    hide FirstLine, ReadHeaders, Encapsulated, ReadSections, EncapsulatedText, OneChunk;
    var encap := EncapsulatedText("req-body", |hdr|);
    var sections := hdr + (OneChunk(body) + tail);
    EncapsulatedIsField("req-body", |hdr|);
    EncapsulatedRead("req-body", |hdr|);
    MaskedHead(("ISTag" + ": " + ISTAG + "\r\n") + (("Encapsulated" + ": " + encap + "\r\n") + ("\r\n" + sections)));
    MaskedHeaders(encap, sections);
    PrintedSections(hdr, body, tail);
  }

  /** The edit adds at most one short line. */
  lemma UpdateIsShort(h: string, n: nat)
    requires IsAscii(h) && n <= MAX_CHUNK_SIZE
    ensures |UpdateLength(h, n)| <= |h| + 28
  {
    assert Limit(0, 10) == 1 && Limit(3, 10) == 1000 && Limit(6, 10) == 1_000_000;
    assert Limit(8, 10) == 100_000_000;
    DigitsAreShort(n, 8, 10);
    hide Digits, LineEnd, LineStart;
  }

  /** From the request on the wire to the reply on the wire: the client gets the header section back with
      its Content-Length set to the masked body's length, its blank line in place, and the masked body; nothing
      is left over unless that body is empty. */
  lemma MaskedEndToEnd(httpHdrs: string, body: string, masked: string, next: string, tail: string)
    requires IsAscii(httpHdrs) && |httpHdrs| + 64 <= MAX_INT64 && |body| <= MAX_CHUNK_SIZE
    requires |masked| <= MAX_CHUNK_SIZE
    ensures var request := ReadRequest(Reqmod(httpHdrs, body, next));
            && request.Got? && request.rest == next && IsAscii(request.request.raw)
            && var sent := UpdateLength(request.request.raw, |masked|);
               && ReadReply(Masked(sent, masked, tail)) ==
                  Reply(OK_LINE, ReplyHeaders(sent), sent, masked, if masked == "" then "0\r\n\r\n" + tail else tail)
               && ReadLength(sent) == Some(Num(|masked|)) && HasSuffix(sent, CRLF2)
  {
    hide ReadRequest, ReadReply, UpdateLength, Masked, Reqmod, ReadLength, Editable, ReplyHeaders;
    RequestRoundTrip(httpHdrs, body, next);
    var raw := HeaderSection(httpHdrs);
    assert HasSuffix(raw, CRLF2);
    KeepsBlankLine(raw, |masked|);
    ReadsBackIff(raw, |masked|);
    UpdateIsShort(raw, |masked|);
    ReplyRoundTrip(UpdateLength(raw, |masked|), masked, tail);
  }
}
