/** Chunked bodies as `readChunked` accepts them (section 4.1 of RFC 7230, read leniently). */
module ChunkedBody {
  import opened Text

  const MAX_CHUNK_SIZE := 16777216
  const MAX_BODY_SIZE := 33554432

  datatype ReadError =
    | EndOfInput
    | BadStartLine
    | HeaderSectionShort
    | ChunkSizeMissing
    | ChunkSizeInvalid
    | ChunkSizeNegative
    | ChunkTooLarge
    | BodyTooLarge
    | ChunkDataShort

  /** The bytes of a connection that have not been read yet. */
  class Reader {
    var rest: string

    constructor (bytes: string)
      ensures rest == bytes
    {
      rest := bytes;
    }

    /** `ReadString('\n')`: at the end of input everything left is consumed. */
    method ReadString() returns (line: string, ok: bool)
      modifies this
      ensures ok <==> ReadLine(old(rest)).GotLine?
      ensures ok ==> ReadLine(old(rest)) == GotLine(line, rest)
      ensures !ok ==> line == old(rest) && rest == ""
    {
      match ReadLine(rest)
      case GotLine(l, r) => line, ok, rest := l, true, r;
      case NoLine => line, ok, rest := rest, false, "";
    }

    /** `io.ReadFull`: exactly `n` bytes, or failure with the input used up. */
    method ReadFull(n: nat) returns (data: string, ok: bool)
      modifies this
      ensures ok <==> n <= |old(rest)|
      ensures ok ==> data == old(rest)[..n] && rest == old(rest)[n..]
      ensures !ok ==> rest == ""
    {
      ok := n <= |rest|;
      if ok {
        data, rest := rest[..n], rest[n..];
      } else {
        data, rest := rest, "";
      }
    }
  }

  datatype BodyRead = Body(bytes: string, rest: string) | BadBody(error: ReadError)

  /** The number on a chunk-size line, extensions cut off. */
  function ChunkSize(line: string): Number {
    var t := TrimSpace(line);
    var semi := IndexByte(t, ';');
    ParseInt(TrimSpace(if semi >= 0 then t[..semi] else t), 16)
  }

  datatype Step = Take(data: string, next: string) | Stop(rest: string) | Bad(error: ReadError)

  /** One turn of the loop, `have` bytes of the body being there already. */
  function ChunkStep(s: string, have: nat): (step: Step)
    ensures step.Take? ==> |step.next| < |s|
  {
    match ReadLine(s)
    case NoLine => Bad(ChunkSizeMissing)
    case GotLine(line, r) =>
      match ChunkSize(line)
      case NotANumber => Bad(ChunkSizeInvalid)
      case OutOfRange(_) => Bad(ChunkSizeInvalid)
      case Num(n) =>
        if n == 0 then Stop(SkipLine(r))
        else if n > MAX_CHUNK_SIZE then Bad(ChunkTooLarge)
        else if have + n > MAX_BODY_SIZE then Bad(BodyTooLarge)
        else if n < 0 then Bad(ChunkSizeNegative)
        else if |r| < n then Bad(ChunkDataShort)
        else Take(r[..n], SkipLine(r[n..]))
  }

  function DecodeChunks(s: string, have: nat): BodyRead
    decreases |s|
  {
    match ChunkStep(s, have)
    case Bad(e) => BadBody(e)
    case Stop(rest) => Body("", rest)
    case Take(data, next) => After(data, DecodeChunks(next, have + |data|))
  }

  function After(front: string, read: BodyRead): BodyRead {
    match read
    case Body(bytes, rest) => Body(front + bytes, rest)
    case BadBody(_) => read
  }

  /** The statements of one turn, up to `buf.Write`. */
  method ReadChunk(r: Reader, have: nat) returns (step: Step)
    modifies r
    ensures step == ChunkStep(old(r.rest), have)
    ensures step.Take? ==> r.rest == step.next
    ensures step.Stop? ==> r.rest == step.rest
  {
    hide ChunkSize, ReadLine, SkipLine;
    var sizeLine, ok := r.ReadString();
    if !ok { return Bad(ChunkSizeMissing); }
    var size := ChunkSize(sizeLine);
    if !size.Num? { return Bad(ChunkSizeInvalid); }
    var chunkSize := size.value;
    if chunkSize == 0 {
      var _, _ := r.ReadString();
      return Stop(r.rest);
    }
    if chunkSize > MAX_CHUNK_SIZE { return Bad(ChunkTooLarge); }
    if have + chunkSize > MAX_BODY_SIZE { return Bad(BodyTooLarge); }
    if chunkSize < 0 { return Bad(ChunkSizeNegative); }
    var chunk, full := r.ReadFull(chunkSize);
    if !full { return Bad(ChunkDataShort); }
    var _, _ := r.ReadString();
    return Take(chunk, r.rest);
  }

  /** `readChunked`. */
  method ReadChunked(r: Reader) returns (body: string, failure: Option<ReadError>)
    modifies r
    ensures match DecodeChunks(old(r.rest), 0)
      case Body(bytes, rest) => failure == None && body == bytes && r.rest == rest
      case BadBody(e) => failure == Some(e)
  {
    hide ChunkStep, DecodeChunks;
    body := "";
    while true
      invariant DecodeChunks(old(r.rest), 0) == After(body, DecodeChunks(r.rest, |body|))
      decreases |r.rest|
    {
      DecodeOnce(r.rest, |body|);
      var step := ReadChunk(r, |body|);
      match step
      case Bad(e) => return "", Some(e);
      case Stop(_) =>
        assert body + "" == body;
        return body, None;
      case Take(chunk, _) =>
        AfterAfter(body, chunk, DecodeChunks(r.rest, |body| + |chunk|));
        body := body + chunk;
    }
  }

  lemma DecodeOnce(s: string, have: nat)
    ensures DecodeChunks(s, have) == match ChunkStep(s, have)
                                     case Bad(e) => BadBody(e)
                                     case Stop(rest) => Body("", rest)
                                     case Take(data, next) => After(data, DecodeChunks(next, have + |data|))
  {
  }

  lemma AfterAfter(a: string, b: string, read: BodyRead)
    ensures After(a, After(b, read)) == After(a + b, read)
  {
    if read.Body? { assert a + (b + read.bytes) == a + b + read.bytes; }
  }

  // ---- What is accepted ----

  /** A size line, the bytes it announces, and the line ignored after them. */
  datatype Piece = Piece(line: string, data: string, after: string)

  ghost predicate DataPiece(p: Piece) {
    IsLine(p.line) && ChunkSize(p.line) == Num(|p.data|) && 0 < |p.data| <= MAX_CHUNK_SIZE && IsLine(p.after)
  }

  /** The final piece; only here may the input stop before the line is complete. */
  ghost predicate LastPiece(p: Piece, rest: string) {
    && IsLine(p.line) && ChunkSize(p.line) == Num(0) && p.data == ""
    && (IsLine(p.after) || ('\n' !in p.after && rest == ""))
  }

  ghost function PiecesText(ps: seq<Piece>, last: Piece, rest: string): string {
    if ps == [] then last.line + (last.after + rest)
    else ps[0].line + (ps[0].data + (ps[0].after + PiecesText(ps[1..], last, rest)))
  }

  ghost function PiecesData(ps: seq<Piece>): string {
    if ps == [] then "" else ps[0].data + PiecesData(ps[1..])
  }

  /** `s` is a sequence of pieces, a final piece, and then `rest`. */
  ghost predicate Framed(s: string, ps: seq<Piece>, last: Piece, rest: string) {
    && (forall k :: 0 <= k < |ps| ==> DataPiece(ps[k]))
    && LastPiece(last, rest)
    && s == PiecesText(ps, last, rest)
  }

  lemma StepOfPiece(p: Piece, tail: string, have: nat)
    requires DataPiece(p)
    ensures ChunkStep(p.line + (p.data + (p.after + tail)), have) ==
            if have + |p.data| > MAX_BODY_SIZE then Bad(BodyTooLarge) else Take(p.data, tail)
  {
    hide ChunkSize, ReadLine, SkipLine;
    var r := p.data + (p.after + tail);
    ReadLineExact(p.line, r);
    assert r[..|p.data|] == p.data && r[|p.data|..] == p.after + tail;
    ReadLineExact(p.after, tail);
  }

  lemma StepOfLast(last: Piece, rest: string, have: nat)
    requires LastPiece(last, rest)
    ensures ChunkStep(last.line + (last.after + rest), have) == Stop(rest)
  {
    hide ChunkSize, SkipLine;
    ReadLineExact(last.line, last.after + rest);
    if IsLine(last.after) {
      ReadLineExact(last.after, rest);
    } else {
      assert last.after + rest == last.after;
    }
  }

  /** Any pieces decode to the bytes they carry, or are refused for their total size alone. */
  lemma {:induction false} DecodePieces(ps: seq<Piece>, last: Piece, rest: string, have: nat)
    requires Framed(PiecesText(ps, last, rest), ps, last, rest)
    ensures DecodeChunks(PiecesText(ps, last, rest), have) ==
            if ps == [] || have + |PiecesData(ps)| <= MAX_BODY_SIZE then Body(PiecesData(ps), rest)
            else BadBody(BodyTooLarge)
    decreases |ps|
  {
    hide ChunkStep, DataPiece, LastPiece;
    if ps == [] {
      StepOfLast(last, rest, have);
    } else {
      StepOfPiece(ps[0], PiecesText(ps[1..], last, rest), have);
      DecodePieces(ps[1..], last, rest, have + |ps[0].data|);
    }
  }

  lemma NextLineExists(s: string)
    requires '\n' in SkipLine(s)
    ensures ReadLine(s).GotLine? && SkipLine(s) == ReadLine(s).rest
  {
  }

  lemma PieceOfStep(s: string, have: nat) returns (p: Piece)
    requires ChunkStep(s, have).Take? && '\n' in ChunkStep(s, have).next
    ensures DataPiece(p) && p.data == ChunkStep(s, have).data && have + |p.data| <= MAX_BODY_SIZE
    ensures s == p.line + (p.data + (p.after + ChunkStep(s, have).next))
  {
    hide ChunkSize, ReadLine, SkipLine;
    var GotLine(line, r) := ReadLine(s);
    var n := ChunkSize(line).value;
    NextLineExists(r[n..]);
    var GotLine(after, next) := ReadLine(r[n..]);
    p := Piece(line, r[..n], after);
    assert r == p.data + r[n..];
  }

  lemma LastOfStep(s: string, have: nat) returns (last: Piece)
    requires ChunkStep(s, have).Stop?
    ensures LastPiece(last, ChunkStep(s, have).rest) && s == last.line + (last.after + ChunkStep(s, have).rest)
  {
    hide ChunkSize, ReadLine, SkipLine;
    var GotLine(line, r) := ReadLine(s);
    match ReadLine(r)
    case GotLine(after, _) => last := Piece(line, "", after);
    case NoLine => last := Piece(line, "", r);
  }

  /** Everything that decodes is a sequence of pieces. */
  lemma {:induction false} DecodedIsFramed(s: string, have: nat) returns (ps: seq<Piece>, last: Piece)
    requires DecodeChunks(s, have).Body?
    ensures Framed(s, ps, last, DecodeChunks(s, have).rest)
    ensures PiecesData(ps) == DecodeChunks(s, have).bytes
    ensures ps == [] || have + |PiecesData(ps)| <= MAX_BODY_SIZE
    decreases |s|
  {
    hide DataPiece, LastPiece, ChunkStep, DecodeChunks, Framed;
    DecodeOnce(s, have);
    var step := ChunkStep(s, have);
    if step.Stop? {
      last := LastOfStep(s, have);
      ps := [];
      FramedNil(last, step.rest);
    } else {
      var more;
      more, last := DecodedIsFramed(step.next, have + |step.data|);
      DecodingNeedsALine(step.next, have + |step.data|);
      var p := PieceOfStep(s, have);
      FramedCons(p, step.next, more, last, DecodeChunks(step.next, have + |step.data|).rest);
      ps := [p] + more;
    }
  }

  lemma FramedNil(last: Piece, rest: string)
    requires LastPiece(last, rest)
    ensures Framed(last.line + (last.after + rest), [], last, rest)
  {
    hide LastPiece;
  }

  lemma FramedCons(p: Piece, s: string, ps: seq<Piece>, last: Piece, rest: string)
    requires DataPiece(p) && Framed(s, ps, last, rest)
    ensures Framed(p.line + (p.data + (p.after + s)), [p] + ps, last, rest)
    ensures PiecesData([p] + ps) == p.data + PiecesData(ps)
  {
    hide DataPiece, LastPiece;
    assert ([p] + ps)[1..] == ps;
  }

  lemma DecodingNeedsALine(s: string, have: nat)
    requires DecodeChunks(s, have).Body?
    ensures '\n' in s
  {
    hide ChunkSize, SkipLine;
  }

  /** The exact language of the decoder: `s` decodes to `bytes` followed by `rest` if and only if it
      is pieces carrying `bytes`, at most 32 MiB of them, with `rest` behind them. */
  lemma DecodesExactly(s: string, bytes: string, rest: string)
    ensures DecodeChunks(s, 0) == Body(bytes, rest) <==>
            exists ps, last :: Framed(s, ps, last, rest) && PiecesData(ps) == bytes && |bytes| <= MAX_BODY_SIZE
  {
    hide DecodeChunks, DataPiece, LastPiece;
    if DecodeChunks(s, 0) == Body(bytes, rest) {
      var ps, last := DecodedIsFramed(s, 0);
      assert Framed(s, ps, last, rest) && PiecesData(ps) == bytes;
    }
    forall ps, last | Framed(s, ps, last, rest) && PiecesData(ps) == bytes && |bytes| <= MAX_BODY_SIZE
      ensures DecodeChunks(s, 0) == Body(bytes, rest)
    {
      DecodePieces(ps, last, rest, 0);
    }
  }

  lemma {:induction false} PiecesAreLonger(ps: seq<Piece>, last: Piece, rest: string)
    requires |last.line| > 0
    ensures |PiecesData(ps)| + |rest| < |PiecesText(ps, last, rest)|
    ensures rest == PiecesText(ps, last, rest)[|PiecesText(ps, last, rest)| - |rest|..]
  {
    if ps != [] {
      PiecesAreLonger(ps[1..], last, rest);
    }
  }

  /** A successful read stays within the limit, consumes input, and leaves a suffix. */
  lemma DecodedIsBounded(s: string)
    requires DecodeChunks(s, 0).Body?
    ensures var d := DecodeChunks(s, 0);
            |d.bytes| <= MAX_BODY_SIZE && |d.bytes| + |d.rest| < |s| && d.rest == s[|s| - |d.rest|..]
  {
    hide DecodeChunks, DataPiece, ChunkSize, PiecesText;
    var ps, last := DecodedIsFramed(s, 0);
    PiecesAreLonger(ps, last, DecodeChunks(s, 0).rest);
  }

  // ---- Chunks as RFC 7230 writes them ----

  /** Hex digits in any letter case and with any leading zeros, white space, an extension, data. */
  datatype Chunk = Chunk(size: string, pad: string, ext: string, data: string)

  ghost predicate ValidChunk(c: Chunk) {
    && |c.size| > 0 && AllDigits(c.size, 16) && Value(c.size, 16) == |c.data| <= MAX_CHUNK_SIZE
    && AllSpace(c.pad) && '\n' !in c.pad
    && (c.ext == "" || c.ext[0] == ';') && '\n' !in c.ext
  }

  ghost function SizeLine(c: Chunk): string {
    c.size + c.pad + c.ext + "\r\n"
  }

  ghost function ChunkPiece(c: Chunk): Piece {
    Piece(SizeLine(c), c.data, "\r\n")
  }

  /** The encoded chunks, the last one, and the bytes behind them. */
  ghost function Encode(chunks: seq<Chunk>, last: Chunk, tail: string): string {
    if chunks == [] then SizeLine(last) + ("\r\n" + tail)
    else SizeLine(chunks[0]) + (chunks[0].data + ("\r\n" + Encode(chunks[1..], last, tail)))
  }

  ghost function Pieces(chunks: seq<Chunk>): (ps: seq<Piece>)
    ensures |ps| == |chunks| && forall k :: 0 <= k < |ps| ==> ps[k] == ChunkPiece(chunks[k])
  {
    seq(|chunks|, k requires 0 <= k < |chunks| => ChunkPiece(chunks[k]))
  }

  ghost function Joined(chunks: seq<Chunk>): string {
    if chunks == [] then "" else chunks[0].data + Joined(chunks[1..])
  }

  lemma SizeTextOfLine(front: string, post: string)
    requires Tight(front) && ';' !in front && AllSpace(post)
    ensures ChunkSize(front + post) == ParseInt(front, 16)
  {
    hide ParseInt;
    assert front + post == "" + front + post;
    TrimExact("", front, post);
    TrimTight(front);
  }

  lemma TrimExtended(front: string, ext: string, post: string) returns (t: string)
    requires front != "" && !IsSpace(front[0]) && AllSpace(post) && ext != "" && ext[0] == ';'
    ensures TrimSpace(front + ext + post) == front + ";" + t
  {
    var j := EndOfText(ext, 0, |ext|);
    t := ext[1..j];
    var m := front + ";" + t;
    assert m[|m| - 1] == ext[j - 1];
    assert ext == ";" + t + ext[j..];
    assert front + ext + post == "" + m + (ext[j..] + post);
    TrimExact("", m, ext[j..] + post);
  }

  lemma SizeTextOfExtendedLine(size: string, pad: string, ext: string, post: string)
    requires size != "" && Tight(size) && ';' !in size && AllSpace(pad) && AllSpace(post) && ext != "" && ext[0] == ';'
    ensures ChunkSize(size + pad + ext + post) == ParseInt(size, 16)
  {
    hide ParseInt, TrimSpace;
    var front := size + pad;
    assert front[0] == size[0];
    var t := TrimExtended(front, ext, post);
    IndexByteExact(front, ';', t);
    assert "" + size + pad == front;
    TrimExact("", size, pad);
  }

  lemma ChunkLine(c: Chunk)
    requires ValidChunk(c)
    ensures IsLine(SizeLine(c)) && ChunkSize(SizeLine(c)) == Num(|c.data|)
  {
    hide ParseInt, ChunkSize;
    var line := SizeLine(c);
    DigitsHaveNo(c.size, 16, '\n');
    DigitsHaveNo(c.size, 16, ';');
    DigitsAreTight(c.size, 16);
    assert line[..|line| - 1] == c.size + c.pad + c.ext + "\r";
    ParseIntOfDigits(c.size, 16);
    if c.ext == "" {
      assert line == c.size + (c.pad + "\r\n");
      SizeTextOfLine(c.size, c.pad + "\r\n");
    } else {
      SizeTextOfExtendedLine(c.size, c.pad, c.ext, "\r\n");
    }
  }

  lemma {:induction false} PiecesCarry(chunks: seq<Chunk>, last: Chunk, tail: string)
    requires forall k :: 0 <= k < |chunks| ==> ValidChunk(chunks[k]) && chunks[k].data != ""
    requires ValidChunk(last) && last.data == ""
    ensures Framed(Encode(chunks, last, tail), Pieces(chunks), ChunkPiece(last), tail)
    ensures PiecesData(Pieces(chunks)) == Joined(chunks)
  {
    hide ChunkSize, ValidChunk, SizeLine;
    ChunkLine(last);
    assert IsLine("\r\n");
    if chunks != [] {
      ChunkLine(chunks[0]);
      PiecesCarry(chunks[1..], last, tail);
      DataPieceOf(chunks[0]);
      assert Pieces(chunks)[1..] == Pieces(chunks[1..]);
      assert forall k :: 1 <= k < |chunks| ==> Pieces(chunks)[k] == Pieces(chunks[1..])[k - 1];
    }
  }

  lemma DataPieceOf(c: Chunk)
    requires ValidChunk(c) && c.data != ""
    ensures DataPiece(ChunkPiece(c))
  {
    hide ChunkSize, SizeLine;
    ChunkLine(c);
    assert IsLine("\r\n");
  }

  /** Decoding does not depend on the chunking: every split of a body, however its sizes are spelled
      and extended, decodes to the body and leaves exactly what follows, up to 32 MiB in all; a longer
      body is refused. */
  lemma ChunkingIsIrrelevant(chunks: seq<Chunk>, last: Chunk, tail: string)
    requires forall k :: 0 <= k < |chunks| ==> ValidChunk(chunks[k]) && chunks[k].data != ""
    requires ValidChunk(last) && last.data == ""
    ensures DecodeChunks(Encode(chunks, last, tail), 0) ==
            if |Joined(chunks)| <= MAX_BODY_SIZE then Body(Joined(chunks), tail) else BadBody(BodyTooLarge)
  {
    hide DecodeChunks, ValidChunk, DataPiece, LastPiece;
    PiecesCarry(chunks, last, tail);
    DecodePieces(Pieces(chunks), ChunkPiece(last), tail, 0);
  }

  // ---- The single chunk the writers emit ----

  /** One chunk with its size in lower-case hex, then the terminator, whatever the body length. */
  function OneChunk(body: string): string {
    Digits(|body|, 16) + "\r\n" + body + ("\r\n" + "0\r\n\r\n")
  }

  const LAST_CHUNK := Chunk("0", "", "", "")

  lemma LastChunkLine()
    ensures ValidChunk(LAST_CHUNK) && SizeLine(LAST_CHUNK) == "0\r\n"
    ensures IsLine("0\r\n") && ChunkSize("0\r\n") == Num(0)
  {
    hide ParseInt, ChunkSize;
    OneDigit('0', 16);
    ChunkLine(LAST_CHUNK);
  }

  lemma OneChunkEmpty(tail: string)
    ensures DecodeChunks(OneChunk("") + tail, 0) == Body("", "0\r\n\r\n" + tail)
  {
    hide ParseInt, ChunkSize;
    LastChunkLine();
    var rest := "0\r\n\r\n" + tail;
    assert OneChunk("") + tail == "0\r\n" + ("\r\n" + rest);
    ReadLineExact("0\r\n", "\r\n" + rest);
    ReadLineExact("\r\n", rest);
  }

  lemma EncodeSingle(c: Chunk, tail: string)
    requires c.pad == c.ext == ""
    ensures Joined([c]) == c.data
    ensures Encode([c], LAST_CHUNK, tail) == c.size + "\r\n" + (c.data + ("\r\n" + ("0\r\n\r\n" + tail)))
  {
    assert [c][1..] == [];
    assert SizeLine(c) == c.size + "\r\n";
    assert Encode([], LAST_CHUNK, tail) == "0\r\n\r\n" + tail;
  }

  lemma OneChunkText(body: string, tail: string)
    ensures OneChunk(body) + tail ==
            Digits(|body|, 16) + "\r\n" + (body + ("\r\n" + ("0\r\n\r\n" + tail)))
  {
    hide Digits;
    Regroup(Digits(|body|, 16) + "\r\n", body, "\r\n", "0\r\n\r\n", tail);
  }

  lemma Regroup(a: string, b: string, c: string, d: string, e: string)
    ensures a + b + (c + d) + e == a + (b + (c + (d + e)))
  {
  }

  lemma DigitsChunkIsValid(body: string)
    requires 0 < |body| <= MAX_CHUNK_SIZE
    ensures ValidChunk(Chunk(Digits(|body|, 16), "", "", body))
  {
    ValueOfDigits(|body|, 16);
  }

  lemma OneChunkFits(body: string, tail: string)
    requires 0 < |body| <= MAX_CHUNK_SIZE
    ensures DecodeChunks(OneChunk(body) + tail, 0) == Body(body, tail)
  {
    hide DecodeChunks, ValidChunk, Digits, Encode, Joined, OneChunk, ChunkSize, AllDigits;
    var c := Chunk(Digits(|body|, 16), "", "", body);
    DigitsChunkIsValid(body);
    LastChunkLine();
    EncodeSingle(c, tail);
    OneChunkText(body, tail);
    ChunkingIsIrrelevant([c], LAST_CHUNK, tail);
  }

  lemma OneChunkTooLarge(body: string, tail: string)
    requires MAX_CHUNK_SIZE < |body| <= MAX_INT64
    ensures DecodeChunks(OneChunk(body) + tail, 0) == BadBody(ChunkTooLarge)
  {
    hide ParseInt, ChunkSize;
    var digits := Digits(|body|, 16);
    var line := digits + "\r\n";
    ValueOfDigits(|body|, 16);
    ParseIntOfDigits(digits, 16);
    DigitsHaveNo(digits, 16, '\n');
    DigitsHaveNo(digits, 16, ';');
    DigitsAreTight(digits, 16);
    SizeTextOfLine(digits, "\r\n");
    assert line[..|line| - 1] == digits + "\r";
    assert OneChunk(body) + tail == line + (body + "\r\n0\r\n\r\n" + tail);
    ReadLineExact(line, body + "\r\n0\r\n\r\n" + tail);
  }

  /** What a reader makes of the writers' framing, for every body length a Go slice can have: the body
      itself up to 16 MiB; an empty body ends at its own size line and leaves the five bytes after it. */
  lemma OneChunkDecodes(body: string, tail: string)
    requires |body| <= MAX_INT64
    ensures DecodeChunks(OneChunk(body) + tail, 0) ==
            if |body| > MAX_CHUNK_SIZE then BadBody(ChunkTooLarge)
            else if body == "" then Body("", "0\r\n\r\n" + tail)
            else Body(body, tail)
  {
    hide DecodeChunks;
    if body == "" {
      OneChunkEmpty(tail);
    } else if |body| <= MAX_CHUNK_SIZE {
      OneChunkFits(body, tail);
    } else {
      OneChunkTooLarge(body, tail);
    }
  }
}
