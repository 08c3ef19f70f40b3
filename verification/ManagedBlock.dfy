/** The block of environment settings that the agent keeps in a user's shell rc files. */
module ManagedBlock {
  import opened Text
  import opened ShellQuote

  const SUBJECT := "ai-scan-connect managed block"
  const NOTICE := " (DO NOT EDIT) v1 >>>"
  const START := "# >>> " + (SUBJECT + NOTICE)
  const END := "# <<< " + (SUBJECT + " <<<")
  const GENERATED := "# generated: "

  const HTTPS_PROXY := "HTTPS_PROXY"
  const HTTPS_PROXY_LOWER := "https_proxy"
  const HTTP_PROXY := "HTTP_PROXY"
  const HTTP_PROXY_LOWER := "http_proxy"
  const NODE_EXTRA_CA_CERTS := "NODE_EXTRA_CA_CERTS"
  const REQUESTS_CA_BUNDLE := "REQUESTS_CA_BUNDLE"
  const SSL_CERT_FILE := "SSL_CERT_FILE"

  datatype Vars = Vars(httpsProxy: string, httpProxy: string, nodeExtraCACerts: string, requestsCABundle: string,
                       sslCertFile: string)

  function Given(name: string, value: string): seq<Assignment> {
    if value == "" then [] else [(name, value)]
  }

  /** The variables a block sets, in the order in which it sets them. */
  function Assignments(v: Vars): seq<Assignment> {
    Given(HTTPS_PROXY, v.httpsProxy) + Given(HTTPS_PROXY_LOWER, v.httpsProxy)
    + Given(HTTP_PROXY, v.httpProxy) + Given(HTTP_PROXY_LOWER, v.httpProxy)
    + Given(NODE_EXTRA_CA_CERTS, v.nodeExtraCACerts)
    + Given(REQUESTS_CA_BUNDLE, v.requestsCABundle)
    + Given(SSL_CERT_FILE, v.sslCertFile)
  }

  function Head(stamp: string): string {
    START + ("\n" + (GENERATED + (stamp + "\n")))
  }

  /** What lies between the two markers. */
  function Inside(v: Vars, stamp: string): string {
    "\n" + (GENERATED + (stamp + ("\n" + Lines(Assignments(v), ""))))
  }

  function Render(v: Vars, stamp: string): string {
    START + (Inside(v, stamp) + (END + "\n"))
  }

  /** A time in RFC 3339 form has neither of these. */
  predicate Stamp(s: string) {
    '\n' !in s && '#' !in s
  }

  lemma Finished(v: Vars, stamp: string)
    ensures Head(stamp) + Lines(Assignments(v), "") + END + "\n" == Render(v, stamp)
  {
    hide Assignments, Lines, START, END, GENERATED;
  }

  /** `renderBlock`. */
  method RenderBlock(v: Vars, stamp: string) returns (b: string)
    ensures b == Render(v, stamp)
  {
    hide Lines, Quote, Head, Render, END;
    hide HTTPS_PROXY, HTTPS_PROXY_LOWER, HTTP_PROXY, HTTP_PROXY_LOWER, NODE_EXTRA_CA_CERTS, REQUESTS_CA_BUNDLE, SSL_CERT_FILE;
    ghost var done: seq<Assignment> := [];
    b := Opening(stamp);
    b, done := Export(b, HTTPS_PROXY, v.httpsProxy, stamp, done);
    b, done := Export(b, HTTPS_PROXY_LOWER, v.httpsProxy, stamp, done);
    b, done := Export(b, HTTP_PROXY, v.httpProxy, stamp, done);
    b, done := Export(b, HTTP_PROXY_LOWER, v.httpProxy, stamp, done);
    b, done := Export(b, NODE_EXTRA_CA_CERTS, v.nodeExtraCACerts, stamp, done);
    b, done := Export(b, REQUESTS_CA_BUNDLE, v.requestsCABundle, stamp, done);
    b, done := Export(b, SSL_CERT_FILE, v.sslCertFile, stamp, done);
    assert done == Assignments(v);
    b := b + END;
    b := b + "\n";
    Finished(v, stamp);
  }

  /** The first two lines. */
  method Opening(stamp: string) returns (b: string)
    ensures b == Head(stamp) + Lines([], "")
  {
    hide START, GENERATED;
    b := START;
    b := b + "\n";
    b := b + (GENERATED + stamp + "\n");
  }

  /** One `export` line, or none for a variable without a value. */
  method Export(b: string, name: string, value: string, ghost stamp: string, ghost done: seq<Assignment>)
    returns (r: string, ghost doneNow: seq<Assignment>)
    requires b == Head(stamp) + Lines(done, "")
    ensures doneNow == done + Given(name, value) && r == Head(stamp) + Lines(doneNow, "")
  {
    hide Lines, Quote, Head;
    if value == "" { return b, done; }
    r := b + ("export " + name + "=" + Quote(value) + "\n");
    doneNow := done + [(name, value)];
    LinesAppend(done, (name, value), "");
    LinesThen(done, Line((name, value)) + "");
    assert Line((name, value)) + "" == Line((name, value));
  }

  // ---- Finding and removing a block ----

  /** Leftmost start marker, first end marker behind it, and one newline if there is one. */
  function FindBlock(s: string): (r: Option<(nat, nat)>)
    ensures r.Some? ==> r.value.0 < r.value.1 <= |s|
  {
    var i := Index(s, START);
    if i == -1 then None
    else
      var j := Index(s[i + |START|..], END);
      if j == -1 then None
      else
        var e := i + |START| + j + |END|;
        Some((i, if e < |s| && s[e] == '\n' then e + 1 else e))
  }

  /** `stripBlock`: every match goes, leftmost first. */
  function StripBlock(s: string): string
    decreases |s|
  {
    match FindBlock(s)
    case None => s
    case Some(span) => s[..span.0] + StripBlock(s[span.1..])
  }

  /** `strings.HasSuffix` of a newline, or nothing at all. */
  function Ended(s: string): string {
    if |s| > 0 && s[|s| - 1] != '\n' then s + "\n" else s
  }

  /** What `rewriteFile` makes of a file; the empty block stands for none. */
  function Rewrite(original: string, block: string): string {
    var stripped := StripBlock(original);
    if block == "" then stripped else Ended(stripped) + ("\n" + block)
  }

  /** `stripGenLine`: every complete line with the prefix goes. */
  function StripGenerated(s: string): string
    decreases |s|
  {
    match ReadLine(s)
    case NoLine => s
    case GotLine(line, rest) => if GENERATED <= line then StripGenerated(rest) else line + StripGenerated(rest)
  }

  /** The comparison of `CheckIntegrity` for one file. */
  predicate Drifted(content: string, expected: string) {
    match FindBlock(content)
    case None => true
    case Some(span) => StripGenerated(content[span.0..span.1]) != StripGenerated(expected)
  }

  /** The text up to its first start marker, what stands between that and the first end marker behind it, the
      newline of that marker if it has one, and the rest. */
  ghost predicate BlockAt(content: string, front: string, inside: string, nl: string, rest: string) {
    && content == front + (START + (inside + (END + (nl + rest))))
    && !Contains(front, START) && !Contains(inside, END)
    && (nl == "\n" || (nl == "" && (rest == "" || rest[0] != '\n')))
  }

  /** The text has a block, and outside stamp lines that is the expected one. */
  ghost predicate Intact(content: string, expected: string) {
    exists front, inside, nl, rest ::
      BlockAt(content, front, inside, nl, rest) && StripGenerated(START + (inside + (END + nl))) == StripGenerated(expected)
  }

  // ---- The files ----

  const CANDIDATES := [".bashrc", ".zshrc", ".profile"]

  /** Which existing files can be read and replaced this time. */
  datatype Access = Access(readable: set<string>, writable: set<string>)

  type Files = map<string, string>

  predicate Rewritten(files: Files, p: string, block: string, io: Access) {
    p in files && p in io.readable && p in io.writable && Rewrite(files[p], block) != files[p]
  }

  predicate Failed(files: Files, p: string, block: string, io: Access) {
    p in files && (p !in io.readable || (p !in io.writable && Rewrite(files[p], block) != files[p]))
  }

  function After(files: Files, paths: seq<string>, block: string, io: Access): Files {
    map p | p in files :: if p in paths && Rewritten(files, p, block, io) then Rewrite(files[p], block) else files[p]
  }

  function Chosen(paths: seq<string>, wanted: string -> bool): seq<string> {
    if paths == [] then []
    else
      var front, last := Chosen(paths[..|paths| - 1], wanted), paths[|paths| - 1];
      if wanted(last) then front + [last] else front
  }

  function Touches(files: Files, block: string, io: Access): string -> bool {
    p => Rewritten(files, p, block, io)
  }

  function Fails(files: Files, block: string, io: Access): string -> bool {
    p => Failed(files, p, block, io)
  }

  function Drifts(files: Files, expected: string): string -> bool {
    p => p in files && Drifted(files[p], expected)
  }

  class RcFiles {
    var files: Files

    constructor (files: Files)
      ensures this.files == files
    {
      this.files := files;
    }

    /** `rewriteFile` for a file that exists. */
    method RewriteFile(p: string, block: string, io: Access) returns (changed: bool, failed: bool)
      requires p in files
      modifies this
      ensures changed == Rewritten(old(files), p, block, io) && failed == Failed(old(files), p, block, io)
      ensures failed <==> p !in io.readable || (p !in io.writable && Rewrite(old(files)[p], block) != old(files)[p])
      ensures changed <==> !failed && Rewrite(old(files)[p], block) != old(files)[p]
      ensures files == old(files)[p := if changed then Rewrite(old(files)[p], block) else old(files)[p]]
      ensures changed && block == "" ==> files[p] == StripBlock(old(files)[p])
      ensures changed && block != "" ==>
                var left := StripBlock(old(files)[p]);
                files[p] == left + (if left == "" || left[|left| - 1] == '\n' then "\n" else "\n\n") + block
    {
      GapInFront(StripBlock(files[p]), block);
      hide Ended, StripBlock;
      if p !in io.readable { return false, true; }
      var original := files[p];
      var stripped := StripBlock(original);
      var next: string;
      if block == "" {
        next := stripped;
      } else {
        stripped := Ended(stripped);
        next := stripped + ("\n" + block);
      }
      if next == original { return false, false; }
      if p !in io.writable { return false, true; }
      files := files[p := next];
      return true, false;
    }

    /** The loop of `Apply` and of `Remove`: a file that fails does not keep the others from being done. */
    method RewriteAll(block: string, io: Access) returns (touched: seq<string>, errors: seq<string>)
      modifies this
      ensures files == After(old(files), CANDIDATES, block, io)
      ensures touched == Chosen(CANDIDATES, Touches(old(files), block, io))
      ensures errors == Chosen(CANDIDATES, Fails(old(files), block, io))
      ensures forall p :: p in errors <==> p in CANDIDATES && p in old(files) && (p !in io.readable ||
                                             (p !in io.writable && Rewrite(old(files)[p], block) != old(files)[p]))
      ensures forall p :: p in touched <==> p in CANDIDATES && p in old(files) && p !in errors &&
                                            Rewrite(old(files)[p], block) != old(files)[p]
    {
      hide Rewrite;
      touched, errors := [], [];
      ghost var before := files;
      var candidates := CANDIDATES;
      DifferentNames();
      hide CANDIDATES;
      for k := 0 to |candidates|
        invariant files == After(before, candidates[..k], block, io)
        invariant touched == Chosen(candidates[..k], Touches(before, block, io))
        invariant errors == Chosen(candidates[..k], Fails(before, block, io))
      {
        var p := candidates[k];
        Extend(candidates, k, before, block, io);
        if p !in files { continue; }
        var changed, failed := RewriteFile(p, block, io);
        if failed { errors := errors + [p]; continue; }
        if changed { touched := touched + [p]; }
      }
      assert candidates[..|candidates|] == candidates;
      ReportedIff(candidates, before, block, io);
    }

    method Apply(v: Vars, stamp: string, io: Access) returns (touched: seq<string>, errors: seq<string>)
      modifies this
      ensures files == After(old(files), CANDIDATES, Render(v, stamp), io)
      ensures touched == Chosen(CANDIDATES, Touches(old(files), Render(v, stamp), io))
      ensures errors == Chosen(CANDIDATES, Fails(old(files), Render(v, stamp), io))
    {
      var block := RenderBlock(v, stamp);
      touched, errors := RewriteAll(block, io);
    }

    method Remove(io: Access) returns (touched: seq<string>, errors: seq<string>)
      modifies this
      ensures files == After(old(files), CANDIDATES, "", io)
      ensures touched == Chosen(CANDIDATES, Touches(old(files), "", io))
      ensures errors == Chosen(CANDIDATES, Fails(old(files), "", io))
    {
      touched, errors := RewriteAll("", io);
    }

    /** `CheckIntegrity`: a missing file is no drift; an unreadable one ends the check. */
    method CheckIntegrity(v: Vars, stamp: string, readable: set<string>) returns (drift: Option<seq<string>>)
      ensures drift.None? <==> exists k :: 0 <= k < |CANDIDATES| && CANDIDATES[k] in files && CANDIDATES[k] !in readable
      ensures drift.Some? ==> drift.value == Chosen(CANDIDATES, Drifts(files, Render(v, stamp)))
      ensures drift.Some? ==> forall p :: p in drift.value <==>
                                          p in CANDIDATES && p in files && !Intact(files[p], Render(v, stamp))
    {
      hide Drifted, Render, Intact;
      var expected := RenderBlock(v, stamp);
      var found: seq<string> := [];
      var candidates := CANDIDATES;
      hide CANDIDATES;
      for k := 0 to |candidates|
        invariant forall j :: 0 <= j < k && candidates[j] in files ==> candidates[j] in readable
        invariant found == Chosen(candidates[..k], Drifts(files, expected))
      {
        var p := candidates[k];
        assert candidates[..k + 1][..k] == candidates[..k] && candidates[..k + 1][k] == p;
        if p !in files { continue; }
        if p !in readable { return None; }
        if Drifted(files[p], expected) { found := found + [p]; }
      }
      assert candidates[..|candidates|] == candidates;
      ListedIff(candidates, files, expected, found);
      return Some(found);
    }
  }

  /** In front of the block stands an empty line, unless nothing stands in front of it. */
  lemma GapInFront(left: string, block: string)
    ensures Ended(left) + ("\n" + block) == left + (if left == "" || left[|left| - 1] == '\n' then "\n" else "\n\n") + block
  {
    Associate(Ended(left), "\n", block);
    Associate(left, "\n", "\n");
  }

  lemma {:induction false} ChosenIff(paths: seq<string>, wanted: string -> bool, p: string)
    ensures p in Chosen(paths, wanted) <==> p in paths && wanted(p)
  {
    if paths != [] {
      var n := |paths| - 1;
      ChosenIff(paths[..n], wanted, p);
      assert paths == paths[..n] + [paths[n]];
    }
  }

  lemma ReportedIff(paths: seq<string>, files: Files, block: string, io: Access)
    ensures forall p :: p in Chosen(paths, Touches(files, block, io)) <==> p in paths && Rewritten(files, p, block, io)
    ensures forall p :: p in Chosen(paths, Fails(files, block, io)) <==> p in paths && Failed(files, p, block, io)
  {
    hide Chosen, Rewritten, Failed;
    forall p
      ensures p in Chosen(paths, Touches(files, block, io)) <==> p in paths && Rewritten(files, p, block, io)
      ensures p in Chosen(paths, Fails(files, block, io)) <==> p in paths && Failed(files, p, block, io)
    {
      ChosenIff(paths, Touches(files, block, io), p);
      ChosenIff(paths, Fails(files, block, io), p);
    }
  }

  lemma ListedIff(paths: seq<string>, files: Files, expected: string, found: seq<string>)
    requires found == Chosen(paths, Drifts(files, expected))
    ensures forall p :: p in found <==> p in paths && p in files && !Intact(files[p], expected)
  {
    hide Drifted, Intact, Chosen;
    forall p ensures p in found <==> p in paths && p in files && !Intact(files[p], expected) {
      ChosenIff(paths, Drifts(files, expected), p);
      if p in files { DriftedIff(files[p], expected); }
    }
  }

  lemma DifferentNames()
    ensures forall i, j :: 0 <= i < j < |CANDIDATES| ==> CANDIDATES[i] != CANDIDATES[j]
  {
    assert |CANDIDATES[0]| == 7 && |CANDIDATES[1]| == 6 && |CANDIDATES[2]| == 8;
  }

  /** One more path: only its own file may change. */
  lemma Extend(paths: seq<string>, k: nat, files: Files, block: string, io: Access)
    requires k < |paths| && forall i, j :: 0 <= i < j < |paths| ==> paths[i] != paths[j]
    ensures paths[..k + 1] == paths[..k] + [paths[k]]
    ensures paths[..k + 1][..k] == paths[..k] && paths[..k + 1][k] == paths[k]
    ensures var p, done := paths[k], After(files, paths[..k], block, io);
            if p !in files then After(files, paths[..k + 1], block, io) == done && p !in done
            else
              && p in done && done[p] == files[p]
              && After(files, paths[..k + 1], block, io) ==
                 done[p := if Rewritten(files, p, block, io) then Rewrite(files[p], block) else files[p]]
  {
    hide Rewrite, Rewritten, After;
    assert paths[..k + 1] == paths[..k] + [paths[k]];
    AfterOneMore(paths[..k], paths[k], files, block, io);
  }

  lemma AfterOneMore(front: seq<string>, p: string, files: Files, block: string, io: Access)
    requires p !in front
    ensures var done, next := After(files, front, block, io), After(files, front + [p], block, io);
            if p !in files then next == done && p !in done
            else
              && p in done && done[p] == files[p]
              && next == done[p := if Rewritten(files, p, block, io) then Rewrite(files[p], block) else files[p]]
  {
    hide Rewrite, Rewritten;
    assert forall q :: q in front + [p] <==> q in front || q == p;
  }

  // ---- Facts about the markers ----

  predicate Plain(s: string) {
    forall k :: 0 <= k < |s| ==> s[k] != '#' && s[k] != '\n' && s[k] != '\'' && s[k] != '\\'
  }

  lemma PlainParts()
    ensures Plain(SUBJECT) && Plain(NOTICE)
  {
    assert Plain(SUBJECT);
    assert Plain(NOTICE);
  }

  ghost predicate Marker(m: string) {
    LeadOnly(m) && NoQuoting(m) && '\n' !in m && |m| > 3 && m[0] == '#'
  }

  lemma MarkerOf(head: string, text: string)
    requires |head| == 6 && head[0] == '#' && Plain(head[1..]) && Plain(text)
    ensures Marker(head + text) && (head + text)[2] == head[2]
  {
    var m := head + text;
    assert forall k :: 1 <= k < |m| ==> m[k] == if k < 6 then head[1..][k - 1] else text[k - 6];
  }

  lemma MarkerFacts()
    ensures Marker(START) && Marker(END) && START[2] == '>' && END[2] == '<'
  {
    hide SUBJECT, NOTICE;
    PlainParts();
    assert Plain("# >>> "[1..]) && Plain("# <<< "[1..]);
    MarkerOf("# >>> ", SUBJECT + NOTICE);
    MarkerOf("# <<< ", SUBJECT + " <<<");
  }

  ghost predicate AllNames(vars: seq<Assignment>) {
    forall k :: 0 <= k < |vars| ==> Name(vars[k].0)
  }

  lemma GivenNames(vars: seq<Assignment>, name: string, value: string)
    requires AllNames(vars) && Name(name)
    ensures AllNames(vars + Given(name, value))
  {
  }

  lemma NamesAreNames(v: Vars)
    ensures AllNames(Assignments(v))
  {
    EachIsAName();
    hide HTTPS_PROXY, HTTPS_PROXY_LOWER, HTTP_PROXY, HTTP_PROXY_LOWER, NODE_EXTRA_CA_CERTS, REQUESTS_CA_BUNDLE, SSL_CERT_FILE;
    hide Name;
    var a1 := Given(HTTPS_PROXY, v.httpsProxy);
    GivenNames([], HTTPS_PROXY, v.httpsProxy);
    var a2 := a1 + Given(HTTPS_PROXY_LOWER, v.httpsProxy);
    GivenNames(a1, HTTPS_PROXY_LOWER, v.httpsProxy);
    var a3 := a2 + Given(HTTP_PROXY, v.httpProxy);
    GivenNames(a2, HTTP_PROXY, v.httpProxy);
    var a4 := a3 + Given(HTTP_PROXY_LOWER, v.httpProxy);
    GivenNames(a3, HTTP_PROXY_LOWER, v.httpProxy);
    var a5 := a4 + Given(NODE_EXTRA_CA_CERTS, v.nodeExtraCACerts);
    GivenNames(a4, NODE_EXTRA_CA_CERTS, v.nodeExtraCACerts);
    var a6 := a5 + Given(REQUESTS_CA_BUNDLE, v.requestsCABundle);
    GivenNames(a5, REQUESTS_CA_BUNDLE, v.requestsCABundle);
    var a7 := a6 + Given(SSL_CERT_FILE, v.sslCertFile);
    GivenNames(a6, SSL_CERT_FILE, v.sslCertFile);
    assert [] + a1 == a1;
  }

  lemma EachIsAName()
    ensures Name(HTTPS_PROXY) && Name(HTTPS_PROXY_LOWER) && Name(HTTP_PROXY) && Name(HTTP_PROXY_LOWER)
    ensures Name(NODE_EXTRA_CA_CERTS) && Name(REQUESTS_CA_BUNDLE) && Name(SSL_CERT_FILE)
  {
    ProxyNames();
    FileNames();
    hide *;
  }

  lemma ProxyNames()
    ensures Name(HTTPS_PROXY) && Name(HTTPS_PROXY_LOWER) && Name(HTTP_PROXY) && Name(HTTP_PROXY_LOWER)
  {
  }

  lemma FileNames()
    ensures Name(NODE_EXTRA_CA_CERTS) && Name(REQUESTS_CA_BUNDLE) && Name(SSL_CERT_FILE)
  {
  }

  // ---- Recognising a block ----

  lemma FindBlockIs(s: string, i: nat, j: nat)
    requires Index(s, START) == i && Index(s[i + |START|..], END) == j
    requires var e := i + |START| + j + |END|; e < |s| && s[e] == '\n'
    ensures FindBlock(s) == Some((i, i + |START| + j + |END| + 1))
    ensures StripBlock(s) == s[..i] + StripBlock(s[i + |START| + j + |END| + 1..])
  {
    hide START, END, Index, HasAt, Contains;
    assert FindBlock(s) == Some((i, i + |START| + j + |END| + 1));
    hide FindBlock;
    StripOnce(s);
  }

  /** Text in front without a start marker stays; the block goes up to its first end marker; what follows
      the block is treated in the same way. */
  lemma StripExact(a: string, inside: string, b: string)
    requires !Contains(a, START) && !Contains(inside, END)
    ensures var s := a + (START + (inside + (END + ("\n" + b))));
            && FindBlock(s) == Some((|a|, |s| - |b|))
            && s[|a|..|s| - |b|] == START + (inside + (END + "\n"))
            && StripBlock(s) == a + StripBlock(b)
  {
    MarkerFacts();
    hide *;
    var tail := END + ("\n" + b);
    var s := a + (START + (inside + tail));
    FirstMarker(a, START, inside + tail);
    FirstMarker(inside, END, "\n" + b);
    SpanParts(a, START, inside, END, b);
    FindBlockIs(s, |a|, |inside|);
  }

  lemma FirstMarker(a: string, m: string, b: string)
    requires Marker(m) && !Contains(a, m)
    ensures Index(a + (m + b), m) == |a| && (a + (m + b))[|a| + |m|..] == b
  {
    FirstAfterPrefix(a, m, b);
    assert a + (m + b) == a + m + b;
  }

  lemma SpanParts(a: string, start: string, inside: string, end: string, b: string)
    ensures var s := a + (start + (inside + (end + ("\n" + b))));
            && |s| - |b| == |a| + |start| + |inside| + |end| + 1
            && s[|a| + |start| + |inside| + |end|] == '\n' && s[..|a|] == a && s[|s| - |b|..] == b
            && s[|a|..|s| - |b|] == start + (inside + (end + "\n"))
  {
    var s := a + (start + (inside + (end + ("\n" + b))));
    assert s == a + (start + (inside + (end + "\n"))) + b;
  }

  lemma FoundAt(content: string, front: string, inside: string, nl: string, rest: string)
    requires BlockAt(content, front, inside, nl, rest)
    ensures FindBlock(content) == Some((|front|, |content| - |rest|))
    ensures content[|front|..|content| - |rest|] == START + (inside + (END + nl))
  {
    MarkerFacts();
    hide START, END, Index, HasAt, Contains, Marker;
    var tail := inside + (END + (nl + rest));
    assert Index(content, START) == |front| && content[|front| + |START|..] == tail by { FirstMarker(front, START, tail); }
    assert Index(tail, END) == |inside| by { FirstMarker(inside, END, nl + rest); }
    EndOfSpan(front, START, inside, END, nl, rest);
  }

  lemma EndOfSpan(front: string, start: string, inside: string, end: string, nl: string, rest: string)
    ensures var s, e := front + (start + (inside + (end + (nl + rest)))), |front| + |start| + |inside| + |end|;
            && |s| == e + |nl| + |rest| && (e < |s| ==> s[e] == (nl + rest)[0])
            && s[|front|..|s| - |rest|] == start + (inside + (end + nl))
  {
    var s := front + (start + (inside + (end + (nl + rest))));
    assert s == front + (start + (inside + (end + nl))) + rest;
  }

  lemma FoundParts(content: string) returns (front: string, inside: string, nl: string, rest: string)
    requires FindBlock(content).Some?
    ensures BlockAt(content, front, inside, nl, rest)
  {
    assert |START| > 0 && |END| > 0 by { MarkerFacts(); }
    HasMarkers(content);
    var tail, more;
    hide *;
    front, tail := CutAt(content, START);
    inside, more := CutAt(tail, END);
    nl, rest := NewlineApart(more);
    assert BlockAt(content, front, inside, nl, rest) by { IsBlockAt(content, front, inside, nl, rest); }
  }

  lemma IsBlockAt(content: string, front: string, inside: string, nl: string, rest: string)
    requires content == front + (START + (inside + (END + (nl + rest)))) && !Contains(front, START) && !Contains(inside, END)
    requires nl == "\n" || (nl == "" && (rest == "" || rest[0] != '\n'))
    ensures BlockAt(content, front, inside, nl, rest)
  {
  }

  lemma NewlineApart(more: string) returns (nl: string, rest: string)
    ensures more == nl + rest && (nl == "\n" || (nl == "" && (rest == "" || rest[0] != '\n')))
  {
    nl := if more != "" && more[0] == '\n' then "\n" else "";
    rest := more[|nl|..];
  }

  lemma HasMarkers(content: string)
    requires FindBlock(content).Some?
    ensures Contains(content, START) && Contains(content[Index(content, START) + |START|..], END)
  {
    hide START, END, HasAt, Contains;
  }

  lemma CutAt(s: string, m: string) returns (a: string, b: string)
    requires Contains(s, m) && |m| > 0
    ensures s == a + (m + b) && !Contains(a, m) && b == s[Index(s, m) + |m|..]
  {
    hide Index;
    var i := Index(s, m);
    a, b := s[..i], s[i + |m|..];
    forall k ensures !HasAt(a, m, k) {
      if k >= 0 { HasAtInFront(s, m, i, k); }
    }
    assert s[i..i + |m|] == m;
  }

  /** Removing blocks: what stands in front of the first block stays, the block goes, what follows is treated in the
      same way; a text without a block stays as it is. */
  lemma StripsAt(content: string, front: string, inside: string, nl: string, rest: string)
    ensures BlockAt(content, front, inside, nl, rest) ==> StripBlock(content) == front + StripBlock(rest)
    ensures (forall a, b, c, d :: !BlockAt(content, a, b, c, d)) ==> StripBlock(content) == content
  {
    hide START, END, FindBlock, BlockAt;
    if BlockAt(content, front, inside, nl, rest) {
      FoundAt(content, front, inside, nl, rest);
      EndsOfBlock(content, front, inside, nl, rest);
      StripOnce(content);
    } else if FindBlock(content).Some? {
      var a, b, c, d := FoundParts(content);
    }
  }

  lemma EndsOfBlock(content: string, front: string, inside: string, nl: string, rest: string)
    requires BlockAt(content, front, inside, nl, rest)
    ensures content[..|front|] == front && content[|content| - |rest|..] == rest
  {
    hide START, END, Contains;
    EndsOfParts(front, START, inside, END, nl, rest);
  }

  lemma EndsOfParts(front: string, start: string, inside: string, end: string, nl: string, rest: string)
    ensures var s := front + (start + (inside + (end + (nl + rest)))); s[..|front|] == front && s[|s| - |rest|..] == rest
  {
  }

  /** No drift is reported exactly if the text up to its first start marker is followed by the expected block. */
  lemma DriftedIff(content: string, expected: string)
    ensures Drifted(content, expected) <==> !Intact(content, expected)
  {
    hide START, END, FindBlock, BlockAt, StripGenerated;
    if FindBlock(content).Some? {
      var f, i, n, r := FoundParts(content);
      forall front, inside, nl, rest | BlockAt(content, front, inside, nl, rest)
        ensures START + (inside + (END + nl)) == content[FindBlock(content).value.0..FindBlock(content).value.1]
      {
        FoundAt(content, front, inside, nl, rest);
      }
    } else {
      forall front, inside, nl, rest ensures !BlockAt(content, front, inside, nl, rest) {
        if BlockAt(content, front, inside, nl, rest) { FoundAt(content, front, inside, nl, rest); }
      }
    }
  }

  ghost predicate StartsAt(content: string, front: string, tail: string) {
    content == front + (START + tail)
  }

  /** A text that lacks a start marker, or an end marker behind one, is not intact. */
  lemma MissingIsDrift(content: string, expected: string)
    requires !Contains(content, START) || forall front, tail | StartsAt(content, front, tail) :: !Contains(tail, END)
    ensures !Intact(content, expected)
  {
    hide StripGenerated, BlockAt;
    forall front, inside, nl, rest ensures !BlockAt(content, front, inside, nl, rest) {
      if BlockAt(content, front, inside, nl, rest) { HoldsBoth(content, front, inside, nl, rest); }
    }
  }

  lemma HoldsBoth(content: string, front: string, inside: string, nl: string, rest: string)
    requires BlockAt(content, front, inside, nl, rest)
    ensures Contains(content, START)
    ensures exists a, b :: StartsAt(content, a, b) && Contains(b, END)
  {
    hide START, END, Contains;
    var tail := inside + (END + (nl + rest));
    Within(front, START, tail);
    Within(inside, END, nl + rest);
    assert StartsAt(content, front, tail);
  }

  lemma Within(a: string, m: string, b: string)
    ensures Contains(a + (m + b), m)
  {
    var s := a + (m + b);
    assert s[|a|..|a| + |m|] == m;
    assert HasAt(s, m, |a|);
  }

  /** So a removal is noticed, as long as no text joined to a start marker. */
  lemma RemovalIsDrift(original: string, expected: string)
    requires !Contains(StripBlock(original), START)
    ensures !Intact(Rewrite(original, ""), expected)
  {
    hide START, StripBlock, Contains, Intact;
    MissingIsDrift(StripBlock(original), expected);
  }

  /** A value that holds `pat` is the only way a variable can bring it into a block. */
  ghost predicate Lacks(v: Vars, pat: string) {
    !Somewhere(Assignments(v), pat)
  }

  lemma InsideWithout(v: Vars, stamp: string, m: string)
    requires Marker(m) && m[2] != 'g' && Stamp(stamp)
    ensures Contains(Inside(v, stamp), m) <==> !Lacks(v, m)
  {
    var lines := Lines(Assignments(v), "");
    NamesAreNames(v);
    LinesContain(Assignments(v), "", m);
    assert "\n" + "" == "\n";
    MissingCharMissingPattern("\n", m, 0);
    hide Assignments, Lines;
    var opening := "\n" + (GENERATED + stamp);
    assert Inside(v, stamp) == opening + (['\n'] + lines);
    assert "\n" + lines == "" + (['\n'] + lines);
    OpeningWithout(stamp, m);
    MissingCharMissingPattern("", m, 0);
    hide Contains;
    ContainsEither(opening, '\n', lines, m);
    ContainsEither("", '\n', lines, m);
  }

  lemma OpeningWithout(stamp: string, m: string)
    requires Marker(m) && m[2] != 'g' && Stamp(stamp)
    ensures !Contains("\n" + (GENERATED + stamp), m)
  {
    var s := "\n" + (GENERATED + stamp);
    assert |GENERATED| == 13 && GENERATED[0] == '#' && GENERATED[2] == 'g' && forall k :: 1 <= k < 13 ==> GENERATED[k] != '#';
    assert forall k :: 0 <= k < |s| && s[k] == '#' ==> k == 1;
    forall i ensures !HasAt(s, m, i) {
      CharAt(s, m, i, i);
      CharAt(s, m, i, i + 2);
    }
  }

  lemma BlockShape(a: string, v: Vars, stamp: string, b: string)
    ensures a + (Render(v, stamp) + b) == a + (START + (Inside(v, stamp) + (END + ("\n" + b))))
    ensures Render(v, stamp) == START + (Inside(v, stamp) + (END + "\n"))
  {
    hide START, END, Inside;
  }

  lemma NoEndInside(v: Vars, stamp: string)
    requires Stamp(stamp) && Lacks(v, END)
    ensures !Contains(Inside(v, stamp), END)
  {
    MarkerFacts();
    hide START, END, Contains, Inside;
    InsideWithout(v, stamp, END);
  }

  /** Removing a block: text of the user's in front of it and behind it stays as it is, whatever the block
      sets, as long as no value holds the end marker. */
  lemma RemovesExactly(a: string, v: Vars, stamp: string, b: string)
    requires !Contains(a, START) && Stamp(stamp) && Lacks(v, END)
    ensures StripBlock(a + (Render(v, stamp) + b)) == a + StripBlock(b)
    ensures var s := a + (Render(v, stamp) + b);
            FindBlock(s) == Some((|a|, |s| - |b|)) && s[|a|..|s| - |b|] == Render(v, stamp)
  {
    hide *;
    NoEndInside(v, stamp);
    BlockShape(a, v, stamp, b);
    StripExact(a, Inside(v, stamp), b);
  }

  lemma RemovesLast(a: string, v: Vars, stamp: string)
    requires !Contains(a, START) && Stamp(stamp) && Lacks(v, END)
    ensures StripBlock(a + Render(v, stamp)) == a
    ensures var s := a + Render(v, stamp);
            FindBlock(s) == Some((|a|, |s|)) && s[|a|..] == Render(v, stamp)
  {
    hide *;
    RemovesLastOf(a, Render(v, stamp), v, stamp);
  }

  lemma NothingToRemove()
    ensures StripBlock("") == ""
  {
    NoStart();
    FreeOfBlocks("");
  }

  lemma RemovesLastOf(a: string, block: string, v: Vars, stamp: string)
    requires block == Render(v, stamp) && !Contains(a, START) && Stamp(stamp) && Lacks(v, END)
    ensures StripBlock(a + block) == a
    ensures FindBlock(a + block) == Some((|a|, |a + block|)) && (a + block)[|a|..] == block
  {
    hide *;
    NothingToRemove();
    RemovesExactly(a, v, stamp, "");
    AtTheEnd(a, block);
  }

  lemma AtTheEnd(a: string, block: string)
    ensures a + (block + "") == a + block && a + "" == a && (a + block)[|a|..] == block
    ensures (a + block)[|a|..|a + block|] == block
  {
    assert block + "" == block;
  }

  /** For values without the start marker: a block leaves nothing behind if and only if no value holds the
      end marker. */
  lemma LeavesNothingIff(v: Vars, stamp: string)
    requires Stamp(stamp) && Lacks(v, START)
    ensures StripBlock(Render(v, stamp)) == "" <==> Lacks(v, END)
  {
    MarkerFacts();
    InsideWithout(v, stamp, END);
    InsideWithout(v, stamp, START);
    hide Lacks, Inside;
    NoStart();
    if Lacks(v, END) {
      hide START, END, Contains, FindBlock;
      assert "" + (Render(v, stamp) + "") == Render(v, stamp);
      RemovesExactly("", v, stamp, "");
      assert StripBlock("") == "" by { FreeOfBlocks(""); }
    } else {
      LeavesRest(Inside(v, stamp));
    }
  }

  lemma NoStart()
    ensures !Contains("", START) && !Contains("", END) && !Contains(END, START)
  {
    MarkerFacts();
    MissingCharMissingPattern("", START, 0);
    MissingCharMissingPattern("", END, 0);
    hide START, END;
    forall i ensures !HasAt(END, START, i) {
      CharAt(END, START, i, i);
      CharAt(END, START, i, i + 2);
    }
  }

  lemma FreeOfBlocks(s: string)
    requires !Contains(s, START)
    ensures StripBlock(s) == s && FindBlock(s) == None
  {
  }

  lemma FirstWithin(inside: string, after: string, m: string)
    requires Contains(inside, m)
    ensures 0 <= Index(inside + after, m) && Index(inside + after, m) + |m| <= |inside|
  {
    ContainedInPrefix(inside, after, m);
    var i :| HasAt(inside, m, i);
    assert HasAt(inside + after, m, i) by { assert (inside + after)[i..i + |m|] == inside[i..i + |m|]; }
  }

  lemma EarlyEnd(inside: string)
    requires Contains(inside, END)
    ensures var s := START + (inside + (END + "\n"));
            && FindBlock(s).Some? && FindBlock(s).value.0 == 0
            && |START| <= FindBlock(s).value.1 <= |START| + |inside| + 1
  {
    MarkerFacts();
    NoStart();
    var tail := inside + (END + "\n");
    FirstWithin(inside, END + "\n", END);
    FirstMarker("", START, tail);
    hide START, END, Marker, Index, HasAt, Contains;
    assert START + tail == "" + (START + tail);
  }

  lemma LeavesRest(inside: string)
    requires Contains(inside, END) && !Contains(inside, START)
    ensures StripBlock(START + (inside + (END + "\n"))) != ""
  {
    EarlyEnd(inside);
    hide *;
    LeavesTail(START, inside, END + "\n");
  }

  lemma LeavesTail(start: string, inside: string, last: string)
    requires start == START && last == END + "\n" && !Contains(inside, START)
    requires var s := start + (inside + last);
             FindBlock(s).Some? && FindBlock(s).value.0 == 0 && |START| <= FindBlock(s).value.1 <= |START| + |inside| + 1
    ensures StripBlock(start + (inside + last)) != ""
  {
    MarkerFacts();
    assert |last| > 3;
    hide *;
    var s := start + (inside + last);
    var e := FindBlock(s).value.1;
    StripOnce(s);
    assert s[e..] == (inside + last)[e - |start|..];
    TailWithout(inside, e - |start|);
    FreeOfBlocks(s[e..]);
  }

  lemma StripOnce(s: string)
    requires FindBlock(s).Some?
    ensures StripBlock(s) == s[..FindBlock(s).value.0] + StripBlock(s[FindBlock(s).value.1..])
  {
    hide FindBlock;
  }

  lemma TailWithout(inside: string, from: nat)
    requires !Contains(inside, START) && from <= |inside + (END + "\n")|
    ensures !Contains((inside + (END + "\n"))[from..], START)
  {
    MarkerFacts();
    hide START, END;
    var s := inside + (END + "\n");
    forall i ensures !HasAt(s[from..], START, i) {
      if HasAt(s[from..], START, i) {
        HasAtInTail(s, START, from, i);
        NotFrom(inside, from + i);
      }
    }
  }

  lemma NotFrom(inside: string, i: nat)
    requires !Contains(inside, START)
    ensures !HasAt(inside + (END + "\n"), START, i)
  {
    MarkerFacts();
    hide START, END;
    var s := inside + (END + "\n");
    CharAt(s, START, i, i);
    CharAt(s, START, i, i + 2);
    CharAt(s, START, i, |inside|);
    HasAtInFront(s, START, |inside|, i);
    assert s[..|inside|] == inside && s[|inside|] == END[0];
    assert i == |inside| ==> s[i + 2] == END[2];
    assert i > |inside| && i < |s| ==> s[i] != '#';
  }
}
