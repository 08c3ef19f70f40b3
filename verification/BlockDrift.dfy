/** Which changes the integrity check sees, exactly: it drops every line that starts like the block's time stamp
    before it compares. */
module BlockDrift {
  import opened Text
  import opened ShellQuote
  import opened ManagedBlock
  import opened AppliedBlocks

  // ---- The comparison ----

  /** The comparison ignores when the block was written. */
  lemma StampIsIgnored(x: Version)
    requires Stamp(x.stamp)
    ensures StripGenerated(Block(x)) == (START + "\n") + StripGenerated(Lines(Assignments(x.vars), END + "\n"))
  {
    MarkerFacts();
    GeneratedFacts();
    RenderLines(x);
    hide START, END, GENERATED, Assignments, Lines, Block, Render, StripGenerated;
    var lines := Lines(Assignments(x.vars), END + "\n");
    var second := (GENERATED + x.stamp) + "\n";
    TextLine(START);
    TextLine(GENERATED + x.stamp);
    assert Block(x) == (START + "\n") + (second + lines);
    GeneratedStep(START + "\n", second + lines);
    GeneratedStep(second, lines);
    assert GENERATED <= second;
    assert !(GENERATED <= START + "\n") by { assert (START + "\n")[2] == START[2]; }
  }

  lemma GeneratedStep(line: string, rest: string)
    requires IsLine(line)
    ensures StripGenerated(line + rest) == if GENERATED <= line then StripGenerated(rest) else line + StripGenerated(rest)
  {
    hide GENERATED;
    ReadLineExact(line, rest);
  }

  lemma DriftAfterApply(original: string, x: Version, expected: string)
    requires !Contains(StripBlock(original), START) && Usable(x)
    ensures Drifted(Rewrite(original, Block(x)), expected) <==> StripGenerated(Block(x)) != StripGenerated(expected)
  {
    hide START, Contains, StripBlock, Usable, Block, Rewrite, FindBlock, StripGenerated;
    KeptIsClean(original, 0);
    KeptIsClean(original, 1);
    assert Kept(original, 0) == Ended(StripBlock(original));
    RewriteIs(original, x);
    ReplacesBlock(Kept(original, 1), x);
    var s := Kept(original, 1) + Block(x);
    assert s[|Kept(original, 1)|..|s|] == s[|Kept(original, 1)|..];
  }

  /** Right after `Apply` the check is content, whenever it runs. */
  lemma NoDriftAfterApply(original: string, x: Version, later: string)
    requires !Contains(StripBlock(original), START) && Usable(x) && Stamp(later)
    ensures !Drifted(Rewrite(original, Block(x)), Block(x.(stamp := later)))
  {
    hide START, Contains, StripBlock, Block, Rewrite, Drifted, StripGenerated, Lacks;
    DriftAfterApply(original, x, Block(x.(stamp := later)));
    StampIsIgnored(x);
    StampIsIgnored(x.(stamp := later));
  }

  function Hidden(): string {
    "\n" + GENERATED
  }

  lemma {:induction false} NothingGenerated(s: string)
    requires !Contains("\n" + s, Hidden())
    ensures StripGenerated(s) == s
    decreases |s|
  {
    GeneratedFacts();
    hide GENERATED, Contains;
    match ReadLine(s)
    case NoLine =>
    case GotLine(line, rest) =>
      NotInRest(line, rest);
      FoundInFront(line, rest);
      NothingGenerated(rest);
  }

  lemma FoundInFront(line: string, rest: string)
    ensures GENERATED <= line ==> Contains("\n" + (line + rest), Hidden())
  {
    hide GENERATED;
    var s := "\n" + (line + rest);
    if GENERATED <= line {
      assert s[0..0 + |Hidden()|] == Hidden();
      assert HasAt(s, Hidden(), 0);
    }
  }

  lemma NotInRest(line: string, rest: string)
    requires IsLine(line) && !Contains("\n" + (line + rest), Hidden())
    ensures !Contains("\n" + rest, Hidden())
  {
    hide GENERATED, HasAt;
    var s := "\n" + (line + rest);
    assert s[|line|..] == "\n" + rest;
    forall i ensures !HasAt("\n" + rest, Hidden(), i) {
      if i >= 0 { HasAtInTail(s, Hidden(), |line|, i); }
      NegativeIsNoPlace("\n" + rest, Hidden(), i);
    }
  }

  lemma NegativeIsNoPlace(s: string, pat: string, i: int)
    ensures HasAt(s, pat, i) ==> i >= 0
  {
  }

  lemma LinesAreKept(v: Vars)
    requires Lacks(v, Hidden())
    ensures StripGenerated(Lines(Assignments(v), END + "\n")) == Lines(Assignments(v), END + "\n")
  {
    MarkerFacts();
    GeneratedFacts();
    NamesAreNames(v);
    hide END, GENERATED, Assignments, Lines, StripGenerated;
    assert Hidden()[1] == '#';
    var s := "\n" + (END + "\n");
    forall i ensures !HasAt(s, Hidden(), i) {
      CharAt(s, Hidden(), i, i);
      CharAt(s, Hidden(), i, i + 3);
    }
    LinesContain(Assignments(v), END + "\n", Hidden());
    NothingGenerated(Lines(Assignments(v), END + "\n"));
  }

  lemma SameLinesSameVars(v: Vars, w: Vars)
    requires Lines(Assignments(v), END + "\n") == Lines(Assignments(w), END + "\n")
    ensures v == w
  {
    NamesAreNames(v);
    NamesAreNames(w);
    hide Assignments, Lines, Source, END, Lookup;
    Sources(Assignments(v), END + "\n");
    Sources(Assignments(w), END + "\n");
    EndsQuietly();
    assert Assignments(v) + [] == Assignments(v) && Assignments(w) + [] == Assignments(w);
    Environment(v);
    Environment(w);
  }

  /** For values in which no line starts like the time stamp's: the check reports drift exactly if the
      variables differ. */
  lemma DriftOfPlainLines(original: string, x: Version, y: Version)
    requires !Contains(StripBlock(original), START) && Usable(x) && Stamp(y.stamp)
    requires Lacks(x.vars, Hidden()) && Lacks(y.vars, Hidden())
    ensures Drifted(Rewrite(original, Block(x)), Block(y)) <==> x.vars != y.vars
  {
    hide START, END, Contains, StripBlock, Block, Rewrite, Drifted, StripGenerated, Lacks, Hidden, Lines, Assignments;
    DriftAfterApply(original, x, Block(y));
    StampIsIgnored(x);
    StampIsIgnored(y);
    LinesAreKept(x.vars);
    LinesAreKept(y.vars);
    if StripGenerated(Block(x)) == StripGenerated(Block(y)) {
      var a, b := Lines(Assignments(x.vars), END + "\n"), Lines(Assignments(y.vars), END + "\n");
      assert ((START + "\n") + a)[|START| + 1..] == a && ((START + "\n") + b)[|START| + 1..] == b;
      SameLinesSameVars(x.vars, y.vars);
    }
  }

  /** A line that starts like the time stamp's is invisible to the comparison wherever it stands. */
  lemma {:induction false} GeneratedLineIsInvisible(a: string, t: string, b: string)
    requires '\n' !in t
    ensures StripGenerated((a + "\n") + (((GENERATED + t) + "\n") + b)) == StripGenerated((a + "\n") + b)
    decreases |a|
  {
    GeneratedFacts();
    hide GENERATED, StripGenerated;
    var second := (GENERATED + t) + "\n";
    TextLine(GENERATED + t);
    match ReadLine(a)
    case NoLine =>
      TextLine(a);
      GeneratedStep(a + "\n", second + b);
      GeneratedStep(second, b);
      GeneratedStep(a + "\n", b);
    case GotLine(line, rest) =>
      GeneratedLineIsInvisible(rest, t, b);
      Associate(line, rest, "\n");
      Associate(line, rest + "\n", second + b);
      Associate(line, rest + "\n", b);
      GeneratedStep(line, (rest + "\n") + (second + b));
      GeneratedStep(line, (rest + "\n") + b);
  }

  // ---- Values on one line: nothing escapes the check ----

  /** No value has a newline in it. */
  ghost predicate OneLineValues(vars: seq<Assignment>) {
    forall k :: 0 <= k < |vars| ==> '\n' !in vars[k].1
  }

  lemma CharIn(s: string, c: char)
    ensures Contains(s, [c]) <==> c in s
  {
    if c in s {
      var i :| 0 <= i < |s| && s[i] == c;
      assert s[i..i + 1] == [c];
      assert HasAt(s, [c], i);
    } else {
      MissingCharMissingPattern(s, [c], 0);
    }
  }

  lemma EscapeKeepsLines(v: string)
    ensures '\n' in Escape(v) <==> '\n' in v
  {
    hide Escape, Contains;
    EscapeContains(v, "\n");
    CharIn(v, '\n');
    CharIn(Escape(v), '\n');
  }

  /** What an export line starts with. */
  function Lead(name: string): string {
    "export " + name + "="
  }

  lemma LineIsOne(a: Assignment)
    requires Name(a.0) && '\n' !in a.1
    ensures IsLine(Line(a))
  {
    EscapeKeepsLines(a.1);
    hide Escape;
    var text := Lead(a.0) + ("'" + Escape(a.1) + "'");
    assert Line(a) == text + "\n";
    assert '\n' !in text;
    TextLine(text);
  }

  lemma LineStarts(a: Assignment, rest: string)
    ensures Line(a) + rest != "" && (Line(a) + rest)[0] == 'e' && !(GENERATED <= Line(a))
  {
    GeneratedFacts();
    hide Quote, GENERATED;
    assert Line(a)[0] == 'e';
  }

  lemma SameLineSameAssignment(a: Assignment, b: Assignment)
    requires Name(a.0) && Name(b.0) && Line(a) == Line(b)
    ensures a == b
  {
    hide Line, Name;
    SourcesLine(a, "");
    SourcesLine(b, "");
    assert Line(a) + "" == Line(a) && Line(b) + "" == Line(b);
    assert [a] + [] == [a] && [b] + [] == [b];
  }

  lemma QuoteParts(a: string, e: string)
    ensures a + ("'\\''" + e) == a + ("'" + ("\\''" + e))
  {
    assert "'\\''" + e == "'" + ("\\''" + e);
  }

  lemma QuotedEnds(a: string)
    requires '\'' !in a
    ensures Quoted(a) == Unreadable
    decreases |a|
  {
    if a != "" { QuotedEnds(a[1..]); }
  }

  /** An escaped text alone never closes its quote. */
  lemma {:induction false} NeverCloses(v: string)
    ensures Quoted(Escape(v)) == Unreadable
    decreases |v|
  {
    hide Escape, Quoted, Bare, IndexByte;
    var i := IndexByte(v, '\'');
    if i == -1 {
      EscapeStep(v, "");
      QuotedEnds(v);
    } else {
      var a, b := v[..i], v[i + 1..];
      SplitAtByte(v, '\'');
      EscapeStep(a, b);
      NeverCloses(b);
      EscapedQuote(Escape(b));
      var rest := "\\''" + Escape(b);
      QuotedSpan(a, rest);
      QuoteParts(a, Escape(b));
    }
  }

  /** So the part of a value in front of a newline cannot be taken for a whole value. */
  lemma NotAWholeValue(p: string, v: string)
    ensures Escape(p) != Escape(v) + "'"
  {
    hide Escape, Quoted;
    NeverCloses(p);
    ReadsEscaped(v, "");
    assert Escape(v) + ("'" + "") == Escape(v) + "'";
  }

  lemma NotAWholeLine(name: string, p: string, a: Assignment)
    requires Name(name) && Name(a.0)
    ensures Lead(name) + ("'" + Escape(p)) + "\n" != Line(a)
  {
    hide Escape;
    NotAWholeValue(p, a.1);
    Associate("'", Escape(a.1), "'");
    assert Line(a) == Lead(a.0) + ("'" + (Escape(a.1) + "'")) + "\n";
    SameText(name, Escape(p), a.0, Escape(a.1) + "'");
  }

  lemma SameText(m: string, e: string, n: string, f: string)
    requires Name(m) && Name(n)
    ensures Lead(m) + ("'" + e) + "\n" == Lead(n) + ("'" + f) + "\n" ==> e == f
  {
    var s, t := Lead(m) + ("'" + e) + "\n", Lead(n) + ("'" + f) + "\n";
    var r, q := "'" + e, "'" + f;
    assert s[7..|s| - 1] == m + ['='] + r && t[7..|t| - 1] == n + ['='] + q;
    IndexByteExact(m, '=', r);
    IndexByteExact(n, '=', q);
    assert r[1..] == e && q[1..] == f;
  }

  lemma LineOfTwo(a: Assignment, e: string, f: string)
    requires Escape(a.1) == e + ("\n" + f)
    ensures Line(a) == (Lead(a.0) + ("'" + e) + "\n") + (f + "'\n")
  {
    hide Escape;
    JoinLine(Lead(a.0), e, f);
  }

  lemma JoinLine(lead: string, e: string, f: string)
    ensures lead + ("'" + (e + ("\n" + f)) + "'") + "\n" == (lead + ("'" + e) + "\n") + (f + "'\n")
  {
  }

  lemma NoNewLine(lead: string, e: string)
    requires '\n' !in lead && '\n' !in e
    ensures '\n' !in lead + ("'" + e)
  {
  }

  /** The first of several lines of an export whose value holds a newline. */
  lemma FirstOfMany(a: Assignment) returns (p: string, q: string)
    requires Name(a.0) && '\n' in a.1
    ensures a.1 == p + ("\n" + q) && '\n' !in p
    ensures Line(a) == (Lead(a.0) + ("'" + Escape(p)) + "\n") + (Escape(q) + "'\n")
    ensures IsLine(Lead(a.0) + ("'" + Escape(p)) + "\n")
  {
    assert '\n' !in Lead(a.0);
    hide Escape, Line, Lead;
    var i := IndexByte(a.1, '\n');
    p, q := a.1[..i], a.1[i + 1..];
    SplitAtByte(a.1, '\n');
    EscapeSum(p, "\n" + q);
    EscapeFree("\n", q);
    LineOfTwo(a, Escape(p), Escape(q));
    EscapeKeepsLines(p);
    NoNewLine(Lead(a.0), Escape(p));
    TextLine(Lead(a.0) + ("'" + Escape(p)));
  }

  /** Escaping works piece by piece. */
  lemma {:induction false} EscapeSum(a: string, b: string)
    ensures Escape(a + b) == Escape(a) + Escape(b)
    decreases |a|
  {
    hide Escape, IndexByte;
    var i := IndexByte(a, '\'');
    if i == -1 {
      EscapeStep(a, "");
      EscapeFree(a, b);
    } else {
      var a0, a1 := a[..i], a[i + 1..];
      SplitAtByte(a, '\'');
      Associate(['\''], a1, b);
      Associate(a0, ['\''] + a1, b);
      EscapeStep(a0, a1);
      EscapeStep(a0, a1 + b);
      EscapeSum(a1, b);
      Associate("'\\''", Escape(a1), Escape(b));
      Associate(a0, "'\\''" + Escape(a1), Escape(b));
    }
  }

  lemma EscapeFree(a: string, b: string)
    requires '\'' !in a
    ensures Escape(a + b) == a + Escape(b)
  {
    hide Escape, IndexByte;
    var i := IndexByte(b, '\'');
    if i == -1 {
      EscapeStep(b, "");
      EscapeStep(a + b, "");
    } else {
      var b0, b1 := b[..i], b[i + 1..];
      SplitAtByte(b, '\'');
      Associate(a, b0, ['\''] + b1);
      EscapeStep(b0, b1);
      EscapeStep(a + b0, b1);
      Associate(a, b0, "'\\''" + Escape(b1));
    }
  }

  /** The text behind the last export: it is neither dropped nor taken for one. */
  ghost predicate Closing(last: string) {
    StripGenerated(last) == last && last != "" && last[0] != 'e'
  }

  lemma EqualLines(a: string, r: string, b: string, t: string)
    requires IsLine(a) && IsLine(b) && a + r == b + t
    ensures a == b && r == t
  {
    ReadLineExact(a, r);
    ReadLineExact(b, t);
  }

  /** What is left of any exports after dropping stamp-like lines can be exports of one-line values only if
      they are the same exports: a value cut at a newline never looks like a whole one. */
  lemma {:induction false} OnlyTheSame(xs: seq<Assignment>, ys: seq<Assignment>, last: string)
    requires OneLineValues(xs) && AllNames(xs) && AllNames(ys) && Closing(last)
    requires StripGenerated(Lines(ys, last)) == Lines(xs, last)
    ensures xs == ys
    decreases |ys|
  {
    hide StripGenerated, Line, Name;
    if ys == [] {
      if xs != [] { LineStarts(xs[0], Lines(xs[1..], last)); }
    } else if '\n' in ys[0].1 {
      CutIsSeen(xs, ys, last);
    } else {
      var rest := Lines(ys[1..], last);
      LineIsOne(ys[0]);
      LineStarts(ys[0], StripGenerated(rest));
      GeneratedStep(Line(ys[0]), rest);
      assert xs != [];
      LineIsOne(xs[0]);
      EqualLines(Line(ys[0]), StripGenerated(rest), Line(xs[0]), Lines(xs[1..], last));
      SameLineSameAssignment(ys[0], xs[0]);
      OnlyTheSame(xs[1..], ys[1..], last);
    }
  }

  lemma CutIsSeen(xs: seq<Assignment>, ys: seq<Assignment>, last: string)
    requires OneLineValues(xs) && AllNames(xs) && AllNames(ys) && Closing(last)
    requires ys != [] && '\n' in ys[0].1
    ensures StripGenerated(Lines(ys, last)) != Lines(xs, last)
  {
    GeneratedFacts();
    var p, q := FirstOfMany(ys[0]);
    var first := Lead(ys[0].0) + ("'" + Escape(p)) + "\n";
    var rest := (Escape(q) + "'\n") + Lines(ys[1..], last);
    assert first[0] == 'e' && !(GENERATED <= first);
    hide StripGenerated, Line, Name, Escape, Lead, GENERATED;
    Associate(first, Escape(q) + "'\n", Lines(ys[1..], last));
    GeneratedStep(first, rest);
    if xs != [] {
      NotAWholeLine(ys[0].0, p, xs[0]);
      LineIsOne(xs[0]);
      if first + StripGenerated(rest) == Lines(xs, last) {
        EqualLines(first, StripGenerated(rest), Line(xs[0]), Lines(xs[1..], last));
      }
    }
  }

  // ---- Values on several lines: something does ----

  /** A stamp-like line put behind the first newline of a value. */
  function Insert(v: string): string {
    var i := IndexByte(v, '\n');
    if i == -1 then v else v[..i] + ("\n" + (GENERATED + ("\n" + v[i + 1..])))
  }

  function InsertAll(v: Vars): Vars {
    Vars(Insert(v.httpsProxy), Insert(v.httpProxy), Insert(v.nodeExtraCACerts), Insert(v.requestsCABundle),
         Insert(v.sslCertFile))
  }

  ghost predicate Inserted(xs: seq<Assignment>, ys: seq<Assignment>) {
    |xs| == |ys| && forall k :: 0 <= k < |xs| ==> ys[k] == (xs[k].0, Insert(xs[k].1))
  }

  lemma InsertKeepsEmpty(v: string)
    ensures Insert(v) == "" <==> v == ""
  {
    GeneratedFacts();
    hide GENERATED;
  }

  lemma InsertedGiven(xs: seq<Assignment>, ys: seq<Assignment>, name: string, v: string)
    requires Inserted(xs, ys)
    ensures Inserted(xs + Given(name, v), ys + Given(name, Insert(v)))
  {
    InsertKeepsEmpty(v);
    hide Insert;
  }

  lemma InsertedAssignments(v: Vars)
    ensures Inserted(Assignments(v), Assignments(InsertAll(v)))
  {
    hide Insert, Inserted, Given;
    hide HTTPS_PROXY, HTTPS_PROXY_LOWER, HTTP_PROXY, HTTP_PROXY_LOWER, NODE_EXTRA_CA_CERTS, REQUESTS_CA_BUNDLE, SSL_CERT_FILE;
    assert Inserted([], []) by { NothingInserted(); }
    var w := InsertAll(v);
    var a1, b1 := [] + Given(HTTPS_PROXY, v.httpsProxy), [] + Given(HTTPS_PROXY, w.httpsProxy);
    InsertedGiven([], [], HTTPS_PROXY, v.httpsProxy);
    var a2, b2 := a1 + Given(HTTPS_PROXY_LOWER, v.httpsProxy), b1 + Given(HTTPS_PROXY_LOWER, w.httpsProxy);
    InsertedGiven(a1, b1, HTTPS_PROXY_LOWER, v.httpsProxy);
    var a3, b3 := a2 + Given(HTTP_PROXY, v.httpProxy), b2 + Given(HTTP_PROXY, w.httpProxy);
    InsertedGiven(a2, b2, HTTP_PROXY, v.httpProxy);
    var a4, b4 := a3 + Given(HTTP_PROXY_LOWER, v.httpProxy), b3 + Given(HTTP_PROXY_LOWER, w.httpProxy);
    InsertedGiven(a3, b3, HTTP_PROXY_LOWER, v.httpProxy);
    var a5, b5 := a4 + Given(NODE_EXTRA_CA_CERTS, v.nodeExtraCACerts), b4 + Given(NODE_EXTRA_CA_CERTS, w.nodeExtraCACerts);
    InsertedGiven(a4, b4, NODE_EXTRA_CA_CERTS, v.nodeExtraCACerts);
    var a6, b6 := a5 + Given(REQUESTS_CA_BUNDLE, v.requestsCABundle), b5 + Given(REQUESTS_CA_BUNDLE, w.requestsCABundle);
    InsertedGiven(a5, b5, REQUESTS_CA_BUNDLE, v.requestsCABundle);
    InsertedGiven(a6, b6, SSL_CERT_FILE, v.sslCertFile);
    assert a1 == Given(HTTPS_PROXY, v.httpsProxy) && b1 == Given(HTTPS_PROXY, w.httpsProxy);
  }

  lemma NothingInserted()
    ensures Inserted([], [])
  {
  }

  /** Texts that compare alike still do behind the same complete lines. */
  lemma {:induction false} SameBehind(l: string, r: string, t: string)
    requires (l == "" || l[|l| - 1] == '\n') && StripGenerated(r) == StripGenerated(t)
    ensures StripGenerated(l + r) == StripGenerated(l + t)
    decreases |l|
  {
    hide StripGenerated, GENERATED;
    match ReadLine(l)
    case NoLine =>
      assert l == "" && l + r == r && l + t == t;
    case GotLine(line, more) =>
      assert more == "" || more[|more| - 1] == l[|l| - 1];
      SameBehind(more, r, t);
      Associate(line, more, r);
      Associate(line, more, t);
      GeneratedStep(line, more + r);
      GeneratedStep(line, more + t);
  }

  lemma InsertIsInvisible(a: Assignment, rest: string)
    requires Name(a.0)
    ensures StripGenerated(Line((a.0, Insert(a.1))) + rest) == StripGenerated(Line(a) + rest)
  {
    if '\n' in a.1 {
      var p, q := FirstOfMany(a);
      InsertedText(a.1, p, q);
      InsertedLine(a.0, p, q);
      hide StripGenerated, Escape, GENERATED, Line, Insert, Lead;
      var lead, tail := Lead(a.0) + ("'" + Escape(p)), (Escape(q) + "'\n") + rest;
      GeneratedLineIsInvisible(lead, "", tail);
      RegroupLines(lead, GENERATED, Escape(q) + "'\n", rest);
    } else {
      hide StripGenerated, Line;
      assert Insert(a.1) == a.1;
    }
  }

  lemma InsertedText(v: string, p: string, q: string)
    requires v == p + ("\n" + q) && '\n' !in p
    ensures Insert(v) == p + ("\n" + (GENERATED + ("\n" + q)))
  {
    hide GENERATED;
    assert v == p + ['\n'] + q;
    IndexByteExact(p, '\n', q);
  }

  lemma InsertedLine(name: string, p: string, q: string)
    ensures Line((name, p + ("\n" + (GENERATED + ("\n" + q))))) ==
            (Lead(name) + ("'" + Escape(p)) + "\n") + ((GENERATED + "\n") + (Escape(q) + "'\n"))
  {
    GeneratedFacts();
    assert '\'' !in GENERATED;
    hide GENERATED, Escape, Line, Lead;
    var f := GENERATED + ("\n" + q);
    EscapeSum(p, "\n" + f);
    EscapeFree("\n", f);
    EscapeFree(GENERATED, "\n" + q);
    EscapeFree("\n", q);
    LineOfTwo((name, p + ("\n" + f)), Escape(p), GENERATED + ("\n" + Escape(q)));
    Associate(GENERATED, "\n", Escape(q));
    Associate(GENERATED + "\n", Escape(q), "'\n");
  }

  lemma RegroupLines(lead: string, m: string, tail: string, rest: string)
    ensures ((lead + "\n") + ((m + "\n") + tail)) + rest == (lead + "\n") + (((m + "") + "\n") + (tail + rest))
    ensures ((lead + "\n") + tail) + rest == (lead + "\n") + (tail + rest)
  {
    assert m + "" == m;
  }

  lemma {:induction false} InsertedLines(xs: seq<Assignment>, ys: seq<Assignment>, last: string)
    requires Inserted(xs, ys) && AllNames(xs)
    ensures StripGenerated(Lines(ys, last)) == StripGenerated(Lines(xs, last))
    decreases |xs|
  {
    hide StripGenerated, Insert, Line, Name;
    if xs != [] {
      InsertedLines(xs[1..], ys[1..], last);
      InsertIsInvisible(xs[0], Lines(ys[1..], last));
      assert Line(xs[0])[|Line(xs[0])| - 1] == '\n' by { EndsLine(xs[0]); }
      SameBehind(Line(xs[0]), Lines(ys[1..], last), Lines(xs[1..], last));
    }
  }

  lemma EndsLine(a: Assignment)
    ensures Line(a) != "" && Line(a)[|Line(a)| - 1] == '\n'
  {
    hide Quote;
  }

  // ---- The check, exactly ----

  lemma EndCloses()
    ensures Closing(END + "\n")
  {
    MarkerFacts();
    GeneratedFacts();
    TextLine(END);
    var line := END + "\n";
    assert line[2] == '<' && line[0] == '#';
    hide END, GENERATED;
    assert !(GENERATED <= line);
    GeneratedStep(line, "");
    assert line + "" == line && StripGenerated("") == "";
  }

  /** If the applied values have no newline, the check reports drift exactly if the variables differ. */
  lemma OneLineSeesAll(original: string, x: Version, y: Version)
    requires !Contains(StripBlock(original), START) && Usable(x) && Stamp(y.stamp)
    requires OneLineValues(Assignments(x.vars))
    ensures Drifted(Rewrite(original, Block(x)), Block(y)) <==> x.vars != y.vars
  {
    EndCloses();
    NamesAreNames(x.vars);
    NamesAreNames(y.vars);
    hide START, END, Contains, StripBlock, Block, Rewrite, Drifted, StripGenerated, Lacks, Lines, Assignments, OneLineValues, AllNames, Closing;
    DriftAfterApply(original, x, Block(y));
    StampIsIgnored(x);
    StampIsIgnored(y);
    NothingDropped(x.vars);
    if StripGenerated(Block(x)) == StripGenerated(Block(y)) {
      var a, b := Lines(Assignments(x.vars), END + "\n"), StripGenerated(Lines(Assignments(y.vars), END + "\n"));
      assert ((START + "\n") + a)[|START| + 1..] == a && ((START + "\n") + b)[|START| + 1..] == b;
      OnlyTheSame(Assignments(x.vars), Assignments(y.vars), END + "\n");
      SameLinesSameVars(x.vars, y.vars);
    }
  }

  lemma {:induction false} NothingDroppedFrom(xs: seq<Assignment>, last: string)
    requires OneLineValues(xs) && AllNames(xs) && Closing(last)
    ensures StripGenerated(Lines(xs, last)) == Lines(xs, last)
    decreases |xs|
  {
    hide StripGenerated, Line, Name;
    if xs != [] {
      NothingDroppedFrom(xs[1..], last);
      LineIsOne(xs[0]);
      LineStarts(xs[0], "");
      GeneratedStep(Line(xs[0]), Lines(xs[1..], last));
    }
  }

  lemma NothingDropped(v: Vars)
    requires OneLineValues(Assignments(v))
    ensures StripGenerated(Lines(Assignments(v), END + "\n")) == Lines(Assignments(v), END + "\n")
  {
    EndCloses();
    NamesAreNames(v);
    hide Assignments, END, Lines, StripGenerated, AllNames, OneLineValues, Closing;
    NothingDroppedFrom(Assignments(v), END + "\n");
  }

  /** If some applied value has a newline, there are other variables that the check takes for the same. */
  lemma DriftIsMissed(original: string, x: Version) returns (y: Version)
    requires !Contains(StripBlock(original), START) && Usable(x)
    requires !OneLineValues(Assignments(x.vars))
    ensures Stamp(y.stamp) && y.vars != x.vars
    ensures !Drifted(Rewrite(original, Block(x)), Block(y))
  {
    y := Version(InsertAll(x.vars), x.stamp);
    NamesAreNames(x.vars);
    InsertedAssignments(x.vars);
    InsertedDiffers(Assignments(x.vars), Assignments(y.vars));
    hide START, END, Contains, StripBlock, Block, Rewrite, Drifted, StripGenerated, Lacks, Lines, Assignments, InsertAll, AllNames, Inserted, OneLineValues;
    DriftAfterApply(original, x, Block(y));
    StampIsIgnored(x);
    StampIsIgnored(y);
    InsertedLines(Assignments(x.vars), Assignments(y.vars), END + "\n");
  }

  lemma InsertedDiffers(xs: seq<Assignment>, ys: seq<Assignment>)
    requires Inserted(xs, ys) && !OneLineValues(xs)
    ensures xs != ys
  {
    GeneratedFacts();
    hide GENERATED;
    var k :| 0 <= k < |xs| && '\n' in xs[k].1;
    assert |ys[k].1| > |xs[k].1|;
  }

  /** The exact condition: after `Apply`, the check reports exactly the changes of variables, whatever the
      expected ones are, if and only if no applied value has a newline. */
  lemma DriftIff(original: string, x: Version)
    requires !Contains(StripBlock(original), START) && Usable(x)
    ensures (forall y: Version | Stamp(y.stamp) :: Drifted(Rewrite(original, Block(x)), Block(y)) <==> x.vars != y.vars)
            <==> OneLineValues(Assignments(x.vars))
  {
    hide START, Contains, StripBlock, Block, Rewrite, Drifted, Usable, Assignments, OneLineValues, Stamp;
    if OneLineValues(Assignments(x.vars)) {
      forall y: Version | Stamp(y.stamp)
        ensures Drifted(Rewrite(original, Block(x)), Block(y)) <==> x.vars != y.vars
      {
        OneLineSeesAll(original, x, y);
      }
    } else {
      var y := DriftIsMissed(original, x);
    }
  }
}
