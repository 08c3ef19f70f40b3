/** Quoting values for a POSIX shell, and how a shell reads them back. */
module ShellQuote {
  import opened Text

  /** `strings.ReplaceAll` of a quote by: close, escaped quote, reopen. */
  function Escape(s: string): string
    decreases |s|
  {
    var i := IndexByte(s, '\'');
    if i == -1 then s else s[..i] + ("'\\''" + Escape(s[i + 1..]))
  }

  function Quote(s: string): string {
    "'" + Escape(s) + "'"
  }

  type Assignment = (string, string)

  function Line(a: Assignment): string {
    "export " + a.0 + "=" + Quote(a.1) + "\n"
  }

  /** The assignments, one after the other, in front of `last`. */
  function Lines(vars: seq<Assignment>, last: string): string {
    if vars == [] then last else Line(vars[0]) + Lines(vars[1..], last)
  }

  lemma {:induction false} LinesAppend(vars: seq<Assignment>, a: Assignment, last: string)
    ensures Lines(vars + [a], last) == Lines(vars, Line(a) + last)
  {
    hide Line;
    if vars == [] {
      assert [] + [a] == [a] && [a][1..] == [];
    } else {
      assert (vars + [a])[1..] == vars[1..] + [a];
      LinesAppend(vars[1..], a, last);
    }
  }

  lemma {:induction false} LinesThen(vars: seq<Assignment>, last: string)
    ensures Lines(vars, last) == Lines(vars, "") + last
  {
    hide Line;
    if vars != [] { LinesThen(vars[1..], last); }
  }

  // ---- What a shell makes of it ----

  datatype Word = Word(value: string, rest: string) | Unreadable

  function Push(c: char, w: Word): Word {
    if w.Word? then w.(value := [c] + w.value) else w
  }

  /** Outside quotes a word ends at a newline; characters with a meaning of their own are not read. */
  function Bare(s: string): Word
    decreases |s|
  {
    if s == "" || s[0] == '\n' then Word("", s)
    else if s[0] == '\'' then Quoted(s[1..])
    else if s[0] == '\\' then
      if |s| == 1 then Unreadable
      else if s[1] == '\n' then Bare(s[2..])
      else Push(s[1], Bare(s[2..]))
    else if s[0] in " \t\"$`;&|<>()*?[#~" then Unreadable
    else Push(s[0], Bare(s[1..]))
  }

  /** Between single quotes every character stands for itself. */
  function Quoted(s: string): Word
    decreases |s|
  {
    if s == "" then Unreadable
    else if s[0] == '\'' then Bare(s[1..])
    else Push(s[0], Quoted(s[1..]))
  }

  /** Comments, blank lines and `export NAME=word` lines; what they assign, in order. */
  function Source(s: string): Option<seq<Assignment>>
    decreases |s|
  {
    if s == "" then Some([])
    else if s[0] == '#' || s[0] == '\n' then Source(AfterLine(s))
    else if "export " <= s then SourceName(s[7..])
    else None
  }

  function SourceName(s: string): Option<seq<Assignment>>
    decreases |s|
  {
    var i := IndexByte(s, '=');
    if i == -1 then None
    else
      WordShrinks(s[i + 1..]);
      match Bare(s[i + 1..])
      case Unreadable => None
      case Word(value, rest) => Assigned((s[..i], value), if rest == "" then Some([]) else Source(rest[1..]))
  }

  function Assigned(a: Assignment, rest: Option<seq<Assignment>>): Option<seq<Assignment>> {
    if rest.Some? then Some([a] + rest.value) else None
  }

  /** A comment on the last line needs no newline. */
  function AfterLine(s: string): (rest: string)
    requires s != ""
    ensures |rest| < |s|
  {
    var i := IndexByte(s, '\n');
    if i == -1 then "" else s[i + 1..]
  }

  lemma {:induction false} WordShrinks(s: string)
    ensures Bare(s).Word? ==> |Bare(s).rest| <= |s|
    ensures Quoted(s).Word? ==> |Quoted(s).rest| <= |s|
    decreases |s|
  {
    if s != "" {
      WordShrinks(s[1..]);
      if |s| > 1 { WordShrinks(s[2..]); }
    }
  }

  // ---- Reading back ----

  function Prepend(a: string, w: Word): Word {
    if w.Word? then w.(value := a + w.value) else w
  }

  lemma {:induction false} QuotedSpan(a: string, t: string)
    requires '\'' !in a
    ensures Quoted(a + ("'" + t)) == Prepend(a, Bare(t))
  {
    var s := a + ("'" + t);
    if a == "" {
      assert s == "'" + t && s[1..] == t;
    } else {
      assert s[0] == a[0] && s[1..] == a[1..] + ("'" + t);
      QuotedSpan(a[1..], t);
      assert a == [a[0]] + a[1..];
      assert Bare(t).Word? ==> [a[0]] + (a[1..] + Bare(t).value) == a + Bare(t).value;
    }
  }

  lemma EscapedQuote(t: string)
    ensures Bare("\\''" + t) == Push('\'', Quoted(t))
  {
    var s := "\\''" + t;
    assert s[0] == '\\' && s[1] == '\'' && s[2..] == "'" + t;
    assert ("'" + t)[1..] == t;
  }

  /** A shell reads a quoted value back as the value itself: every value, whatever quotes, newlines or
      other special characters it holds. */
  lemma {:induction false} ReadsBack(v: string, after: string)
    requires after == "" || after[0] == '\n'
    ensures Bare(Quote(v) + after) == Word(v, after)
  {
    var s := Quote(v) + after;
    assert s[0] == '\'' && s[1..] == Escape(v) + ("'" + after);
    ReadsEscaped(v, after);
  }

  lemma EscapeStep(a: string, b: string)
    requires '\'' !in a
    ensures Escape(a) == a && Escape(a + (['\''] + b)) == a + ("'\\''" + Escape(b))
  {
    var s := a + (['\''] + b);
    IndexByteExact(a, '\'', b);
    assert s == a + ['\''] + b;
  }

  lemma {:induction false} ReadsEscaped(v: string, after: string)
    requires after == "" || after[0] == '\n'
    ensures Quoted(Escape(v) + ("'" + after)) == Word(v, after)
    decreases |v|
  {
    hide Escape, Quoted, Bare, IndexByte;
    var i := IndexByte(v, '\'');
    if i == -1 {
      EscapeStep(v, "");
      WordEnds(after);
      QuotedSpan(v, after);
      assert v + "" == v;
    } else {
      var a, b := v[..i], v[i + 1..];
      SplitAtByte(v, '\'');
      ReadsEscaped(b, after);
      EscapeStep(a, b);
      var t := Escape(b) + ("'" + after);
      EscapedQuote(t);
      QuotedSpan(a, "\\''" + t);
      Regroup(a, Escape(b), "'" + after);
    }
  }

  lemma WordEnds(after: string)
    requires after == "" || after[0] == '\n'
    ensures Bare(after) == Word("", after)
  {
  }

  lemma Regroup(a: string, e: string, tail: string)
    ensures (a + ("'\\''" + e)) + tail == a + ("'" + ("\\''" + (e + tail)))
  {
    assert "'\\''" + e == "'" + ("\\''" + e);
  }

  predicate Name(n: string) {
    forall k :: 0 <= k < |n| ==> n[k] != '=' && n[k] != '#' && n[k] != '\n'
  }

  /** Sourcing the lines performs exactly the assignments, in order. */
  lemma {:induction false} Sources(vars: seq<Assignment>, last: string)
    requires forall k :: 0 <= k < |vars| ==> Name(vars[k].0)
    ensures Source(Lines(vars, last)) == if Source(last).Some? then Some(vars + Source(last).value) else None
  {
    hide Source, Line, Name;
    if vars == [] {
      assert Source(last).Some? ==> [] + Source(last).value == Source(last).value;
    } else {
      var rest := Lines(vars[1..], last);
      assert Lines(vars, last) == Line(vars[0]) + rest;
      Sources(vars[1..], last);
      SourcesLine(vars[0], rest);
      assert vars == [vars[0]] + vars[1..];
      assert Source(last).Some? ==> [vars[0]] + (vars[1..] + Source(last).value) == vars + Source(last).value;
    }
  }

  lemma SourcesLine(a: Assignment, rest: string)
    requires Name(a.0)
    ensures Source(Line(a) + rest) == Assigned(a, Source(rest))
  {
    hide Source, Quote, Bare, Quoted;
    var tail := Quote(a.1) + ("\n" + rest);
    assert Line(a) + rest == "export " + (a.0 + ['='] + tail);
    SourceExport(a.0 + ['='] + tail);
    IndexByteExact(a.0, '=', tail);
    ReadsBack(a.1, "\n" + rest);
    assert ("\n" + rest)[1..] == rest;
  }

  lemma SourceExport(s: string)
    ensures Source("export " + s) == SourceName(s)
  {
    var t := "export " + s;
    assert t[0] == 'e' && "export " <= t && t[7..] == s;
    hide SourceName;
  }

  // ---- Marker text inside values ----

  ghost predicate NoQuoting(pat: string) {
    |pat| > 0 && '\'' !in pat && '\\' !in pat
  }

  lemma ContainsEither(a: string, c: char, b: string, pat: string)
    requires c !in pat && |pat| > 0
    ensures Contains(a + ([c] + b), pat) <==> Contains(a, pat) || Contains(b, pat)
  {
    var s := a + ([c] + b);
    assert s == a + [c] + b;
    if i :| HasAt(s, pat, i) {
      OccurrenceAroundSeparator(a, c, b, pat, i);
    }
    if Contains(a, pat) { ContainedInPrefix(a, [c] + b, pat); }
    if i :| HasAt(b, pat, i) {
      assert s[|a| + 1..] == b;
      HasAtInTail(s, pat, |a| + 1, i);
      assert HasAt(s, pat, |a| + 1 + i);
    }
  }

  lemma QuoteText(e: string)
    ensures "'\\''" + e == ['\''] + ("\\" + (['\''] + (['\''] + e)))
  {
  }

  lemma EscapedQuoteContains(t: string, pat: string)
    requires NoQuoting(pat)
    ensures Contains("\\" + (['\''] + (['\''] + t)), pat) <==> Contains(t, pat)
  {
    hide Contains;
    var u := ['\''] + t;
    assert u == "" + (['\''] + t);
    ContainsEither("\\", '\'', u, pat);
    ContainsEither("", '\'', t, pat);
    MissingCharMissingPattern("", pat, 0);
    MissingCharMissingPattern("\\", pat, 0);
  }

  /** Escaping neither makes nor breaks an occurrence of a text without quotes and backslashes. */
  lemma {:induction false} EscapeContains(s: string, pat: string)
    requires NoQuoting(pat)
    ensures Contains(Escape(s), pat) <==> Contains(s, pat)
    decreases |s|
  {
    hide Contains, Escape, IndexByte;
    var i := IndexByte(s, '\'');
    if i == -1 {
      EscapeStep(s, "");
    } else {
      var a, b := s[..i], s[i + 1..];
      SplitAtByte(s, '\'');
      EscapeContains(b, pat);
      EscapeStep(a, b);
      var rest := "\\" + (['\''] + (['\''] + Escape(b)));
      QuoteText(Escape(b));
      ContainsEither(a, '\'', b, pat);
      ContainsEither(a, '\'', rest, pat);
      EscapedQuoteContains(Escape(b), pat);
    }
  }

  ghost predicate Somewhere(vars: seq<Assignment>, pat: string) {
    exists k :: 0 <= k < |vars| && Contains(vars[k].1, pat)
  }

  lemma LineParts(a: Assignment, rest: string)
    ensures "\n" + (Line(a) + rest) == ("\nexport " + a.0 + "=") + (['\''] + (Escape(a.1) + (['\''] + ("\n" + rest))))
  {
    hide Escape;
  }

  /** Text that the names cannot hold occurs in the lines only if it occurs in a value or behind them. */
  lemma {:induction false} LinesContain(vars: seq<Assignment>, last: string, pat: string)
    requires NoQuoting(pat) && '#' in pat && forall k :: 0 <= k < |vars| ==> Name(vars[k].0)
    ensures Contains("\n" + Lines(vars, last), pat) <==> Somewhere(vars, pat) || Contains("\n" + last, pat)
    decreases |vars|
  {
    hide Contains, Escape, Line;
    if vars != [] {
      var rest := Lines(vars[1..], last);
      assert Lines(vars, last) == Line(vars[0]) + rest;
      LinesContain(vars[1..], last, pat);
      SomewhereFirst(vars, pat);
      LineContains(vars[0], rest, pat);
    }
  }

  lemma LineContains(a: Assignment, rest: string, pat: string)
    requires NoQuoting(pat) && '#' in pat && Name(a.0)
    ensures Contains("\n" + (Line(a) + rest), pat) <==> Contains(a.1, pat) || Contains("\n" + rest, pat)
  {
    hide Contains, Escape;
    var lead := "\nexport " + a.0 + "=";
    LineParts(a, rest);
    ContainsEither(lead, '\'', Escape(a.1) + (['\''] + ("\n" + rest)), pat);
    ContainsEither(Escape(a.1), '\'', "\n" + rest, pat);
    EscapeContains(a.1, pat);
    var k :| 0 <= k < |pat| && pat[k] == '#';
    MissingCharMissingPattern(lead, pat, k);
  }

  lemma SomewhereFirst(vars: seq<Assignment>, pat: string)
    requires vars != []
    ensures Somewhere(vars, pat) <==> Contains(vars[0].1, pat) || Somewhere(vars[1..], pat)
  {
    hide Contains;
    forall k | 0 <= k < |vars[1..]| ensures vars[1..][k] == vars[k + 1] {}
    if k :| 0 <= k < |vars| && Contains(vars[k].1, pat) {
      assert k > 0 ==> vars[1..][k - 1] == vars[k];
    }
    if k :| 0 <= k < |vars[1..]| && Contains(vars[1..][k].1, pat) {
      assert Contains(vars[k + 1].1, pat);
    }
  }
}
