/** Removing automatically inserted blocks from a user's message. */
module SystemTags {
  import opened Text

  const REMINDER := "system-reminder"
  const SYSTEM := "system"

  function Open(tag: string): string {
    "<" + tag + ">"
  }

  function Close(tag: string): string {
    "</" + tag + ">"
  }

  /** Repeatedly from the first opening tag to the first closing tag behind it; without a closing tag, to the
      end. */
  function Strip(s: string, tag: string): string
    decreases |s|
  {
    var start := Index(s, Open(tag));
    if start == -1 then s
    else
      var end := Index(s[start..], Close(tag));
      if end == -1 then s[..start]
      else Strip(s[..start] + s[start + end + |Close(tag)|..], tag)
  }

  /** What the first tag leaves for the second. */
  function AfterReminders(s: string): string {
    Strip(s, REMINDER)
  }

  function Stripped(s: string): string {
    TrimSpace(Strip(AfterReminders(s), SYSTEM))
  }

  lemma StripRound(s: string, tag: string)
    ensures Index(s, Open(tag)) == -1 ==> Strip(s, tag) == s
    ensures Index(s, Open(tag)) != -1 ==>
              var start := Index(s, Open(tag));
              && 0 <= start <= |s|
              && var end := Index(s[start..], Close(tag));
                 if end == -1 then Strip(s, tag) == s[..start]
                 else
                   && 0 <= end && start + end + |Close(tag)| <= |s|
                   && Strip(s, tag) == Strip(s[..start] + s[start + end + |Close(tag)|..], tag)
  {
    hide Open, Close;
  }

  /** `stripSystemTags`: every round of the inner loop makes the text shorter. */
  method StripSystemTags(text: string) returns (r: string)
    ensures r == Stripped(text)
  {
    var s := text;
    var tags := [REMINDER, SYSTEM];
    hide Open, Close, Strip, Contains, HasAt, REMINDER, SYSTEM;
    for i := 0 to |tags|
      invariant s == if i == 0 then text else if i == 1 then AfterReminders(text) else Strip(AfterReminders(text), SYSTEM)
    {
      s := StripTag(s, tags[i]);
    }
    r := TrimSpace(s);
  }

  /** The inner loop. */
  method StripTag(text: string, tag: string) returns (s: string)
    ensures s == Strip(text, tag)
  {
    hide Strip, Contains, HasAt;
    OpenIsNotEmpty(tag);
    var open, close := "<" + tag + ">", "</" + tag + ">";
    assert open == Open(tag) && close == Close(tag);
    hide Open, Close;
    s := text;
    while true
      invariant Strip(s, tag) == Strip(text, tag)
      decreases |s|
    {
      StripRound(s, tag);
      var start := Index(s, open);
      if start < 0 { return; }
      var end := Index(s[start..], close);
      if end < 0 {
        s := s[..start];
        return;
      }
      s := s[..start] + s[start + end + |close|..];
    }
  }

  lemma OpenIsNotEmpty(tag: string)
    ensures |Open(tag)| > 0 && |Close(tag)| > 0
  {
  }

  lemma StripCut(s: string, tag: string)
    requires Index(s, Open(tag)) >= 0
    ensures Index(s[..Index(s, Open(tag))], Open(tag)) == -1
  {
    var start := Index(s, Open(tag));
    OpenIsNotEmpty(tag);
    forall i ensures !HasAt(s[..start], Open(tag), i) {
      if 0 <= i { HasAtInFront(s, Open(tag), start, i); }
    }
  }

  // ---- Nothing is left ----

  /** No opening tag is left, even where a removal joins two pieces of text into a new one. */
  lemma {:induction false} NoTagLeft(s: string, tag: string)
    ensures !Contains(Strip(s, tag), Open(tag))
    decreases |s|
  {
    hide Open, Close;
    OpenIsNotEmpty(tag);
    var start := Index(s, Open(tag));
    if start != -1 {
      var end := Index(s[start..], Close(tag));
      if end == -1 {
        StripCut(s, tag);
      } else {
        NoTagLeft(s[..start] + s[start + end + |Close(tag)|..], tag);
      }
    }
  }

  lemma SliceWithout(s: string, i: nat, j: nat, pat: string)
    requires i <= j <= |s| && !Contains(s, pat)
    ensures !Contains(s[i..j], pat)
  {
    assert s[i..j] == s[..j][i..];
    forall k ensures !HasAt(s[i..j], pat, k) {
      if k >= 0 {
        HasAtInTail(s[..j], pat, i, k);
        HasAtInFront(s, pat, j, i + k);
      }
    }
  }

  /** The result never holds the second opening tag, and the second pass never sees the first one. */
  lemma NeverLeaks(s: string)
    ensures !Contains(Stripped(s), Open(SYSTEM)) && !Contains(AfterReminders(s), Open(REMINDER))
  {
    hide Open, Strip, StartOfText, EndOfText;
    NoTagLeft(s, REMINDER);
    var t := Strip(AfterReminders(s), SYSTEM);
    NoTagLeft(AfterReminders(s), SYSTEM);
    var i := StartOfText(t, 0);
    SliceWithout(t, i, EndOfText(t, i, |t|), Open(SYSTEM));
  }

  // ---- Nothing is invented ----

  ghost predicate Embeds(a: string, b: string, at: seq<nat>) {
    && |at| == |a|
    && (forall k :: 0 <= k < |at| ==> at[k] < |b| && b[at[k]] == a[k])
    && (forall j, k :: 0 <= j < k < |at| ==> at[j] < at[k])
  }

  /** `a` can be had from `b` by leaving characters out. */
  ghost predicate Subsequence(a: string, b: string) {
    exists at :: Embeds(a, b, at)
  }

  lemma SubsequenceTransitive(a: string, b: string, c: string)
    requires Subsequence(a, b) && Subsequence(b, c)
    ensures Subsequence(a, c)
  {
    var ab :| Embeds(a, b, ab);
    var bc :| Embeds(b, c, bc);
    var ac := seq(|a|, k requires 0 <= k < |a| => bc[ab[k]]);
    assert Embeds(a, c, ac);
  }

  lemma CutIsSubsequence(s: string, i: nat, j: nat)
    requires i <= j <= |s|
    ensures Subsequence(s[..i] + s[j..], s) && Subsequence(s[i..j], s) && Subsequence(s[..i], s)
  {
    var cut := s[..i] + s[j..];
    assert Embeds(cut, s, seq(|cut|, (k: nat) => if k < i then k else k + j - i));
    assert Embeds(s[i..j], s, seq(j - i, (k: nat) => k + i));
    assert Embeds(s[..i], s, seq(i, (k: nat) => k));
  }

  lemma {:induction false} StripIsSubsequence(s: string, tag: string)
    ensures Subsequence(Strip(s, tag), s)
    decreases |s|
  {
    hide Open, Close, Embeds, Strip, Contains, HasAt;
    OpenIsNotEmpty(tag);
    StripRound(s, tag);
    CutIsSubsequence(s, 0, |s|);
    assert s[0..|s|] == s;
    hide Subsequence;
    var start := Index(s, Open(tag));
    if start != -1 {
      var end := Index(s[start..], Close(tag));
      if end == -1 {
        CutIsSubsequence(s, start, |s|);
      } else {
        var next := s[..start] + s[start + end + |Close(tag)|..];
        CutIsSubsequence(s, start, start + end + |Close(tag)|);
        StripIsSubsequence(next, tag);
        SubsequenceTransitive(Strip(next, tag), next, s);
      }
    }
  }

  /** The result is what is left of the message after leaving characters out: none is added or moved. */
  lemma OnlyRemoves(s: string)
    ensures Subsequence(Stripped(s), s)
  {
    hide Strip, StartOfText, EndOfText, Subsequence;
    var t := AfterReminders(s);
    var u := Strip(t, SYSTEM);
    StripIsSubsequence(s, REMINDER);
    StripIsSubsequence(t, SYSTEM);
    var i := StartOfText(u, 0);
    CutIsSubsequence(u, i, EndOfText(u, i, |u|));
    SubsequenceTransitive(u, t, s);
    SubsequenceTransitive(Stripped(s), u, s);
  }

  // ---- Exactly the blocks go ----

  /** An opening tag without a closing one takes everything behind it, and nothing in front. */
  lemma UnclosedTakesTheRest(a: string, rest: string, tag: string)
    requires TagName(tag) && !Contains(a, Open(tag)) && !Contains(rest, Close(tag))
    ensures Strip(a + (Open(tag) + rest), tag) == a
  {
    TagFacts(tag, rest);
    hide Open, Close, Contains, TagName, HasAt;
    FirstAfterPrefix(a, Open(tag), rest);
    Associate(a, Open(tag), rest);
    var s := a + (Open(tag) + rest);
    assert s[..|a|] == a && s[|a|..] == Open(tag) + rest;
    hide Strip;
    StripRound(s, tag);
  }

  predicate TagName(tag: string) {
    forall k :: 0 <= k < |tag| ==> tag[k] != '<' && tag[k] != '/'
  }

  lemma TagNames()
    ensures TagName(REMINDER) && TagName(SYSTEM)
  {
  }

  lemma TagFacts(tag: string, inner: string)
    requires TagName(tag) && !Contains(inner, Close(tag))
    ensures LeadOnly(Open(tag)) && LeadOnly(Close(tag)) && !Contains(Open(tag) + inner, Close(tag))
  {
    var o, c := Open(tag), Close(tag);
    assert forall k :: 1 <= k < |o| ==> o[k] == if k <= |tag| then tag[k - 1] else '>';
    assert forall k :: 2 <= k < |c| ==> c[k] == if k <= |tag| + 1 then tag[k - 2] else '>';
    assert o[1] != '/' && c[1] == '/' && c[0] == '<';
    NoCloseBefore(o, inner, c);
  }

  lemma NoCloseBefore(o: string, inner: string, c: string)
    requires !Contains(inner, c) && |c| > 1 && |o| > 1 && c[0] == '<' && c[1] != o[1]
    requires forall k :: 1 <= k < |o| ==> o[k] != '<'
    ensures !Contains(o + inner, c)
  {
    var s := o + inner;
    forall i ensures !HasAt(s, c, i) {
      CharAt(s, c, i, i);
      CharAt(s, c, i, i + 1);
      if i >= |o| {
        assert s[|o|..] == inner;
        HasAtInTail(s, c, |o|, i - |o|);
      }
    }
  }

  /** One round: a block whose inside holds no closing tag disappears from behind text without an opening
      tag. */
  lemma RoundRemoves(a: string, inner: string, b: string, tag: string)
    requires TagName(tag) && !Contains(a, Open(tag)) && !Contains(inner, Close(tag))
    ensures Strip(a + (Open(tag) + (inner + (Close(tag) + b))), tag) == Strip(a + b, tag)
  {
    hide *;
    TagFacts(tag, inner);
    RoundOf(a, Open(tag), inner, Close(tag), b, tag);
  }

  lemma RoundOf(a: string, o: string, inner: string, c: string, b: string, tag: string)
    requires o == Open(tag) && c == Close(tag)
    requires LeadOnly(o) && LeadOnly(c) && !Contains(a, o) && !Contains(o + inner, c)
    ensures Strip(a + (o + (inner + (c + b))), tag) == Strip(a + b, tag)
  {
    hide *;
    RoundIndexes(a, o, inner, c, b);
    StripTo(a + (o + (inner + (c + b))), tag, |a|, |o| + |inner|, a, b);
  }

  lemma StripTo(s: string, tag: string, start: nat, end: nat, a: string, b: string)
    requires start <= |s| && Index(s, Open(tag)) == start && Index(s[start..], Close(tag)) == end
    requires start + end + |Close(tag)| <= |s| && s[..start] == a && s[start + end + |Close(tag)|..] == b
    ensures Strip(s, tag) == Strip(a + b, tag)
  {
    hide *;
    StripAt(s, tag, start, end);
  }

  lemma StripAt(s: string, tag: string, start: nat, end: nat)
    requires start <= |s| && Index(s, Open(tag)) == start && Index(s[start..], Close(tag)) == end
    ensures start + end + |Close(tag)| <= |s|
    ensures Strip(s, tag) == Strip(s[..start] + s[start + end + |Close(tag)|..], tag)
  {
    StripRound(s, tag);
    hide *;
  }

  lemma RoundIndexes(a: string, o: string, inner: string, c: string, b: string)
    requires LeadOnly(o) && LeadOnly(c) && !Contains(a, o) && !Contains(o + inner, c)
    ensures var s := a + (o + (inner + (c + b)));
            && Index(s, o) == |a| && Index(s[|a|..], c) == |o| + |inner|
            && s[..|a|] == a && s[|a| + (|o| + |inner|) + |c|..] == b
  {
    hide *;
    Associate(a, o, inner + (c + b));
    FirstAfterPrefix(a, o, inner + (c + b));
    Associate(o, inner, c + b);
    Associate(o + inner, c, b);
    FirstAfterPrefix(o + inner, c, b);
    RoundParts(a, o, inner, c, b);
  }

  lemma RoundParts(a: string, o: string, inner: string, c: string, b: string)
    ensures var s := a + (o + (inner + (c + b)));
            && s[|a|..] == o + (inner + (c + b)) && s[..|a|] == a && s[|a| + (|o| + |inner|) + |c|..] == b
  {
  }

  /** User text, then what an inserted block holds. */
  datatype Piece = Piece(text: string, inner: string)

  function Message(pieces: seq<Piece>, last: string, tag: string): string {
    if pieces == [] then last
    else pieces[0].text + (Open(tag) + (pieces[0].inner + (Close(tag) + Message(pieces[1..], last, tag))))
  }

  function UserText(pieces: seq<Piece>, last: string): string {
    if pieces == [] then last else pieces[0].text + UserText(pieces[1..], last)
  }

  /** Any number of well-formed blocks between any pieces of user text: the user text is left, complete and
      in order.  The insides may hold opening tags. */
  lemma {:induction false} StripsBlocks(before: string, pieces: seq<Piece>, last: string, tag: string)
    requires TagName(tag) && !Contains(before + UserText(pieces, last), Open(tag))
    requires forall k :: 0 <= k < |pieces| ==> !Contains(pieces[k].inner, Close(tag))
    ensures Strip(before + Message(pieces, last, tag), tag) == before + UserText(pieces, last)
    decreases |pieces|
  {
    hide Open, Close, Contains, TagName;
    if pieces == [] {
      NothingToStrip(before + last, tag);
    } else {
      var p, rest := pieces[0], Message(pieces[1..], last, tag);
      var a, text := before + p.text, UserText(pieces[1..], last);
      assert before + UserText(pieces, last) == a + text;
      PrefixWithout(a, text, Open(tag));
      assert before + Message(pieces, last, tag) == a + (Open(tag) + (p.inner + (Close(tag) + rest)));
      hide Strip, Message;
      RoundRemoves(a, p.inner, rest, tag);
      StripsBlocks(a, pieces[1..], last, tag);
    }
  }

  lemma NothingToStrip(s: string, tag: string)
    requires !Contains(s, Open(tag))
    ensures Strip(s, tag) == s
  {
  }

  lemma PrefixWithout(a: string, b: string, pat: string)
    requires !Contains(a + b, pat)
    ensures !Contains(a, pat)
  {
    assert (a + b)[0..|a|] == a;
    SliceWithout(a + b, 0, |a|, pat);
  }

  /** A message without either tag is only trimmed. */
  lemma CleanTextIsTrimmed(s: string)
    requires !Contains(s, Open(REMINDER)) && !Contains(s, Open(SYSTEM))
    ensures Stripped(s) == TrimSpace(s)
  {
  }

  // ---- The first tag in the result ----

  predicate Fits(x: string, z: string, pat: string) {
    exists k :: 0 < k < |pat| && FitsAt(x, z, pat, k)
  }

  predicate FitsAt(x: string, z: string, pat: string, k: nat) {
    0 < k < |pat| && k <= |x| && |pat| - k <= |z| && x[|x| - k..] == pat[..k] && z[..|pat| - k] == pat[k..]
  }

  /** Leaving out the middle of a text brings in `pat` exactly if the front ends in a beginning of `pat` and
      the rest continues it. */
  lemma JoinMakesTagIff(x: string, y: string, z: string, pat: string)
    requires !Contains(x + (y + z), pat) && |pat| > 0
    ensures Contains(x + z, pat) <==> Fits(x, z, pat)
  {
    var s := x + z;
    if i :| HasAt(s, pat, i) {
      NotOnOneSide(x, y, z, pat, i);
      var k := |x| - i;
      assert pat[..k] == s[i..i + |pat|][..k] == x[i..];
      assert pat[k..] == s[i..i + |pat|][k..] == z[..|pat| - k];
      assert FitsAt(x, z, pat, k);
    }
    if k :| FitsAt(x, z, pat, k) { JoinedAt(x, z, pat, k); }
  }

  lemma JoinedAt(x: string, z: string, pat: string, k: nat)
    requires FitsAt(x, z, pat, k)
    ensures HasAt(x + z, pat, |x| - k)
  {
    var i := |x| - k;
    assert (x + z)[i..i + |pat|] == x[i..] + z[..|pat| - k];
    assert pat == pat[..k] + pat[k..];
  }

  lemma NotOnOneSide(x: string, y: string, z: string, pat: string, i: int)
    requires !Contains(x + (y + z), pat) && HasAt(x + z, pat, i)
    ensures i < |x| < i + |pat|
  {
    OnOneSide(x, y, z, pat, i);
  }

  lemma OnOneSide(x: string, y: string, z: string, pat: string, i: int)
    requires HasAt(x + z, pat, i)
    ensures i + |pat| <= |x| ==> HasAt(x + (y + z), pat, i)
    ensures i >= |x| ==> HasAt(x + (y + z), pat, i + |y|)
  {
    var all := x + (y + z);
    if i + |pat| <= |x| {
      assert all[i..i + |pat|] == (x + z)[i..i + |pat|];
    }
    if i >= |x| {
      assert all[i + |y|..i + |y| + |pat|] == (x + z)[i..i + |pat|];
    }
  }

  /** Somewhere in the second pass the text before a removed block ends in a beginning of the reminder tag and
      the text behind the block continues it. */
  predicate JoinsReminder(t: string)
    decreases |t|
  {
    var start := Index(t, Open(SYSTEM));
    start != -1 &&
    var end := Index(t[start..], Close(SYSTEM));
    end != -1 &&
    var x, z := t[..start], t[start + end + |Close(SYSTEM)|..];
    Fits(x, z, Open(REMINDER)) || JoinsReminder(x + z)
  }

  lemma ReminderShape()
    ensures var o, r := Open(SYSTEM), Open(REMINDER);
            && |o| == 8 && |r| == 17 && o[0] == '<' && r[0] == '<' && o[7] == '>' && r[7] == '-'
            && (forall k :: 1 <= k < 8 ==> o[k] != '<') && (forall k :: 1 <= k < 17 ==> r[k] != '<')
  {
  }

  /** A reminder tag and a system tag never overlap. */
  lemma Apart(s: string, p: int, i: int)
    requires HasAt(s, Open(REMINDER), p) && HasAt(s, Open(SYSTEM), i)
    ensures i + 8 <= p || p + 17 <= i
  {
    ReminderShape();
    CharAt(s, Open(REMINDER), p, i);
    CharAt(s, Open(REMINDER), p, p);
    CharAt(s, Open(REMINDER), p, p + 7);
    CharAt(s, Open(SYSTEM), i, p);
    CharAt(s, Open(SYSTEM), i, i);
    CharAt(s, Open(SYSTEM), i, i + 7);
  }

  ghost predicate Ahead(s: string, p: int) {
    HasAt(s, Open(REMINDER), p) && forall i :: HasAt(s, Open(SYSTEM), i) ==> p < i
  }

  lemma SameInFront(s: string, t: string, n: nat, pat: string, i: int)
    requires n <= |s| && n <= |t| && s[..n] == t[..n]
    ensures i + |pat| <= n ==> (HasAt(s, pat, i) <==> HasAt(t, pat, i))
  {
    if 0 <= i && i + |pat| <= n {
      HasAtInFront(s, pat, n, i);
      HasAtInFront(t, pat, n, i);
    }
  }

  /** A cut behind a reminder tag leaves that tag in front of every system tag. */
  lemma CutKeepsAhead(s: string, p: int, start: nat, next: string)
    requires Ahead(s, p) && HasAt(s, Open(SYSTEM), start) && forall i :: HasAt(s, Open(SYSTEM), i) ==> start <= i
    requires start <= |next| && next[..start] == s[..start]
    ensures Ahead(next, p)
  {
    ReminderShape();
    assert start <= |s|;
    hide Open, HasAt;
    Apart(s, p, start);
    SameInFront(s, next, start, Open(REMINDER), p);
    forall i | HasAt(next, Open(SYSTEM), i) ensures p < i {
      SameInFront(s, next, start, Open(SYSTEM), i);
      Apart(next, p, i);
    }
  }

  /** A reminder tag in front of every system tag survives the second pass. */
  lemma {:induction false} Survives(s: string, p: int)
    requires Ahead(s, p)
    ensures Contains(Strip(s, SYSTEM), Open(REMINDER))
    decreases |s|
  {
    hide Open, Close, HasAt, Strip;
    OpenIsNotEmpty(SYSTEM);
    StripRound(s, SYSTEM);
    var start := Index(s, Open(SYSTEM));
    if start == -1 {
      assert HasAt(s, Open(REMINDER), p);
    } else {
      var end := Index(s[start..], Close(SYSTEM));
      if end == -1 {
        CutKeepsAhead(s, p, start, s[..start]);
        assert s[..start][..start] == s[..start];
      } else {
        var next := s[..start] + s[start + end + |Close(SYSTEM)|..];
        CutKeepsAhead(s, p, start, next);
        Survives(next, p);
      }
    }
  }

  /** A reminder tag put together by a removal lies in front of every system tag that is left. */
  lemma JoinedIsAhead(x: string, y: string, z: string)
    requires HasAt(x + (y + z), Open(SYSTEM), |x|) && forall i :: HasAt(x + (y + z), Open(SYSTEM), i) ==> |x| <= i
    requires !Contains(x + (y + z), Open(REMINDER)) && Contains(x + z, Open(REMINDER))
    ensures exists p :: Ahead(x + z, p)
  {
    ReminderShape();
    hide Open, HasAt;
    var p :| HasAt(x + z, Open(REMINDER), p);
    NotOnOneSide(x, y, z, Open(REMINDER), p);
    forall i | HasAt(x + z, Open(SYSTEM), i) ensures p < i {
      Apart(x + z, p, i);
      OnOneSide(x, y, z, Open(SYSTEM), i);
    }
    assert Ahead(x + z, p);
  }

  /** The second pass over a text without the reminder tag brings one in if and only if some removal joins
      one; what is joined is never taken away again. */
  lemma {:induction false} SecondPassIff(t: string)
    requires !Contains(t, Open(REMINDER))
    ensures Contains(Strip(t, SYSTEM), Open(REMINDER)) <==> JoinsReminder(t)
    decreases |t|
  {
    OpenIsNotEmpty(SYSTEM);
    OpenIsNotEmpty(REMINDER);
    hide Open, Close, HasAt, Strip, Fits;
    StripRound(t, SYSTEM);
    var start := Index(t, Open(SYSTEM));
    if start != -1 {
      var end := Index(t[start..], Close(SYSTEM));
      if end == -1 {
        SliceWithout(t, 0, start, Open(REMINDER));
        assert t[0..start] == t[..start];
      } else {
        var e := start + end + |Close(SYSTEM)|;
        var x, y, z := t[..start], t[start..e], t[e..];
        assert t == x + (y + z);
        JoinMakesTagIff(x, y, z, Open(REMINDER));
        if Contains(x + z, Open(REMINDER)) {
          JoinedIsAhead(x, y, z);
          var p :| Ahead(x + z, p);
          Survives(x + z, p);
        } else {
          SecondPassIff(x + z);
        }
      }
    }
  }

  lemma TrimKeepsTag(u: string, pat: string)
    requires |pat| > 0 && forall k :: 0 <= k < |pat| ==> !IsSpace(pat[k])
    ensures Contains(TrimSpace(u), pat) <==> Contains(u, pat)
  {
    hide StartOfText, EndOfText, IsSpace;
    var i := StartOfText(u, 0);
    var j := EndOfText(u, i, |u|);
    assert u[i..j] == u[..j][i..];
    if m :| HasAt(u, pat, m) {
      CharAt(u, pat, m, m);
      CharAt(u, pat, m, m + |pat| - 1);
      HasAtInFront(u, pat, j, m);
      HasAtInTail(u[..j], pat, i, m - i);
      assert HasAt(u[i..j], pat, m - i);
    }
    if !Contains(u, pat) { SliceWithout(u, i, j, pat); }
  }

  lemma NoSpaceInReminder()
    ensures forall k :: 0 <= k < |Open(REMINDER)| ==> !IsSpace(Open(REMINDER)[k])
  {
  }

  /** Exactly when the result can hold a reminder tag although the first pass removed them all. */
  lemma ReminderSurvivesIff(s: string)
    ensures Contains(Stripped(s), Open(REMINDER)) <==> JoinsReminder(AfterReminders(s))
  {
    NoSpaceInReminder();
    OpenIsNotEmpty(REMINDER);
    hide Open, Close, Strip, Contains, TrimSpace, JoinsReminder, IsSpace;
    NoTagLeft(s, REMINDER);
    SecondPassIff(AfterReminders(s));
    TrimKeepsTag(Strip(AfterReminders(s), SYSTEM), Open(REMINDER));
  }

  lemma WitnessChars()
    ensures |WITNESS| == 34 && WITNESS[7] == '<' && WITNESS[14] == '>' && WITNESS[16] == '/'
    ensures forall k :: 0 <= k < 34 && WITNESS[k] == '<' ==> k == 0 || k == 7 || k == 15
  {
  }

  lemma NoReminderIn(s: string)
    requires s == WITNESS
    ensures !Contains(s, Open(REMINDER))
  {
    WitnessChars();
    ReminderShape();
    assert Open(REMINDER)[1] == 's';
    hide WITNESS, Open;
    forall i ensures !HasAt(s, Open(REMINDER), i) {
      CharAt(s, Open(REMINDER), i, i);
      CharAt(s, Open(REMINDER), i, i + 1);
      CharAt(s, Open(REMINDER), i, i + 7);
    }
  }

  lemma NoSystemIn(s: string)
    requires s == "<system-reminder>"
    ensures !Contains(s, Open(SYSTEM))
  {
    forall i ensures !HasAt(s, Open(SYSTEM), i) {
      CharAt(s, Open(SYSTEM), i, i);
      CharAt(s, Open(SYSTEM), i, i + 7);
    }
  }

  const WITNESS := "<system<system></system>-reminder>"

  lemma WitnessParts()
    ensures WITNESS == "<system" + (Open(SYSTEM) + ("" + (Close(SYSTEM) + "-reminder>")))
    ensures Open(REMINDER) == "<system" + "-reminder>"
  {
  }

  /** And it happens: the second pass can put a reminder tag together that the first pass could not see. */
  lemma ReminderCanSurvive()
    ensures Stripped(WITNESS) == Open(REMINDER)
  {
    var t := Open(REMINDER);
    NoReminderIn(WITNESS);
    NoSystemIn(t);
    TagNames();
    WitnessParts();
    MissingCharMissingPattern("", Close(SYSTEM), 0);
    NoSystemInFront("<system");
    TrimTight(t);
    hide Open, Close, Strip, TagName, Contains, TrimSpace, WITNESS;
    NothingToStrip(WITNESS, REMINDER);
    NothingToStrip(t, SYSTEM);
    RoundRemoves("<system", "", "-reminder>", SYSTEM);
  }

  lemma NoSystemInFront(s: string)
    requires |s| < |Open(SYSTEM)|
    ensures !Contains(s, Open(SYSTEM))
  {
  }
}
