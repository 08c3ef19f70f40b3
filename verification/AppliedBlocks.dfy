/** What repeated application of the managed block does to a file, and what a shell makes of a block. */
module AppliedBlocks {
  import opened Text
  import opened ShellQuote
  import opened ManagedBlock

  /** One call of `Apply`. */
  datatype Version = Version(vars: Vars, stamp: string)

  ghost predicate Usable(x: Version) {
    Stamp(x.stamp) && Lacks(x.vars, END)
  }

  function Block(x: Version): string {
    Render(x.vars, x.stamp)
  }

  function Applied(original: string, versions: seq<Version>): string {
    if versions == [] then original
    else Rewrite(Applied(original, versions[..|versions| - 1]), Block(versions[|versions| - 1]))
  }

  function NewLines(n: nat): string {
    if n == 0 then "" else NewLines(n - 1) + "\n"
  }

  /** The user's text, ended by a newline, and `n` newlines. */
  function Kept(original: string, n: nat): string {
    Ended(StripBlock(original)) + NewLines(n)
  }

  lemma NewLineAdded(s: string)
    requires !Contains(s, START)
    ensures !Contains(s + "\n", START)
  {
    MarkerFacts();
    MissingCharMissingPattern("", START, 0);
    hide START, Contains;
    ContainsEither(s, '\n', "", START);
    assert ['\n'] + "" == "\n";
  }

  lemma {:induction false} KeptIsClean(original: string, n: nat)
    requires !Contains(StripBlock(original), START)
    ensures !Contains(Kept(original, n), START) && Kept(original, n + 1) == Kept(original, n) + "\n"
    ensures Ended(Kept(original, n)) == Kept(original, n)
  {
    hide START, Contains, StripBlock;
    if n == 0 {
      assert Kept(original, 0) == Ended(StripBlock(original));
      NewLineAdded(StripBlock(original));
    } else {
      KeptIsClean(original, n - 1);
      NewLineAdded(Kept(original, n - 1));
    }
  }

  lemma BlockIsNotEmpty(x: Version)
    ensures Block(x) != ""
  {
    MarkerFacts();
    hide START, END, Inside;
  }

  /** Rewriting a file that ends in a block replaces that block. */
  lemma ReplacesBlock(a: string, x: Version)
    requires !Contains(a, START) && Usable(x)
    ensures StripBlock(a + Block(x)) == a
    ensures FindBlock(a + Block(x)) == Some((|a|, |a + Block(x)|)) && (a + Block(x))[|a|..] == Block(x)
  {
    hide START, END, Contains, StripBlock, FindBlock, Render;
    RemovesLast(a, x.vars, x.stamp);
  }

  lemma RewriteIs(original: string, x: Version)
    ensures Rewrite(original, Block(x)) == (Ended(StripBlock(original)) + "\n") + Block(x)
  {
    BlockIsNotEmpty(x);
    hide Block, StripBlock, Ended;
  }

  /** Whatever versions were applied, one after the other: what removing blocks leaves of the file stays, one
      block stands behind it, and every application has added a newline.  Whether what is left is the user's
      text is the subject of `TextIsKeptIff`. */
  lemma {:induction false} ApplyAccumulates(original: string, versions: seq<Version>)
    requires !Contains(StripBlock(original), START) && versions != []
    requires forall k :: 0 <= k < |versions| ==> Usable(versions[k])
    ensures Applied(original, versions) == Kept(original, |versions|) + Block(versions[|versions| - 1])
    decreases |versions|
  {
    hide START, Contains, StripBlock, Usable, Block, Rewrite;
    var n, last := |versions|, versions[|versions| - 1];
    var front := versions[..n - 1];
    KeptIsClean(original, n - 1);
    RewriteIs(Applied(original, front), last);
    if n == 1 {
      assert Kept(original, 0) == Ended(StripBlock(original));
    } else {
      ApplyAccumulates(original, front);
      ReplacesBlock(Kept(original, n - 1), front[n - 2]);
    }
  }

  /** `Remove` takes the block out again, but not the newlines. */
  lemma RemoveAfterApply(original: string, versions: seq<Version>)
    requires !Contains(StripBlock(original), START) && versions != []
    requires forall k :: 0 <= k < |versions| ==> Usable(versions[k])
    ensures Rewrite(Applied(original, versions), "") == Kept(original, |versions|)
  {
    hide START, Contains, StripBlock, Usable, Block, Kept;
    ApplyAccumulates(original, versions);
    KeptIsClean(original, |versions|);
    ReplacesBlock(Kept(original, |versions|), versions[|versions| - 1]);
  }

  // ---- When user text is lost ----

  lemma NoEndInStart()
    ensures !Contains(START, END)
  {
    MarkerFacts();
    hide START, END;
    forall i ensures !HasAt(START, END, i) {
      CharAt(START, END, i, i);
      CharAt(START, END, i, i + 2);
    }
  }

  /** A marker does not reach across a place where a new `#` begins. */
  lemma NotAcross(a: string, b: string, m: string)
    requires Marker(m) && b != "" && b[0] == '#' && !Contains(a, m) && !Contains(b, m)
    ensures !Contains(a + b, m)
  {
    var s := a + b;
    forall i ensures !HasAt(s, m, i) {
      CharAt(s, m, i, |a|);
      if 0 <= i < |a| { HasAtInFront(s, m, |a|, i); }
      assert s[..|a|] == a && s[|a|..] == b;
      if i >= |a| { HasAtInTail(s, m, |a|, i - |a|); }
    }
  }

  /** Up to its end marker, a block holds none. */
  lemma NoEndInBlock(before: string, x: Version)
    requires Usable(x) && !Contains(before, END)
    ensures !Contains(before + (START + Inside(x.vars, x.stamp)), END)
  {
    MarkerFacts();
    NoEndInStart();
    NoEndInside(x.vars, x.stamp);
    hide START, END, Contains;
    var inside := Inside(x.vars, x.stamp);
    assert inside == "" + (['\n'] + inside[1..]);
    ContainsEither("", '\n', inside[1..], END);
    ContainsEither(START, '\n', inside[1..], END);
    assert START + inside == START + (['\n'] + inside[1..]);
    NotAcross(before, START + inside, END);
  }

  lemma FirstInFront(c: string, b: string, m: string)
    requires Contains(c, m)
    ensures Index(c + b, m) == Index(c, m) >= 0 && Index(c, m) + |m| <= |c|
  {
    var i := Index(c, m);
    assert (c + b)[..|c|] == c;
    HasAtInFront(c + b, m, |c|, i);
    var k := Index(c + b, m);
    if k >= 0 { HasAtInFront(c + b, m, |c|, k); }
  }

  /** An unmatched start marker in front of a block, or in it: everything behind that marker goes. */
  lemma SwallowsAll(a: string, b: string, x: Version)
    requires !Contains(a, START) && !Contains(b, END) && Usable(x)
    ensures StripBlock((a + (START + b)) + Block(x)) == a
  {
    NoEndInBlock(b, x);
    NoStart();
    FreeOfBlocks("");
    BlockShape("", x.vars, x.stamp, "");
    hide *;
    var inside := Inside(x.vars, x.stamp);
    StripExact(a, b + (START + inside), "");
    Gather(a, START, b, inside, END, Block(x));
  }

  lemma Gather(a: string, start: string, b: string, inside: string, end: string, block: string)
    ensures block == start + (inside + (end + "\n")) ==>
              (a + (start + b)) + block == a + (start + ((b + (start + inside)) + (end + ("\n" + ""))))
  {
    assert "\n" + "" == "\n";
  }

  lemma BlockText(x: Version)
    ensures Block(x) == START + (Inside(x.vars, x.stamp) + (END + "\n"))
  {
    hide START, END, Inside;
  }

  function StartOf(c: string): (i: nat)
    requires Contains(c, START)
    ensures i == Index(c, START) && i + |START| <= |c|
  {
    FirstInFront(c, "", START);
    Index(c, START)
  }

  lemma FoundAt(s: string, i: nat, j: nat)
    requires Index(s, START) == i && i + |START| <= |s| && Index(s[i + |START|..], END) == j
    ensures StripOf(s).Some? && StripOf(s).value.0 == i
    ensures var e := i + |START| + j + |END|;
            StripOf(s).value.1 == e || (StripOf(s).value.1 == e + 1 && e < |s| && s[e] == '\n')
  {
    hide START, END, Index, HasAt, Contains;
  }

  /** The block found, within the text. */
  function StripOf(s: string): (r: Option<(nat, nat)>)
    ensures r == FindBlock(s)
    ensures r.Some? ==> r.value.0 < r.value.1 <= |s| && StripBlock(s) == s[..r.value.0] + StripBlock(s[r.value.1..])
  {
    FindBlock(s)
  }

  lemma TailOfSum(c: string, block: string, n: nat)
    requires n <= |c|
    ensures (c + block)[n..] == c[n..] + block && (c + block)[..n] == c[..n]
  {
  }

  lemma FirstChar(x: Version)
    ensures Block(x) != "" && Block(x)[0] == '#'
  {
    MarkerFacts();
    BlockText(x);
    hide START, END, Inside, Block;
  }

  /** The start marker in `c` has its end marker there, too: that block goes and the rest is treated alike. */
  lemma BlockInFront(c: string, x: Version) returns (i: nat, e: nat)
    requires Contains(c, START) && Contains(c[StartOf(c) + |START|..], END)
    ensures i + |START| <= e <= |c|
    ensures StripBlock(c + Block(x)) == c[..i] + StripBlock(c[e..] + Block(x))
  {
    hide *;
    FirstChar(x);
    var block := Block(x);
    FirstInFront(c, block, START);
    i := StartOf(c);
    TailOfSum(c, block, i + |START|);
    FirstInFront(c[i + |START|..], block, END);
    FoundAt(c + block, i, Index(c[i + |START|..], END));
    e := StripOf(c + block).value.1;
    assert (c + block)[|c|] == '#';
    TailOfSum(c, block, i);
    TailOfSum(c, block, e);
  }

  lemma SplitAtFirst(c: string, m: string)
    requires Contains(c, m)
    ensures c == c[..Index(c, m)] + (m + c[Index(c, m) + |m|..])
  {
    var i := Index(c, m);
    assert c[i..i + |m|] == m;
  }

  lemma SwallowsFrom(c: string, a: string, b: string, x: Version)
    requires c == a + (START + b) && !Contains(a, START) && !Contains(b, END) && Usable(x)
    ensures StripBlock(c + Block(x)) == a
  {
    hide *;
    SwallowsAll(a, b, x);
  }

  lemma NoEndBehind(c: string, i: nat, start: string, x: Version)
    requires start == START && start != "" && Contains(c, start) && i == Index(c, start) && i + |start| <= |c|
    requires !Contains(c[i + |start|..], END) && Usable(x)
    ensures StripBlock(c + Block(x)) == c[..i]
  {
    hide *;
    BeforeFirst(c, start);
    SplitAtFirst(c, start);
    SwallowsFrom(c, c[..i], c[i + |start|..], x);
  }

  /** It has none there: the block's own end marker ends it. */
  lemma NoEndInFront(c: string, x: Version) returns (i: nat)
    requires Contains(c, START) && !Contains(c[StartOf(c) + |START|..], END) && Usable(x)
    ensures i + |START| <= |c| && StripBlock(c + Block(x)) == c[..i]
  {
    MarkerFacts();
    assert START != "";
    hide *;
    i := StartOf(c);
    NoEndBehind(c, i, START, x);
  }

  lemma BeforeFirst(c: string, m: string)
    requires Contains(c, m) && m != ""
    ensures !Contains(c[..Index(c, m)], m)
  {
    var n := Index(c, m);
    forall i ensures !HasAt(c[..n], m, i) {
      if i >= 0 { HasAtInFront(c, m, n, i); }
    }
  }

  /** Whatever stands in front of a block, removing blocks leaves no more than that; and less by at least a
      marker if a start marker is in it. */
  lemma {:induction false} StripShortens(c: string, x: Version)
    requires Usable(x)
    ensures |StripBlock(c + Block(x))| <= |c|
    ensures Contains(c, START) ==> |StripBlock(c + Block(x))| + |START| <= |c|
    decreases |c|
  {
    MarkerFacts();
    hide START, END, Contains, StripBlock, Block, Index, Usable;
    if !Contains(c, START) {
      ReplacesBlock(c, x);
    } else if Contains(c[StartOf(c) + |START|..], END) {
      var i, e := BlockInFront(c, x);
      StripShortens(c[e..], x);
    } else {
      var i := NoEndInFront(c, x);
    }
  }

  lemma KeptHasStartIff(original: string)
    ensures Contains(Kept(original, 1), START) <==> Contains(StripBlock(original), START)
  {
    hide START, Contains, StripBlock;
    if !Contains(StripBlock(original), START) {
      KeptIsClean(original, 1);
    } else {
      assert Kept(original, 1) == StripBlock(original) + Kept(original, 1)[|StripBlock(original)|..];
      ContainedInPrefix(StripBlock(original), Kept(original, 1)[|StripBlock(original)|..], START);
    }
  }

  /** After any first application, removing the block gives back what was left of the file if and only if no
      start marker was left in it; otherwise more is lost. */
  lemma LeftoverIsKeptIff(original: string, x: Version)
    requires Usable(x)
    ensures var again := Rewrite(Rewrite(original, Block(x)), "");
            && (again == Kept(original, 1) <==> !Contains(StripBlock(original), START))
            && (Contains(StripBlock(original), START) ==> |again| + |START| <= |Kept(original, 1)|)
  {
    MarkerFacts();
    hide START, Contains, StripBlock, Block, Kept, Usable;
    KeptHasStartIff(original);
    RewriteKept(original, x);
    StripShortens(Kept(original, 1), x);
    if !Contains(StripBlock(original), START) { ReplacesBlock(Kept(original, 1), x); }
  }

  lemma RewriteKept(original: string, x: Version)
    ensures Rewrite(original, Block(x)) == Kept(original, 1) + Block(x)
    ensures |Kept(original, 1)| <= |StripBlock(original)| + 2 && |StripBlock(original)| < |Kept(original, 1)|
  {
    RewriteIs(original, x);
    hide StripBlock, Block, Rewrite;
    assert NewLines(1) == NewLines(0) + "\n" && NewLines(0) == "";
    assert Kept(original, 1) == Ended(StripBlock(original)) + "\n";
  }

  // ---- Exactly when user text is kept ----

  /** Where the block that ends a span begins: at the last start marker in it. */
  function BlockStart(s: string, span: (nat, nat)): (i: nat)
    requires FindBlock(s) == Some(span)
    ensures span.0 <= i <= span.1 <= |s| && HasAt(s[..span.1], START, i)
    ensures forall k :: HasAt(s[..span.1], START, k) ==> k <= i
  {
    SpanHasStart(s, span);
    LastIndex(s[..span.1], START)
  }

  lemma SpanHasStart(s: string, span: (nat, nat))
    requires FindBlock(s) == Some(span)
    ensures HasAt(s, START, span.0) && HasAt(s[..span.1], START, span.0) && span.0 + |START| <= span.1 <= |s|
  {
    hide START, END, HasAt, Contains;
    HasAtInFront(s, START, span.1, span.0);
  }

  /** The user's text: an end marker ends the block that begins at the last start marker in front of it, and
      everything else is the user's, also what stands behind an earlier start marker that has lost its end. */
  function UserText(s: string): string
    decreases |s|
  {
    match FindBlock(s)
    case None => s
    case Some(span) => s[..BlockStart(s, span)] + UserText(s[span.1..])
  }

  /** Some span that is removed holds a second start marker. */
  predicate Nested(s: string)
    decreases |s|
  {
    match FindBlock(s)
    case None => false
    case Some(span) => BlockStart(s, span) != span.0 || Nested(s[span.1..])
  }

  /** Written blocks are recognised as such: around a block whose values hold no marker, the rest is the
      user's. */
  lemma UserTextAround(a: string, x: Version, b: string)
    requires !Contains(a, START) && Usable(x) && Lacks(x.vars, START)
    ensures UserText(a + (Block(x) + b)) == a + UserText(b)
    ensures Nested(a + (Block(x) + b)) == Nested(b)
  {
    hide *;
    FoundAround(a, Block(x), x, b);
    OneStart(a, x);
    AroundOf(a, Block(x), b);
  }

  lemma FoundAround(a: string, block: string, x: Version, b: string)
    requires block == Block(x) && !Contains(a, START) && Usable(x)
    ensures FindBlock(a + (block + b)) == Some((|a|, |a + (block + b)| - |b|))
  {
    hide START, END, Contains, FindBlock, StripBlock, Render, Lacks;
    RemovesExactly(a, x.vars, x.stamp, b);
  }

  lemma OneStart(a: string, x: Version)
    requires !Contains(a, START) && Usable(x) && Lacks(x.vars, START)
    ensures forall i :: HasAt(a + Block(x), START, i) ==> i == |a|
  {
    MarkerFacts();
    BlockText(x);
    InsideWithout(x.vars, x.stamp, START);
    hide *;
    var tail := Inside(x.vars, x.stamp) + (END + "\n");
    TailWithout(Inside(x.vars, x.stamp), 0);
    OnlyBetween(a, START, tail);
  }

  lemma OnlyBetween(a: string, m: string, tail: string)
    requires Marker(m) && !Contains(a, m) && !Contains(tail[0..], m)
    ensures forall i :: HasAt(a + (m + tail), m, i) ==> i == |a|
  {
    assert tail[0..] == tail;
    hide Contains;
    Associate(a, m, tail);
    forall i | HasAt(a + (m + tail), m, i) ensures i == |a| {
      OccurrenceParts(a, m, tail, i);
      NotContained(a, m, i);
      NotContained(tail, m, i - |a| - |m|);
    }
  }

  lemma NotContained(s: string, pat: string, i: int)
    requires !Contains(s, pat)
    ensures !HasAt(s, pat, i)
  {
  }

  lemma AroundOf(a: string, block: string, b: string)
    requires var s := a + (block + b);
             FindBlock(s) == Some((|a|, |s| - |b|))
    requires forall i :: HasAt(a + block, START, i) ==> i == |a|
    ensures UserText(a + (block + b)) == a + UserText(b) && Nested(a + (block + b)) == Nested(b)
  {
    hide START, FindBlock, HasAt;
    var s := a + (block + b);
    var e := |a| + |block|;
    assert s[..e] == a + block && s[..|a|] == a && s[e..] == b;
    assert BlockStart(s, (|a|, e)) == |a|;
  }

  lemma StartsApart(s: string, m: string, i: int, k: int)
    requires LeadOnly(m) && HasAt(s, m, i) && HasAt(s, m, k) && i < k
    ensures i + |m| <= k
  {
    CharAt(s, m, i, k);
    CharAt(s, m, k, k);
  }

  /** Without nesting, removing blocks leaves the user's text; with it, it leaves less. */
  lemma {:induction false} LeftoverIsUserTextIff(s: string)
    ensures !Nested(s) ==> UserText(s) == StripBlock(s)
    ensures Nested(s) ==> |StripBlock(s)| + |START| <= |UserText(s)|
    decreases |s|
  {
    MarkerFacts();
    hide START, FindBlock, HasAt, StripBlock;
    match FindBlock(s)
    case None => NoneLeft(s);
    case Some(span) =>
      LeftoverIsUserTextIff(s[span.1..]);
      StripOnce(s);
      SpanHasStart(s, span);
      var i := BlockStart(s, span);
      if i != span.0 { StartsApart(s[..span.1], START, span.0, i); }
  }

  lemma NoneLeft(s: string)
    requires FindBlock(s) == None
    ensures StripBlock(s) == s
  {
    hide FindBlock;
  }

  /** What one application keeps: the user's text stands in front of the block if and only if nothing is
      nested. */
  lemma FirstApplyKeepsIff(original: string, x: Version)
    ensures Rewrite(original, Block(x)) == (Ended(UserText(original)) + "\n") + Block(x) <==> !Nested(original)
  {
    MarkerFacts();
    assert |START| > 3;
    hide START, StripBlock, Block, UserText, Nested, Rewrite;
    LeftoverIsUserTextIff(original);
    RewriteIs(original, x);
    SameFront(Ended(StripBlock(original)) + "\n", Ended(UserText(original)) + "\n", Block(x));
  }

  lemma SameFront(a: string, b: string, tail: string)
    ensures a + tail == b + tail <==> a == b
  {
    assert (a + tail)[..|a|] == a && (b + tail)[..|b|] == b;
    assert |a + tail| == |a| + |tail| && |b + tail| == |b| + |tail|;
  }

  /** The exact condition for keeping the user's text, for every file: an application followed by a removal
      gives it back if and only if no removed span holds a second start marker and no start marker is left. */
  lemma TextIsKeptIff(original: string, x: Version)
    requires Usable(x)
    ensures Rewrite(Rewrite(original, Block(x)), "") == Ended(UserText(original)) + "\n" <==>
            !Nested(original) && !Contains(StripBlock(original), START)
  {
    MarkerFacts();
    assert |START| > 3;
    hide START, StripBlock, Block, UserText, Nested, Rewrite, Contains, Kept;
    LeftoverIsUserTextIff(original);
    LeftoverIsKeptIff(original, x);
    RewriteKept(original, x);
    KeptOnce(original);
    RemovalShortens(original, x);
  }

  lemma KeptOnce(original: string)
    ensures Kept(original, 1) == Ended(StripBlock(original)) + "\n"
  {
    hide StripBlock;
    assert NewLines(1) == NewLines(0) + "\n" && NewLines(0) == "";
  }

  lemma RemovalShortens(original: string, x: Version)
    requires Usable(x)
    ensures |Rewrite(Rewrite(original, Block(x)), "")| <= |Kept(original, 1)|
  {
    RewriteKept(original, x);
    hide StripBlock, Block, Kept, Usable;
    StripShortens(Kept(original, 1), x);
  }

  /** And for any number of applications: the user's text, one newline for each, and the last block. */
  lemma UserTextAccumulates(original: string, versions: seq<Version>)
    requires !Nested(original) && !Contains(StripBlock(original), START) && versions != []
    requires forall k :: 0 <= k < |versions| ==> Usable(versions[k])
    ensures Applied(original, versions) ==
            (Ended(UserText(original)) + NewLines(|versions|)) + Block(versions[|versions| - 1])
  {
    hide START, StripBlock, Block, UserText, Nested, Contains, Usable, Applied;
    LeftoverIsUserTextIff(original);
    ApplyAccumulates(original, versions);
  }

  /** For instance: a hand-edited file in which a start marker has lost its end marker.  The second
      application deletes everything behind that marker. */
  lemma UnmatchedStartLosesText(a: string, b: string, x: Version, y: Version)
    requires !Contains(a, START) && !Contains(b, END) && Usable(x)
    ensures Rewrite(Rewrite(a + (START + b), Block(x)), Block(y)) == (Ended(a) + "\n") + Block(y)
  {
    var s := a + (START + b);
    NothingMatches(a, b);
    RewriteIs(s, x);
    EndedBehind(a, START, b);
    MarkerFacts();
    assert START[|START| - 1] != '\n';
    hide START, END, Contains, StripBlock, Block, Rewrite, Usable, Marker;
    var b1 := Ended(s)[|a| + |START|..] + "\n";
    assert Ended(s) + "\n" == a + (START + b1);
    EndedWithout(b, b1);
    SwallowsAll(a, b1, x);
    RewriteIs((a + (START + b1)) + Block(x), y);
  }

  /** With a written block behind it already, one application is enough. */
  lemma LostEndLosesText(a: string, b: string, x: Version, y: Version)
    requires !Contains(a, START) && !Contains(b, END) && Usable(x)
    ensures Rewrite((a + (START + b)) + Block(x), Block(y)) == (Ended(a) + "\n") + Block(y)
  {
    hide START, END, Contains, StripBlock, Block, Rewrite, Usable;
    SwallowsAll(a, b, x);
    RewriteIs((a + (START + b)) + Block(x), y);
  }

  lemma NothingMatches(a: string, b: string)
    requires !Contains(a, START) && !Contains(b, END)
    ensures StripBlock(a + (START + b)) == a + (START + b)
  {
    MarkerFacts();
    FirstMarker(a, START, b);
    hide START, END, Contains, Marker;
  }

  lemma EndedBehind(a: string, m: string, b: string)
    requires m != "" && m[|m| - 1] != '\n'
    ensures var s := Ended(a + (m + b));
            s == a + (m + b) || s == a + (m + (b + "\n"))
  {
  }

  lemma EndedWithout(b: string, b1: string)
    requires !Contains(b, END) && (b1 == b + "\n" || b1 == (b + "\n") + "\n")
    ensures !Contains(b1, END)
  {
    MarkerFacts();
    NoStart();
    hide START, END, Contains;
    ContainsEither(b, '\n', "", END);
    assert b + (['\n'] + "") == b + "\n" && (b + "\n") + (['\n'] + "") == (b + "\n") + "\n";
    ContainsEither(b + "\n", '\n', "", END);
  }

  /** `Apply` never finds its work done: whatever the file holds, it always changes it. */
  lemma AlwaysRewrites(original: string, x: Version)
    requires Usable(x)
    ensures Rewrite(original, Block(x)) != original
  {
    MarkerFacts();
    hide START, Contains, StripBlock, Block, Kept, Rewrite, Usable;
    var kept := Kept(original, 1);
    RewriteKept(original, x);
    StripShortens(kept, x);
    if !Contains(kept, START) { ReplacesBlock(kept, x); }
  }

  /** The user may write below the block, too, even other blocks: the next `Apply` moves the block to the end
      and keeps what is left of the rest in order. */
  lemma TextBelowIsKept(above: string, x: Version, below: string, y: Version)
    requires !Contains(above, START) && Usable(x)
    ensures Rewrite(above + (Block(x) + below), Block(y)) == (Ended(above + StripBlock(below)) + "\n") + Block(y)
    ensures !Contains(below, START) ==> StripBlock(below) == below
  {
    if !Contains(below, START) { FreeOfBlocks(below); }
    RemovesExactly(above, x.vars, x.stamp, below);
    hide START, Contains, StripBlock, Render, Rewrite, Ended, FindBlock;
    RewriteIs(above + (Block(x) + below), y);
  }

  // ---- All files ----

  function ApplyAll(files: Files, versions: seq<Version>, io: Access): Files {
    if versions == [] then files
    else After(ApplyAll(files, versions[..|versions| - 1], io), CANDIDATES, Block(versions[|versions| - 1]), io)
  }

  /** Each rc file that exists and can be replaced goes through every version; every other file stays. */
  lemma {:induction false} EachFileOnItsOwn(files: Files, versions: seq<Version>, io: Access)
    ensures ApplyAll(files, versions, io).Keys == files.Keys
    ensures forall p :: p in files ==>
              ApplyAll(files, versions, io)[p] ==
              if p in CANDIDATES && p in io.readable && p in io.writable then Applied(files[p], versions) else files[p]
    decreases |versions|
  {
    hide CANDIDATES, Rewrite, Block;
    if versions != [] { EachFileOnItsOwn(files, versions[..|versions| - 1], io); }
  }

  // ---- What a shell makes of a block ----

  lemma CommentLine(comment: string, rest: string)
    requires comment != "" && comment[0] == '#' && '\n' !in comment
    ensures Source(comment + ("\n" + rest)) == Source(rest)
  {
    var s := comment + ("\n" + rest);
    assert s == comment + ['\n'] + rest;
    IndexByteExact(comment, '\n', rest);
  }

  lemma RenderLines(x: Version)
    ensures Block(x) == START + ("\n" + ((GENERATED + x.stamp) + ("\n" + Lines(Assignments(x.vars), END + "\n"))))
  {
    LinesThen(Assignments(x.vars), END + "\n");
    hide START, END, GENERATED, Assignments, Lines;
  }

  lemma GeneratedFacts()
    ensures |GENERATED| == 13 && GENERATED[0] == '#' && GENERATED[2] == 'g'
    ensures forall k :: 0 <= k < 13 ==> GENERATED[k] != '\n' && GENERATED[k] != '\'' && GENERATED[k] != '\\'
  {
  }

  /** Sourcing a block performs exactly its assignments, whatever characters the values hold. */
  lemma BlockSetsExactly(x: Version)
    requires Stamp(x.stamp)
    ensures Source(Block(x)) == Some(Assignments(x.vars))
  {
    MarkerFacts();
    GeneratedFacts();
    NamesAreNames(x.vars);
    RenderLines(x);
    Sources(Assignments(x.vars), END + "\n");
    hide START, END, GENERATED, Assignments, Lines, Source, Block;
    CommentLine(START, (GENERATED + x.stamp) + ("\n" + Lines(Assignments(x.vars), END + "\n")));
    CommentLine(GENERATED + x.stamp, Lines(Assignments(x.vars), END + "\n"));
    EndsQuietly();
    assert Assignments(x.vars) + [] == Assignments(x.vars);
  }

  lemma EndsQuietly()
    ensures Source(END + "\n") == Some([])
  {
    MarkerFacts();
    hide END;
    CommentLine(END, "");
    assert "\n" + "" == "\n";
  }

  /** The value of a variable after the assignments: the last one counts. */
  function Lookup(vars: seq<Assignment>, name: string): string {
    if vars == [] then ""
    else if vars[|vars| - 1].0 == name then vars[|vars| - 1].1
    else Lookup(vars[..|vars| - 1], name)
  }

  lemma LookupGiven(vars: seq<Assignment>, n: string, v: string, name: string)
    ensures Lookup(vars + Given(n, v), name) == if n == name && v != "" then v else Lookup(vars, name)
  {
    if v == "" {
      assert vars + Given(n, v) == vars;
    } else {
      assert (vars + Given(n, v))[..|vars|] == vars;
    }
  }

  lemma NamesDiffer()
    ensures HTTPS_PROXY != HTTPS_PROXY_LOWER && HTTP_PROXY != HTTP_PROXY_LOWER
    ensures |HTTPS_PROXY| == 11 && |HTTPS_PROXY_LOWER| == 11 && |HTTP_PROXY| == 10 && |HTTP_PROXY_LOWER| == 10
    ensures |NODE_EXTRA_CA_CERTS| == 19 && |REQUESTS_CA_BUNDLE| == 18 && |SSL_CERT_FILE| == 13
  {
    assert HTTPS_PROXY[0] != HTTPS_PROXY_LOWER[0] && HTTP_PROXY[0] != HTTP_PROXY_LOWER[0];
  }

  lemma LookupAny(v: Vars, name: string)
    ensures Lookup(Assignments(v), name) ==
            if name == SSL_CERT_FILE && v.sslCertFile != "" then v.sslCertFile
            else if name == REQUESTS_CA_BUNDLE && v.requestsCABundle != "" then v.requestsCABundle
            else if name == NODE_EXTRA_CA_CERTS && v.nodeExtraCACerts != "" then v.nodeExtraCACerts
            else if name == HTTP_PROXY_LOWER && v.httpProxy != "" then v.httpProxy
            else if name == HTTP_PROXY && v.httpProxy != "" then v.httpProxy
            else if name == HTTPS_PROXY_LOWER && v.httpsProxy != "" then v.httpsProxy
            else if name == HTTPS_PROXY && v.httpsProxy != "" then v.httpsProxy
            else ""
  {
    hide HTTPS_PROXY, HTTPS_PROXY_LOWER, HTTP_PROXY, HTTP_PROXY_LOWER, NODE_EXTRA_CA_CERTS, REQUESTS_CA_BUNDLE, SSL_CERT_FILE;
    hide Given, Lookup;
    var a1 := [] + Given(HTTPS_PROXY, v.httpsProxy);
    LookupGiven([], HTTPS_PROXY, v.httpsProxy, name);
    var a2 := a1 + Given(HTTPS_PROXY_LOWER, v.httpsProxy);
    LookupGiven(a1, HTTPS_PROXY_LOWER, v.httpsProxy, name);
    var a3 := a2 + Given(HTTP_PROXY, v.httpProxy);
    LookupGiven(a2, HTTP_PROXY, v.httpProxy, name);
    var a4 := a3 + Given(HTTP_PROXY_LOWER, v.httpProxy);
    LookupGiven(a3, HTTP_PROXY_LOWER, v.httpProxy, name);
    var a5 := a4 + Given(NODE_EXTRA_CA_CERTS, v.nodeExtraCACerts);
    LookupGiven(a4, NODE_EXTRA_CA_CERTS, v.nodeExtraCACerts, name);
    var a6 := a5 + Given(REQUESTS_CA_BUNDLE, v.requestsCABundle);
    LookupGiven(a5, REQUESTS_CA_BUNDLE, v.requestsCABundle, name);
    LookupGiven(a6, SSL_CERT_FILE, v.sslCertFile, name);
    assert a1 == Given(HTTPS_PROXY, v.httpsProxy);
    LookupNothing(name);
  }

  lemma LookupNothing(name: string)
    ensures Lookup([], name) == ""
  {
  }

  /** Every variable of the agent ends up under its upper-case name, the proxies under the lower-case one
      too. */
  lemma Environment(v: Vars)
    ensures var env := Assignments(v);
            && Lookup(env, "HTTPS_PROXY") == v.httpsProxy && Lookup(env, "https_proxy") == v.httpsProxy
            && Lookup(env, "HTTP_PROXY") == v.httpProxy && Lookup(env, "http_proxy") == v.httpProxy
            && Lookup(env, "NODE_EXTRA_CA_CERTS") == v.nodeExtraCACerts
            && Lookup(env, "REQUESTS_CA_BUNDLE") == v.requestsCABundle && Lookup(env, "SSL_CERT_FILE") == v.sslCertFile
  {
    NamesAre();
    hide HTTPS_PROXY, HTTPS_PROXY_LOWER, HTTP_PROXY, HTTP_PROXY_LOWER, NODE_EXTRA_CA_CERTS, REQUESTS_CA_BUNDLE, SSL_CERT_FILE;
    hide Assignments, Lookup;
    ByName(v);
  }

  lemma NamesAre()
    ensures HTTPS_PROXY == "HTTPS_PROXY" && HTTPS_PROXY_LOWER == "https_proxy"
    ensures HTTP_PROXY == "HTTP_PROXY" && HTTP_PROXY_LOWER == "http_proxy"
    ensures NODE_EXTRA_CA_CERTS == "NODE_EXTRA_CA_CERTS" && REQUESTS_CA_BUNDLE == "REQUESTS_CA_BUNDLE"
    ensures SSL_CERT_FILE == "SSL_CERT_FILE"
  {
  }

  lemma ByName(v: Vars)
    ensures var env := Assignments(v);
            && Lookup(env, HTTPS_PROXY) == v.httpsProxy && Lookup(env, HTTPS_PROXY_LOWER) == v.httpsProxy
            && Lookup(env, HTTP_PROXY) == v.httpProxy && Lookup(env, HTTP_PROXY_LOWER) == v.httpProxy
            && Lookup(env, NODE_EXTRA_CA_CERTS) == v.nodeExtraCACerts
            && Lookup(env, REQUESTS_CA_BUNDLE) == v.requestsCABundle && Lookup(env, SSL_CERT_FILE) == v.sslCertFile
  {
    NamesDiffer();
    hide HTTPS_PROXY, HTTPS_PROXY_LOWER, HTTP_PROXY, HTTP_PROXY_LOWER, NODE_EXTRA_CA_CERTS, REQUESTS_CA_BUNDLE, SSL_CERT_FILE;
    hide Assignments, Lookup;
    LookupAny(v, HTTPS_PROXY);
    LookupAny(v, HTTPS_PROXY_LOWER);
    LookupAny(v, HTTP_PROXY);
    LookupAny(v, HTTP_PROXY_LOWER);
    LookupAny(v, NODE_EXTRA_CA_CERTS);
    LookupAny(v, REQUESTS_CA_BUNDLE);
    LookupAny(v, SSL_CERT_FILE);
  }
}
