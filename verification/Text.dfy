/** Byte strings, searched and trimmed as Go's `strings` package does it, and numbers as `fmt`
    prints them and `strconv` reads them.  A `char` stands for one byte. */
module Text {

  datatype Option<+T> = None | Some(value: T)

  lemma Associate<T>(a: seq<T>, b: seq<T>, c: seq<T>)
    ensures a + (b + c) == a + b + c
  {
  }

  lemma UpdateParts<T>(s: seq<T>, i: nat, x: T)
    requires i < |s|
    ensures s[i := x] == s[..i] + [x] + s[i + 1..] && s == s[..i] + [s[i]] + s[i + 1..]
  {
  }

  // ---- Searching ----

  predicate HasAt(s: string, pat: string, i: int) {
    0 <= i && i + |pat| <= |s| && s[i..i + |pat|] == pat
  }

  ghost predicate Contains(s: string, pat: string) {
    exists i :: HasAt(s, pat, i)
  }

  /** `strings.Index`: the first occurrence, or -1. */
  function Index(s: string, pat: string): (r: int)
    ensures r == -1 <==> !Contains(s, pat)
    ensures r != -1 ==> HasAt(s, pat, r) && forall i :: HasAt(s, pat, i) ==> r <= i
  {
    IndexFrom(s, pat, 0)
  }

  function IndexFrom(s: string, pat: string, from: nat): (r: int)
    ensures r == -1 <==> forall i :: HasAt(s, pat, i) ==> i < from
    ensures r != -1 ==> from <= r && HasAt(s, pat, r) && forall i :: HasAt(s, pat, i) && from <= i ==> r <= i
    decreases |s| - from
  {
    if HasAt(s, pat, from) then from
    else if from + |pat| >= |s| then -1
    else IndexFrom(s, pat, from + 1)
  }

  /** `strings.LastIndex`: the last occurrence, or -1. */
  function LastIndex(s: string, pat: string): (r: int)
    ensures r == -1 <==> !Contains(s, pat)
    ensures r != -1 ==> HasAt(s, pat, r) && forall i :: HasAt(s, pat, i) ==> i <= r
  {
    LastIndexUpTo(s, pat, |s|)
  }

  function LastIndexUpTo(s: string, pat: string, upTo: nat): (r: int)
    ensures r == -1 <==> forall i :: HasAt(s, pat, i) ==> upTo < i
    ensures r != -1 ==> r <= upTo && HasAt(s, pat, r) && forall i :: HasAt(s, pat, i) && i <= upTo ==> i <= r
  {
    if HasAt(s, pat, upTo) then upTo
    else if upTo == 0 then -1
    else LastIndexUpTo(s, pat, upTo - 1)
  }

  /** The first character of `pat` occurs nowhere else in it, so `pat` cannot overlap itself. */
  ghost predicate LeadOnly(pat: string) {
    |pat| > 0 && forall k :: 1 <= k < |pat| ==> pat[k] != pat[0]
  }

  lemma CharAt(s: string, pat: string, i: int, p: int)
    ensures HasAt(s, pat, i) && i <= p < i + |pat| ==> s[p] == pat[p - i]
  {
    if HasAt(s, pat, i) && i <= p < i + |pat| {
      assert s[i..i + |pat|][p - i] == s[p];
    }
  }

  lemma OccurrenceParts(a: string, pat: string, b: string, i: int)
    requires LeadOnly(pat) && HasAt(a + pat + b, pat, i)
    ensures HasAt(a, pat, i) || i == |a| || (i >= |a| + |pat| && HasAt(b, pat, i - |a| - |pat|))
  {
    var t := a + pat + b;
    assert t[|a|] == pat[0];
    CharAt(t, pat, i, |a|);
    CharAt(t, pat, i, i);
    if i + |pat| <= |a| {
      assert t[i..i + |pat|] == a[i..i + |pat|];
    } else if |a| + |pat| <= i {
      var j := i - |a| - |pat|;
      assert t[i..i + |pat|] == b[j..j + |pat|];
    }
  }

  /** Text free of `pat` in front of `pat` does not move its first occurrence. */
  lemma FirstAfterPrefix(a: string, pat: string, b: string)
    requires LeadOnly(pat) && !Contains(a, pat)
    ensures Index(a + pat + b, pat) == |a|
  {
    var t := a + pat + b;
    assert t[|a|..|a| + |pat|] == pat;
    assert HasAt(t, pat, |a|);
    forall i | HasAt(t, pat, i) ensures |a| <= i {
      OccurrenceParts(a, pat, b, i);
    }
  }

  /** A separator that `pat` does not use keeps every occurrence on one of its sides. */
  lemma OccurrenceAroundSeparator(a: string, c: char, b: string, pat: string, i: int)
    requires c !in pat && |pat| > 0 && HasAt(a + [c] + b, pat, i)
    ensures HasAt(a, pat, i) || HasAt(b, pat, i - |a| - 1)
  {
    var t := a + [c] + b;
    CharAt(t, pat, i, |a|);
    if i + |pat| <= |a| {
      assert t[i..i + |pat|] == a[i..i + |pat|];
    } else if |a| < i {
      assert t[i..i + |pat|] == b[i - |a| - 1..i - |a| - 1 + |pat|];
    }
  }

  lemma HasAtInTail(s: string, pat: string, start: nat, i: nat)
    requires start <= |s|
    ensures HasAt(s[start..], pat, i) <==> HasAt(s, pat, start + i)
  {
    if i + |pat| <= |s| - start {
      assert s[start..][i..i + |pat|] == s[start + i..start + i + |pat|];
    }
  }

  lemma HasAtInFront(s: string, pat: string, end: nat, i: nat)
    requires end <= |s|
    ensures HasAt(s[..end], pat, i) <==> HasAt(s, pat, i) && i + |pat| <= end
  {
    if i + |pat| <= end {
      assert s[..end][i..i + |pat|] == s[i..i + |pat|];
    }
  }

  lemma HasAtFront(s: string, pat: string, i: nat, k: nat)
    requires HasAt(s, pat, i) && k <= |pat|
    ensures HasAt(s, pat[..k], i) && HasAt(s, pat[k..], i + k)
  {
    assert s[i..i + k] == pat[..k];
    assert s[i + k..i + |pat|] == pat[k..];
  }

  lemma ContainedInPrefix(a: string, b: string, pat: string)
    requires Contains(a, pat)
    ensures Contains(a + b, pat)
  {
    var i :| HasAt(a, pat, i);
    assert (a + b)[i..i + |pat|] == a[i..i + |pat|];
    assert HasAt(a + b, pat, i);
  }

  lemma MissingCharMissingPattern(s: string, pat: string, k: nat)
    requires k < |pat| && pat[k] !in s
    ensures !Contains(s, pat)
  {
    forall i ensures !HasAt(s, pat, i) {
      CharAt(s, pat, i, i + k);
    }
  }

  /** `strings.IndexByte`, and `strings.Index` of a single byte. */
  function IndexByte(s: string, c: char): (r: int)
    ensures r == -1 <==> c !in s
    ensures r != -1 ==> 0 <= r < |s| && s[r] == c && forall k :: 0 <= k < r ==> s[k] != c
  {
    IndexByteFrom(s, c, 0)
  }

  function IndexByteFrom(s: string, c: char, from: nat): (r: int)
    requires from <= |s|
    ensures r == -1 <==> forall k :: from <= k < |s| ==> s[k] != c
    ensures r != -1 ==> from <= r < |s| && s[r] == c && forall k :: from <= k < r ==> s[k] != c
    decreases |s| - from
  {
    if from == |s| then -1 else if s[from] == c then from else IndexByteFrom(s, c, from + 1)
  }

  lemma IndexByteExact(a: string, c: char, b: string)
    requires c !in a
    ensures IndexByte(a + [c] + b, c) == |a|
    ensures (a + [c] + b)[..|a|] == a && (a + [c] + b)[|a| + 1..] == b
  {
    assert (a + [c] + b)[|a|] == c;
    assert forall k :: 0 <= k < |a| ==> (a + [c] + b)[k] == a[k];
  }

  /** A text that holds `c`, taken apart at its first place. */
  lemma SplitAtByte(s: string, c: char)
    requires c in s
    ensures var i := IndexByte(s, c);
            0 <= i < |s| && c !in s[..i] && s == s[..i] + ([c] + s[i + 1..])
  {
  }

  // ---- Lines ----

  datatype LineRead = GotLine(line: string, rest: string) | NoLine

  /** `bufio.Reader.ReadString('\n')` on the bytes still to come; the line keeps its newline. */
  function ReadLine(s: string): (r: LineRead)
    ensures r.GotLine? ==> s == r.line + r.rest && IsLine(r.line)
    ensures r.NoLine? <==> '\n' !in s
  {
    var i := IndexByte(s, '\n');
    if i == -1 then NoLine else GotLine(s[..i + 1], s[i + 1..])
  }

  predicate IsLine(line: string) {
    |line| > 0 && line[|line| - 1] == '\n' && forall k :: 0 <= k < |line| - 1 ==> line[k] != '\n'
  }

  lemma ReadLineExact(line: string, rest: string)
    requires IsLine(line)
    ensures ReadLine(line + rest) == GotLine(line, rest)
  {
    var s, last := line + rest, |line| - 1;
    assert s[last] == '\n';
    assert forall k :: 0 <= k < last ==> s[k] == line[k];
    assert s[..|line|] == line && s[|line|..] == rest;
  }

  lemma TextLine(text: string)
    requires '\n' !in text
    ensures IsLine(text + "\n") && IsLine(text + "\r\n")
  {
    assert text + "\r\n" == text + "\r" + "\n";
  }

  /** Reading a line whose content is thrown away; at the end of input there is nothing left. */
  function SkipLine(s: string): (rest: string)
    ensures match ReadLine(s) case GotLine(_, r) => rest == r case NoLine => rest == ""
    ensures |rest| <= |s|
  {
    match ReadLine(s)
    case NoLine => ""
    case GotLine(line, rest) => rest
  }

  // ---- Trimming and letter case ----

  predicate IsSpace(c: char) {
    c == ' ' || c == '\t' || c == '\n' || c == '\r' || c == '\U{0B}' || c == '\U{0C}'
  }

  predicate AllSpace(s: string) {
    forall k :: 0 <= k < |s| ==> IsSpace(s[k])
  }

  /** No white space at either end. */
  predicate Tight(s: string) {
    |s| > 0 ==> !IsSpace(s[0]) && !IsSpace(s[|s| - 1])
  }

  function StartOfText(s: string, from: nat): (r: nat)
    requires from <= |s|
    ensures from <= r <= |s| && forall k :: from <= k < r ==> IsSpace(s[k])
    ensures r < |s| ==> !IsSpace(s[r])
    decreases |s| - from
  {
    if from < |s| && IsSpace(s[from]) then StartOfText(s, from + 1) else from
  }

  function EndOfText(s: string, from: nat, upTo: nat): (r: nat)
    requires from <= upTo <= |s|
    ensures from <= r <= upTo && forall k :: r <= k < upTo ==> IsSpace(s[k])
    ensures from < r ==> !IsSpace(s[r - 1])
    decreases upTo
  {
    if from < upTo && IsSpace(s[upTo - 1]) then EndOfText(s, from, upTo - 1) else upTo
  }

  /** `strings.TrimSpace` on ASCII white space. */
  function TrimSpace(s: string): (r: string)
    ensures Tight(r) && |r| <= |s|
  {
    var i := StartOfText(s, 0);
    s[i..EndOfText(s, i, |s|)]
  }

  /** Exactly the white space at the two ends goes. */
  lemma TrimExact(pre: string, m: string, post: string)
    requires AllSpace(pre) && AllSpace(post) && Tight(m)
    ensures TrimSpace(pre + m + post) == m
  {
    var s := pre + m + post;
    var i := StartOfText(s, 0);
    var j := EndOfText(s, i, |s|);
    assert forall k :: 0 <= k < |pre| ==> s[k] == pre[k];
    assert forall k :: |pre| + |m| <= k < |s| ==> s[k] == post[k - |pre| - |m|];
    if m != "" {
      assert s[|pre|] == m[0] && s[|pre| + |m| - 1] == m[|m| - 1];
      assert i == |pre| && j == |pre| + |m|;
    }
    assert s[|pre|..|pre| + |m|] == m;
  }

  lemma TrimTight(m: string)
    requires Tight(m)
    ensures TrimSpace(m) == m
  {
    TrimExact("", m, "");
    assert "" + m + "" == m;
  }

  function LowerChar(c: char): char {
    if 'A' <= c <= 'Z' then c - 'A' + 'a' else c
  }

  /** `strings.ToLower` on ASCII text. */
  function ToLower(s: string): (r: string)
    ensures |r| == |s| && forall k :: 0 <= k < |s| ==> r[k] == LowerChar(s[k])
  {
    seq(|s|, i requires 0 <= i < |s| => LowerChar(s[i]))
  }

  predicate AllLower(s: string) {
    forall k :: 0 <= k < |s| ==> LowerChar(s[k]) == s[k]
  }

  predicate IsAscii(s: string) {
    forall k :: 0 <= k < |s| ==> s[k] as int < 128
  }

  // ---- Numbers ----

  const MAX_UINT64 := 0xFFFF_FFFF_FFFF_FFFF
  const MAX_INT64 := 0x7FFF_FFFF_FFFF_FFFF

  predicate Base(base: int) {
    base == 10 || base == 16
  }

  function DigitOf(c: char): (d: int)
    ensures -1 <= d < 16
  {
    if '0' <= c <= '9' then c as int - '0' as int
    else if 'a' <= c <= 'f' then c as int - 'a' as int + 10
    else if 'A' <= c <= 'F' then c as int - 'A' as int + 10
    else -1
  }

  predicate IsDigit(c: char, base: int) {
    0 <= DigitOf(c) < base
  }

  predicate AllDigits(s: string, base: int) {
    forall k :: 0 <= k < |s| ==> IsDigit(s[k], base)
  }

  function DigitChar(d: nat): (c: char)
    requires d < 16
    ensures DigitOf(c) == d && LowerChar(c) == c
  {
    if d < 10 then '0' + d as char else 'a' + (d - 10) as char
  }

  /** Linear in `v`, so that nothing below multiplies or divides by a variable. */
  function Shift(v: nat, base: int): nat
    requires Base(base)
  {
    if base == 10 then 10 * v else 16 * v
  }

  function Unshift(v: nat, base: int): (r: nat)
    requires Base(base)
    ensures v == Shift(r, base) + LastDigit(v, base)
  {
    if base == 10 then v / 10 else v / 16
  }

  function LastDigit(v: nat, base: int): (d: nat)
    requires Base(base)
    ensures d < base
  {
    if base == 10 then v % 10 else v % 16
  }

  /** `%d` and `%x` of a non-negative number, and `big.Int.Text`. */
  function Digits(n: nat, base: int): (s: string)
    requires Base(base)
    ensures |s| > 0 && AllDigits(s, base) && AllLower(s)
    ensures s[0] == '0' ==> n == 0 && s == "0"
    decreases n
  {
    if n < base then [DigitChar(n)]
    else Digits(Unshift(n, base), base) + [DigitChar(LastDigit(n, base))]
  }

  /** The number the first `n` digits denote, most significant digit first. */
  function ValueTo(s: string, n: nat, base: int): nat
    requires Base(base) && AllDigits(s, base) && n <= |s|
  {
    if n == 0 then 0
    else
      assert IsDigit(s[n - 1], base);
      Shift(ValueTo(s, n - 1, base), base) + DigitOf(s[n - 1])
  }

  function Value(s: string, base: int): nat
    requires Base(base) && AllDigits(s, base)
  {
    ValueTo(s, |s|, base)
  }

  lemma {:induction false} ValueOfPrefix(s: string, t: string, n: nat, base: int)
    requires Base(base) && AllDigits(s, base) && AllDigits(t, base) && n <= |s| && n <= |t|
    requires forall k :: 0 <= k < n ==> s[k] == t[k]
    ensures ValueTo(s, n, base) == ValueTo(t, n, base)
  {
    if n > 0 { ValueOfPrefix(s, t, n - 1, base); }
  }

  lemma ValueOfAppend(front: string, c: char, base: int)
    requires Base(base) && AllDigits(front, base) && IsDigit(c, base)
    ensures AllDigits(front + [c], base)
    ensures Value(front + [c], base) == Shift(Value(front, base), base) + DigitOf(c)
  {
    var s := front + [c];
    assert forall k :: 0 <= k < |front| ==> s[k] == front[k];
    ValueOfPrefix(s, front, |front|, base);
  }

  lemma {:induction false} ValueOfDigits(n: nat, base: int)
    requires Base(base)
    ensures Value(Digits(n, base), base) == n
    decreases n
  {
    if n >= base {
      ValueOfDigits(Unshift(n, base), base);
      ValueOfAppend(Digits(Unshift(n, base), base), DigitChar(LastDigit(n, base)), base);
    } else {
      OneDigit(DigitChar(n), base);
    }
  }

  function Limit(k: nat, base: int): nat
    requires Base(base)
  {
    if k == 0 then 1 else Shift(Limit(k - 1, base), base)
  }

  lemma {:induction false} DigitsAreShort(n: nat, k: nat, base: int)
    requires Base(base) && 0 < k && n < Limit(k, base)
    ensures |Digits(n, base)| <= k
  {
    if n >= base {
      assert Limit(0, base) == 1;
      DigitsAreShort(Unshift(n, base), k - 1, base);
    }
  }

  lemma OneDigit(c: char, base: int)
    requires Base(base) && IsDigit(c, base)
    ensures AllDigits([c], base) && Value([c], base) == DigitOf(c)
  {
    assert ValueTo([c], 0, base) == 0;
  }

  lemma DigitsStep(v: nat, base: int, d: nat)
    requires Base(base) && d < base && 0 < v
    ensures Digits(Shift(v, base) + d, base) == Digits(v, base) + [DigitChar(d)]
  {
    var n := Shift(v, base) + d;
    assert n >= base && Unshift(n, base) == v && LastDigit(n, base) == d;
    hide Shift, Unshift, LastDigit, DigitChar;
  }

  lemma {:induction false} ValueIsPositive(s: string, n: nat, base: int)
    requires Base(base) && AllDigits(s, base) && 0 < n <= |s| && s[0] != '0'
    ensures ValueTo(s, n, base) > 0
  {
    assert IsDigit(s[0], base);
    if n > 1 { ValueIsPositive(s, n - 1, base); }
  }

  lemma LowerDigit(c: char, base: int)
    requires Base(base) && IsDigit(c, base) && LowerChar(c) == c
    ensures DigitChar(DigitOf(c)) == c
  {
  }

  /** Lower-case digits without a leading zero are exactly what printing their value gives. */
  lemma {:induction false} DigitsOfValue(s: string, base: int)
    requires Base(base) && AllDigits(s, base) && AllLower(s)
    requires |s| > 0 && (s[0] == '0' ==> |s| == 1)
    ensures Digits(Value(s, base), base) == s
  {
    var front, c := s[..|s| - 1], s[|s| - 1];
    assert IsDigit(c, base) && LowerChar(c) == c;
    LowerDigit(c, base);
    assert s == front + [c];
    if |s| == 1 {
      OneDigit(c, base);
    } else {
      assert s[0] == front[0];
      DigitsOfValue(front, base);
      ValueIsPositive(front, |front|, base);
      ValueOfAppend(front, c, base);
      hide Digits, Value, AllDigits, AllLower;
      DigitsStep(Value(front, base), base, DigitOf(c));
    }
  }

  lemma {:induction false} ValueGrows(s: string, m: nat, n: nat, base: int)
    requires Base(base) && AllDigits(s, base) && m <= n <= |s|
    ensures ValueTo(s, m, base) <= ValueTo(s, n, base)
  {
    if m < n { ValueGrows(s, m, n - 1, base); }
  }

  datatype Number = Num(value: int) | NotANumber | OutOfRange(limit: int)

  /** The loop of `strconv.ParseUint` with 64 bits: an invalid digit or an overflow, whichever
      comes first, decides the outcome. */
  function ScanUint(s: string, from: nat, base: int, acc: nat): Number
    requires Base(base) && from <= |s|
    decreases |s| - from
  {
    if from == |s| then Num(acc)
    else if !IsDigit(s[from], base) then NotANumber
    else
      var next := Shift(acc, base) + DigitOf(s[from]);
      if next > MAX_UINT64 then OutOfRange(MAX_UINT64) else ScanUint(s, from + 1, base, next)
  }

  /** `strconv.ParseInt` with 64 bits: an optional sign and at least one digit. */
  function ParseInt(s: string, base: int): Number
    requires Base(base)
  {
    if s == "" then NotANumber
    else
      var negative := s[0] == '-';
      var start := if negative || s[0] == '+' then 1 else 0;
      if start == |s| then NotANumber
      else match ScanUint(s, start, base, 0)
        case NotANumber => NotANumber
        case OutOfRange(_) => OutOfRange(if negative then -MAX_INT64 - 1 else MAX_INT64)
        case Num(n) =>
          if !negative && n > MAX_INT64 then OutOfRange(MAX_INT64)
          else if negative && n > MAX_INT64 + 1 then OutOfRange(-MAX_INT64 - 1)
          else Num(if negative then -n else n)
  }

  lemma {:induction false} ScanDigits(s: string, k: nat, base: int)
    requires Base(base) && AllDigits(s, base) && k <= |s| && Value(s, base) <= MAX_UINT64
    ensures ScanUint(s, k, base, ValueTo(s, k, base)) == Num(Value(s, base))
    decreases |s| - k
  {
    if k < |s| {
      assert IsDigit(s[k], base);
      ValueGrows(s, k + 1, |s|, base);
      ScanDigits(s, k + 1, base);
    }
  }

  /** Reading back digits gives their value, whatever leading zeros or letter case they use. */
  lemma ParseIntOfDigits(s: string, base: int)
    requires Base(base) && |s| > 0 && AllDigits(s, base) && Value(s, base) <= MAX_INT64
    ensures ParseInt(s, base) == Num(Value(s, base))
  {
    assert IsDigit(s[0], base);
    ScanDigits(s, 0, base);
  }

  lemma DigitsAreTight(s: string, base: int)
    requires Base(base) && AllDigits(s, base)
    ensures Tight(s)
  {
    if |s| > 0 { assert IsDigit(s[0], base) && IsDigit(s[|s| - 1], base); }
  }

  lemma DigitsHaveNo(s: string, base: int, c: char)
    requires Base(base) && AllDigits(s, base) && DigitOf(c) == -1
    ensures c !in s
  {
    forall k | 0 <= k < |s| ensures s[k] != c {
      assert IsDigit(s[k], base);
    }
  }
}
