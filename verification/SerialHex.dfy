/** Two normalisers of certificate serials, one in tls-proxy and one in webui, and the number a spelling
    stands for. */
module SerialHex {
  import opened Text

  function TrimPrefix(s: string, prefix: string): string {
    if prefix <= s then s[|prefix|..] else s
  }

  /** `strings.ReplaceAll(s, c, "")`. */
  function Without(s: string, c: char): string {
    if s == "" then ""
    else
      var front := Without(s[..|s| - 1], c);
      if s[|s| - 1] == c then front else front + [s[|s| - 1]]
  }

  function FirstNonZero(s: string, from: nat): (r: nat)
    requires from <= |s|
    ensures from <= r <= |s| && (forall k :: from <= k < r ==> s[k] == '0') && (r < |s| ==> s[r] != '0')
    decreases |s| - from
  {
    if from < |s| && s[from] == '0' then FirstNonZero(s, from + 1) else from
  }

  function PadEvenLen(s: string): string {
    if |s| % 2 != 0 then "0" + s else s
  }

  /** `hex.DecodeString` succeeds. */
  predicate Decodes(s: string) {
    |s| % 2 == 0 && AllDigits(s, 16)
  }

  /** The text between the optional prefixes. */
  function Body(s: string): string {
    TrimPrefix(TrimPrefix(TrimSpace(s), "0x"), "0X")
  }

  function Cleaned(s: string): string {
    Without(Without(Without(s, ':'), '-'), ' ')
  }

  /** `normalizeSerialHex` of tls-proxy. */
  function Normalize(s: string): string {
    var digits := Cleaned(Body(s));
    if digits == "" || !Decodes(PadEvenLen(digits)) then ""
    else
      var lower := ToLower(digits);
      var stripped := lower[FirstNonZero(lower, 0)..];
      if stripped == "" then "0" else stripped
  }

  /** `normalizeSerial` of webui. */
  function WebNormalize(s: string): string {
    Without(Without(TrimPrefix(ToLower(TrimSpace(s)), "0x"), ':'), ' ')
  }

  // ---- What a spelling means ----

  predicate Separator(c: char) {
    c == ':' || c == '-' || c == ' '
  }

  /** Reading character by character: whether a digit has been seen, and the number so far. */
  datatype Reading = Digit(seen: bool, value: nat) | NoNumber

  function Append(r: Reading, c: char): Reading {
    if r.NoNumber? || Separator(c) then r
    else if IsDigit(c, 16) then Digit(true, Shift(r.value, 16) + DigitOf(c))
    else NoNumber
  }

  function Meaning(s: string): Reading {
    if s == "" then Digit(false, 0) else Append(Meaning(s[..|s| - 1]), s[|s| - 1])
  }

  /** The number a serial spelling stands for, if it stands for one. */
  function SerialValue(s: string): Option<nat> {
    match Meaning(Body(s))
    case NoNumber => None
    case Digit(seen, value) => if seen then Some(value) else None
  }

  lemma WithoutAppend(s: string, x: char, c: char)
    ensures Without(s + [x], c) == if x == c then Without(s, c) else Without(s, c) + [x]
  {
    assert (s + [x])[..|s|] == s;
  }

  lemma CleanedAppend(s: string, x: char)
    ensures Cleaned(s + [x]) == if Separator(x) then Cleaned(s) else Cleaned(s) + [x]
  {
    hide Without;
    WithoutAppend(s, x, ':');
    if x != ':' {
      WithoutAppend(Without(s, ':'), x, '-');
      if x != '-' { WithoutAppend(Without(Without(s, ':'), '-'), x, ' '); }
    }
  }

  lemma NothingToRead()
    ensures Cleaned("") == "" && Tidy("") == "" && AllDigits("", 16) && Value("", 16) == 0 && TidyText("")
  {
    assert ToLower("") == "";
  }

  /** Reading a text means reading what is left of it without its separators. */
  lemma {:induction false} MeaningOfCleaned(s: string)
    ensures Meaning(s) == if AllDigits(Cleaned(s), 16) then Digit(Cleaned(s) != "", Value(Cleaned(s), 16)) else NoNumber
  {
    hide Cleaned, AllDigits, Value, DigitOf;
    if s == "" {
      NothingToRead();
    } else {
      var front, x := s[..|s| - 1], s[|s| - 1];
      assert s == front + [x];
      MeaningOfCleaned(front);
      CleanedAppend(front, x);
      DigitsAppend(Cleaned(front), x);
    }
  }

  lemma DigitsAppend(s: string, x: char)
    ensures AllDigits(s + [x], 16) <==> AllDigits(s, 16) && IsDigit(x, 16)
    ensures AllDigits(s + [x], 16) ==> Value(s + [x], 16) == Shift(Value(s, 16), 16) + DigitOf(x)
  {
    assert (s + [x])[|s|] == x && forall k :: 0 <= k < |s| ==> (s + [x])[k] == s[k];
    if AllDigits(s, 16) && IsDigit(x, 16) { ValueOfAppend(s, x, 16); }
  }

  lemma PaddedDecodes(s: string)
    ensures Decodes(PadEvenLen(s)) <==> AllDigits(s, 16)
  {
    assert forall k :: 0 <= k < |s| ==> ("0" + s)[k + 1] == s[k];
    assert IsDigit('0', 16);
  }

  lemma {:induction false} SameDigitsSameValue(s: string, t: string, n: nat)
    requires AllDigits(s, 16) && AllDigits(t, 16) && n <= |s| && n <= |t|
    requires forall k :: 0 <= k < n ==> DigitOf(s[k]) == DigitOf(t[k])
    ensures ValueTo(s, n, 16) == ValueTo(t, n, 16)
  {
    if n > 0 { SameDigitsSameValue(s, t, n - 1); }
  }

  lemma {:induction false} ZerosInFront(s: string, z: nat, n: nat)
    requires AllDigits(s, 16) && z + n <= |s| && forall k :: 0 <= k < z ==> s[k] == '0'
    ensures AllDigits(s[z..], 16) && ValueTo(s, z + n, 16) == ValueTo(s[z..], n, 16)
    decreases z + n
  {
    if n > 0 {
      ZerosInFront(s, z, n - 1);
    } else if z > 0 {
      ZerosInFront(s, z - 1, 0);
    }
  }

  lemma LowerKeepsDigits(s: string)
    requires AllDigits(s, 16)
    ensures AllDigits(ToLower(s), 16) && AllLower(ToLower(s)) && Value(ToLower(s), 16) == Value(s, 16)
  {
    forall k | 0 <= k < |s| ensures DigitOf(ToLower(s)[k]) == DigitOf(s[k]) && IsDigit(ToLower(s)[k], 16) {
      assert IsDigit(s[k], 16);
    }
    SameDigitsSameValue(ToLower(s), s, |s|);
  }

  lemma SuffixDigits(lower: string, z: nat)
    requires z <= |lower| && AllDigits(lower, 16) && AllLower(lower) && forall k :: 0 <= k < z ==> lower[k] == '0'
    ensures AllDigits(lower[z..], 16) && AllLower(lower[z..]) && Value(lower[z..], 16) == Value(lower, 16)
  {
    ZerosInFront(lower, z, |lower| - z);
    hide ValueTo;
    assert forall k :: 0 <= k < |lower[z..]| ==> lower[z..][k] == lower[z + k];
  }

  lemma NoDigits()
    ensures AllDigits("", 16) && Value("", 16) == 0 && Digits(0, 16) == "0"
  {
  }

  lemma Canonical(lower: string)
    requires lower != "" && AllDigits(lower, 16) && AllLower(lower)
    ensures var stripped := lower[FirstNonZero(lower, 0)..];
            Digits(Value(lower, 16), 16) == if stripped == "" then "0" else stripped
  {
    hide AllDigits, AllLower, Value, Digits;
    var z := FirstNonZero(lower, 0);
    var stripped := lower[z..];
    SuffixDigits(lower, z);
    if stripped == "" {
      NoDigits();
    } else {
      assert stripped[0] == lower[z];
      DigitsOfValue(stripped, 16);
    }
  }

  /** The key is the number: a spelling is accepted exactly when it stands for a number, and its key is
      that number in lower-case hexadecimal without leading zeros, as `big.Int.Text(16)` prints it. */
  lemma KeyIsNumber(s: string)
    ensures Normalize(s) == match SerialValue(s) case None => "" case Some(n) => Digits(n, 16)
  {
    hide Body;
    var digits := Cleaned(Body(s));
    MeaningOfCleaned(Body(s));
    PaddedDecodes(digits);
    hide Cleaned, Meaning, Decodes, PadEvenLen;
    if digits != "" && AllDigits(digits, 16) {
      LowerKeepsDigits(digits);
      Canonical(ToLower(digits));
    }
  }

  /** Two accepted spellings share a key if and only if they denote the same integer. */
  lemma SameKeyIff(s: string, t: string)
    requires Normalize(s) != "" && Normalize(t) != ""
    ensures Normalize(s) == Normalize(t) <==> SerialValue(s) == SerialValue(t)
  {
    hide Normalize, SerialValue, Digits;
    KeyIsNumber(s);
    KeyIsNumber(t);
    if SerialValue(s).Some? && SerialValue(t).Some? {
      ValueOfDigits(SerialValue(s).value, 16);
      ValueOfDigits(SerialValue(t).value, 16);
    }
  }

  lemma DigitIsNoSeparator(x: char)
    ensures IsDigit(x, 16) ==> !Separator(x)
  {
  }

  lemma MeaningOfDigitsStep(front: string, x: char)
    requires AllDigits(front + [x], 16) && AllDigits(front, 16) && Meaning(front) == Digit(front != "", Value(front, 16))
    ensures Meaning(front + [x]) == Digit(true, Value(front + [x], 16))
  {
    hide AllDigits, Value, Meaning, DigitOf, Separator;
    DigitsAppend(front, x);
    DigitIsNoSeparator(x);
    MeaningAppend(front, x);
  }

  lemma DigitsFront(front: string, x: char)
    requires AllDigits(front + [x], 16)
    ensures AllDigits(front, 16)
  {
    DigitsAppend(front, x);
  }

  lemma {:induction false} MeaningOfDigits(s: string)
    requires AllDigits(s, 16)
    ensures Meaning(s) == Digit(s != "", Value(s, 16))
  {
    hide AllDigits, Value;
    if s == "" {
      NothingToRead();
    } else {
      var front, x := s[..|s| - 1], s[|s| - 1];
      assert s == front + [x];
      hide *;
      DigitsFront(front, x);
      MeaningOfDigits(front);
      MeaningOfDigitsStep(front, x);
    }
  }

  lemma PrefixChar(s: string, p: string)
    requires |p| == 2
    ensures p <= s ==> p[1] in s && |s| > 1 && s[1] == p[1]
  {
  }

  /** A tight text without an `x` is its own body, and the body of itself behind a prefix. */
  lemma BodyWithoutX(t: string)
    requires Tight(t) && 'x' !in t && 'X' !in t
    ensures Body(t) == t && Body("0x" + t) == t
  {
    TrimTight(t);
    TightBehindPrefix(t);
    TrimTight("0x" + t);
    PrefixChar(t, "0x");
    PrefixChar(t, "0X");
    hide TrimSpace, Tight;
    assert ("0x" + t)[2..] == t && "0x" <= "0x" + t;
  }

  lemma TightBehindPrefix(t: string)
    requires Tight(t)
    ensures Tight("0x" + t)
  {
    var p := "0x" + t;
    assert p[0] == '0' && p[|p| - 1] == if t == "" then 'x' else t[|t| - 1];
  }

  lemma BodyOfDigits(s: string)
    requires AllDigits(s, 16)
    ensures Body(s) == s
  {
    DigitsAreTight(s, 16);
    DigitsHaveNo(s, 16, 'x');
    DigitsHaveNo(s, 16, 'X');
    hide *;
    BodyWithoutX(s);
  }

  /** The rendering of every number is its own key. */
  lemma RenderingIsKey(n: nat)
    ensures SerialValue(Digits(n, 16)) == Some(n) && Normalize(Digits(n, 16)) == Digits(n, 16)
  {
    hide Body, Normalize;
    var s := Digits(n, 16);
    BodyOfDigits(s);
    MeaningOfDigits(s);
    ValueOfDigits(n, 16);
    KeyIsNumber(s);
  }

  lemma Idempotent(s: string)
    ensures Normalize(Normalize(s)) == Normalize(s)
  {
    hide Normalize, SerialValue, Digits;
    KeyIsNumber(s);
    if SerialValue(s).Some? {
      RenderingIsKey(SerialValue(s).value);
    } else {
      EmptyIsRefused();
    }
  }

  lemma EmptyIsRefused()
    ensures Normalize("") == ""
  {
    TrimTight("");
    assert Body("") == "";
    assert Cleaned("") == "";
  }

  // ---- webui first, then tls-proxy ----

  /** Only hex digits and separators. */
  predicate Plain(s: string) {
    forall k :: 0 <= k < |s| ==> IsDigit(s[k], 16) || Separator(s[k])
  }

  lemma {:induction false} ReadableIsPlain(s: string)
    requires Meaning(s) != NoNumber
    ensures Plain(s)
  {
    if s != "" {
      ReadableIsPlain(s[..|s| - 1]);
      assert forall k :: 0 <= k < |s| - 1 ==> s[k] == s[..|s| - 1][k];
    }
  }

  /** What webui makes of a plain text: lower case, no colons, no spaces. */
  function Tidy(s: string): string {
    Without(Without(ToLower(s), ':'), ' ')
  }

  lemma TidyAppend(s: string, x: char)
    ensures Tidy(s + [x]) == if x == ':' || x == ' ' then Tidy(s) else Tidy(s) + [LowerChar(x)]
  {
    assert ToLower(s + [x]) == ToLower(s) + [LowerChar(x)];
    hide Without, ToLower;
    WithoutAppend(ToLower(s), LowerChar(x), ':');
    if x != ':' { WithoutAppend(Without(ToLower(s), ':'), LowerChar(x), ' '); }
  }

  lemma MeaningAppend(s: string, x: char)
    ensures Meaning(s + [x]) == Append(Meaning(s), x)
  {
    assert (s + [x])[..|s|] == s;
  }

  /** Lower-case digits and dashes. */
  predicate TidyChar(c: char) {
    c == '-' || (IsDigit(c, 16) && LowerChar(c) == c)
  }

  predicate TidyText(t: string) {
    forall k :: 0 <= k < |t| ==> TidyChar(t[k])
  }

  lemma TidyTextAppend(t: string, c: char)
    requires TidyText(t) && TidyChar(c)
    ensures TidyText(t + [c])
  {
  }

  lemma {:induction false} TidyMeansTheSame(s: string)
    requires Plain(s)
    ensures Meaning(Tidy(s)) == Meaning(s) && TidyText(Tidy(s))
  {
    hide Tidy, TidyText, Plain, DigitOf;
    if s == "" {
      NothingToRead();
    } else {
      var front, x := s[..|s| - 1], s[|s| - 1];
      assert s == front + [x];
      PlainFront(s);
      TidyMeansTheSame(front);
      TidyAppend(front, x);
      LowerDigitSame(x);
      hide Meaning;
      MeaningAppend(front, x);
      MeaningAppend(Tidy(front), LowerChar(x));
      if x != ':' && x != ' ' { TidyTextAppend(Tidy(front), LowerChar(x)); }
    }
  }

  lemma PlainFront(s: string)
    requires Plain(s) && s != ""
    ensures Plain(s[..|s| - 1]) && (IsDigit(s[|s| - 1], 16) || Separator(s[|s| - 1]))
  {
    assert forall k :: 0 <= k < |s| - 1 ==> s[..|s| - 1][k] == s[k];
  }

  lemma LowerDigitSame(x: char)
    ensures DigitOf(LowerChar(x)) == DigitOf(x) && (Separator(x) <==> Separator(LowerChar(x)))
    ensures LowerChar(LowerChar(x)) == LowerChar(x) && (IsDigit(x, 16) <==> IsDigit(LowerChar(x), 16))
  {
  }

  /** A text of lower-case digits and dashes has no space at its ends and no prefix. */
  lemma BodyOfTidy(t: string)
    requires TidyText(t)
    ensures Body(t) == t && Body("0x" + t) == t
  {
    assert Tight(t) by { assert |t| > 0 ==> TidyChar(t[0]) && TidyChar(t[|t| - 1]); }
    assert 'x' !in t && 'X' !in t by { assert forall k :: 0 <= k < |t| ==> TidyChar(t[k]); }
    hide *;
    BodyWithoutX(t);
  }

  /** Where webui's single prefix removal leaves a spelling that tls-proxy accepts. */
  lemma WebText(s: string)
    requires Plain(Body(s))
    ensures WebNormalize(s) == Tidy(Body(s)) || WebNormalize(s) == "0x" + Tidy(Body(s))
  {
    var t, b := TrimSpace(s), Body(s);
    if "0x" <= t && "0X" <= t[2..] {
      assert t == "0x" + ("0X" + b);
      LowerOfPrefix("0x", "0X" + b);
      LowerOfPrefix("0X", b);
      assert ToLower(t)[2..] == "0x" + ToLower(b);
      WithoutPrefix(ToLower(b), ':');
      WithoutPrefix(Without(ToLower(b), ':'), ' ');
    } else if "0x" <= t {
      assert t == "0x" + b;
      LowerOfPrefix("0x", b);
    } else if "0X" <= t {
      assert t == "0X" + b;
      LowerOfPrefix("0X", b);
    } else {
      assert t == b;
      NoPrefix(b);
    }
  }

  lemma NoPrefix(b: string)
    requires Plain(b)
    ensures !("0x" <= ToLower(b))
  {
    if |b| >= 2 {
      assert IsDigit(b[1], 16) || Separator(b[1]);
      assert ToLower(b)[1] == LowerChar(b[1]) != 'x';
    }
  }

  lemma LowerOfPrefix(p: string, b: string)
    requires p == "0x" || p == "0X"
    ensures ToLower(p + b) == "0x" + ToLower(b) && (ToLower(p + b))[2..] == ToLower(b) && "0x" <= ToLower(p + b)
  {
  }

  lemma PrefixStays(c: char)
    requires c == ':' || c == ' '
    ensures Without("0x", c) == "0x" && Without("", c) == ""
  {
    assert "0x" == ("" + ['0']) + ['x'];
    WithoutAppend("" + ['0'], 'x', c);
    WithoutAppend("", '0', c);
  }

  lemma {:induction false} WithoutPrefix(b: string, c: char)
    requires c == ':' || c == ' '
    ensures Without("0x" + b, c) == "0x" + Without(b, c)
  {
    hide Without;
    if b == "" {
      PrefixStays(c);
      assert "0x" + b == "0x";
    } else {
      var front, x := b[..|b| - 1], b[|b| - 1];
      assert b == front + [x];
      Associate("0x", front, [x]);
      WithoutPrefix(front, c);
      WithoutAppend("0x" + front, x, c);
      WithoutAppend(front, x, c);
      Associate("0x", Without(front, c), [x]);
    }
  }

  /** Passing a serial through webui first changes nothing for tls-proxy: whatever tls-proxy accepts it
      still accepts, under the same key. */
  lemma WebPreservesKey(s: string)
    requires Normalize(s) != ""
    ensures Normalize(WebNormalize(s)) == Normalize(s)
  {
    hide Normalize, Digits, WebNormalize, Tidy, Body;
    KeyIsNumber(s);
    KeyIsNumber(WebNormalize(s));
    var b := Body(s);
    ReadableIsPlain(b);
    TidyMeansTheSame(b);
    WebText(s);
    BodyOfTidy(Tidy(b));
  }

  lemma {:induction false} WithoutIs(s: string, c: char)
    ensures c !in Without(s, c) && forall x :: x in Without(s, c) ==> x in s
    ensures c !in s ==> Without(s, c) == s
  {
    if s != "" {
      var front := s[..|s| - 1];
      assert s == front + [s[|s| - 1]];
      WithoutIs(front, c);
    }
  }

  /** What webui stores is in lower case and has no colon and no blank. */
  lemma WebIsTidy(s: string)
    ensures ':' !in WebNormalize(s) && ' ' !in WebNormalize(s) && AllLower(WebNormalize(s))
  {
    hide Without, TrimSpace;
    var low := ToLower(TrimSpace(s));
    var body := TrimPrefix(low, "0x");
    WithoutIs(body, ':');
    WithoutIs(Without(body, ':'), ' ');
    forall x | x in WebNormalize(s) ensures LowerChar(x) == x {
      assert x in low;
    }
  }

  lemma LowerDigits(d: string)
    requires AllDigits(d, 16)
    ensures var low := ToLower(d); ':' !in low && ' ' !in low && !("0x" <= low)
  {
    forall k | 0 <= k < |d| ensures IsDigit(d[k], 16) && ToLower(d)[k] != 'x' && ToLower(d)[k] != ':' && ToLower(d)[k] != ' ' {
      assert IsDigit(d[k], 16);
    }
    if |d| >= 2 { assert ToLower(d)[1] != 'x'; }
  }

  lemma PrefixGone(prefix: string, d: string)
    requires prefix in ["", "0x", "0X"] && AllDigits(d, 16)
    ensures TrimPrefix(ToLower(prefix + d), "0x") == ToLower(d)
  {
    LowerDigits(d);
    if prefix == "" {
      assert prefix + d == d;
    } else {
      LowerOfPrefix(prefix, d);
    }
  }

  lemma DigitsBehindPrefix(prefix: string, d: string)
    requires prefix in ["", "0x", "0X"] && d != "" && AllDigits(d, 16)
    ensures Tight(prefix + d)
  {
    assert IsDigit(d[|d| - 1], 16) && IsDigit(d[0], 16);
    var t := prefix + d;
    assert t[|t| - 1] == d[|d| - 1] && t[0] == if prefix == "" then d[0] else '0';
  }

  /** Of digits with white space around them and perhaps a prefix it stores the digits. */
  lemma WebOfDigits(pre: string, prefix: string, d: string, post: string)
    requires AllSpace(pre) && AllSpace(post) && prefix in ["", "0x", "0X"] && d != "" && AllDigits(d, 16)
    ensures WebNormalize(pre + (prefix + d) + post) == ToLower(d)
  {
    DigitsBehindPrefix(prefix, d);
    PrefixGone(prefix, d);
    LowerDigits(d);
    hide Without, TrimSpace, Tight, TrimPrefix, ToLower, AllDigits;
    TrimExact(pre, prefix + d, post);
    WithoutIs(ToLower(d), ':');
    WithoutIs(ToLower(d), ' ');
  }
}
