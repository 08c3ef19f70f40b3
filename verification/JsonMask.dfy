/** Masking the strings of a decoded JSON body, in place. */
module JsonMask {
  import opened Text

  datatype Json =
    | Null
    | Bool(b: bool)
    | Number(text: string)
    | Str(s: string)
    | Arr(items: seq<Json>)
    | Obj(fields: map<string, Json>)

  /** A rule; its pattern is known by what replacing all matches in a text gives. */
  datatype Rule = Rule(maskBody: bool, maskReplacement: string, replaceAll: (string, string) -> string)

  const DEFAULT_REPLACEMENT := "[REDACTED]"

  function ApplyRule(r: Rule, text: string): string {
    if !r.maskBody then text
    else r.replaceAll(text, if r.maskReplacement == "" then DEFAULT_REPLACEMENT else r.maskReplacement)
  }

  /** One rule after the other, each on what the earlier ones left. */
  function Masked(rules: seq<Rule>, text: string): string {
    if rules == [] then text else ApplyRule(rules[|rules| - 1], Masked(rules[..|rules| - 1], text))
  }

  /** The texts in front of the first rule and behind each one: a rule that is not for bodies repeats its text, any
      other replaces all its matches, by a fixed word if it names no replacement. */
  ghost predicate Trace(rules: seq<Rule>, texts: seq<string>) {
    && |texts| == |rules| + 1
    && forall k :: 0 <= k < |rules| ==>
         texts[k + 1] ==
         if !rules[k].maskBody then texts[k]
         else if rules[k].maskReplacement == "" then rules[k].replaceAll(texts[k], "[REDACTED]")
         else rules[k].replaceAll(texts[k], rules[k].maskReplacement)
  }

  /** The rules lead from one text to another. */
  ghost predicate Leads(rules: seq<Rule>, text: string, result: string) {
    exists texts :: Trace(rules, texts) && texts[0] == text && texts[|rules|] == result
  }

  method ApplyMaskPatterns(rules: seq<Rule>, text: string) returns (result: string)
    ensures result == Masked(rules, text)
    ensures Leads(rules, text, result)
  {
    result := text;
    for i := 0 to |rules|
      invariant result == Masked(rules[..i], text)
    {
      var r := rules[i];
      assert rules[..i + 1][..i] == rules[..i];
      if !r.maskBody { continue; }
      var repl := r.maskReplacement;
      if repl == "" { repl := DEFAULT_REPLACEMENT; }
      result := r.replaceAll(result, repl);
    }
    assert rules[..|rules|] == rules;
    MaskedLeads(rules, text, result);
  }

  lemma {:induction false} TraceOf(rules: seq<Rule>, text: string) returns (texts: seq<string>)
    ensures Trace(rules, texts) && texts[0] == text && texts[|rules|] == Masked(rules, text)
  {
    if rules == [] {
      texts := [text];
    } else {
      var n := |rules| - 1;
      var front := TraceOf(rules[..n], text);
      texts := front + [Masked(rules, text)];
      assert forall k :: 0 <= k < n ==> rules[..n][k] == rules[k];
    }
  }

  lemma {:induction false} TraceIs(rules: seq<Rule>, texts: seq<string>)
    requires Trace(rules, texts)
    ensures texts[|rules|] == Masked(rules, texts[0])
    decreases |rules|
  {
    if rules != [] {
      var n := |rules| - 1;
      assert forall k :: 0 <= k < n ==> rules[..n][k] == rules[k];
      TraceIs(rules[..n], texts[..|rules|]);
    }
  }

  /** Masking a text is being led through all rules in order. */
  lemma MaskedLeads(rules: seq<Rule>, text: string, result: string)
    ensures result == Masked(rules, text) <==> Leads(rules, text, result)
  {
    var texts := TraceOf(rules, text);
    forall other | Trace(rules, other) && other[0] == text && other[|rules|] == result
      ensures result == Masked(rules, text)
    {
      TraceIs(rules, other);
    }
  }

  // ---- What masking achieves ----

  /** What an active rule leaves of a text. */
  ghost function Replaced(r: Rule, text: string): string {
    r.replaceAll(text, if r.maskReplacement == "" then "[REDACTED]" else r.maskReplacement)
  }

  /** No text has the secret any more behind this rule. */
  ghost predicate Removes(r: Rule, secret: string -> bool) {
    r.maskBody && forall text :: !secret(Replaced(r, text))
  }

  /** The rule does not bring the secret into a text without it. */
  ghost predicate BringsNone(r: Rule, secret: string -> bool) {
    r.maskBody ==> forall text :: !secret(text) ==> !secret(Replaced(r, text))
  }

  /** What one active rule removes and no later one brings back is in no masked text. */
  lemma {:induction false} SecretIsGone(rules: seq<Rule>, k: nat, secret: string -> bool, text: string)
    requires k < |rules| && Removes(rules[k], secret)
    requires forall j :: k < j < |rules| ==> BringsNone(rules[j], secret)
    ensures !secret(Masked(rules, text))
    decreases |rules|
  {
    var n := |rules| - 1;
    var before := Masked(rules[..n], text);
    assert rules[n].maskBody ==> Masked(rules, text) == Replaced(rules[n], before);
    if k < n {
      assert forall j :: k < j < n ==> rules[..n][j] == rules[j];
      SecretIsGone(rules[..n], k, secret, text);
      assert BringsNone(rules[n], secret);
    }
  }

  /** Then no string at whatever depth of a masked tree has it. */
  lemma SecretIsGoneEverywhere(rules: seq<Rule>, k: nat, secret: string -> bool, v: Json, path: seq<Place>)
    requires k < |rules| && Removes(rules[k], secret)
    requires forall j :: k < j < |rules| ==> BringsNone(rules[j], secret)
    ensures var leaf := At(MaskTree(rules, v), path); leaf.Some? && leaf.value.Str? ==> !secret(leaf.value.s)
  {
    MaskedAt(rules, v, path);
    hide Masked, Removes, BringsNone, At;
    var leaf := At(v, path);
    if leaf.Some? && leaf.value.Str? { SecretIsGone(rules, k, secret, leaf.value.s); }
  }

  /** Without a rule for bodies a tree stays as it is. */
  lemma NoActiveRule(rules: seq<Rule>, v: Json)
    requires forall k :: 0 <= k < |rules| ==> !rules[k].maskBody
    ensures MaskTree(rules, v) == v
  {
    forall text ensures Masked(rules, text) == text { InactiveKeep(rules, text); }
    hide Masked, MaskTree, Changes;
    ChangedIff(rules, v);
    forall path ensures !Changes(rules, v, path) { NoChange(rules, v, path); }
  }

  lemma NoChange(rules: seq<Rule>, v: Json, path: seq<Place>)
    requires forall text :: Masked(rules, text) == text
    ensures !Changes(rules, v, path)
  {
  }

  lemma {:induction false} InactiveKeep(rules: seq<Rule>, text: string)
    requires forall k :: 0 <= k < |rules| ==> !rules[k].maskBody
    ensures Masked(rules, text) == text
  {
    if rules != [] { InactiveKeep(rules[..|rules| - 1], text); }
  }

  function MaskTree(rules: seq<Rule>, v: Json): Json {
    match v
    case Str(s) => Str(Masked(rules, s))
    case Arr(items) => Arr(seq(|items|, i requires 0 <= i < |items| => MaskTree(rules, items[i])))
    case Obj(fields) => Obj(map k | k in fields :: MaskTree(rules, fields[k]))
    case _ => v
  }

  /** `maskAny`: the tree as it is afterwards, and whether it says that something changed.  The fields of an
      object are visited in any order. */
  method MaskAny(rules: seq<Rule>, v: Json) returns (masked: Json, changed: bool)
    ensures masked == MaskTree(rules, v)
    ensures changed <==> masked != v
    decreases v
  {
    match v
    case Str(s) =>
      var m := ApplyMaskPatterns(rules, s);
      if m != s { return Str(m), true; }
      return v, false;
    case Obj(fields) =>
      masked, changed := MaskFields(rules, fields);
    case Arr(items) =>
      masked, changed := MaskItems(rules, items);
    case _ =>
      return v, false;
  }

  method MaskFields(rules: seq<Rule>, fields: map<string, Json>) returns (masked: Json, changed: bool)
    ensures masked == MaskTree(rules, Obj(fields))
    ensures changed <==> masked != Obj(fields)
    decreases Obj(fields), 0
  {
    hide MaskTree;
    var val, todo := fields, fields.Keys;
    changed := false;
    while todo != {}
      invariant val.Keys == fields.Keys && todo <= fields.Keys
      invariant forall k :: k in fields ==> val[k] == if k in todo then fields[k] else MaskTree(rules, fields[k])
      invariant changed <==> val != fields
      decreases |todo|
    {
      var k :| k in todo;
      var item, itemChanged := MaskAny(rules, val[k]);
      if itemChanged {
        val := val[k := item];
        changed := true;
        assert val[k] != fields[k];
      }
      todo := todo - {k};
    }
    MaskedObject(rules, fields, val);
    masked := Obj(val);
  }

  lemma MaskedObject(rules: seq<Rule>, fields: map<string, Json>, val: map<string, Json>)
    requires val.Keys == fields.Keys && forall k :: k in fields ==> val[k] == MaskTree(rules, fields[k])
    ensures MaskTree(rules, Obj(fields)) == Obj(val)
  {
    assert MaskTree(rules, Obj(fields)).fields == val;
  }

  method MaskItems(rules: seq<Rule>, items: seq<Json>) returns (masked: Json, changed: bool)
    ensures masked == MaskTree(rules, Arr(items))
    ensures changed <==> masked != Arr(items)
    decreases Arr(items), 0
  {
    var val := items;
    changed := false;
    for i := 0 to |items|
      invariant |val| == |items|
      invariant forall k :: 0 <= k < |items| ==> val[k] == if k < i then MaskTree(rules, items[k]) else items[k]
      invariant changed <==> val != items
    {
      var item, itemChanged := MaskAny(rules, val[i]);
      if itemChanged {
        val := val[i := item];
        changed := true;
        assert val[i] != items[i];
      }
    }
    assert val == MaskTree(rules, Arr(items)).items;
    masked := Arr(val);
  }

  // ---- Place by place ----

  datatype Place = Field(key: string) | Item(index: nat)

  function Child(v: Json, p: Place): Option<Json> {
    match (v, p)
    case (Obj(fields), Field(key)) => if key in fields then Some(fields[key]) else None
    case (Arr(items), Item(i)) => if i < |items| then Some(items[i]) else None
    case _ => None
  }

  /** What is found by following a path from the root. */
  function At(v: Json, path: seq<Place>): Option<Json> {
    if path == [] then Some(v)
    else
      match Child(v, path[0])
      case None => None
      case Some(child) => At(child, path[1..])
  }

  /** What masking promises for one place: strings become their masked form, every other leaf stays, an
      object keeps its keys and an array its length. */
  ghost predicate Corresponds(rules: seq<Rule>, before: Option<Json>, after: Option<Json>) {
    match (before, after)
    case (None, None) => true
    case (Some(Str(s)), Some(Str(t))) => Leads(rules, s, t)
    case (Some(Arr(xs)), Some(Arr(ys))) => |xs| == |ys|
    case (Some(Obj(f)), Some(Obj(g))) => f.Keys == g.Keys
    case (Some(v), Some(w)) => v == w && !v.Str? && !v.Arr? && !v.Obj?
    case _ => false
  }

  lemma StringsCorrespond(rules: seq<Rule>, before: Option<Json>, after: Option<Json>)
    requires before.Some? && after.Some? && before.value.Str? && after.value.Str?
    ensures Corresponds(rules, before, after) <==> after.value.s == Masked(rules, before.value.s)
  {
    hide Leads, Masked;
    MaskedLeads(rules, before.value.s, after.value.s);
  }

  lemma TreesCorrespond(rules: seq<Rule>, v: Json)
    ensures Corresponds(rules, Some(v), Some(MaskTree(rules, v)))
  {
    hide Leads, Masked;
    if v.Str? { MaskedLeads(rules, v.s, Masked(rules, v.s)); }
  }

  ghost predicate Everywhere(rules: seq<Rule>, v: Json, w: Json) {
    forall path :: Corresponds(rules, At(v, path), At(w, path))
  }

  lemma {:induction false} MaskedAt(rules: seq<Rule>, v: Json, path: seq<Place>)
    ensures At(MaskTree(rules, v), path) ==
            match At(v, path) case None => None case Some(x) => Some(MaskTree(rules, x))
    decreases |path|
  {
    if path != [] && Child(v, path[0]).Some? {
      MaskedAt(rules, Child(v, path[0]).value, path[1..]);
    }
  }

  lemma BelowChild(rules: seq<Rule>, v: Json, w: Json, p: Place)
    requires Everywhere(rules, v, w) && Child(v, p).Some?
    ensures Child(w, p).Some? && Everywhere(rules, Child(v, p).value, Child(w, p).value)
  {
    assert Corresponds(rules, At(v, []), At(w, []));
    forall path ensures Corresponds(rules, At(Child(v, p).value, path), At(Child(w, p).value, path)) {
      assert ([p] + path)[1..] == path;
      assert Corresponds(rules, At(v, [p] + path), At(w, [p] + path));
    }
  }

  /** The walk is the one tree that has, at every path, what masking promises there, and nothing else. */
  lemma {:induction false} MaskedIff(rules: seq<Rule>, v: Json, w: Json)
    ensures w == MaskTree(rules, v) <==> Everywhere(rules, v, w)
    decreases v
  {
    if w == MaskTree(rules, v) {
      forall path ensures Corresponds(rules, At(v, path), At(w, path)) {
        MaskedAt(rules, v, path);
        if At(v, path).Some? { TreesCorrespond(rules, At(v, path).value); }
      }
    }
    if Everywhere(rules, v, w) { OnlyOneTree(rules, v, w); }
  }

  lemma {:induction false} OnlyOneTree(rules: seq<Rule>, v: Json, w: Json)
    requires Everywhere(rules, v, w)
    ensures w == MaskTree(rules, v)
    decreases v
  {
    assert Corresponds(rules, At(v, []), At(w, []));
    hide Leads;
    match v
    case Str(s) =>
      MaskedLeads(rules, s, w.s);
    case Obj(fields) =>
      forall k | k in fields ensures w.fields[k] == MaskTree(rules, fields[k]) {
        BelowChild(rules, v, w, Field(k));
        OnlyOneTree(rules, fields[k], w.fields[k]);
      }
      assert w.fields == MaskTree(rules, v).fields;
    case Arr(items) =>
      forall i | 0 <= i < |items| ensures w.items[i] == MaskTree(rules, items[i]) {
        BelowChild(rules, v, w, Item(i));
        OnlyOneTree(rules, items[i], w.items[i]);
      }
      assert w.items == MaskTree(rules, v).items;
    case _ =>
  }

  /** At this path stands a string that the rules change. */
  predicate Changes(rules: seq<Rule>, v: Json, path: seq<Place>) {
    At(v, path).Some? && At(v, path).value.Str? && Masked(rules, At(v, path).value.s) != At(v, path).value.s
  }

  lemma ChangesIff(rules: seq<Rule>, v: Json, path: seq<Place>)
    ensures Changes(rules, v, path) <==> !Corresponds(rules, At(v, path), At(v, path))
  {
    hide Masked, At, Leads;
    var x := At(v, path);
    if x.Some? && x.value.Str? { StringsCorrespond(rules, x, x); }
  }

  /** Something changes exactly if some string in the tree, at whatever depth, is changed by the rules. */
  lemma ChangedIff(rules: seq<Rule>, v: Json)
    ensures MaskTree(rules, v) != v <==> exists path :: Changes(rules, v, path)
  {
    hide MaskTree, Changes, Corresponds, At;
    MaskedIff(rules, v, v);
    forall path ensures Changes(rules, v, path) <==> !Corresponds(rules, At(v, path), At(v, path)) {
      ChangesIff(rules, v, path);
    }
  }

  /** If masking a string twice masks it once, so does masking a tree. */
  lemma TwiceIsOnce(rules: seq<Rule>, v: Json)
    requires forall s :: Masked(rules, Masked(rules, s)) == Masked(rules, s)
    ensures MaskTree(rules, MaskTree(rules, v)) == MaskTree(rules, v)
  {
    hide MaskTree, Changes;
    var w := MaskTree(rules, v);
    ChangedIff(rules, w);
    forall path ensures !Changes(rules, w, path) { OnceIsEnough(rules, v, path); }
  }

  lemma OnceIsEnough(rules: seq<Rule>, v: Json, path: seq<Place>)
    requires forall s :: Masked(rules, Masked(rules, s)) == Masked(rules, s)
    ensures !Changes(rules, MaskTree(rules, v), path)
  {
    hide Masked, At;
    MaskedAt(rules, v, path);
  }
}
