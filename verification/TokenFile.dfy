/** enroll-tokens.json under its lock: tls-proxy consumes tokens of its own schema, webui keeps a list of
    another schema, and neither can read what the other writes. */
module TokenFile {
  import opened Text
  import opened LockedFile
  import FileLock

  // ---- Contents ----

  /** Instants as in Go's `time.Time`; ZERO is the zero time, which no clock reading is. */
  const ZERO := 0

  datatype ProxyToken = ProxyToken(token: string, orgId: string, user: string, expiresAt: int, consumedAt: int, usedCount: int)

  datatype WebToken = WebToken(id: string, description: string, tokenHash: string, createdAt: int, createdBy: string,
                               expiresAt: int, maxUses: int, usedCount: int, revoked: bool, revokedAt: Option<int>)

  /** The file as JSON sees it: an object with `tokens`, an array of records, or neither. */
  datatype Content = Missing | Blank | ProxyObject(proxy: seq<ProxyToken>) | WebArray(web: seq<WebToken>) | Garbled

  function ReadProxy(c: Content): Option<seq<ProxyToken>> {
    match c
    case Missing => Some([])
    case Blank => Some([])
    case ProxyObject(tokens) => Some(tokens)
    case WebArray(_) => None
    case Garbled => None
  }

  function ReadWeb(c: Content): Option<seq<WebToken>> {
    match c
    case Missing => Some([])
    case Blank => Some([])
    case WebArray(tokens) => Some(tokens)
    case ProxyObject(_) => None
    case Garbled => None
  }

  function FirstToken(tokens: seq<ProxyToken>, token: string, from: nat): (r: nat)
    requires from <= |tokens|
    ensures from <= r <= |tokens| && (r < |tokens| ==> tokens[r].token == token)
    ensures forall k :: from <= k < r ==> tokens[k].token != token
    decreases |tokens| - from
  {
    if from < |tokens| && tokens[from].token != token then FirstToken(tokens, token, from + 1) else from
  }

  function FirstId(tokens: seq<WebToken>, id: string, from: nat): (r: nat)
    requires from <= |tokens|
    ensures from <= r <= |tokens| && (r < |tokens| ==> tokens[r].id == id)
    ensures forall k :: from <= k < r ==> tokens[k].id != id
    decreases |tokens| - from
  {
    if from < |tokens| && tokens[from].id != id then FirstId(tokens, id, from + 1) else from
  }

  // ---- Bodies run under the lock ----

  datatype Job =
    | Consume(token: string, now: int)   // tls-proxy, POST /enroll
    | IssueProxy(record: ProxyToken)     // any issuer that writes tls-proxy's schema
    | Create(record': WebToken)          // webui
    | Revoke(id: string, now: int)       // webui
    | Delete(id: string)                 // webui
    | Reload                             // webui
    | UseWeb(id: string)                 // any lock holder that counts a use in webui's schema

  function Spend(t: ProxyToken, now: int): ProxyToken {
    t.(consumedAt := now, usedCount := t.usedCount + 1)
  }

  function ConsumeBody(c: Content, token: string, now: int): Verdict<Content> {
    match ReadProxy(c)
    case None => Refuse
    case Some(tokens) =>
      var i := FirstToken(tokens, token, 0);
      if i == |tokens| then Refuse
      else if tokens[i].consumedAt != ZERO then Refuse
      else if tokens[i].expiresAt != ZERO && now > tokens[i].expiresAt then Refuse
      else Replace(ProxyObject(tokens[i := Spend(tokens[i], now)]))
  }

  function IssueBody(c: Content, record: ProxyToken): Verdict<Content> {
    match ReadProxy(c)
    case None => Refuse
    case Some(tokens) => Replace(ProxyObject(tokens + [record]))
  }

  /** The list after a webui operation, or the reason there is none. */
  function WebBody(tokens: seq<WebToken>, job: Job): Verdict<seq<WebToken>>
    requires !job.Consume? && !job.IssueProxy?
  {
    match job
    case Create(record) => Replace(tokens + [record])
    case Revoke(id, now) =>
      var i := FirstId(tokens, id, 0);
      if i == |tokens| then Refuse
      else if tokens[i].revoked then Keep
      else Replace(tokens[i := tokens[i].(revoked := true, revokedAt := Some(now))])
    case Delete(id) =>
      var i := FirstId(tokens, id, 0);
      if i == |tokens| then Refuse else Replace(tokens[..i] + tokens[i + 1..])
    case Reload => Keep
    case UseWeb(id) =>
      var i := FirstId(tokens, id, 0);
      if i == |tokens| then Refuse else Replace(tokens[i := tokens[i].(usedCount := tokens[i].usedCount + 1)])
  }

  function Apply(job: Job, c: Content): Verdict<Content> {
    match job
    case Consume(token, now) => ConsumeBody(c, token, now)
    case IssueProxy(record) => IssueBody(c, record)
    case _ =>
      match ReadWeb(c)
      case None => Refuse
      case Some(tokens) =>
        match WebBody(tokens, job)
        case Replace(next) => Replace(WebArray(next))
        case Keep => Keep
        case Refuse => Refuse
  }

  ghost function Jobs(job: nat -> Job): Bodies<Content> {
    (w: nat, c) => Apply(job(w), c)
  }

  // ---- What consuming means ----

  ghost predicate Usable(r: ProxyToken, token: string, now: int) {
    r.token == token && r.consumedAt == ZERO && (r.expiresAt == ZERO || now <= r.expiresAt)
  }

  /** `c` is tls-proxy's object, taken apart at its first record of the token. */
  ghost predicate TokenAt(c: Content, token: string, front: seq<ProxyToken>, r: ProxyToken, back: seq<ProxyToken>) {
    c == ProxyObject(front + [r] + back) && r.token == token && forall k :: 0 <= k < |front| ==> front[k].token != token
  }

  /** A consumption succeeds exactly when the first record of the token is unconsumed and unexpired; that
      record alone changes, in its time of consumption and its count, and every other one keeps its value and
      its place. */
  lemma ConsumeExactly(c: Content, token: string, now: int, after: Content)
    ensures ConsumeBody(c, token, now) == Replace(after) <==>
            exists front, r, back ::
              && TokenAt(c, token, front, r, back) && Usable(r, token, now)
              && after == ProxyObject(front + [r.(consumedAt := now, usedCount := r.usedCount + 1)] + back)
  {
    if ConsumeBody(c, token, now) == Replace(after) {
      ConsumeSplits(c, token, now);
      var i := FirstToken(c.proxy, token, 0);
      assert TokenAt(c, token, c.proxy[..i], c.proxy[i], c.proxy[i + 1..]);
    }
    forall front, r, back |
      && TokenAt(c, token, front, r, back) && Usable(r, token, now)
      && after == ProxyObject(front + [r.(consumedAt := now, usedCount := r.usedCount + 1)] + back)
      ensures ConsumeBody(c, token, now) == Replace(after)
    {
      TokenIsFirst(c, token, front, r, back);
      UpdateParts(c.proxy, |front|, Spend(r, now));
    }
  }

  lemma TokenIsFirst(c: Content, token: string, front: seq<ProxyToken>, r: ProxyToken, back: seq<ProxyToken>)
    requires TokenAt(c, token, front, r, back)
    ensures c == ProxyObject(front + [r] + back)
    ensures FirstToken(c.proxy, token, 0) == |front| < |c.proxy| && c.proxy[|front|] == r
    ensures c.proxy[..|front|] == front && c.proxy[|front| + 1..] == back
  {
    var proxy := c.proxy;
    assert proxy[|front|] == r && forall k :: 0 <= k < |front| ==> proxy[k] == front[k];
    FirstTokenIs(proxy, token, |front|);
    assert proxy[..|front|] == front && proxy[|front| + 1..] == back;
  }

  lemma ConsumeSplits(c: Content, token: string, now: int)
    requires ConsumeBody(c, token, now).Replace?
    ensures c.ProxyObject?
    ensures var i := FirstToken(c.proxy, token, 0);
            && i < |c.proxy| && c.proxy == c.proxy[..i] + [c.proxy[i]] + c.proxy[i + 1..]
            && Usable(c.proxy[i], token, now)
            && ConsumeBody(c, token, now).next == ProxyObject(c.proxy[..i] + [Spend(c.proxy[i], now)] + c.proxy[i + 1..])
  {
    var i := FirstToken(c.proxy, token, 0);
    assert c.proxy[i := Spend(c.proxy[i], now)] == c.proxy[..i] + [Spend(c.proxy[i], now)] + c.proxy[i + 1..];
  }

  // ---- What the other operations mean ----

  /** `c` is webui's list, taken apart at its first record of the ID. */
  ghost predicate SplitAt(c: Content, id: string, front: seq<WebToken>, r: WebToken, back: seq<WebToken>) {
    c == WebArray(front + [r] + back) && r.id == id && forall k :: 0 <= k < |front| ==> front[k].id != id
  }

  lemma SplitIsFirst(c: Content, id: string, front: seq<WebToken>, r: WebToken, back: seq<WebToken>)
    requires SplitAt(c, id, front, r, back)
    ensures c == WebArray(front + [r] + back)
    ensures FirstId(c.web, id, 0) == |front| < |c.web| && c.web[|front|] == r
    ensures c.web[..|front|] == front && c.web[|front| + 1..] == back
  {
    var web := c.web;
    assert web[|front|] == r && forall k :: 0 <= k < |front| ==> web[k] == front[k];
    FirstIdIs(web, id, |front|);
    assert web[..|front|] == front && web[|front| + 1..] == back;
  }

  lemma SplitOfFirst(c: Content, id: string)
    requires c.WebArray? && FirstId(c.web, id, 0) < |c.web|
    ensures var i := FirstId(c.web, id, 0); SplitAt(c, id, c.web[..i], c.web[i], c.web[i + 1..])
  {
    var i := FirstId(c.web, id, 0);
    assert c.web == c.web[..i] + [c.web[i]] + c.web[i + 1..];
  }

  /** A revocation changes the first record of the ID, and only if it is not revoked yet: it is revoked then,
      with its time, and all else stays. */
  lemma RevokeExactly(c: Content, id: string, now: int, after: Content)
    ensures Apply(Revoke(id, now), c) == Replace(after) <==>
            exists front, r, back ::
              && SplitAt(c, id, front, r, back) && !r.revoked
              && after == WebArray(front + [r.(revoked := true, revokedAt := Some(now))] + back)
  {
    hide SplitAt;
    if Apply(Revoke(id, now), c) == Replace(after) {
      SplitOfFirst(c, id);
      var i := FirstId(c.web, id, 0);
      UpdateParts(c.web, i, c.web[i].(revoked := true, revokedAt := Some(now)));
    }
    forall front, r, back |
      && SplitAt(c, id, front, r, back) && !r.revoked
      && after == WebArray(front + [r.(revoked := true, revokedAt := Some(now))] + back)
      ensures Apply(Revoke(id, now), c) == Replace(after)
    {
      SplitIsFirst(c, id, front, r, back);
      UpdateParts(c.web, |front|, r.(revoked := true, revokedAt := Some(now)));
    }
  }

  /** It has nothing to do exactly if that record is revoked already, and is refused exactly if there is no
      such record or the file is not webui's. */
  lemma RevokeOtherwise(c: Content, id: string, now: int)
    ensures Apply(Revoke(id, now), c) == Keep <==> exists front, r, back :: SplitAt(c, id, front, r, back) && r.revoked
    ensures Apply(Revoke(id, now), c) == Refuse <==> !exists front, r, back :: SplitAt(c, id, front, r, back)
  {
    if c.WebArray? && FirstId(c.web, id, 0) < |c.web| { SplitOfFirst(c, id); }
    forall front, r, back | SplitAt(c, id, front, r, back)
      ensures c.WebArray? && FirstId(c.web, id, 0) < |c.web| && c.web[FirstId(c.web, id, 0)] == r
    {
      SplitIsFirst(c, id, front, r, back);
    }
  }

  /** A deletion takes exactly the first record of the ID out. */
  lemma DeleteExactly(c: Content, id: string, after: Content)
    ensures Apply(Delete(id), c) == Replace(after) <==>
            exists front, r, back :: SplitAt(c, id, front, r, back) && after == WebArray(front + back)
  {
    hide SplitAt;
    if Apply(Delete(id), c) == Replace(after) {
      SplitOfFirst(c, id);
    }
    forall front, r, back | SplitAt(c, id, front, r, back) && after == WebArray(front + back)
      ensures Apply(Delete(id), c) == Replace(after)
    {
      SplitIsFirst(c, id, front, r, back);
    }
  }

  /** So where IDs are unique the record is gone. */
  lemma DeletedIsGone(c: Content, id: string)
    requires c.WebArray? && forall i, j :: 0 <= i < j < |c.web| ==> c.web[i].id != c.web[j].id
    ensures Apply(Delete(id), c).Replace? ==> NoSuchId(Apply(Delete(id), c).next, id)
  {
    var i := FirstId(c.web, id, 0);
    if i < |c.web| {
      var left := c.web[..i] + c.web[i + 1..];
      assert forall k :: 0 <= k < |left| ==> left[k] == c.web[if k < i then k else k + 1];
    }
  }

  /** A creation appends, a missing or an empty file counting as an empty list, and is refused exactly if the
      file holds something else; a reload changes nothing. */
  lemma CreateExactly(c: Content, record: WebToken)
    ensures c.WebArray? ==> Apply(Create(record), c) == Replace(WebArray(c.web + [record]))
    ensures c == Missing || c == Blank ==> Apply(Create(record), c) == Replace(WebArray([record]))
    ensures c.ProxyObject? || c == Garbled ==> Apply(Create(record), c) == Refuse
    ensures !Apply(Reload, c).Replace?
  {
    assert [] + [record] == [record];
  }

  // ---- Revoked is revoked ----

  /** The first record of the ID is revoked. */
  ghost predicate IsRevoked(c: Content, id: string) {
    c.WebArray? && FirstId(c.web, id, 0) < |c.web| && c.web[FirstId(c.web, id, 0)].revoked
  }

  /** Nothing but its deletion takes a revocation back. */
  lemma RevokedStays(c: Content, id: string, job: Job)
    requires IsRevoked(c, id) && job != Delete(id)
    ensures Apply(job, c).Replace? ==> IsRevoked(Apply(job, c).next, id)
  {
    hide FirstId;
    var i := FirstId(c.web, id, 0);
    match job
    case Delete(other) =>
      var d := FirstId(c.web, other, 0);
      if d < |c.web| { FirstIdAfterCut(c.web, d, id); }
    case Create(record) => FirstIdIs(c.web + [record], id, i);
    case Revoke(_, _) => if Apply(job, c).Replace? { FirstIdIs(Apply(job, c).next.web, id, i); }
    case UseWeb(_) => if Apply(job, c).Replace? { FirstIdIs(Apply(job, c).next.web, id, i); }
    case Consume(_, _) =>
    case IssueProxy(_) =>
    case Reload =>
  }

  /** An accepted revocation leaves the record revoked, whether it changed anything or not. */
  lemma RevokeRevokes(c: Content, id: string, now: int)
    requires Apply(Revoke(id, now), c) != Refuse
    ensures Apply(Revoke(id, now), c).Replace? ==> IsRevoked(Apply(Revoke(id, now), c).next, id)
    ensures Apply(Revoke(id, now), c).Keep? ==> IsRevoked(c, id)
  {
    if Apply(Revoke(id, now), c).Replace? {
      FirstIdIs(Apply(Revoke(id, now), c).next.web, id, FirstId(c.web, id, 0));
    }
  }

  lemma {:induction false} RevokedAlong(job: nat -> Job, init: Content, order: seq<nat>, i: nat, j: nat, id: string)
    requires i < j <= |order| && job(order[i]).Revoke? && job(order[i]).id == id
    requires Apply(job(order[i]), Serial(Jobs(job), init, order[..i])) != Refuse
    requires forall k :: i < k < j ==> job(order[k]) != Delete(id)
    ensures IsRevoked(Serial(Jobs(job), init, order[..j]), id)
    decreases j
  {
    hide Apply, IsRevoked;
    var before := Serial(Jobs(job), init, order[..j - 1]);
    assert order[..j][..j - 1] == order[..j - 1] && order[..j][j - 1] == order[j - 1];
    if j == i + 1 {
      RevokeRevokes(before, id, job(order[i]).now);
    } else {
      RevokedAlong(job, init, order, i, j - 1, id);
      RevokedStays(before, id, job(order[j - 1]));
    }
  }

  /** In every run, whatever the interleaving, the crashes and the failed writes: a record whose revocation was
      told success is revoked from then on, until it is deleted. */
  lemma RevokedForGood(job: nat -> Job, init: Content, s: State<Content>, events: seq<Event>, w: nat)
    requires Initial(s, init) && Run(Jobs(job), s, events).Some? && job(w).Revoke?
    ensures var t := Run(Jobs(job), s, events).value;
            w in t.phases && (t.phases[w] == Done(Stored) || t.phases[w] == Done(Unchanged)) ==>
              exists i: nat :: i < |t.decided| && t.decided[i] == w &&
                forall j: nat {:trigger t.decided[..j]} :: i < j <= |t.decided| && (forall k :: i < k < j ==> job(t.decided[k]) != Delete(job(w).id)) ==>
                  IsRevoked(Serial(Jobs(job), init, t.decided[..j]), job(w).id)
    ensures Run(Jobs(job), s, events).value.file == Serial(Jobs(job), init, Run(Jobs(job), s, events).value.decided)
  {
    hide Run, Apply, IsRevoked, Serial;
    Serialisable(Jobs(job), init, s, events);
    var t := Run(Jobs(job), s, events).value;
    if w in t.phases && (t.phases[w] == Done(Stored) || t.phases[w] == Done(Unchanged)) {
      var i := PlaceOfSuccess(job, init, t.decided, w, t.phases[w].outcome);
      forall j: nat | i < j <= |t.decided| && (forall k :: i < k < j ==> job(t.decided[k]) != Delete(job(w).id))
        ensures IsRevoked(Serial(Jobs(job), init, t.decided[..j]), job(w).id)
      {
        RevokedAlong(job, init, t.decided, i, j, job(w).id);
      }
    }
  }

  lemma PlaceOfSuccess(job: nat -> Job, init: Content, order: seq<nat>, w: nat, outcome: Outcome) returns (i: nat)
    requires Told(Jobs(job), init, order, w, outcome) && (outcome == Stored || outcome == Unchanged)
    ensures i < |order| && order[i] == w && Apply(job(w), Serial(Jobs(job), init, order[..i])) != Refuse
  {
    hide Serial, Apply;
    var body := Jobs(job);
    i :| 0 <= i < |order| && order[i] == w && outcome == OutcomeOf(body(w, Serial(body, init, order[..i])));
  }

  // ---- Single use ----

  /** The first record of the token has been consumed. */
  ghost predicate Spent(c: Content, token: string) {
    && c.ProxyObject?
    && var i := FirstToken(c.proxy, token, 0);
       i < |c.proxy| && c.proxy[i].consumedAt != ZERO
  }

  ghost predicate RealClock(job: nat -> Job) {
    forall w: nat :: job(w).Consume? ==> job(w).now != ZERO
  }

  lemma FirstTokenIs(tokens: seq<ProxyToken>, token: string, i: nat)
    requires i < |tokens| && tokens[i].token == token && forall k :: 0 <= k < i ==> tokens[k].token != token
    ensures FirstToken(tokens, token, 0) == i
  {
  }

  lemma ConsumeSpends(c: Content, token: string, now: int)
    requires ConsumeBody(c, token, now).Replace? && now != ZERO
    ensures Spent(ConsumeBody(c, token, now).next, token)
  {
    var tokens := ReadProxy(c).value;
    FirstTokenIs(ConsumeBody(c, token, now).next.proxy, token, FirstToken(tokens, token, 0));
  }

  /** No body un-spends a token: not another consumption, not an issuer, not webui. */
  lemma SpentStays(c: Content, token: string, job: Job)
    requires Spent(c, token) && (job.Consume? ==> job.now != ZERO)
    ensures job.Consume? && job.token == token ==> Apply(job, c) == Refuse
    ensures Apply(job, c).Replace? ==> Spent(Apply(job, c).next, token)
  {
    var i := FirstToken(c.proxy, token, 0);
    if Apply(job, c).Replace? {
      FirstTokenIs(Apply(job, c).next.proxy, token, i);
    }
  }

  lemma {:induction false} SpentAlong(job: nat -> Job, init: Content, order: seq<nat>, i: nat, j: nat, token: string)
    requires RealClock(job) && i < j <= |order|
    requires job(order[i]).Consume? && job(order[i]).token == token
    requires Apply(job(order[i]), Serial(Jobs(job), init, order[..i])).Replace?
    ensures Spent(Serial(Jobs(job), init, order[..j]), token)
    decreases j
  {
    var before := Serial(Jobs(job), init, order[..j - 1]);
    assert order[..j][..j - 1] == order[..j - 1] && order[..j][j - 1] == order[j - 1];
    if j == i + 1 {
      ConsumeSpends(before, token, job(order[i]).now);
    } else {
      SpentAlong(job, init, order, i, j - 1, token);
      SpentStays(before, token, job(order[j - 1]));
    }
  }

  /** Single use: in every run, whatever the interleaving, the crashes, the failed writes and the records
      in the file, at most one call that consumes a given token string returns success. */
  lemma SingleUse(job: nat -> Job, init: Content, s: State<Content>, events: seq<Event>, v: nat, w: nat)
    requires RealClock(job) && Initial(s, init) && Run(Jobs(job), s, events).Some?
    requires job(v).Consume? && job(w).Consume? && job(v).token == job(w).token
    ensures var t := Run(Jobs(job), s, events).value;
            && v in t.phases && w in t.phases && t.phases[v] == Done(Stored) && t.phases[w] == Done(Stored)
            ==> v == w
  {
    hide Run, Apply;
    Serialisable(Jobs(job), init, s, events);
    var t := Run(Jobs(job), s, events).value;
    if v in t.phases && w in t.phases && t.phases[v] == Done(Stored) && t.phases[w] == Done(Stored) {
      StoredOnce(job, init, t.decided, v, w);
    }
  }

  lemma StoredOnce(job: nat -> Job, init: Content, order: seq<nat>, v: nat, w: nat)
    requires RealClock(job) && Told(Jobs(job), init, order, v, Stored) && Told(Jobs(job), init, order, w, Stored)
    requires job(v).Consume? && job(w).Consume? && job(v).token == job(w).token
    ensures v == w
  {
    hide Serial;
    var body := Jobs(job);
    var i :| 0 <= i < |order| && order[i] == v && Stored == OutcomeOf(body(v, Serial(body, init, order[..i])));
    var j :| 0 <= j < |order| && order[j] == w && Stored == OutcomeOf(body(w, Serial(body, init, order[..j])));
    OneBefore(job, init, order, i, j);
    OneBefore(job, init, order, j, i);
  }

  lemma OneBefore(job: nat -> Job, init: Content, order: seq<nat>, i: nat, j: nat)
    requires RealClock(job) && i < |order| && j < |order|
    requires job(order[i]).Consume? && job(order[j]).Consume? && job(order[i]).token == job(order[j]).token
    requires Apply(job(order[i]), Serial(Jobs(job), init, order[..i])).Replace?
    requires Apply(job(order[j]), Serial(Jobs(job), init, order[..j])).Replace?
    ensures i >= j
  {
    hide Apply, Serial;
    if i < j {
      SpentAlong(job, init, order, i, j, job(order[i]).token);
      SpentStays(Serial(Jobs(job), init, order[..j]), job(order[i]).token, job(order[j]));
    }
  }

  // ---- Two schemas on one path ----

  /** Contents tls-proxy finds no token in. */
  ghost predicate NoProxyTokens(c: Content) {
    c == Missing || c == Blank || c.WebArray? || c.Garbled?
  }

  lemma {:induction false} NeverProxy(job: nat -> Job, init: Content, order: seq<nat>)
    requires NoProxyTokens(init) && forall w: nat :: !job(w).IssueProxy?
    ensures NoProxyTokens(Serial(Jobs(job), init, order))
    decreases |order|
  {
    if order != [] { NeverProxy(job, init, order[..|order| - 1]); }
  }

  /** As the code stands, tokens created in webui cannot be consumed: starting without a tls-proxy token
      object, no run of webui operations and consumptions has a successful consumption. */
  lemma WebTokensAreNeverConsumed(job: nat -> Job, init: Content, s: State<Content>, events: seq<Event>, w: nat)
    requires NoProxyTokens(init) && forall v: nat :: !job(v).IssueProxy?
    requires Initial(s, init) && Run(Jobs(job), s, events).Some? && job(w).Consume?
    ensures var t := Run(Jobs(job), s, events).value; w in t.phases ==> t.phases[w] != Done(Stored)
  {
    hide Run;
    Serialisable(Jobs(job), init, s, events);
    var t := Run(Jobs(job), s, events).value;
    forall i | 0 <= i < |t.decided|
      ensures NoProxyTokens(Serial(Jobs(job), init, t.decided[..i]))
    {
      NeverProxy(job, init, t.decided[..i]);
    }
  }

  /** And the other way round: a tls-proxy token object is never overwritten by webui. */
  lemma WebLeavesProxyObject(job: Job, c: Content)
    requires c.ProxyObject? && !job.Consume? && !job.IssueProxy?
    ensures Apply(job, c) == Refuse
  {
  }

  // ---- Use counts survive webui ----

  ghost function Uses(c: Content, id: string): Option<int> {
    if c.WebArray? && FirstId(c.web, id, 0) < |c.web| then Some(c.web[FirstId(c.web, id, 0)].usedCount) else None
  }

  ghost function UseCount(job: nat -> Job, order: seq<nat>, id: string): nat {
    if order == [] then 0
    else UseCount(job, order[..|order| - 1], id) + if job(order[|order| - 1]) == UseWeb(id) then 1 else 0
  }

  lemma FirstIdIs(tokens: seq<WebToken>, id: string, i: nat)
    requires i < |tokens| && tokens[i].id == id && forall k :: 0 <= k < i ==> tokens[k].id != id
    ensures FirstId(tokens, id, 0) == i
  {
  }

  lemma FirstIdAfterCut(tokens: seq<WebToken>, d: nat, id: string)
    requires d < |tokens| && tokens[d].id != id && FirstId(tokens, id, 0) < |tokens|
    ensures var left, i := tokens[..d] + tokens[d + 1..], FirstId(tokens, id, 0);
            var j := FirstId(left, id, 0);
            j < |left| && left[j] == tokens[i]
  {
    var left, i := tokens[..d] + tokens[d + 1..], FirstId(tokens, id, 0);
    assert forall k :: 0 <= k < |left| ==> left[k] == tokens[if k < d then k else k + 1];
    FirstIdIs(left, id, if d < i then i - 1 else i);
  }

  lemma DeleteOther(c: Content, id: string, other: string)
    requires Uses(c, id).Some? && other != id
    ensures Apply(Delete(other), c).Replace? ==> Uses(Apply(Delete(other), c).next, id) == Uses(c, id)
    ensures !Apply(Delete(other), c).Keep?
  {
    hide FirstId;
    var d := FirstId(c.web, other, 0);
    if d < |c.web| { FirstIdAfterCut(c.web, d, id); }
  }

  lemma OneJobUses(job: Job, c: Content, id: string)
    requires Uses(c, id).Some? && job != Delete(id)
    ensures match Apply(job, c)
            case Replace(next) => Uses(next, id) == Some(Uses(c, id).value + if job == UseWeb(id) then 1 else 0)
            case Keep => job != UseWeb(id)
            case Refuse => job != UseWeb(id)
  {
    var i := FirstId(c.web, id, 0);
    match job
    case Delete(other) => DeleteOther(c, id, other);
    case Consume(_, _) =>
    case IssueProxy(_) =>
    case Reload =>
    case Create(record) => FirstIdIs(c.web + [record], id, i);
    case Revoke(_, _) => if Apply(job, c).Replace? { FirstIdIs(Apply(job, c).next.web, id, i); }
    case UseWeb(_) => if Apply(job, c).Replace? { FirstIdIs(Apply(job, c).next.web, id, i); }
  }

  /** No webui operation loses a use that another lock holder recorded: as long as the record is not
      deleted, its count is its first count plus the recorded uses, in every serial order. */
  lemma {:induction false} UsesAreKept(job: nat -> Job, init: Content, order: seq<nat>, id: string)
    requires Uses(init, id).Some? && forall k :: 0 <= k < |order| ==> job(order[k]) != Delete(id)
    ensures Uses(Serial(Jobs(job), init, order), id) == Some(Uses(init, id).value + UseCount(job, order, id))
    decreases |order|
  {
    hide Uses, Apply;
    if order != [] {
      var front := order[..|order| - 1];
      UsesAreKept(job, init, front, id);
      OneJobUses(job(order[|order| - 1]), Serial(Jobs(job), init, front), id);
    }
  }

  lemma {:induction false} SerialSplit(job: nat -> Job, init: Content, order: seq<nat>, m: nat)
    requires m <= |order|
    ensures Serial(Jobs(job), init, order) == Serial(Jobs(job), Serial(Jobs(job), init, order[..m]), order[m..])
    decreases |order|
  {
    hide Apply;
    if m == |order| {
      assert order[..m] == order;
    } else {
      var front := order[..|order| - 1];
      SerialSplit(job, init, front, m);
      assert front[..m] == order[..m] && order[m..][..|order[m..]| - 1] == front[m..];
    }
  }

  /** No record has this ID. */
  ghost predicate NoSuchId(c: Content, id: string) {
    c.WebArray? ==> forall k :: 0 <= k < |c.web| ==> c.web[k].id != id
  }

  lemma AbsentAfterCut(tokens: seq<WebToken>, d: nat, id: string)
    requires d < |tokens| && NoSuchId(WebArray(tokens), id)
    ensures NoSuchId(WebArray(tokens[..d] + tokens[d + 1..]), id)
  {
    var left := tokens[..d] + tokens[d + 1..];
    assert forall k :: 0 <= k < |left| ==> left[k] == tokens[if k < d then k else k + 1];
  }

  lemma AbsentAfterUpdate(tokens: seq<WebToken>, i: nat, t: WebToken, id: string)
    requires i < |tokens| && NoSuchId(WebArray(tokens), id) && t.id == tokens[i].id
    ensures NoSuchId(WebArray(tokens[i := t]), id)
  {
  }

  /** Only a creation brings an ID in. */
  lemma StaysAbsent(job: Job, c: Content, id: string)
    requires NoSuchId(c, id) && !(job.Create? && job.record'.id == id)
    ensures Apply(job, c).Replace? ==> NoSuchId(Apply(job, c).next, id)
  {
    hide FirstId, FirstToken;
    match job
    case Delete(other) => OtherAbsent(job, c, id);
    case Revoke(_, _) => OtherAbsent(job, c, id);
    case UseWeb(_) => OtherAbsent(job, c, id);
    case Consume(_, _) =>
    case IssueProxy(_) =>
    case Create(_) =>
    case Reload =>
  }

  lemma OtherAbsent(job: Job, c: Content, id: string)
    requires NoSuchId(c, id) && (job.Delete? || job.Revoke? || job.UseWeb?)
    ensures Apply(job, c).Replace? ==> NoSuchId(Apply(job, c).next, id)
  {
    hide FirstId, NoSuchId;
    if c.WebArray? && FirstId(c.web, job.id, 0) < |c.web| {
      var i := FirstId(c.web, job.id, 0);
      var t := c.web[i];
      AbsentAfterCut(c.web, i, id);
      if job.Revoke? { AbsentAfterUpdate(c.web, i, t.(revoked := true, revokedAt := Some(job.now)), id); }
      AbsentAfterUpdate(c.web, i, t.(usedCount := t.usedCount + 1), id);
    }
  }

  lemma {:induction false} AbsentBefore(job: nat -> Job, init: Content, order: seq<nat>, id: string)
    requires NoSuchId(init, id) && forall k :: 0 <= k < |order| ==> !(job(order[k]).Create? && job(order[k]).record'.id == id)
    ensures NoSuchId(Serial(Jobs(job), init, order), id)
    decreases |order|
  {
    hide Apply, NoSuchId;
    if order != [] {
      var front := order[..|order| - 1];
      AbsentBefore(job, init, front, id);
      StaysAbsent(job(order[|order| - 1]), Serial(Jobs(job), init, front), id);
    }
  }

  lemma CreatedCount(c: Content, record: WebToken)
    requires NoSuchId(c, record.id) && Apply(Create(record), c).Replace?
    ensures Uses(Apply(Create(record), c).next, record.id) == Some(record.usedCount)
  {
    var tokens := ReadWeb(c).value;
    FirstIdIs(tokens + [record], record.id, |tokens|);
  }

  /** A record created at place `m` of a serial order counts from its creation. */
  lemma UsesOfCreated(job: nat -> Job, init: Content, order: seq<nat>, m: nat, record: WebToken)
    requires m < |order| && job(order[m]) == Create(record)
    requires NoSuchId(Serial(Jobs(job), init, order[..m]), record.id)
    requires Apply(job(order[m]), Serial(Jobs(job), init, order[..m])).Replace?
    requires forall k :: m < k < |order| ==> job(order[k]) != Delete(record.id)
    ensures Uses(Serial(Jobs(job), init, order), record.id) ==
            Some(record.usedCount + UseCount(job, order[m + 1..], record.id))
  {
    hide Uses, Apply, NoSuchId, UseCount;
    var before := Serial(Jobs(job), init, order[..m]);
    assert order[..m + 1][..m] == order[..m] && order[..m + 1][m] == order[m];
    CreatedCount(before, record);
    SerialSplit(job, init, order, m + 1);
    UsesAreKept(job, Serial(Jobs(job), init, order[..m + 1]), order[m + 1..], record.id);
  }

  /** In every run: a token whose creation was told success, under an ID that nobody else uses, has been
      counted exactly since then. */
  lemma UsesOfCreatedInRuns(job: nat -> Job, init: Content, s: State<Content>, events: seq<Event>, w: nat, record: WebToken)
    requires Initial(s, init) && Run(Jobs(job), s, events).Some?
    requires job(w) == Create(record) && NoSuchId(init, record.id)
    requires forall v: nat :: v != w ==> !(job(v).Create? && job(v).record'.id == record.id)
    requires forall v: nat :: job(v) != Delete(record.id)
    ensures var t := Run(Jobs(job), s, events).value;
            w in t.phases && t.phases[w] == Done(Stored) ==>
              exists m: nat :: m < |t.decided| && t.decided[m] == w &&
                Uses(t.file, record.id) == Some(record.usedCount + UseCount(job, t.decided[m + 1..], record.id))
  {
    hide Run, Apply, Uses, NoSuchId, UseCount;
    Serialisable(Jobs(job), init, s, events);
    var t := Run(Jobs(job), s, events).value;
    if w in t.phases && t.phases[w] == Done(Stored) {
      var m := PlaceOfStored(job, init, t.decided, w);
      AbsentBefore(job, init, t.decided[..m], record.id);
      UsesOfCreated(job, init, t.decided, m, record);
    }
  }

  lemma PlaceOfStored(job: nat -> Job, init: Content, order: seq<nat>, w: nat) returns (m: nat)
    requires Told(Jobs(job), init, order, w, Stored) && Distinct(order)
    ensures m < |order| && order[m] == w && w !in order[..m]
    ensures Apply(job(w), Serial(Jobs(job), init, order[..m])).Replace?
  {
    hide Serial, Apply;
    var body := Jobs(job);
    m :| 0 <= m < |order| && order[m] == w && Stored == OutcomeOf(body(w, Serial(body, init, order[..m])));
  }

  /** The same for every run of the protocol. */
  lemma UsesAreKeptInRuns(job: nat -> Job, init: Content, s: State<Content>, events: seq<Event>, id: string)
    requires Initial(s, init) && Run(Jobs(job), s, events).Some? && Uses(init, id).Some?
    requires forall w: nat :: job(w) != Delete(id)
    ensures var t := Run(Jobs(job), s, events).value;
            Uses(t.file, id) == Some(Uses(init, id).value + UseCount(job, t.decided, id))
  {
    hide Run, Apply, Uses;
    Serialisable(Jobs(job), init, s, events);
    UsesAreKept(job, init, Run(Jobs(job), s, events).value.decided, id);
  }
}
