/** Any number of workers, each running one read-modify-write body on one file under the advisory lock,
    interleaved arbitrarily and stopped anywhere. */
module LockedFile {
  import opened Text

  /** What a body decides on the contents it reads: new contents, success without a write, or an error. */
  datatype Verdict<F> = Replace(next: F) | Keep | Refuse

  datatype Outcome = Stored | Unchanged | Refused | ReadFailed | WriteFailed | LockTimeout | LockBroken | Crashed

  datatype Phase<F> =
    | Trying                     // about to call flock
    | Waiting                    // flock said busy
    | Entered                    // lock held, file not read yet
    | Seen(content: F)           // lock held, contents in memory
    | Leaving(outcome: Outcome)  // lock held, body finished
    | Done(outcome: Outcome)

  /** `body(w, c)` is the verdict of worker `w` on contents `c`. */
  type Bodies<!F> = (nat, F) -> Verdict<F>

  /** `decided` lists the workers whose bodies reached their verdict's effect, in that order. */
  datatype State<F> = State(file: F, holder: Option<nat>, phases: map<nat, Phase<F>>, decided: seq<nat>)

  datatype Event =
    | Acquire(w: nat) | Busy(w: nat) | Sleep(w: nat) | TimeOut(w: nat) | Break(w: nat)
    | Read(w: nat) | FailRead(w: nat)
    | Rename(w: nat) | FailWrite(w: nat) | Return(w: nat)
    | Release(w: nat) | Crash(w: nat)

  ghost predicate Inside<F>(p: Phase<F>) {
    p.Entered? || p.Seen? || p.Leaving?
  }

  ghost function Move<F>(s: State<F>, w: nat, p: Phase<F>): State<F> {
    s.(phases := s.phases[w := p])
  }

  /** One step of one worker; None where the protocol does not allow it. */
  ghost function Step<F>(body: Bodies<F>, s: State<F>, e: Event): Option<State<F>> {
    var w := e.w;
    if w !in s.phases then None
    else
      var p := s.phases[w];
      match e
      case Acquire(_) =>
        if p.Trying? && s.holder == None then Some(Move(s, w, Entered).(holder := Some(w))) else None
      case Busy(_) =>
        if p.Trying? && s.holder != None then Some(Move(s, w, Waiting)) else None
      case Sleep(_) =>
        if p.Waiting? then Some(Move(s, w, Trying)) else None
      case TimeOut(_) =>
        if p.Waiting? then Some(Move(s, w, Done(LockTimeout))) else None
      case Break(_) =>
        if p.Trying? then Some(Move(s, w, Done(LockBroken))) else None
      case Read(_) =>
        if p.Entered? then Some(Move(s, w, Seen(s.file))) else None
      case FailRead(_) =>
        if p.Entered? then Some(Move(s, w, Leaving(ReadFailed))) else None
      case Rename(_) =>
        if p.Seen? && body(w, p.content).Replace? then
          Some(Move(s, w, Leaving(Stored)).(file := body(w, p.content).next, decided := s.decided + [w]))
        else None
      case FailWrite(_) =>
        if p.Seen? && body(w, p.content).Replace? then Some(Move(s, w, Leaving(WriteFailed))) else None
      case Return(_) =>
        if p.Seen? && body(w, p.content).Keep? then
          Some(Move(s, w, Leaving(Unchanged)).(decided := s.decided + [w]))
        else if p.Seen? && body(w, p.content).Refuse? then
          Some(Move(s, w, Leaving(Refused)).(decided := s.decided + [w]))
        else None
      case Release(_) =>
        if p.Leaving? then Some(Move(s, w, Done(p.outcome)).(holder := None)) else None
      case Crash(_) =>
        if p.Done? then None
        else Some(Move(s, w, Done(Crashed)).(holder := if s.holder == Some(w) then None else s.holder))
  }

  ghost predicate Initial<F>(s: State<F>, init: F) {
    s.file == init && s.holder == None && s.decided == [] && forall w :: w in s.phases ==> s.phases[w] == Trying
  }

  /** The state after a run, or None when some step of it is not allowed. */
  ghost function Run<F>(body: Bodies<F>, s: State<F>, events: seq<Event>): Option<State<F>>
    decreases |events|
  {
    if events == [] then Some(s)
    else
      match Run(body, s, events[..|events| - 1])
      case None => None
      case Some(t) => Step(body, t, events[|events| - 1])
  }

  // ---- The serial reference ----

  ghost function Effect<F>(body: Bodies<F>, w: nat, c: F): F {
    match body(w, c)
    case Replace(next) => next
    case Keep => c
    case Refuse => c
  }

  /** Running the bodies one after the other. */
  ghost function Serial<F>(body: Bodies<F>, init: F, order: seq<nat>): F
    decreases |order|
  {
    if order == [] then init
    else Effect(body, order[|order| - 1], Serial(body, init, order[..|order| - 1]))
  }

  ghost function OutcomeOf<F>(v: Verdict<F>): Outcome {
    match v
    case Replace(_) => Stored
    case Keep => Unchanged
    case Refuse => Refused
  }

  /** What a finished worker may have been told, given the serial order. */
  ghost predicate Told<F>(body: Bodies<F>, init: F, decided: seq<nat>, w: nat, outcome: Outcome) {
    if outcome == Stored || outcome == Unchanged || outcome == Refused then
      exists i :: 0 <= i < |decided| && decided[i] == w &&
                  outcome == OutcomeOf(body(w, Serial(body, init, decided[..i])))
    else outcome == Crashed || w !in decided
  }

  ghost predicate Distinct(order: seq<nat>) {
    forall i, j :: 0 <= i < j < |order| ==> order[i] != order[j]
  }

  ghost predicate Inv<F>(body: Bodies<F>, init: F, s: State<F>) {
    && s.file == Serial(body, init, s.decided)
    && Distinct(s.decided)
    && (forall w :: w in s.decided ==> w in s.phases)
    && (s.holder.Some? ==> s.holder.value in s.phases)
    && (forall w :: w in s.phases ==> PhaseInv(body, init, s, w, s.phases[w]))
  }

  ghost predicate PhaseInv<F>(body: Bodies<F>, init: F, s: State<F>, w: nat, p: Phase<F>) {
    && (Inside(p) <==> s.holder == Some(w))
    && (p.Seen? ==> p.content == s.file)
    && (match p
        case Leaving(outcome) => outcome != Crashed && Told(body, init, s.decided, w, outcome)
        case Done(outcome) => Told(body, init, s.decided, w, outcome)
        case _ => w !in s.decided)
  }

  lemma ToldLater<F>(body: Bodies<F>, init: F, decided: seq<nat>, w: nat, outcome: Outcome, v: nat)
    requires Told(body, init, decided, w, outcome) && v != w
    ensures Told(body, init, decided + [v], w, outcome)
  {
    var longer := decided + [v];
    if outcome == Stored || outcome == Unchanged || outcome == Refused {
      var i :| 0 <= i < |decided| && decided[i] == w &&
               outcome == OutcomeOf(body(w, Serial(body, init, decided[..i])));
      assert longer[..i] == decided[..i] && longer[i] == w;
    }
  }

  lemma ToldNow<F>(body: Bodies<F>, init: F, decided: seq<nat>, w: nat)
    ensures Serial(body, init, decided + [w]) == Effect(body, w, Serial(body, init, decided))
    ensures Told(body, init, decided + [w], w, OutcomeOf(body(w, Serial(body, init, decided))))
  {
    var longer := decided + [w];
    assert longer[..|decided|] == decided && longer[|decided|] == w;
  }

  /** A step that decides keeps the invariant. */
  lemma DecideKeeps<F>(body: Bodies<F>, init: F, s: State<F>, e: Event, t: State<F>)
    requires Inv(body, init, s) && Step(body, s, e) == Some(t) && (e.Rename? || e.Return?)
    ensures Inv(body, init, t)
  {
    var w := e.w;
    hide Serial, Told;
    assert PhaseInv(body, init, s, w, s.phases[w]);
    ToldNow(body, init, s.decided, w);
    forall v | v in t.phases ensures PhaseInv(body, init, t, v, t.phases[v]) {
      assert PhaseInv(body, init, s, v, s.phases[v]);
      if v != w {
        match s.phases[v]
        case Done(o) => ToldLater(body, init, s.decided, v, o, w);
        case Leaving(o) => ToldLater(body, init, s.decided, v, o, w);
        case _ =>
      }
    }
  }

  /** Every other step leaves the file and the order alone. */
  lemma OtherKeeps<F>(body: Bodies<F>, init: F, s: State<F>, e: Event, t: State<F>)
    requires Inv(body, init, s) && Step(body, s, e) == Some(t) && !e.Rename? && !e.Return?
    ensures Inv(body, init, t)
  {
    hide Serial, Told;
    var w := e.w;
    assert PhaseInv(body, init, s, w, s.phases[w]);
    ToldEasily(body, init, s.decided, w);
    forall v | v in t.phases ensures PhaseInv(body, init, t, v, t.phases[v]) {
      assert PhaseInv(body, init, s, v, s.phases[v]);
    }
  }

  lemma ToldEasily<F>(body: Bodies<F>, init: F, decided: seq<nat>, w: nat)
    ensures Told(body, init, decided, w, Crashed)
    ensures w !in decided ==> forall o :: o == ReadFailed || o == WriteFailed || o == LockTimeout || o == LockBroken ==>
                              Told(body, init, decided, w, o)
  {
  }

  lemma {:induction false} RunKeeps<F>(body: Bodies<F>, init: F, s: State<F>, events: seq<Event>)
    requires Initial(s, init) && Run(body, s, events).Some?
    ensures Inv(body, init, Run(body, s, events).value)
    ensures Run(body, s, events).value.phases.Keys == s.phases.Keys
    decreases |events|
  {
    hide Inv, Step;
    if events == [] {
      InitialInv(body, s, init);
    } else {
      var front, e := events[..|events| - 1], events[|events| - 1];
      RunKeeps(body, init, s, front);
      var t := Run(body, s, front).value;
      var u := Run(body, s, events).value;
      SameWorkers(body, t, e);
      if e.Rename? || e.Return? { DecideKeeps(body, init, t, e, u); } else { OtherKeeps(body, init, t, e, u); }
    }
  }

  lemma InitialInv<F>(body: Bodies<F>, s: State<F>, init: F)
    requires Initial(s, init)
    ensures Inv(body, init, s)
  {
  }

  lemma SameWorkers<F>(body: Bodies<F>, s: State<F>, e: Event)
    requires Step(body, s, e).Some?
    ensures Step(body, s, e).value.phases.Keys == s.phases.Keys
  {
  }

  // ---- What every run guarantees ----

  /** Mutual exclusion: two workers are never inside the section together. */
  lemma MutualExclusion<F>(body: Bodies<F>, init: F, s: State<F>, events: seq<Event>, v: nat, w: nat)
    requires Initial(s, init) && Run(body, s, events).Some?
    ensures var t := Run(body, s, events).value;
            v in t.phases && w in t.phases && Inside(t.phases[v]) && Inside(t.phases[w]) ==> v == w
  {
    hide Run;
    RunKeeps(body, init, s, events);
    var t := Run(body, s, events).value;
    assert v in t.phases ==> PhaseInv(body, init, t, v, t.phases[v]);
    assert w in t.phases ==> PhaseInv(body, init, t, w, t.phases[w]);
  }

  /** Serialisability: at every moment of every run, with timeouts, failed writes and crashes anywhere,
      the file is what the decided bodies give when run one after the other, each worker at most once;
      and every worker that got an answer got the one its place in that order gives, while those that
      timed out or failed had no effect. */
  lemma Serialisable<F>(body: Bodies<F>, init: F, s: State<F>, events: seq<Event>)
    requires Initial(s, init) && Run(body, s, events).Some?
    ensures var t := Run(body, s, events).value;
            && t.file == Serial(body, init, t.decided) && Distinct(t.decided)
            && forall w :: w in t.phases && t.phases[w].Done? ==> Told(body, init, t.decided, w, t.phases[w].outcome)
  {
    hide Run, Serial, Told;
    RunKeeps(body, init, s, events);
    var t := Run(body, s, events).value;
    forall w | w in t.phases && t.phases[w].Done? ensures Told(body, init, t.decided, w, t.phases[w].outcome) {
      assert PhaseInv(body, init, t, w, t.phases[w]);
    }
  }

  /** The lock is never left behind: it is held exactly while some worker is inside. */
  lemma HeldWhileInside<F>(body: Bodies<F>, init: F, s: State<F>, events: seq<Event>)
    requires Initial(s, init) && Run(body, s, events).Some?
    ensures var t := Run(body, s, events).value;
            t.holder.Some? <==> exists w :: w in t.phases && Inside(t.phases[w])
  {
    hide Run, Serial, Told;
    RunKeeps(body, init, s, events);
    var t := Run(body, s, events).value;
    forall w | w in t.phases ensures Inside(t.phases[w]) <==> t.holder == Some(w) {
      assert PhaseInv(body, init, t, w, t.phases[w]);
    }
  }
}
