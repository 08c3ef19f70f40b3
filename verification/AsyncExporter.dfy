/** The bounded queue in front of a SIEM backend: senders that never block, two workers, and a closing
    call that waits for both. */
module AsyncExporter {
  import opened Text

  const QUEUE_CAP := 1000

  /** A worker waits for an entry, is inside the sender with one, offers its done signal, or has gone. */
  datatype Worker<E> = Idle | Sending(entry: E) | Offering | Gone

  datatype Closer = Open | Draining(received: nat) | Returned

  /** The queue and the goroutines; then what has happened so far: the entries accepted, those taken from
      the queue, and those the sender was called with and returned from, in these orders. */
  datatype State<E> = State(queue: seq<E>, first: Worker<E>, second: Worker<E>, closer: Closer,
                            accepted: seq<E>, taken: seq<E>, processed: seq<E>, dropped: seq<E>)

  datatype Event<E> = Send(entry: E) | Take(second: bool) | Finish(second: bool) | Leave(second: bool)
                    | Close | Collect(second: bool) | Return

  function At<E>(s: State<E>, second: bool): Worker<E> {
    if second then s.second else s.first
  }

  function Put<E>(s: State<E>, second: bool, w: Worker<E>): State<E> {
    if second then s.(second := w) else s.(first := w)
  }

  /** One step; None where it is not possible.  There is no `Send` once `Close` has been called. */
  function Step<E>(s: State<E>, e: Event<E>): Option<State<E>> {
    match e
    case Send(entry) =>
      if s.closer != Open then None
      else if |s.queue| < QUEUE_CAP then Some(s.(queue := s.queue + [entry], accepted := s.accepted + [entry]))
      else Some(s.(dropped := s.dropped + [entry]))
    case Take(w) =>
      if !At(s, w).Idle? || |s.queue| == 0 then None
      else Some(Put(s, w, Sending(s.queue[0])).(queue := s.queue[1..], taken := s.taken + [s.queue[0]]))
    case Finish(w) =>
      if !At(s, w).Sending? then None
      else Some(Put(s, w, Idle).(processed := s.processed + [At(s, w).entry]))
    case Leave(w) =>
      if !At(s, w).Idle? || |s.queue| != 0 || s.closer.Open? then None
      else Some(Put(s, w, Offering))
    case Close =>
      if s.closer != Open then None else Some(s.(closer := Draining(0)))
    case Collect(w) =>
      if !At(s, w).Offering? || !s.closer.Draining? || s.closer.received == 2 then None
      else Some(Put(s, w, Gone).(closer := Draining(s.closer.received + 1)))
    case Return =>
      if s.closer != Draining(2) then None else Some(s.(closer := Returned))
  }

  function Start<E>(): State<E> {
    State([], Idle, Idle, Open, [], [], [], [])
  }

  function Run<E>(s: State<E>, events: seq<Event<E>>): Option<State<E>>
    decreases |events|
  {
    if events == [] then Some(s)
    else
      match Run(s, events[..|events| - 1])
      case None => None
      case Some(t) => Step(t, events[|events| - 1])
  }

  // ---- The invariant ----

  function Held<E>(w: Worker<E>): multiset<E> {
    if w.Sending? then multiset{w.entry} else multiset{}
  }

  function InFlight<E>(s: State<E>): multiset<E> {
    Held(s.first) + Held(s.second)
  }

  function Ones(b: bool): nat {
    if b then 1 else 0
  }

  /** Every entry taken is processed or with a worker. */
  ghost predicate Balanced<E>(taken: seq<E>, processed: seq<E>, first: Worker<E>, second: Worker<E>) {
    multiset(taken) == multiset(processed) + Held(first) + Held(second)
  }

  /** Workers leave only a closed and empty queue, and the closer counts those it has heard of. */
  ghost predicate Controlled<E>(empty: bool, first: Worker<E>, second: Worker<E>, closer: Closer) {
    && (closer == Open ==> Works(first) && Works(second))
    && (!Works(first) || !Works(second) ==> empty)
    && (closer.Draining? ==> closer.received == Ones(first.Gone?) + Ones(second.Gone?))
    && (closer == Returned ==> first.Gone? && second.Gone?)
  }

  ghost predicate Inv<E>(s: State<E>) {
    && s.accepted == s.taken + s.queue
    && |s.queue| <= QUEUE_CAP
    && Balanced(s.taken, s.processed, s.first, s.second)
    && Controlled(|s.queue| == 0, s.first, s.second, s.closer)
  }

  predicate Works<E>(w: Worker<E>) {
    w.Idle? || w.Sending?
  }

  lemma SendKeeps<E>(s: State<E>, entry: E)
    requires Inv(s) && Step(s, Send(entry)).Some?
    ensures Inv(Step(s, Send(entry)).value)
  {
    hide Balanced;
    assert s.taken + (s.queue + [entry]) == s.taken + s.queue + [entry];
  }

  lemma TakeBalance<E>(taken: seq<E>, processed: seq<E>, first: Worker<E>, second: Worker<E>, x: E)
    requires Balanced(taken, processed, first, second)
    ensures first.Idle? ==> Balanced(taken + [x], processed, Sending(x), second)
    ensures second.Idle? ==> Balanced(taken + [x], processed, first, Sending(x))
  {
  }

  lemma TakeKeeps<E>(s: State<E>, w: bool)
    requires Inv(s) && Step(s, Take(w)).Some?
    ensures Inv(Step(s, Take(w)).value)
  {
    TakeBalance(s.taken, s.processed, s.first, s.second, s.queue[0]);
    hide Balanced, Held;
    TakeOrder(s.taken, s.queue);
  }

  lemma TakeOrder<E>(taken: seq<E>, queue: seq<E>)
    requires |queue| > 0
    ensures taken + queue == (taken + [queue[0]]) + queue[1..]
  {
  }

  lemma FinishBalance<E>(taken: seq<E>, processed: seq<E>, first: Worker<E>, second: Worker<E>)
    requires Balanced(taken, processed, first, second)
    ensures first.Sending? ==> Balanced(taken, processed + [first.entry], Idle, second)
    ensures second.Sending? ==> Balanced(taken, processed + [second.entry], first, Idle)
  {
  }

  lemma FinishKeeps<E>(s: State<E>, w: bool)
    requires Inv(s) && Step(s, Finish(w)).Some?
    ensures Inv(Step(s, Finish(w)).value)
  {
    FinishBalance(s.taken, s.processed, s.first, s.second);
    hide Balanced;
  }

  lemma SameBalance<E>(taken: seq<E>, processed: seq<E>, first: Worker<E>, second: Worker<E>, w: Worker<E>)
    requires Balanced(taken, processed, first, second) && !w.Sending?
    ensures !first.Sending? ==> Balanced(taken, processed, w, second)
    ensures !second.Sending? ==> Balanced(taken, processed, first, w)
  {
  }

  lemma SignalKeeps<E>(s: State<E>, e: Event<E>)
    requires Inv(s) && Step(s, e).Some? && (e.Leave? || e.Collect?)
    ensures Inv(Step(s, e).value)
  {
    SameBalance(s.taken, s.processed, s.first, s.second, if e.Leave? then Offering else Gone);
    hide Balanced, Held;
  }

  lemma CloserKeeps<E>(s: State<E>, e: Event<E>)
    requires Inv(s) && Step(s, e).Some? && (e.Close? || e.Return?)
    ensures Inv(Step(s, e).value)
  {
    hide Balanced, Held;
  }

  lemma StepKeeps<E>(s: State<E>, e: Event<E>)
    requires Inv(s) && Step(s, e).Some?
    ensures Inv(Step(s, e).value)
  {
    hide Inv, Step;
    match e
    case Send(entry) => SendKeeps(s, entry);
    case Take(w) => TakeKeeps(s, w);
    case Finish(w) => FinishKeeps(s, w);
    case Leave(_) => SignalKeeps(s, e);
    case Collect(_) => SignalKeeps(s, e);
    case _ => CloserKeeps(s, e);
  }

  lemma {:induction false} RunKeeps<E>(events: seq<Event<E>>)
    requires Run(Start(), events).Some?
    ensures Inv(Run<E>(Start(), events).value)
    decreases |events|
  {
    hide Inv, Step;
    if events == [] {
      StartInv<E>();
    } else {
      RunKeeps(events[..|events| - 1]);
      StepKeeps(Run(Start(), events[..|events| - 1]).value, events[|events| - 1]);
    }
  }

  lemma StartInv<E>()
    ensures Inv(Start<E>())
  {
  }

  // ---- The goroutines' code ----

  /** The exporter as its goroutines change it; a method is what one of them does from one blocking point to
      the next, and is one step of the model. */
  class Exporter<E> {
    var queue: seq<E>
    var first: Worker<E>
    var second: Worker<E>
    var closer: Closer
    ghost var accepted: seq<E>
    ghost var taken: seq<E>
    ghost var processed: seq<E>
    ghost var dropped: seq<E>

    ghost function Now(): State<E>
      reads this
    {
      State(queue, first, second, closer, accepted, taken, processed, dropped)
    }

    /** `newAsync`. */
    constructor ()
      ensures Now() == Start()
    {
      queue, first, second, closer := [], Idle, Idle, Open;
      accepted, taken, processed, dropped := [], [], [], [];
    }

    /** `Send`: a `select` with a default never blocks. */
    method TrySend(entry: E) returns (queued: bool)
      requires closer == Open
      modifies this
      ensures Step(old(Now()), Send(entry)) == Some(Now()) && (queued <==> |old(queue)| < QUEUE_CAP)
    {
      queued := |queue| < QUEUE_CAP;
      if queued {
        queue := queue + [entry];
        accepted := accepted + [entry];
      } else {
        dropped := dropped + [entry];
      }
    }

    /** The head of `worker`'s loop: it blocks on an empty queue that is still open, and ends the loop on an
        empty queue that is closed. */
    method Receive(w: bool) returns (entry: Option<E>)
      requires (if w then second else first).Idle? && (|queue| > 0 || closer != Open)
      modifies this
      ensures Step(old(Now()), if entry.Some? then Take(w) else Leave(w)) == Some(Now())
      ensures entry == if |old(queue)| > 0 then Some(old(queue)[0]) else None
    {
      if |queue| == 0 {
        entry := None;
        if w { second := Offering; } else { first := Offering; }
      } else {
        entry := Some(queue[0]);
        if w { second := Sending(queue[0]); } else { first := Sending(queue[0]); }
        taken := taken + [queue[0]];
        queue := queue[1..];
      }
    }

    /** The sender returns; its error, if any, is only logged. */
    method Deliver(w: bool)
      requires (if w then second else first).Sending?
      modifies this
      ensures Step(old(Now()), Finish(w)) == Some(Now())
    {
      if w {
        processed := processed + [second.entry];
        second := Idle;
      } else {
        processed := processed + [first.entry];
        first := Idle;
      }
    }

    /** `close(e.queue)`. */
    method BeginClose()
      requires closer == Open
      modifies this
      ensures Step(old(Now()), Close) == Some(Now())
    {
      closer := Draining(0);
    }

    /** One `<-e.done` meets one worker's signal. */
    method AwaitOne(w: bool)
      requires (if w then second else first).Offering? && closer.Draining? && closer.received < 2
      modifies this
      ensures Step(old(Now()), Collect(w)) == Some(Now())
    {
      if w { second := Gone; } else { first := Gone; }
      closer := Draining(closer.received + 1);
    }

    /** `Close` returns after two signals. */
    method FinishClose()
      requires closer == Draining(2)
      modifies this
      ensures Step(old(Now()), Return) == Some(Now())
    {
      closer := Returned;
    }
  }

  // ---- What every interleaving guarantees ----

  /** Conservation: every accepted entry is in the queue, with a worker, or processed, as often as it was
      accepted; the queue is first in, first out; and at most 1000 + 2 accepted entries are unprocessed. */
  lemma NothingLost<E>(events: seq<Event<E>>)
    requires Run(Start(), events).Some?
    ensures var s := Run(Start(), events).value;
            && multiset(s.accepted) == multiset(s.queue) + InFlight(s) + multiset(s.processed)
            && s.taken <= s.accepted && s.queue == s.accepted[|s.taken|..]
            && |s.accepted| - |s.processed| <= QUEUE_CAP + 2
  {
    RunKeeps(events);
    var s := Run(Start(), events).value;
    assert |multiset(s.taken)| == |multiset(s.processed)| + |InFlight(s)|;
  }

  /** When `Close` returns, every accepted entry has been given to the sender exactly once and nothing is
      left in the queue or with a worker. */
  lemma CloseDrains<E>(events: seq<Event<E>>)
    requires Run(Start(), events).Some? && Run(Start(), events).value.closer == Returned
    ensures var s := Run(Start(), events).value;
            multiset(s.processed) == multiset(s.accepted) && s.queue == [] && InFlight(s) == multiset{}
  {
    RunKeeps(events);
    var s := Run(Start(), events).value;
    assert s.taken + s.queue == s.taken;
  }

  /** A full queue is the only reason to drop an entry, and a drop changes nothing else. */
  lemma DropsOnlyWhenFull<E>(s: State<E>, entry: E)
    requires Inv(s) && s.closer == Open
    ensures var t := Step(s, Send(entry)).value;
            (t.dropped != s.dropped <==> |s.queue| == QUEUE_CAP)
            && (t.dropped != s.dropped ==> t == s.(dropped := s.dropped + [entry]))
            && (t.dropped == s.dropped ==> t.accepted == s.accepted + [entry])
  {
  }

  // ---- The drain ends ----

  function Weight<E>(w: Worker<E>): nat {
    match w case Sending(_) => 3 case Idle => 2 case Offering => 1 case Gone => 0
  }

  function Measure<E>(s: State<E>): nat {
    2 * |s.queue| + Weight(s.first) + Weight(s.second) + if s.closer == Returned then 0 else 1
  }

  /** After `Close` every step, by whichever goroutine, decreases the measure. */
  lemma DrainDecreases<E>(s: State<E>, e: Event<E>)
    requires s.closer != Open && Step(s, e).Some?
    ensures Step(s, e).value.closer != Open && Measure(Step(s, e).value) < Measure(s)
  {
  }

  /** And until it returns some step is possible: the drain cannot get stuck. */
  lemma DrainNeverStuck<E>(s: State<E>) returns (e: Event<E>)
    requires Inv(s) && s.closer.Draining?
    ensures Step(s, e).Some?
  {
    if s.first.Sending? || s.second.Sending? {
      e := Finish(s.second.Sending?);
    } else if s.first.Offering? || s.second.Offering? {
      e := Collect(s.second.Offering?);
    } else if s.first.Idle? || s.second.Idle? {
      e := if s.queue == [] then Leave(s.second.Idle?) else Take(s.second.Idle?);
    } else {
      e := Return;
    }
  }

  /** However the drain is scheduled it takes at most 2007 steps. */
  lemma {:induction false} DrainIsBounded<E>(s: State<E>, events: seq<Event<E>>)
    requires s.closer != Open && Run(s, events).Some?
    ensures |events| + Measure(Run(s, events).value) <= Measure(s)
    ensures Run(s, events).value.closer != Open
    decreases |events|
  {
    hide Measure, Step;
    if events != [] {
      DrainIsBounded(s, events[..|events| - 1]);
      DrainDecreases(Run(s, events[..|events| - 1]).value, events[|events| - 1]);
    }
  }

  lemma DrainBound<E>(before: seq<Event<E>>, drain: seq<Event<E>>)
    requires Run(Start(), before).Some? && Run(Start(), before).value.closer != Open
    requires Run(Run(Start(), before).value, drain).Some?
    ensures |drain| <= 2007
  {
    RunKeeps(before);
    DrainIsBounded(Run(Start(), before).value, drain);
  }
}
