/** What happens to the elements of a BlockingConcurrentQueue over a run, told by its events: what enqueues offered,
    and what dequeues found and returned. */
module Elements {
  import opened Basics
  import opened BlockingQueue
  import Sem = Semaphore

  // What thread t has offered with its last enqueue.
  function Offer(events: seq<Action>, t: nat): seq<Item>
  {
    if events == [] then []
    else
      var n := |events| - 1;
      if events[n].CallEnqueue? && events[n].thread == t then events[n].items else Offer(events[..n], t)
  }

  // What successful enqueues have supplied.
  function Supplied(events: seq<Action>): multiset<Item>
  {
    if events == [] then multiset{}
    else
      var n := |events| - 1;
      var before := Supplied(events[..n]);
      if events[n].InnerEnqueue? && events[n].ok then before + multiset(Offer(events[..n], events[n].thread))
      else before
  }

  // What thread t has found in the inner queue since its last call of dequeue, in order.
  function Found(events: seq<Action>, t: nat): seq<Item>
  {
    if events == [] then []
    else
      var n := |events| - 1;
      var before := Found(events[..n], t);
      if events[n].thread != t then before
      else if events[n].CallDequeue? then []
      else if events[n].InnerDequeue? then before + events[n].found
      else before
  }

  // What the dequeues that have returned found.
  function Results(events: seq<Action>): seq<(nat, seq<Item>)>
  {
    if events == [] then []
    else
      var n := |events| - 1;
      var before := Results(events[..n]);
      if events[n].Return? then before + [(events[n].thread, Found(events[..n], events[n].thread))] else before
  }

  function Delivered(log: seq<(nat, seq<Item>)>): multiset<Item>
  {
    if log == [] then multiset{} else Delivered(log[..|log| - 1]) + multiset(log[|log| - 1].1)
  }

  // What a call has taken out of the inner queue and not returned yet.
  function Got(pc: PC): seq<Item>
  {
    if pc.Draining? then pc.got else []
  }

  // How often a call holds x.
  function Holds(x: Item): PC -> nat
  {
    (pc: PC) => multiset(Got(pc))[x]
  }

  // What a thread holds is what its events say.
  ghost predicate ThreadTracks(past: seq<Action>, pc: PC, t: nat)
  {
    match pc
    case Enqueue(items) => items == Offer(past, t)
    case Acquiring(_) => Found(past, t) == []
    case Draining(_, _, got) => got == Found(past, t)
    case _ => true
  }

  // Element x is in the inner queue, was delivered, or is held, as often as it was supplied.
  ghost predicate Balanced(past: seq<Action>, s: State, log: seq<(nat, seq<Item>)>, x: Item)
  {
    Supplied(past)[x] == s.inner[x] + Delivered(log)[x] + SumBy(s.threads, Holds(x))
  }

  ghost predicate Tracks(past: seq<Action>, s: State, log: seq<(nat, seq<Item>)>)
  {
    && log == Results(past)
    && (forall t: nat :: t < |s.threads| ==> ThreadTracks(past, s.threads[t], t))
    && (forall x: Item :: Balanced(past, s, log, x))
  }

  // The functions above, one event later.
  lemma EventAfter(past: seq<Action>, a: Action, t: nat)
    ensures var next := past + [a];
            && Offer(next, t) == (if a.CallEnqueue? && a.thread == t then a.items else Offer(past, t))
            && Found(next, t) == (if a.thread != t then Found(past, t)
                                  else if a.CallDequeue? then []
                                  else if a.InnerDequeue? then Found(past, t) + a.found
                                  else Found(past, t))
  {
    assert (past + [a])[..|past|] == past;
  }

  lemma TotalsAfter(past: seq<Action>, a: Action)
    ensures var next := past + [a];
            && Supplied(next) == Supplied(past) + (if a.InnerEnqueue? && a.ok then multiset(Offer(past, a.thread))
                                                   else multiset{})
            && Results(next) == Results(past) + (if a.Return? then [(a.thread, Found(past, a.thread))] else [])
  {
    assert (past + [a])[..|past|] == past;
  }

  lemma DeliveredAfter(log: seq<(nat, seq<Item>)>, r: (nat, seq<Item>))
    ensures Delivered(log + [r]) == Delivered(log) + multiset(r.1)
  {
    assert (log + [r])[..|log|] == log;
  }

  lemma OneThreadMoves(s: State, a: Action)
    requires Synced(s) && Enabled(s, a)
    ensures var s' := Apply(s, a);
            |s'.threads| == |s.threads| && s'.threads == s.threads[a.thread := s'.threads[a.thread]]
  {
  }

  lemma StepBalances(past: seq<Action>, s: State, log: seq<(nat, seq<Item>)>, a: Action, x: Item)
    requires Synced(s) && Enabled(s, a) && ThreadTracks(past, s.threads[a.thread], a.thread)
    requires Balanced(past, s, log, x)
    ensures Balanced(past + [a], Apply(s, a), log + ReturnOf(s, a), x)
  {
    var s', t := Apply(s, a), a.thread;
    OneThreadMoves(s, a);
    TotalsAfter(past, a);
    SumByUpdate(s.threads, t, s'.threads[t], Holds(x));
    if a.Return? {
      DeliveredAfter(log, ReturnOf(s, a)[0]);
    } else {
      GotAfter(s, a, x);
      InnerAfter(past, s, a, x);
      assert log + ReturnOf(s, a) == log;
    }
  }

  lemma InnerAfter(past: seq<Action>, s: State, a: Action, x: Item)
    requires Synced(s) && Enabled(s, a) && ThreadTracks(past, s.threads[a.thread], a.thread)
    ensures Apply(s, a).inner[x] + (if a.InnerDequeue? then multiset(a.found)[x] else 0) ==
            s.inner[x] + if a.InnerEnqueue? && a.ok then multiset(Offer(past, a.thread))[x] else 0
  {
  }

  lemma GotAfter(s: State, a: Action, x: Item)
    requires Synced(s) && Enabled(s, a) && !a.Return?
    ensures var s' := Apply(s, a);
            |s'.threads| == |s.threads| && Holds(x)(s'.threads[a.thread]) ==
            Holds(x)(s.threads[a.thread]) + if a.InnerDequeue? then multiset(a.found)[x] else 0
  {
  }

  lemma ThreadsTrack(past: seq<Action>, s: State, a: Action, u: nat)
    requires Synced(s) && Enabled(s, a) && u < |s.threads| && ThreadTracks(past, s.threads[u], u)
    ensures |Apply(s, a).threads| == |s.threads| && ThreadTracks(past + [a], Apply(s, a).threads[u], u)
  {
    EventAfter(past, a, u);
  }

  lemma StepTracks(past: seq<Action>, s: State, log: seq<(nat, seq<Item>)>, a: Action)
    requires Synced(s) && Enabled(s, a) && Tracks(past, s, log)
    ensures Tracks(past + [a], Apply(s, a), log + ReturnOf(s, a))
  {
    TotalsAfter(past, a);
    OneThreadMoves(s, a);
    assert ThreadTracks(past, s.threads[a.thread], a.thread);
    forall u: nat | u < |s.threads| ensures ThreadTracks(past + [a], Apply(s, a).threads[u], u) {
      ThreadsTrack(past, s, a, u);
    }
    forall x: Item ensures Balanced(past + [a], Apply(s, a), log + ReturnOf(s, a), x) {
      assert Balanced(past, s, log, x);
      StepBalances(past, s, log, a, x);
    }
    assert !a.Return? ==> log + ReturnOf(s, a) == log;
  }

  lemma OneOn(past: seq<Action>, events: seq<Action>, before: seq<(nat, seq<Item>)>, first: seq<(nat, seq<Item>)>,
              log: seq<(nat, seq<Item>)>)
    requires events != [] && first <= log
    ensures past + [events[0]] + events[1..] == past + events
    ensures before + first + log[|first|..] == before + log
  {
  }

  lemma {:induction false} RunTracks(past: seq<Action>, s: State, before: seq<(nat, seq<Item>)>, events: seq<Action>,
                                     s': State, log: seq<(nat, seq<Item>)>)
    requires Synced(s) && Tracks(past, s, before) && Run(s, events, s', log)
    ensures Tracks(past + events, s', before + log)
    decreases |events|
  {
    if events == [] {
      assert past + events == past && before + log == before;
    } else {
      var a := events[0];
      var first := ReturnOf(s, a);
      StepTracks(past, s, before, a);
      RunTracks(past + [a], Apply(s, a), before + first, events[1..], s', log[|first|..]);
      OneOn(past, events, before, first, log);
    }
  }

  /** Nothing is lost, delivered twice or altered: what successful enqueues supplied is in the inner queue, was returned
      by a dequeue, or is held by one; each dequeue returns what it found itself, in order; and an element is in the
      queue before its permit can be taken. */
  lemma ElementsAreConserved(s0: State, events: seq<Action>, s: State, log: seq<(nat, seq<Item>)>)
    requires Initial(s0) && Run(s0, events, s, log)
    ensures forall x: Item :: Balanced(events, s, log, x)
    ensures log == Results(events)
    ensures |s.inner| + s.sem.returned
            == s.sem.signalled + SumBy(s.threads, Unsignalled) + SumBy(s.sem.threads, Coming) + SumBy(s.threads, Needed)
  {
    InvOfReachable(s);
    forall x: Item ensures Balanced([], s0, [], x) { SumByZero(s0.threads, Holds(x)); }
    RunTracks([], s0, [], events, s, log);
    assert [] + events == events && [] + log == log;
  }
}
