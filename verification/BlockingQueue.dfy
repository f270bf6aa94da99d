/** BlockingConcurrentQueue: the inner queue and the semaphore side by side.  An enqueue puts its elements
    in and then signals; a dequeue gets permits and then retries the inner queue until it has as many
    elements as permits. */
module BlockingQueue {
  import opened Basics
  import Sem = Semaphore

  type Item = int

  datatype PC =
    | Idle
    | Enqueue(items: seq<Item>)                              // inner.enqueue or enqueue_bulk
    | ToSignal(count: nat)                                   // it succeeded; sema->signal comes next
    | Signalling                                             // inside sema->signal
    | Acquiring(req: Sem.Request)                            // inside tryWait, wait, tryWaitMany or waitMany
    | Draining(req: Sem.Request, granted: nat, got: seq<Item>)   // the retry loop on the inner queue

  // `inner` is what the inner queue holds.
  datatype State = State(
    sem: Sem.State,
    threads: seq<PC>,
    inner: multiset<Item>)

  // InnerEnqueue fails on allocation failure; InnerDequeue may find fewer elements than there are.
  datatype Action =
    | CallEnqueue(thread: nat, items: seq<Item>)
    | CallDequeue(thread: nat, req: Sem.Request)
    | InnerEnqueue(thread: nat, ok: bool)
    | StartSignal(thread: nat)
    | SemStep(thread: nat, bad: bool)
    | SemReturn(thread: nat)
    | InnerDequeue(thread: nat, found: seq<Item>)
    | Return(thread: nat)

  predicate Synced(s: State)
  {
    |s.sem.threads| == |s.threads|
  }

  predicate Enabled(s: State, a: Action)
    requires Synced(s)
  {
    && a.thread < |s.threads|
    && var pc := s.threads[a.thread];
       match a
       case CallEnqueue(_, _) => pc.Idle?
       case CallDequeue(t, req) => pc.Idle? && Sem.Enabled(s.sem, Sem.Acquire(t, req))
       case InnerEnqueue(_, _) => pc.Enqueue?
       case StartSignal(t) => pc.ToSignal? && Sem.Enabled(s.sem, Sem.Signal(t, pc.count))
       case SemStep(t, bad) => (pc.Signalling? || pc.Acquiring?) && Sem.Enabled(s.sem, Sem.Advance(t, bad))
       case SemReturn(t) => pc.Acquiring? && Sem.Enabled(s.sem, Sem.Collect(t))
       case InnerDequeue(_, found) =>
         pc.Draining? && |pc.got| != pc.granted && |pc.got| + |found| <= pc.granted && multiset(found) <= s.inner
       case Return(_) => pc.Draining? && |pc.got| == pc.granted
  }

  function Move(s: State, t: nat, pc: PC): State
    requires t < |s.threads|
  {
    s.(threads := s.threads[t := pc])
  }

  function Apply(s: State, a: Action): State
    requires Synced(s) && Enabled(s, a)
  {
    var t := a.thread;
    var pc := s.threads[t];
    match a
    case CallEnqueue(_, items) => Move(s, t, Enqueue(items))
    case CallDequeue(_, req) => Move(s, t, Acquiring(req)).(sem := Sem.Apply(s.sem, Sem.Acquire(t, req)))
    case InnerEnqueue(_, ok) =>
      if ok then
        Move(s, t, ToSignal(|pc.items|)).(inner := s.inner + multiset(pc.items))
      else Move(s, t, Idle)
    case StartSignal(_) => Move(s, t, Signalling).(sem := Sem.Apply(s.sem, Sem.Signal(t, pc.count)))
    case SemStep(_, bad) =>
      var sem := Sem.Apply(s.sem, Sem.Advance(t, bad));
      (if pc.Signalling? && t < |sem.threads| && sem.threads[t].Idle? then Move(s, t, Idle) else s).(sem := sem)
    case SemReturn(_) =>
      Move(s, t, Draining(pc.req, s.sem.threads[t].got, [])).(sem := Sem.Apply(s.sem, Sem.Collect(t)))
    case InnerDequeue(_, found) =>
      Move(s, t, Draining(pc.req, pc.granted, pc.got + found)).(inner := s.inner - multiset(found))
    case Return(_) => Move(s, t, Idle)
  }

  /* ---- The invariant ---- */

  // Elements in the inner queue for which signal has not been called.
  function Unsignalled(pc: PC): nat
  {
    if pc.ToSignal? then pc.count else 0
  }

  // Elements whose signal call has started and not reached the count.
  function Coming(pc: Sem.PC): nat
  {
    if pc.SignalAdd? then pc.count else 0
  }

  // Permits a thread holds for which it has no element yet.
  function Needed(pc: PC): nat
  {
    if pc.Draining? && |pc.got| < pc.granted then pc.granted - |pc.got| else 0
  }

  predicate InSignal(pc: Sem.PC) { pc.SignalAdd? || pc.Post? }

  // What the semaphore thread may be doing while the queue thread is at `pc`.
  ghost predicate ThreadOk(pc: PC, sem: Sem.PC)
  {
    match pc
    case Signalling => InSignal(sem)
    case Acquiring(req) => !sem.Idle? && !InSignal(sem) && sem.req == req
    case Draining(req, granted, got) =>
      && sem.Idle? && |got| <= granted <= req.max
      && (req.how.Forever? && req.max > 0 ==> granted > 0)
    case _ => sem.Idle?
  }

  ghost predicate Inv(s: State)
  {
    && Synced(s)
    && Sem.Inv(s.sem, 0)
    && (forall t :: 0 <= t < |s.threads| ==> ThreadOk(s.threads[t], s.sem.threads[t]))
    && |s.inner| + s.sem.returned
       == s.sem.signalled + SumBy(s.threads, Unsignalled) + SumBy(s.sem.threads, Coming) + SumBy(s.threads, Needed)
  }

  lemma SumsMove(threads: seq<PC>, t: nat, pc: PC)
    requires t < |threads|
    ensures SumBy(threads[t := pc], Unsignalled) + Unsignalled(threads[t]) ==
            SumBy(threads, Unsignalled) + Unsignalled(pc)
    ensures SumBy(threads[t := pc], Needed) + Needed(threads[t]) == SumBy(threads, Needed) + Needed(pc)
  {
    SumByUpdate(threads, t, pc, Unsignalled);
    SumByUpdate(threads, t, pc, Needed);
  }

  // What an access of the semaphore means for the queue.
  lemma SemAccess(sem: Sem.State, t: nat, bad: bool)
    requires Sem.Enabled(sem, Sem.Advance(t, bad))
    ensures var sem' := Sem.Access(sem, t, bad);
            && |sem'.threads| == |sem.threads|
            && var pc, pc' := sem.threads[t], sem'.threads[t];
            && sem'.signalled == sem.signalled + Coming(pc)
            && sem'.returned == sem.returned
            && !pc'.SignalAdd?
            && (InSignal(pc) ==> pc'.Idle? || pc'.Post?)
            && (!InSignal(pc) ==> !pc'.Idle? && !InSignal(pc') && pc'.req == pc.req)
  {
    match sem.threads[t]
    case TryLoad(_, _) =>
    case TryCas(_, _, _) =>
    case SpinLoad(_, _) =>
    case SpinCas(_, _, _) =>
    case Subtract(_) =>
    case Block(_) =>
    case LateLoad(_) =>
    case LateTry(_) =>
    case LateCas(_, _) =>
    case SignalAdd(_) =>
    case Post(_) =>
  }

  // The semaphore part of the state after a step of thread `t`, and its share of the balance.
  ghost predicate SemMoved(sem: Sem.State, sem': Sem.State, t: nat, signalled: nat, returned: nat)
  {
    && Sem.Inv(sem', 0)
    && t < |sem.threads| == |sem'.threads|
    && sem'.threads == sem.threads[t := sem'.threads[t]]
    && SumBy(sem'.threads, Coming) + Coming(sem.threads[t]) == SumBy(sem.threads, Coming) + Coming(sem'.threads[t])
    && sem'.signalled == sem.signalled + signalled
    && sem'.returned == sem.returned + returned
  }

  lemma SemMoves(sem: Sem.State, a: Sem.Action)
    requires Sem.Inv(sem, 0) && Sem.Enabled(sem, a)
    ensures SemMoved(sem, Sem.Apply(sem, a), a.thread, if a.Advance? then Coming(sem.threads[a.thread]) else 0,
                     if a.Collect? then sem.threads[a.thread].got else 0)
  {
    Sem.OneThreadMoves(sem, a);
    Sem.StepKeepsInv(sem, 0, a);
    SumByUpdate(sem.threads, a.thread, Sem.Apply(sem, a).threads[a.thread], Coming);
    if a.Advance? {
      SemAccess(sem, a.thread, a.bad);
    }
  }

  // Moving thread `t`, with the totals given: what is left to check for Inv.
  lemma MoveKeepsInv(s: State, s': State, t: nat, signalled: nat, returned: nat)
    requires Inv(s) && t < |s.threads| == |s'.threads| && s'.threads == s.threads[t := s'.threads[t]]
    requires (s'.sem == s.sem && signalled == returned == 0) || SemMoved(s.sem, s'.sem, t, signalled, returned)
    requires Synced(s') && ThreadOk(s'.threads[t], s'.sem.threads[t])
    requires |s'.inner| + returned + Unsignalled(s.threads[t]) + Coming(s.sem.threads[t]) + Needed(s.threads[t])
             == |s.inner| + signalled + Unsignalled(s'.threads[t]) + Coming(s'.sem.threads[t]) + Needed(s'.threads[t])
    ensures Inv(s')
  {
    SumsMove(s.threads, t, s'.threads[t]);
    forall u | 0 <= u < |s'.threads| ensures ThreadOk(s'.threads[u], s'.sem.threads[u]) {
      assert ThreadOk(s.threads[u], s.sem.threads[u]);
    }
  }

  lemma SemStepKeepsInv(s: State, a: Action)
    requires Inv(s) && Enabled(s, a) && (a.CallDequeue? || a.StartSignal? || a.SemStep? || a.SemReturn?)
    ensures Inv(Apply(s, a))
  {
    var t, s' := a.thread, Apply(s, a);
    assert ThreadOk(s.threads[t], s.sem.threads[t]);
    match a
    case CallDequeue(_, req) =>
      SemMoves(s.sem, Sem.Acquire(t, req));
      MoveKeepsInv(s, s', t, 0, 0);
    case StartSignal(_) =>
      SemMoves(s.sem, Sem.Signal(t, s.threads[t].count));
      MoveKeepsInv(s, s', t, 0, 0);
    case SemStep(_, bad) =>
      SemMoves(s.sem, Sem.Advance(t, bad));
      SemAccess(s.sem, t, bad);
      MoveKeepsInv(s, s', t, Coming(s.sem.threads[t]), 0);
    case SemReturn(_) =>
      SemMoves(s.sem, Sem.Collect(t));
      assert Sem.ThreadOk(s.sem.threads[t]);
      MoveKeepsInv(s, s', t, 0, s.sem.threads[t].got);
  }

  lemma InnerDequeueKeepsInv(s: State, a: Action)
    requires Inv(s) && Enabled(s, a) && a.InnerDequeue?
    ensures Inv(Apply(s, a))
  {
    assert ThreadOk(s.threads[a.thread], s.sem.threads[a.thread]);
    assert s.inner == (s.inner - multiset(a.found)) + multiset(a.found);
    MoveKeepsInv(s, Apply(s, a), a.thread, 0, 0);
  }

  /** Every step keeps the invariant. */
  lemma StepKeepsInv(s: State, a: Action)
    requires Inv(s) && Enabled(s, a)
    ensures Inv(Apply(s, a))
  {
    if a.CallDequeue? || a.StartSignal? || a.SemStep? || a.SemReturn? {
      SemStepKeepsInv(s, a);
    } else if a.InnerDequeue? {
      InnerDequeueKeepsInv(s, a);
    } else {
      assert ThreadOk(s.threads[a.thread], s.sem.threads[a.thread]);
      MoveKeepsInv(s, Apply(s, a), a.thread, 0, 0);
    }
  }

  /** An enqueue that fails changes nothing and signals nothing. */
  lemma FailedEnqueue(s: State, t: nat, items: seq<Item>)
    requires Synced(s) && Enabled(s, CallEnqueue(t, items))
    ensures var m := Apply(s, CallEnqueue(t, items));
            Synced(m) && Enabled(m, InnerEnqueue(t, false)) && Apply(m, InnerEnqueue(t, false)) == s
  {
    assert s.threads[t := Enqueue(items)][t := Idle] == s.threads;
  }

  /* ---- Runs ---- */

  // The call that a step ends, and the elements it hands to its caller.
  function ReturnOf(s: State, a: Action): seq<(nat, seq<Item>)>
    requires Synced(s) && Enabled(s, a)
  {
    if a.Return? then [(a.thread, s.threads[a.thread].got)] else []
  }

  // A run; `log` has what its dequeues returned, in order.
  ghost predicate Run(s: State, events: seq<Action>, s': State, log: seq<(nat, seq<Item>)>)
    requires Synced(s)
    decreases |events|
  {
    if events == [] then s' == s && log == []
    else
      && Enabled(s, events[0])
      && ReturnOf(s, events[0]) <= log
      && var m := Apply(s, events[0]);
         Synced(m) && Run(m, events[1..], s', log[|ReturnOf(s, events[0])|..])
  }

  ghost predicate Initial(s: State)
  {
    && Synced(s)
    && Sem.Initial(s.sem, 0)
    && (forall t :: 0 <= t < |s.threads| ==> s.threads[t].Idle?)
    && s.inner == multiset{}
  }

  ghost predicate Reachable(s: State)
  {
    exists s0, events, log :: Initial(s0) && Run(s0, events, s, log)
  }

  lemma {:induction false} RunKeepsInv(s: State, events: seq<Action>, s': State, log: seq<(nat, seq<Item>)>)
    requires Inv(s) && Run(s, events, s', log)
    ensures Inv(s')
    decreases |events|
  {
    if events != [] {
      StepKeepsInv(s, events[0]);
      RunKeepsInv(Apply(s, events[0]), events[1..], s', log[|ReturnOf(s, events[0])|..]);
    }
  }

  lemma InvOfReachable(s: State)
    requires Reachable(s)
    ensures Inv(s)
  {
    var s0, events, log :| Initial(s0) && Run(s0, events, s, log);
    SumByZero(s0.sem.threads, Sem.Owed);
    SumByZero(s0.sem.threads, Sem.Waiting);
    SumByZero(s0.sem.threads, Sem.Held);
    SumByZero(s0.sem.threads, Coming);
    SumByZero(s0.threads, Unsignalled);
    SumByZero(s0.threads, Needed);
    RunKeepsInv(s0, events, s, log);
  }

  /** Behind every permit there is an element: what threads have been granted and not dequeued yet never
      exceeds what the inner queue holds, so a retry loop always has an element to find. */
  lemma ElementsBehindPermits(s: State)
    requires Reachable(s)
    ensures SumBy(s.threads, Needed) + SumBy(s.sem.threads, Sem.Held) <= |s.inner|
    ensures forall t :: 0 <= t < |s.threads| && s.threads[t].Draining? && |s.threads[t].got| != s.threads[t].granted
                    ==> 0 < s.threads[t].granted - |s.threads[t].got| <= |s.inner|
  {
    InvOfReachable(s);
    forall t | 0 <= t < |s.threads| && s.threads[t].Draining? && |s.threads[t].got| != s.threads[t].granted
      ensures 0 < s.threads[t].granted - |s.threads[t].got| <= |s.inner|
    {
      assert ThreadOk(s.threads[t], s.sem.threads[t]);
      SumByTerm(s.threads, t, Needed);
    }
  }

  /** A dequeue returns exactly as many elements as it was granted permits: at most `max`, and at least
      one when it may wait forever. */
  lemma DrainedExactly(s: State, t: nat)
    requires Reachable(s) && Synced(s) && t < |s.threads| && s.threads[t].Draining? && Enabled(s, Return(t))
    ensures var pc := s.threads[t];
            && |pc.got| == pc.granted <= pc.req.max
            && (pc.req.how.Forever? && pc.req.max > 0 ==> pc.got != [])
  {
    InvOfReachable(s);
    assert ThreadOk(s.threads[t], s.sem.threads[t]);
  }

  /** A retry loop that has not finished can finish: the elements it lacks are in the inner queue, and
      taking them ends it. */
  lemma DrainCanFinish(s: State, t: nat) returns (found: seq<Item>)
    requires Reachable(s) && Synced(s) && t < |s.threads|
    requires s.threads[t].Draining? && |s.threads[t].got| != s.threads[t].granted
    ensures Enabled(s, InnerDequeue(t, found))
    ensures |Apply(s, InnerDequeue(t, found)).threads[t].got| == s.threads[t].granted
  {
    ElementsBehindPermits(s);
    found := Pick(s.inner, s.threads[t].granted - |s.threads[t].got|);
  }

  lemma NotEmpty(m: multiset<Item>)
    requires |m| > 0
    ensures exists x :: x in m
  {
    assert (forall x :: x !in m) ==> m == multiset{};
  }

  lemma {:induction false} Pick(m: multiset<Item>, n: nat) returns (found: seq<Item>)
    requires n <= |m|
    ensures |found| == n && multiset(found) <= m
  {
    if n == 0 {
      found := [];
    } else {
      NotEmpty(m);
      var x :| x in m;
      var rest := Pick(m - multiset{x}, n - 1);
      found := [x] + rest;
    }
  }

  /** With no call in flight, size_approx, which reads the semaphore, is the number of elements. */
  lemma SizeAtRest(s: State)
    requires Reachable(s) && forall t :: 0 <= t < |s.threads| ==> s.threads[t].Idle?
    ensures |s.inner| == s.sem.count
  {
    InvOfReachable(s);
    forall t | 0 <= t < |s.threads| ensures s.sem.threads[t].Idle? {
      assert ThreadOk(s.threads[t], s.sem.threads[t]);
    }
    SumByZero(s.sem.threads, Sem.Owed);
    SumByZero(s.sem.threads, Sem.Waiting);
    SumByZero(s.sem.threads, Sem.Held);
    SumByZero(s.sem.threads, Coming);
    SumByZero(s.threads, Unsignalled);
    SumByZero(s.threads, Needed);
  }
}
