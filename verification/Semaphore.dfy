/** LightweightSemaphore: a signed count in front of a kernel semaphore, with spinning, blocking and
    timeouts.  A negative count is the number of threads that wait for a post that nobody owes them yet. */
module Semaphore {
  import opened Basics

  // tryWait and tryWaitMany; wait(timeout) and waitMany(max, timeout); wait() and waitMany(max).
  // The forms for one permit are those for many with max == 1.
  datatype How = Try | Timed | Forever
  datatype Request = Request(max: nat, how: How)

  const SPINS: nat := 10000

  datatype PC =
    | Idle
    | TryLoad(req: Request, got: nat)                  // tryWaitMany(req.max - got): load of m_count
    | TryCas(req: Request, got: nat, seen: int)         //   its CAS; may fail spuriously
    | SpinLoad(req: Request, left: nat)                // the spinning phase, `left` rounds to go
    | SpinCas(req: Request, left: nat, seen: int)
    | Subtract(req: Request)                           // fetch_sub of 1
    | Block(req: Request)                              // m_sema.wait or timed_wait
    | LateLoad(req: Request)                           // timed out: load of m_count
    | LateTry(req: Request)                            //   saw count >= 0: m_sema.try_wait
    | LateCas(req: Request, seen: int)                  //   saw count < 0: CAS that withdraws
    | SignalAdd(count: nat)                            // fetch_add of count
    | Post(left: nat)                                  // m_sema.signal: one sem_post, `left` to go
    | Done(req: Request, got: nat)                     // the call returns got

  // `signalled`, `acquired` and `returned` are totals over the run, for the theorems.
  datatype State = State(
    count: int,
    kernel: nat,
    threads: seq<PC>,
    signalled: nat,
    acquired: nat,
    returned: nat)

  // `bad` resolves what the caller does not control: a CAS fails spuriously, a timed wait times out.
  datatype Action =
    | Acquire(thread: nat, req: Request)
    | Signal(thread: nat, n: nat)
    | Advance(thread: nat, bad: bool)
    | Collect(thread: nat)

  predicate Enabled(s: State, a: Action)
  {
    && a.thread < |s.threads|
    && var pc := s.threads[a.thread];
       match a
       case Acquire(_, _) => pc.Idle?
       case Signal(_, _) => pc.Idle?
       case Collect(_) => pc.Done?
       case Advance(_, bad) =>
         && !pc.Idle? && !pc.Done?
         && (pc.Block? ==> if bad then pc.req.how.Timed? else s.kernel > 0)
  }

  function Move(s: State, t: nat, pc: PC): State
    requires t < |s.threads|
  {
    s.(threads := s.threads[t := pc])
  }

  // The end of tryWaitMany: `more` permits on top of `got`.
  function TryEnd(req: Request, got: nat, more: nat): PC
  {
    if got + more == 0 && req.max > 0 && !req.how.Try? then SpinLoad(req, SPINS) else Done(req, got + more)
  }

  // One permit from the slow path; then greedily up to max - 1 more.
  function First(req: Request): PC
  {
    if req.max > 1 then TryLoad(req, 1) else Done(req, 1)
  }

  function NextSpin(req: Request, left: nat): PC
  {
    if left > 1 then SpinLoad(req, left - 1) else Subtract(req)
  }

  // What a CAS from `seen` leaves in m_count when `max` permits are wanted.
  function Left(seen: int, max: nat): int
  {
    if seen > max then seen - max else 0
  }

  function Apply(s: State, a: Action): State
    requires Enabled(s, a)
  {
    match a
    case Acquire(t, req) => Move(s, t, TryLoad(req, 0))
    case Signal(t, n) => Move(s, t, SignalAdd(n))
    case Collect(t) => Move(s, t, Idle).(returned := s.returned + s.threads[t].got)
    case Advance(t, bad) => Access(s, t, bad)
  }

  function Access(s: State, t: nat, bad: bool): State
    requires Enabled(s, Advance(t, bad))
  {
    match s.threads[t]
    case TryLoad(req, got) =>
      Move(s, t, if s.count > 0 then TryCas(req, got, s.count) else TryEnd(req, got, 0))
    case TryCas(req, got, seen) =>
      var left := Left(seen, if req.max > got then req.max - got else 0);
      if s.count == seen && !bad && seen > 0 then
        Move(s, t, TryEnd(req, got, seen - left)).(count := left, acquired := s.acquired + (seen - left))
      else
        Move(s, t, if s.count > 0 then TryCas(req, got, s.count) else TryEnd(req, got, 0))
    case SpinLoad(req, left) =>
      Move(s, t, if s.count > 0 then SpinCas(req, left, s.count) else NextSpin(req, left))
    case SpinCas(req, left, seen) =>
      var rest := Left(seen, req.max);
      if s.count == seen && seen > 0 then
        Move(s, t, Done(req, seen - rest)).(count := rest, acquired := s.acquired + (seen - rest))
      else
        Move(s, t, NextSpin(req, left))
    case Subtract(req) =>
      if s.count > 0 then Move(s, t, First(req)).(count := s.count - 1, acquired := s.acquired + 1)
      else Move(s, t, Block(req)).(count := s.count - 1)
    case Block(req) =>
      if bad then Move(s, t, LateLoad(req))
      else Move(s, t, First(req)).(kernel := s.kernel - 1, acquired := s.acquired + 1)
    case LateLoad(req) =>
      Move(s, t, if s.count >= 0 then LateTry(req) else LateCas(req, s.count))
    case LateTry(req) =>
      if s.kernel > 0 then Move(s, t, First(req)).(kernel := s.kernel - 1, acquired := s.acquired + 1)
      else Move(s, t, LateLoad(req))
    case LateCas(req, seen) =>
      if s.count == seen then Move(s, t, Done(req, 0)).(count := seen + 1)
      else Move(s, t, LateLoad(req))
    case SignalAdd(n) =>
      var release := if -s.count < n then -s.count else n;
      Move(s, t, if release > 0 then Post(release) else Idle).(count := s.count + n, signalled := s.signalled + n)
    case Post(left) =>
      Move(s, t, if left > 1 then Post(left - 1) else Idle).(kernel := s.kernel + 1)
  }

  /* ---- The invariant ---- */

  // Threads that took one from the count and have neither got a permit for it nor withdrawn.
  function Waiting(pc: PC): nat
  {
    if pc.Block? || pc.LateLoad? || pc.LateTry? || pc.LateCas? then 1 else 0
  }

  // Posts a signalling thread still owes the kernel semaphore.
  function Owed(pc: PC): nat
  {
    if pc.Post? then pc.left else 0
  }

  // Permits a call holds and has not returned.
  function Held(pc: PC): nat
  {
    if pc.TryLoad? || pc.TryCas? || pc.Done? then pc.got else 0
  }

  function Plus(x: int): nat { if x > 0 then x else 0 }

  ghost predicate ThreadOk(pc: PC)
  {
    match pc
    case TryLoad(req, got) => got <= 1 && (got == 1 ==> req.max > 1)
    case TryCas(req, got, seen) => got <= 1 && (got == 1 ==> req.max > 1) && seen > 0
    case SpinLoad(req, left) => req.max > 0 && !req.how.Try? && left <= SPINS
    case SpinCas(req, left, seen) => req.max > 0 && !req.how.Try? && left <= SPINS && seen > 0
    case Subtract(req) => req.max > 0 && !req.how.Try?
    case Block(req) => req.max > 0 && !req.how.Try?
    case LateLoad(req) => req.max > 0 && req.how.Timed?
    case LateTry(req) => req.max > 0 && req.how.Timed?
    case LateCas(req, seen) => req.max > 0 && req.how.Timed? && seen < 0
    case Post(left) => left > 0
    case Done(req, got) => got <= req.max && (req.how.Forever? && req.max > 0 ==> got > 0)
    case _ => true
  }

  ghost predicate Inv(s: State, initial: nat)
  {
    && (forall t :: 0 <= t < |s.threads| ==> ThreadOk(s.threads[t]))
    && initial + s.signalled == s.acquired + Plus(s.count) + s.kernel + SumBy(s.threads, Owed)
    && SumBy(s.threads, Waiting) == Plus(-s.count) + s.kernel + SumBy(s.threads, Owed)
    && s.acquired == s.returned + SumBy(s.threads, Held)
  }

  lemma SumsMove(threads: seq<PC>, t: nat, pc: PC)
    requires t < |threads|
    ensures SumBy(threads[t := pc], Owed) + Owed(threads[t]) == SumBy(threads, Owed) + Owed(pc)
    ensures SumBy(threads[t := pc], Waiting) + Waiting(threads[t]) == SumBy(threads, Waiting) + Waiting(pc)
    ensures SumBy(threads[t := pc], Held) + Held(threads[t]) == SumBy(threads, Held) + Held(pc)
  {
    SumByUpdate(threads, t, pc, Owed);
    SumByUpdate(threads, t, pc, Waiting);
    SumByUpdate(threads, t, pc, Held);
  }

  // What one step does to the totals and to the moving thread's part of the sums.
  ghost predicate Balanced(s: State, s': State, pc: PC, pc': PC)
  {
    && s'.signalled - s.signalled
       == s'.acquired - s.acquired + Plus(s'.count) - Plus(s.count) + s'.kernel - s.kernel + Owed(pc') - Owed(pc)
    && Waiting(pc') - Waiting(pc)
       == Plus(-s'.count) - Plus(-s.count) + s'.kernel - s.kernel + Owed(pc') - Owed(pc)
    && s'.acquired - s.acquired == s'.returned - s.returned + Held(pc') - Held(pc)
    && ThreadOk(pc')
  }

  lemma TryIsBalanced(s: State, t: nat, bad: bool)
    requires Enabled(s, Advance(t, bad)) && ThreadOk(s.threads[t])
    requires var pc := s.threads[t]; pc.TryLoad? || pc.TryCas?
    ensures Balanced(s, Access(s, t, bad), s.threads[t], Access(s, t, bad).threads[t])
  {
    match s.threads[t]
    case TryLoad(_, _) =>
    case TryCas(_, _, _) =>
  }

  lemma SpinIsBalanced(s: State, t: nat, bad: bool)
    requires Enabled(s, Advance(t, bad)) && ThreadOk(s.threads[t])
    requires var pc := s.threads[t]; pc.SpinLoad? || pc.SpinCas? || pc.Subtract?
    ensures Balanced(s, Access(s, t, bad), s.threads[t], Access(s, t, bad).threads[t])
  {
    match s.threads[t]
    case SpinLoad(_, _) =>
    case SpinCas(_, _, _) =>
    case Subtract(_) =>
  }

  lemma WaitIsBalanced(s: State, t: nat, bad: bool)
    requires Enabled(s, Advance(t, bad)) && ThreadOk(s.threads[t])
    requires var pc := s.threads[t]; pc.Block? || pc.LateLoad? || pc.LateTry? || pc.LateCas?
    ensures Balanced(s, Access(s, t, bad), s.threads[t], Access(s, t, bad).threads[t])
  {
    match s.threads[t]
    case Block(_) =>
    case LateLoad(_) =>
    case LateTry(_) =>
    case LateCas(_, _) =>
  }

  lemma SignalIsBalanced(s: State, t: nat, bad: bool)
    requires Enabled(s, Advance(t, bad)) && ThreadOk(s.threads[t])
    requires var pc := s.threads[t]; pc.SignalAdd? || pc.Post?
    ensures Balanced(s, Access(s, t, bad), s.threads[t], Access(s, t, bad).threads[t])
  {
    match s.threads[t]
    case SignalAdd(_) =>
    case Post(_) =>
  }

  lemma StepIsBalanced(s: State, a: Action, s': State)
    requires Enabled(s, a) && ThreadOk(s.threads[a.thread]) && s' == Apply(s, a) && |s'.threads| == |s.threads|
    ensures Balanced(s, s', s.threads[a.thread], s'.threads[a.thread])
  {
    if a.Advance? {
      var pc := s.threads[a.thread];
      if pc.TryLoad? || pc.TryCas? {
        TryIsBalanced(s, a.thread, a.bad);
      } else if pc.SpinLoad? || pc.SpinCas? || pc.Subtract? {
        SpinIsBalanced(s, a.thread, a.bad);
      } else if pc.SignalAdd? || pc.Post? {
        SignalIsBalanced(s, a.thread, a.bad);
      } else {
        WaitIsBalanced(s, a.thread, a.bad);
      }
    }
  }

  /** Every step keeps the invariant. */
  lemma StepKeepsInv(s: State, initial: nat, a: Action)
    requires Inv(s, initial) && Enabled(s, a)
    ensures Inv(Apply(s, a), initial)
  {
    OneThreadMoves(s, a);
    StepIsBalanced(s, a, Apply(s, a));
    SumsMove(s.threads, a.thread, Apply(s, a).threads[a.thread]);
  }

  lemma OneThreadMoves(s: State, a: Action)
    requires Enabled(s, a)
    ensures var s' := Apply(s, a);
            |s'.threads| == |s.threads| && s'.threads == s.threads[a.thread := s'.threads[a.thread]]
  {
  }

  /* ---- Runs ---- */

  ghost predicate Run(s: State, events: seq<Action>, s': State)
    decreases |events|
  {
    if events == [] then s' == s
    else Enabled(s, events[0]) && Run(Apply(s, events[0]), events[1..], s')
  }

  ghost predicate Initial(s: State, initial: nat)
  {
    && s.count == initial && s.kernel == 0
    && s.signalled == s.acquired == s.returned == 0
    && (forall t :: 0 <= t < |s.threads| ==> s.threads[t].Idle?)
  }

  ghost predicate Reachable(s: State, initial: nat)
  {
    exists s0, events :: Initial(s0, initial) && Run(s0, events, s)
  }

  lemma {:induction false} RunKeepsInv(s: State, initial: nat, events: seq<Action>, s': State)
    requires Inv(s, initial) && Run(s, events, s')
    ensures Inv(s', initial)
    decreases |events|
  {
    if events != [] {
      StepKeepsInv(s, initial, events[0]);
      RunKeepsInv(Apply(s, events[0]), initial, events[1..], s');
    }
  }

  lemma InvOfReachable(s: State, initial: nat)
    requires Reachable(s, initial)
    ensures Inv(s, initial)
  {
    var s0, events :| Initial(s0, initial) && Run(s0, events, s);
    SumByZero(s0.threads, Owed);
    SumByZero(s0.threads, Waiting);
    SumByZero(s0.threads, Held);
    RunKeepsInv(s0, initial, events, s);
  }

  /** Permits are conserved over every interleaving, timeouts included: what was put in is what calls got,
      what is left in the count, what the kernel holds, and what signallers still owe it.  So no permit is
      granted twice. */
  lemma PermitsAreConserved(s: State, initial: nat)
    requires Reachable(s, initial)
    ensures initial + s.signalled == s.acquired + Plus(s.count) + s.kernel + SumBy(s.threads, Owed)
    ensures s.acquired == s.returned + SumBy(s.threads, Held)
    ensures s.acquired <= initial + s.signalled
  {
    InvOfReachable(s, initial);
  }

  /** Every waiter is either counted below zero, so that no permit is free, or has its own post in the
      kernel or on the way there.  A free permit and a waiter never coexist without such a post, and once
      the signallers are through, a blocked thread can take its step. */
  lemma NoWaiterBesideAFreePermit(s: State, initial: nat)
    requires Reachable(s, initial)
    ensures SumBy(s.threads, Waiting) == Plus(-s.count) + s.kernel + SumBy(s.threads, Owed)
    ensures forall t :: 0 <= t < |s.threads| && Waiting(s.threads[t]) > 0 && s.count >= 0
                    ==> s.kernel + SumBy(s.threads, Owed) > 0
    ensures (forall u :: 0 <= u < |s.threads| ==> !s.threads[u].Post?) && s.count >= 0
            ==> forall t :: 0 <= t < |s.threads| && s.threads[t].Block? ==> Enabled(s, Advance(t, false))
  {
    InvOfReachable(s, initial);
    forall t | 0 <= t < |s.threads| && Waiting(s.threads[t]) > 0 && s.count >= 0
      ensures s.kernel + SumBy(s.threads, Owed) > 0
    {
      SumByTerm(s.threads, t, Waiting);
    }
    if forall u :: 0 <= u < |s.threads| ==> !s.threads[u].Post? {
      SumByZero(s.threads, Owed);
    }
  }

  /** A call returns no more than it asked for, and one without a timeout returns at least one permit. */
  lemma CallsReturnWhatTheyPromise(s: State, initial: nat, t: nat)
    requires Reachable(s, initial) && t < |s.threads| && s.threads[t].Done?
    ensures s.threads[t].got <= s.threads[t].req.max
    ensures s.threads[t].req.how.Forever? && s.threads[t].req.max > 0 ==> s.threads[t].got > 0
  {
    InvOfReachable(s, initial);
    assert ThreadOk(s.threads[t]);
  }

  /** With no call in flight the count alone says how many permits there are. */
  lemma AtRest(s: State, initial: nat)
    requires Reachable(s, initial) && forall t :: 0 <= t < |s.threads| ==> s.threads[t].Idle?
    ensures s.count >= 0 && s.kernel == 0 && initial + s.signalled == s.returned + s.count
  {
    InvOfReachable(s, initial);
    SumByZero(s.threads, Owed);
    SumByZero(s.threads, Waiting);
    SumByZero(s.threads, Held);
  }

  /* ---- What one call does when nobody interferes ---- */

  /** An acquiring call takes min(max, count) at once, and a try on an empty semaphore takes nothing. */
  lemma AcquireAlone(s: State, t: nat, req: Request)
    requires Enabled(s, Acquire(t, req)) && (s.count > 0 || req.how.Try? || req.max == 0)
    ensures var got := if s.count <= 0 then 0 else if s.count < req.max then s.count else req.max;
            var a := Apply(s, Acquire(t, req));
            var b := Access(a, t, false);
            var c := if s.count > 0 then Access(b, t, false) else b;
            (got > 0 || req.how.Try? || req.max == 0) &&
            c == Move(s, t, Done(req, got)).(count := s.count - got, acquired := s.acquired + got)
  {
  }

  /** signal(n) moves the count up by n and posts once for each waiter it frees, and no more. */
  lemma SignalAlone(s: State, t: nat, n: nat)
    requires Enabled(s, Signal(t, n))
    ensures var posts := if s.count >= 0 then 0 else if -s.count < n then -s.count else n;
            Posted(Access(Apply(s, Signal(t, n)), t, false), t, posts)
            == s.(count := s.count + n, kernel := s.kernel + posts, signalled := s.signalled + n)
  {
    var posts := if s.count >= 0 then 0 else if -s.count < n then -s.count else n;
    var a := Access(Apply(s, Signal(t, n)), t, false);
    if posts == 0 {
      assert a.threads == s.threads;
    } else {
      PostsAlone(a, t, posts);
      assert Move(a, t, Idle).threads == s.threads;
    }
  }

  // `k` accesses of a signalling thread in a row.
  ghost function Posted(s: State, t: nat, k: nat): State
    requires t < |s.threads|
    decreases k
  {
    if k == 0 || !s.threads[t].Post? then s else Posted(Access(s, t, false), t, k - 1)
  }

  lemma {:induction false} PostsAlone(s: State, t: nat, k: nat)
    requires t < |s.threads| && k > 0 && s.threads[t] == Post(k)
    ensures Posted(s, t, k) == Move(s, t, Idle).(kernel := s.kernel + k)
    decreases k
  {
    var a := Access(s, t, false);
    if k > 1 {
      PostsAlone(a, t, k - 1);
      assert Move(a, t, Idle).threads == Move(s, t, Idle).threads;
    }
  }

  /** A thread on the slow path whose subtraction, wait or late try gets it a permit goes on greedily: alone, it returns
      that one and as many more as it asks for and the count has. */
  lemma SlowPathAlone(s: State, t: nat)
    requires t < |s.threads| && Enabled(s, Advance(t, false))
    requires var pc := s.threads[t];
             (pc.Subtract? && s.count > 0) || ((pc.Block? || pc.LateTry?) && s.kernel > 0)
    requires s.threads[t].req.max > 0
    ensures var req, left := s.threads[t].req, if s.threads[t].Subtract? then s.count - 1 else s.count;
            var more := if left <= 0 then 0 else if left < req.max - 1 then left else req.max - 1;
            var kernel := if s.threads[t].Subtract? then s.kernel else s.kernel - 1;
            Alone(s, t, 3) == Move(s, t, Done(req, 1 + more)).(count := left - more, kernel := kernel,
                                                              acquired := s.acquired + 1 + more)
  {
    var a := Access(s, t, false);
    if s.threads[t].req.max > 1 {
      var b := Access(a, t, false);
      assert Alone(s, t, 3) == Alone(a, t, 2) == Alone(b, t, 1);
      if a.count > 0 {
        var c := Access(b, t, false);
        assert Alone(b, t, 1) == c;
      }
    }
  }

  /** A wait that times out while the count is below zero withdraws: the count is put back, and the call returns
      nothing. If the count has come up meanwhile, a post is on its way to this thread, and is taken. */
  lemma TimeoutAlone(s: State, t: nat)
    requires t < |s.threads| && s.threads[t].Block? && s.threads[t].req.how.Timed? && s.threads[t].req.max > 0
    ensures var late, req := Access(s, t, true), s.threads[t].req;
            && (s.count < 0 ==> Alone(late, t, 2) == Move(s, t, Done(req, 0)).(count := s.count + 1))
            && (s.count >= 0 && s.kernel > 0 ==>
                  Alone(late, t, 2) == Move(s, t, First(req)).(kernel := s.kernel - 1, acquired := s.acquired + 1))
  {
    var late := Access(s, t, true);
    var b := Access(late, t, false);
    assert Alone(late, t, 2) == Alone(b, t, 1);
    if s.count < 0 || s.kernel > 0 {
      var c := Access(b, t, false);
      assert Alone(b, t, 1) == c;
    }
  }

  /** A call that finds no permit spins 10000 times before it waits. */
  lemma SpinsAlone(s: State, t: nat, req: Request)
    requires Enabled(s, Acquire(t, req)) && s.count <= 0 && req.max > 0 && !req.how.Try?
    ensures Alone(Apply(s, Acquire(t, req)), t, SPINS + 2) == Move(s, t, Block(req)).(count := s.count - 1)
  {
    var a := Apply(s, Acquire(t, req));
    var b := Access(a, t, false);
    assert Alone(a, t, SPINS + 2) == Alone(b, t, SPINS + 1);
    SpinsFrom(b, t, req, SPINS);
    assert Move(b, t, Block(req)).threads == Move(s, t, Block(req)).threads;
  }

  lemma {:induction false} SpinsFrom(s: State, t: nat, req: Request, left: nat)
    requires t < |s.threads| && s.threads[t] == SpinLoad(req, left) && left > 0 && s.count <= 0
    ensures Alone(s, t, left + 1) == Move(s, t, Block(req)).(count := s.count - 1)
    decreases left
  {
    var a := Access(s, t, false);
    assert Alone(s, t, left + 1) == Alone(a, t, left);
    if left > 1 {
      SpinsFrom(a, t, req, left - 1);
    } else {
      var b := Access(a, t, false);
      assert Alone(a, t, 1) == b;
    }
    assert Move(a, t, Block(req)).threads == Move(s, t, Block(req)).threads;
  }

  // Up to `k` accesses of an acquiring thread in a row, without a timeout or a spurious failure, until it is through or
  // has to wait.
  ghost function Alone(s: State, t: nat, k: nat): State
    requires t < |s.threads|
    decreases k
  {
    if k == 0 || !Acquiring(s.threads[t]) || !Enabled(s, Advance(t, false)) then s
    else Alone(Access(s, t, false), t, k - 1)
  }

  // Inside an acquiring call that has not got its result.
  predicate Acquiring(pc: PC)
  {
    !pc.Idle? && !pc.Done? && !pc.SignalAdd? && !pc.Post?
  }

  // How many accesses of its own a thread is away from its result, or from a wait, at most.
  function Rank(s: State, pc: PC): nat
  {
    match pc
    case TryCas(_, got, seen) => (if got > 0 then 0 else 2 * SPINS + 6) + if seen == s.count then 1 else 2
    case TryLoad(_, got) => (if got > 0 then 0 else 2 * SPINS + 6) + 2
    case SpinLoad(_, left) => 2 * left + 6
    case SpinCas(_, left, _) => 2 * left + 5
    case Subtract(_) => 4
    case Block(_) => 3
    case LateLoad(_) => 4
    case LateTry(_) => if s.kernel > 0 then 3 else 5
    case LateCas(_, seen) => if seen == s.count then 1 else 5
    case _ => 0
  }

  lemma RankDrops(s: State, t: nat)
    requires Enabled(s, Advance(t, false)) && Acquiring(s.threads[t])
    requires Waiting(s.threads[t]) > 0 && s.count >= 0 ==> s.kernel > 0
    requires ThreadOk(s.threads[t])
    ensures var s' := Access(s, t, false); Rank(s', s'.threads[t]) < Rank(s, s.threads[t])
  {
    match s.threads[t]
    case TryLoad(_, _) =>
    case TryCas(_, _, _) =>
    case SpinLoad(_, _) =>
    case SpinCas(_, _, _) =>
    case Subtract(_) =>
    case Block(_) =>
    case LateLoad(_) =>
    case LateTry(_) =>
    case LateCas(_, _) =>
  }

  lemma {:induction false} AloneEnds(s: State, initial: nat, t: nat, k: nat)
    requires Inv(s, initial) && t < |s.threads| && Acquiring(s.threads[t]) && Rank(s, s.threads[t]) <= k
    requires forall u :: 0 <= u < |s.threads| ==> !s.threads[u].Post?
    ensures var s' := Alone(s, t, k);
            && |s'.threads| == |s.threads|
            && (s'.threads[t].Done? || (s'.threads[t].Block? && s'.kernel == 0 && s'.count < 0))
    decreases k
  {
    SumByZero(s.threads, Owed);
    SumByTerm(s.threads, t, Waiting);
    assert ThreadOk(s.threads[t]);
    if Enabled(s, Advance(t, false)) {
      var s' := Access(s, t, false);
      RankDrops(s, t);
      StepKeepsInv(s, initial, Advance(t, false));
      OneThreadMoves(s, Advance(t, false));
      StaysAcquiring(s, t);
      if Acquiring(s'.threads[t]) { AloneEnds(s', initial, t, k - 1); }
    }
  }

  lemma StaysAcquiring(s: State, t: nat)
    requires Enabled(s, Advance(t, false)) && Acquiring(s.threads[t])
    ensures var pc := Access(s, t, false).threads[t]; Acquiring(pc) || pc.Done?
  {
  }

  /** Wherever an acquiring call is, once no signaller owes a post it comes to an end by itself after at most 20008
      accesses, or waits with a negative count: nobody spins for ever. */
  lemma AcquireEnds(s: State, initial: nat, t: nat)
    requires Reachable(s, initial) && t < |s.threads| && Acquiring(s.threads[t])
    requires forall u :: 0 <= u < |s.threads| ==> !s.threads[u].Post?
    ensures var s' := Alone(s, t, 2 * SPINS + 8);
            && |s'.threads| == |s.threads|
            && (s'.threads[t].Done? || (s'.threads[t].Block? && s'.kernel == 0 && s'.count < 0))
  {
    InvOfReachable(s, initial);
    assert ThreadOk(s.threads[t]);
    AloneEnds(s, initial, t, 2 * SPINS + 8);
  }

  /* ---- What calls return, over runs ---- */

  // Thread t is in its acquiring call all through the run, but for the end.
  ghost predicate InCall(s: State, events: seq<Action>, t: nat)
    decreases |events|
  {
    events != [] ==>
      && t < |s.threads| && Acquiring(s.threads[t])
      && Enabled(s, events[0]) && InCall(Apply(s, events[0]), events[1..], t)
  }

  // In some state of the run no permit is free.
  ghost predicate RanOut(s: State, events: seq<Action>)
    decreases |events|
  {
    s.count <= 0 || (events != [] && Enabled(s, events[0]) && RanOut(Apply(s, events[0]), events[1..]))
  }

  lemma {:induction false} RanOutIfFewer(s: State, events: seq<Action>, s': State, t: nat)
    requires Run(s, events, s') && InCall(s, events, t) && events != [] && t < |s.threads| == |s'.threads|
    requires ThreadOk(s.threads[t]) && s'.threads[t].Done? && s'.threads[t].got < s'.threads[t].req.max
    ensures RanOut(s, events)
    decreases |events|
  {
    var m := Apply(s, events[0]);
    OneThreadMoves(s, events[0]);
    if events[0].thread == t { StepIsBalanced(s, events[0], m); }
    if |events| > 1 {
      RanOutIfFewer(m, events[1..], s', t);
    } else {
      LastAccess(s, t, events[0].bad);
    }
  }

  lemma LastAccess(s: State, t: nat, bad: bool)
    requires Enabled(s, Advance(t, bad)) && Acquiring(s.threads[t]) && ThreadOk(s.threads[t])
    requires var pc := Access(s, t, bad).threads[t]; pc.Done? && pc.got < pc.req.max
    ensures s.count <= 0 || Access(s, t, bad).count <= 0
  {
  }

  /** A call returns fewer permits than it was asked for only if, from any moment of it on, there comes one at which
      none is free: not even after it got its first one the slow way does it leave any behind. */
  lemma FewerOnlyIfNone(initial: nat, s: State, events: seq<Action>, s': State, t: nat)
    requires Reachable(s, initial) && Run(s, events, s') && InCall(s, events, t) && events != []
    requires t < |s.threads| == |s'.threads| && s'.threads[t].Done? && s'.threads[t].got < s'.threads[t].req.max
    ensures RanOut(s, events)
  {
    InvOfReachable(s, initial);
    RanOutIfFewer(s, events, s', t);
  }

  // The call times out in the run.
  ghost predicate TimesOut(s: State, events: seq<Action>, t: nat)
    decreases |events|
  {
    events != [] && t < |s.threads| && Enabled(s, events[0]) &&
    ((events[0] == Advance(t, true) && s.threads[t].Block?) || TimesOut(Apply(s, events[0]), events[1..], t))
  }

  predicate NotLate(pc: PC)
  {
    !pc.LateLoad? && !pc.LateTry? && !pc.LateCas? && !(pc.Done? && pc.got == 0)
  }

  lemma NoTimeout(s: State, a: Action, t: nat)
    requires Enabled(s, a) && t < |s.threads| && Acquiring(s.threads[t]) && NotLate(s.threads[t])
    requires s.threads[t].req.max > 0 && !s.threads[t].req.how.Try? && ThreadOk(s.threads[t])
    requires !(a == Advance(t, true) && s.threads[t].Block?)
    ensures var pc := Apply(s, a).threads[t];
            NotLate(pc) && (Acquiring(pc) || pc.Done?) && pc.req == s.threads[t].req && ThreadOk(pc)
  {
    if a.thread == t { StepIsBalanced(s, a, Apply(s, a)); }
  }

  lemma {:induction false} TimedOutIfNothing(s: State, events: seq<Action>, s': State, t: nat)
    requires Run(s, events, s') && InCall(s, events, t) && t < |s.threads| == |s'.threads|
    requires NotLate(s.threads[t]) && (Acquiring(s.threads[t]) || s.threads[t].Done?) && ThreadOk(s.threads[t])
    requires s.threads[t].req.max > 0 && !s.threads[t].req.how.Try?
    requires s'.threads[t].Done? && s'.threads[t].got == 0
    ensures TimesOut(s, events, t)
    decreases |events|
  {
    if events != [] && !(events[0] == Advance(t, true) && s.threads[t].Block?) {
      NoTimeout(s, events[0], t);
      OneThreadMoves(s, events[0]);
      TimedOutIfNothing(Apply(s, events[0]), events[1..], s', t);
    }
  }

  /** A call that may wait returns nothing only if it asked for nothing or its wait timed out. */
  lemma NothingOnlyAfterTimeout(s: State, req: Request, events: seq<Action>, s': State, t: nat)
    requires Enabled(s, Acquire(t, req)) && req.max > 0 && !req.how.Try?
    requires var a := Apply(s, Acquire(t, req)); Run(a, events, s') && InCall(a, events, t)
    requires |s.threads| == |s'.threads| && s'.threads[t].Done? && s'.threads[t].got == 0
    ensures TimesOut(Apply(s, Acquire(t, req)), events, t)
  {
    TimedOutIfNothing(Apply(s, Acquire(t, req)), events, s', t);
  }
}
