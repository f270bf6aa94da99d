/** How consumers of one producer claim indices without a CAS loop: an optimistic count handed out as
    tickets, an overcommit count that takes refused tickets back, and the head index.  One producer
    publishes the tail; any number of consumers run single and bulk dequeues.  The same machine runs on
    unbounded integers, where the proof is, and on the 64-bit words of the program. */
module DequeueClaims {
  import opened Basics
  import Circular

  datatype Width = Unbounded | Wrapped

  function Wrap(k: Width, x: int): int
  {
    if k.Wrapped? then Circular.Word(x) else x
  }

  // circular_less_than(0, d)
  predicate Positive(k: Width, d: int)
  {
    if k.Wrapped? then Circular.CircularLess(0, d) else d > 0
  }

  function Min(a: int, b: int): int { if a < b then a else b }

  // The next atomic access of a consumer.  A single dequeue is a bulk dequeue with max == 1.
  datatype PC =
    | Idle
    | AskTail(max: int)                             // load of tailIndex
    | AskOver(max: int, tail: int)                  // load of dequeueOvercommit
    | AskCount(max: int, tail: int, over: int)      // load of dequeueOptimisticCount, first test
    | Ticket(want: int, over: int)                  // fetch_add on dequeueOptimisticCount
    | Recheck(want: int, over: int, ticket: int)    // load of tailIndex, second test
    | Refund(want: int, got: int, ticket: int)      // fetch_add of want - got on dequeueOvercommit
    | Claim(got: int)                               // fetch_add on headIndex
    | Refuse(want: int, ticket: int)                // fetch_add of want on dequeueOvercommit, return 0

  datatype State = State(tail: int, head: int, optimistic: int, over: int, threads: seq<PC>)

  // `Publish` is the one producer storing a larger tailIndex.
  datatype Action = Publish(count: nat) | Call(thread: nat, max: nat) | Advance(thread: nat)

  predicate Enabled(s: State, a: Action)
  {
    match a
    case Publish(_) => true
    case Call(t, _) => t < |s.threads| && s.threads[t].Idle?
    case Advance(t) => t < |s.threads| && !s.threads[t].Idle?
  }

  function Apply(k: Width, s: State, a: Action): State
    requires Enabled(s, a)
  {
    match a
    case Publish(n) => s.(tail := Wrap(k, s.tail + n))
    case Call(t, max) => s.(threads := s.threads[t := AskTail(max)])
    case Advance(t) => Access(k, s, t)
  }

  function Access(k: Width, s: State, t: nat): State
    requires t < |s.threads| && !s.threads[t].Idle?
  {
    match s.threads[t]
    case AskTail(max) => Move(s, t, AskOver(max, s.tail))
    case AskOver(max, tail) => Move(s, t, AskCount(max, tail, s.over))
    case AskCount(max, tail, over) =>
      var desired := Wrap(k, tail - Wrap(k, s.optimistic - over));
      Move(s, t, if Positive(k, desired) then Ticket(Min(desired, max), over) else Idle)
    case Ticket(want, over) =>
      Move(s, t, Recheck(want, over, s.optimistic)).(optimistic := Wrap(k, s.optimistic + want))
    case Recheck(want, over, ticket) =>
      var actual := Wrap(k, s.tail - Wrap(k, ticket - over));
      Move(s, t,
        if !Positive(k, actual) then Refuse(want, ticket)
        else if actual < want then Refund(want, actual, ticket)
        else Claim(want))
    case Refund(want, got, _) =>
      Move(s, t, Claim(got)).(over := Wrap(k, s.over + (want - got)))
    case Claim(got) =>
      Move(s, t, Idle).(head := Wrap(k, s.head + got))
    case Refuse(want, _) =>
      Move(s, t, Idle).(over := Wrap(k, s.over + want))
  }

  function Move(s: State, t: nat, pc: PC): State
    requires t < |s.threads|
  {
    s.(threads := s.threads[t := pc])
  }

  /* ---- Sets of tickets ---- */

  function Span(a: int, n: int): (r: set<int>)
    ensures forall x :: x in r <==> a <= x < a + n
    ensures |r| == if n > 0 then n else 0
    decreases if n > 0 then n else 0
  {
    if n <= 0 then {} else Span(a, n - 1) + {a + n - 1}
  }

  function Below(s: set<int>, m: int): set<int> { set x | x in s && x < m }

  lemma DisjointSize(a: set<int>, b: set<int>)
    requires a !! b
    ensures |a + b| == |a| + |b|
  {
  }

  lemma {:induction false} SubsetSize(a: set<int>, b: set<int>)
    requires a <= b
    ensures |a| <= |b|
  {
    assert b == a + (b - a);
    DisjointSize(a, b - a);
  }

  /* ---- The invariant ---- */

  // The tickets that passed the second test, those taken back, and the end and overcommit value of the
  // highest ticket that passed.
  datatype Trace = Trace(granted: set<int>, refused: set<int>, top: int, topOver: int)

  // Tickets of a thread that are neither granted nor taken back.
  function Open(pc: PC): set<int>
  {
    match pc
    case Recheck(want, _, ticket) => Span(ticket, want)
    case Refund(want, got, ticket) => Span(ticket + got, want - got)
    case Refuse(want, ticket) => Span(ticket, want)
    case _ => {}
  }

  // Tickets granted to a thread that has not moved the head for them yet.
  function Granted(pc: PC): nat
  {
    match pc
    case Refund(_, got, _) => if got > 0 then got else 0
    case Claim(got) => if got > 0 then got else 0
    case _ => 0
  }

  // Tickets a thread has taken and not accounted for in head or overcommit.
  function InFlight(pc: PC): nat
  {
    match pc
    case Recheck(want, _, _) => if want > 0 then want else 0
    case Refund(want, _, _) => if want > 0 then want else 0
    case Claim(got) => if got > 0 then got else 0
    case Refuse(want, _) => if want > 0 then want else 0
    case _ => 0
  }

  ghost predicate ThreadOk(s: State, g: Trace, pc: PC)
  {
    && Open(pc) !! g.granted && Open(pc) !! g.refused
    && (forall x :: x in Open(pc) ==> 0 <= x < s.optimistic)
    && match pc
       case Idle => true
       case AskTail(max) => 0 <= max
       case AskOver(max, tail) => 0 <= max && 0 <= tail <= s.tail
       case AskCount(max, tail, over) => 0 <= max && 0 <= tail <= s.tail && 0 <= over <= s.over
       case Ticket(want, over) => 0 <= want && 0 <= over <= s.over
       case Recheck(want, over, ticket) =>
         0 <= want && 0 <= ticket <= s.optimistic && 0 <= over <= |Below(g.refused, ticket)|
       case Refund(want, got, ticket) => 0 < got < want
       case Claim(got) => 0 <= got
       case Refuse(want, ticket) => 0 <= want
  }

  ghost predicate ThreadsOk(s: State, g: Trace)
  {
    && (forall t :: 0 <= t < |s.threads| ==> ThreadOk(s, g, s.threads[t]))
    && (forall t, u :: 0 <= t < u < |s.threads| ==> Open(s.threads[t]) !! Open(s.threads[u]))
  }

  ghost predicate CountsOk(s: State, g: Trace)
  {
    && 0 <= s.head && 0 <= s.tail && 0 <= s.optimistic && 0 <= s.over
    && |g.refused| == s.over
    && |g.granted| == s.head + SumBy(s.threads, Granted)
    && s.optimistic == s.head + s.over + SumBy(s.threads, InFlight)
  }

  ghost predicate TicketsOk(s: State, g: Trace)
  {
    && g.granted !! g.refused
    && (forall x :: x in g.granted || x in g.refused ==> 0 <= x < s.optimistic)
    && (forall x :: x in g.granted ==> x < g.top)
  }

  // The highest ticket that passed did so against the overcommit value `topOver`, which counts only
  // tickets below it.
  ghost predicate TopOk(s: State, g: Trace)
  {
    0 <= g.top && 0 <= g.topOver <= |Below(g.refused, g.top)| && g.top - g.topOver <= s.tail
  }

  ghost predicate Inv(s: State, g: Trace)
  {
    ThreadsOk(s, g) && CountsOk(s, g) && TicketsOk(s, g) && TopOk(s, g)
  }

  function TraceAfter(s: State, g: Trace, a: Action): Trace
    requires Enabled(s, a)
  {
    if !a.Advance? then g
    else match s.threads[a.thread]
      case Recheck(want, over, ticket) =>
        var got := Min(want, s.tail - (ticket - over));
        if s.tail - (ticket - over) <= 0 then g
        else Trace(g.granted + Span(ticket, got), g.refused,
                   if ticket + got > g.top then ticket + got else g.top,
                   if ticket + got > g.top then over else g.topOver)
      case Refund(_, _, _) => g.(refused := g.refused + Open(s.threads[a.thread]))
      case Refuse(_, _) => g.(refused := g.refused + Open(s.threads[a.thread]))
      case _ => g
  }

  // Granted tickets never outnumber the elements published: those below `top` were not refused.
  lemma GrantedBelowTail(s: State, g: Trace)
    requires Inv(s, g)
    ensures |g.granted| <= s.tail
  {
    var r := Below(g.refused, g.top);
    DisjointSize(g.granted, r);
    SubsetSize(g.granted + r, Span(0, g.top));
  }

  // Moving thread `t` to `pc` with the counters and the sets given: what is left to check for Inv.
  lemma MoveKeepsInv(s: State, g: Trace, t: nat, s': State, g': Trace)
    requires Inv(s, g) && t < |s.threads|
    requires |s'.threads| == |s.threads| && s'.threads == s.threads[t := s'.threads[t]]
    requires s'.tail == s.tail && s.over <= s'.over && s.optimistic <= s'.optimistic
    requires g.refused <= g'.refused
    requires g'.granted + g'.refused <= g.granted + g.refused + Open(s.threads[t])
    requires Open(s'.threads[t]) <= Open(s.threads[t]) || Open(s'.threads[t]) !! Span(0, s.optimistic)
    requires ThreadOk(s', g', s'.threads[t])
    ensures ThreadsOk(s', g')
    ensures SumBy(s'.threads, Granted) + Granted(s.threads[t]) == SumBy(s.threads, Granted) + Granted(s'.threads[t])
    ensures SumBy(s'.threads, InFlight) + InFlight(s.threads[t]) == SumBy(s.threads, InFlight) + InFlight(s'.threads[t])
  {
    SumByUpdate(s.threads, t, s'.threads[t], Granted);
    SumByUpdate(s.threads, t, s'.threads[t], InFlight);
    BelowMore(g.refused, g'.refused);
    forall u | 0 <= u < |s'.threads| && u != t
      ensures ThreadOk(s', g', s'.threads[u]) && Open(s'.threads[u]) !! Open(s'.threads[t])
    {
      assert ThreadOk(s, g, s.threads[u]) && s'.threads[u] == s.threads[u];
      assert Open(s.threads[u]) !! Open(s.threads[t]);
    }
  }

  // Thread `t` passes the second test with `got` tickets and is then at `pc`.
  ghost predicate Passes(s: State, g: Trace, t: nat, pc: PC, got: int, g': Trace)
  {
    && t < |s.threads| && s.threads[t].Recheck?
    && var r := s.threads[t];
    && 0 < s.tail - (r.ticket - r.over)
    && got == Min(r.want, s.tail - (r.ticket - r.over))
    && pc == (if got < r.want then Refund(r.want, got, r.ticket) else Claim(got))
    && g' == Trace(g.granted + Span(r.ticket, got), g.refused,
                   if r.ticket + got > g.top then r.ticket + got else g.top,
                   if r.ticket + got > g.top then r.over else g.topOver)
  }

  lemma PassTickets(s: State, g: Trace, t: nat, pc: PC, got: int, g': Trace)
    requires Inv(s, g) && Passes(s, g, t, pc, got, g')
    ensures ThreadOk(Move(s, t, pc), g', pc) && TicketsOk(Move(s, t, pc), g')
    ensures g'.granted <= g.granted + Open(s.threads[t])
    ensures Open(pc) <= Open(s.threads[t])
  {
    assert ThreadOk(s, g, s.threads[t]);
  }

  lemma PassTop(s: State, g: Trace, t: nat, pc: PC, got: int, g': Trace)
    requires Inv(s, g) && Passes(s, g, t, pc, got, g')
    ensures TopOk(Move(s, t, pc), g')
  {
    assert ThreadOk(s, g, s.threads[t]);
    BelowGrows(g.refused, s.threads[t].ticket, s.threads[t].ticket + got);
  }

  lemma PassCounts(s: State, g: Trace, t: nat, pc: PC, got: int, g': Trace)
    requires Inv(s, g) && Passes(s, g, t, pc, got, g')
    ensures CountsOk(Move(s, t, pc), g')
  {
    assert ThreadOk(s, g, s.threads[t]);
    SumByUpdate(s.threads, t, pc, Granted);
    SumByUpdate(s.threads, t, pc, InFlight);
    assert Span(s.threads[t].ticket, got) <= Open(s.threads[t]);
    GrantCounts(g.granted, s.threads[t].ticket, got);
  }

  lemma PassKeepsInv(s: State, g: Trace, t: nat, pc: PC, got: int, g': Trace)
    requires Inv(s, g) && Passes(s, g, t, pc, got, g')
    ensures Inv(Move(s, t, pc), g')
  {
    PassTickets(s, g, t, pc, got, g');
    PassTop(s, g, t, pc, got, g');
    PassCounts(s, g, t, pc, got, g');
    MoveKeepsInv(s, g, t, Move(s, t, pc), g');
  }

  lemma GrantCounts(granted: set<int>, a: int, n: nat)
    requires granted !! Span(a, n)
    ensures |granted + Span(a, n)| == |granted| + n
  {
    DisjointSize(granted, Span(a, n));
  }

  // Taking back the open tickets of a thread, which is then at `pc`.
  lemma TakeBackKeepsInv(s: State, g: Trace, t: nat, pc: PC, s': State, g': Trace)
    requires Inv(s, g) && t < |s.threads| && (s.threads[t].Refund? || s.threads[t].Refuse?)
    requires pc == (if s.threads[t].Refund? then Claim(s.threads[t].got) else Idle)
    requires s' == Move(s, t, pc).(over := s.over + |Open(s.threads[t])|)
    requires g' == g.(refused := g.refused + Open(s.threads[t]))
    ensures Inv(s', g')
  {
    assert ThreadOk(s, g, s.threads[t]);
    MoveKeepsInv(s, g, t, s', g');
    DisjointSize(g.refused, Open(s.threads[t]));
    BelowMore(g.refused, g'.refused);
    assert TicketsOk(s', g');
  }

  lemma TicketKeepsInv(s: State, g: Trace, t: nat)
    requires Inv(s, g) && t < |s.threads| && s.threads[t].Ticket?
    ensures Inv(Access(Unbounded, s, t), g)
  {
    var s' := Access(Unbounded, s, t);
    assert ThreadOk(s, g, s.threads[t]);
    assert Below(g.refused, s.optimistic) == g.refused;
    MoveKeepsInv(s, g, t, s', g);
  }

  lemma CallKeepsInv(s: State, g: Trace, t: nat, max: nat)
    requires Inv(s, g) && t < |s.threads| && s.threads[t].Idle?
    ensures Inv(Move(s, t, AskTail(max)), g)
  {
    MoveKeepsInv(s, g, t, Move(s, t, AskTail(max)), g);
  }

  lemma OtherKeepsInv(s: State, g: Trace, t: nat)
    requires Inv(s, g) && t < |s.threads| && !s.threads[t].Idle?
    requires !s.threads[t].Ticket? && !s.threads[t].Refund? && !s.threads[t].Refuse?
    requires s.threads[t].Recheck? ==> s.tail - (s.threads[t].ticket - s.threads[t].over) <= 0
    ensures Inv(Access(Unbounded, s, t), g)
  {
    assert ThreadOk(s, g, s.threads[t]);
    MoveKeepsInv(s, g, t, Access(Unbounded, s, t), g);
  }

  // The steps that change the sets of tickets, in the form the lemmas above take, and the others.
  lemma PassStep(s: State, g: Trace, t: nat)
    requires t < |s.threads| && s.threads[t].Recheck? && 0 < s.tail - (s.threads[t].ticket - s.threads[t].over)
    ensures var pc, s' := s.threads[t], Access(Unbounded, s, t);
            && Passes(s, g, t, s'.threads[t], Min(pc.want, s.tail - (pc.ticket - pc.over)),
                      TraceAfter(s, g, Advance(t)))
            && s' == Move(s, t, s'.threads[t])
  {
  }

  lemma TakeBackStep(s: State, g: Trace, t: nat)
    requires t < |s.threads| && (s.threads[t].Refund? || s.threads[t].Refuse?) && ThreadOk(s, g, s.threads[t])
    ensures var pc, s' := s.threads[t], Access(Unbounded, s, t);
            && s'.threads[t] == (if pc.Refund? then Claim(pc.got) else Idle)
            && s' == Move(s, t, s'.threads[t]).(over := s.over + |Open(pc)|)
            && TraceAfter(s, g, Advance(t)) == g.(refused := g.refused + Open(pc))
  {
  }

  lemma OtherStep(s: State, g: Trace, t: nat)
    requires t < |s.threads| && !s.threads[t].Idle? && !s.threads[t].Refund? && !s.threads[t].Refuse?
    requires s.threads[t].Recheck? ==> s.tail - (s.threads[t].ticket - s.threads[t].over) <= 0
    ensures TraceAfter(s, g, Advance(t)) == g
  {
  }

  lemma AdvanceKeepsInv(s: State, g: Trace, t: nat, s': State, g': Trace)
    requires Inv(s, g) && t < |s.threads| && !s.threads[t].Idle?
    requires s' == Access(Unbounded, s, t) && g' == TraceAfter(s, g, Advance(t))
    ensures Inv(s', g')
  {
    var pc := s.threads[t];
    assert ThreadOk(s, g, pc);
    if pc.Refund? || pc.Refuse? {
      TakeBackStep(s, g, t);
      TakeBackKeepsInv(s, g, t, s'.threads[t], s', g');
    } else if pc.Recheck? && s.tail - (pc.ticket - pc.over) > 0 {
      PassStep(s, g, t);
      PassKeepsInv(s, g, t, s'.threads[t], Min(pc.want, s.tail - (pc.ticket - pc.over)), g');
    } else {
      OtherStep(s, g, t);
      if pc.Ticket? { TicketKeepsInv(s, g, t); } else { OtherKeepsInv(s, g, t); }
    }
  }

  /** Every step keeps the invariant. */
  lemma StepKeepsInv(s: State, g: Trace, a: Action)
    requires Inv(s, g) && Enabled(s, a)
    ensures Inv(Apply(Unbounded, s, a), TraceAfter(s, g, a))
  {
    match a
    case Publish(_) =>
    case Call(t, max) => CallKeepsInv(s, g, t, max);
    case Advance(t) => AdvanceKeepsInv(s, g, t, Apply(Unbounded, s, a), TraceAfter(s, g, a));
  }

  lemma BelowGrows(r: set<int>, m: int, n: int)
    requires m <= n
    ensures |Below(r, m)| <= |Below(r, n)|
  {
    SubsetSize(Below(r, m), Below(r, n));
  }

  lemma BelowMore(r: set<int>, q: set<int>)
    requires r <= q
    ensures forall m: int :: |Below(r, m)| <= |Below(q, m)|
  {
    forall m: int ensures |Below(r, m)| <= |Below(q, m)| {
      SubsetSize(Below(r, m), Below(q, m));
    }
  }

  /* ---- Runs ---- */

  // The index range a step claims: what fetch_add on headIndex returns, and how many.
  function ClaimOf(s: State, a: Action): seq<(int, int)>
    requires Enabled(s, a)
  {
    if a.Advance? && s.threads[a.thread].Claim? then [(s.head, s.threads[a.thread].got)] else []
  }

  // A run from `s` to `s'` claims the ranges in `log`, in that order.
  ghost predicate Run(k: Width, s: State, events: seq<Action>, s': State, log: seq<(int, int)>)
    decreases |events|
  {
    if events == [] then s' == s && log == []
    else
      && Enabled(s, events[0])
      && ClaimOf(s, events[0]) <= log
      && Run(k, Apply(k, s, events[0]), events[1..], s', log[|ClaimOf(s, events[0])|..])
  }

  ghost predicate Initial(s: State)
  {
    && s.tail == s.head == s.optimistic == s.over == 0
    && (forall t :: 0 <= t < |s.threads| ==> s.threads[t].Idle?)
  }

  // The ranges in `log` follow one another without gap or overlap from `a` to `b`.
  ghost predicate Consecutive(log: seq<(int, int)>, a: int, b: int)
  {
    if log == [] then a == b
    else log[0].0 == a && log[0].1 >= 0 && Consecutive(log[1..], a + log[0].1, b)
  }

  lemma {:induction false} RunKeepsInv(s: State, g: Trace, events: seq<Action>, s': State, log: seq<(int, int)>)
    returns (g': Trace)
    requires Inv(s, g) && Run(Unbounded, s, events, s', log)
    ensures Inv(s', g') && Consecutive(log, s.head, s'.head)
    decreases |events|
  {
    if events == [] {
      g' := g;
    } else {
      var a := events[0];
      StepKeepsInv(s, g, a);
      g' := RunKeepsInv(Apply(Unbounded, s, a), TraceAfter(s, g, a), events[1..], s', log[|ClaimOf(s, a)|..]);
      if a.Advance? && s.threads[a.thread].Claim? {
        assert ThreadOk(s, g, s.threads[a.thread]);
      }
    }
  }

  lemma InvOfRun(s0: State, events: seq<Action>, s: State, log: seq<(int, int)>) returns (g: Trace)
    requires Initial(s0) && Run(Unbounded, s0, events, s, log)
    ensures Inv(s, g) && Consecutive(log, 0, s.head)
  {
    SumByZero(s0.threads, Granted);
    SumByZero(s0.threads, InFlight);
    g := RunKeepsInv(s0, Trace({}, {}, 0, 0), events, s, log);
  }

  lemma {:induction false} ConsecutiveApart(log: seq<(int, int)>, a: int, b: int, i: nat, j: nat)
    requires Consecutive(log, a, b) && i < j < |log|
    ensures a <= log[i].0 <= log[i].0 + log[i].1 <= log[j].0 <= log[j].0 + log[j].1 <= b
  {
    ConsecutiveInside(log, a, b, j);
    if i == 0 {
      ConsecutiveInside(log[1..], a + log[0].1, b, j - 1);
    } else {
      ConsecutiveApart(log[1..], a + log[0].1, b, i - 1, j - 1);
    }
  }

  lemma {:induction false} ConsecutiveInside(log: seq<(int, int)>, a: int, b: int, i: nat)
    requires Consecutive(log, a, b) && i < |log|
    ensures a <= log[i].0 <= log[i].0 + log[i].1 <= b
  {
    if i > 0 {
      ConsecutiveInside(log[1..], a + log[0].1, b, i - 1);
    } else {
      ConsecutiveUp(log[1..], a + log[0].1, b);
    }
  }

  lemma {:induction false} ConsecutiveUp(log: seq<(int, int)>, a: int, b: int)
    requires Consecutive(log, a, b)
    ensures a <= b
  {
    if log != [] {
      ConsecutiveUp(log[1..], a + log[0].1, b);
    }
  }

  /** Every index claimed in a run is below the tail, and no index is claimed twice. */
  lemma ClaimsAreElements(s0: State, events: seq<Action>, s: State, log: seq<(int, int)>)
    requires Initial(s0) && Run(Unbounded, s0, events, s, log)
    ensures forall i :: 0 <= i < |log| ==> 0 <= log[i].0 <= log[i].0 + log[i].1 <= s.tail
    ensures forall i, j :: 0 <= i < j < |log| ==> log[i].0 + log[i].1 <= log[j].0
  {
    var g := InvOfRun(s0, events, s, log);
    GrantedBelowTail(s, g);
    forall i | 0 <= i < |log| ensures 0 <= log[i].0 <= log[i].0 + log[i].1 <= s.head {
      ConsecutiveInside(log, 0, s.head, i);
    }
    forall i, j | 0 <= i < j < |log| ensures log[i].0 + log[i].1 <= log[j].0 {
      ConsecutiveApart(log, 0, s.head, i, j);
    }
  }

  /** A consumer that has passed the second test finds its elements published, whatever the others do
      before it moves the head; and the three counters balance with the tickets in flight. */
  lemma PassedTestIsGood(s0: State, events: seq<Action>, s: State, log: seq<(int, int)>)
    requires Initial(s0) && Run(Unbounded, s0, events, s, log)
    ensures s.head + SumBy(s.threads, Granted) <= s.tail
    ensures forall t :: 0 <= t < |s.threads| && s.threads[t].Claim? ==> s.head + s.threads[t].got <= s.tail
    ensures s.optimistic == s.head + s.over + SumBy(s.threads, InFlight)
  {
    var g := InvOfRun(s0, events, s, log);
    GrantedBelowTail(s, g);
    forall t | 0 <= t < |s.threads| && s.threads[t].Claim? ensures s.head + s.threads[t].got <= s.tail {
      SumByTerm(s.threads, t, Granted);
    }
  }

  /* ---- Calls for no elements ---- */

  // A consumer whose call asked for at least one element.
  predicate Wants(pc: PC)
  {
    match pc
    case Idle => true
    case AskTail(max) => max > 0
    case AskOver(max, _) => max > 0
    case AskCount(max, _, _) => max > 0
    case Ticket(want, _) => want > 0
    case Recheck(want, _, _) => want > 0
    case Refund(_, got, _) => got > 0
    case Claim(got) => got > 0
    case Refuse(want, _) => want > 0
  }

  ghost predicate AllWant(events: seq<Action>)
  {
    forall i :: 0 <= i < |events| && events[i].Call? ==> events[i].max > 0
  }

  lemma WantsKept(s: State, t: nat)
    requires t < |s.threads| && !s.threads[t].Idle? && Wants(s.threads[t])
    ensures Wants(Access(Unbounded, s, t).threads[t])
  {
  }

  lemma {:induction false} WantedClaims(s: State, events: seq<Action>, s': State, log: seq<(int, int)>)
    requires Run(Unbounded, s, events, s', log) && AllWant(events)
    requires forall t :: 0 <= t < |s.threads| ==> Wants(s.threads[t])
    ensures forall i :: 0 <= i < |log| ==> log[i].1 > 0
    decreases |events|
  {
    if events != [] {
      var a := events[0];
      var first := ClaimOf(s, a);
      if a.Advance? { WantsKept(s, a.thread); }
      assert a.Call? ==> a.max > 0;
      WantedClaims(Apply(Unbounded, s, a), events[1..], s', log[|first|..]);
      forall i | 0 <= i < |log| ensures log[i].1 > 0 {
        if i < |first| { assert log[i] == first[i]; } else { assert log[i] == log[|first|..][i - |first|]; }
      }
    }
  }

  /** When every call asks for at least one element, every claim has elements: its first index, too, is below the tail,
      and in no other claim. */
  lemma ClaimsHaveElements(s0: State, events: seq<Action>, s: State, log: seq<(int, int)>)
    requires Initial(s0) && Run(Unbounded, s0, events, s, log) && AllWant(events)
    ensures OwnIndices(log, s.tail)
  {
    ClaimsAreElements(s0, events, s, log);
    WantedClaims(s0, events, s, log);
  }

  // Every claim starts at an index that is published and in no other claim.
  ghost predicate OwnIndices(log: seq<(int, int)>, tail: int)
  {
    forall i :: 0 <= i < |log| ==> OwnIndex(log, tail, i)
  }

  ghost predicate OwnIndex(log: seq<(int, int)>, tail: int, i: nat)
    requires i < |log|
  {
    log[i].0 < tail && forall j :: 0 <= j < |log| && j != i ==> !(log[j].0 <= log[i].0 < log[j].0 + log[j].1)
  }

  // Consumer t asks for `max` elements each time, the others for at least one.
  ghost predicate CallsWith(events: seq<Action>, t: nat, max: nat)
  {
    forall i :: 0 <= i < |events| && events[i].Call? ==>
                  if events[i].thread == t then events[i].max == max else events[i].max > 0
  }

  // Asking for `max` elements at a time is safe: whatever the others do, each claim has its own indices.
  ghost predicate Safe(max: nat)
  {
    forall t, s0, events, s, log ::
      CallsWith(events, t, max) && Run(Unbounded, s0, events, s, log) && Initial(s0) ==> OwnIndices(log, s.tail)
  }

  /** A bulk dequeue is safe exactly when it asks for at least one element. One that asks for none takes no ticket, but
      passes both tests when there are elements, and then claims an empty range at the head: by then that index may be
      another consumer's, or none at all. */
  lemma SafeIsPositive(max: nat)
    ensures Safe(max) <==> max > 0
  {
    if max > 0 {
      forall t, s0, events, s, log |
        CallsWith(events, t, max) && Run(Unbounded, s0, events, s, log) && Initial(s0)
        ensures OwnIndices(log, s.tail)
      {
        ClaimsHaveElements(s0, events, s, log);
      }
    } else {
      NoneIsUnsafe();
    }
  }

  lemma NoneIsUnsafe()
    ensures !Safe(0)
  {
    var s0, events, s, log := EmptyClaimRun();
    assert !OwnIndex(log, s.tail, 1);
  }

  // A run with one more step in front.
  lemma Before(p: State, a: Action, cur: State, events: seq<Action>, s: State, log: seq<(int, int)>)
    returns (s0: State, events': seq<Action>, log': seq<(int, int)>)
    requires Enabled(p, a) && Apply(Unbounded, p, a) == cur && Run(Unbounded, cur, events, s, log)
    requires CallsWith(events, 0, 0) && CallsWith([a], 0, 0)
    ensures s0 == p && Run(Unbounded, p, events', s, log') && log' == ClaimOf(p, a) + log && CallsWith(events', 0, 0)
  {
    s0, events', log' := p, [a] + events, ClaimOf(p, a) + log;
    assert events'[1..] == events && log'[|ClaimOf(p, a)|..] == log;
    forall i | 0 <= i < |events'| && events'[i].Call?
      ensures if events'[i].thread == 0 then events'[i].max == 0 else events'[i].max > 0
    {
      if i == 0 { assert [a][0] == a; }
    }
  }

  // A consumer that finds enough elements goes on from the first access to its claim.
  lemma ToClaim(p: State, t: nat, max: nat, cur: State, events: seq<Action>, s: State, log: seq<(int, int)>)
    returns (s0: State, events': seq<Action>, log': seq<(int, int)>)
    requires t < |p.threads| && p.threads[t] == AskTail(max) && p.over == 0 && p.tail - p.optimistic > 0
    requires max <= p.tail - p.optimistic
    requires cur == p.(threads := p.threads[t := Claim(max)], optimistic := p.optimistic + max)
    requires Run(Unbounded, cur, events, s, log) && CallsWith(events, 0, 0)
    ensures s0 == p && Run(Unbounded, p, events', s, log') && log' == log && CallsWith(events', 0, 0)
  {
    var c := p.optimistic;
    s0, events', log' := Before(Move(p, t, Recheck(max, 0, c)).(optimistic := c + max), Advance(t), cur, events,
                               s, log);
    s0, events', log' := Before(Move(p, t, Ticket(max, 0)), Advance(t), s0, events', s, log');
    s0, events', log' := Before(Move(p, t, AskCount(max, p.tail, 0)), Advance(t), s0, events', s, log');
    s0, events', log' := Before(Move(p, t, AskOver(max, p.tail)), Advance(t), s0, events', s, log');
    s0, events', log' := Before(p, Advance(t), s0, events', s, log');
  }

  // From consumer 0 at its claim of nothing: consumer 1 claims the block, and then consumer 0 claims nothing.
  lemma EmptyClaimEnd() returns (events: seq<Action>, s: State, log: seq<(int, int)>)
    ensures CallsWith(events, 0, 0) && s.tail == s.head == 32 && log == [(0, 32), (32, 0)]
    ensures Run(Unbounded, State(32, 0, 0, 0, [Claim(0), Idle]), events, s, log)
  {
    var taken := State(32, 32, 32, 0, [Claim(0), Idle]);
    var both := State(32, 0, 32, 0, [Claim(0), Claim(32)]);
    s := State(32, 32, 32, 0, [Idle, Idle]);
    var s0;
    s0, events, log := Before(taken, Advance(0), s, [], s, []);
    s0, events, log := Before(both, Advance(1), taken, events, s, log);
    s0, events, log := ToClaim(State(32, 0, 0, 0, [Claim(0), AskTail(32)]), 1, 32, both, events, s, log);
    s0, events, log := Before(State(32, 0, 0, 0, [Claim(0), Idle]), Call(1, 32), s0, events, s, log);
  }

  /** One block is published. A consumer that asks for nothing gets as far as the claim; another one claims the block;
      and then the first claims nothing, at index 32, which is not published. Told backwards. */
  lemma EmptyClaimRun() returns (s0: State, events: seq<Action>, s: State, log: seq<(int, int)>)
    ensures Initial(s0) && CallsWith(events, 0, 0) && Run(Unbounded, s0, events, s, log)
    ensures s.tail == s.head == 32 && log == [(0, 32), (32, 0)]
  {
    events, s, log := EmptyClaimEnd();
    var asked := State(32, 0, 0, 0, [AskTail(0), Idle]);
    s0, events, log := ToClaim(asked, 0, 0, State(32, 0, 0, 0, [Claim(0), Idle]), events, s, log);
    s0, events, log := Before(State(32, 0, 0, 0, [Idle, Idle]), Call(0, 0), s0, events, s, log);
    s0, events, log := Before(State(0, 0, 0, 0, [Idle, Idle]), Publish(32), s0, events, s, log);
  }

  // `n` accesses of thread `t` in a row.
  ghost function Alone(s: State, t: nat, n: nat): State
    requires t < |s.threads|
    decreases n
  {
    if n == 0 || s.threads[t].Idle? then s else Alone(Access(Unbounded, s, t), t, n - 1)
  }

  // The elements that no ticket is out for, and what a consumer that asks for `max` gets of them.
  function Share(s: State, max: nat): nat
  {
    var free := s.tail - s.head - SumBy(s.threads, InFlight);
    if free > 0 then Min(free, max) else 0
  }

  /** A dequeue that is left alone takes min(max, elements no ticket is out for), wherever the others stand: it fails
      exactly when there are none. */
  lemma DequeueBesideOthers(s0: State, events: seq<Action>, s: State, log: seq<(int, int)>, t: nat, max: nat)
    requires Initial(s0) && Run(Unbounded, s0, events, s, log) && t < |s.threads| && s.threads[t].Idle?
    ensures var got := Share(s, max);
            Alone(Apply(Unbounded, s, Call(t, max)), t, 6)
            == s.(head := s.head + got, optimistic := s.optimistic + got)
  {
    var g := InvOfRun(s0, events, s, log);
    var a := Apply(Unbounded, s, Call(t, max));
    var b := Access(Unbounded, a, t);
    var c := Access(Unbounded, b, t);
    var d := Access(Unbounded, c, t);
    assert Alone(a, t, 6) == Alone(b, t, 5) == Alone(c, t, 4) == Alone(d, t, 3);
    if s.tail - (s.optimistic - s.over) > 0 {
      var e := Access(Unbounded, d, t);
      var f := Access(Unbounded, e, t);
      var h := Access(Unbounded, f, t);
      assert Alone(d, t, 3) == Alone(e, t, 2) == Alone(f, t, 1) == h;
      assert h.threads == s.threads;
    } else {
      assert d.threads == s.threads;
    }
  }

  /** A consumer whose tickets turn out to be too many keeps what the second test leaves it, and takes the rest back; it
      takes all back only if that is nothing. */
  lemma SecondTestAlone(s: State, t: nat)
    requires t < |s.threads| && s.threads[t].Recheck? && s.threads[t].want >= 0
    ensures var pc := s.threads[t];
            var actual := s.tail - (pc.ticket - pc.over);
            var got := if actual > 0 then Min(pc.want, actual) else 0;
            Alone(s, t, 3) == Move(s, t, Idle).(head := s.head + got, over := s.over + (pc.want - got))
  {
    var b := Access(Unbounded, s, t);
    assert Alone(s, t, 3) == Alone(b, t, 2);
    var c := Access(Unbounded, b, t);
    assert Alone(b, t, 2) == Alone(c, t, 1);
    if b.threads[t].Refund? {
      var d := Access(Unbounded, c, t);
      assert Alone(c, t, 1) == d;
    }
  }

  /** With nothing in flight, a dequeue takes min(max, tail - head) elements: it fails exactly when the
      producer's queue is empty, however often earlier ones failed. */
  lemma DequeueAtRest(s0: State, events: seq<Action>, s: State, log: seq<(int, int)>, t: nat, max: nat)
    requires Initial(s0) && Run(Unbounded, s0, events, s, log)
    requires forall u :: 0 <= u < |s.threads| ==> s.threads[u].Idle?
    requires t < |s.threads|
    ensures var got := if s.head < s.tail then Min(s.tail - s.head, max) else 0;
            && s.head <= s.tail
            && Alone(Apply(Unbounded, s, Call(t, max)), t, 6)
               == s.(head := s.head + got, optimistic := s.optimistic + got)
  {
    PassedTestIsGood(s0, events, s, log);
    SumByZero(s.threads, Granted);
    SumByZero(s.threads, InFlight);
    DequeueBesideOthers(s0, events, s, log, t, max);
  }

  /* ---- The machine on words ---- */

  function WordsOf(pc: PC): PC
  {
    match pc
    case AskOver(max, tail) => AskOver(max, Circular.Word(tail))
    case AskCount(max, tail, over) => AskCount(max, Circular.Word(tail), Circular.Word(over))
    case Ticket(want, over) => Ticket(want, Circular.Word(over))
    case Recheck(want, over, ticket) => Recheck(want, Circular.Word(over), Circular.Word(ticket))
    case Refund(want, got, ticket) => Refund(want, got, Circular.Word(ticket))
    case Refuse(want, ticket) => Refuse(want, Circular.Word(ticket))
    case _ => pc
  }

  function Words(s: State): State
  {
    State(Circular.Word(s.tail), Circular.Word(s.head), Circular.Word(s.optimistic), Circular.Word(s.over),
          seq(|s.threads|, t requires 0 <= t < |s.threads| => WordsOf(s.threads[t])))
  }

  // The difference a test compares with zero fits in half the range of a word.
  predicate InWindow(s: State, a: Action)
    requires Enabled(s, a)
  {
    a.Advance? ==>
      match s.threads[a.thread]
      case AskCount(_, tail, over) => -Circular.HALF <= tail - (s.optimistic - over) < Circular.HALF
      case Recheck(_, over, ticket) => -Circular.HALF <= s.tail - (ticket - over) < Circular.HALF
      case _ => true
  }

  // The nested subtraction of the tests, on words.
  lemma TestOnWords(tail: int, count: int, over: int)
    requires -Circular.HALF <= tail - (count - over) < Circular.HALF
    ensures var d := Circular.Word(Circular.Word(tail) - Circular.Word(Circular.Word(count) - Circular.Word(over)));
            && (Positive(Wrapped, d) <==> tail - (count - over) > 0)
            && (tail - (count - over) > 0 ==> d == tail - (count - over))
  {
    Circular.WordOfDifference(count, over);
    Circular.WordOfDifference(tail, count - over);
    Circular.WordOfDifference(0, tail - (count - over));
    Circular.CircularLessIsLess(0, tail - (count - over));
  }

  /** The single dequeue writes the first and second test the other way round; it is the same test. */
  lemma SingleTestIsBulkTest(tail: int, count: int, over: int)
    ensures Circular.CircularLess(Circular.Word(count - over), tail)
            <==> Positive(Wrapped, Circular.Word(tail - Circular.Word(count - over)))
  {
    var c := Circular.Word(count - over);
    Circular.WordOfDifference(0, tail - c);
  }

  lemma WordsLoad(s: State, t: nat)
    requires t < |s.threads| && (s.threads[t].AskTail? || s.threads[t].AskOver?)
    ensures Access(Wrapped, Words(s), t) == Words(Access(Unbounded, s, t))
  {
    assert Access(Wrapped, Words(s), t).threads == Words(Access(Unbounded, s, t)).threads;
  }

  lemma WordsTest(s: State, t: nat)
    requires t < |s.threads| && (s.threads[t].AskCount? || s.threads[t].Recheck?) && InWindow(s, Advance(t))
    ensures Access(Wrapped, Words(s), t) == Words(Access(Unbounded, s, t))
  {
    match s.threads[t]
    case AskCount(max, tail, over) => TestOnWords(tail, s.optimistic, over);
    case Recheck(want, over, ticket) => TestOnWords(s.tail, ticket, over);
    assert Access(Wrapped, Words(s), t).threads == Words(Access(Unbounded, s, t)).threads;
  }

  lemma WordsAdd(s: State, t: nat)
    requires t < |s.threads|
    requires s.threads[t].Ticket? || s.threads[t].Refund? || s.threads[t].Claim? || s.threads[t].Refuse?
    ensures Access(Wrapped, Words(s), t) == Words(Access(Unbounded, s, t))
  {
    match s.threads[t]
    case Ticket(want, _) => Circular.WordOfSum(s.optimistic, want);
    case Refund(want, got, _) => Circular.WordOfSum(s.over, want - got);
    case Claim(got) => Circular.WordOfSum(s.head, got);
    case Refuse(want, _) => Circular.WordOfSum(s.over, want);
    assert Access(Wrapped, Words(s), t).threads == Words(Access(Unbounded, s, t)).threads;
  }

  /** As long as the compared differences fit in half a word, a step on words is the step on unbounded
      integers seen through Words: the program takes the branches the proof is about. */
  lemma WordsStep(s: State, a: Action)
    requires Enabled(s, a) && InWindow(s, a)
    ensures Enabled(Words(s), a) && Apply(Wrapped, Words(s), a) == Words(Apply(Unbounded, s, a))
  {
    match a
    case Publish(n) => Circular.WordOfSum(s.tail, n);
    case Call(t, max) =>
      assert Apply(Wrapped, Words(s), a).threads == Words(Apply(Unbounded, s, a)).threads;
    case Advance(t) =>
      var pc := s.threads[t];
      if pc.AskTail? || pc.AskOver? {
        WordsLoad(s, t);
      } else if pc.AskCount? || pc.Recheck? {
        WordsTest(s, t);
      } else {
        WordsAdd(s, t);
      }
  }

  ghost predicate RunInWindow(s: State, events: seq<Action>)
    decreases |events|
  {
    events != [] ==>
      && Enabled(s, events[0])
      && InWindow(s, events[0])
      && RunInWindow(Apply(Unbounded, s, events[0]), events[1..])
  }

  function WordsOfLog(log: seq<(int, int)>): seq<(int, int)>
  {
    seq(|log|, i requires 0 <= i < |log| => (Circular.Word(log[i].0), log[i].1))
  }

  /** A whole run on words claims the words of the indices the unbounded run claims. */
  lemma {:induction false} WordsRun(s: State, events: seq<Action>, s': State, log: seq<(int, int)>)
    requires Run(Unbounded, s, events, s', log) && RunInWindow(s, events)
    ensures Run(Wrapped, Words(s), events, Words(s'), WordsOfLog(log))
    decreases |events|
  {
    if events != [] {
      var a := events[0];
      var first := ClaimOf(s, a);
      WordsStep(s, a);
      WordsRun(Apply(Unbounded, s, a), events[1..], s', log[|first|..]);
      assert log == first + log[|first|..];
      assert ClaimOf(Words(s), a) == WordsOfLog(first);
      assert WordsOfLog(log) == WordsOfLog(first) + WordsOfLog(log[|first|..]);
      assert WordsOfLog(log)[|first|..] == WordsOfLog(log[|first|..]);
    }
  }

  /* ---- How long the words are good ---- */

  lemma BelowSize(r: set<int>, m: int)
    requires 0 <= m && forall x :: x in r ==> 0 <= x
    ensures |Below(r, m)| <= m
  {
    SubsetSize(Below(r, m), Span(0, m));
  }

  /** While fewer than 2^63 elements have been published and tickets drawn, every test is inside the window. */
  lemma ReachableInWindow(s: State, g: Trace, a: Action)
    requires Inv(s, g) && Enabled(s, a) && s.tail < Circular.HALF && s.optimistic <= Circular.HALF
    ensures InWindow(s, a)
  {
    if a.Advance? {
      assert ThreadOk(s, g, s.threads[a.thread]);
      if s.threads[a.thread].Recheck? { BelowSize(g.refused, s.threads[a.thread].ticket); }
    }
  }

  // How old the values may be that a consumer goes by. The first test: the elements published since it loaded the tail,
  // the tickets refused since it loaded the overcommit, and the tickets in flight are 2^63 at most together. The second
  // test: the last two are, and the queue's elements and the tickets drawn since its own are fewer than that together.
  ghost predicate Fresh(s: State, pc: PC)
  {
    match pc
    case AskCount(_, tail, over) =>
      && s.tail - s.head < Circular.HALF
      && (s.tail - tail) + (s.over - over) + SumBy(s.threads, InFlight) <= Circular.HALF
    case Recheck(_, over, ticket) =>
      && s.tail - s.head + (s.optimistic - ticket) < Circular.HALF
      && (s.over - over) + SumBy(s.threads, InFlight) <= Circular.HALF
    case _ => true
  }

  /** Beyond that the tests are good as long as what a consumer has read is not too old. */
  lemma FreshInWindow(s: State, g: Trace, t: nat)
    requires Inv(s, g) && t < |s.threads| && !s.threads[t].Idle? && Fresh(s, s.threads[t])
    ensures InWindow(s, Advance(t))
  {
    assert ThreadOk(s, g, s.threads[t]);
    GrantedBelowTail(s, g);
    assert s.threads[t].Recheck? ==> Below(g.refused, s.threads[t].ticket) <= g.refused;
    if s.threads[t].Recheck? { SubsetSize(Below(g.refused, s.threads[t].ticket), g.refused); }
  }

  lemma CountersGrow(s: State, g: Trace, a: Action)
    requires Inv(s, g) && Enabled(s, a)
    ensures s.tail <= Apply(Unbounded, s, a).tail && s.optimistic <= Apply(Unbounded, s, a).optimistic
  {
    if a.Advance? { assert ThreadOk(s, g, s.threads[a.thread]); }
  }

  lemma {:induction false} RunStaysInWindow(s: State, g: Trace, events: seq<Action>, s': State, log: seq<(int, int)>)
    requires Inv(s, g) && Run(Unbounded, s, events, s', log)
    requires s'.tail < Circular.HALF && s'.optimistic <= Circular.HALF
    ensures RunInWindow(s, events) && s.tail <= s'.tail && s.optimistic <= s'.optimistic
    decreases |events|
  {
    if events != [] {
      var a := events[0];
      StepKeepsInv(s, g, a);
      CountersGrow(s, g, a);
      RunStaysInWindow(Apply(Unbounded, s, a), TraceAfter(s, g, a), events[1..], s', log[|ClaimOf(s, a)|..]);
      ReachableInWindow(s, g, a);
    }
  }

  /** So every run from the start that ends before 2^63 elements and tickets is a run of the program's words, and claims
      the words of the same indices. */
  lemma WordsOfReachable(s0: State, events: seq<Action>, s: State, log: seq<(int, int)>)
    requires Initial(s0) && Run(Unbounded, s0, events, s, log)
    requires s.tail < Circular.HALF && s.optimistic <= Circular.HALF
    ensures Run(Wrapped, Words(s0), events, Words(s), WordsOfLog(log))
  {
    SumByZero(s0.threads, Granted);
    SumByZero(s0.threads, InFlight);
    RunStaysInWindow(s0, Trace({}, {}, 0, 0), events, s, log);
    WordsRun(s0, events, s, log);
  }
}
