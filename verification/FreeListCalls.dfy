/** What the calls of the free list come to: when try_get may return nothing, and that every call ends when its thread
    is left alone, wherever it and all others stand. */
module FreeListCalls {
  import opened Basics
  import opened FreeList

  /* ---- A try_get that returns nothing ---- */

  // Thread t is in its call all through the run, but for the end.
  ghost predicate InCall(s: State, events: seq<Event>, t: nat)
    requires WellFormed(s)
    decreases |events|
  {
    events != [] ==>
      && t < |s.threads| && !s.threads[t].Idle?
      && Enabled(s, events[0].thread, events[0].action)
      && var m := Apply(s, events[0].thread, events[0].action);
         WellFormed(m) && InCall(m, events[1..], t)
  }

  // The run ends with the return of thread t, and its last access does not take a node.
  ghost predicate EndsWithout(s: State, events: seq<Event>, t: nat)
    requires WellFormed(s)
    decreases |events|
  {
    && events != [] && t < |s.threads|
    && Enabled(s, events[0].thread, events[0].action)
    && var m := Apply(s, events[0].thread, events[0].action);
       && WellFormed(m) && |m.threads| == |s.threads|
       && if |events| > 1 then EndsWithout(m, events[1..], t)
          else events[0].thread == t && m.threads[t].Idle? && !s.threads[t].GetTake?
  }

  // In some state of the run the list is empty.
  ghost predicate WasEmpty(s: State, events: seq<Event>)
    requires WellFormed(s)
    decreases |events|
  {
    || s.head.None?
    || (&& events != [] && Enabled(s, events[0].thread, events[0].action)
        && var m := Apply(s, events[0].thread, events[0].action);
           WellFormed(m) && WasEmpty(m, events[1..]))
  }

  // Inside try_get, and not about to leave it with nothing.
  predicate Looking(pc: PC)
  {
    match pc
    case GetLoad => true
    case GetRefs(_) => true
    case GetPin(_, _) => true
    case GetNext(_) => true
    case GetCas(_, _) => true
    case GetTake(_) => true
    case GetUnpin(_, seen) => seen.Some?
    case LinkLoad(_, r) => r.Resume? && r.seen.Some?
    case LinkNext(_, _, r) => r.Resume? && r.seen.Some?
    case LinkRefs(_, _, r) => r.Resume? && r.seen.Some?
    case LinkCas(_, _, r) => r.Resume? && r.seen.Some?
    case LinkUndo(_, _, r) => r.Resume? && r.seen.Some?
    case _ => false
  }

  lemma StaysLooking(s: State, t: nat, u: nat, a: Action)
    requires WellFormed(s) && Enabled(s, u, a) && t < |s.threads| && Looking(s.threads[t]) && s.head.Some?
    ensures var m := Apply(s, u, a);
            |m.threads| == |s.threads| && (Looking(m.threads[t]) || (u == t && s.threads[t].GetTake?))
  {
    if u == t {
      match s.threads[t]
      case GetLoad =>
      case GetRefs(_) =>
      case GetPin(_, _) =>
      case GetNext(_) =>
      case GetCas(_, _) =>
      case GetTake(_) =>
      case GetUnpin(_, _) =>
      case LinkLoad(_, _) =>
      case LinkNext(_, _, _) =>
      case LinkRefs(_, _, _) =>
      case LinkCas(_, _, _) =>
      case LinkUndo(_, _, _) =>
    }
  }

  lemma {:induction false} EmptyIfNothing(s: State, events: seq<Event>, t: nat)
    requires WellFormed(s) && t < |s.threads| && Looking(s.threads[t])
    requires InCall(s, events, t) && EndsWithout(s, events, t)
    ensures WasEmpty(s, events)
    decreases |events|
  {
    if s.head.Some? {
      var e := events[0];
      StaysLooking(s, t, e.thread, e.action);
      if |events| > 1 { EmptyIfNothing(Apply(s, e.thread, e.action), events[1..], t); }
    }
  }

  /** try_get returns without a node only if, at some moment between its call and its return, the list was empty; losing
      a race to other threads is not enough. */
  lemma NothingOnlyIfEmpty(s: State, events: seq<Event>, t: nat)
    requires WellFormed(s) && Enabled(s, t, CallTryGet)
    requires var m := Apply(s, t, CallTryGet); WellFormed(m) && InCall(m, events, t) && EndsWithout(m, events, t)
    ensures WasEmpty(Apply(s, t, CallTryGet), events)
  {
    EmptyIfNothing(Apply(s, t, CallTryGet), events, t);
  }

  /* ---- Calls end ---- */

  // How far a visit to node n is from a return, beyond the accesses of the visit: nothing if n is first on the list.
  function Detour(h: Option<Node>, c: seq<Node>, n: Node): nat
  {
    if h == Some(n) then 0 else if n in c then 10 else 30
  }

  // The loop of try_get with `seen` as its head.
  function LoopRank(h: Option<Node>, c: seq<Node>, seen: Option<Node>): nat
  {
    if seen.None? then 0 else 5 + Detour(h, c, seen.value)
  }

  // The same after a node may have been put in front of `seen`.
  function LaterRank(c: seq<Node>, seen: Option<Node>): nat
  {
    if seen.None? then 0 else 5 + if seen.value in c then 10 else 30
  }

  function ReturnRank(c: seq<Node>, r: Return): nat
  {
    if r.Finish? then 0 else LaterRank(c, r.seen)
  }

  // The accesses a thread alone is away from its return, at most.
  function Rank(s: State, c: seq<Node>, pc: PC): nat
    requires WellFormed(s) && InPool(pc, |s.refs|)
  {
    match pc
    case Idle => 0
    case AddMark(_) => 5
    case LinkLoad(_, r) => 4 + ReturnRank(c, r)
    case LinkNext(_, h, r) => (if s.head == h then 3 else 7) + ReturnRank(c, r)
    case LinkRefs(_, h, r) => (if s.head == h then 2 else 6) + ReturnRank(c, r)
    case LinkCas(_, h, r) => (if s.head == h then 1 else 5) + ReturnRank(c, r)
    case LinkUndo(_, h, r) => (if s.head == h then 4 else 8) + ReturnRank(c, r)
    case GetLoad => 6
    case GetRefs(n) => 5 + Detour(s.head, c, n)
    case GetPin(n, w) => if Count(w) == 0 || s.refs[n] != w then 7 else 4 + Detour(s.head, c, n)
    case GetNext(n) => 3 + Detour(s.head, c, n)
    case GetCas(n, _) => 2 + Detour(s.head, c, n)
    case GetTake(_) => 1
    case GetUnpin(n, seen) => if n in c then 1 + LoopRank(s.head, c, seen) else 6 + LaterRank(c, seen)
  }

  lemma RankIsSmall(s: State, c: seq<Node>, pc: PC)
    requires WellFormed(s) && InPool(pc, |s.refs|)
    ensures Rank(s, c, pc) <= 43
  {
  }

  // A node on the list has a count, and its bit is clear.
  lemma ListedWord(s: State, g: Trace, n: Node)
    requires Inv(s, g) && n in g.chain
    ensures n < |s.refs| && 0 < s.refs[n] == Count(s.refs[n]) && s.refs[n] < SHOULD_BE_ON_FREELIST
  {
    var i :| 0 <= i < |g.chain| && g.chain[i] == n;
    assert NodeOk(s, g, n);
    PinsBound(s, n);
  }

  ghost predicate RankDrops(s: State, g: Trace, t: nat)
    requires WellFormed(s) && |g.phase| == |s.refs| && Enabled(s, t, Advance)
  {
    var s' := Access(s, t);
    WellFormed(s') && |s'.threads| == |s.threads| &&
    Rank(s', TraceAfter(s, g, t, Advance).chain, s'.threads[t]) < Rank(s, g.chain, s.threads[t])
  }

  lemma LinkRankDrops(s: State, g: Trace, t: nat)
    requires Inv(s, g) && Enabled(s, t, Advance)
    requires var pc := s.threads[t];
             pc.AddMark? || pc.LinkLoad? || pc.LinkNext? || pc.LinkRefs? || pc.LinkCas? || pc.LinkUndo?
    ensures RankDrops(s, g, t)
  {
    ShapeKept(s, t, Advance);
    assert ThreadOk(s, g, t);
    match s.threads[t]
    case AddMark(_) =>
    case LinkLoad(_, _) =>
    case LinkNext(_, _, _) =>
    case LinkRefs(_, _, _) =>
    case LinkCas(_, _, _) =>
    case LinkUndo(_, _, _) =>
  }

  lemma GetRankDrops(s: State, g: Trace, t: nat)
    requires Inv(s, g) && Enabled(s, t, Advance) && (s.threads[t].GetLoad? || InGet(s.threads[t]))
    ensures RankDrops(s, g, t)
  {
    if s.head.Some? { assert g.chain[0] in g.chain; }
    var pc := s.threads[t];
    if pc.GetPin? {
      PinRankDrops(s, g, t);
    } else if pc.GetCas? {
      CasRankDrops(s, g, t);
    } else if pc.GetUnpin? {
      UnpinRankDrops(s, g, t);
    } else {
      OtherRankDrops(s, g, t);
    }
  }

  lemma OtherRankDrops(s: State, g: Trace, t: nat)
    requires Inv(s, g) && Enabled(s, t, Advance)
    requires var pc := s.threads[t]; pc.GetLoad? || pc.GetRefs? || pc.GetNext? || pc.GetTake?
    requires s.head.Some? ==> s.head.value in g.chain
    ensures RankDrops(s, g, t)
  {
    ShapeKept(s, t, Advance);
    var pc := s.threads[t];
    if InGet(pc) && pc.node in g.chain { ListedWord(s, g, pc.node); }
    match pc
    case GetLoad =>
    case GetRefs(_) =>
    case GetNext(_) =>
    case GetTake(_) =>
  }

  lemma PinRankDrops(s: State, g: Trace, t: nat)
    requires Inv(s, g) && Enabled(s, t, Advance) && s.threads[t].GetPin?
    ensures RankDrops(s, g, t)
  {
    ShapeKept(s, t, Advance);
  }

  lemma CasRankDrops(s: State, g: Trace, t: nat)
    requires Inv(s, g) && Enabled(s, t, Advance) && s.threads[t].GetCas?
    ensures RankDrops(s, g, t)
  {
    ShapeKept(s, t, Advance);
    if s.head.Some? { assert g.chain[0] in g.chain; }
  }

  lemma UnpinRankDrops(s: State, g: Trace, t: nat)
    requires Inv(s, g) && Enabled(s, t, Advance) && s.threads[t].GetUnpin?
    ensures RankDrops(s, g, t)
  {
    ShapeKept(s, t, Advance);
    if s.threads[t].node in g.chain { ListedWord(s, g, s.threads[t].node); }
  }

  lemma OneAccess(s: State, g: Trace, t: nat) returns (s': State, g': Trace)
    requires Inv(s, g) && Enabled(s, t, Advance)
    ensures s' == Access(s, t) && Inv(s', g') && t < |s'.threads| == |s.threads|
    ensures Rank(s', g'.chain, s'.threads[t]) < Rank(s, g.chain, s.threads[t])
  {
    s', g' := Access(s, t), TraceAfter(s, g, t, Advance);
    if s.threads[t].GetLoad? || InGet(s.threads[t]) { GetRankDrops(s, g, t); } else { LinkRankDrops(s, g, t); }
    StepKeepsInv(s, g, t, Advance);
  }

  lemma {:induction false} AloneEnds(s: State, g: Trace, t: nat, k: nat)
    requires Inv(s, g) && t < |s.threads| && Rank(s, g.chain, s.threads[t]) <= k
    ensures |Alone(s, t, k).threads| == |s.threads| && Alone(s, t, k).threads[t].Idle?
    decreases k
  {
    if !s.threads[t].Idle? {
      var s', g' := OneAccess(s, g, t);
      AloneEnds(s', g', t, k - 1);
      assert Alone(s, t, k) == Alone(s', t, k - 1);
    }
  }

  /** In every reachable state, with all other threads stopped wherever they are, a call ends after at most 43 accesses:
      no thread can block another. */
  lemma CallsEnd(s: State, t: nat)
    requires Reachable(s) && WellFormed(s) && t < |s.threads|
    ensures |Alone(s, t, 43).threads| == |s.threads| && Alone(s, t, 43).threads[t].Idle?
  {
    var g := InvOfReachable(s);
    RankIsSmall(s, g.chain, s.threads[t]);
    AloneEnds(s, g, t, 43);
  }

  /** And a try_get that starts in any reachable state then takes the first node, or finds the list empty. */
  lemma TryGetTakesHead(s: State, t: nat)
    requires Reachable(s) && WellFormed(s) && Enabled(s, t, CallTryGet)
    ensures var m := Apply(s, t, CallTryGet);
            WellFormed(m) && (s.head.Some? ==> s.refs[s.head.value] > 0) &&
            Alone(m, t, 6) == if s.head.None? then s
                              else var n := s.head.value;
                                   s.(head := s.next[n], refs := s.refs[n := s.refs[n] - 1], owned := s.owned + {n})
  {
    var g := InvOfReachable(s);
    if s.head.Some? {
      assert g.chain[0] in g.chain;
      ListedWord(s, g, s.head.value);
    }
    TryGetAlone(s, t);
  }
}
