/** Every call of get_or_add_implicit_producer ends, and with the right producer: what a thread does when no other holds
    the resize flag, from wherever it and the others stand. */
module ProducerCalls {
  import opened Basics
  import opened ProducerHash

  // How many slots a probe passes from `step` on before it comes to an empty one.
  function Distance(tb: Table, hash: nat, step: nat): (d: nat)
    requires TableShape(tb)
    ensures d <= |tb.keys|
    ensures step <= |tb.keys| ==> d <= |tb.keys| - step
    decreases |tb.keys| - step
  {
    if step >= |tb.keys| || tb.keys[Slot(hash, step, |tb.keys|)] == EMPTY then 0 else 1 + Distance(tb, hash, step + 1)
  }

  // The accesses of a search of the tables below `cur` that does not find its key.
  function SearchRank(s: State, hash: nat, cur: nat): nat
    requires Shape(s) && cur <= |s.tables|
  {
    if cur == 0 then 0 else SearchRank(s, hash, cur - 1) + Distance(s.tables[cur - 1], hash, 0) + 1
  }

  // The slots of the tables below `cur`, and one access more for each of them.
  function Slots(tables: seq<Table>, cur: nat): nat
    requires cur <= |tables|
  {
    if cur == 0 then 0 else Slots(tables, cur - 1) + |tables[cur - 1].keys| + 1
  }

  lemma {:induction false} SearchIsBounded(s: State, hash: nat, cur: nat)
    requires Shape(s) && cur <= |s.tables|
    ensures SearchRank(s, hash, cur) <= Slots(s.tables, cur)
  {
    if cur > 0 { SearchIsBounded(s, hash, cur - 1); }
  }

  function NewestDistance(s: State, hash: nat): nat
    requires Shape(s)
  {
    Distance(s.tables[|s.tables| - 1], hash, 0)
  }

  // The accesses a thread alone is away from its result, at most.
  function Rank(s: State, t: nat): nat
    requires Shape(s) && t < |s.threads|
  {
    var h := s.hashes[t];
    match s.threads[t]
    case Start => SearchRank(s, h, |s.tables|) + 2 * NewestDistance(s, h) + 12
    case Search(main, cur, step) =>
      SearchRank(s, h, cur) + Distance(s.tables[cur], h, step) + 1 + Distance(s.tables[main], h, 0)
      + NewestDistance(s, h) + 10
    case CopyProbe(main, _, step) => Distance(s.tables[main], h, step) + 3
    case CopyCas(main, _, step) =>
      if s.tables[main].keys[Slot(h, step, |s.tables[main].keys|)] == EMPTY then 2
      else Distance(s.tables[main], h, step) + 3
    case CopyStore(_, _, _) => 1
    case Number(main) => Distance(s.tables[main], h, 0) + NewestDistance(s, h) + 10
    case TryLock(main, _) => Distance(s.tables[main], h, 0) + NewestDistance(s, h) + 9
    case Reload(_) => NewestDistance(s, h) + 7
    case Install(_, _) => 6
    case Unlock(main, _) => Distance(s.tables[main], h, 0) + 5
    case Create(main, _) => Distance(s.tables[main], h, 0) + 4
    case InsertProbe(main, _, _, step) => Distance(s.tables[main], h, step) + 3
    case InsertCas(main, _, _, step) =>
      if s.tables[main].keys[Slot(h, step, |s.tables[main].keys|)] == EMPTY then 2
      else Distance(s.tables[main], h, step) + 3
    case InsertStore(_, _, _) => 1
    case Wait(_) => 2 * NewestDistance(s, h) + 10
    case _ => 0
  }

  // The slots of all tables, twice those of the newest, and twelve.
  function Bound(s: State): nat
    requires Shape(s)
  {
    Slots(s.tables, |s.tables|) + 2 * |s.tables[|s.tables| - 1].keys| + 12
  }

  predicate Working(pc: PC) { !pc.Idle? && !pc.Done? }

  // No thread but t holds the resize flag.
  predicate FlagIsFree(s: State, t: nat)
  {
    forall u :: 0 <= u < |s.threads| && u != t ==> !HoldsFlag(s.threads[u])
  }

  ghost predicate RankDrops(s: State, t: nat)
    requires Shape(s) && Enabled(s, Advance(t))
  {
    var s' := Access(s, t);
    Shape(s') && |s'.threads| == |s.threads| && Rank(s', t) < Rank(s, t)
  }

  lemma {:induction false} SameSearch(s: State, s': State, hash: nat, cur: nat)
    requires Shape(s) && Shape(s') && s'.tables == s.tables && cur <= |s.tables|
    ensures SearchRank(s', hash, cur) == SearchRank(s, hash, cur)
  {
    if cur > 0 { SameSearch(s, s', hash, cur - 1); }
  }

  lemma RankIsBounded(s: State, g: Trace, t: nat)
    requires Inv(s, g) && t < |s.threads|
    ensures Rank(s, t) <= Bound(s)
  {
    var n, pc := |s.tables|, s.threads[t];
    assert PCShape(pc, n);
    if pc.Start? {
      SearchIsBounded(s, s.hashes[t], n);
    } else if pc.Search? {
      SearchIsBounded(s, s.hashes[t], pc.cur);
      MoreSlots(s.tables, pc.cur + 1, n);
      assert |s.tables[pc.main].keys| <= |s.tables[n - 1].keys|;
    } else if pc.CopyProbe? || pc.CopyCas? || pc.Number? || pc.TryLock? || pc.Unlock? || pc.Create? ||
              pc.InsertProbe? || pc.InsertCas? {
      assert |s.tables[pc.main].keys| <= |s.tables[n - 1].keys|;
    }
  }

  lemma {:induction false} MoreSlots(tables: seq<Table>, cur: nat, n: nat)
    requires cur <= n <= |tables|
    ensures Slots(tables, cur) <= Slots(tables, n)
  {
    if cur < n { MoreSlots(tables, cur, n - 1); }
  }

  lemma SearchDrops(s: State, g: Trace, t: nat)
    requires Inv(s, g) && Enabled(s, Advance(t)) && (s.threads[t].Start? || s.threads[t].Search?)
    ensures RankDrops(s, t)
  {
    SearchKeepsInv(s, g, t);
    if s.threads[t].Search? {
      SearchStepDrops(s, g, t, Access(s, t));
    } else {
      SameSearch(s, Access(s, t), s.hashes[t], |s.tables| - 1);
    }
  }

  lemma SearchStepDrops(s: State, g: Trace, t: nat, s': State)
    requires Inv(s, g) && Enabled(s, Advance(t)) && s.threads[t].Search? && s' == Access(s, t) && Shape(s')
    ensures Rank(s', t) < Rank(s, t)
  {
    ProbeIsShort(s, g, t);
    SameSearch(s, s', s.hashes[t], s.threads[t].cur);
    if s.threads[t].cur > 0 { SameSearch(s, s', s.hashes[t], s.threads[t].cur - 1); }
  }

  lemma CopyDrops(s: State, g: Trace, t: nat)
    requires Inv(s, g) && Enabled(s, Advance(t))
    requires var pc := s.threads[t]; pc.CopyProbe? || pc.CopyCas? || pc.CopyStore?
    ensures RankDrops(s, t)
  {
    StepKeepsInv(s, g, Advance(t));
    if !s.threads[t].CopyStore? { ProbeIsShort(s, g, t); }
  }

  lemma InsertDrops(s: State, g: Trace, t: nat)
    requires Inv(s, g) && Enabled(s, Advance(t))
    requires var pc := s.threads[t]; pc.InsertProbe? || pc.InsertCas? || pc.InsertStore?
    ensures RankDrops(s, t)
  {
    StepKeepsInv(s, g, Advance(t));
    if !s.threads[t].InsertStore? { ProbeIsShort(s, g, t); }
  }

  lemma ResizeDrops(s: State, g: Trace, t: nat)
    requires Inv(s, g) && Enabled(s, Advance(t)) && FlagIsFree(s, t)
    requires var pc := s.threads[t];
             pc.Number? || pc.TryLock? || pc.Reload? || pc.Install? || pc.Unlock? || pc.Create? || pc.Wait?
    ensures RankDrops(s, t)
  {
    StepKeepsInv(s, g, Advance(t));
    assert ThreadOk(s, g, t);
    if s.resizing { assert ThreadOk(s, g, g.holder.value); }
  }

  // The thread works towards a place in the newest table, or its id has one there.
  ghost predicate Aimed(s: State, t: nat)
    requires Shape(s) && t < |s.threads|
  {
    var newest := |s.tables| - 1;
    match s.threads[t]
    case Start => true
    case Search(main, cur, _) => main == newest
    case CopyProbe(main, _, _) => main == newest
    case CopyCas(main, _, _) => main == newest
    case CopyStore(main, _, _) => main == newest
    case Number(main) => main == newest
    case TryLock(main, _) => main == newest
    case Reload(_) => true
    case Install(_, _) => true
    case Unlock(main, _) => main == newest
    case Create(main, _) => main == newest
    case InsertProbe(main, _, _, _) => main == newest
    case InsertCas(main, _, _, _) => main == newest
    case InsertStore(main, _, _) => main == newest
    case Wait(_) => true
    case Done(_) => Id(t) in s.tables[newest].keys
    case Idle => true
  }

  lemma StaysAimed(s: State, g: Trace, t: nat)
    requires Inv(s, g) && Enabled(s, Advance(t)) && Aimed(s, t) && Shape(Access(s, t))
    ensures |Access(s, t).threads| == |s.threads| && Aimed(Access(s, t), t)
  {
    assert ThreadOk(s, g, t);
  }

  lemma OneAccess(s: State, g: Trace, t: nat) returns (s': State, g': Trace)
    requires Inv(s, g) && Enabled(s, Advance(t)) && FlagIsFree(s, t)
    ensures s' == Access(s, t) && Inv(s', g') && t < |s'.threads| == |s.threads| && FlagIsFree(s', t)
    ensures Rank(s', t) < Rank(s, t) && (Working(s'.threads[t]) || s'.threads[t].Done?)
    ensures Aimed(s, t) ==> Aimed(s', t)
    ensures g'.made[t] == if g.made[t].None? && s.threads[t].Create? then Some(s.created) else g.made[t]
    ensures s'.created == if s.threads[t].Create? then s.created + 1 else s.created
  {
    s', g' := Access(s, t), TraceAfter(s, g, Advance(t));
    StepKeepsInv(s, g, Advance(t));
    AccessDrops(s, g, t);
    MadeAfter(s, g, t);
    if Aimed(s, t) { StaysAimed(s, g, t); }
  }

  lemma MadeAfter(s: State, g: Trace, t: nat)
    requires Inv(s, g) && Enabled(s, Advance(t)) && FlagIsFree(s, t)
    ensures var s', g' := Access(s, t), TraceAfter(s, g, Advance(t));
            && t < |s'.threads| == |s.threads| == |g'.made| && FlagIsFree(s', t)
            && (Working(s'.threads[t]) || s'.threads[t].Done?)
            && g'.made[t] == (if g.made[t].None? && s.threads[t].Create? then Some(s.created) else g.made[t])
            && s'.created == (if s.threads[t].Create? then s.created + 1 else s.created)
  {
    assert ThreadOk(s, g, t);
  }

  lemma AccessDrops(s: State, g: Trace, t: nat)
    requires Inv(s, g) && Enabled(s, Advance(t)) && FlagIsFree(s, t)
    ensures RankDrops(s, t)
  {
    var pc := s.threads[t];
    if pc.Start? || pc.Search? {
      SearchDrops(s, g, t);
    } else if pc.CopyProbe? || pc.CopyCas? || pc.CopyStore? {
      CopyDrops(s, g, t);
    } else if pc.InsertProbe? || pc.InsertCas? || pc.InsertStore? {
      InsertDrops(s, g, t);
    } else {
      ResizeDrops(s, g, t);
    }
  }

  // Up to `k` accesses of thread t in a row, until it has its result.
  ghost function Alone(s: State, t: nat, k: nat): State
    requires Shape(s)
    decreases k
  {
    if k == 0 || t >= |s.threads| || !Working(s.threads[t]) || !Shape(Access(s, t)) then s
    else Alone(Access(s, t), t, k - 1)
  }

  lemma {:induction false} AloneEnds(s: State, g: Trace, t: nat, k: nat)
    requires Inv(s, g) && t < |s.threads| && FlagIsFree(s, t) && Rank(s, t) <= k
    requires Working(s.threads[t]) || s.threads[t].Done?
    ensures var s' := Alone(s, t, k);
            && |s'.threads| == |s.threads| && s'.threads[t].Done? && s'.threads[t].value.Some?
            && (g.made[t].Some? ==> s'.threads[t].value == g.made[t])
            && (g.made[t].None? ==> s'.threads[t].value == Some(s.created))
            && Shape(s') && (Aimed(s, t) ==> Aimed(s', t))
    decreases k
  {
    assert ThreadOk(s, g, t);
    if Working(s.threads[t]) {
      var s', g' := OneAccess(s, g, t);
      AloneEnds(s', g', t, k - 1);
      assert Alone(s, t, k) == Alone(s', t, k - 1);
    }
  }

  /** While another thread holds the flag, an insertion still goes ahead up to three quarters of the table, and waits
      for the new table beyond that. */
  lemma BesideResize(s: State, t: nat)
    requires Shape(s) && Enabled(s, Advance(t)) && s.threads[t].TryLock? && s.resizing
    requires s.tables[s.threads[t].main].Capacity() % 4 == 0
    ensures var pc := s.threads[t];
            Access(s, t) == Move(s, t, if 4 * pc.num < 3 * s.tables[pc.main].Capacity() then Create(pc.main, pc.num)
                                       else Wait(pc.num))
  {
  }

  /** While no other thread holds the resize flag, a call comes to an end by itself, in every reachable state and
      wherever all threads stand: after at most as many accesses as the tables have slots, and a few. */
  lemma CallsEnd(s: State, t: nat)
    requires Reachable(s) && Shape(s) && t < |s.threads| && FlagIsFree(s, t) && Working(s.threads[t])
    ensures var s' := Alone(s, t, Bound(s));
            |s'.threads| == |s.threads| && s'.threads[t].Done? && s'.threads[t].value.Some?
  {
    var s0, events, log :| Initial(s0) && Run(s0, events, s, log);
    var g0 := InvOfInitial(s0);
    var g := RunKeepsInv(s0, g0, events, s, log);
    RankIsBounded(s, g, t);
    AloneEnds(s, g, t, Bound(s));
  }

  /** And a new call then returns what earlier calls of its thread have returned, or, if there were none, a producer
      that is made for it; and its id is in the newest table, copied there if need be, where the next call finds it. */
  lemma CallReturnsItsProducer(s0: State, events: seq<Action>, s: State, log: seq<(nat, Option<Producer>)>, t: nat)
    requires Initial(s0) && Run(s0, events, s, log) && Shape(s)
    requires t < |s.threads| && s.threads[t].Idle? && FlagIsFree(s, t)
    ensures var c := Apply(s, Call(t));
            && Shape(c)
            && var s' := Alone(c, t, Bound(c));
               && |s'.threads| == |s.threads| && s'.threads[t].Done? && s'.threads[t].value.Some?
               && (forall i :: 0 <= i < |log| && log[i].0 == t ==> s'.threads[t].value == log[i].1)
               && (!HasReturned(log, t) ==> s'.threads[t].value == Some(s.created))
               && s'.tables != [] && Id(t) in s'.tables[|s'.tables| - 1].keys
  {
    var g0 := InvOfInitial(s0);
    var g := RunKeepsInv(s0, g0, events, s, log);
    var c := Apply(s, Call(t));
    StepKeepsInv(s, g, Call(t));
    assert ThreadOk(s, g, t);
    assert !Settled(s0, g0, t);
    RankIsBounded(c, g, t);
    AloneEnds(c, g, t, Bound(c));
  }

  /* ---- Tables stay small ---- */

  // No table has more slots than the first, or than four times the insertions and three more.
  ghost predicate TablesAreSmall(s: State)
  {
    s.tables != [] && forall k :: 0 <= k < |s.tables| ==> IsSmall(s, k)
  }

  ghost predicate IsSmall(s: State, k: nat)
    requires k < |s.tables|
  {
    |s.tables[k].keys| <= |s.tables[0].keys| || |s.tables[k].keys| <= 4 * s.count + 3
  }

  lemma StepKeepsSmall(s: State, g: Trace, a: Action)
    requires Inv(s, g) && Enabled(s, a) && TablesAreSmall(s)
    ensures TablesAreSmall(Apply(s, a))
  {
    var s' := Apply(s, a);
    assert ThreadOk(s, g, a.thread);
    forall k | 0 <= k < |s'.tables| ensures IsSmall(s', k) {
      if k < |s.tables| { assert IsSmall(s, k); }
    }
  }

  lemma {:induction false} RunKeepsSmall(s: State, g: Trace, events: seq<Action>, s': State,
                                        log: seq<(nat, Option<Producer>)>)
    requires Inv(s, g) && Run(s, events, s', log) && TablesAreSmall(s)
    ensures TablesAreSmall(s')
    decreases |events|
  {
    if events != [] {
      var a := events[0];
      StepKeepsSmall(s, g, a);
      StepKeepsInv(s, g, a);
      RunKeepsSmall(Apply(s, a), TraceAfter(s, g, a), events[1..], s', log[|ReturnOf(s, a)|..]);
    }
  }

  /** A table is replaced only when it is half used up, and by one that is not much too large: so in every reachable
      state no table but the first has more than 4 n + 3 slots after n insertions. */
  lemma TablesStaySmall(s: State)
    requires Reachable(s)
    ensures forall k :: 0 <= k < |s.tables| ==>
              |s.tables[k].keys| <= |s.tables[0].keys| || |s.tables[k].keys| <= 4 * s.count + 3
  {
    var s0, events, log :| Initial(s0) && Run(s0, events, s, log);
    var g0 := InvOfInitial(s0);
    assert IsSmall(s0, 0);
    RunKeepsSmall(s0, g0, events, s, log);
    forall k | 0 <= k < |s.tables|
      ensures |s.tables[k].keys| <= |s.tables[0].keys| || |s.tables[k].keys| <= 4 * s.count + 3
    {
      assert IsSmall(s, k);
    }
  }
}
