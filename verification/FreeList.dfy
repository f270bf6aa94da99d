/** The lock-free free list: a CAS stack whose nodes carry a reference count and a
    "should be on the free list" bit in one 32-bit word.  Every atomic access is one step of a
    thread; threads interleave arbitrarily. */
module FreeList {
  import opened Basics

  const SHOULD_BE_ON_FREELIST: nat := 0x8000_0000
  const WORD: nat := 0x1_0000_0000

  // A node is an index into the pool of nodes that exist.
  type Node = nat

  // Where a thread goes on after add_knowing_refcount_is_zero: out of `add`, or back into the loop of `try_get`.
  datatype Return = Finish | Resume(seen: Option<Node>)

  // The next atomic access of a thread, with the locals that are live there.
  datatype PC =
    | Idle
    | AddMark(node: Node)                                      // fetch_add of the bit
    | LinkLoad(node: Node, ret: Return)                        // load of freeListHead
    | LinkNext(node: Node, top: Option<Node>, ret: Return)     // store of freeListNext
    | LinkRefs(node: Node, top: Option<Node>, ret: Return)     // store of 1 into freeListRefs
    | LinkCas(node: Node, top: Option<Node>, ret: Return)      // CAS on freeListHead
    | LinkUndo(node: Node, top: Option<Node>, ret: Return)     // fetch_add of the bit minus one
    | GetLoad                                                  // load of freeListHead
    | GetRefs(node: Node)                                      // load of freeListRefs
    | GetPin(node: Node, refs: nat)                            // test, then CAS on freeListRefs
    | GetNext(node: Node)                                      // load of freeListNext
    | GetCas(node: Node, after: Option<Node>)                  // CAS on freeListHead
    | GetTake(node: Node)                                      // fetch_sub of 2, then return node
    | GetUnpin(node: Node, seen: Option<Node>)                 // fetch_sub of 1

  // `owned` holds the nodes that clients have and may add; it is the environment, not memory of the list.
  datatype State = State(
    head: Option<Node>,
    refs: seq<nat>,
    next: seq<Option<Node>>,
    threads: seq<PC>,
    owned: set<Node>)

  datatype Action = CallAdd(node: Node) | CallTryGet | Advance

  predicate Enabled(s: State, t: nat, a: Action)
  {
    && t < |s.threads|
    && match a
       case CallAdd(n) => s.threads[t].Idle? && n in s.owned
       case CallTryGet => s.threads[t].Idle?
       case Advance => !s.threads[t].Idle?
  }

  // The top of the loop in try_get.
  function Loop(h: Option<Node>): PC
  {
    if h.Some? then GetRefs(h.value) else Idle
  }

  function After(r: Return): PC
  {
    if r.Finish? then Idle else Loop(r.seen)
  }

  // The node a thread is about to access exists.
  predicate InPool(pc: PC, count: nat)
  {
    match pc
    case Idle => true
    case GetLoad => true
    case AddMark(n) => n < count
    case LinkLoad(n, r) => n < count && RetInPool(r, count)
    case LinkNext(n, h, r) => n < count && OptInPool(h, count) && RetInPool(r, count)
    case LinkRefs(n, h, r) => n < count && OptInPool(h, count) && RetInPool(r, count)
    case LinkCas(n, h, r) => n < count && OptInPool(h, count) && RetInPool(r, count)
    case LinkUndo(n, h, r) => n < count && OptInPool(h, count) && RetInPool(r, count)
    case GetRefs(n) => n < count
    case GetPin(n, _) => n < count
    case GetNext(n) => n < count
    case GetCas(n, x) => n < count && OptInPool(x, count)
    case GetTake(n) => n < count
    case GetUnpin(n, x) => n < count && OptInPool(x, count)
  }

  predicate OptInPool(h: Option<Node>, count: nat) { h.Some? ==> h.value < count }

  predicate RetInPool(r: Return, count: nat) { r.Resume? ==> OptInPool(r.seen, count) }

  predicate WellFormed(s: State)
  {
    && |s.refs| == |s.next|
    && OptInPool(s.head, |s.refs|)
    && (forall n :: 0 <= n < |s.next| ==> OptInPool(s.next[n], |s.refs|))
    && (forall n :: n in s.owned ==> n < |s.refs|)
    && (forall t :: 0 <= t < |s.threads| ==> InPool(s.threads[t], |s.refs|))
  }

  // fetch_add and fetch_sub on the 32-bit word.
  function Plus(w: nat, d: int): nat { (w + d) % WORD }

  // The reference count without the bit.
  function Count(w: nat): nat { w % SHOULD_BE_ON_FREELIST }

  /** One atomic access of thread `t`, or the start of a call on an idle thread. */
  function Apply(s: State, t: nat, a: Action): State
    requires WellFormed(s) && Enabled(s, t, a)
  {
    match a
    case CallAdd(n) => s.(threads := s.threads[t := AddMark(n)], owned := s.owned - {n})
    case CallTryGet => s.(threads := s.threads[t := GetLoad])
    case Advance => Access(s, t)
  }

  function Access(s: State, t: nat): State
    requires WellFormed(s) && t < |s.threads| && !s.threads[t].Idle?
  {
    match s.threads[t]
    case AddMark(n) =>
      Move(s, t, if s.refs[n] == 0 then LinkLoad(n, Finish) else Idle)
      .(refs := s.refs[n := Plus(s.refs[n], SHOULD_BE_ON_FREELIST)])
    case LinkLoad(n, r) =>
      Move(s, t, LinkNext(n, s.head, r))
    case LinkNext(n, h, r) =>
      Move(s, t, LinkRefs(n, h, r)).(next := s.next[n := h])
    case LinkRefs(n, h, r) =>
      Move(s, t, LinkCas(n, h, r)).(refs := s.refs[n := 1])
    case LinkCas(n, h, r) =>
      if s.head == h then Move(s, t, After(r)).(head := Some(n))
      else Move(s, t, LinkUndo(n, s.head, r))
    case LinkUndo(n, h, r) =>
      Move(s, t, if s.refs[n] == 1 then LinkNext(n, h, r) else After(r))
      .(refs := s.refs[n := Plus(s.refs[n], SHOULD_BE_ON_FREELIST - 1)])
    case GetLoad =>
      Move(s, t, Loop(s.head))
    case GetRefs(n) =>
      Move(s, t, GetPin(n, s.refs[n]))
    case GetPin(n, w) =>
      if Count(w) == 0 || s.refs[n] != w then Move(s, t, GetLoad)
      else Move(s, t, GetNext(n)).(refs := s.refs[n := Plus(w, 1)])
    case GetNext(n) =>
      Move(s, t, GetCas(n, s.next[n]))
    case GetCas(n, x) =>
      if s.head == Some(n) then Move(s, t, GetTake(n)).(head := x)
      else Move(s, t, GetUnpin(n, s.head))
    case GetTake(n) =>
      Move(s, t, Idle).(refs := s.refs[n := Plus(s.refs[n], -2)], owned := s.owned + {n})
    case GetUnpin(n, h) =>
      Move(s, t, if s.refs[n] == SHOULD_BE_ON_FREELIST + 1 then LinkLoad(n, Resume(h)) else Loop(h))
      .(refs := s.refs[n := Plus(s.refs[n], -1)])
    case Idle => s
  }

  function Move(s: State, t: nat, pc: PC): State
    requires t < |s.threads|
  {
    s.(threads := s.threads[t := pc])
  }

  /* ---- The invariant ---- */

  // What the protocol has decided about a node; `Marking`, `Adding`, `Linking` and `Popped` name the
  // one thread in charge of it.
  datatype Phase =
    | Owned
    | Marking(tid: nat)
    | Waiting
    | Adding(tid: nat)
    | Linking(tid: nat)
    | Listed
    | Popped(tid: nat)

  // History the proof adds to a state: the chain from the head and the phase of every node.
  datatype Trace = Trace(chain: seq<Node>, phase: seq<Phase>)

  // A thread that has passed the reference-count CAS in try_get and not given its reference back.
  function PinWeight(n: Node): PC -> nat
  {
    (pc: PC) => if (pc.GetNext? || pc.GetCas? || pc.GetUnpin?) && pc.node == n then 1 else 0
  }

  function Pins(threads: seq<PC>, n: Node): nat { SumBy(threads, PinWeight(n)) }

  // The word of a node before the references of pinning threads are added.
  function Base(p: Phase): nat
  {
    match p
    case Owned => 0
    case Marking(_) => 0
    case Waiting => SHOULD_BE_ON_FREELIST
    case Adding(_) => SHOULD_BE_ON_FREELIST
    case Linking(_) => 1
    case Listed => 1
    case Popped(_) => 2
  }

  // The phase a thread's position imposes on its node.
  function Duty(pc: PC, t: nat): Option<(Node, Phase)>
  {
    match pc
    case AddMark(n) => Some((n, Marking(t)))
    case LinkLoad(n, _) => Some((n, Adding(t)))
    case LinkNext(n, _, _) => Some((n, Adding(t)))
    case LinkRefs(n, _, _) => Some((n, Adding(t)))
    case LinkCas(n, _, _) => Some((n, Linking(t)))
    case LinkUndo(n, _, _) => Some((n, Linking(t)))
    case GetTake(n) => Some((n, Popped(t)))
    case _ => None
  }

  ghost predicate Distinct(c: seq<Node>) { forall i, j :: 0 <= i < j < |c| ==> c[i] != c[j] }

  function Following(c: seq<Node>, i: nat): Option<Node>
    requires i < |c|
  {
    if i + 1 < |c| then Some(c[i + 1]) else None
  }

  /** `c` is what a walk from the head reads: each node once, ending at the null pointer. */
  ghost predicate IsChain(s: State, c: seq<Node>)
    requires |s.refs| == |s.next|
  {
    && s.head == (if c == [] then None else Some(c[0]))
    && (forall i :: 0 <= i < |c| ==> c[i] < |s.next|)
    && (forall i :: 0 <= i < |c| ==> s.next[c[i]] == Following(c, i))
    && Distinct(c)
  }

  ghost predicate ThreadOk(s: State, g: Trace, t: nat)
    requires WellFormed(s) && |g.phase| == |s.refs| && t < |s.threads|
  {
    var pc := s.threads[t];
    && (Duty(pc, t).Some? ==> g.phase[Duty(pc, t).value.0] == Duty(pc, t).value.1)
    && (pc.LinkRefs? || pc.LinkCas? ==> s.next[pc.node] == pc.top)
    && (pc.GetCas? ==> s.next[pc.node] == pc.after)
  }

  ghost predicate NodeOk(s: State, g: Trace, n: Node)
    requires WellFormed(s) && |g.phase| == |s.refs| && n < |s.refs|
  {
    var p := g.phase[n];
    && s.refs[n] == Base(p) + Pins(s.threads, n)
    && (p.Adding? ==> Pins(s.threads, n) == 0)
    && (p.Waiting? ==> Pins(s.threads, n) > 0)
    && (p.Owned? <==> n in s.owned)
    && (p.Listed? <==> n in g.chain)
    && (p.Marking? || p.Adding? || p.Linking? || p.Popped? ==>
          p.tid < |s.threads| && Duty(s.threads[p.tid], p.tid) == Some((n, p)))
  }

  ghost predicate Inv(s: State, g: Trace)
  {
    && WellFormed(s)
    && |g.phase| == |s.refs|
    && |s.threads| + 2 < SHOULD_BE_ON_FREELIST    // the word has 31 bits for references
    && IsChain(s, g.chain)
    && (forall t :: 0 <= t < |s.threads| ==> ThreadOk(s, g, t))
    && (forall n :: 0 <= n < |s.refs| ==> NodeOk(s, g, n))
  }

  // How the history moves with a step.
  function TraceAfter(s: State, g: Trace, t: nat, a: Action): Trace
    requires WellFormed(s) && |g.phase| == |s.refs| && Enabled(s, t, a)
  {
    match a
    case CallAdd(n) => g.(phase := g.phase[n := Marking(t)])
    case CallTryGet => g
    case Advance =>
      match s.threads[t]
      case AddMark(n) => g.(phase := g.phase[n := if s.refs[n] == 0 then Adding(t) else Waiting])
      case LinkRefs(n, _, _) => g.(phase := g.phase[n := Linking(t)])
      case LinkCas(n, h, _) => if s.head == h then Trace([n] + g.chain, g.phase[n := Listed]) else g
      case LinkUndo(n, _, _) => g.(phase := g.phase[n := if s.refs[n] == 1 then Adding(t) else Waiting])
      case GetCas(n, _) =>
        if s.head == Some(n) then Trace(if g.chain == [] then [] else g.chain[1..], g.phase[n := Popped(t)]) else g
      case GetTake(n) => g.(phase := g.phase[n := Owned])
      case GetUnpin(n, _) =>
        if s.refs[n] == SHOULD_BE_ON_FREELIST + 1 then g.(phase := g.phase[n := Adding(t)]) else g
      case _ => g
  }

  lemma PinsBound(s: State, n: Node)
    requires |s.threads| + 2 < SHOULD_BE_ON_FREELIST
    ensures Pins(s.threads, n) <= |s.threads|
  {
    SumByBound(s.threads, PinWeight(n));
  }

  // The node a step touches; GetLoad and CallTryGet touch none.
  function Touched(s: State, t: nat, a: Action): Option<Node>
    requires Enabled(s, t, a)
  {
    match a
    case CallAdd(n) => Some(n)
    case CallTryGet => None
    case Advance => if s.threads[t].GetLoad? then None else Some(s.threads[t].node)
  }

  lemma ChainKept(s: State, g: Trace, t: nat, a: Action)
    requires Inv(s, g) && Enabled(s, t, a)
    ensures IsChain(Apply(s, t, a), TraceAfter(s, g, t, a).chain)
  {
    assert ThreadOk(s, g, t);
    if a.Advance? {
      if s.threads[t].LinkNext? {
        StoreNextKeepsChain(s, g, t);
      } else if s.threads[t].LinkCas? && s.head == s.threads[t].top {
        assert NodeOk(s, g, s.threads[t].node);
        PushKeepsChain(s, g.chain, s.threads[t].node);
      } else if s.threads[t].GetCas? && s.head == Some(s.threads[t].node) {
        PopKeepsChain(s, g.chain);
      }
    }
  }

  lemma StoreNextKeepsChain(s: State, g: Trace, t: nat)
    requires Inv(s, g) && t < |s.threads| && s.threads[t].LinkNext?
    ensures IsChain(Access(s, t), g.chain)
  {
    var n := s.threads[t].node;
    assert ThreadOk(s, g, t) && NodeOk(s, g, n);
    assert forall i :: 0 <= i < |g.chain| ==> g.chain[i] != n;
  }

  lemma PushKeepsChain(s: State, c: seq<Node>, n: Node)
    requires |s.refs| == |s.next| && IsChain(s, c) && n < |s.next| && n !in c && s.next[n] == s.head
    ensures IsChain(s.(head := Some(n)), [n] + c)
  {
    var c' := [n] + c;
    assert forall i :: 0 < i < |c'| ==> c'[i] == c[i - 1];
  }

  lemma PopKeepsChain(s: State, c: seq<Node>)
    requires |s.refs| == |s.next| && IsChain(s, c) && s.head.Some?
    ensures c != [] && IsChain(s.(head := s.next[c[0]]), c[1..])
  {
    assert forall i :: 0 <= i < |c[1..]| ==> c[1..][i] == c[i + 1];
  }

  // Node `n` is as it was, and the one thread that moved, `t`, has no more and no less hold on it.
  ghost predicate SameNode(s: State, g: Trace, s': State, g': Trace, t: nat, n: Node)
  {
    && n < |s.refs| == |s.next| == |g.phase| == |s'.refs| == |s'.next| == |g'.phase|
    && s'.refs[n] == s.refs[n] && s'.next[n] == s.next[n] && g'.phase[n] == g.phase[n]
    && (n in s'.owned <==> n in s.owned)
    && (n in g'.chain <==> n in g.chain)
    && t < |s.threads| == |s'.threads|
    && s'.threads == s.threads[t := s'.threads[t]]
    && PinWeight(n)(s'.threads[t]) == PinWeight(n)(s.threads[t])
    && (Duty(s.threads[t], t).Some? ==> Duty(s.threads[t], t).value.0 != n)
  }

  // What a step does to a node it does not touch: nothing.
  lemma UntouchedNode(s: State, g: Trace, t: nat, a: Action, n: Node)
    requires WellFormed(s) && |g.phase| == |s.refs| && Enabled(s, t, a) && n < |s.refs|
    requires Touched(s, t, a) != Some(n) && IsChain(s, g.chain)
    ensures SameNode(s, g, Apply(s, t, a), TraceAfter(s, g, t, a), t, n)
  {
    UntouchedInChain(s, g, t, a, n);
    if a.Advance? && InGet(s.threads[t]) {
      UntouchedByGet(s, g, t, a, n);
    } else if a.Advance? {
      match s.threads[t]
      case AddMark(_) =>
      case LinkLoad(_, _) =>
      case LinkNext(_, _, _) =>
      case LinkRefs(_, _, _) =>
      case LinkCas(_, _, _) =>
      case LinkUndo(_, _, _) =>
      case GetLoad =>
    }
  }

  lemma UntouchedByGet(s: State, g: Trace, t: nat, a: Action, n: Node)
    requires WellFormed(s) && |g.phase| == |s.refs| && Enabled(s, t, a) && n < |s.refs|
    requires Touched(s, t, a) != Some(n) && IsChain(s, g.chain) && a.Advance? && InGet(s.threads[t])
    requires n in TraceAfter(s, g, t, a).chain <==> n in g.chain
    ensures SameNode(s, g, Apply(s, t, a), TraceAfter(s, g, t, a), t, n)
  {
    match s.threads[t]
    case GetRefs(_) =>
    case GetPin(_, _) =>
    case GetNext(_) =>
    case GetCas(_, _) =>
    case GetTake(_) =>
    case GetUnpin(_, _) =>
  }

  lemma UntouchedInChain(s: State, g: Trace, t: nat, a: Action, n: Node)
    requires WellFormed(s) && |g.phase| == |s.refs| && Enabled(s, t, a) && n < |s.refs|
    requires Touched(s, t, a) != Some(n) && IsChain(s, g.chain)
    ensures n in TraceAfter(s, g, t, a).chain <==> n in g.chain
  {
    if a.Advance? && s.threads[t].GetCas? && s.head == Some(s.threads[t].node) {
      assert g.chain == [g.chain[0]] + g.chain[1..];
    }
  }

  // A node that is not touched keeps its record; a thread in charge of it is not the one that moves.
  lemma SameNodeOk(s: State, g: Trace, s': State, g': Trace, t: nat, n: Node)
    requires WellFormed(s) && WellFormed(s') && SameNode(s, g, s', g', t, n)
    requires NodeOk(s, g, n)
    ensures NodeOk(s', g', n)
  {
    SumByUpdate(s.threads, t, s'.threads[t], PinWeight(n));
  }

  // How many references of pinning threads a step adds to the node it touches.
  function PinChange(s: State, t: nat, a: Action): int
    requires WellFormed(s) && Enabled(s, t, a)
  {
    if !a.Advance? then 0
    else match s.threads[t]
      case GetPin(n, w) => if Count(w) == 0 || s.refs[n] != w then 0 else 1
      case GetCas(n, _) => if s.head == Some(n) then -1 else 0    // now counted in Base(Popped)
      case GetUnpin(_, _) => -1
      case _ => 0
  }

  lemma TouchedPins(s: State, t: nat, a: Action, n: Node)
    requires WellFormed(s) && Enabled(s, t, a) && Touched(s, t, a) == Some(n)
    ensures Pins(Apply(s, t, a).threads, n) == Pins(s.threads, n) + PinChange(s, t, a)
  {
    var s' := Apply(s, t, a);
    assert s'.threads == s.threads[t := s'.threads[t]];
    SumByUpdate(s.threads, t, s'.threads[t], PinWeight(n));
  }

  // The steps of try_get on a node it has seen at the head.
  predicate InGet(pc: PC)
  {
    pc.GetRefs? || pc.GetPin? || pc.GetNext? || pc.GetCas? || pc.GetTake? || pc.GetUnpin?
  }

  // What a step of try_get does to the word of its node.
  lemma GetWord(s: State, g: Trace, t: nat, a: Action, n: Node)
    requires WellFormed(s) && |g.phase| == |s.refs| && Enabled(s, t, a) && n < |s.refs|
    requires Touched(s, t, a) == Some(n)
    requires |s.threads| + 2 < SHOULD_BE_ON_FREELIST
    requires IsChain(s, g.chain) && ThreadOk(s, g, t) && NodeOk(s, g, n)
    requires a.Advance? && InGet(s.threads[t])
    ensures var p, k := TraceAfter(s, g, t, a).phase[n], Pins(s.threads, n) + PinChange(s, t, a);
            && Apply(s, t, a).refs[n] == Base(p) + k
            && (p.Adding? ==> k == 0)
            && (p.Waiting? ==> k > 0)
  {
    PinsBound(s, n);
    SumByTerm(s.threads, t, PinWeight(n));
    if s.threads[t].GetUnpin? {
      UnpinWord(s, g, t, a, n);
    } else {
      match s.threads[t]
      case GetRefs(_) =>
      case GetPin(_, _) =>
      case GetNext(_) =>
      case GetCas(_, _) =>
      case GetTake(_) =>
    }
  }

  lemma UnpinWord(s: State, g: Trace, t: nat, a: Action, n: Node)
    requires WellFormed(s) && |g.phase| == |s.refs| && Enabled(s, t, a) && n < |s.refs|
    requires Touched(s, t, a) == Some(n)
    requires |s.threads| + 2 < SHOULD_BE_ON_FREELIST
    requires IsChain(s, g.chain) && ThreadOk(s, g, t) && NodeOk(s, g, n)
    requires a.Advance? && s.threads[t].GetUnpin?
    ensures var p, k := TraceAfter(s, g, t, a).phase[n], Pins(s.threads, n) + PinChange(s, t, a);
            && Apply(s, t, a).refs[n] == Base(p) + k
            && (p.Adding? ==> k == 0)
            && (p.Waiting? ==> k > 0)
  {
    PinsBound(s, n);
    SumByTerm(s.threads, t, PinWeight(n));
  }

  // What a step of adding a node does to its word.
  lemma LinkWord(s: State, g: Trace, t: nat, a: Action, n: Node)
    requires WellFormed(s) && |g.phase| == |s.refs| && Enabled(s, t, a) && n < |s.refs|
    requires Touched(s, t, a) == Some(n)
    requires |s.threads| + 2 < SHOULD_BE_ON_FREELIST
    requires IsChain(s, g.chain) && ThreadOk(s, g, t) && NodeOk(s, g, n)
    requires a.Advance? ==> !InGet(s.threads[t])
    ensures var p, k := TraceAfter(s, g, t, a).phase[n], Pins(s.threads, n) + PinChange(s, t, a);
            && Apply(s, t, a).refs[n] == Base(p) + k
            && (p.Adding? ==> k == 0)
            && (p.Waiting? ==> k > 0)
  {
    PinsBound(s, n);
    if a.Advance? {
      match s.threads[t]
      case AddMark(_) =>
      case LinkLoad(_, _) =>
      case LinkNext(_, _, _) =>
      case LinkRefs(_, _, _) =>
      case LinkCas(_, _, _) =>
      case LinkUndo(_, _, _) =>
    }
  }

  // Where a node is, as its phase says.
  ghost predicate PhaseOk(s: State, g: Trace, n: Node)
    requires n < |g.phase|
  {
    var p := g.phase[n];
    && (p.Owned? <==> n in s.owned)
    && (p.Listed? <==> n in g.chain)
    && (p.Marking? || p.Adding? || p.Linking? || p.Popped? ==>
          p.tid < |s.threads| && Duty(s.threads[p.tid], p.tid) == Some((n, p)))
  }

  lemma TouchedRecord(s: State, g: Trace, t: nat, a: Action, n: Node)
    requires WellFormed(s) && |g.phase| == |s.refs| && Enabled(s, t, a) && n < |s.refs|
    requires Touched(s, t, a) == Some(n)
    requires |s.threads| + 2 < SHOULD_BE_ON_FREELIST
    requires IsChain(s, g.chain) && ThreadOk(s, g, t) && NodeOk(s, g, n)
    ensures PhaseOk(Apply(s, t, a), TraceAfter(s, g, t, a), n)
  {
    if a.Advance? && InGet(s.threads[t]) {
      GetRecord(s, g, t, a, n);
    } else {
      LinkRecord(s, g, t, a, n);
    }
  }

  lemma GetRecord(s: State, g: Trace, t: nat, a: Action, n: Node)
    requires WellFormed(s) && |g.phase| == |s.refs| && Enabled(s, t, a) && n < |s.refs|
    requires Touched(s, t, a) == Some(n)
    requires |s.threads| + 2 < SHOULD_BE_ON_FREELIST
    requires IsChain(s, g.chain) && ThreadOk(s, g, t) && NodeOk(s, g, n)
    requires a.Advance? && InGet(s.threads[t])
    ensures PhaseOk(Apply(s, t, a), TraceAfter(s, g, t, a), n)
  {
    PinsBound(s, n);
    SumByTerm(s.threads, t, PinWeight(n));
    if s.threads[t].GetCas? && s.head == Some(s.threads[t].node) {
      assert g.chain == [g.chain[0]] + g.chain[1..];
    }
    match s.threads[t]
    case GetRefs(_) =>
    case GetPin(_, _) =>
    case GetNext(_) =>
    case GetCas(_, _) =>
    case GetTake(_) =>
    case GetUnpin(_, _) =>
  }

  lemma LinkRecord(s: State, g: Trace, t: nat, a: Action, n: Node)
    requires WellFormed(s) && |g.phase| == |s.refs| && Enabled(s, t, a) && n < |s.refs|
    requires Touched(s, t, a) == Some(n)
    requires |s.threads| + 2 < SHOULD_BE_ON_FREELIST
    requires IsChain(s, g.chain) && ThreadOk(s, g, t) && NodeOk(s, g, n)
    requires a.Advance? ==> !InGet(s.threads[t])
    ensures PhaseOk(Apply(s, t, a), TraceAfter(s, g, t, a), n)
  {
    PinsBound(s, n);
    if a.Advance? {
      match s.threads[t]
      case AddMark(_) =>
      case LinkLoad(_, _) =>
      case LinkNext(_, _, _) =>
      case LinkRefs(_, _, _) =>
      case LinkCas(_, _, _) =>
      case LinkUndo(_, _, _) =>
    }
  }

  // The phase of a node changes only in the hands of the thread in charge, or when nobody is; its next
  // pointer is written only by the thread adding it.
  lemma TouchedPhase(s: State, g: Trace, t: nat, a: Action, n: Node)
    requires WellFormed(s) && |g.phase| == |s.refs| && Enabled(s, t, a) && n < |s.refs|
    requires Touched(s, t, a) == Some(n)
    requires |s.threads| + 2 < SHOULD_BE_ON_FREELIST
    requires IsChain(s, g.chain) && ThreadOk(s, g, t) && NodeOk(s, g, n)
    ensures var p := g.phase[n];
            TraceAfter(s, g, t, a).phase[n] != p ==> p.Owned? || p.Waiting? || p.Listed? || p.tid == t
    ensures Apply(s, t, a).next[n] != s.next[n] ==> g.phase[n] == Adding(t)
  {
    PinsBound(s, n);
    SumByTerm(s.threads, t, PinWeight(n));
    if a.Advance? {
      match s.threads[t]
      case AddMark(_) =>
      case LinkLoad(_, _) =>
      case LinkNext(_, _, _) =>
      case LinkRefs(_, _, _) =>
      case LinkCas(_, _, _) =>
      case LinkUndo(_, _, _) =>
      case GetLoad =>
      case GetRefs(_) =>
      case GetPin(_, _) =>
      case GetNext(_) =>
      case GetCas(_, _) =>
      case GetTake(_) =>
      case GetUnpin(_, _) =>
    }
  }

  // The next pointers and phases that the locals of another thread speak of stay.
  lemma OtherThreadKept(s: State, g: Trace, s': State, g': Trace, u: nat)
    requires WellFormed(s) && WellFormed(s') && |g.phase| == |s.refs| == |s'.refs| == |g'.phase|
    requires u < |s.threads| == |s'.threads| && s'.threads[u] == s.threads[u] && ThreadOk(s, g, u)
    requires Duty(s.threads[u], u).Some? ==> g'.phase[s.threads[u].node] == g.phase[s.threads[u].node]
    requires Duty(s.threads[u], u).Some? || s.threads[u].GetCas?
             ==> s'.next[s.threads[u].node] == s.next[s.threads[u].node]
    ensures ThreadOk(s', g', u)
  {
  }

  lemma OtherThreadsNode(s: State, g: Trace, t: nat, a: Action, u: nat)
    requires Inv(s, g) && Enabled(s, t, a) && u < |s.threads| && u != t
    requires Duty(s.threads[u], u).Some? || s.threads[u].GetCas?
    requires |Apply(s, t, a).next| == |TraceAfter(s, g, t, a).phase| == |s.refs|
    ensures var n := s.threads[u].node;
            && n < |s.refs|
            && (Duty(s.threads[u], u).Some? ==> TraceAfter(s, g, t, a).phase[n] == g.phase[n])
            && Apply(s, t, a).next[n] == s.next[n]
  {
    var n := s.threads[u].node;
    assert InPool(s.threads[u], |s.refs|) && ThreadOk(s, g, t) && ThreadOk(s, g, u) && NodeOk(s, g, n);
    if Touched(s, t, a) == Some(n) {
      TouchedPhase(s, g, t, a, n);
      SumByTerm(s.threads, u, PinWeight(n));
    } else {
      UntouchedNode(s, g, t, a, n);
    }
  }

  lemma OwnThreadKept(s: State, g: Trace, t: nat, a: Action)
    requires WellFormed(s) && |g.phase| == |s.refs| && Enabled(s, t, a) && ThreadOk(s, g, t)
    requires WellFormed(Apply(s, t, a))
    ensures ThreadOk(Apply(s, t, a), TraceAfter(s, g, t, a), t)
  {
    if a.Advance? {
      match s.threads[t]
      case AddMark(_) =>
      case LinkLoad(_, _) =>
      case LinkNext(_, _, _) =>
      case LinkRefs(_, _, _) =>
      case LinkCas(_, _, _) =>
      case LinkUndo(_, _, _) =>
      case GetLoad =>
      case GetRefs(_) =>
      case GetPin(_, _) =>
      case GetNext(_) =>
      case GetCas(_, _) =>
      case GetTake(_) =>
      case GetUnpin(_, _) =>
    }
  }

  lemma ShapeKept(s: State, t: nat, a: Action)
    requires WellFormed(s) && Enabled(s, t, a)
    ensures var s' := Apply(s, t, a);
            WellFormed(s') && |s'.refs| == |s.refs| && |s'.threads| == |s.threads|
  {
    var s' := Apply(s, t, a);
    assert s'.threads == s.threads[t := s'.threads[t]];
    assert InPool(s.threads[t], |s.refs|);
    assert InPool(s'.threads[t], |s.refs|);
  }

  /** Every step keeps the invariant. */
  lemma StepKeepsInv(s: State, g: Trace, t: nat, a: Action)
    requires Inv(s, g) && Enabled(s, t, a)
    ensures Inv(Apply(s, t, a), TraceAfter(s, g, t, a))
  {
    ShapeKept(s, t, a);
    ChainKept(s, g, t, a);
    var s', g' := Apply(s, t, a), TraceAfter(s, g, t, a);
    if Touched(s, t, a).Some? {
      assert InPool(s.threads[t], |s.refs|);
      assert NodeOk(s, g, Touched(s, t, a).value);
    }
    forall u | 0 <= u < |s'.threads| ensures ThreadOk(s', g', u) {
      assert ThreadOk(s, g, t) && ThreadOk(s, g, u);
      if u == t {
        OwnThreadKept(s, g, t, a);
      } else {
        if Duty(s.threads[u], u).Some? || s.threads[u].GetCas? { OtherThreadsNode(s, g, t, a, u); }
        OtherThreadKept(s, g, s', g', u);
      }
    }
    forall n | 0 <= n < |s'.refs| ensures NodeOk(s', g', n) {
      assert ThreadOk(s, g, t) && NodeOk(s, g, n);
      if Touched(s, t, a) == Some(n) {
        TouchedPins(s, t, a, n);
        if a.Advance? && InGet(s.threads[t]) { GetWord(s, g, t, a, n); } else { LinkWord(s, g, t, a, n); }
        TouchedRecord(s, g, t, a, n);
      } else {
        UntouchedNode(s, g, t, a, n);
        SameNodeOk(s, g, s', g', t, n);
      }
    }
  }

  /* ---- Runs ---- */

  datatype Event = Event(thread: nat, action: Action)

  ghost predicate Run(s: State, events: seq<Event>, s': State)
    requires WellFormed(s)
    decreases |events|
  {
    if events == [] then s' == s
    else
      && Enabled(s, events[0].thread, events[0].action)
      && var m := Apply(s, events[0].thread, events[0].action);
         WellFormed(m) && Run(m, events[1..], s')
  }

  // Nodes as their constructor leaves them, all with the clients, and an empty list.
  ghost predicate Initial(s: State)
  {
    && WellFormed(s)
    && |s.threads| + 2 < SHOULD_BE_ON_FREELIST
    && s.head == None
    && (forall n :: 0 <= n < |s.refs| ==> s.refs[n] == 0 && s.next[n] == None && n in s.owned)
    && (forall t :: 0 <= t < |s.threads| ==> s.threads[t].Idle?)
  }

  ghost predicate Reachable(s: State)
  {
    exists s0, events :: Initial(s0) && Run(s0, events, s)
  }

  lemma {:induction false} RunKeepsInv(s: State, g: Trace, events: seq<Event>, s': State) returns (g': Trace)
    requires Inv(s, g) && Run(s, events, s')
    ensures Inv(s', g')
    decreases |events|
  {
    if events == [] {
      g' := g;
    } else {
      var t, a := events[0].thread, events[0].action;
      StepKeepsInv(s, g, t, a);
      g' := RunKeepsInv(Apply(s, t, a), TraceAfter(s, g, t, a), events[1..], s');
    }
  }

  lemma InvOfReachable(s: State) returns (g: Trace)
    requires Reachable(s)
    ensures Inv(s, g)
  {
    var s0, events :| Initial(s0) && Run(s0, events, s);
    var g0 := Trace([], seq(|s0.refs|, _ => Owned));
    forall n | 0 <= n < |s0.refs| ensures NodeOk(s0, g0, n) {
      SumByZero(s0.threads, PinWeight(n));
    }
    g := RunKeepsInv(s0, g0, events, s);
  }

  /* ---- What the invariant says, in terms of the memory and the threads alone ---- */

  // The node a thread is adding, has popped, or has been handed by a caller of `add`.
  function Charge(pc: PC): Option<Node>
  {
    if Duty(pc, 0).Some? then Some(Duty(pc, 0).value.0) else None
  }

  ghost predicate IsPinned(s: State, n: Node)
  {
    exists t :: 0 <= t < |s.threads|
             && (s.threads[t].GetNext? || s.threads[t].GetCas? || s.threads[t].GetUnpin?) && s.threads[t].node == n
  }

  // A thread has seen a zero count for `n` and is the one that will link it.
  ghost predicate IsBeingAdded(s: State, n: Node)
  {
    exists t :: 0 <= t < |s.threads|
             && (s.threads[t].LinkLoad? || s.threads[t].LinkNext? || s.threads[t].LinkRefs?) && s.threads[t].node == n
  }

  // A thread that has stored the count of 1 for a link it has not made yet.
  predicate LinkMade(pc: PC, n: Node)
  {
    (pc.LinkCas? || pc.LinkUndo?) && pc.node == n
  }

  ghost predicate IsBeingLinked(s: State, n: Node)
  {
    exists t :: 0 <= t < |s.threads| && LinkMade(s.threads[t], n)
  }

  ghost predicate IsBeingTaken(s: State, n: Node)
  {
    exists t :: 0 <= t < |s.threads| && s.threads[t] == GetTake(n)
  }

  /** In every run the list is a chain that visits no node twice and ends, and a node is in one place
      only: with the clients, on the chain, or in the hands of one thread. */
  lemma OnePlaceForEachNode(s: State) returns (c: seq<Node>)
    requires Reachable(s)
    ensures WellFormed(s) && IsChain(s, c)
    ensures forall n :: n in s.owned ==> n !in c
    ensures forall t :: 0 <= t < |s.threads| && Charge(s.threads[t]).Some?
                    ==> Charge(s.threads[t]).value !in s.owned && Charge(s.threads[t]).value !in c
    ensures forall t, u :: 0 <= t < u < |s.threads| && Charge(s.threads[t]).Some?
                       ==> Charge(s.threads[t]) != Charge(s.threads[u])
  {
    var g := InvOfReachable(s);
    c := g.chain;
    forall n | n in s.owned ensures n !in c { assert NodeOk(s, g, n); }
    forall t | 0 <= t < |s.threads| && Charge(s.threads[t]).Some?
      ensures g.phase[Charge(s.threads[t]).value] == Duty(s.threads[t], t).value.1
      ensures Charge(s.threads[t]).value !in s.owned && Charge(s.threads[t]).value !in c
    {
      assert ThreadOk(s, g, t) && InPool(s.threads[t], |s.refs|);
      assert NodeOk(s, g, Charge(s.threads[t]).value);
    }
    forall t, u | 0 <= t < u < |s.threads| && Charge(s.threads[t]).Some?
      ensures Charge(s.threads[t]) != Charge(s.threads[u])
    {
      assert ThreadOk(s, g, t) && ThreadOk(s, g, u);
    }
  }

  /** The count in the word is exact: one for the list (or for the link about to be made), one for each
      thread in try_get that raised it, two while a popped node is being handed over.  The bit is clear
      on a popped node, which is the assertion in try_get. */
  lemma CountIsExact(s: State, c: seq<Node>, n: Node)
    requires Reachable(s) && WellFormed(s) && IsChain(s, c) && n < |s.refs|
    ensures Count(s.refs[n]) == Pins(s.threads, n)
                              + (if n in c || IsBeingLinked(s, n) then 1 else 0)
                              + (if IsBeingTaken(s, n) then 2 else 0)
    ensures s.refs[n] < WORD
    ensures IsBeingTaken(s, n) ==> s.refs[n] < SHOULD_BE_ON_FREELIST
  {
    var g := InvOfReachable(s);
    ChainUnique(s, c, g.chain);
    PinsBound(s, n);
    assert NodeOk(s, g, n);
    forall t | 0 <= t < |s.threads| && s.threads[t] == GetTake(n) ensures g.phase[n] == Popped(t) {
      assert ThreadOk(s, g, t);
    }
    forall t | 0 <= t < |s.threads| && LinkMade(s.threads[t], n) ensures g.phase[n] == Linking(t) {
      assert ThreadOk(s, g, t);
    }
    assert g.phase[n].Popped? ==> s.threads[g.phase[n].tid] == GetTake(n);
    assert g.phase[n].Linking? ==> LinkMade(s.threads[g.phase[n].tid], n);
  }

  lemma ChainUnique(s: State, c: seq<Node>, d: seq<Node>)
    requires |s.refs| == |s.next| && IsChain(s, c) && IsChain(s, d)
    ensures c == d
  {
    ChainPrefix(s, c, d, if |c| <= |d| then |c| else |d|);
  }

  lemma {:induction false} ChainPrefix(s: State, c: seq<Node>, d: seq<Node>, k: nat)
    requires |s.refs| == |s.next| && IsChain(s, c) && IsChain(s, d) && k <= |c| && k <= |d|
    ensures forall i :: 0 <= i < k ==> c[i] == d[i]
    ensures k == |c| || k == |d| ==> |c| == |d|
  {
    if k > 0 {
      ChainPrefix(s, c, d, k - 1);
      if k > 1 {
        assert s.next[c[k - 2]] == Following(c, k - 2) && s.next[d[k - 2]] == Following(d, k - 2);
      }
      assert c[k - 1] == d[k - 1];
      assert Following(c, k - 1) == s.next[c[k - 1]] == Following(d, k - 1);
    }
  }

  /** No node is lost: while the bit is set, some thread has the node pinned and will see the count drop
      to zero, or is linking it already. */
  lemma BitIsAlwaysAnswered(s: State, n: Node)
    requires Reachable(s) && WellFormed(s) && n < |s.refs| && s.refs[n] >= SHOULD_BE_ON_FREELIST
    ensures IsPinned(s, n) || IsBeingAdded(s, n)
  {
    var g := InvOfReachable(s);
    PinsBound(s, n);
    assert NodeOk(s, g, n);
    if g.phase[n].Waiting? {
      var t := SumByWitness(s.threads, PinWeight(n));
      assert s.threads[t].node == n;
    } else {
      assert g.phase[n].Adding?;
      assert s.threads[g.phase[n].tid].node == n;
    }
  }

  /** With no call in flight every node is on the chain, with a count of one, or with the clients, with
      a count of zero, and never both. */
  lemma NothingLostAtRest(s: State, c: seq<Node>)
    requires Reachable(s) && WellFormed(s) && IsChain(s, c)
    requires forall t :: 0 <= t < |s.threads| ==> s.threads[t].Idle?
    ensures forall n :: 0 <= n < |s.refs| ==> (n in c <==> n !in s.owned)
    ensures forall n :: 0 <= n < |s.refs| ==> s.refs[n] == if n in c then 1 else 0
  {
    var g := InvOfReachable(s);
    ChainUnique(s, c, g.chain);
    forall n | 0 <= n < |s.refs|
      ensures n in c <==> n !in s.owned
      ensures s.refs[n] == if n in c then 1 else 0
    {
      assert NodeOk(s, g, n);
      SumByZero(s.threads, PinWeight(n));
    }
  }

  /** Every step is a push of the node its thread was adding, a pop of the first node for the thread that
      will return it, or leaves the chain alone; a successful CAS in try_get installs the true successor
      even when its `next` was read long before (no ABA). */
  lemma StepIsPushPopOrStutter(s: State, c: seq<Node>, t: nat, a: Action)
    requires Reachable(s) && WellFormed(s) && IsChain(s, c) && Enabled(s, t, a)
    ensures var s' := Apply(s, t, a);
            && |s'.refs| == |s'.next|
            && (|| IsChain(s', c)
                || (Charge(s.threads[t]).Some? && s'.threads[t] != s.threads[t]
                    && Charge(s.threads[t]).value !in c && IsChain(s', [Charge(s.threads[t]).value] + c))
                || (c != [] && s'.threads[t] == GetTake(c[0]) && IsChain(s', c[1..])))
    ensures var s' := Apply(s, t, a);
            && (s'.owned != s.owned ==>
                  || (a.CallAdd? && s'.owned == s.owned - {a.node})
                  || (s.threads[t].GetTake? && s.threads[t].node !in s.owned
                      && s'.owned == s.owned + {s.threads[t].node}))
  {
    var g := InvOfReachable(s);
    ChainUnique(s, c, g.chain);
    ShapeKept(s, t, a);
    ChainKept(s, g, t, a);
    assert ThreadOk(s, g, t) && InPool(s.threads[t], |s.refs|);
    if Charge(s.threads[t]).Some? {
      assert NodeOk(s, g, Charge(s.threads[t]).value);
    }
  }

  /* ---- What one call does when nobody interferes ---- */

  // `k` accesses of thread `t` in a row.
  ghost function Alone(s: State, t: nat, k: nat): State
    requires WellFormed(s) && t < |s.threads|
    decreases k
  {
    if k == 0 || s.threads[t].Idle? then s
    else
      ShapeKept(s, t, Advance);
      Alone(Access(s, t), t, k - 1)
  }

  /** `add` of an unpinned node puts it first on the list, with a count of one. */
  lemma AddAlone(s: State, t: nat, n: Node)
    requires WellFormed(s) && Enabled(s, t, CallAdd(n)) && s.refs[n] == 0
    ensures var m := Apply(s, t, CallAdd(n));
            WellFormed(m) &&
            Alone(m, t, 5) == s.(head := Some(n), next := s.next[n := s.head], refs := s.refs[n := 1],
                                 owned := s.owned - {n})
  {
    var s0 := Apply(s, t, CallAdd(n));
    ShapeKept(s, t, CallAdd(n));
    var s1 := Access(s0, t); ShapeKept(s0, t, Advance);
    var s2 := Access(s1, t); ShapeKept(s1, t, Advance);
    var s3 := Access(s2, t); ShapeKept(s2, t, Advance);
    var s4 := Access(s3, t); ShapeKept(s3, t, Advance);
    var s5 := Access(s4, t); ShapeKept(s4, t, Advance);
    assert s5.threads == s.threads;
    assert s5.refs == s.refs[n := 1];
    assert Alone(s0, t, 5) == Alone(s1, t, 4) == Alone(s2, t, 3) == Alone(s3, t, 2) == Alone(s4, t, 1) == s5;
  }

  /** `try_get` hands the first node to the client, and nothing when the list is empty. */
  lemma TryGetAlone(s: State, t: nat)
    requires WellFormed(s) && Enabled(s, t, CallTryGet)
    requires s.head.Some? ==> 0 < Count(s.refs[s.head.value]) == s.refs[s.head.value]
    ensures var m := Apply(s, t, CallTryGet);
            WellFormed(m) &&
            Alone(m, t, 6) == if s.head.None? then s
                              else var n := s.head.value;
                                   s.(head := s.next[n], refs := s.refs[n := s.refs[n] - 1], owned := s.owned + {n})
  {
    var s0 := Apply(s, t, CallTryGet);
    ShapeKept(s, t, CallTryGet);
    var s1 := Access(s0, t); ShapeKept(s0, t, Advance);
    if s.head.None? {
      assert s1.threads == s.threads;
    } else {
      var n := s.head.value;
      var s2 := Access(s1, t); ShapeKept(s1, t, Advance);
      var s3 := Access(s2, t); ShapeKept(s2, t, Advance);
      var s4 := Access(s3, t); ShapeKept(s3, t, Advance);
      var s5 := Access(s4, t); ShapeKept(s4, t, Advance);
      var s6 := Access(s5, t); ShapeKept(s5, t, Advance);
      assert s6.threads == s.threads;
      assert s6.refs == s.refs[n := s.refs[n] - 1];
      assert Alone(s0, t, 6) == Alone(s1, t, 5) == Alone(s2, t, 4) == Alone(s3, t, 3);
      assert Alone(s3, t, 3) == Alone(s4, t, 2) == Alone(s5, t, 1) == s6;
    }
  }
}
