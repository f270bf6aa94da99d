/** The lock-free table from thread ids to implicit producers: linear probing in a chain of growing
    tables, insertion by CAS into the table a thread believes newest, lazy copying into it later. */
module ProducerHash {
  import opened Basics
  import Circular

  type Producer = nat

  // Thread t has id t + 1; the empty key is 0.  A capacity is a power of two, so `index & (capacity - 1)`
  // is the index modulo the capacity.
  const EMPTY: nat := 0

  function Id(t: nat): nat { t + 1 }

  datatype Table = Table(keys: seq<nat>, values: seq<Option<Producer>>)
  {
    function Capacity(): nat { |keys| }

    // Insertions are made only while their number is below three quarters of the capacity.
    function Limit(): nat { |keys| / 2 + |keys| / 4 }
  }

  function Slot(hash: nat, step: nat, capacity: nat): (i: nat)
    requires capacity > 0
    ensures i < capacity
  {
    (hash + step) % capacity
  }

  // `main` is the newest table the thread has seen, `step` counts probes from the hashed slot, `num` is
  // the thread's number among insertions.
  datatype PC =
    | Idle
    | Start                                                  // load of implicitProducerHash
    | Search(main: nat, cur: nat, step: nat)                 // load of a key in table `cur`
    | CopyProbe(main: nat, value: Option<Producer>, step: nat)       // load of a key in `main`
    | CopyCas(main: nat, value: Option<Producer>, step: nat)         // CAS of the key from empty
    | CopyStore(main: nat, value: Option<Producer>, step: nat)       // store of the value
    | Number(main: nat)                                      // fetch_add on implicitProducerHashCount
    | TryLock(main: nat, num: nat)                           // test of the load, test_and_set of the resize flag
    | Reload(num: nat)                                       // flag taken: load of implicitProducerHash
    | Install(main: nat, num: nat)                           // store of a bigger table
    | Unlock(main: nat, num: nat)                            // clear of the flag
    | Create(main: nat, num: nat)                            // create a producer
    | InsertProbe(main: nat, num: nat, value: Option<Producer>, step: nat)
    | InsertCas(main: nat, num: nat, value: Option<Producer>, step: nat)
    | InsertStore(main: nat, value: Option<Producer>, step: nat)
    | Wait(num: nat)                                         // another thread resizes: load the table again
    | Done(value: Option<Producer>)

  // tables[0] is the oldest; each table's `prev` is the one before it, and the last is implicitProducerHash.
  datatype State = State(
    tables: seq<Table>,
    count: nat,
    resizing: bool,
    created: nat,
    hashes: seq<nat>,
    threads: seq<PC>)

  datatype Action = Call(thread: nat) | Advance(thread: nat) | Return(thread: nat)

  predicate TableShape(tb: Table) { |tb.keys| == |tb.values| && |tb.keys| > 0 }

  predicate Shape(s: State)
  {
    && s.tables != [] && |s.hashes| == |s.threads|
    && (forall k :: 0 <= k < |s.tables| ==> TableShape(s.tables[k]))
    && (forall t :: 0 <= t < |s.threads| ==> PCShape(s.threads[t], |s.tables|))
  }

  predicate PCShape(pc: PC, tables: nat)
  {
    match pc
    case Search(main, cur, _) => cur <= main < tables
    case CopyProbe(main, _, _) => main < tables
    case CopyCas(main, _, _) => main < tables
    case CopyStore(main, _, _) => main < tables
    case Number(main) => main < tables
    case TryLock(main, _) => main < tables
    case Install(main, _) => main < tables
    case Unlock(main, _) => main < tables
    case Create(main, _) => main < tables
    case InsertProbe(main, _, _, _) => main < tables
    case InsertCas(main, _, _, _) => main < tables
    case InsertStore(main, _, _) => main < tables
    case _ => true
  }

  predicate Enabled(s: State, a: Action)
  {
    && a.thread < |s.threads|
    && match a
       case Call(t) => s.threads[t].Idle?
       case Return(t) => s.threads[t].Done?
       case Advance(t) => !s.threads[t].Idle? && !s.threads[t].Done?
  }

  function Move(s: State, t: nat, pc: PC): State
    requires t < |s.threads|
  {
    s.(threads := s.threads[t := pc])
  }

  function SetKey(s: State, k: nat, i: nat, id: nat): State
    requires k < |s.tables| && i < |s.tables[k].keys|
  {
    var tb := s.tables[k];
    s.(tables := s.tables[k := tb.(keys := tb.keys[i := id])])
  }

  function SetValue(s: State, k: nat, i: nat, v: Option<Producer>): State
    requires k < |s.tables| && i < |s.tables[k].values|
  {
    var tb := s.tables[k];
    s.(tables := s.tables[k := tb.(values := tb.values[i := v])])
  }

  // Doubled at least once, and until the number is below half of it.
  function NewCapacity(capacity: nat, num: nat): (c: nat)
    requires capacity > 0
    ensures c >= 2 * capacity && num < c / 2 && (c == 2 * capacity || c <= 4 * num + 3)
    decreases num - capacity
  {
    if num < (2 * capacity) / 2 then 2 * capacity else NewCapacity(2 * capacity, num)
  }

  function EmptyTable(capacity: nat): Table
  {
    Table(seq(capacity, _ => EMPTY), seq(capacity, _ => None))
  }

  // The test before an insertion: below three quarters of the table, or wait for a bigger one.
  function Decide(s: State, main: nat, num: nat): PC
    requires main < |s.tables|
  {
    if num < s.tables[main].Limit() then Create(main, num) else Wait(num)
  }

  function Apply(s: State, a: Action): State
    requires Shape(s) && Enabled(s, a)
  {
    match a
    case Call(t) => Move(s, t, Start)
    case Return(t) => Move(s, t, Idle)
    case Advance(t) => Access(s, t)
  }

  function Access(s: State, t: nat): State
    requires Shape(s) && Enabled(s, Advance(t))
  {
    var newest := |s.tables| - 1;
    match s.threads[t]
    case Start =>
      Move(s, t, Search(newest, newest, 0))
    case Search(main, cur, step) =>
      var i := Slot(s.hashes[t], step, s.tables[cur].Capacity());
      var key := s.tables[cur].keys[i];
      Move(s, t,
        if key == Id(t) then
          if cur != main then CopyProbe(main, s.tables[cur].values[i], 0) else Done(s.tables[cur].values[i])
        else if key == EMPTY then
          if cur == 0 then Number(main) else Search(main, cur - 1, 0)
        else Search(main, cur, step + 1))
    case CopyProbe(main, value, step) =>
      var i := Slot(s.hashes[t], step, s.tables[main].Capacity());
      Move(s, t, if s.tables[main].keys[i] == EMPTY then CopyCas(main, value, step)
                 else CopyProbe(main, value, step + 1))
    case CopyCas(main, value, step) =>
      var i := Slot(s.hashes[t], step, s.tables[main].Capacity());
      if s.tables[main].keys[i] == EMPTY then SetKey(Move(s, t, CopyStore(main, value, step)), main, i, Id(t))
      else Move(s, t, CopyProbe(main, value, step + 1))
    case CopyStore(main, value, step) =>
      SetValue(Move(s, t, Done(value)), main, Slot(s.hashes[t], step, s.tables[main].Capacity()), value)
    case Number(main) =>
      Move(s, t, TryLock(main, s.count + 1)).(count := s.count + 1)
    case TryLock(main, num) =>
      if num >= s.tables[main].Capacity() / 2 && !s.resizing then Move(s, t, Reload(num)).(resizing := true)
      else Move(s, t, Decide(s, main, num))
    case Reload(num) =>
      Move(s, t, if num >= s.tables[newest].Capacity() / 2 then Install(newest, num) else Unlock(newest, num))
    case Install(main, num) =>
      Move(s, t, Unlock(newest + 1, num)).(tables :=
        s.tables + [EmptyTable(NewCapacity(s.tables[main].Capacity(), num))])
    case Unlock(main, num) =>
      Move(s, t, Decide(s, main, num)).(resizing := false)
    case Create(main, num) =>
      Move(s, t, InsertProbe(main, num, Some(s.created), 0)).(created := s.created + 1)
    case InsertProbe(main, num, value, step) =>
      var i := Slot(s.hashes[t], step, s.tables[main].Capacity());
      Move(s, t, if s.tables[main].keys[i] == EMPTY then InsertCas(main, num, value, step)
                 else InsertProbe(main, num, value, step + 1))
    case InsertCas(main, num, value, step) =>
      var i := Slot(s.hashes[t], step, s.tables[main].Capacity());
      if s.tables[main].keys[i] == EMPTY then SetKey(Move(s, t, InsertStore(main, value, step)), main, i, Id(t))
      else Move(s, t, InsertProbe(main, num, value, step + 1))
    case InsertStore(main, value, step) =>
      SetValue(Move(s, t, Done(value)), main, Slot(s.hashes[t], step, s.tables[main].Capacity()), value)
    case Wait(num) =>
      Move(s, t, TryLock(newest, num))
  }

  /* ---- The invariant ---- */

  // History of a run: each thread's number among insertions (0: none yet), the producer created for it,
  // the table its id was first inserted in, and the thread that holds the resize flag.
  datatype Trace = Trace(
    numbers: seq<nat>,
    made: seq<Option<Producer>>,
    home: seq<Option<nat>>,
    holder: Option<nat>)

  // The first `step` slots a thread probes are taken.
  ghost predicate Taken(tb: Table, hash: nat, step: nat)
    requires TableShape(tb)
  {
    forall i: nat :: i < step ==> tb.keys[Slot(hash, i, |tb.keys|)] != EMPTY
  }

  // A probe for a key at slot p reaches it before it sees an empty slot.
  ghost predicate Reached(tb: Table, hash: nat, p: nat)
    requires TableShape(tb)
  {
    exists j: nat :: Slot(hash, j, |tb.keys|) == p && Taken(tb, hash, j)
  }

  // A thread between the CAS of its key and the store of its value.
  predicate Storing(pc: PC, k: nat)
  {
    (pc.CopyStore? || pc.InsertStore?) && pc.main == k
  }

  ghost predicate KeyOk(s: State, g: Trace, k: nat, p: nat)
    requires Shape(s) && TraceShape(s, g) && k < |s.tables| && p < |s.tables[k].keys|
  {
    var tb := s.tables[k];
    tb.keys[p] != EMPTY ==>
      var u := tb.keys[p] - 1;
      && u < |s.threads|
      && g.home[u].Some? && g.made[u].Some?
      && 0 < g.numbers[u] < tb.Limit()
      && (tb.values[p] == g.made[u] || Storing(s.threads[u], k))
      && Reached(tb, s.hashes[u], p)
  }

  ghost predicate KeysDiffer(tb: Table)
  {
    forall p, q :: 0 <= p < q < |tb.keys| && tb.keys[p] != EMPTY ==> tb.keys[p] != tb.keys[q]
  }

  ghost predicate TraceShape(s: State, g: Trace)
  {
    |g.numbers| == |g.made| == |g.home| == |s.threads|
  }

  // A thread that is looking for a place for a new producer.
  predicate Inserting(pc: PC)
  {
    pc.TryLock? || pc.Reload? || pc.Install? || pc.Unlock? || pc.Create? || pc.InsertProbe? || pc.InsertCas? || pc.Wait?
  }

  predicate HoldsFlag(pc: PC) { pc.Reload? || pc.Install? || pc.Unlock? }

  ghost predicate ThreadOk(s: State, g: Trace, t: nat)
    requires Shape(s) && TraceShape(s, g) && t < |s.threads|
  {
    var pc := s.threads[t];
    // Once inserted, the id stays in its first table.
    && (g.home[t].Some? ==> g.home[t].value < |s.tables| && Id(t) in s.tables[g.home[t].value].keys
                            && g.made[t].Some? && g.numbers[t] > 0)
    && (g.made[t].Some? ==> g.made[t].value < s.created)
    && (g.home[t].None? ==> (g.numbers[t] > 0 <==> Inserting(pc))
                            && (g.made[t].Some? <==> pc.InsertProbe? || pc.InsertCas?))
    && (Inserting(pc) || pc.Number? ==> g.home[t].None?)
    && (Inserting(pc) ==> pc.num == g.numbers[t])
    && (HoldsFlag(pc) <==> g.holder == Some(t))
    && match pc
       case Search(main, cur, step) =>
         && Taken(s.tables[cur], s.hashes[t], step)
         && (forall i: nat :: i < step ==> s.tables[cur].keys[Slot(s.hashes[t], i, |s.tables[cur].keys|)] != Id(t))
         && (g.home[t].Some? ==> g.home[t].value <= cur)
         && (forall k :: cur < k <= main ==> Id(t) !in s.tables[k].keys)
       case CopyProbe(main, value, step) =>
         g.home[t].Some? && value == g.made[t] && g.home[t].value < main
         && Id(t) !in s.tables[main].keys && Taken(s.tables[main], s.hashes[t], step)
       case CopyCas(main, value, step) =>
         g.home[t].Some? && value == g.made[t] && g.home[t].value < main
         && Id(t) !in s.tables[main].keys && Taken(s.tables[main], s.hashes[t], step)
       case CopyStore(main, value, step) =>
         g.home[t].Some? && value == g.made[t] &&
         s.tables[main].keys[Slot(s.hashes[t], step, |s.tables[main].keys|)] == Id(t)
       case Install(main, num) => main == |s.tables| - 1 && num >= s.tables[main].Capacity() / 2
       case Unlock(main, num) => num < s.tables[main].Capacity() / 2
       case Create(main, num) => num < s.tables[main].Limit()
       case InsertProbe(main, num, value, step) =>
         value == g.made[t] && num < s.tables[main].Limit() && Taken(s.tables[main], s.hashes[t], step)
       case InsertCas(main, num, value, step) =>
         value == g.made[t] && num < s.tables[main].Limit() && Taken(s.tables[main], s.hashes[t], step)
       case InsertStore(main, value, step) =>
         g.home[t].Some? && value == g.made[t] &&
         s.tables[main].keys[Slot(s.hashes[t], step, |s.tables[main].keys|)] == Id(t)
       case Done(value) => g.home[t].Some? && value == g.made[t]
       case _ => true
  }

  ghost predicate NumbersOk(s: State, g: Trace)
  {
    && (forall t :: 0 <= t < |g.numbers| ==> g.numbers[t] <= s.count)
    && (forall t, u :: 0 <= t < u < |g.numbers| && g.numbers[t] > 0 ==> g.numbers[t] != g.numbers[u])
    && (forall t, u :: 0 <= t < u < |g.made| && g.made[t].Some? ==> g.made[t] != g.made[u])
  }

  ghost predicate Inv(s: State, g: Trace)
  {
    && Shape(s) && TraceShape(s, g) && NumbersOk(s, g)
    && (forall i, j :: 0 <= i < j < |s.tables| ==> |s.tables[i].keys| <= |s.tables[j].keys|)
    && (forall k, p :: 0 <= k < |s.tables| && 0 <= p < |s.tables[k].keys| ==> KeyOk(s, g, k, p))
    && (forall k :: 0 <= k < |s.tables| ==> KeysDiffer(s.tables[k]))
    && (forall t :: 0 <= t < |s.threads| ==> ThreadOk(s, g, t))
    && (s.resizing <==> g.holder.Some?)
    && (g.holder.Some? ==> g.holder.value < |s.threads|)
  }

  function TraceAfter(s: State, g: Trace, a: Action): Trace
    requires Shape(s) && TraceShape(s, g) && Enabled(s, a)
  {
    if !a.Advance? then g
    else
      var t := a.thread;
      match s.threads[t]
      case Number(_) => g.(numbers := g.numbers[t := s.count + 1])
      case TryLock(main, num) =>
        if num >= s.tables[main].Capacity() / 2 && !s.resizing then g.(holder := Some(t)) else g
      case Unlock(_, _) => g.(holder := None)
      case Create(_, _) => g.(made := g.made[t := Some(s.created)])
      case InsertCas(main, _, _, step) =>
        if s.tables[main].keys[Slot(s.hashes[t], step, s.tables[main].Capacity())] == EMPTY
        then g.(home := g.home[t := Some(main)]) else g
      case _ => g
  }

  // Only thread `t`'s record and position may differ, and its record only before its id is inserted.
  ghost predicate OnlyMoves(s: State, g: Trace, s': State, g': Trace, t: nat)
  {
    && TraceShape(s, g) && TraceShape(s', g') && t < |s.threads| == |s'.threads|
    && s'.hashes == s.hashes && s.created <= s'.created && s.count <= s'.count
    && s'.threads == s.threads[t := s'.threads[t]]
    && (forall u :: 0 <= u < |s.threads| && u != t ==>
          g'.numbers[u] == g.numbers[u] && g'.made[u] == g.made[u] && g'.home[u] == g.home[u])
    && (g.home[t].Some? ==> g' == g.(holder := g'.holder))
    && (forall u :: 0 <= u < |s.threads| && u != t ==> (g'.holder == Some(u) <==> g.holder == Some(u)))
  }

  // A step that leaves the tables alone.
  lemma MoveKeepsInv(s: State, g: Trace, s': State, g': Trace, t: nat)
    requires Inv(s, g) && Shape(s') && OnlyMoves(s, g, s', g', t) && s'.tables == s.tables
    requires !s.threads[t].CopyStore? && !s.threads[t].InsertStore?
    requires NumbersOk(s', g') && ThreadOk(s', g', t)
    requires s'.resizing <==> g'.holder.Some?
    requires g'.holder.Some? ==> g'.holder.value < |s.threads|
    ensures Inv(s', g')
  {
    forall k, p | 0 <= k < |s'.tables| && 0 <= p < |s'.tables[k].keys| ensures KeyOk(s', g', k, p) {
      assert KeyOk(s, g, k, p);
    }
    forall u | 0 <= u < |s'.threads| ensures ThreadOk(s', g', u) {
      assert ThreadOk(s, g, u);
    }
  }

  // One table replaced by `tb`, which has the same keys but for empty slots that hold `Id(t)` now.
  ghost predicate Grows(was: Table, tb: Table, id: nat)
  {
    && TableShape(was) && TableShape(tb) && |tb.keys| == |was.keys|
    && (forall i :: 0 <= i < |tb.keys| ==> tb.keys[i] == was.keys[i] || (was.keys[i] == EMPTY && tb.keys[i] == id))
    && id != EMPTY
  }

  lemma TakenGrows(was: Table, tb: Table, id: nat, hash: nat, step: nat)
    requires Grows(was, tb, id) && Taken(was, hash, step)
    ensures Taken(tb, hash, step)
  {
  }

  lemma ReachedGrows(was: Table, tb: Table, id: nat, hash: nat, p: nat)
    requires Grows(was, tb, id) && Reached(was, hash, p)
    ensures Reached(tb, hash, p)
  {
    var j: nat :| Slot(hash, j, |was.keys|) == p && Taken(was, hash, j);
    TakenGrows(was, tb, id, hash, j);
  }

  // What another thread knows is still true after table `k` grew by the key of thread `t`.
  lemma OtherThreadGrows(s: State, g: Trace, s': State, g': Trace, t: nat, k: nat, u: nat)
    requires Shape(s) && Shape(s') && OnlyMoves(s, g, s', g', t) && k < |s.tables|
    requires u < |s.threads| && u != t && ThreadOk(s, g, u)
    requires |s'.tables| == |s.tables| && s'.tables == s.tables[k := s'.tables[k]]
    requires Grows(s.tables[k], s'.tables[k], Id(t))
    ensures ThreadOk(s', g', u)
  {
    var pc := s.threads[u];
    if g.home[u].Some? && g.home[u].value == k {
      var p :| 0 <= p < |s.tables[k].keys| && s.tables[k].keys[p] == Id(u);
      assert s'.tables[k].keys[p] == Id(u);
    }
    if pc.Search? && pc.cur == k { TakenGrows(s.tables[k], s'.tables[k], Id(t), s.hashes[u], pc.step); }
    if (pc.CopyProbe? || pc.CopyCas? || pc.InsertProbe? || pc.InsertCas?) && pc.main == k {
      TakenGrows(s.tables[k], s'.tables[k], Id(t), s.hashes[u], pc.step);
    }
  }

  lemma OtherKeyGrows(s: State, g: Trace, s': State, g': Trace, t: nat, k: nat, l: nat, p: nat)
    requires Shape(s) && Shape(s') && OnlyMoves(s, g, s', g', t) && k < |s.tables|
    requires |s'.tables| == |s.tables| && s'.tables == s.tables[k := s'.tables[k]]
    requires Grows(s.tables[k], s'.tables[k], Id(t)) && s'.tables[k].values == s.tables[k].values
    requires l < |s.tables| && p < |s.tables[l].keys| && KeyOk(s, g, l, p)
    requires s'.tables[l].keys[p] == s.tables[l].keys[p]
    requires !s.threads[t].CopyStore? && !s.threads[t].InsertStore?
    ensures KeyOk(s', g', l, p)
  {
    if l == k && s.tables[l].keys[p] != EMPTY {
      ReachedGrows(s.tables[k], s'.tables[k], Id(t), s.hashes[s.tables[l].keys[p] - 1], p);
    }
  }

  // The CAS that puts the thread's id into slot `i` of table `k`.
  lemma KeyKeepsInv(s: State, g: Trace, s': State, g': Trace, t: nat, k: nat, step: nat)
    requires Inv(s, g) && Shape(s') && OnlyMoves(s, g, s', g', t) && k < |s.tables|
    requires s'.created == s.created && s'.count == s.count && s'.resizing == s.resizing && g'.holder == g.holder
    requires g'.numbers == g.numbers && g'.made == g.made
    requires !s.threads[t].CopyStore? && !s.threads[t].InsertStore? && Storing(s'.threads[t], k)
    requires var i := Slot(s.hashes[t], step, |s.tables[k].keys|);
             && s.tables[k].keys[i] == EMPTY
             && s'.tables == s.tables[k := s.tables[k].(keys := s.tables[k].keys[i := Id(t)])]
    requires Taken(s.tables[k], s.hashes[t], step)
    requires Id(t) !in s.tables[k].keys
    requires g'.home[t].Some? && g.made[t].Some? && 0 < g.numbers[t] < s.tables[k].Limit()
    requires ThreadOk(s', g', t)
    ensures Inv(s', g')
  {
    var i := Slot(s.hashes[t], step, |s.tables[k].keys|);
    assert Grows(s.tables[k], s'.tables[k], Id(t));
    forall l, p | 0 <= l < |s'.tables| && 0 <= p < |s'.tables[l].keys| ensures KeyOk(s', g', l, p) {
      assert KeyOk(s, g, l, p);
      if l == k && p == i {
        TakenGrows(s.tables[k], s'.tables[k], Id(t), s.hashes[t], step);
      } else {
        OtherKeyGrows(s, g, s', g', t, k, l, p);
      }
    }
    forall l | 0 <= l < |s'.tables| ensures KeysDiffer(s'.tables[l]) {
      assert KeysDiffer(s.tables[l]);
    }
    forall u | 0 <= u < |s'.threads| ensures ThreadOk(s', g', u) {
      assert ThreadOk(s, g, u);
      if u != t { OtherThreadGrows(s, g, s', g', t, k, u); }
    }
  }

  // The store of the value beside the key the thread has inserted.
  lemma ValueKeepsInv(s: State, g: Trace, s': State, t: nat, k: nat, i: nat)
    requires Inv(s, g) && Shape(s') && t < |s.threads| && k < |s.tables| && i < |s.tables[k].keys|
    requires Storing(s.threads[t], k) && s.tables[k].keys[i] == Id(t) && g.home[t].Some?
    requires s' == SetValue(Move(s, t, Done(g.made[t])), k, i, g.made[t])
    ensures Inv(s', g)
  {
    forall l, p | 0 <= l < |s'.tables| && 0 <= p < |s'.tables[l].keys| ensures KeyOk(s', g, l, p) {
      ValueKeepsKey(s, g, s', t, k, i, l, p);
    }
    forall l | 0 <= l < |s'.tables| ensures KeysDiffer(s'.tables[l]) {
      assert KeysDiffer(s.tables[l]);
    }
    forall u | 0 <= u < |s'.threads| ensures ThreadOk(s', g, u) {
      ValueKeepsThread(s, g, s', t, k, i, u);
    }
  }

  lemma ValueKeepsThread(s: State, g: Trace, s': State, t: nat, k: nat, i: nat, u: nat)
    requires Inv(s, g) && Shape(s') && t < |s.threads| && k < |s.tables| && i < |s.tables[k].keys|
    requires Storing(s.threads[t], k) && g.home[t].Some? && u < |s.threads|
    requires s' == SetValue(Move(s, t, Done(g.made[t])), k, i, g.made[t])
    ensures ThreadOk(s', g, u)
  {
    assert ThreadOk(s, g, u);
  }

  lemma ValueKeepsKey(s: State, g: Trace, s': State, t: nat, k: nat, i: nat, l: nat, p: nat)
    requires Inv(s, g) && Shape(s') && t < |s.threads| && k < |s.tables| && i < |s.tables[k].keys|
    requires Storing(s.threads[t], k) && s.tables[k].keys[i] == Id(t)
    requires s' == SetValue(Move(s, t, Done(g.made[t])), k, i, g.made[t])
    requires l < |s.tables| && p < |s.tables[l].keys|
    ensures KeyOk(s', g, l, p)
  {
    assert KeyOk(s, g, l, p) && KeysDiffer(s.tables[l]);
    if s.tables[l].keys[p] != EMPTY {
      SameKeysReached(s.tables[l], s'.tables[l], s.hashes[s.tables[l].keys[p] - 1], p);
    }
  }

  lemma SameKeysReached(was: Table, tb: Table, hash: nat, p: nat)
    requires TableShape(was) && TableShape(tb) && tb.keys == was.keys && Reached(was, hash, p)
    ensures Reached(tb, hash, p)
  {
    var j: nat :| Slot(hash, j, |was.keys|) == p && Taken(was, hash, j);
    assert Taken(tb, hash, j);
  }

  // A bigger, empty table in front of the chain.
  lemma TableAdded(s: State, g: Trace, s': State, t: nat, capacity: nat)
    requires Inv(s, g) && Shape(s') && t < |s.threads| && s.threads[t].Install?
    requires capacity >= |s.tables[|s.tables| - 1].keys| && s.threads[t].num < capacity / 2
    requires s' == Move(s, t, Unlock(|s.tables|, s.threads[t].num)).(tables := s.tables + [EmptyTable(capacity)])
    ensures Inv(s', g)
  {
    assert ThreadOk(s, g, t);
    forall l, p | 0 <= l < |s'.tables| && 0 <= p < |s'.tables[l].keys| ensures KeyOk(s', g, l, p) {
      if l < |s.tables| { assert KeyOk(s, g, l, p); }
    }
    forall l | 0 <= l < |s'.tables| ensures KeysDiffer(s'.tables[l]) {
      if l < |s.tables| { assert KeysDiffer(s.tables[l]); }
    }
    forall u | 0 <= u < |s'.threads| ensures ThreadOk(s', g, u) {
      assert ThreadOk(s, g, u);
      if u != t { OtherThreadKeeps(s, g, s', u); }
    }
  }

  lemma InstallKeepsInv(s: State, g: Trace, t: nat)
    requires Inv(s, g) && t < |s.threads| && s.threads[t].Install?
    ensures Inv(Access(s, t), g)
  {
    assert ThreadOk(s, g, t);
    var main, num := s.threads[t].main, s.threads[t].num;
    TableAdded(s, g, Access(s, t), t, NewCapacity(s.tables[main].Capacity(), num));
  }

  // What a thread knows does not change with a new table, but for the holder of the flag.
  lemma OtherThreadKeeps(s: State, g: Trace, s': State, u: nat)
    requires Shape(s) && Shape(s') && TraceShape(s, g) && TraceShape(s', g) && u < |s.threads| && ThreadOk(s, g, u)
    requires s'.threads[u] == s.threads[u] && !s.threads[u].Install? && s'.hashes == s.hashes
    requires s.created == s'.created && s.tables <= s'.tables
    ensures ThreadOk(s', g, u)
  {
  }

  // An empty slot where the probe stands means the id is not in the table.
  lemma AbsentAtEmpty(s: State, g: Trace, t: nat, k: nat, step: nat)
    requires Inv(s, g) && t < |s.threads| && k < |s.tables|
    requires Taken(s.tables[k], s.hashes[t], step)
    requires forall i: nat :: i < step ==> s.tables[k].keys[Slot(s.hashes[t], i, |s.tables[k].keys|)] != Id(t)
    requires s.tables[k].keys[Slot(s.hashes[t], step, |s.tables[k].keys|)] == EMPTY
    ensures Id(t) !in s.tables[k].keys
  {
    var tb := s.tables[k];
    forall j: nat | Taken(tb, s.hashes[t], j) ensures j <= step {}
    forall p | 0 <= p < |tb.keys| ensures tb.keys[p] != Id(t) { assert KeyOk(s, g, k, p); }
  }

  lemma SearchOwn(s: State, g: Trace, t: nat)
    requires Inv(s, g) && t < |s.threads| && s.threads[t].Search?
    ensures Shape(Access(s, t)) && ThreadOk(Access(s, t), g, t)
  {
    assert ThreadOk(s, g, t);
    var key := KeySeen(s, t);
    if key == Id(t) { SearchFound(s, g, t); } else if key == EMPTY { SearchEnded(s, g, t); }
  }

  function KeySeen(s: State, t: nat): nat
    requires Shape(s) && t < |s.threads| && s.threads[t].Search?
  {
    var cur := s.threads[t].cur;
    s.tables[cur].keys[Slot(s.hashes[t], s.threads[t].step, |s.tables[cur].keys|)]
  }

  lemma SearchFound(s: State, g: Trace, t: nat)
    requires Inv(s, g) && t < |s.threads| && s.threads[t].Search? && KeySeen(s, t) == Id(t)
    ensures Shape(Access(s, t)) && ThreadOk(Access(s, t), g, t)
  {
    assert ThreadOk(s, g, t);
    var cur := s.threads[t].cur;
    assert KeyOk(s, g, cur, Slot(s.hashes[t], s.threads[t].step, |s.tables[cur].keys|));
  }

  lemma SearchEnded(s: State, g: Trace, t: nat)
    requires Inv(s, g) && t < |s.threads| && s.threads[t].Search? && KeySeen(s, t) == EMPTY
    ensures Shape(Access(s, t)) && ThreadOk(Access(s, t), g, t)
  {
    assert ThreadOk(s, g, t);
    AbsentAtEmpty(s, g, t, s.threads[t].cur, s.threads[t].step);
  }

  lemma SearchKeepsInv(s: State, g: Trace, t: nat)
    requires Inv(s, g) && t < |s.threads| && (s.threads[t].Start? || s.threads[t].Search?)
    ensures Inv(Access(s, t), g)
  {
    assert ThreadOk(s, g, t);
    if s.threads[t].Search? { SearchOwn(s, g, t); }
    MoveKeepsInv(s, g, Access(s, t), g, t);
  }

  // The id's number is below the limit of its first table, and of every later one.
  lemma HomeLimit(s: State, g: Trace, t: nat, k: nat)
    requires Inv(s, g) && t < |s.threads| && g.home[t].Some? && g.home[t].value <= k < |s.tables|
    ensures 0 < g.numbers[t] < s.tables[k].Limit()
  {
    assert ThreadOk(s, g, t);
    var h := g.home[t].value;
    var p :| 0 <= p < |s.tables[h].keys| && s.tables[h].keys[p] == Id(t);
    assert KeyOk(s, g, h, p);
    assert |s.tables[h].keys| <= |s.tables[k].keys|;
  }

  lemma CopyKeepsInv(s: State, g: Trace, t: nat)
    requires Inv(s, g) && t < |s.threads| && (s.threads[t].CopyProbe? || s.threads[t].CopyCas?)
    ensures Inv(Access(s, t), g)
  {
    assert ThreadOk(s, g, t);
    var main, step := s.threads[t].main, s.threads[t].step;
    if s.threads[t].CopyCas? && s.tables[main].keys[Slot(s.hashes[t], step, |s.tables[main].keys|)] == EMPTY {
      CopyKeyKeepsInv(s, g, t);
    } else {
      MoveKeepsInv(s, g, Access(s, t), g, t);
    }
  }

  lemma CopyKeyKeepsInv(s: State, g: Trace, t: nat)
    requires Inv(s, g) && t < |s.threads| && s.threads[t].CopyCas?
    requires var pc := s.threads[t];
             s.tables[pc.main].keys[Slot(s.hashes[t], pc.step, |s.tables[pc.main].keys|)] == EMPTY
    ensures Inv(Access(s, t), g)
  {
    assert ThreadOk(s, g, t);
    var s', main, step := Access(s, t), s.threads[t].main, s.threads[t].step;
    HomeLimit(s, g, t, main);
    KeyStays(s, s', g.home[t].value, t, main, Slot(s.hashes[t], step, |s.tables[main].keys|));
    KeyKeepsInv(s, g, s', g, t, main, step);
  }

  // Storing a key in an empty slot of table `k` loses no key of table `h`.
  lemma KeyStays(s: State, s': State, h: nat, t: nat, k: nat, i: nat)
    requires h < |s.tables| && k < |s.tables| && i < |s.tables[k].keys| && |s'.tables| == |s.tables|
    requires s.tables[k].keys[i] == EMPTY && Id(t) in s.tables[h].keys
    requires s'.tables == s.tables[k := s.tables[k].(keys := s.tables[k].keys[i := Id(t)])]
    ensures Id(t) in s'.tables[h].keys
  {
    var p :| 0 <= p < |s.tables[h].keys| && s.tables[h].keys[p] == Id(t);
    assert s'.tables[h].keys[p] == Id(t);
  }

  lemma NumberKeepsInv(s: State, g: Trace, t: nat)
    requires Inv(s, g) && t < |s.threads| && s.threads[t].Number?
    ensures Inv(Access(s, t), TraceAfter(s, g, Advance(t)))
  {
    assert ThreadOk(s, g, t);
    MoveKeepsInv(s, g, Access(s, t), TraceAfter(s, g, Advance(t)), t);
  }

  lemma LockKeepsInv(s: State, g: Trace, t: nat)
    requires Inv(s, g) && t < |s.threads| && s.threads[t].TryLock?
    ensures Inv(Access(s, t), TraceAfter(s, g, Advance(t)))
  {
    assert ThreadOk(s, g, t);
    MoveKeepsInv(s, g, Access(s, t), TraceAfter(s, g, Advance(t)), t);
  }

  lemma UnlockKeepsInv(s: State, g: Trace, t: nat)
    requires Inv(s, g) && t < |s.threads| && s.threads[t].Unlock?
    ensures Inv(Access(s, t), TraceAfter(s, g, Advance(t)))
  {
    assert ThreadOk(s, g, t);
    MoveKeepsInv(s, g, Access(s, t), TraceAfter(s, g, Advance(t)), t);
  }

  lemma ReloadKeepsInv(s: State, g: Trace, t: nat)
    requires Inv(s, g) && t < |s.threads| && (s.threads[t].Reload? || s.threads[t].Wait?)
    ensures Inv(Access(s, t), g)
  {
    assert ThreadOk(s, g, t);
    MoveKeepsInv(s, g, Access(s, t), g, t);
  }

  lemma CreateKeepsInv(s: State, g: Trace, t: nat)
    requires Inv(s, g) && t < |s.threads| && s.threads[t].Create?
    ensures Inv(Access(s, t), TraceAfter(s, g, Advance(t)))
  {
    assert ThreadOk(s, g, t);
    var s', g' := Access(s, t), TraceAfter(s, g, Advance(t));
    forall u | 0 <= u < |s.threads| ensures g.made[u].Some? ==> g.made[u].value < s.created {
      assert ThreadOk(s, g, u);
    }
    MoveKeepsInv(s, g, s', g', t);
  }

  lemma InsertKeepsInv(s: State, g: Trace, t: nat)
    requires Inv(s, g) && t < |s.threads| && (s.threads[t].InsertProbe? || s.threads[t].InsertCas?)
    ensures Inv(Access(s, t), TraceAfter(s, g, Advance(t)))
  {
    assert ThreadOk(s, g, t);
    var main, step := s.threads[t].main, s.threads[t].step;
    if s.threads[t].InsertCas? && s.tables[main].keys[Slot(s.hashes[t], step, |s.tables[main].keys|)] == EMPTY {
      InsertKeyKeepsInv(s, g, t);
    } else {
      MoveKeepsInv(s, g, Access(s, t), g, t);
    }
  }

  lemma InsertKeyKeepsInv(s: State, g: Trace, t: nat)
    requires Inv(s, g) && t < |s.threads| && s.threads[t].InsertCas?
    requires var pc := s.threads[t];
             s.tables[pc.main].keys[Slot(s.hashes[t], pc.step, |s.tables[pc.main].keys|)] == EMPTY
    ensures Inv(Access(s, t), TraceAfter(s, g, Advance(t)))
  {
    assert ThreadOk(s, g, t);
    var main, step := s.threads[t].main, s.threads[t].step;
    NoKeyBeforeHome(s, g, t, main);
    assert Access(s, t).tables[main].keys[Slot(s.hashes[t], step, |s.tables[main].keys|)] == Id(t);
    KeyKeepsInv(s, g, Access(s, t), TraceAfter(s, g, Advance(t)), t, main, step);
  }

  lemma NoKeyBeforeHome(s: State, g: Trace, t: nat, k: nat)
    requires Inv(s, g) && t < |s.threads| && g.home[t].None? && k < |s.tables|
    ensures Id(t) !in s.tables[k].keys
  {
    if p :| 0 <= p < |s.tables[k].keys| && s.tables[k].keys[p] == Id(t) {
      assert KeyOk(s, g, k, p);
    }
  }

  lemma CallKeepsInv(s: State, g: Trace, a: Action)
    requires Inv(s, g) && Enabled(s, a) && !a.Advance?
    ensures Inv(Apply(s, a), g)
  {
    assert ThreadOk(s, g, a.thread);
    MoveKeepsInv(s, g, Apply(s, a), g, a.thread);
  }

  lemma AccessKeepsInv(s: State, g: Trace, t: nat)
    requires Inv(s, g) && Enabled(s, Advance(t))
    ensures Inv(Access(s, t), TraceAfter(s, g, Advance(t)))
  {
    match s.threads[t]
    case Start => SearchKeepsInv(s, g, t);
    case Search(_, _, _) => SearchKeepsInv(s, g, t);
    case CopyProbe(_, _, _) => CopyKeepsInv(s, g, t);
    case CopyCas(_, _, _) => CopyKeepsInv(s, g, t);
    case CopyStore(_, _, _) => StoreKeepsInv(s, g, t);
    case Number(_) => NumberKeepsInv(s, g, t);
    case TryLock(_, _) => LockKeepsInv(s, g, t);
    case Reload(_) => ReloadKeepsInv(s, g, t);
    case Install(_, _) => InstallKeepsInv(s, g, t);
    case Unlock(_, _) => UnlockKeepsInv(s, g, t);
    case Create(_, _) => CreateKeepsInv(s, g, t);
    case InsertProbe(_, _, _, _) => InsertKeepsInv(s, g, t);
    case InsertCas(_, _, _, _) => InsertKeepsInv(s, g, t);
    case InsertStore(_, _, _) => StoreKeepsInv(s, g, t);
    case Wait(_) => ReloadKeepsInv(s, g, t);
  }

  // What a thread that has just inserted its key knows.
  lemma StoreKeepsInv(s: State, g: Trace, t: nat)
    requires Inv(s, g) && t < |s.threads| && (s.threads[t].CopyStore? || s.threads[t].InsertStore?)
    ensures Inv(Access(s, t), g)
  {
    assert ThreadOk(s, g, t);
    var main, step := s.threads[t].main, s.threads[t].step;
    ValueKeepsInv(s, g, Access(s, t), t, main, Slot(s.hashes[t], step, |s.tables[main].keys|));
  }

  /** Every step keeps the invariant. */
  lemma StepKeepsInv(s: State, g: Trace, a: Action)
    requires Inv(s, g) && Enabled(s, a)
    ensures Inv(Apply(s, a), TraceAfter(s, g, a))
  {
    if a.Advance? { AccessKeepsInv(s, g, a.thread); } else { CallKeepsInv(s, g, a); }
  }

  /* ---- Room in the tables ---- */

  // Different numbers below `bound` are fewer than `bound`.
  lemma {:induction false} DistinctBelow(s: seq<nat>, bound: nat)
    requires forall i :: 0 <= i < |s| ==> 0 < s[i] < bound
    requires forall i, j :: 0 <= i < j < |s| ==> s[i] != s[j]
    ensures s == [] || |s| < bound
    decreases bound
  {
    if s != [] {
      assert 0 < s[0] < bound;
      if i :| 0 <= i < |s| && s[i] == bound - 1 {
        DistinctBelow(s[..i] + s[i + 1..], bound - 1);
      } else {
        DistinctBelow(s, bound - 1);
      }
    }
  }

  /** A table always keeps an empty slot: every key in it has its own insertion number, below three
      quarters of the capacity. */
  lemma EmptySlot(s: State, g: Trace, k: nat) returns (p: nat)
    requires Inv(s, g) && k < |s.tables|
    ensures p < |s.tables[k].keys| && s.tables[k].keys[p] == EMPTY
  {
    var tb := s.tables[k];
    if forall i :: 0 <= i < |tb.keys| ==> tb.keys[i] != EMPTY {
      forall i | 0 <= i < |tb.keys| ensures tb.keys[i] - 1 < |s.threads| && 0 < g.numbers[tb.keys[i] - 1] < tb.Limit() {
        assert KeyOk(s, g, k, i);
      }
      assert KeysDiffer(tb);
      var nums := seq(|tb.keys|, i requires 0 <= i < |tb.keys| => g.numbers[tb.keys[i] - 1]);
      DistinctBelow(nums, tb.Limit());
      assert false;
    }
    p :| 0 <= p < |tb.keys| && tb.keys[p] == EMPTY;
  }

  // The probe a thread is making, if it is: the table and the number of slots it has passed.
  function Probe(pc: PC): Option<(nat, nat)>
  {
    match pc
    case Search(_, cur, step) => Some((cur, step))
    case CopyProbe(main, _, step) => Some((main, step))
    case CopyCas(main, _, step) => Some((main, step))
    case InsertProbe(main, _, _, step) => Some((main, step))
    case InsertCas(main, _, _, step) => Some((main, step))
    case _ => None
  }

  lemma ProbeIsShort(s: State, g: Trace, t: nat)
    requires Inv(s, g) && t < |s.threads| && Probe(s.threads[t]).Some?
    ensures Probe(s.threads[t]).value.1 < |s.tables[Probe(s.threads[t]).value.0].keys|
  {
    var k, step := Probe(s.threads[t]).value.0, Probe(s.threads[t]).value.1;
    assert ThreadOk(s, g, t);
    var n := |s.tables[k].keys|;
    var p := EmptySlot(s, g, k);
    var h := s.hashes[t] % n;
    var i := if p >= h then p - h else p + n - h;
    SlotOf(s.hashes[t], p, i, n);
    assert Slot(s.hashes[t], i, n) == p;
  }

  lemma SlotOf(hash: nat, p: nat, i: nat, n: nat)
    requires p < n && i == (if p >= hash % n then p - hash % n else p + n - hash % n)
    ensures i < n && Slot(hash, i, n) == p
  {
    var q := hash / n;
    assert hash == q * n + hash % n;
    var x := hash + i;
    assert x == q * n + p || x == (q + 1) * n + p;
    ModIs(x, if x == q * n + p then q else q + 1, p, n);
  }

  /* ---- Runs ---- */

  // What calls returned, in order: the thread and the producer.
  function ReturnOf(s: State, a: Action): seq<(nat, Option<Producer>)>
    requires Enabled(s, a)
  {
    if a.Return? then [(a.thread, s.threads[a.thread].value)] else []
  }

  ghost predicate Run(s: State, events: seq<Action>, s': State, log: seq<(nat, Option<Producer>)>)
    requires Shape(s)
    decreases |events|
  {
    if events == [] then s' == s && log == []
    else
      && Enabled(s, events[0])
      && ReturnOf(s, events[0]) <= log
      && var m := Apply(s, events[0]);
         Shape(m) && Run(m, events[1..], s', log[|ReturnOf(s, events[0])|..])
  }

  // One empty table.
  ghost predicate Initial(s: State)
  {
    && Shape(s)
    && |s.tables| == 1 && (forall p :: 0 <= p < |s.tables[0].keys| ==> s.tables[0].keys[p] == EMPTY)
    && s.count == s.created == 0 && !s.resizing
    && (forall t :: 0 <= t < |s.threads| ==> s.threads[t].Idle?)
  }

  ghost predicate Reachable(s: State)
  {
    exists s0, events, log :: Initial(s0) && Run(s0, events, s, log)
  }

  // A producer once made for a thread stays its own.
  ghost predicate Keeps(g: Trace, g': Trace)
  {
    && |g'.made| == |g.made|
    && (forall t :: 0 <= t < |g.made| && g.made[t].Some? ==> g'.made[t] == g.made[t])
  }

  // Thread t has its producer and is between calls.
  ghost predicate Settled(s: State, g: Trace, t: nat)
  {
    t < |s.threads| && t < |g.home| && s.threads[t].Idle? && g.home[t].Some?
  }

  ghost predicate HasReturned(log: seq<(nat, Option<Producer>)>, t: nat)
  {
    exists i :: 0 <= i < |log| && log[i].0 == t
  }

  lemma StepSettles(s: State, g: Trace, a: Action, t: nat)
    requires Inv(s, g) && Enabled(s, a) && Settled(Apply(s, a), TraceAfter(s, g, a), t)
    ensures Settled(s, g, t) || (ReturnOf(s, a) != [] && ReturnOf(s, a)[0].0 == t)
  {
    assert ThreadOk(s, g, t);
  }

  lemma ReturnedLater(log: seq<(nat, Option<Producer>)>, n: nat, t: nat)
    requires n <= |log| && HasReturned(log[n..], t)
    ensures HasReturned(log, t)
  {
    var i :| 0 <= i < |log[n..]| && log[n..][i].0 == t;
    assert log[n + i].0 == t;
  }

  lemma SettledBefore(s: State, g: Trace, a: Action, log: seq<(nat, Option<Producer>)>, t: nat)
    requires Inv(s, g) && Enabled(s, a) && ReturnOf(s, a) <= log
    requires Settled(Apply(s, a), TraceAfter(s, g, a), t) || HasReturned(log[|ReturnOf(s, a)|..], t)
    ensures Settled(s, g, t) || HasReturned(log, t)
  {
    if HasReturned(log[|ReturnOf(s, a)|..], t) {
      ReturnedLater(log, |ReturnOf(s, a)|, t);
    } else {
      StepSettles(s, g, a, t);
      assert !Settled(s, g, t) ==> log[0].0 == t;
    }
  }

  lemma {:induction false} RunKeepsInv(s: State, g: Trace, events: seq<Action>, s': State,
                                      log: seq<(nat, Option<Producer>)>)
    returns (g': Trace)
    requires Inv(s, g) && Run(s, events, s', log)
    ensures Inv(s', g') && Keeps(g, g')
    ensures forall i :: 0 <= i < |log| ==> log[i].0 < |g'.made| && log[i].1.Some? && log[i].1 == g'.made[log[i].0]
    ensures forall t: nat :: Settled(s', g', t) ==> Settled(s, g, t) || HasReturned(log, t)
    decreases |events|
  {
    if events == [] {
      g' := g;
    } else {
      var a := events[0];
      StepKeepsInv(s, g, a);
      assert ThreadOk(s, g, a.thread);
      assert Keeps(g, TraceAfter(s, g, a));
      var rest := log[|ReturnOf(s, a)|..];
      g' := RunKeepsInv(Apply(s, a), TraceAfter(s, g, a), events[1..], s', rest);
      forall t: nat | Settled(s', g', t) ensures Settled(s, g, t) || HasReturned(log, t) {
        SettledBefore(s, g, a, log, t);
      }
      forall i | 0 <= i < |log|
        ensures log[i].0 < |g'.made| && log[i].1.Some? && log[i].1 == g'.made[log[i].0]
      {
        if i >= |ReturnOf(s, a)| {
          assert log[i] == log[|ReturnOf(s, a)|..][i - |ReturnOf(s, a)|];
        }
      }
    }
  }

  lemma InvOfInitial(s: State) returns (g: Trace)
    requires Initial(s)
    ensures Inv(s, g) && forall t: nat :: !Settled(s, g, t)
  {
    var n := |s.threads|;
    g := Trace(seq(n, _ => 0), seq(n, _ => None), seq(n, _ => None), None);
    forall t | 0 <= t < n ensures ThreadOk(s, g, t) {}
  }

  /** In a run without allocation failure every call of a thread returns the same producer, across resizes
      and lazy copies, and two threads never get the same one. */
  lemma SameProducerEveryTime(s0: State, events: seq<Action>, s: State, log: seq<(nat, Option<Producer>)>)
    requires Initial(s0) && Run(s0, events, s, log)
    ensures forall i :: 0 <= i < |log| ==> log[i].1.Some?
    ensures forall i, j :: 0 <= i < j < |log| ==> (log[i].0 == log[j].0 <==> log[i].1 == log[j].1)
  {
    var g0 := InvOfInitial(s0);
    var g := RunKeepsInv(s0, g0, events, s, log);
  }

  /** Every probe loop ends: in every reachable state each table has an empty slot, and a probing thread
      has passed fewer slots than the table has. */
  lemma ProbesEnd(s: State)
    requires Reachable(s)
    ensures Shape(s)
    ensures forall k :: 0 <= k < |s.tables| ==> EMPTY in s.tables[k].keys
    ensures forall t :: 0 <= t < |s.threads| && Probe(s.threads[t]).Some?
                    ==> Probe(s.threads[t]).value.1 < |s.tables[Probe(s.threads[t]).value.0].keys|
  {
    var s0, events, log :| Initial(s0) && Run(s0, events, s, log);
    var g0 := InvOfInitial(s0);
    var g := RunKeepsInv(s0, g0, events, s, log);
    forall k | 0 <= k < |s.tables| ensures EMPTY in s.tables[k].keys {
      var p := EmptySlot(s, g, k);
    }
    forall t | 0 <= t < |s.threads| && Probe(s.threads[t]).Some?
      ensures Probe(s.threads[t]).value.1 < |s.tables[Probe(s.threads[t]).value.0].keys|
    {
      ProbeIsShort(s, g, t);
    }
  }
}
