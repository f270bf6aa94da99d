/** The sub-queue of an implicit producer: blocks found through a keyed index, and handed back to the free list as
    soon as their last element has been taken out. It is proved to be a FIFO sequence of elements. */
module ImplicitProducer {
  import opened Basics
  import opened Circular
  import opened Blocks
  import opened BlockRing
  import opened ProducerBase
  import opened BlockStorage
  import opened CountedBlocks
  import K = KeyedIndex

  /* ---- The blocks in the window ---- */

  // Block number first + i, or null once all its elements have been taken out.
  ghost predicate LiveAt<T>(win: seq<Block?<T>>, first: nat, i: nat, history: seq<T>, done: set<nat>)
    requires i < |win|
    reads Parts(win[i])
  {
    if win[i] == null then AllDone(first + i, done)
    else Counted(win[i], first + i, history, done) && !AllDone(first + i, done)
  }

  ghost predicate LiveOwnedAt<T>(win: seq<Block?<T>>, i: nat, owner: set<object>)
    requires i < |win|
  {
    Parts(win[i]) <= owner
  }

  ghost predicate AllLiveOwned<T>(win: seq<Block?<T>>, owner: set<object>)
  {
    forall i :: 0 <= i < |win| ==> LiveOwnedAt(win, i, owner)
  }

  ghost predicate AllLive<T>(win: seq<Block?<T>>, first: nat, history: seq<T>, done: set<nat>, owner: set<object>)
    reads owner
  {
    AllLiveOwned(win, owner) &&
    forall i :: 0 <= i < |win| ==> LiveOwnedAt(win, i, owner) && LiveAt(win, first, i, history, done)
  }

  ghost predicate LiveApartAt<T>(win: seq<Block?<T>>, i: nat, j: nat)
    requires i < |win| && j < |win|
  {
    win[i] != null && win[j] != null ==> Apart(win[i], win[j])
  }

  ghost predicate LiveSeparate<T>(win: seq<Block?<T>>)
  {
    forall i, j :: 0 <= i < |win| && 0 <= j < |win| && i != j ==> LiveApartAt(win, i, j)
  }

  // Every finished block has been handed back, once.
  ghost predicate HandedBack(numbers: seq<nat>, blocks: nat, done: set<nat>)
  {
    && (forall i, j :: 0 <= i < j < |numbers| ==> numbers[i] != numbers[j])
    && (forall q: nat :: q in numbers <==> q < blocks && AllDone(q, done))
  }

  /** Taking out a run of elements keeps the account of blocks handed back: at most the run's own block is new. */
  lemma HandBack(numbers: seq<nat>, blocks: nat, done: set<nat>, k: nat, count: nat)
    requires HandedBack(numbers, blocks, done) && k / BLOCK_SIZE < blocks && k % BLOCK_SIZE + count <= BLOCK_SIZE
    requires !AllDone(k / BLOCK_SIZE, done)
    ensures var done' := done + Range(k, k + count);
            HandedBack(if AllDone(k / BLOCK_SIZE, done') then numbers + [k / BLOCK_SIZE] else numbers, blocks, done')
  {
    var p, done' := k / BLOCK_SIZE, done + Range(k, k + count);
    var numbers' := if AllDone(p, done') then numbers + [p] else numbers;
    forall q: nat ensures q in numbers' <==> q < blocks && AllDone(q, done') {
      if q != p {
        SameBlockDone(q, k, count, done);
      } else {
        assert q !in numbers;
      }
    }
  }

  // The blocks of a window with numbers from q to end that are finished once `done` is, oldest first, and their
  // numbers.
  ghost function Emptied<T>(win: seq<Block?<T>>, first: nat, q: nat, end: nat, done: set<nat>): seq<Block<T>>
    decreases end - q
  {
    if end <= q then []
    else Emptied(win, first, q, end - 1, done) + EmptiedAt(win, first, end - 1, done)
  }

  ghost function EmptiedAt<T>(win: seq<Block?<T>>, first: nat, q: nat, done: set<nat>): seq<Block<T>>
  {
    if first <= q < first + |win| && win[q - first] != null && AllDone(q, done) then [win[q - first]] else []
  }

  ghost function EmptiedNumbers<T>(win: seq<Block?<T>>, first: nat, q: nat, end: nat, done: set<nat>): seq<nat>
    decreases end - q
  {
    if end <= q then []
    else
      EmptiedNumbers(win, first, q, end - 1, done)
      + if EmptiedAt(win, first, end - 1, done) != [] then [end - 1] else []
  }

  // The number of the first block that a run of indices does not touch; an empty run touches the block it stands in.
  ghost function BlockBehind(k: nat, count: nat): nat
  {
    (if count == 0 then k else k + count - 1) / BLOCK_SIZE + 1
  }

  lemma RunBlocks(k: nat, m: nat, s: nat)
    requires k <= m <= s && (m == s ==> k == s)
    ensures EndInBlock(m, s) < s ==> EndInBlock(m, s) / BLOCK_SIZE == m / BLOCK_SIZE + 1
    ensures EndInBlock(m, s) == s ==> BlockBehind(k, s - k) == m / BLOCK_SIZE + 1
  {
  }

  // What happens in a later block does not empty one of these.
  lemma {:induction false} EmptiedSame<T>(win: seq<Block?<T>>, first: nat, q: nat, end: nat, done: set<nat>, k: nat,
                                         count: nat)
    requires end <= k / BLOCK_SIZE && k % BLOCK_SIZE + count <= BLOCK_SIZE
    ensures Emptied(win, first, q, end, done + Range(k, k + count)) == Emptied(win, first, q, end, done)
    ensures EmptiedNumbers(win, first, q, end, done + Range(k, k + count)) == EmptiedNumbers(win, first, q, end, done)
    decreases end - q
  {
    if q < end {
      SameBlockDone(end - 1, k, count, done);
      EmptiedSame(win, first, q, end - 1, done, k, count);
    }
  }

  /* ---- Accounts ---- */

  // What is taken out, what has been handed back, and the window.
  datatype Account<T> = Account(done: set<nat>, released: seq<Block<T>>, numbers: seq<nat>, win: seq<Block?<T>>)

  // A run inside one block is taken out.
  ghost predicate Booked<T>(a: Account<T>, b: Account<T>, first: nat, k: nat, count: nat)
    requires first <= k / BLOCK_SIZE < first + |a.win|
  {
    && b.done == a.done + Range(k, k + count)
    && b.released == a.released + EmptiedAt(a.win, first, k / BLOCK_SIZE, b.done)
    && b.numbers == a.numbers + (if AllDone(k / BLOCK_SIZE, b.done) then [k / BLOCK_SIZE] else [])
    && (b.win == a.win || b.win == a.win[k / BLOCK_SIZE - first := null])
  }

  // The run from k to m is taken out, and the blocks before number e that this finished are handed back, in order.
  ghost predicate TakenTo<T>(a: Account<T>, b: Account<T>, first: nat, k: nat, m: nat, e: nat)
    requires k <= m
  {
    && b.done == a.done + Range(k, m)
    && b.released == a.released + Emptied(a.win, first, k / BLOCK_SIZE, e, b.done)
    && b.numbers == a.numbers + EmptiedNumbers(a.win, first, k / BLOCK_SIZE, e, b.done)
    && |b.win| == |a.win| && forall i :: 0 <= i < |a.win| && e <= first + i ==> b.win[i] == a.win[i]
  }

  // The same behind a quantifier over the number e, for code that only carries it along.
  ghost predicate Accounted<T>(a: Account<T>, b: Account<T>, first: nat, k: nat, m: nat, e: nat)
    requires k <= m
  {
    forall n: nat :: AccountedAt(a, b, first, k, m, e, n)
  }

  ghost predicate AccountedAt<T>(a: Account<T>, b: Account<T>, first: nat, k: nat, m: nat, e: nat, n: nat)
    requires k <= m
  {
    n == e ==> TakenTo(a, b, first, k, m, n)
  }

  lemma NothingTaken<T>(a: Account<T>, first: nat, k: nat)
    ensures Accounted(a, a, first, k, k, k / BLOCK_SIZE)
  {
  }

  lemma TakenOf<T>(a: Account<T>, b: Account<T>, first: nat, k: nat, m: nat, e: nat)
    requires k <= m && Accounted(a, b, first, k, m, e)
    ensures TakenTo(a, b, first, k, m, e)
  {
    assert AccountedAt(a, b, first, k, m, e, e);
  }

  // One block more.
  lemma TakenMore<T>(a: Account<T>, b: Account<T>, c: Account<T>, first: nat, k: nat, m: nat, end: nat)
    requires k <= m <= end && m % BLOCK_SIZE + (end - m) <= BLOCK_SIZE
    requires first <= m / BLOCK_SIZE < first + |b.win| && b.win[m / BLOCK_SIZE - first] != null
    requires Accounted(a, b, first, k, m, m / BLOCK_SIZE) && Booked(b, c, first, m, end - m)
    ensures Accounted(a, c, first, k, end, m / BLOCK_SIZE + 1)
  {
    assert AccountedAt(a, b, first, k, m, m / BLOCK_SIZE, m / BLOCK_SIZE);
    JoinRanges(a.done, k, m, end);
    EmptiedMore(a.win, b.win, first, k / BLOCK_SIZE, b.done, m, end - m, a.released, a.numbers);
  }

  lemma EmptiedMore<T>(was: seq<Block?<T>>, win: seq<Block?<T>>, first: nat, q: nat, done: set<nat>, m: nat, count: nat,
                       released: seq<Block<T>>, numbers: seq<nat>)
    requires q <= m / BLOCK_SIZE && m % BLOCK_SIZE + count <= BLOCK_SIZE && |was| == |win|
    requires first <= m / BLOCK_SIZE < first + |win|
    requires was[m / BLOCK_SIZE - first] == win[m / BLOCK_SIZE - first] != null
    ensures var e, done' := m / BLOCK_SIZE, done + Range(m, m + count);
            && released + Emptied(was, first, q, e, done) + EmptiedAt(win, first, e, done') ==
               released + Emptied(was, first, q, e + 1, done')
            && numbers + EmptiedNumbers(was, first, q, e, done) + (if AllDone(e, done') then [e] else []) ==
               numbers + EmptiedNumbers(was, first, q, e + 1, done')
  {
    EmptiedSame(was, first, q, m / BLOCK_SIZE, done, m, count);
  }

  lemma SameBlockDone(q: nat, k: nat, count: nat, done: set<nat>)
    requires q != k / BLOCK_SIZE && k % BLOCK_SIZE + count <= BLOCK_SIZE
    ensures AllDone(q, done + Range(k, k + count)) == AllDone(q, done)
  {
    forall i | q * BLOCK_SIZE <= i < (q + 1) * BLOCK_SIZE ensures i in done + Range(k, k + count) <==> i in done {
      assert !(k <= i < k + count);
    }
  }

  // A block from the pool starts as the next one.
  method StartLive<T>(b: Block<T>, ghost win: seq<Block?<T>>, ghost first: nat, ghost history: seq<T>,
                      ghost done: set<nat>, ghost owner: set<object>)
    requires LiveSeparate(win) && AllLive(win, first, history, done, owner) && Spare(b, owner)
    requires |history| <= (first + |win|) * BLOCK_SIZE && forall i :: i in done ==> i < |history|
    modifies b
    ensures LiveSeparate(win + [b]) && AllLive(win + [b], first, history, done, owner + Parts(b))
  {
    StartCounted(b, first + |win|, history, done);
    ghost var w, o, q := win + [b], owner + Parts(b), first + |win|;
    assert q * BLOCK_SIZE !in done;
    forall i | 0 <= i < |w| ensures LiveOwnedAt(w, i, o) && LiveAt(w, first, i, history, done) {
      if i < |win| { assert LiveOwnedAt(win, i, owner) && old(LiveAt(win, first, i, history, done)); }
    }
    forall i, j | 0 <= i < |w| && 0 <= j < |w| && i != j ensures LiveApartAt(w, i, j) {
      if i < |win| { assert LiveOwnedAt(win, i, owner); }
      if j < |win| { assert LiveOwnedAt(win, j, owner); }
      if i < |win| && j < |win| { assert LiveApartAt(win, i, j); }
    }
  }

  // The oldest block, finished, leaves the window.
  lemma DropOldest<T>(win: seq<Block?<T>>, first: nat, history: seq<T>, done: set<nat>, owner: set<object>)
    requires LiveSeparate(win) && AllLive(win, first, history, done, owner) && win != [] && win[0] == null
    ensures LiveSeparate(win[1..]) && AllLive(win[1..], first + 1, history, done, owner) && AllDone(first, done)
  {
    var w := win[1..];
    assert LiveAt(win, first, 0, history, done);
    forall i | 0 <= i < |w| ensures LiveOwnedAt(w, i, owner) && LiveAt(w, first + 1, i, history, done) {
      assert LiveOwnedAt(win, i + 1, owner) && LiveAt(win, first, i + 1, history, done);
    }
    forall i, j | 0 <= i < |w| && 0 <= j < |w| && i != j ensures LiveApartAt(w, i, j) {
      assert LiveApartAt(win, i + 1, j + 1);
    }
  }

  lemma KeptOrDropped<T>(win: seq<Block?<T>>, first: nat, win': seq<Block?<T>>, first': nat, history: seq<T>,
                         done: set<nat>, owner: set<object>)
    requires LiveSeparate(win) && AllLive(win, first, history, done, owner) && first' + |win'| == first + |win|
    requires win' == win || (win != [] && win[0] == null && win' == win[1..])
    requires forall i :: 0 <= i < first * BLOCK_SIZE ==> i in done
    ensures LiveSeparate(win') && AllLive(win', first', history, done, owner)
    ensures forall i :: 0 <= i < first' * BLOCK_SIZE ==> i in done
  {
    if first' != first { DropOldest(win, first, history, done, owner); }
  }

  // The element with the next index goes into the last block.
  method ConstructLive<T>(b: Block<T>, x: T, j: nat, ghost win: seq<Block?<T>>, ghost first: nat,
                          ghost history: seq<T>, ghost done: set<nat>, ghost owner: set<object>)
    requires LiveSeparate(win) && AllLive(win, first, history, done, owner)
    requires win != [] && b == win[|win| - 1] && |history| !in done
    requires |history| / BLOCK_SIZE == first + |win| - 1 && j == |history| % BLOCK_SIZE
    modifies b.slots
    ensures AllLive(win, first, history + [x], done, owner)
  {
    ghost var n := |win| - 1;
    assert LiveAt(win, first, n, history, done);
    ConstructCounted(b, x, j, first + n, history, done);
    forall i | 0 <= i < |win| ensures LiveOwnedAt(win, i, owner) && LiveAt(win, first, i, history + [x], done) {
      if i < n {
        assert LiveApartAt(win, n, i) && old(LiveAt(win, first, i, history, done));
        if win[i] != null { MoreCounted(win[i], first + i, history, done, x); }
      }
    }
  }

  // A run of elements is taken out of one block; the block leaves the window with its last element.
  method TakeLive<T>(b: Block<T>, index: nat, count: nat, ghost k: nat, ghost win: seq<Block?<T>>, ghost first: nat,
                     ghost history: seq<T>, ghost done: set<nat>, ghost owner: set<object>)
    returns (items: seq<T>, full: bool)
    requires LiveSeparate(win) && AllLive(win, first, history, done, owner)
    requires first <= k / BLOCK_SIZE < first + |win| && b == win[k / BLOCK_SIZE - first]
    requires index % BLOCK_SIZE == k % BLOCK_SIZE && k % BLOCK_SIZE + count <= BLOCK_SIZE && k + count <= |history|
    requires forall m :: k <= m < k + count ==> m !in done
    modifies b, b.slots
    ensures items == history[k..k + count] && (full <==> AllDone(k / BLOCK_SIZE, done + Range(k, k + count)))
    ensures full ==> AllLive(win[k / BLOCK_SIZE - first := null], first, history, done + Range(k, k + count),
                             owner - Parts(b))
    ensures !full ==> AllLive(win, first, history, done + Range(k, k + count), owner)
  {
    ghost var n, done' := k / BLOCK_SIZE - first, done + Range(k, k + count);
    assert LiveAt(win, first, n, history, done);
    items, full := TakeCounted(b, index, count, k, history, done);
    ghost var w, o := if full then win[n := null] else win, if full then owner - Parts(b) else owner;
    forall i | 0 <= i < |w| ensures LiveOwnedAt(w, i, o) && LiveAt(w, first, i, history, done') {
      assert LiveOwnedAt(win, i, owner);
      if i != n {
        assert LiveApartAt(win, n, i) && old(LiveAt(win, first, i, history, done));
        if win[i] != null { OtherCounted(win[i], first + i, k, count, history, done); }
      }
    }
  }

  class ImplicitProducer<T> {
    const base: ProducerBase
    const index: K.KeyedIndex<T>
    var tailBlock: Block?<T>
    var released: seq<Block<T>>       // what this sub-queue has added to the free list, in order

    ghost var history: seq<T>         // every element ever enqueued
    ghost var done: set<nat>          // indices whose element has been taken out
    ghost var releasedNumbers: seq<nat>
    ghost var owner: set<object>      // the live blocks

    ghost function Blocks(): nat
      reads index
    {
      index.first + |index.win|
    }

    ghost predicate Apartness()
      reads this, index
    {
      this !in owner && base !in owner && this !in index.Repr && base !in index.Repr && owner !! index.Repr
    }

    ghost predicate Counters()
      reads this, base, index
    {
      && base.Valid() && base.tail == |history| && (forall i :: i in done ==> i < base.head)
      && base.tail <= Blocks() * BLOCK_SIZE <= base.tail + BLOCK_SIZE
      && (forall i :: 0 <= i < index.first * BLOCK_SIZE ==> i in done)
    }

    ghost predicate Core()
      reads this, base, index, index.Repr, owner
    {
      && Apartness()
      && Counters()
      && index.Valid()
      && LiveSeparate(index.win)
      && AllLive(index.win, index.first, history, done, owner)
      && (base.tail < Blocks() * BLOCK_SIZE ==>
            tailBlock != null && index.win != [] && tailBlock == index.win[|index.win| - 1])
      && |released| == |releasedNumbers| && HandedBack(releasedNumbers, Blocks(), done)
    }

    ghost predicate Valid()
      reads this, base, index, index.Repr, owner
    {
      Core() && Blocks() * BLOCK_SIZE < base.tail + BLOCK_SIZE
    }

    /** The abstract queue. */
    ghost function Contents(): seq<T>
      reads this, base
      requires base.head <= base.tail <= |history|
    {
      history[base.head..base.tail]
    }

    ghost predicate Full()
      reads this, base, index
    {
      base.tail == Blocks() * BLOCK_SIZE
    }

    constructor (memory: bool, ghost e: nat, capacity: nat)
      requires e <= K.MAX_BITS && capacity == Exp2(e)
      ensures Valid() && Contents() == [] && done == {} && released == [] && base.tickets == 0
    {
      base := new ProducerBase();
      index := new K.KeyedIndex<T>(memory, e, capacity);
      tailBlock, released := null, [];
      history, done, releasedNumbers, owner := [], {}, [], {};
    }

    /* ---- Enqueue ---- */

    // Everything before the window is finished, so the head cannot lag behind it.
    lemma Gap()
      requires Core()
      ensures Blocks() * BLOCK_SIZE - base.head <= |index.win| * BLOCK_SIZE < HALF - BLOCK_SIZE
    {
      if index.first > 0 { assert index.first * BLOCK_SIZE - 1 in done; }
      Exp2Sum(K.MAX_BITS - index.bits, index.bits);
      Exp2Sum(2, K.MAX_BITS);
      Exp2Blocks();
      Exp2Positive(K.MAX_BITS - index.bits);
      ProductAtLeast(Exp2(K.MAX_BITS - index.bits), Exp2(index.bits));
    }

    // Whether the next block can be had: leeway, an entry that is free or the memory for more, and a block.
    ghost predicate CanStart(spare: Block?<T>, memory: bool)
      reads this, base, index
    {
      && base.tail + BLOCK_SIZE - base.head < HALF
      && index.index != null && (index.Room() || memory)
      && spare != null
    }

    // A block the pool hands out is in use nowhere here.
    ghost predicate Usable(spare: Block?<T>)
      reads this, index, Parts(spare)
    {
      spare != null ==> Spare(spare, owner) && Parts(spare) !! index.Repr + {this, base}
    }

    // The entry, keyed for the next block, gets its block, or is given up when there is none.
    method FillEntry(entry: K.Entry<T>, spare: Block?<T>) returns (ok: bool)
      requires Apartness() && index.Pending() && entry == index.index[index.indexTail] && Usable(spare)
      requires LiveSeparate(index.win) && AllLive(index.win, index.first, history, done, owner)
      requires |history| <= Blocks() * BLOCK_SIZE && forall i :: i in done ==> i < |history|
      modifies `tailBlock, `owner, index`indexTail, index`win, entry, Parts(spare)
      ensures Apartness() && index.Valid() && ok == (spare != null)
      ensures LiveSeparate(index.win) && AllLive(index.win, index.first, history, done, owner)
      ensures ok ==> index.win == old(index.win) + [spare] && tailBlock == spare && owner == old(owner) + Parts(spare)
      ensures !ok ==> index.win == old(index.win) && tailBlock == old(tailBlock) && owner == old(owner)
    {
      ok := spare != null;
      if spare == null {
        index.Abandon(entry);
      } else {
        StartLive(spare, index.win, index.first, history, done, owner);
        index.Commit(entry, spare);
        tailBlock := spare;
        owner := owner + Parts(spare);
      }
    }

    // Keys an entry for the next block; the oldest block may leave the window for it.
    method KeyEntry(memory: bool) returns (ok: bool, entry: K.Entry?<T>)
      requires Core() && Full() && (memory ==> index.bits < K.MAX_BITS)
      modifies index.Repr
      ensures Apartness() && ok == old(index.index != null && (index.Room() || memory))
      ensures if ok then index.Pending() && entry == index.index[index.indexTail] else index.Valid()
      ensures Blocks() == old(Blocks()) && fresh(index.Repr - old(index.Repr)) && old(index.Repr) <= index.Repr
      ensures LiveSeparate(index.win) && AllLive(index.win, index.first, history, done, owner)
      ensures forall i :: 0 <= i < index.first * BLOCK_SIZE ==> i in done
    {
      ghost var win, first := index.win, index.first;
      ok, entry := index.Insert(base.tailIndex, memory);
      KeptOrDropped(win, first, index.win, index.first, history, done, owner);
    }

    lemma NotDoneYet(q: nat)
      requires Core() && base.tail <= q * BLOCK_SIZE
      ensures !AllDone(q, done)
    {
      assert q * BLOCK_SIZE !in done;
    }

    /** The start of a block in enqueue. */
    method StartBlock(spare: Block?<T>, memory: bool) returns (ok: bool)
      requires Core() && Full() && (memory ==> index.bits < K.MAX_BITS) && Usable(spare)
      modifies `tailBlock, `owner, index.Repr, Parts(spare)
      ensures Core() && ok == old(CanStart(spare, memory))
      ensures if ok then Blocks() == old(Blocks()) + 1 else Full()
      ensures fresh(index.Repr - old(index.Repr))
      ensures owner == old(owner) + (if ok then Parts(spare) else {})
    {
      Gap();
      NotDoneYet(Blocks());
      ok := base.Leeway();
      if ok {
        var entry;
        ok, entry := KeyEntry(memory);
        if ok {
          ok := FillEntry(entry, spare);
        }
      }
    }

    lemma TailOwned()
      requires Core() && base.tail < Blocks() * BLOCK_SIZE
      ensures tailBlock != null && Parts(tailBlock) <= owner
    {
      assert LiveOwnedAt(index.win, |index.win| - 1, owner);
    }

    // The element, then the index that shows it to consumers.
    method Put(x: T)
      requires Core() && base.tail < Blocks() * BLOCK_SIZE && tailBlock != null
      modifies base`tailIndex, base`tail, `history, tailBlock.slots
      ensures Core() && history == old(history) + [x] && Contents() == old(Contents()) + [x]
    {
      Gap();
      PlaceOf(base.tail, Blocks());
      AppendBehind(history, base.head, x);
      assert LiveOwnedAt(index.win, |index.win| - 1, owner);
      ConstructLive(tailBlock, x, base.tailIndex % BLOCK_SIZE, index.win, index.first, history, done, owner);
      base.AdvanceTail();
      history := history + [x];
      assert AllLive(index.win, index.first, history, done, owner);
    }

    /** enqueue: the element goes to the back of the queue. It fails, changing nothing a consumer can see, exactly
        when a block is needed and cannot be had. */
    method Enqueue(x: T, spare: Block?<T>, memory: bool) returns (ok: bool)
      requires Valid() && (memory ==> index.bits < K.MAX_BITS) && Usable(spare)
      modifies this, base, index.Repr, owner, Parts(spare)
      ensures Valid() && ok == old(!Full() || CanStart(spare, memory))
      ensures history == if ok then old(history) + [x] else old(history)
      ensures Contents() == if ok then old(Contents()) + [x] else old(Contents())
      ensures unchanged(`done, `released) && base.head == old(base.head) && base.tickets == old(base.tickets)
      ensures owner == old(owner) + (if ok && old(Full()) then Parts(spare) else {})
      ensures fresh(index.Repr - old(index.Repr))
    {
      PlaceOf(base.tail, Blocks());
      ok := true;
      var boundary := base.AtBoundary();
      if boundary {
        ok := StartBlock(spare, memory);
      }
      if ok {
        TailOwned();
        Put(x);
      }
    }

    /* ---- Dequeue ---- */

    // Outside the window everything is finished.
    lemma InWindow(k: nat)
      requires Core() && k !in done && k < base.tail
      ensures Live(k)
    {
      var i := k / BLOCK_SIZE - index.first;
      assert LiveOwnedAt(index.win, i, owner) && LiveAt(index.win, index.first, i, history, done);
    }

    // Index k lies in a block of the window that is not finished.
    ghost predicate Live(k: nat)
      reads index
    {
      index.first <= k / BLOCK_SIZE < Blocks() && LiveBlock(k) != null
    }

    lemma LiveNotDone(k: nat)
      requires Core() && Live(k)
      ensures !AllDone(k / BLOCK_SIZE, done) && Parts(LiveBlock(k)) <= owner
    {
      var i := k / BLOCK_SIZE - index.first;
      assert LiveOwnedAt(index.win, i, owner) && LiveAt(index.win, index.first, i, history, done);
    }

    /** Behind the last element of a full block there is no block: a claim of no elements, made there, finds none. */
    lemma NoBlockBehind()
      requires Core() && Full()
      ensures !Live(base.tail)
    {
    }

    ghost function LiveBlock(k: nat): Block?<T>
      requires index.first <= k / BLOCK_SIZE < Blocks()
      reads index
    {
      index.win[k / BLOCK_SIZE - index.first]
    }

    // The tail block cannot be emptied before it is full.
    lemma LastNotDone(k: nat, count: nat)
      requires Core() && k + count <= base.head && base.tail < Blocks() * BLOCK_SIZE
      ensures !AllDone(Blocks() - 1, done + Range(k, k + count))
    {
      assert base.tail !in done + Range(k, k + count);
    }

    // The block in entry n of the window is empty: it leaves the index and goes to the free list.
    method Release(entry: K.Entry<T>, b: Block<T>, ghost n: nat)
      requires Apartness() && index.Valid() && index.index != null && n < |index.win| && index.win[n] == b
      requires entry == index.index[Back(index.indexTail, |index.win| - 1 - n, index.index.Length)]
      requires LiveSeparate(index.win)
      requires AllLive(index.win[n := null], index.first, history, done, owner - Parts(b))
      modifies `released, `releasedNumbers, `owner, index`win, entry`value
      ensures Apartness() && index.Valid() && index.win == old(index.win)[n := null]
      ensures LiveSeparate(index.win) && AllLive(index.win, index.first, history, done, owner)
      ensures released == old(released) + [b] && releasedNumbers == old(releasedNumbers) + [index.first + n]
      ensures owner <= old(owner)
    {
      ghost var win := index.win;
      index.Clear(entry, n);
      owner := owner - Parts(b);
      released := released + [b];
      releasedNumbers := releasedNumbers + [index.first + n];
      ghost var w := win[n := null];
      forall i, j | 0 <= i < |win| && 0 <= j < |win| && i != j ensures LiveApartAt(w, i, j) {
        assert LiveApartAt(win, i, j);
      }
    }

    // What taking a run of elements out of one block does to the storage and the index.
    method EmptySlots(entry: K.Entry<T>, from: nat, count: nat, ghost k: nat) returns (items: seq<T>, full: bool)
      requires Apartness() && index.Valid() && index.index != null && LiveSeparate(index.win)
      requires AllLive(index.win, index.first, history, done, owner)
      requires index.first <= k / BLOCK_SIZE < Blocks() && LiveBlock(k) != null && Parts(LiveBlock(k)) <= owner
      requires entry == index.index[Back(index.indexTail, Blocks() - 1 - k / BLOCK_SIZE, index.index.Length)]
      requires from % BLOCK_SIZE == k % BLOCK_SIZE && k % BLOCK_SIZE + count <= BLOCK_SIZE && k + count <= |history|
      requires forall m :: k <= m < k + count ==> m !in done
      modifies `done, `released, `releasedNumbers, `owner, index`win, entry`value, owner
      ensures Apartness() && index.Valid() && LiveSeparate(index.win)
      ensures done == old(done) + Range(k, k + count) && AllLive(index.win, index.first, history, done, owner)
      ensures items == history[k..k + count] && (full <==> AllDone(k / BLOCK_SIZE, done))
      ensures released == old(released) + old(if full then [LiveBlock(k)] else [])
      ensures releasedNumbers == old(releasedNumbers) + (if full then [k / BLOCK_SIZE] else [])
      ensures owner <= old(owner)
      ensures index.win == old(index.win) || (full && index.win == old(index.win)[k / BLOCK_SIZE - index.first := null])
    {
      ghost var n := k / BLOCK_SIZE - index.first;
      assert K.SlotAt(index.index[..], index.indexTail, index.win, index.first, n);
      var b := entry.value;
      items, full := TakeLive(b, from, count, k, index.win, index.first, history, done, owner);
      done := done + Range(k, k + count);
      if full {
        Release(entry, b, n);
      }
    }

    ghost function Now(): Account<T>
      reads this, index
    {
      Account(done, released, releasedNumbers, index.win)
    }

    /** A run of claimed elements is taken out of the block in one entry; if that empties the block, the entry is
        cleared and the block goes to the free list. */
    method Finish(entry: K.Entry<T>, from: nat, count: nat, ghost k: nat) returns (items: seq<T>)
      requires Core() && Live(k) && index.index != null
      requires entry == index.index[Back(index.indexTail, Blocks() - 1 - k / BLOCK_SIZE, index.index.Length)]
      requires from % BLOCK_SIZE == k % BLOCK_SIZE && k % BLOCK_SIZE + count <= BLOCK_SIZE && k + count <= base.head
      requires forall m :: k <= m < k + count ==> m !in done
      modifies `done, `released, `releasedNumbers, `owner, index`win, entry`value, owner
      ensures Core() && items == history[k..k + count]
      ensures Blocks() == old(Blocks()) && owner <= old(owner)
      ensures Booked(old(Now()), Now(), index.first, k, count)
    {
      LiveNotDone(k);
      HandBack(releasedNumbers, Blocks(), done, k, count);
      if base.tail < Blocks() * BLOCK_SIZE { LastNotDone(k, count); }
      var full;
      items, full := EmptySlots(entry, from, count, k);
    }

    // The first index of the block an index lies in, and the slot of its entry.
    method FindSlot(at: nat, ghost k: nat) returns (slot: nat)
      requires index.Valid() && at == Word(k) && index.first <= k / BLOCK_SIZE < Blocks()
      ensures index.index != null && slot == Back(index.indexTail, Blocks() - 1 - k / BLOCK_SIZE, index.index.Length)
    {
      BaseOf(k);
      slot := index.Find(at - at % BLOCK_SIZE, k / BLOCK_SIZE);
    }

    /** Takes out one claimed element, whatever else has been claimed or finished meanwhile. */
    method Take(at: nat, ghost k: nat) returns (x: T)
      requires Valid() && at == Word(k) && k < base.head && k !in done
      modifies `done, `released, `releasedNumbers, `owner, index`win, index.Entries(), owner
      ensures Valid() && x == history[k]
      ensures old(Live(k)) && Booked(old(Now()), Now(), index.first, k, 1)
    {
      InWindow(k);
      BaseOf(k);
      var slot := FindSlot(at, k);
      var items := Finish(index.index[slot], at, 1, k);
      x := items[0];
    }

    // A run in one block, and the slot of the next block.
    method TakeInBlock(slot: nat, at: nat, count: nat, ghost m: nat) returns (items: seq<T>, nextSlot: nat)
      requires Core() && index.index != null && Live(m)
      requires slot == Back(index.indexTail, Blocks() - 1 - m / BLOCK_SIZE, index.index.Length)
      requires at == Word(m) && m % BLOCK_SIZE + count <= BLOCK_SIZE && m + count <= base.head
      requires forall i :: m <= i < m + count ==> i !in done
      modifies `done, `released, `releasedNumbers, `owner, index`win, index.Entries(), owner
      ensures Core() && Blocks() == old(Blocks()) && owner <= old(owner) && items == history[m..m + count]
      ensures Booked(old(Now()), Now(), index.first, m, count)
      ensures m / BLOCK_SIZE + 1 < Blocks() ==>
                nextSlot == Back(index.indexTail, Blocks() - 2 - m / BLOCK_SIZE, index.index.Length)
    {
      BaseOf(m);
      items := Finish(index.index[slot], at, count, m);
      nextSlot := After(slot, index.index.Length);
    }

    // One block of a run of claimed elements.
    method TakeStep(slot: nat, at: nat, stop: nat, ghost m: nat, ghost s: nat)
      returns (items: seq<T>, nextSlot: nat, end: nat)
      requires Core() && index.index != null && Live(m)
      requires slot == Back(index.indexTail, Blocks() - 1 - m / BLOCK_SIZE, index.index.Length)
      requires at == Word(m) && stop == Word(s) && m <= s < m + HALF && s <= base.head
      requires forall i :: m <= i < s ==> i !in done
      modifies `done, `released, `releasedNumbers, `owner, index`win, index.Entries(), owner
      ensures Core() && Blocks() == old(Blocks()) && owner <= old(owner)
      ensures end == Word(EndInBlock(m, s)) && (end == stop <==> EndInBlock(m, s) == s)
      ensures items == history[m..EndInBlock(m, s)]
      ensures Booked(old(Now()), Now(), index.first, m, EndInBlock(m, s) - m)
      ensures EndInBlock(m, s) < s ==>
                nextSlot == Back(index.indexTail, Blocks() - 1 - EndInBlock(m, s) / BLOCK_SIZE, index.index.Length)
    {
      var count;
      end, count := StepEnd(at, stop, m, s);
      if EndInBlock(m, s) < s { InWindow(EndInBlock(m, s)); }
      items, nextSlot := TakeInBlock(slot, at, count, m);
    }

    // The block loop has come to index m and block number e of the run from k to s; `more` says whether it goes on.
    ghost predicate Running(items: seq<T>, slot: nat, at: nat, more: bool, k: nat, m: nat, s: nat, e: nat,
                            start: Account<T>)
      requires Core() && s <= |history|
      reads this, base, index, index.Repr, owner
    {
      && k <= m <= s && at == Word(m) && items == history[k..m] && Accounted(start, Now(), index.first, k, m, e)
      && (m < s ==> more) && (more && m == s ==> k == s)
      && (more ==> Live(m) && e == m / BLOCK_SIZE && index.index != null &&
                   slot == Back(index.indexTail, Blocks() - 1 - m / BLOCK_SIZE, index.index.Length))
      && (!more ==> e == BlockBehind(k, s - k))
    }

    // One round of the block loop.
    method TakeNext(items: seq<T>, slot: nat, at: nat, stop: nat, ghost k: nat, ghost m: nat, ghost s: nat,
                    ghost e: nat, ghost start: Account<T>)
      returns (items': seq<T>, slot': nat, at': nat, more: bool, ghost m': nat)
      requires Core() && stop == Word(s) && k <= s < k + HALF && s <= base.head
      requires Running(items, slot, at, true, k, m, s, e, start) && forall i :: m <= i < s ==> i !in done
      modifies `done, `released, `releasedNumbers, `owner, index`win, index.Entries(), owner
      ensures Core() && Blocks() == old(Blocks()) && owner <= old(owner)
      ensures Running(items', slot', at', more, k, m', s, e + 1, start) && m <= m' && (more ==> m < m')
      ensures forall i :: m' <= i < s ==> i !in done
    {
      ghost var before := Now();
      m' := EndInBlock(m, s);
      JoinSlices(history, k, m, m');
      RunBlocks(k, m, s);
      var some;
      some, slot', at' := TakeStep(slot, at, stop, m, s);
      TakenMore(start, before, Now(), index.first, k, m, m');
      items' := items + some;
      more := at' != stop;
      if more { InWindow(m'); }
    }

    /** The block loop of dequeue_bulk: takes out a whole run of claimed elements, block by block. */
    method TakeBlocks(firstSlot: nat, firstIndex: nat, stop: nat, ghost k: nat, ghost s: nat)
      returns (items: seq<T>)
      requires Core() && index.index != null && Live(k)
      requires firstSlot == Back(index.indexTail, Blocks() - 1 - k / BLOCK_SIZE, index.index.Length)
      requires firstIndex == Word(k) && stop == Word(s) && k <= s < k + HALF && s <= base.head
      requires forall i :: k <= i < s ==> i !in done
      modifies `done, `released, `releasedNumbers, `owner, index`win, index.Entries(), owner
      ensures Core() && Blocks() == old(Blocks()) && items == history[k..s]
      ensures Accounted(old(Now()), Now(), index.first, k, s, BlockBehind(k, s - k))
    {
      items := [];
      var slot, at := firstSlot, firstIndex;
      ghost var m: nat, e: nat := k, k / BLOCK_SIZE;
      ghost var start := Now();
      NothingTaken(start, index.first, k);
      var more := true;
      while more
        invariant Core() && Blocks() == old(Blocks()) && owner <= old(owner)
        invariant Running(items, slot, at, more, k, m, s, e, start) && forall i :: m <= i < s ==> i !in done
        decreases more, s - m
      {
        items, slot, at, more, m := TakeNext(items, slot, at, stop, k, m, s, e, start);
        e := e + 1;
      }
    }

    /** Takes out a run of claimed elements, dequeue_bulk once its counters have moved, and hands back the blocks that
        this finishes, each once. A claim of no elements must have been made in a live block. */
    method TakeRun(firstIndex: nat, count: nat, ghost k: nat) returns (items: seq<T>)
      requires Valid() && firstIndex == Word(k) && (count == 0 ==> Live(k))
      requires k + count <= base.head && count < HALF && forall i :: k <= i < k + count ==> i !in done
      modifies `done, `released, `releasedNumbers, `owner, index`win, index.Entries(), owner
      ensures Valid() && items == history[k..k + count]
      ensures TakenTo(old(Now()), Now(), index.first, k, k + count, BlockBehind(k, count))
    {
      if count > 0 { InWindow(k); }
      var slot := FindSlot(firstIndex, k);
      WordOfSum(k, count);
      ghost var start := Now();
      items := TakeBlocks(slot, firstIndex, Word(firstIndex + count), k, k + count);
      TakenOf(start, Now(), index.first, k, k + count, BlockBehind(k, count));
    }

    // The claims of dequeue and dequeue_bulk, which leave the storage alone.
    method ClaimFront() returns (ok: bool, at: nat)
      requires Valid() && base.tickets == 0
      modifies base
      ensures Valid() && base.tickets == 0 && base.tail == old(base.tail) && ok == old(base.head < base.tail)
      ensures base.head == old(base.head) + (if ok then 1 else 0) && (ok ==> at == Word(old(base.head)))
    {
      ok, at := base.Claim();
    }

    method ClaimFronts(max: nat) returns (ok: bool, firstIndex: nat, count: nat)
      requires Valid() && base.tickets == 0
      modifies base
      ensures Valid() && base.tickets == 0 && base.tail == old(base.tail) && ok == old(base.head < base.tail)
      ensures count == old(if max < base.tail - base.head then max else base.tail - base.head)
      ensures base.head == old(base.head) + count && (ok ==> firstIndex == Word(old(base.head))) && count < HALF
    {
      Gap();
      ok, firstIndex, count := base.ClaimMany(max);
    }

    /** dequeue, with no other consumer under way: the front element, whenever there is one. */
    method Dequeue() returns (x: Option<T>)
      requires Valid() && base.tickets == 0 && done == Range(0, base.head)
      modifies base, `done, `released, `releasedNumbers, `owner, index`win, index.Entries(), owner
      ensures Valid() && base.tickets == 0 && done == Range(0, base.head)
      ensures x == if old(Contents()) == [] then None else Some(old(Contents())[0])
      ensures Contents() == if old(Contents()) == [] then [] else old(Contents())[1..]
      ensures if x == None then Now() == old(Now())
              else old(Live(base.head)) && Booked(old(Now()), Now(), index.first, old(base.head), 1)
    {
      ghost var k := base.head;
      JoinRanges({}, 0, k, k + 1);
      var ok, at := ClaimFront();
      x := None;
      if ok {
        InWindow(k);
        var taken := Take(at, k);
        x := Some(taken);
      }
    }

    /** dequeue_bulk, with no other consumer under way: up to `max` elements from the front, in order. */
    method DequeueMany(max: nat) returns (items: seq<T>)
      requires Valid() && base.tickets == 0 && done == Range(0, base.head)
      modifies base, `done, `released, `releasedNumbers, `owner, index`win, index.Entries(), owner
      ensures Valid() && base.tickets == 0 && done == Range(0, base.head)
      ensures |items| == if max < |old(Contents())| then max else |old(Contents())|
      ensures old(Contents()) == items + Contents()
      ensures if old(Contents()) == [] then Now() == old(Now())
              else TakenTo(old(Now()), Now(), index.first, old(base.head), base.head,
                           BlockBehind(old(base.head), |items|))
    {
      ghost var k := base.head;
      var ok, firstIndex, count := ClaimFronts(max);
      items := [];
      if ok {
        items := TakeFront(firstIndex, count, k);
      }
    }

    // Takes out the run that has just been claimed, when all before it is taken out.
    method TakeFront(firstIndex: nat, count: nat, ghost k: nat) returns (items: seq<T>)
      requires Valid() && firstIndex == Word(k) && done == Range(0, k) && k < base.tail
      requires k + count == base.head && count < HALF
      modifies `done, `released, `releasedNumbers, `owner, index`win, index.Entries(), owner
      ensures Valid() && done == Range(0, base.head) && |items| == count
      ensures history[k..base.tail] == items + Contents()
      ensures TakenTo(old(Now()), Now(), index.first, k, base.head, BlockBehind(k, count))
    {
      InWindow(k);
      items := TakeRun(firstIndex, count, k);
      JoinRanges({}, 0, k, k + count);
      JoinSlices(history, k, k + count, base.tail);
    }
  }
}
