/** Blocks that count their finished slots, as the implicit producers use them. */
module CountedBlocks {
  import opened Basics
  import opened Circular
  import opened Blocks
  import opened ProducerBase
  import opened BlockStorage

  // The flags such a block would have.
  ghost function FlagsOf(q: nat, done: set<nat>): (flags: seq<bool>)
    ensures |flags| == BLOCK_SIZE
    ensures forall j :: 0 <= j < BLOCK_SIZE ==> (Flag(flags, j) <==> q * BLOCK_SIZE + j in done)
  {
    seq(BLOCK_SIZE, i requires 0 <= i < BLOCK_SIZE => q * BLOCK_SIZE + (BLOCK_SIZE - 1 - i) in done)
  }

  // How many of a run of indices are done.
  ghost function DoneIn(done: set<nat>, first: nat, end: nat): (n: nat)
    requires first <= end
    ensures n <= end - first
    ensures n == end - first <==> forall i :: first <= i < end ==> i in done
    decreases end - first
  {
    if first == end then 0
    else
      assert (forall i :: first <= i < end ==> i in done) <==>
             (first in done && forall i :: first + 1 <= i < end ==> i in done);
      (if first in done then 1 else 0) + DoneIn(done, first + 1, end)
  }

  lemma {:induction false} DoneInJoins(done: set<nat>, k: nat, m: nat, n: nat)
    requires k <= m <= n
    ensures DoneIn(done, k, n) == DoneIn(done, k, m) + DoneIn(done, m, n)
    decreases m - k
  {
    if k < m {
      DoneInJoins(done, k + 1, m, n);
    }
  }

  lemma {:induction false} DoneInSame(done: set<nat>, done': set<nat>, k: nat, n: nat)
    requires k <= n && forall i :: k <= i < n ==> (i in done <==> i in done')
    ensures DoneIn(done, k, n) == DoneIn(done', k, n)
    decreases n - k
  {
    if k < n {
      DoneInSame(done, done', k + 1, n);
    }
  }

  lemma {:induction false} NoneIn(done: set<nat>, k: nat, n: nat)
    requires k <= n && forall i :: k <= i < n ==> i !in done
    ensures DoneIn(done, k, n) == 0
    decreases n - k
  {
    if k < n {
      NoneIn(done, k + 1, n);
    }
  }

  /** Finishing a run of indices inside a block raises the block's count by the length of the run. */
  lemma CountFinished(done: set<nat>, base: nat, k: nat, count: nat, end: nat)
    requires base <= k && k + count <= end && forall i :: k <= i < k + count ==> i !in done
    ensures DoneIn(done + Range(k, k + count), base, end) == DoneIn(done, base, end) + count
  {
    var done' := done + Range(k, k + count);
    DoneInJoins(done, base, k, end);
    DoneInJoins(done, k, k + count, end);
    DoneInJoins(done', base, k, end);
    DoneInJoins(done', k, k + count, end);
    DoneInSame(done, done', base, k);
    DoneInSame(done, done', k + count, end);
    NoneIn(done, k, k + count);
  }

  ghost predicate Counted<T>(b: Block<T>, q: nat, history: seq<T>, done: set<nat>)
    reads b, b.slots
  {
    && b.Valid()
    && CellsAre(b.slots[..], FlagsOf(q, done), q, history, done)
    && b.elementsCompletelyDequeued == DoneIn(done, q * BLOCK_SIZE, (q + 1) * BLOCK_SIZE)
  }

  ghost predicate AllDone(q: nat, done: set<nat>)
  {
    forall i :: q * BLOCK_SIZE <= i < (q + 1) * BLOCK_SIZE ==> i in done
  }

  /** A block without elements, made ready for a run of indices from the tail on. */
  method StartCounted<T>(b: Block<T>, ghost q: nat, ghost history: seq<T>, ghost done: set<nat>)
    requires b.Valid() && forall j :: 0 <= j < BLOCK_SIZE ==> b.slots[j] == None
    requires |history| <= q * BLOCK_SIZE && forall i :: i in done ==> i < |history|
    modifies b
    ensures Counted(b, q, history, done) && unchanged(b`next)
  {
    NoneIn(done, q * BLOCK_SIZE, (q + 1) * BLOCK_SIZE);
    FreshCells(b.slots[..], FlagsOf(q, done), q, history, done);
    b.ResetCount();
  }

  method ConstructCounted<T>(b: Block<T>, x: T, j: nat, ghost q: nat, ghost history: seq<T>, ghost done: set<nat>)
    requires Counted(b, q, history, done)
    requires |history| / BLOCK_SIZE == q && j == |history| % BLOCK_SIZE && |history| !in done
    modifies b.slots
    ensures Counted(b, q, history + [x], done)
  {
    PutCells(b.slots[..], FlagsOf(q, done), q, history, done, x);
    ghost var slots := b.slots[..][j := Some(x)];
    b.slots[j] := Some(x);
    assert b.slots[..] == slots;
  }

  /** Takes a run of elements out of a block; true for the call that empties it, and for one that takes nothing out of
      an empty one. */
  method TakeCounted<T>(b: Block<T>, index: nat, count: nat, ghost k: nat, ghost history: seq<T>, ghost done: set<nat>)
    returns (items: seq<T>, full: bool)
    requires Counted(b, k / BLOCK_SIZE, history, done) && index % BLOCK_SIZE == k % BLOCK_SIZE
    requires k % BLOCK_SIZE + count <= BLOCK_SIZE && k + count <= |history|
    requires forall m :: k <= m < k + count ==> m !in done
    modifies b, b.slots
    ensures unchanged(b`next) && Counted(b, k / BLOCK_SIZE, history, done + Range(k, k + count))
    ensures items == history[k..k + count]
    ensures full <==> AllDone(k / BLOCK_SIZE, done + Range(k, k + count))
    ensures count > 0 ==> !AllDone(k / BLOCK_SIZE, done)
  {
    ghost var q, i := k / BLOCK_SIZE, k % BLOCK_SIZE;
    ghost var slots, done' := b.slots[..], done + Range(k, k + count);
    LiveCells(slots, FlagsOf(q, done), k, count, history, done);
    CountFinished(done, q * BLOCK_SIZE, k, count, (q + 1) * BLOCK_SIZE);
    items := b.MoveOut(index % BLOCK_SIZE, count);
    forall j | 0 <= j < count ensures items[j] == history[k + j] {
      assert slots[i + j] == Some(items[j]);
    }
    full := b.CountEmpty(count);
    TakeCells(slots, FlagsOf(q, done), b.slots[..], FlagsOf(q, done'), q, i, count, history, done);
  }

  lemma OtherCounted<T>(b: Block<T>, q: nat, k: nat, count: nat, history: seq<T>, done: set<nat>)
    requires Counted(b, q, history, done) && q != k / BLOCK_SIZE && k % BLOCK_SIZE + count <= BLOCK_SIZE
    ensures Counted(b, q, history, done + Range(k, k + count))
    ensures AllDone(q, done) == AllDone(q, done + Range(k, k + count))
  {
    var p, done' := k / BLOCK_SIZE, done + Range(k, k + count);
    forall i | q * BLOCK_SIZE <= i < (q + 1) * BLOCK_SIZE ensures i in done <==> i in done' {
      assert !(k <= i < k + count);
    }
    DoneInSame(done, done', q * BLOCK_SIZE, (q + 1) * BLOCK_SIZE);
    assert FlagsOf(q, done) == FlagsOf(q, done');
    OtherCells(b.slots[..], FlagsOf(q, done), p, k % BLOCK_SIZE, count, q, history, done);
  }

  lemma MoreCounted<T>(b: Block<T>, q: nat, history: seq<T>, done: set<nat>, x: T)
    requires Counted(b, q, history, done) && q != |history| / BLOCK_SIZE && |history| !in done
    ensures Counted(b, q, history + [x], done)
  {
    PutCells(b.slots[..], FlagsOf(q, done), q, history, done, x);
  }
}
