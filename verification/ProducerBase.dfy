/** What both kinds of sub-queue share: four index words, and the counters of dequeue and dequeue_bulk. */
module ProducerBase {
  import opened Basics
  import opened Circular

  /* ---- Runs of indices ---- */

  function Range(first: nat, end: nat): (s: set<nat>)
    requires first <= end
    ensures forall i :: i in s <==> first <= i < end
    decreases end - first
  {
    if first == end then {} else {first} + Range(first + 1, end)
  }

  // The index of the first slot of a block.
  lemma BaseOf(k: nat)
    ensures Word(k) % BLOCK_SIZE == k % BLOCK_SIZE
    ensures Word(k) - Word(k) % BLOCK_SIZE == Word(k / BLOCK_SIZE * BLOCK_SIZE)
  {
    var t := TurnsIn(k);
    var w := Word(k);
    WordIsRemainder(k / BLOCK_SIZE * BLOCK_SIZE);
    ModIs(k, t * BLOCKS + w / BLOCK_SIZE, w % BLOCK_SIZE, BLOCK_SIZE);
    ModIs(k / BLOCK_SIZE * BLOCK_SIZE, t, w - w % BLOCK_SIZE, MOD);
  }

  // Where the next element goes.
  lemma PlaceOf(tail: nat, blocks: nat)
    requires tail <= blocks * BLOCK_SIZE <= tail + BLOCK_SIZE
    ensures Word(tail) % BLOCK_SIZE == tail % BLOCK_SIZE && Word(Word(tail) + 1) == Word(tail + 1)
    ensures tail < blocks * BLOCK_SIZE ==> tail / BLOCK_SIZE == blocks - 1
    ensures blocks * BLOCK_SIZE < tail + BLOCK_SIZE ==> (tail == blocks * BLOCK_SIZE <==> tail % BLOCK_SIZE == 0)
  {
    BaseOf(tail);
    WordOfSum(tail, 1);
  }

  function EndInBlock(m: nat, stop: nat): (end: nat)
    requires m <= stop
    ensures m <= end <= stop && m % BLOCK_SIZE + (end - m) <= BLOCK_SIZE && (m < stop ==> m < end)
  {
    var boundary := m / BLOCK_SIZE * BLOCK_SIZE + BLOCK_SIZE;
    if stop < boundary then stop else boundary
  }

  // Where a run from m to stop leaves the block it starts in, computed on words.
  lemma EndOf(m: nat, stop: nat)
    requires m <= stop < m + HALF
    ensures var end := Word(Word(m) - Word(m) % BLOCK_SIZE + BLOCK_SIZE);
            (if CircularLess(Word(stop), end) then Word(stop) else end) == Word(EndInBlock(m, stop))
  {
    var base := m / BLOCK_SIZE * BLOCK_SIZE;
    BaseOf(m);
    WordOfSum(base, BLOCK_SIZE);
    EndAt(m, stop, base);
  }

  lemma EndAt(m: nat, stop: nat, base: nat)
    requires m <= stop < m + HALF && base <= m < base + BLOCK_SIZE
    ensures CircularLess(Word(stop), Word(base + BLOCK_SIZE)) <==> stop < base + BLOCK_SIZE
  {
    CircularLessIsLess(stop, base + BLOCK_SIZE);
  }

  lemma WordOfGap(m: nat, n: nat)
    requires m <= n < m + HALF
    ensures Word(Word(n) - Word(m)) == n - m
    ensures CircularLess(0, n - m) <==> m < n
    ensures CircularLess(Word(m), Word(n)) <==> m < n
  {
    WordOfDifference(n, m);
    CircularLessIsLess(m, n);
  }

  // Where the run stops or the block does, whichever comes first; both are index words.
  method EndIndex(index: nat, stop: nat, ghost m: nat, ghost s: nat) returns (end: nat)
    requires m <= s < m + HALF && index == Word(m) && stop == Word(s)
    ensures end == Word(EndInBlock(m, s)) && Word(end - index) == EndInBlock(m, s) - m
  {
    end := Word(index - index % BLOCK_SIZE + BLOCK_SIZE);
    if CircularLess(stop, end) {
      end := stop;
    }
    EndOf(m, s);
    WordOfGap(m, EndInBlock(m, s));
  }

  // Where a run leaves a block, and how many elements that is away.
  method StepEnd(index: nat, stop: nat, ghost m: nat, ghost s: nat) returns (end: nat, count: nat)
    requires index == Word(m) && stop == Word(s) && m <= s < m + HALF
    ensures end == Word(EndInBlock(m, s)) && (end == stop <==> EndInBlock(m, s) == s)
    ensures count == EndInBlock(m, s) - m
    ensures EndInBlock(m, s) < s ==> EndInBlock(m, s) / BLOCK_SIZE == m / BLOCK_SIZE + 1
  {
    end := EndIndex(index, stop, m, s);
    count := Word(end - index);
    WordOfGap(EndInBlock(m, s), s);
  }

  lemma JoinSlices<T>(s: seq<T>, k: nat, m: nat, n: nat)
    requires k <= m <= n <= |s|
    ensures s[k..m] + s[m..n] == s[k..n]
  {
  }

  lemma JoinRanges(done: set<nat>, k: nat, m: nat, n: nat)
    requires k <= m <= n
    ensures Range(k, m) + Range(m, n) == Range(k, n)
    ensures done + Range(k, m) + Range(m, n) == done + Range(k, n)
  {
  }

  lemma AppendBehind<T>(s: seq<T>, from: nat, x: T)
    requires from <= |s|
    ensures (s + [x])[from..|s| + 1] == s[from..|s|] + [x]
  {
  }

  /* ---- The counters ---- */

  class ProducerBase {
    var tailIndex: nat
    var headIndex: nat
    var dequeueOptimisticCount: nat
    var dequeueOvercommit: nat

    ghost var tail: nat             // the same without wrap-around
    ghost var head: nat
    ghost var overcommit: nat
    ghost var tickets: nat          // tickets drawn and not settled yet

    ghost predicate Valid()
      reads this
    {
      && tailIndex == Word(tail) && headIndex == Word(head)
      && dequeueOvercommit == Word(overcommit)
      && dequeueOptimisticCount == Word(head + overcommit + tickets)
      && head <= head + tickets <= tail < head + HALF
    }

    constructor ()
      ensures Valid() && tail == 0 && head == 0 && tickets == 0
    {
      tailIndex, headIndex, dequeueOptimisticCount, dequeueOvercommit := 0, 0, 0, 0;
      tail, head, overcommit, tickets := 0, 0, 0, 0;
    }

    /** Shows one more element to consumers. */
    method AdvanceTail()
      requires Valid() && tail + 1 < head + HALF
      modifies `tailIndex, `tail
      ensures Valid() && tail == old(tail) + 1
    {
      WordOfSum(tail, 1);
      tailIndex := Word(tailIndex + 1);
      tail := tail + 1;
    }

    /** Whether the tail stands at the start of a block. */
    method AtBoundary() returns (boundary: bool)
      requires Valid()
      ensures boundary <==> tail % BLOCK_SIZE == 0
    {
      BaseOf(tail);
      boundary := tailIndex % BLOCK_SIZE == 0;
    }

    /** The tail must not overtake the head while the next block fills up. */
    method Leeway() returns (enough: bool)
      requires Valid() && tail + BLOCK_SIZE - head <= HALF
      ensures enough <==> tail + BLOCK_SIZE - head < HALF
    {
      CircularLessIsLess(head, tail + BLOCK_SIZE);
      WordOfSum(tail, BLOCK_SIZE);
      enough := CircularLess(headIndex, Word(tailIndex + BLOCK_SIZE));
    }

    /** size_approx, when it reads both indices at once: exactly the number of elements. */
    method SizeApprox() returns (n: nat)
      requires Valid()
      ensures n == tail - head
    {
      WordOfGap(head, tail);
      n := if CircularLess(headIndex, tailIndex) then Word(tailIndex - headIndex) else 0;
    }

    // The ticket count less the overcommit is the head, but for the tickets that are out.
    lemma Available()
      requires Valid()
      ensures Word(dequeueOptimisticCount - dequeueOvercommit) == Word(head + tickets)
      ensures Word(tailIndex - Word(head + tickets)) == tail - head - tickets
      ensures CircularLess(0, tail - head - tickets) <==> head + tickets < tail
      ensures CircularLess(Word(head + tickets), tailIndex) <==> head + tickets < tail
    {
      WordOfDifference(head + overcommit + tickets, overcommit);
      WordOfGap(head + tickets, tail);
    }

    method DrawTickets(count: nat)
      requires Valid() && head + tickets + count <= tail
      modifies `dequeueOptimisticCount, `tickets
      ensures Valid() && tickets == old(tickets) + count
    {
      WordOfSum(head + overcommit + tickets, count);
      dequeueOptimisticCount := Word(dequeueOptimisticCount + count);
      tickets := tickets + count;
    }

    method AdvanceHead(count: nat) returns (index: nat)
      requires Valid() && count <= tickets
      modifies `headIndex, `head, `tickets
      ensures Valid() && tickets == old(tickets) - count
      ensures head == old(head) + count && index == Word(old(head))
    {
      WordOfSum(head, count);
      index := headIndex;
      headIndex := Word(headIndex + count);
      head, tickets := head + count, tickets - count;
    }

    /** The counters of dequeue: an element is claimed exactly when there is one no ticket is out for. */
    method Claim() returns (ok: bool, index: nat)
      requires Valid()
      modifies `dequeueOptimisticCount, `dequeueOvercommit, `headIndex, `head, `tickets
      ensures Valid() && tickets == old(tickets) && ok == old(head + tickets < tail)
      ensures head == old(head) + (if ok then 1 else 0) && (ok ==> index == Word(old(head)))
    {
      Available();
      ok, index := false, 0;
      var over: int := dequeueOvercommit;
      if CircularLess(Word(dequeueOptimisticCount - over), tailIndex) {
        var mine: int := dequeueOptimisticCount;
        DrawTickets(1);
        if CircularLess(Word(mine - over), tailIndex) {
          ok := true;
          index := AdvanceHead(1);
        } else {
          assert false;
        }
      }
    }

    /** The counters of dequeue_bulk: up to `max` elements are claimed, and no more than there are. */
    method ClaimMany(max: nat) returns (ok: bool, firstIndex: nat, count: nat)
      requires Valid()
      modifies `dequeueOptimisticCount, `dequeueOvercommit, `headIndex, `head, `tickets
      ensures Valid() && tickets == old(tickets) && ok == old(head + tickets < tail)
      ensures count == old(if max < tail - head - tickets then max else tail - head - tickets)
      ensures head == old(head) + count && (ok ==> firstIndex == Word(old(head)))
    {
      Available();
      ok, firstIndex, count := false, 0, 0;
      var over: int := dequeueOvercommit;
      var desired := Word(tailIndex - Word(dequeueOptimisticCount - over));
      if CircularLess(0, desired) {
        desired := if desired < max then desired else max;
        var mine: int := dequeueOptimisticCount;
        DrawTickets(desired);
        var actual := Word(tailIndex - Word(mine - over));
        if CircularLess(0, actual) {
          actual := if desired < actual then desired else actual;
          if actual < desired {
            assert false;
          }
          ok, count := true, actual;
          firstIndex := AdvanceHead(actual);
        } else {
          assert false;
        }
      }
    }
  }
}
