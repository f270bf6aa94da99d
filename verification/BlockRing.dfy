/** The circular index of an explicit producer: which block holds which run of 32 indices. */
module BlockRing {
  import opened Basics
  import opened Circular

  datatype Entry<B> = Entry(base: nat, block: B)

  // The last |ring| entries before `next`, oldest first, are the blocks of `ring`; ring[0] is block number
  // `first` of the sub-queue, that is, it starts at index first * BLOCK_SIZE.
  ghost predicate IndexIs<B>(es: seq<Entry<B>>, next: nat, ring: seq<B>, first: nat)
    requires next < |es| && |ring| <= |es|
  {
    forall i :: 0 <= i < |ring| ==> EntryIs(es, next, ring, first, i)
  }

  ghost predicate EntryIs<B>(es: seq<Entry<B>>, next: nat, ring: seq<B>, first: nat, i: nat)
    requires next < |es| && i < |ring| <= |es|
  {
    es[Back(next, |ring| - i, |es|)] == Entry(Word((first + i) * BLOCK_SIZE), ring[i])
  }

  function Next(i: nat, size: nat): (j: nat)
    requires i < size
    ensures j < size
  {
    if i + 1 == size then 0 else i + 1
  }

  lemma BackFromNext(i: nat, back: nat, size: nat)
    requires i < size && 1 <= back <= size
    ensures Back(Next(i, size), back, size) == Back(i, back - 1, size)
  {
  }

  // (i + 1) & (size - 1); size is a power of two, so the mask is a remainder.
  method After(i: nat, size: nat) returns (j: nat)
    requires i < size
    ensures j == Next(i, size)
  {
    ModIs(i + 1, if i + 1 == size then 1 else 0, Next(i, size), size);
    j := (i + 1) % size;
  }

  // (i - back) & (size - 1)
  method Before(i: nat, back: nat, size: nat) returns (j: nat)
    requires i < size && back <= size
    ensures j == Back(i, back, size)
  {
    ModIs(i - back, if i >= back then 0 else -1, Back(i, back, size), size);
    j := (i - back) % size;
  }

  /** Publishing one more block keeps the ones already there, as long as there is room. */
  lemma Publish<B>(es: seq<Entry<B>>, next: nat, ring: seq<B>, first: nat, b: B)
    requires next < |es| && |ring| < |es| && IndexIs(es, next, ring, first)
    ensures var entry := Entry(Word((first + |ring|) * BLOCK_SIZE), b);
            IndexIs(es[next := entry], Next(next, |es|), ring + [b], first)
  {
    var es' := es[next := Entry(Word((first + |ring|) * BLOCK_SIZE), b)];
    var next' := Next(next, |es|);
    forall i | 0 <= i <= |ring| ensures EntryIs(es', next', ring + [b], first, i) {
      BackFromNext(next, |ring| + 1 - i, |es|);
      if i < |ring| { assert EntryIs(es, next, ring, first, i); }
    }
  }

  /** The index right after its live entries have been copied to its start. */
  lemma Copied<B>(es: seq<Entry<B>>, ring: seq<B>, first: nat)
    requires |ring| < |es|
    requires forall k :: 0 <= k < |ring| ==> es[k].base == Word((first + k) * BLOCK_SIZE)
    requires forall k :: 0 <= k < |ring| ==> es[k].block == ring[k]
    ensures IndexIs(es, |ring|, ring, first)
  {
    forall i | 0 <= i < |ring| ensures EntryIs(es, |ring|, ring, first, i) {
      assert Back(|ring|, |ring| - i, |es|) == i;
    }
  }

  /** Forgetting the oldest block. */
  lemma Forget<B>(es: seq<Entry<B>>, next: nat, ring: seq<B>, first: nat)
    requires next < |es| && 0 < |ring| <= |es| && IndexIs(es, next, ring, first)
    ensures IndexIs(es, next, ring[1..], first + 1)
  {
    var rest, f := ring[1..], first + 1;
    forall i | 0 <= i < |rest| ensures EntryIs(es, next, rest, f, i) {
      assert EntryIs(es, next, ring, first, i + 1);
    }
  }

  /** The slot a consumer computes for an index holds the block that index lies in. */
  lemma Lookup<B>(es: seq<Entry<B>>, next: nat, ring: seq<B>, first: nat, e: nat, q: nat)
    requires next < |es| == Exp2(e) && e <= BLOCKS_BITS
    requires |ring| <= |es| && IndexIs(es, next, ring, first) && first <= q < first + |ring|
    ensures var front := Back(next, 1, |es|);
            && es[front].base == Word((first + |ring| - 1) * BLOCK_SIZE)
            && (front + BlockOffset(Word(q * BLOCK_SIZE), es[front].base)) % |es|
               == Back(next, first + |ring| - q, |es|)
            && es[Back(next, first + |ring| - q, |es|)] == Entry(Word(q * BLOCK_SIZE), ring[q - first])
  {
    var front := Back(next, 1, |es|);
    var last := first + |ring| - 1;
    assert EntryIs(es, next, ring, first, |ring| - 1);
    assert EntryIs(es, next, ring, first, q - first);
    SlotFormula(front, |es|, e, q * BLOCK_SIZE, last * BLOCK_SIZE, last - q);
    BackTwice(next, 1, last - q, |es|);
  }
}
