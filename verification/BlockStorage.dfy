/** What the blocks of a sub-queue hold, and how whole blocks are filled and emptied. */
module BlockStorage {
  import opened Basics
  import opened Circular
  import opened Blocks
  import opened ProducerBase

  /* ---- What the blocks of the ring hold ---- */

  // Flags are stored back to front.
  predicate Flag(flags: seq<bool>, j: nat)
    requires |flags| == BLOCK_SIZE && j < BLOCK_SIZE
  {
    flags[BLOCK_SIZE - 1 - j]
  }

  // Cell j of block number q: the element with that index until it is taken out, and the flag from then on.
  ghost predicate CellIs<T>(slots: seq<Option<T>>, flags: seq<bool>, q: nat, history: seq<T>, done: set<nat>, j: nat)
    requires |slots| == |flags| == BLOCK_SIZE && j < BLOCK_SIZE
  {
    var index := q * BLOCK_SIZE + j;
    && slots[j] == (if index < |history| && index !in done then Some(history[index]) else None)
    && (Flag(flags, j) <==> index in done)
  }

  ghost predicate CellsAre<T>(slots: seq<Option<T>>, flags: seq<bool>, q: nat, history: seq<T>, done: set<nat>)
    requires |slots| == |flags| == BLOCK_SIZE
  {
    forall j :: 0 <= j < BLOCK_SIZE ==> CellIs(slots, flags, q, history, done, j)
  }

  ghost predicate Holds<T>(b: Block<T>, q: nat, history: seq<T>, done: set<nat>)
    reads b.slots, b.emptyFlags
  {
    b.Valid() && CellsAre(b.slots[..], b.emptyFlags[..], q, history, done)
  }

  ghost predicate AllHold<T>(ring: seq<Block<T>>, first: nat, history: seq<T>, done: set<nat>)
    reads set b | b in ring :: b.slots, set b | b in ring :: b.emptyFlags
  {
    forall i :: 0 <= i < |ring| ==> HoldsAt(ring, first, i, history, done)
  }

  ghost predicate HoldsAt<T>(ring: seq<Block<T>>, first: nat, i: nat, history: seq<T>, done: set<nat>)
    requires i < |ring|
    reads ring[i].slots, ring[i].emptyFlags
  {
    Holds(ring[i], first + i, history, done)
  }

  // The list is circular in the order of the ring.
  ghost predicate Linked<T>(ring: seq<Block<T>>)
    reads set b | b in ring
  {
    forall i :: 0 <= i < |ring| ==> LinkedAt(ring, i)
  }

  ghost predicate LinkedAt<T>(ring: seq<Block<T>>, i: nat)
    requires i < |ring|
    reads ring[i]
  {
    ring[i].next == ring[if i + 1 == |ring| then 0 else i + 1]
  }

  ghost predicate Apart<T>(b: Block<T>, c: Block<T>)
  {
    && b != c
    && b.slots != c.slots
    && b.emptyFlags != c.emptyFlags
    && b.slots as object != c.emptyFlags as object
    && b.emptyFlags as object != c.slots as object
  }

  ghost predicate Separate<T>(ring: seq<Block<T>>)
  {
    forall i, j :: 0 <= i < |ring| && 0 <= j < |ring| && i != j ==> ApartAt(ring, i, j)
  }

  ghost predicate ApartAt<T>(ring: seq<Block<T>>, i: nat, j: nat)
    requires i < |ring| && j < |ring|
  {
    Apart(ring[i], ring[j])
  }

  ghost predicate Owned<T>(b: Block<T>, owner: set<object>)
  {
    b in owner && b.slots in owner && b.emptyFlags in owner
  }

  // A block no element of which has been written is ready for the run of indices from tail on.
  lemma FreshCells<T>(slots: seq<Option<T>>, flags: seq<bool>, q: nat, history: seq<T>, done: set<nat>)
    requires |slots| == |flags| == BLOCK_SIZE
    requires forall j :: 0 <= j < BLOCK_SIZE ==> slots[j] == None && !flags[j]
    requires |history| <= q * BLOCK_SIZE && forall i :: i in done ==> i < |history|
    ensures CellsAre(slots, flags, q, history, done)
  {
    forall j | 0 <= j < BLOCK_SIZE ensures CellIs(slots, flags, q, history, done, j) {}
  }

  // One more element, in this block or another.
  lemma PutCells<T>(slots: seq<Option<T>>, flags: seq<bool>, q: nat, history: seq<T>, done: set<nat>, x: T)
    requires |slots| == |flags| == BLOCK_SIZE && CellsAre(slots, flags, q, history, done)
    requires |history| !in done
    ensures q == |history| / BLOCK_SIZE ==>
              CellsAre(slots[|history| % BLOCK_SIZE := Some(x)], flags, q, history + [x], done)
    ensures q != |history| / BLOCK_SIZE ==> CellsAre(slots, flags, q, history + [x], done)
  {
    var slots' := if q == |history| / BLOCK_SIZE then slots[|history| % BLOCK_SIZE := Some(x)] else slots;
    forall j | 0 <= j < BLOCK_SIZE ensures CellIs(slots', flags, q, history + [x], done, j) {
      assert CellIs(slots, flags, q, history, done, j);
    }
  }

  // Elements taken out of block p, and their flags set; block q may be the same one or another.
  lemma TakeCells<T>(slots: seq<Option<T>>, flags: seq<bool>, slots': seq<Option<T>>, flags': seq<bool>, p: nat,
                     i: nat, count: nat, history: seq<T>, done: set<nat>)
    requires |slots| == |flags| == |slots'| == |flags'| == BLOCK_SIZE && i + count <= BLOCK_SIZE
    requires CellsAre(slots, flags, p, history, done)
    requires forall j :: 0 <= j < BLOCK_SIZE ==> slots'[j] == if i <= j < i + count then None else slots[j]
    requires forall j :: 0 <= j < BLOCK_SIZE ==> (Flag(flags', j) <==> Flag(flags, j) || i <= j < i + count)
    ensures CellsAre(slots', flags', p, history, done + Range(p * BLOCK_SIZE + i, p * BLOCK_SIZE + i + count))
  {
    var done' := done + Range(p * BLOCK_SIZE + i, p * BLOCK_SIZE + i + count);
    forall j | 0 <= j < BLOCK_SIZE ensures CellIs(slots', flags', p, history, done', j) {
      assert CellIs(slots, flags, p, history, done, j);
    }
  }

  // Elements not taken yet are where their indices say.
  lemma LiveCells<T>(slots: seq<Option<T>>, flags: seq<bool>, k: nat, count: nat, history: seq<T>, done: set<nat>)
    requires |slots| == |flags| == BLOCK_SIZE && k % BLOCK_SIZE + count <= BLOCK_SIZE && k + count <= |history|
    requires CellsAre(slots, flags, k / BLOCK_SIZE, history, done)
    requires forall m :: k <= m < k + count ==> m !in done
    ensures forall j :: k % BLOCK_SIZE <= j < k % BLOCK_SIZE + count ==>
              slots[j] == Some(history[k + (j - k % BLOCK_SIZE)])
    ensures forall j :: k % BLOCK_SIZE <= j < k % BLOCK_SIZE + count ==> !Flag(flags, j)
  {
    forall j | k % BLOCK_SIZE <= j < k % BLOCK_SIZE + count
      ensures slots[j] == Some(history[k + (j - k % BLOCK_SIZE)]) && !Flag(flags, j)
    {
      assert CellIs(slots, flags, k / BLOCK_SIZE, history, done, j);
      assert k / BLOCK_SIZE * BLOCK_SIZE + j == k + (j - k % BLOCK_SIZE);
    }
  }

  lemma OtherCells<T>(slots: seq<Option<T>>, flags: seq<bool>, p: nat, i: nat, count: nat, q: nat, history: seq<T>,
                      done: set<nat>)
    requires |slots| == |flags| == BLOCK_SIZE && i + count <= BLOCK_SIZE && p != q
    requires CellsAre(slots, flags, q, history, done)
    ensures CellsAre(slots, flags, q, history, done + Range(p * BLOCK_SIZE + i, p * BLOCK_SIZE + i + count))
  {
    var done' := done + Range(p * BLOCK_SIZE + i, p * BLOCK_SIZE + i + count);
    forall j | 0 <= j < BLOCK_SIZE ensures CellIs(slots, flags, q, history, done', j) {
      assert CellIs(slots, flags, q, history, done, j);
    }
  }

  // The order of the ring after the oldest block has been started again.
  function Rotated<B>(ring: seq<B>): (r: seq<B>)
    requires ring != []
    ensures |r| == |ring| && r[|r| - 1] == ring[0]
  {
    ring[1..] + [ring[0]]
  }

  // Where element i of the rotated ring was before.
  function RotatedFrom<B>(ring: seq<B>, i: nat): (j: nat)
    requires i < |ring|
    ensures j < |ring| && Rotated(ring)[i] == ring[j]
  {
    if i + 1 == |ring| then 0 else i + 1
  }

  lemma RotateRing<T>(ring: seq<Block<T>>, owner: set<object>)
    requires ring != [] && Separate(ring) && AllOwned(ring, owner)
    ensures Separate(Rotated(ring)) && AllOwned(Rotated(ring), owner)
  {
    var r := Rotated(ring);
    forall i | 0 <= i < |r| ensures OwnedAt(r, i, owner) {
      assert OwnedAt(ring, RotatedFrom(ring, i), owner);
    }
    forall i, j | 0 <= i < |r| && 0 <= j < |r| && i != j ensures ApartAt(r, i, j) {
      assert ApartAt(ring, RotatedFrom(ring, i), RotatedFrom(ring, j));
    }
  }

  lemma RotateLinked<T>(ring: seq<Block<T>>)
    requires ring != [] && Linked(ring)
    ensures Linked(Rotated(ring)) && ring[|ring| - 1].next == ring[0]
  {
    var r := Rotated(ring);
    assert LinkedAt(ring, |ring| - 1);
    forall i | 0 <= i < |r| ensures LinkedAt(r, i) {
      assert LinkedAt(ring, RotatedFrom(ring, i));
    }
  }

  // A finished block, started again as block number q.
  method Restart<T>(b: Block<T>, ghost p: nat, ghost q: nat, ghost history: seq<T>, ghost done: set<nat>)
    requires Holds(b, p, history, done)
    requires forall i :: p * BLOCK_SIZE <= i < (p + 1) * BLOCK_SIZE ==> i in done
    requires |history| <= q * BLOCK_SIZE && forall i :: i in done ==> i < |history|
    modifies b.emptyFlags
    ensures Holds(b, q, history, done)
  {
    forall j | 0 <= j < BLOCK_SIZE ensures b.slots[j] == None {
      assert CellIs(b.slots[..], b.emptyFlags[..], p, history, done, j);
    }
    b.ResetEmpty();
    forall j | 0 <= j < BLOCK_SIZE ensures !b.emptyFlags[j] {
      assert !b.Finished(BLOCK_SIZE - 1 - j);
    }
    FreshCells(b.slots[..], b.emptyFlags[..], q, history, done);
  }

  // Restarting the oldest block of a ring leaves the others alone.
  method RestartOldest<T>(b: Block<T>, ghost ring: seq<Block<T>>, ghost first: nat, ghost history: seq<T>,
                          ghost done: set<nat>)
    requires ring != [] && b == ring[0] && Separate(ring) && AllHold(ring, first, history, done)
    requires forall i :: first * BLOCK_SIZE <= i < (first + 1) * BLOCK_SIZE ==> i in done
    requires |history| <= (first + |ring|) * BLOCK_SIZE && forall i :: i in done ==> i < |history|
    modifies b.emptyFlags
    ensures AllHold(Rotated(ring), first + 1, history, done)
  {
    ghost var r := Rotated(ring);
    assert HoldsAt(ring, first, 0, history, done);
    Restart(b, first, first + |ring|, history, done);
    ghost var next := first + 1;
    forall i | 0 <= i < |r| ensures HoldsAt(r, next, i, history, done) {
      if i < |r| - 1 { assert ApartAt(ring, 0, i + 1) && old(HoldsAt(ring, first, i + 1, history, done)); }
    }
  }

  // Both at once: a block from the pool joins the ring behind the tail block.
  method Join<T>(tailBlock: Block?<T>, b: Block<T>, ghost ring: seq<Block<T>>, ghost first: nat,
                 ghost history: seq<T>, ghost done: set<nat>, ghost owner: set<object>)
    requires tailBlock == if ring == [] then null else ring[|ring| - 1]
    requires Linked(ring) && Separate(ring) && AllOwned(ring, owner) && Spare(b, owner)
    requires AllHold(ring, first, history, done)
    requires |history| <= (first + |ring|) * BLOCK_SIZE && forall i :: i in done ==> i < |history|
    modifies b`next, b.emptyFlags, if tailBlock == null then {} else {tailBlock}
    ensures Linked(ring + [b]) && AllHold(ring + [b], first, history, done)
    ensures Separate(ring + [b]) && AllOwned(ring + [b], owner + {b, b.slots, b.emptyFlags})
  {
    AppendRing(ring, owner, b);
    Prepare(b, ring, first, history, done, owner);
    forall i | 0 <= i < |ring| ensures ring[i] != b { assert OwnedAt(ring, i, owner); }
    InsertAfter(tailBlock, b, ring);
  }

  // Constructs the element with the next index in its slot of the last block.
  method Construct<T>(b: Block<T>, x: T, j: nat, ghost ring: seq<Block<T>>, ghost first: nat, ghost history: seq<T>,
                      ghost done: set<nat>)
    requires ring != [] && b == ring[|ring| - 1] && Separate(ring) && AllHold(ring, first, history, done)
    requires |history| / BLOCK_SIZE == first + |ring| - 1 && j == |history| % BLOCK_SIZE && |history| !in done
    modifies b.slots
    ensures AllHold(ring, first, history + [x], done)
  {
    ghost var n := |ring| - 1;
    assert HoldsAt(ring, first, n, history, done);
    PutCells(b.slots[..], b.emptyFlags[..], first + n, history, done, x);
    ghost var slots := b.slots[..][j := Some(x)];
    b.slots[j] := Some(x);
    assert b.slots[..] == slots;
    forall i | 0 <= i < |ring| ensures HoldsAt(ring, first, i, history + [x], done) {
      if i < n {
        assert ApartAt(ring, n, i) && old(HoldsAt(ring, first, i, history, done));
        PutCells(ring[i].slots[..], ring[i].emptyFlags[..], first + i, history, done, x);
      }
    }
  }

  // Moves `count` elements out of one block, from an index on, and marks their slots finished. A single element is
  // marked as dequeue does it, a run as dequeue_bulk does.
  method TakeFromBlock<T>(b: Block<T>, index: nat, count: nat, single: bool, ghost k: nat, ghost history: seq<T>,
                          ghost done: set<nat>)
    returns (items: seq<T>)
    requires Holds(b, k / BLOCK_SIZE, history, done) && index % BLOCK_SIZE == k % BLOCK_SIZE
    requires k % BLOCK_SIZE + count <= BLOCK_SIZE && k + count <= |history| && (single ==> count == 1)
    requires forall m :: k <= m < k + count ==> m !in done
    modifies b.slots, b.emptyFlags
    ensures Holds(b, k / BLOCK_SIZE, history, done + Range(k, k + count))
    ensures items == history[k..k + count]
  {
    ghost var slots, flags := b.slots[..], b.emptyFlags[..];
    var i := index % BLOCK_SIZE;
    LiveCells(slots, flags, k, count, history, done);
    assert forall j :: i <= j < i + count ==> b.slots[j] == slots[j];
    items := b.MoveOut(i, count);
    forall j | 0 <= j < count ensures items[j] == history[k + j] {
      assert slots[i + j] == Some(items[j]);
    }
    assert forall j :: 0 <= j < BLOCK_SIZE ==> b.slots[..][j] == if i <= j < i + count then None else slots[j];
    SetFlags(b, index, count, single, flags);
    TakeCells(slots, flags, b.slots[..], b.emptyFlags[..], k / BLOCK_SIZE, i, count, history, done);
  }

  method SetFlags<T>(b: Block<T>, index: nat, count: nat, single: bool, ghost flags: seq<bool>)
    requires single ==> count == 1
    requires b.Valid() && flags == b.emptyFlags[..] && index % BLOCK_SIZE + count <= BLOCK_SIZE
    requires forall j :: index % BLOCK_SIZE <= j < index % BLOCK_SIZE + count ==> !Flag(flags, j)
    modifies b.emptyFlags
    ensures forall j :: 0 <= j < BLOCK_SIZE ==>
              (Flag(b.emptyFlags[..], j) <==>
               Flag(flags, j) || index % BLOCK_SIZE <= j < index % BLOCK_SIZE + count)
  {
    assert forall j :: 0 <= j < BLOCK_SIZE ==> (b.Finished(j) <==> Flag(flags, j));
    if single {
      b.SetEmpty(index);
    } else {
      b.SetManyEmpty(index, count);
    }
    assert forall j :: 0 <= j < BLOCK_SIZE ==> (b.Finished(j) <==> Flag(b.emptyFlags[..], j));
  }

  method TakeFromRing<T>(b: Block<T>, index: nat, count: nat, single: bool, ghost k: nat, ghost ring: seq<Block<T>>,
                         ghost first: nat, ghost history: seq<T>, ghost done: set<nat>)
    returns (items: seq<T>)
    requires single ==> count == 1
    requires Separate(ring) && AllHold(ring, first, history, done)
    requires first <= k / BLOCK_SIZE < first + |ring| && b == ring[k / BLOCK_SIZE - first]
    requires index % BLOCK_SIZE == k % BLOCK_SIZE && k % BLOCK_SIZE + count <= BLOCK_SIZE && k + count <= |history|
    requires forall m :: k <= m < k + count ==> m !in done
    modifies b.slots, b.emptyFlags
    ensures AllHold(ring, first, history, done + Range(k, k + count))
    ensures items == history[k..k + count]
  {
    ghost var n := k / BLOCK_SIZE - first;
    assert HoldsAt(ring, first, n, history, done);
    items := TakeFromBlock(b, index, count, single, k, history, done);
    ghost var more := done + Range(k, k + count);
    forall i | 0 <= i < |ring| ensures HoldsAt(ring, first, i, history, more) {
      if i != n {
        assert ApartAt(ring, n, i) && old(HoldsAt(ring, first, i, history, done));
        OtherCells(ring[i].slots[..], ring[i].emptyFlags[..], first + n, k % BLOCK_SIZE, count, first + i,
                   history, done);
      }
    }
  }

  ghost predicate AllOwned<T>(ring: seq<Block<T>>, owner: set<object>)
  {
    forall i :: 0 <= i < |ring| ==> OwnedAt(ring, i, owner)
  }

  ghost predicate OwnedAt<T>(ring: seq<Block<T>>, i: nat, owner: set<object>)
    requires i < |ring|
  {
    Owned(ring[i], owner)
  }

  lemma OwnedEach<T>(ring: seq<Block<T>>, owner: set<object>)
    requires AllOwned(ring, owner)
    ensures forall b {:trigger b in ring} :: b in ring ==> Owned(b, owner)
  {
    forall b | b in ring ensures Owned(b, owner) {
      var i :| 0 <= i < |ring| && ring[i] == b;
      assert OwnedAt(ring, i, owner);
    }
  }

  lemma OwnedByMore<T>(ring: seq<Block<T>>, owner: set<object>, more: set<object>)
    requires AllOwned(ring, owner) && owner <= more
    ensures AllOwned(ring, more)
  {
    forall i | 0 <= i < |ring| ensures OwnedAt(ring, i, more) {
      assert OwnedAt(ring, i, owner);
    }
  }

  // A block the pool hands out: not in use anywhere in this sub-queue, and holding no element.
  ghost predicate Spare<T>(b: Block<T>, owner: set<object>)
    reads b.slots
  {
    && b.Valid()
    && b !in owner && b.slots !in owner && b.emptyFlags !in owner
    && forall j :: 0 <= j < BLOCK_SIZE ==> b.slots[j] == None
  }

  ghost function Parts<T>(b: Block?<T>): set<object>
  {
    if b == null then {} else {b, b.slots, b.emptyFlags}
  }

  lemma AppendRing<T>(ring: seq<Block<T>>, owner: set<object>, b: Block<T>)
    requires Separate(ring) && AllOwned(ring, owner)
    requires b !in owner && b.slots !in owner && b.emptyFlags !in owner
    ensures Separate(ring + [b])
    ensures AllOwned(ring + [b], owner + {b, b.slots, b.emptyFlags})
  {
    var r := ring + [b];
    forall i, j | 0 <= i < |r| && 0 <= j < |r| && i != j ensures ApartAt(r, i, j) {
      if i < |ring| { assert OwnedAt(ring, i, owner); }
      if j < |ring| { assert OwnedAt(ring, j, owner); }
      if i < |ring| && j < |ring| { assert ApartAt(ring, i, j); }
    }
    forall i | 0 <= i < |r| ensures OwnedAt(r, i, owner + {b, b.slots, b.emptyFlags}) {
      if i < |ring| { assert OwnedAt(ring, i, owner); }
    }
  }

  method Prepare<T>(b: Block<T>, ghost ring: seq<Block<T>>, ghost first: nat, ghost history: seq<T>,
                    ghost done: set<nat>, ghost owner: set<object>)
    requires AllHold(ring, first, history, done) && AllOwned(ring, owner) && Spare(b, owner)
    requires |history| <= (first + |ring|) * BLOCK_SIZE && forall i :: i in done ==> i < |history|
    modifies b.emptyFlags
    ensures AllHold(ring + [b], first, history, done)
  {
    b.ResetEmpty();
    forall j | 0 <= j < BLOCK_SIZE ensures !b.emptyFlags[j] {
      assert !b.Finished(BLOCK_SIZE - 1 - j);
    }
    FreshCells(b.slots[..], b.emptyFlags[..], first + |ring|, history, done);
    ghost var r := ring + [b];
    forall i | 0 <= i < |r| ensures HoldsAt(r, first, i, history, done) {
      if i < |ring| { assert OwnedAt(ring, i, owner) && old(HoldsAt(ring, first, i, history, done)); }
    }
  }

  // Inserts a block after the tail block of the circular list.
  method InsertAfter<T>(tailBlock: Block?<T>, b: Block<T>, ghost ring: seq<Block<T>>)
    requires tailBlock == if ring == [] then null else ring[|ring| - 1]
    requires Linked(ring) && Separate(ring) && b !in ring
    modifies b`next, if tailBlock == null then {} else {tailBlock}
    ensures Linked(ring + [b])
  {
    if tailBlock == null {
      b.next := b;
    } else {
      b.next := tailBlock.next;
      tailBlock.next := b;
      ghost var r := ring + [b];
      assert old(LinkedAt(ring, |ring| - 1));
      forall i | 0 <= i < |r| ensures LinkedAt(r, i) {
        if i + 1 < |ring| { assert ApartAt(ring, i, |ring| - 1) && old(LinkedAt(ring, i)); }
      }
    }
  }
}
