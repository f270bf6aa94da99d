/** The sub-queue of an explicit producer: a circular list of blocks, found through a circular index that doubles
    when it is full. It is proved to be a FIFO sequence of elements. */
module ExplicitProducer {
  import opened Basics
  import opened Circular
  import opened Blocks
  import opened BlockRing
  import opened ProducerBase
  import opened BlockStorage

  // Neither 2^58 index entries nor 2^58 blocks fit in a 64-bit address space.
  const MAX_BITS: nat := 58
  const MAX_BLOCKS: nat := 0x400_0000_0000_0000

  class ExplicitProducer<T> {
    const base: ProducerBase
    var tailBlock: Block?<T>
    // The block index: the header that consumers see, and the producer's own copies.
    var entries: array?<Entry<Block?<T>>>
    var front: nat
    var slotsUsed: nat
    var indexSize: nat
    var indexFront: nat

    ghost var history: seq<T>       // every element ever enqueued
    ghost var done: set<nat>        // indices whose element has been taken out
    ghost var ring: seq<Block<T>>   // oldest block first
    ghost var blocks: nat           // blocks started so far, counting each reuse
    ghost var sizeBits: nat
    ghost var Repr: set<object>

    /** An empty sub-queue; its index has room for 2^bits blocks if the allocator has the memory, and is tried
        again by the first enqueue if not. */
    constructor (memory: bool, ghost bits: nat, size: nat)
      requires 0 < bits <= MAX_BITS && size == Exp2(bits)
      ensures Valid() && Contents() == [] && base.tickets == 0 && done == {} && fresh(Repr)
      ensures entries != null <==> memory
    {
      tailBlock, slotsUsed := null, 0;
      indexSize, indexFront, entries, front := size / 2, 0, null, 0;
      base := new ProducerBase();
      history, done, ring, blocks, sizeBits, Repr := [], {}, [], 0, bits - 1, {this, base};
      new;
      var ok := NewBlockIndex(memory);
    }

    ghost predicate Counters()
      reads this, base
    {
      && base in Repr && base.Valid() && base.tail == |history|
      && (forall i :: i in done ==> i < base.head)
    }

    // The number of the oldest block in the ring.
    ghost function First(): int
      reads this
    {
      blocks - |ring|
    }

    ghost predicate Ring()
      reads this, base
    {
      && this in Repr
      && 0 <= First()
      && (ring == [] ==> blocks == 0)
      && |ring| < MAX_BLOCKS
      && AllOwned(ring, Repr)
      && Separate(ring)
      && tailBlock == (if ring == [] then null else ring[|ring| - 1])
      && slotsUsed == |ring|
      && base.tail <= blocks * BLOCK_SIZE <= base.tail + BLOCK_SIZE
      // Only finished blocks have left the ring.
      && (forall i :: 0 <= i < First() * BLOCK_SIZE ==> i in done)
    }

    ghost predicate Indexed()
      requires 0 <= First()
      reads this, entries
    {
      && sizeBits <= MAX_BITS && indexSize == Exp2(sizeBits)
      && (entries == null ==> ring == [] && sizeBits < MAX_BITS && indexFront == 0)
      && (entries != null ==>
            && entries in Repr
            && entries.Length == indexSize && indexFront < indexSize && |ring| <= indexSize
            && IndexIs(entries[..], indexFront, ring, First())
            && (ring != [] ==> front == Back(indexFront, 1, indexSize)))
    }

    // The block list, the counters and what the blocks hold.
    ghost predicate Listed()
      reads this, base, Repr
    {
      && Counters()
      && Ring()
      && (OwnedEach(ring, Repr);
          Linked(ring) && AllHold(ring, First(), history, done))
    }

    ghost predicate Core()
      reads this, base, Repr, entries
    {
      Listed() && Indexed()
    }

    // The index knows of the blocks in `kept`, and is yet to be told of the last one.
    ghost predicate Unpublished(kept: seq<Block<T>>)
      requires 0 <= First()
      reads this, entries
    {
      && ring == kept + [tailBlock]
      && sizeBits <= MAX_BITS && indexSize == Exp2(sizeBits)
      && entries != null && entries in Repr
      && entries.Length == indexSize && indexFront < indexSize && |ring| <= indexSize
      && IndexIs(entries[..], indexFront, kept, First())
    }

    ghost predicate Valid()
      reads this, base, Repr, entries
    {
      Core() && blocks * BLOCK_SIZE < base.tail + BLOCK_SIZE
    }

    /** The abstract queue. */
    ghost function Contents(): seq<T>
      reads this, base
      requires base.head <= base.tail <= |history|
    {
      history[base.head..base.tail]
    }

    /* ---- Enqueue ---- */

    // Every slot of the oldest block has been dequeued.
    ghost predicate OldestFinished()
      reads this
    {
      ring != [] && 0 <= First() &&
      forall i :: First() * BLOCK_SIZE <= i < (First() + 1) * BLOCK_SIZE ==> i in done
    }

    // Tail block full, so that the next element starts a block.
    ghost predicate Full()
      reads this, base
    {
      base.tail == blocks * BLOCK_SIZE
    }

    lemma OldestFlags()
      requires Core() && ring != []
      ensures ring[0].Valid() && (ring[0].AllFinished() <==> OldestFinished())
    {
      var b := ring[0];
      assert HoldsAt(ring, First(), 0, history, done);
      forall j | 0 <= j < BLOCK_SIZE ensures b.Finished(j) <==> First() * BLOCK_SIZE + j in done {
        assert CellIs(b.slots[..], b.emptyFlags[..], First(), history, done, j);
      }
      if b.AllFinished() {
        forall i | First() * BLOCK_SIZE <= i < (First() + 1) * BLOCK_SIZE ensures i in done {
          assert b.Finished(i - First() * BLOCK_SIZE);
        }
      }
    }

    // The block index entry for the block that has just become the tail block.
    method PublishEntry(blockBase: nat, ghost kept: seq<Block<T>>)
      requires 0 <= First() && Unpublished(kept) && blockBase == Word((blocks - 1) * BLOCK_SIZE)
      modifies `front, `indexFront, entries
      ensures Indexed()
    {
      Publish<Block?<T>>(entries[..], indexFront, kept, First(), tailBlock);
      entries[indexFront] := Entry(blockBase, tailBlock);
      front := indexFront;
      indexFront := After(indexFront, indexSize);
    }

    method PublishBlock(blockBase: nat, ghost kept: seq<Block<T>>)
      requires Listed() && Unpublished(kept) && blockBase == Word((blocks - 1) * BLOCK_SIZE)
      modifies `front, `indexFront, entries
      ensures Core()
    {
      PublishEntry(blockBase, kept);
      forall i | 0 <= i < |ring| ensures HoldsAt(ring, First(), i, history, done) {
        assert entries as object !in {ring[i].slots, ring[i].emptyFlags};
        assert old(HoldsAt(ring, First(), i, history, done));
      }
    }

    // Every element of the oldest block has been dequeued; it becomes the tail block once more.
    method ReuseBlock()
      requires Listed() && Full() && OldestFinished()
      modifies `tailBlock, `ring, `blocks, ring[0].emptyFlags
      ensures Listed() && blocks == old(blocks) + 1
      ensures ring == Rotated(old(ring))
    {
      ghost var r, f := ring, First();
      RotateRing(r, Repr);
      RotateLinked(r);
      tailBlock := tailBlock.next;
      RestartOldest(tailBlock, r, f, history, done);
      ring, blocks := Rotated(r), blocks + 1;
      assert First() == f + 1;
    }

    // The next block still holds unfinished slots, so one from the pool goes in between.
    method InsertBlock(b: Block<T>)
      requires Listed() && Full() && |ring| + 1 < MAX_BLOCKS && Spare(b, Repr)
      modifies `tailBlock, `slotsUsed, `ring, `blocks, `Repr, b`next, b.emptyFlags,
               TailParts()
      ensures Listed() && blocks == old(blocks) + 1
      ensures ring == old(ring) + [b] && Repr == old(Repr) + {b, b.slots, b.emptyFlags}
    {
      ghost var r, f := ring, First();
      Join(tailBlock, b, r, f, history, done, Repr);
      tailBlock := b;
      slotsUsed := slotsUsed + 1;
      ring, blocks, Repr := r + [b], blocks + 1, Repr + {b, b.slots, b.emptyFlags};
      assert First() == f;
    }

    // The entries in use, oldest first, at the start of an index twice as large.
    method CopyEntries() returns (newEntries: array<Entry<Block?<T>>>, j: nat)
      requires 0 <= First() && slotsUsed == |ring| <= indexSize
      requires slotsUsed > 0 ==> entries != null && entries.Length == indexSize && indexFront < indexSize
      requires slotsUsed > 0 ==> IndexIs(entries[..], indexFront, ring, First())
      ensures fresh(newEntries) && newEntries.Length == 2 * indexSize && j == |ring|
      ensures forall k :: 0 <= k < j ==> newEntries[k].base == Word((First() + k) * BLOCK_SIZE)
      ensures forall k :: 0 <= k < j ==> newEntries[k].block == ring[k]
    {
      newEntries := new Entry<Block?<T>>[2 * indexSize](_ => Entry(0, null));
      j := 0;
      if slotsUsed != 0 {
        var i := Before(indexFront, slotsUsed, indexSize);
        var more := true;
        while more
          invariant j <= slotsUsed && (more <==> j < slotsUsed)
          invariant i == Back(indexFront, slotsUsed - j, indexSize)
          invariant forall k :: 0 <= k < j ==> newEntries[k].base == Word((First() + k) * BLOCK_SIZE)
          invariant forall k :: 0 <= k < j ==> newEntries[k].block == ring[k]
          decreases slotsUsed - j
        {
          assert EntryIs<Block?<T>>(entries[..], indexFront, ring, First(), j);
          newEntries[j] := entries[i];
          j := j + 1;
          i := After(i, indexSize);
          more := i != indexFront;
        }
      }
    }

    /** new_block_index: doubles the index, copying the entries in use to its start. False when the allocator
        has no memory. */
    method NewBlockIndex(memory: bool) returns (ok: bool)
      requires 0 <= First() && slotsUsed == |ring| < MAX_BLOCKS && Indexed()
      requires memory ==> sizeBits < MAX_BITS
      modifies `entries, `front, `indexSize, `indexFront, `sizeBits, `Repr
      ensures Indexed() && ok == memory
      ensures !ok ==> entries == old(entries) && indexSize == old(indexSize) && Repr == old(Repr)
      ensures ok ==> entries != null && fresh(entries) && indexSize == 2 * old(indexSize)
      ensures ok ==> Repr == old(Repr) + {entries} && |ring| < indexSize
    {
      if !memory {
        return false;
      }
      var newEntries, j := CopyEntries();
      Exp2Positive(sizeBits);
      Copied<Block?<T>>(newEntries[..], ring, First());
      indexSize := 2 * indexSize;
      front := Word(slotsUsed - 1);
      indexFront := j;
      entries := newEntries;
      sizeBits := sizeBits + 1;
      Repr := Repr + {newEntries};
      return true;
    }

    // Everything before the ring is finished, so the head cannot lag behind it.
    lemma Gap()
      requires Counters() && Ring()
      ensures blocks * BLOCK_SIZE - base.head <= |ring| * BLOCK_SIZE < HALF
    {
      if First() > 0 { assert First() * BLOCK_SIZE - 1 in done; }
    }

    // Whether a new block can be had without reusing the oldest one.
    ghost predicate CanInsert(spare: Block?<T>, memory: bool)
      reads this, base
    {
      && spare != null && base.tail + BLOCK_SIZE - base.head < HALF
      && (memory || (entries != null && slotsUsed < indexSize))
    }

    // Makes sure that the block ahead is empty before it is used again.
    method NextIsEmpty() returns (empty: bool)
      requires Core()
      ensures empty == OldestFinished()
    {
      empty := false;
      if tailBlock != null {
        assert LinkedAt(ring, |ring| - 1) && HoldsAt(ring, First(), 0, history, done);
        OldestFlags();
        empty := tailBlock.next.IsEmpty();
      }
    }

    method IndexRoom(memory: bool) returns (ok: bool)
      requires Core() && (memory ==> sizeBits < MAX_BITS)
      modifies `entries, `front, `indexSize, `indexFront, `sizeBits, `Repr
      ensures Core() && old(Repr) <= Repr && fresh(Repr - old(Repr))
      ensures ok == (memory || old(entries != null && slotsUsed < indexSize))
      ensures ok ==> entries != null && slotsUsed < indexSize
    {
      ok := true;
      if entries == null || slotsUsed == indexSize {
        ok := NewBlockIndex(memory);
        OwnedByMore(ring, old(Repr), Repr);
      }
    }

    method InsertIndexed(b: Block<T>)
      requires Core() && Full() && |ring| + 1 < MAX_BLOCKS && Spare(b, Repr)
      requires entries != null && slotsUsed < indexSize
      modifies `tailBlock, `slotsUsed, `ring, `blocks, `Repr, b`next, b.emptyFlags,
               TailParts()
      ensures Listed() && Unpublished(old(ring)) && blocks == old(blocks) + 1
      ensures ring == old(ring) + [b] && Repr == old(Repr) + {b, b.slots, b.emptyFlags}
    {
      InsertBlock(b);
    }

    ghost function TailParts(): set<object>
      reads this
    {
      if tailBlock == null then {} else {tailBlock}
    }

    // Room in the index and a block from the pool.
    method TakeSpare(spare: Block?<T>, memory: bool) returns (ok: bool)
      requires Core() && Full() && (memory ==> sizeBits < MAX_BITS)
      requires spare != null ==> Spare(spare, Repr) && |ring| + 1 < MAX_BLOCKS
      modifies this, Parts(spare), TailParts()
      ensures unchanged(base, `history, `done)
      ensures ok == old(CanInsert(spare, memory))
      ensures ok ==> Listed() && Unpublished(old(ring)) && blocks == old(blocks) + 1 && ring == old(ring) + [spare]
      ensures !ok ==> Core() && Full() && ring == old(ring)
      ensures fresh(Repr - old(Repr) - Parts(spare))
    {
      Gap();
      ok := base.Leeway();
      if ok {
        ok := IndexRoom(memory);
      }
      if ok {
        if spare != null {
          InsertIndexed(spare);
        } else {
          ok := false;
        }
      }
    }

    method ReuseIndexed()
      requires Core() && Full() && OldestFinished()
      modifies `tailBlock, `ring, `blocks, ring[0].emptyFlags
      ensures Listed() && Unpublished(old(ring)[1..]) && blocks == old(blocks) + 1
      ensures ring == Rotated(old(ring))
    {
      assert entries as object != ring[0].emptyFlags;
      Forget<Block?<T>>(entries[..], indexFront, ring, First());
      ReuseBlock();
    }

    /** The start of a block in enqueue: reuse the oldest block exactly when all its slots are finished, else
        insert one from the pool behind the base.tail block. */
    method StartBlock(spare: Block?<T>, memory: bool) returns (ok: bool)
      requires Core() && Full() && (memory ==> sizeBits < MAX_BITS)
      requires spare != null ==> Spare(spare, Repr) && |ring| + 1 < MAX_BLOCKS
      modifies Repr, Parts(spare)
      ensures unchanged(base, `history, `done)
      ensures Core() && ok == old(OldestFinished() || CanInsert(spare, memory))
      ensures if ok then blocks == old(blocks) + 1 else Full() && ring == old(ring)
      ensures ok ==> ring == old(if OldestFinished() then Rotated(ring) else ring + [spare])
      ensures fresh(Repr - old(Repr) - Parts(spare))
    {
      var reuse := NextIsEmpty();
      ghost var kept := if reuse then ring[1..] else ring;
      if reuse {
        assert OwnedAt(ring, 0, Repr);
        ReuseIndexed();
        ok := true;
      } else {
        if ring != [] { assert OwnedAt(ring, |ring| - 1, Repr); }
        ok := TakeSpare(spare, memory);
        if !ok {
          return;
        }
      }
      PublishBlock(base.tailIndex, kept);
    }

    // The element, then the index that shows it to consumers.
    method Put(x: T)
      requires Core() && base.tail < blocks * BLOCK_SIZE
      modifies base`tailIndex, base`tail, `history, tailBlock.slots
      ensures Core() && history == old(history) + [x] && Contents() == old(Contents()) + [x]
    {
      Gap();
      PlaceOf(base.tail, blocks);
      AppendBehind(history, base.head, x);
      assert entries == null || entries as object != tailBlock.slots;
      Construct(tailBlock, x, base.tailIndex % BLOCK_SIZE, ring, First(), history, done);
      base.AdvanceTail();
      history := history + [x];
      assert AllHold(ring, First(), history, done);
    }

    /** enqueue: the element goes to the back of the queue. It fails, changing nothing a consumer can see, exactly
        when a block is needed, the oldest one is not finished, and no other can be had. */
    method Enqueue(x: T, spare: Block?<T>, memory: bool) returns (ok: bool)
      requires Valid() && (memory ==> sizeBits < MAX_BITS)
      requires spare != null ==> Spare(spare, Repr) && |ring| + 1 < MAX_BLOCKS
      modifies Repr, Parts(spare)
      ensures Valid() && ok == old(!Full() || OldestFinished() || CanInsert(spare, memory))
      ensures history == if ok then old(history) + [x] else old(history)
      ensures Contents() == if ok then old(Contents()) + [x] else old(Contents())
      ensures unchanged(`done) && base.head == old(base.head) && base.tickets == old(base.tickets)
      ensures ok && old(Full()) ==> ring == old(if OldestFinished() then Rotated(ring) else ring + [spare])
      ensures !ok || !old(Full()) ==> ring == old(ring)
      ensures fresh(Repr - old(Repr) - Parts(spare))
    {
      ok := true;
      PlaceOf(base.tail, blocks);
      var boundary := base.AtBoundary();
      if boundary {
        ok := StartBlock(spare, memory);
      }
      if ok {
        assert OwnedAt(ring, |ring| - 1, Repr);
        Put(x);
      }
    }

    /* ---- Dequeue ---- */

    // Finds the index slot of the block that a claimed index lies in.
    method FindSlot(index: nat, ghost k: nat) returns (slot: nat)
      requires Ring() && Indexed() && index == Word(k) && First() * BLOCK_SIZE <= k < blocks * BLOCK_SIZE
      ensures entries != null && slot == Back(indexFront, blocks - k / BLOCK_SIZE, indexSize)
    {
      var headBase := entries[front].base;
      var blockBase := index - index % BLOCK_SIZE;
      slot := (front + BlockOffset(blockBase, headBase)) % indexSize;
      BaseOf(k);
      Lookup<Block?<T>>(entries[..], indexFront, ring, First(), sizeBits, k / BLOCK_SIZE);
    }

    // The block of the ring that index k lies in.
    ghost function BlockOf(k: nat): Block<T>
      requires First() * BLOCK_SIZE <= k < blocks * BLOCK_SIZE
      reads this
    {
      ring[k / BLOCK_SIZE - First()]
    }

    // Takes a run of claimed elements out of the block in one slot of the index.
    method Finish(slot: nat, index: nat, count: nat, single: bool, ghost k: nat) returns (items: seq<T>)
      requires single ==> count == 1
      requires Core() && First() * BLOCK_SIZE <= k < blocks * BLOCK_SIZE && entries != null
      requires slot == Back(indexFront, blocks - k / BLOCK_SIZE, indexSize)
      requires index % BLOCK_SIZE == k % BLOCK_SIZE && k % BLOCK_SIZE + count <= BLOCK_SIZE && k + count <= base.head
      requires forall m :: k <= m < k + count ==> m !in done
      modifies `done, BlockOf(k).slots, BlockOf(k).emptyFlags
      ensures Core() && items == history[k..k + count] && done == old(done) + Range(k, k + count)
    {
      var b := BlockAt(slot, k);
      assert entries as object !in {b.slots, b.emptyFlags};
      items := TakeFromRing(b, index, count, single, k, ring, First(), history, done);
      done := done + Range(k, k + count);
      assert AllHold(ring, First(), history, done);
    }

    method BlockAt(slot: nat, ghost k: nat) returns (b: Block<T>)
      requires Ring() && Indexed() && First() * BLOCK_SIZE <= k < blocks * BLOCK_SIZE && entries != null
      requires slot == Back(indexFront, blocks - k / BLOCK_SIZE, indexSize)
      ensures b == BlockOf(k)
    {
      assert EntryIs<Block?<T>>(entries[..], indexFront, ring, First(), k / BLOCK_SIZE - First());
      b := entries[slot].block;
    }

    ghost function Storage(): set<object>
      reads this
    {
      (set b | b in ring :: b.slots as object) + (set b | b in ring :: b.emptyFlags as object)
    }

    // A run in one block, and the slot of the next block.
    method TakeInBlock(slot: nat, index: nat, count: nat, ghost m: nat) returns (items: seq<T>, nextSlot: nat)
      requires Core() && First() * BLOCK_SIZE <= m < blocks * BLOCK_SIZE && entries != null
      requires slot == Back(indexFront, blocks - m / BLOCK_SIZE, indexSize)
      requires index == Word(m) && m % BLOCK_SIZE + count <= BLOCK_SIZE && m + count <= base.head
      requires forall i :: m <= i < m + count ==> i !in done
      modifies `done, Storage()
      ensures Core() && items == history[m..m + count] && done == old(done) + Range(m, m + count)
      ensures m / BLOCK_SIZE + 1 < blocks ==> nextSlot == Back(indexFront, blocks - 1 - m / BLOCK_SIZE, indexSize)
    {
      BaseOf(m);
      items := Finish(slot, index, count, false, m);
      nextSlot := After(slot, indexSize);
    }

    // One block of a run of claimed elements.
    method TakeStep(slot: nat, index: nat, stop: nat, ghost m: nat, ghost s: nat)
      returns (items: seq<T>, nextSlot: nat, end: nat)
      requires Core() && First() * BLOCK_SIZE <= m < blocks * BLOCK_SIZE && entries != null
      requires slot == Back(indexFront, blocks - m / BLOCK_SIZE, indexSize)
      requires index == Word(m) && stop == Word(s) && m <= s < m + HALF && s <= base.head
      requires forall i :: m <= i < s ==> i !in done
      modifies `done, Storage()
      ensures Core() && end == Word(EndInBlock(m, s))
      ensures items == history[m..EndInBlock(m, s)] && done == old(done) + Range(m, EndInBlock(m, s))
      ensures EndInBlock(m, s) < s ==> nextSlot == Back(indexFront, blocks - EndInBlock(m, s) / BLOCK_SIZE, indexSize)
      ensures end == stop <==> EndInBlock(m, s) == s
    {
      var count;
      end, count := StepEnd(index, stop, m, s);
      items, nextSlot := TakeInBlock(slot, index, count, m);
    }

    /** The block loop of dequeue_bulk: takes out a whole run of claimed elements, block by block. */
    method TakeBlocks(firstSlot: nat, firstIndex: nat, stop: nat, ghost k: nat, ghost s: nat)
      returns (items: seq<T>)
      requires Core() && First() * BLOCK_SIZE <= k < blocks * BLOCK_SIZE && entries != null
      requires firstSlot == Back(indexFront, blocks - k / BLOCK_SIZE, indexSize)
      requires firstIndex == Word(k) && stop == Word(s) && k <= s < k + HALF && s <= base.head
      requires forall i :: k <= i < s ==> i !in done
      modifies `done, Storage()
      ensures Core() && items == history[k..s] && done == old(done) + Range(k, s)
    {
      items := [];
      var slot, index := firstSlot, firstIndex;
      ghost var m := k;
      var more := true;
      while more
        invariant Core() && k <= m <= s && index == Word(m) && (m < s ==> more)
        invariant items == history[k..m] && done == old(done) + Range(k, m)
        invariant more ==> m < blocks * BLOCK_SIZE && slot == Back(indexFront, blocks - m / BLOCK_SIZE, indexSize)
        decreases more, s - m
      {
        JoinSlices(history, k, m, EndInBlock(m, s));
        JoinRanges(old(done), k, m, EndInBlock(m, s));
        var some;
        some, slot, index := TakeStep(slot, index, stop, m, s);
        items := items + some;
        m := EndInBlock(m, s);
        more := index != stop;
      }
    }

    /** Takes out a run of claimed elements: dequeue_bulk once its counters have moved. A claim of no elements must have
        been made inside the ring. */
    method TakeRun(firstIndex: nat, count: nat, ghost k: nat) returns (items: seq<T>)
      requires Valid() && firstIndex == Word(k)
      requires count == 0 ==> First() * BLOCK_SIZE <= k < blocks * BLOCK_SIZE
      requires k + count <= base.head && count < HALF && forall m :: k <= m < k + count ==> m !in done
      modifies `done, Storage()
      ensures Valid() && items == history[k..k + count] && done == old(done) + Range(k, k + count)
    {
      if count > 0 { InRing(k); }
      var slot := FindSlot(firstIndex, k);
      WordOfSum(k, count);
      items := TakeBlocks(slot, firstIndex, Word(firstIndex + count), k, k + count);
    }

    /** Takes out one claimed element, whatever else has been claimed or finished meanwhile. */
    method Take(index: nat, ghost k: nat) returns (x: T)
      requires Valid() && index == Word(k) && k < base.head && k !in done
      modifies `done, Storage()
      ensures Valid() && x == history[k] && done == old(done) + Range(k, k + 1)
    {
      InRing(k);
      var slot := FindSlot(index, k);
      BaseOf(k);
      var items := Finish(slot, index, 1, true, k);
      x := items[0];
    }

    // The claims of dequeue and dequeue_bulk, which leave the storage alone.
    method ClaimFront() returns (ok: bool, index: nat)
      requires Valid() && base.tickets == 0
      modifies base
      ensures Valid() && base.tickets == 0 && base.tail == old(base.tail) && ok == old(base.head < base.tail)
      ensures base.head == old(base.head) + (if ok then 1 else 0) && (ok ==> index == Word(old(base.head)))
    {
      ok, index := base.Claim();
    }

    method ClaimFronts(max: nat) returns (ok: bool, firstIndex: nat, count: nat)
      requires Valid() && base.tickets == 0
      modifies base
      ensures Valid() && base.tickets == 0 && base.tail == old(base.tail) && ok == old(base.head < base.tail)
      ensures count == old(if max < base.tail - base.head then max else base.tail - base.head)
      ensures base.head == old(base.head) + count && (ok ==> firstIndex == Word(old(base.head))) && count < HALF
    {
      Gap();
      ok, firstIndex, count := base.ClaimMany(max);
    }

    /** dequeue, with no other consumer under way: the front element, whenever there is one. */
    method Dequeue() returns (x: Option<T>)
      requires Valid() && base.tickets == 0 && done == Range(0, base.head)
      modifies base, `done, Storage()
      ensures Valid() && base.tickets == 0 && done == Range(0, base.head)
      ensures x == if old(Contents()) == [] then None else Some(old(Contents())[0])
      ensures Contents() == if old(Contents()) == [] then [] else old(Contents())[1..]
    {
      ghost var k := base.head;
      JoinRanges({}, 0, k, k + 1);
      var ok, index := ClaimFront();
      x := None;
      if ok {
        var taken := Take(index, k);
        x := Some(taken);
      }
    }

    // The next index to be claimed lies in the ring.
    lemma InRing(k: nat)
      requires Core() && k !in done && k < base.tail
      ensures First() * BLOCK_SIZE <= k < blocks * BLOCK_SIZE
    {
    }

    /** dequeue_bulk, with no other consumer under way: up to `max` elements from the front, in order. */
    method DequeueMany(max: nat) returns (items: seq<T>)
      requires Valid() && base.tickets == 0 && done == Range(0, base.head)
      modifies base, `done, Storage()
      ensures Valid() && base.tickets == 0 && done == Range(0, base.head)
      ensures |items| == if max < |old(Contents())| then max else |old(Contents())|
      ensures old(Contents()) == items + Contents()
    {
      ghost var k := base.head;
      var ok, firstIndex, count := ClaimFronts(max);
      items := [];
      if ok {
        items := TakeFront(firstIndex, count, k);
      }
    }

    // Takes out the run that has just been claimed, when all before it is taken out.
    method TakeFront(firstIndex: nat, count: nat, ghost k: nat) returns (items: seq<T>)
      requires Valid() && firstIndex == Word(k) && done == Range(0, k) && k < base.tail
      requires k + count == base.head && count < HALF
      modifies `done, Storage()
      ensures Valid() && done == Range(0, base.head) && |items| == count
      ensures history[k..base.tail] == items + Contents()
    {
      InRing(k);
      items := TakeRun(firstIndex, count, k);
      JoinRanges({}, 0, k, k + count);
      JoinSlices(history, k, k + count, base.tail);
    }
  }
}
