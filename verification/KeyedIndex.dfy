/** The block index of an implicit producer: a ring of pointers to entries that carry a block's first index as key.
    Consumers clear an entry's value when its block is finished; a cleared entry can be keyed again. */
module KeyedIndex {
  import opened Circular
  import opened Blocks
  import opened BlockRing

  // An odd number is no block's first index.
  const INVALID_BLOCK_BASE: nat := 1
  const MAX_BITS: nat := 57

  class Entry<T> {
    var key: nat
    var value: Block?<T>

    // The value of a new entry is whatever the memory held.
    constructor ()
      ensures key == INVALID_BLOCK_BASE
    {
      key := INVALID_BLOCK_BASE;
    }
  }

  ghost predicate Free<T>(e: Entry<T>)
    reads e
  {
    e.key == INVALID_BLOCK_BASE || e.value == null
  }

  // Entry i of the window, oldest first: block number first + i, or null once that block is finished.
  ghost predicate SlotAt<T>(es: seq<Entry<T>>, t: nat, win: seq<Block?<T>>, first: nat, i: nat)
    requires t < |es| && i < |win| <= |es|
    reads es[Back(t, |win| - 1 - i, |es|)]
  {
    var e := es[Back(t, |win| - 1 - i, |es|)];
    e.key == Word((first + i) * BLOCK_SIZE) && e.value == win[i]
  }

  ghost predicate Window<T>(es: seq<Entry<T>>, t: nat, win: seq<Block?<T>>, first: nat)
    requires t < |es| && |win| <= |es|
    reads set e | e in es
  {
    forall i :: 0 <= i < |win| ==> SlotAt(es, t, win, first, i)
  }

  ghost predicate FreeAt<T>(es: seq<Entry<T>>, t: nat, d: nat)
    requires t < |es| && d < |es|
    reads es[Back(t, d, |es|)]
  {
    Free(es[Back(t, d, |es|)])
  }

  // The entries from n to end steps behind t are free.
  ghost predicate Outside<T>(es: seq<Entry<T>>, t: nat, n: nat, end: nat)
    requires t < |es| && end <= |es|
    reads set e | e in es
  {
    forall d :: n <= d < end ==> FreeAt(es, t, d)
  }

  ghost predicate DistinctAt<T>(es: seq<Entry<T>>, i: nat, j: nat)
    requires i < |es| && j < |es|
  {
    es[i] != es[j]
  }

  ghost predicate Distinct<T>(es: seq<Entry<T>>)
  {
    forall i, j :: 0 <= i < |es| && 0 <= j < |es| && i != j ==> DistinctAt(es, i, j)
  }

  ghost function PointerSet<T>(es: seq<Entry<T>>): set<object>
  {
    set e | e in es
  }

  // Different steps back lead to different entries.
  lemma BackDiffers<T>(es: seq<Entry<T>>, t: nat, c: nat, d: nat)
    requires Distinct(es) && t < |es| && c < |es| && d < |es| && c != d
    ensures es[Back(t, c, |es|)] != es[Back(t, d, |es|)]
  {
    assert DistinctAt(es, Back(t, c, |es|), Back(t, d, |es|));
  }

  lemma BaseIsEven(q: nat)
    ensures Word(q * BLOCK_SIZE) != INVALID_BLOCK_BASE
  {
    var k := TurnsIn(q * BLOCK_SIZE);
  }

  // What the index was, laid out afresh in front of free entries.
  lemma LaidOut<T>(es: seq<Entry<T>>, t: nat, win: seq<Block?<T>>, first: nat, es': seq<Entry<T>>)
    requires t < |es| < |es'| && |win| <= |es|
    requires Window(es, t, win, first) && Outside(es, t, |win|, |es|)
    requires forall d :: 0 <= d < |es| ==> es'[|es| - 1 - d] == es[Back(t, d, |es|)]
    requires forall j :: |es| <= j < |es'| ==> Free(es'[j])
    ensures Window(es', |es| - 1, win, first) && Outside(es', |es| - 1, |win|, |es'|)
  {
    var c, t' := |es|, |es| - 1;
    forall i | 0 <= i < |win| ensures SlotAt(es', t', win, first, i) {
      var d := |win| - 1 - i;
      assert es'[c - 1 - d] == es[Back(t, d, c)];
      assert SlotAt(es, t, win, first, i);
    }
    forall d | |win| <= d < |es'| ensures FreeAt(es', t', d) {
      if d < c {
        assert es'[c - 1 - d] == es[Back(t, d, c)];
        assert FreeAt(es, t, d);
      }
    }
  }

  class KeyedIndex<T> {
    var index: array?<Entry<T>>
    var indexTail: nat
    var nextCapacity: nat

    ghost var win: seq<Block?<T>>   // the blocks the index still knows of
    ghost var first: nat            // the number of the oldest of them
    ghost var bits: nat
    ghost var Repr: set<object>

    ghost predicate Shape()
      reads this, Repr
    {
      && this in Repr && bits <= MAX_BITS
      && (index == null ==> win == [] && nextCapacity == Exp2(bits))
      && (index != null ==>
            && index in Repr && nextCapacity == 2 * index.Length && index.Length == Exp2(bits)
            && indexTail < index.Length && |win| <= index.Length
            && Distinct(index[..]) && PointerSet(index[..]) <= Repr)
    }

    ghost function Entries(): set<object>
      reads this, index
    {
      if index == null then {} else PointerSet(index[..])
    }

    ghost predicate Valid()
      reads this, Repr
    {
      && Shape()
      && (index != null ==>
            Window(index[..], indexTail, win, first) && Outside(index[..], indexTail, |win|, index.Length))
    }

    // The entry in front of the window carries the next block's key; its value is not yet the block.
    ghost predicate Pending()
      reads this, Repr
    {
      && Shape()
      && index != null && |win| < index.Length
      && index[indexTail] in PointerSet(index[..])
      && index[indexTail].key == Word((first + |win|) * BLOCK_SIZE)
      && Window(index[..], Back(indexTail, 1, index.Length), win, first)
      && Outside(index[..], Back(indexTail, 1, index.Length), |win|, index.Length - 1)
    }

    // Whether the entry in front of the window can be keyed: it is outside the window, or its block is finished.
    ghost predicate Room()
      requires index != null
      reads this
    {
      |win| < index.Length || (win != [] && win[0] == null)
    }

    lemma NextIsFree()
      requires Valid() && index != null
      ensures Free(index[Next(indexTail, index.Length)]) <==> Room()
    {
      var es, c := index[..], index.Length;
      assert Back(indexTail, c - 1, c) == Next(indexTail, c);
      if |win| < c {
        assert FreeAt(es, indexTail, c - 1);
      } else {
        assert SlotAt(es, indexTail, win, first, 0);
        BaseIsEven(first);
      }
    }

    // Keys the entry in front of the window; the oldest block leaves the window if its entry is the one.
    method KeyNext(key: nat) returns (entry: Entry<T>)
      requires Valid() && index != null && Room() && key == Word((first + |win|) * BLOCK_SIZE)
      modifies `indexTail, `win, `first, index[Next(indexTail, index.Length)]
      ensures Pending() && entry == index[indexTail]
      ensures win == old(if |win| == index.Length then win[1..] else win) && first + |win| == old(first + |win|)
    {
      ghost var es, c, t := index[..], index.Length, indexTail;
      ghost var w, f := if |win| == c then win[1..] else win, if |win| == c then first + 1 else first;
      forall i | 0 <= i < |w| ensures SlotAt(es, t, w, f, i) {
        assert SlotAt(es, t, win, first, if |win| == c then i + 1 else i);
      }
      indexTail := After(indexTail, index.Length);
      entry := index[indexTail];
      entry.key := key;
      win, first := w, f;
      assert Back(t, c - 1, c) == indexTail && Back(indexTail, 1, c) == t;
      forall i | 0 <= i < |w| ensures SlotAt(es, t, w, f, i) {
        BackDiffers(es, t, c - 1, |w| - 1 - i);
      }
      forall d | |w| <= d < c - 1 ensures FreeAt(es, t, d) {
        BackDiffers(es, t, c - 1, d);
        assert old(FreeAt(es, t, d));
      }
    }

    /** The new block goes into the entry that was keyed for it. */
    method Commit(entry: Entry<T>, b: Block<T>)
      requires Pending() && entry == index[indexTail]
      modifies `win, entry`value
      ensures Valid() && win == old(win) + [b]
    {
      ghost var es, c, t, w := index[..], index.Length, indexTail, win + [b];
      ghost var p := Back(t, 1, c);
      entry.value := b;
      win := w;
      forall i | 0 <= i < |w| ensures SlotAt(es, t, w, first, i) {
        if i < |w| - 1 {
          BackTwice(t, 1, |w| - 2 - i, c);
          BackDiffers(es, t, 0, |w| - 1 - i);
          assert old(SlotAt(es, p, win, first, i));
        }
      }
      forall d | |w| <= d < c ensures FreeAt(es, t, d) {
        BackTwice(t, 1, d - 1, c);
        BackDiffers(es, t, 0, d);
        assert old(FreeAt(es, p, d - 1));
      }
    }

    /** rewind_block_index_tail, and the entry cleared: no block was to be had. */
    method Abandon(entry: Entry<T>)
      requires Pending() && entry == index[indexTail]
      modifies `indexTail, entry`value
      ensures Valid()
    {
      ghost var es, c, t := index[..], index.Length, indexTail;
      ghost var p := Back(t, 1, c);
      indexTail := Before(indexTail, 1, index.Length);
      entry.value := null;
      assert Back(p, c - 1, c) == t;
      forall i | 0 <= i < |win| ensures SlotAt(es, p, win, first, i) {
        BackDiffers(es, p, c - 1, |win| - 1 - i);
        assert old(SlotAt(es, p, win, first, i));
      }
      forall d | |win| <= d < c ensures FreeAt(es, p, d) {
        if d < c - 1 {
          BackDiffers(es, p, c - 1, d);
          assert old(FreeAt(es, p, d));
        }
      }
    }

    /** A consumer has emptied block number first + i. */
    method Clear(entry: Entry<T>, ghost i: nat)
      requires Valid() && index != null && i < |win| && entry == index[Back(indexTail, |win| - 1 - i, index.Length)]
      modifies `win, entry`value
      ensures Valid() && win == old(win)[i := null]
    {
      ghost var es, c, t := index[..], index.Length, indexTail;
      entry.value := null;
      win := win[i := null];
      forall j | 0 <= j < |win| ensures SlotAt(es, t, win, first, j) {
        if j != i { BackDiffers(es, t, |win| - 1 - i, |win| - 1 - j); }
        assert old(SlotAt(es, t, win, first, j));
      }
      forall d | |win| <= d < c ensures FreeAt(es, t, d) {
        BackDiffers(es, t, |win| - 1 - i, d);
        assert old(FreeAt(es, t, d));
      }
    }

    /** get_block_index_index_for_index: the slot of the block that an index lies in. */
    method Find(blockBase: nat, ghost q: nat) returns (slot: nat)
      requires Valid() && first <= q < first + |win| && blockBase == Word(q * BLOCK_SIZE)
      ensures index != null && slot == Back(indexTail, first + |win| - 1 - q, index.Length)
      ensures index[slot].key == blockBase && index[slot].value == win[q - first]
    {
      ghost var es, last := index[..], first + |win| - 1;
      assert SlotAt(es, indexTail, win, first, |win| - 1);
      assert SlotAt(es, indexTail, win, first, q - first);
      SlotFormula(indexTail, index.Length, bits, q * BLOCK_SIZE, last * BLOCK_SIZE, last - q);
      slot := (indexTail + BlockOffset(blockBase, index[indexTail].key)) % index.Length;
    }

    // The pointers of the old index, from the one in front of its tail round to the tail.
    method OldPointers() returns (pointers: seq<Entry<T>>)
      requires index != null && indexTail < index.Length
      ensures |pointers| == index.Length
      ensures forall d :: 0 <= d < index.Length ==> 
                pointers[index.Length - 1 - d] == index[Back(indexTail, d, index.Length)]
    {
      pointers := [];
      var pos := indexTail;
      var more := true;
      while more
        invariant |pointers| <= index.Length && (more <==> |pointers| < index.Length)
        invariant pos == Back(indexTail, index.Length - |pointers|, index.Length)
        invariant forall j :: 0 <= j < |pointers| ==>
                    pointers[j] == index[Back(indexTail, index.Length - 1 - j, index.Length)]
        decreases index.Length - |pointers|
      {
        pos := After(pos, index.Length);
        pointers := pointers + [index[pos]];
        more := pos != indexTail;
      }
    }

    // `count` new entries behind the old ones, none of them keyed.
    method NewPointers(old': seq<Entry<T>>, count: nat) returns (pointers: seq<Entry<T>>)
      requires Distinct(old')
      ensures |pointers| == |old'| + count && Distinct(pointers)
      ensures forall j :: 0 <= j < |old'| ==> pointers[j] == old'[j]
      ensures forall j :: |old'| <= j < |pointers| ==> fresh(pointers[j]) && pointers[j].key == INVALID_BLOCK_BASE
    {
      pointers := old';
      var i := 0;
      while i != count
        invariant i <= count && |pointers| == |old'| + i && Distinct(pointers)
        invariant forall j :: 0 <= j < |old'| ==> pointers[j] == old'[j]
        invariant forall j :: |old'| <= j < |pointers| ==> fresh(pointers[j]) && pointers[j].key == INVALID_BLOCK_BASE
      {
        var e := new Entry<T>();
        ghost var before := pointers;
        pointers := pointers + [e];
        forall j, k | 0 <= j < |pointers| && 0 <= k < |pointers| && j != k ensures DistinctAt(pointers, j, k) {
          if j < |before| && k < |before| { assert DistinctAt(before, j, k); }
        }
        i := i + 1;
      }
    }

    // The pointers of an index twice as large.
    method MorePointers() returns (pointers: seq<Entry<T>>)
      requires Valid() && index != null
      ensures |pointers| == 2 * index.Length && Distinct(pointers)
      ensures forall d :: 0 <= d < index.Length ==> 
                pointers[index.Length - 1 - d] == index[Back(indexTail, d, index.Length)]
      ensures forall j :: index.Length <= j < |pointers| ==> fresh(pointers[j]) && Free(pointers[j])
      ensures forall p :: p in pointers ==> p in Repr || fresh(p)
    {
      ghost var es, c, t := index[..], index.Length, indexTail;
      pointers := OldPointers();
      forall i, j | 0 <= i < |pointers| && 0 <= j < |pointers| && i != j ensures DistinctAt(pointers, i, j) {
        BackDiffers(es, t, c - 1 - i, c - 1 - j);
      }
      forall i | 0 <= i < |pointers| ensures pointers[i] in Repr {
        assert pointers[c - 1 - (c - 1 - i)] == es[Back(t, c - 1 - i, c)];
      }
      pointers := NewPointers(pointers, index.Length);
    }

    method LayOut(pointers: seq<Entry<T>>, t: nat)
      requires this in Repr && bits <= MAX_BITS && t < |pointers| == nextCapacity == Exp2(bits)
      requires |win| < |pointers| && Distinct(pointers)
      requires Window(pointers, t, win, first) && Outside(pointers, t, |win|, |pointers|)
      modifies `index, `indexTail, `nextCapacity, `Repr
      ensures Valid() && index != null && fresh(index) && index.Length == |pointers|
      ensures Repr == old(Repr) + {index} + PointerSet(pointers)
    {
      index := new Entry<T>[|pointers|](i requires 0 <= i < |pointers| => pointers[i]);
      indexTail := t;
      nextCapacity := 2 * |pointers|;
      Repr := Repr + {index} + PointerSet(pointers);
      assert index[..] == pointers;
    }

    /** new_block_index: doubles the index. The old entries come first, in order and with the tail last, and the
        new ones are free. */
    method Grow(memory: bool) returns (ok: bool)
      requires Valid() && (memory && index != null ==> bits < MAX_BITS)
      modifies `index, `indexTail, `nextCapacity, `bits, `Repr
      ensures Valid() && ok == memory
      ensures old(Repr) <= Repr && fresh(Repr - old(Repr))
      ensures ok ==> index != null && fresh(index) && index.Length == old(nextCapacity) && |win| < index.Length
      ensures !ok ==> index == old(index) && Repr == old(Repr)
    {
      ok := memory;
      if memory {
        Exp2Positive(bits);
        if index == null {
          var pointers := NewPointers([], nextCapacity);
          var t := Before(0, 1, nextCapacity);
          LayOut(pointers, t);
        } else {
          var pointers := MorePointers();
          LaidOut(index[..], indexTail, win, first, pointers);
          bits := bits + 1;
          var t := Before(index.Length, 1, nextCapacity);
          LayOut(pointers, t);
        }
      }
    }

    constructor (memory: bool, ghost e: nat, capacity: nat)
      requires e <= MAX_BITS && capacity == Exp2(e)
      ensures Valid() && win == [] && first == 0 && fresh(Repr) && (index != null <==> memory)
    {
      index, indexTail, nextCapacity := null, 0, capacity;
      win, first, bits, Repr := [], 0, e, {this};
      new;
      var ok := Grow(memory);
    }

    /** insert_block_index_entry: an entry for the next block is keyed exactly when the index exists and has room or
        can be doubled. */
    method Insert(key: nat, memory: bool) returns (ok: bool, entry: Entry?<T>)
      requires Valid() && key == Word((first + |win|) * BLOCK_SIZE) && (memory ==> bits < MAX_BITS)
      modifies Repr
      ensures ok == old(index != null && (Room() || memory))
      ensures if ok then Pending() && entry == index[indexTail] else Valid() && win == old(win)
      ensures first + |win| == old(first + |win|)
      ensures win == old(if index != null && |win| == index.Length && Room() then win[1..] else win)
      ensures old(Repr) <= Repr && fresh(Repr - old(Repr))
    {
      ok, entry := false, null;
      if index != null {
        NextIsFree();
        var newTail := After(indexTail, index.Length);
        if index[newTail].key == INVALID_BLOCK_BASE || index[newTail].value == null {
          ok := true;
        } else {
          ok := Grow(memory);
          if ok { NextIsFree(); }
        }
        if ok {
          entry := KeyNext(key);
        }
      }
    }
  }
}
