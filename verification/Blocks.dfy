/** A block of element storage with the two ways of counting finished slots: a flag per slot (explicit
    producers) and a counter (implicit producers). */
module Blocks {
  import opened Basics
  import opened Circular

  class Block<T> {
    // Raw storage is None; a constructed element is Some.
    const slots: array<Option<T>>
    const emptyFlags: array<bool>
    var elementsCompletelyDequeued: nat
    var next: Block?<T>

    // At this block size (a power of two) the explicit context uses flags, one per slot.
    ghost predicate Valid()
    {
      && slots.Length == BLOCK_SIZE
      && emptyFlags.Length == BLOCK_SIZE
      && slots as object != emptyFlags as object
    }

    // Slot j's flag; they are stored back to front.
    ghost predicate Finished(j: nat)
      requires Valid() && j < BLOCK_SIZE
      reads emptyFlags
    {
      emptyFlags[BLOCK_SIZE - 1 - j]
    }

    ghost predicate AllFinished()
      requires Valid()
      reads emptyFlags
    {
      forall j :: 0 <= j < BLOCK_SIZE ==> Finished(j)
    }

    constructor ()
      ensures Valid() && fresh(slots) && fresh(emptyFlags) && next == null
      ensures forall j :: 0 <= j < BLOCK_SIZE ==> slots[j] == None
    {
      slots := new Option<T>[BLOCK_SIZE](_ => None);
      emptyFlags := new bool[BLOCK_SIZE];
      elementsCompletelyDequeued := 0;
      next := null;
    }

    /** is_empty in the explicit context: every slot's flag is set. */
    method IsEmpty() returns (empty: bool)
      requires Valid()
      ensures empty == AllFinished()
    {
      var i := 0;
      while i < BLOCK_SIZE
        invariant 0 <= i <= BLOCK_SIZE
        invariant forall k :: 0 <= k < i ==> emptyFlags[k]
      {
        if !emptyFlags[i] {
          assert !Finished(BLOCK_SIZE - 1 - i);
          return false;
        }
        i := i + 1;
      }
      return true;
    }

    /** set_empty in the explicit context. */
    method SetEmpty(i: nat)
      requires Valid() && !Finished(i % BLOCK_SIZE)
      modifies emptyFlags
      ensures forall j :: 0 <= j < BLOCK_SIZE ==> (Finished(j) <==> old(Finished(j)) || j == i % BLOCK_SIZE)
    {
      emptyFlags[BLOCK_SIZE - 1 - i % BLOCK_SIZE] := true;
    }

    /** set_many_empty in the explicit context: `count` slots from i, within one block. */
    method SetManyEmpty(i: nat, count: nat)
      requires Valid() && i % BLOCK_SIZE + count <= BLOCK_SIZE
      requires forall j :: i % BLOCK_SIZE <= j < i % BLOCK_SIZE + count ==> !Finished(j)
      modifies emptyFlags
      ensures forall j :: 0 <= j < BLOCK_SIZE ==>
                (Finished(j) <==> old(Finished(j)) || i % BLOCK_SIZE <= j < i % BLOCK_SIZE + count)
    {
      var first := BLOCK_SIZE - i % BLOCK_SIZE - count;
      var j := 0;
      while j != count
        invariant 0 <= j <= count
        invariant forall k :: 0 <= k < BLOCK_SIZE ==>
                    (emptyFlags[k] <==> old(emptyFlags[k]) || first <= k < first + j)
      {
        emptyFlags[first + j] := true;
        j := j + 1;
      }
    }

    /** reset_empty in the explicit context. */
    method ResetEmpty()
      requires Valid()
      modifies emptyFlags
      ensures forall j :: 0 <= j < BLOCK_SIZE ==> !Finished(j)
    {
      var i := 0;
      while i != BLOCK_SIZE
        invariant 0 <= i <= BLOCK_SIZE
        invariant forall k :: 0 <= k < i ==> !emptyFlags[k]
      {
        emptyFlags[i] := false;
        i := i + 1;
      }
    }

    /** reset_empty in the implicit context. */
    method ResetCount()
      modifies `elementsCompletelyDequeued
      ensures elementsCompletelyDequeued == 0
    {
      elementsCompletelyDequeued := 0;
    }

    /** set_many_empty in the implicit context: true for the call that completes the count, and for every call with no
        slots on a block whose count is complete. */
    method CountEmpty(count: nat) returns (full: bool)
      requires elementsCompletelyDequeued + count <= BLOCK_SIZE
      modifies `elementsCompletelyDequeued
      ensures elementsCompletelyDequeued == old(elementsCompletelyDequeued) + count
      ensures full <==> elementsCompletelyDequeued == BLOCK_SIZE
      ensures full <==> (old(elementsCompletelyDequeued) < BLOCK_SIZE == elementsCompletelyDequeued) ||
                        (old(elementsCompletelyDequeued) == BLOCK_SIZE && count == 0)
    {
      elementsCompletelyDequeued := elementsCompletelyDequeued + count;
      full := elementsCompletelyDequeued == BLOCK_SIZE;
    }

    /** What a call that claimed no elements does when it has the block in hand already while another call finishes it:
        both are told that they completed the block, so it is handed back twice. */
    method CountTwice(count: nat) returns (first: bool, second: bool)
      requires 0 < count && elementsCompletelyDequeued + count == BLOCK_SIZE
      modifies `elementsCompletelyDequeued
      ensures first && second
    {
      first := CountEmpty(count);
      second := CountEmpty(0);
    }

    /** Moves `count` constructed elements out, from slot i on, leaving raw storage. */
    method MoveOut(i: nat, count: nat) returns (items: seq<T>)
      requires Valid() && i + count <= BLOCK_SIZE
      requires forall j :: i <= j < i + count ==> slots[j].Some?
      modifies slots
      ensures |items| == count
      ensures forall j :: 0 <= j < count ==> old(slots[i + j]) == Some(items[j])
      ensures forall j :: 0 <= j < BLOCK_SIZE ==> slots[j] == if i <= j < i + count then None else old(slots[j])
    {
      items := [];
      var k := i;
      while k != i + count
        invariant i <= k <= i + count && |items| == k - i
        invariant forall j :: 0 <= j < k - i ==> old(slots[i + j]) == Some(items[j])
        invariant forall j :: 0 <= j < BLOCK_SIZE ==> slots[j] == if i <= j < k then None else old(slots[j])
      {
        items := items + [slots[k].value];
        slots[k] := None;
        k := k + 1;
      }
    }
  }
}
