/** Arithmetic on index words that wrap around. */
module Circular {
  import opened Basics

  // index_t and size_t are 64 bits wide.
  const MOD: int := 0x1_0000_0000_0000_0000
  const HALF: int := 0x8000_0000_0000_0000

  // An integer cut down to a word by whole turns.
  function Word(x: int): (w: nat)
    ensures w < MOD
    decreases x < 0, if x < 0 then -x else x
  {
    if x < 0 then Word(x + MOD) else if x < MOD then x else Word(x - MOD)
  }

  // What a word leaves out is a number of whole turns.
  lemma {:induction false} TurnsIn(x: int) returns (k: int)
    ensures Word(x) == x - k * MOD
    decreases x < 0, if x < 0 then -x else x
  {
    if x < 0 {
      k := TurnsIn(x + MOD);
      k := k - 1;
    } else if x < MOD {
      k := 0;
    } else {
      k := TurnsIn(x - MOD);
      k := k + 1;
    }
  }

  lemma WordIsRemainder(x: int)
    ensures Word(x) == x % MOD
  {
    var k := TurnsIn(x);
    RemainderIs(x, k, Word(x));
  }

  lemma RemainderIs(x: int, k: int, w: int)
    requires 0 <= w < MOD && x == k * MOD + w
    ensures x % MOD == w
  {
  }

  // circular_less_than on two words.
  predicate CircularLess(a: int, b: int)
  {
    Word(a - b) > HALF
  }

  /** On the words of two unbounded indices whose gap fits in half the range, the circular comparison is
      the unbounded one; at a gap of exactly half it is false both ways round. */
  lemma CircularLessIsLess(a: int, b: int)
    requires -HALF <= b - a <= HALF
    ensures CircularLess(Word(a), Word(b)) <==> a < b && b - a != HALF
  {
    WordOfDifference(a, b);
    assert Word(a - b) == if a >= b then a - b else a - b + MOD;
  }

  /** Outside half the range the comparison turns round, so the bound on the gap is exact. */
  lemma CircularLessTurnsRound(a: int, b: int)
    requires HALF < b - a < MOD
    ensures !CircularLess(Word(a), Word(b)) && CircularLess(Word(b), Word(a))
  {
    WordOfDifference(a, b);
    WordOfDifference(b, a);
    assert Word(a - b) == a - b + MOD;
    assert Word(b - a) == b - a;
  }

  // Whole turns do not show in a word.
  lemma WordTurns(x: int, k: int)
    ensures Word(x + k * MOD) == Word(x)
  {
    WordIsRemainder(x);
    WordIsRemainder(x + k * MOD);
  }

  lemma WordOfDifference(a: int, b: int)
    ensures Word(Word(a) - Word(b)) == Word(a - b)
    ensures Word(Word(a) - b) == Word(a - b) && Word(a - Word(b)) == Word(a - b)
  {
    var k := TurnsIn(a);
    var l := TurnsIn(b);
    WordTurns(a - b, l - k);
    WordTurns(a - b, -k);
    WordTurns(a - b, l);
  }

  lemma WordOfSum(a: int, b: int)
    ensures Word(Word(a) + Word(b)) == Word(a + b)
    ensures Word(Word(a) + b) == Word(a + b) && Word(a + Word(b)) == Word(a + b)
  {
    var k := TurnsIn(a);
    var l := TurnsIn(b);
    WordTurns(a + b, -k - l);
    WordTurns(a + b, -k);
    WordTurns(a + b, -l);
  }

  /* ---- Powers of two ---- */

  function Exp2(e: nat): nat
  {
    if e == 0 then 1 else 2 * Exp2(e - 1)
  }

  lemma {:induction false} Exp2Positive(e: nat)
    ensures Exp2(e) > 0
  {
    if e > 0 { Exp2Positive(e - 1); }
  }

  lemma {:induction false} Exp2Sum(d: nat, e: nat)
    ensures Exp2(d + e) == Exp2(d) * Exp2(e)
  {
    if d > 0 {
      Exp2Sum(d - 1, e);
    }
  }

  /* ---- Finding a block from an index ---- */

  const BLOCK_SIZE: nat := 32
  const BLOCKS_BITS: nat := 59      // 2^59 blocks of 32 slots make up the range of a word

  // The unsigned quotient the program computes: the cast to a signed type is undone by dividing by a size_t.
  function BlockOffset(base: int, headBase: int): (o: nat)
  {
    Word(base - headBase) / BLOCK_SIZE
  }

  // `back` places before `i` in a ring of `size`.
  function Back(i: nat, back: nat, size: nat): (j: int)
    requires i < size && back <= size
    ensures 0 <= j < size
  {
    if i >= back then i - back else i + size - back
  }

  lemma BackTwice(i: nat, b: nat, c: nat, size: nat)
    requires i < size && b + c <= size
    ensures Back(Back(i, b, size), c, size) == Back(i, b + c, size)
  {
  }

  // Going forward by a multiple of the ring less `back` is going back by `back`.
  lemma RingSteps(front: nat, back: nat, size: nat, turns: nat, all: nat)
    requires front < size && back < size && turns > 0 && all == turns * size
    ensures all >= size && (front + all - back) % size == Back(front, back, size)
  {
    ProductAtLeast(turns, size);
    if front >= back {
      ModIs(front + all - back, turns, front - back, size);
    } else {
      assert (turns - 1) * size == turns * size - size;
      ModIs(front + all - back, turns - 1, front + size - back, size);
    }
  }

  const BLOCKS: int := 0x800_0000_0000_0000

  // A smaller power of two divides the number of blocks.
  lemma TurnsOf(e: nat) returns (turns: nat)
    requires e <= BLOCKS_BITS
    ensures turns > 0 && BLOCKS == turns * Exp2(e)
  {
    turns := Exp2(BLOCKS_BITS - e);
    Exp2Sum(BLOCKS_BITS - e, e);
    Exp2Blocks();
    Exp2Positive(BLOCKS_BITS - e);
  }

  lemma OffsetOf(base: int, headBase: int, back: nat)
    requires headBase - base == back * BLOCK_SIZE && back < BLOCKS
    ensures BlockOffset(Word(base), Word(headBase)) == if back == 0 then 0 else BLOCKS - back
  {
    WordOfDifference(base, headBase);
    assert Word(base - headBase) == if back == 0 then 0 else MOD - back * BLOCK_SIZE;
  }

  /** The slot formula steps back one entry per block although its division is unsigned, because the ring
      size is a power of two that divides the number of blocks in the range of a word. */
  lemma SlotFormula(front: nat, size: nat, e: nat, base: int, headBase: int, back: nat)
    requires e <= BLOCKS_BITS && size == Exp2(e) && front < size && back < size
    requires headBase - base == back * BLOCK_SIZE
    ensures (front + BlockOffset(Word(base), Word(headBase))) % size == Back(front, back, size)
  {
    var turns := TurnsOf(e);
    RingSteps(front, back, size, turns, BLOCKS);
    OffsetOf(base, headBase, back);
    if back == 0 {
      ModIs(front, 0, front, size);
    }
  }

  lemma ProductAtLeast(a: nat, b: nat)
    requires a > 0
    ensures a * b >= b
  {
  }

  lemma Exp2Blocks()
    ensures Exp2(BLOCKS_BITS) == BLOCKS
  {
    assert Exp2(10) == 1024;
    Exp2Sum(10, 10);
    Exp2Sum(20, 20);
    Exp2Sum(40, 10);
    assert Exp2(9) == 512;
    Exp2Sum(50, 9);
  }
}
