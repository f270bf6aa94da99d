/** ceil_to_pow_2: smearing the highest bit of x - 1 to the right, on 64-bit words. */
module PowerOfTwo {

  const TOP: bv64 := 0x8000_0000_0000_0000

  predicate IsPow2(p: bv64)
  {
    p != 0 && p & (p - 1) == 0
  }

  /** r is the least power of two that is at least x, or 0 when there is none in a word (or x is 0). */
  ghost predicate IsCeil(x: bv64, r: bv64)
  {
    if 1 <= x <= TOP then
      IsPow2(r) && x <= r && forall p: bv64 :: IsPow2(p) && x <= p ==> r <= p
    else
      r == 0
  }

  // m is a run of ones as long as x.
  predicate IsMask(x: bv64, m: bv64)
  {
    m & (m + 1) == 0 && x <= m && if x == 0 then m == 0 else m >> 1 < x
  }

  lemma MaskOfHalf(x: bv64, m: bv64)
    requires x != 0 && IsMask(x >> 1, m)
    ensures IsMask(x, (m << 1) | 1)
  {
  }

  ghost function Mask(x: bv64): (m: bv64)
    ensures IsMask(x, m)
    decreases x
  {
    if x == 0 then 0 else
      var m := Mask(x >> 1);
      MaskOfHalf(x, m);
      (m << 1) | 1
  }

  // r lies within m, and a bit of m is in r unless m also has the bit k places above it.
  predicate Covers(r: bv64, m: bv64, k: bv64)
    requires k <= 32
  {
    r & !m == 0 && m & !(m >> k) & !r == 0
  }

  lemma StartCovers(x: bv64, m: bv64)
    requires IsMask(x, m)
    ensures Covers(x, m, 1)
  {
  }

  // Smearing by k doubles the distance.
  lemma SmearCovers(r: bv64, m: bv64, k: bv64)
    requires k == 1 || k == 2 || k == 4 || k == 8 || k == 16 || k == 32
    requires m & (m + 1) == 0 && Covers(r, m, k)
    ensures k == 32 ==> r | (r >> k) == m
    ensures k < 32 ==> Covers(r | (r >> k), m, k << 1)
  {
    if k == 1 {} else if k == 2 {} else if k == 4 {} else if k == 8 {} else if k == 16 {} else {}
  }

  // Two powers of two with none in between.
  lemma NextPow2(p: bv64, q: bv64)
    requires IsPow2(p) && IsPow2(q) && q >> 1 < p
    ensures q <= p
  {
  }

  lemma MaskPlusOne(x: bv64, m: bv64, r: bv64)
    requires IsMask(x - 1, m) && 1 <= x <= TOP && r == m + 1
    ensures IsPow2(r) && r >> 1 < x <= r
  {
  }

  // For 0 and for words above the last power of two, the mask is all ones.
  lemma MaskIsFull(x: bv64, m: bv64, r: bv64)
    requires IsMask(x - 1, m) && !(1 <= x <= TOP) && r == m + 1
    ensures IsCeil(x, r)
  {
  }

  lemma MaskGivesCeil(x: bv64, m: bv64, r: bv64)
    requires IsMask(x - 1, m) && r == m + 1
    ensures IsCeil(x, r)
  {
    if 1 <= x <= TOP {
      MaskPlusOne(x, m, r);
      CeilIs(x, r);
    } else {
      MaskIsFull(x, m, r);
    }
  }

  lemma CeilIs(x: bv64, r: bv64)
    requires 1 <= x <= TOP && IsPow2(r) && r >> 1 < x <= r
    ensures IsCeil(x, r)
  {
    LeastAbove(x, r);
  }

  lemma LeastAbove(x: bv64, r: bv64)
    requires IsPow2(r) && r >> 1 < x
    ensures forall p: bv64 :: IsPow2(p) && x <= p ==> r <= p
  {
    forall p: bv64 | IsPow2(p) && x <= p ensures r <= p { NextPow2(p, r); }
  }

  // x |= x >> k
  method Smear(r: bv64, k: bv64, ghost m: bv64) returns (r': bv64)
    requires k == 1 || k == 2 || k == 4 || k == 8 || k == 16 || k == 32
    requires m & (m + 1) == 0 && Covers(r, m, k)
    ensures k == 32 ==> r' == m
    ensures k < 32 ==> Covers(r', m, k << 1)
  {
    SmearCovers(r, m, k);
    r' := r | (r >> k);
  }

  method SmearNibble(r: bv64, ghost m: bv64) returns (r': bv64)
    requires m & (m + 1) == 0 && Covers(r, m, 1)
    ensures Covers(r', m, 8)
  {
    r' := Smear(r, 1, m);
    r' := Smear(r', 2, m);
    r' := Smear(r', 4, m);
  }

  method SmearBytes(r: bv64, ghost m: bv64) returns (r': bv64)
    requires m & (m + 1) == 0 && Covers(r, m, 8)
    ensures r' == m
  {
    r' := r;
    var i: bv64 := 1;
    while i < 8
      invariant i == 1 || i == 2 || i == 4 || i == 8
      invariant if i == 8 then r' == m else Covers(r', m, i << 3)
      decreases 8 - i
    {
      r' := Smear(r', i << 3, m);
      i := i << 1;
    }
  }

  /** The least power of two that is at least x, for every x from 1 to 2^63, and 0 for the others. */
  method CeilToPow2(x: bv64) returns (r: bv64)
    ensures IsCeil(x, r)
  {
    r := x - 1;
    ghost var m := Mask(r);
    StartCovers(r, m);
    r := SmearNibble(r, m);
    r := SmearBytes(r, m);
    MaskGivesCeil(x, m, r + 1);
    r := r + 1;
  }
}
