/** Polynomials over GF(2), their product without carries, and division by the polynomial that AES reduces by. */
module Polynomials {
  import opened Bytes

  // A polynomial over GF(2) of degree 15 at most.
  type Poly = bv16

  function Add(p: Poly, q: Poly): Poly
  {
    p ^ q
  }

  function Double(p: Poly): Poly
  {
    p << 1
  }

  // The product of polynomials: no carries, no reduction.
  function Carryless(p: Poly, q: Poly): Poly
    decreases p
  {
    if p == 0 then 0 else Add(if p & 1 != 0 then q else 0, Double(Carryless(p >> 1, q)))
  }

  // The reduction polynomial of section 4.2 of FIPS 197: x^8 + x^4 + x^3 + x + 1.
  const MODULUS: Poly := 0x11b

  function Wide(r: byte): Poly
  {
    r as Poly
  }

  // p divided by MODULUS is q, and r is left, a polynomial of degree 7 at most. Nothing overflows.
  predicate Divided(p: Poly, q: Poly, r: byte)
  {
    q < 0x100 && p == Add(Carryless(MODULUS, q), Wide(r))
  }

  // The product with MODULUS, written out.
  function Multiple(q: Poly): Poly
  {
    (q << 8) ^ (q << 4) ^ (q << 3) ^ (q << 1) ^ q
  }

  lemma Odd(p: Poly, h: Poly, q: Poly)
    requires p >> 1 == h && p & 1 != 0 && p != 0
    ensures Carryless(p, q) == Add(q, Double(Carryless(h, q)))
  {
  }

  lemma Even(p: Poly, h: Poly, q: Poly)
    requires p >> 1 == h && p & 1 == 0 && p != 0
    ensures Carryless(p, q) == Double(Carryless(h, q))
  {
    AddZero(Double(Carryless(h, q)));
  }

  lemma Unrolled(q: Poly)
    ensures var top := Double(Double(Double(Double(Add(q, Double(0))))));
            Add(q, Double(Add(q, Double(Double(Add(q, Double(Add(q, top)))))))) == Multiple(q)
  {
  }

  lemma MultipleIs(q: Poly)
    ensures Carryless(MODULUS, q) == Multiple(q)
  {
    Odd(0x1, 0, q);
    Even(0x2, 0x1, q);
    Even(0x4, 0x2, q);
    Even(0x8, 0x4, q);
    Odd(0x11, 0x8, q);
    Odd(0x23, 0x11, q);
    Even(0x46, 0x23, q);
    Odd(0x8d, 0x46, q);
    Odd(0x11b, 0x8d, q);
    Unrolled(q);
  }

  lemma AddAssociates(p: Poly, q: Poly, r: Poly)
    ensures Add(Add(p, q), r) == Add(p, Add(q, r))
  {
  }

  lemma AddSwapped(p: Poly, q: Poly, r: Poly)
    ensures Add(p, Add(q, r)) == Add(q, Add(p, r))
  {
  }

  lemma AddSwap(p: Poly, q: Poly, r: Poly, t: Poly)
    ensures Add(Add(p, q), Add(r, t)) == Add(Add(p, r), Add(q, t))
  {
    AddAssociates(p, q, Add(r, t));
    AddAssociates(p, r, Add(q, t));
    AddSwapped(q, r, t);
  }

  lemma AddZero(p: Poly)
    ensures Add(p, 0) == p && Add(0, p) == p && Add(p, p) == 0 && Double(0) == 0
  {
  }

  lemma DoublePlus(p: Poly, q: Poly)
    ensures Double(Add(p, q)) == Add(Double(p), Double(q))
  {
  }

  // The product is additive in its second factor.
  lemma {:induction false} CarrylessPlus(p: Poly, q: Poly, r: Poly)
    ensures Carryless(p, Add(q, r)) == Add(Carryless(p, q), Carryless(p, r))
    decreases p
  {
    AddZero(0);
    if p != 0 {
      var a, b := Carryless(p >> 1, q), Carryless(p >> 1, r);
      CarrylessPlus(p >> 1, q, r);
      DoublePlus(a, b);
      AddSwap(if p & 1 != 0 then q else 0, Double(a), if p & 1 != 0 then r else 0, Double(b));
    }
  }

  lemma {:induction false} CarrylessDouble(p: Poly, q: Poly)
    ensures Carryless(p, Double(q)) == Double(Carryless(p, q))
    decreases p
  {
    AddZero(0);
    if p != 0 {
      CarrylessDouble(p >> 1, q);
      DoublePlus(if p & 1 != 0 then q else 0, Double(Carryless(p >> 1, q)));
    }
  }

  // A multiple has degree 8 at least.
  lemma MultipleIsLarge(q: Poly)
    requires 0 < q < 0x100
    ensures Multiple(q) >= 0x100
  {
  }
  lemma WidePlus(r: byte, t: byte)
    ensures Add(Wide(r), Wide(t)) == Wide(r ^ t)
  {
  }

  lemma {:induction false} CarrylessZero(p: Poly)
    ensures Carryless(p, 0) == 0
    decreases p
  {
    AddZero(0);
    if p != 0 { CarrylessZero(p >> 1); }
  }

  lemma CarrylessOne()
    ensures Carryless(MODULUS, 1) == MODULUS
  {
    MultipleIs(1);
  }

  lemma CarrylessFromBelow(p: Poly, q: Poly)
    ensures Carryless(p, q) == Add(if p & 1 != 0 then q else 0, Double(Carryless(p >> 1, q)))
  {
    AddZero(0);
  }

  lemma Small(q: Poly, p: Poly)
    requires q < 0x100 && p < 0x100
    ensures Add(q, p) < 0x100
  {
  }

  lemma SameSum(p: Poly, q: Poly, r: Poly, t: Poly)
    requires Add(p, q) == Add(r, t)
    ensures Add(p, r) == Add(q, t)
  {
    AddZero(Add(p, q));
    AddSwap(p, q, r, t);
    OnlyItself(Add(p, r), Add(q, t));
  }

  lemma OnlyItself(p: Poly, q: Poly)
    requires Add(p, q) == 0
    ensures p == q
  {
  }

  /** Quotient and remainder are unique. */
  lemma OneRemainder(p: Poly, q: Poly, r: byte, q': Poly, r': byte)
    requires Divided(p, q, r) && Divided(p, q', r')
    ensures q == q' && r == r'
  {
    var d := Add(q, q');
    SameSum(Carryless(MODULUS, q), Wide(r), Carryless(MODULUS, q'), Wide(r'));
    CarrylessPlus(MODULUS, q, q');
    MultipleIs(d);
    Small(q, q');
    Small(Wide(r), Wide(r'));
    if d != 0 { MultipleIsLarge(d); }
    OnlyItself(q, q');
    MultipleIs(0);
    OnlyItself(Wide(r), Wide(r'));
  }
}
