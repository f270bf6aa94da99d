/** The byte arithmetic of AES: multiplication modulo x^8 + x^4 + x^3 + x + 1, and the substitution tables. */
module Gf256 {
  import opened Bytes
  import opened Polynomials

  /* ---- Addition ---- */

  function Plus(a: byte, b: byte): byte
  {
    a ^ b
  }

  function Plus4(a: byte, b: byte, c: byte, d: byte): byte
  {
    Plus(Plus(a, b), Plus(c, d))
  }

  lemma Swap(t: byte, u: byte, v: byte, w: byte)
    ensures Plus(Plus(t, u), Plus(v, w)) == Plus(Plus(t, v), Plus(u, w))
  {
    PlusAssociates(t, u, Plus(v, w));
    PlusAssociates(t, v, Plus(u, w));
    PlusSwapped(u, v, w);
  }

  lemma PlusSwapped(u: byte, v: byte, w: byte)
    ensures Plus(u, Plus(v, w)) == Plus(v, Plus(u, w))
  {
  }

  lemma PlusAssociates(a: byte, b: byte, c: byte)
    ensures Plus(Plus(a, b), c) == Plus(a, Plus(b, c))
  {
  }

  lemma PlusTwice(a: byte, b: byte)
    ensures Plus(Plus(a, b), b) == a
  {
  }

  lemma PlusZero(a: byte)
    ensures Plus(a, 0) == a && Plus(0, a) == a
  {
  }

  /* ---- Multiplication ---- */

  // Multiplication by x; x^8 is reduced to x^4 + x^3 + x + 1.
  function XTime(b: byte): byte
  {
    var carry := b >> 7;
    (b << 1) ^ (carry << 4) ^ (carry << 3) ^ (carry << 1) ^ carry
  }

  lemma XTimePlus(a: byte, b: byte)
    ensures XTime(Plus(a, b)) == Plus(XTime(a), XTime(b))
  {
  }

  // Multiplication by x^n.
  function XTimes(b: byte, n: nat): byte
    decreases n, b
  {
    if n == 0 then b else XTime(XTimes(b, n - 1))
  }

  lemma {:induction false} XTimesPlus(a: byte, b: byte, n: nat)
    ensures XTimes(Plus(a, b), n) == Plus(XTimes(a, n), XTimes(b, n))
  {
    if n > 0 {
      XTimesPlus(a, b, n - 1);
      XTimePlus(XTimes(a, n - 1), XTimes(b, n - 1));
    }
  }

  lemma {:induction false} XTimesTurns(b: byte, n: nat)
    ensures XTimes(XTime(b), n) == XTimes(b, n + 1)
  {
    if n > 0 { XTimesTurns(b, n - 1); }
  }

  // The coefficient of x^n.
  predicate IsSet(a: byte, n: nat)
    decreases n, a
  {
    if n == 0 then a & 1 != 0 else IsSet(a >> 1, n - 1)
  }

  lemma Halves(a: byte, c: byte)
    ensures Plus(a, c) >> 1 == Plus(a >> 1, c >> 1)
    ensures Plus(a, c) & 1 != 0 <==> (a & 1 != 0) != (c & 1 != 0)
  {
  }

  lemma {:induction false} IsSetPlus(a: byte, c: byte, n: nat)
    ensures IsSet(Plus(a, c), n) <==> IsSet(a, n) != IsSet(c, n)
    decreases n
  {
    Halves(a, c);
    if n > 0 {
      IsSetPlus(a >> 1, c >> 1, n - 1);
    }
  }

  function Term(a: byte, b: byte, n: nat): byte
  {
    if IsSet(a, n) then XTimes(b, n) else 0
  }

  // The sum of the terms of a, up to x^n, times b.
  function Sum(a: byte, b: byte, n: nat): byte
    decreases n, a, b
  {
    if n == 0 then 0 else Plus(Sum(a, b, n - 1), Term(a, b, n - 1))
  }

  /** gmult: the product of two polynomials over GF(2), reduced. */
  function GMult(a: byte, b: byte): byte
  {
    Sum(a, b, 8)
  }

  lemma TermLeft(a: byte, c: byte, b: byte, n: nat)
    ensures Term(Plus(a, c), b, n) == Plus(Term(a, b, n), Term(c, b, n))
  {
    IsSetPlus(a, c, n);
  }

  lemma {:induction false} SumLeft(a: byte, c: byte, b: byte, n: nat)
    ensures Sum(Plus(a, c), b, n) == Plus(Sum(a, b, n), Sum(c, b, n))
  {
    if n > 0 {
      SumLeft(a, c, b, n - 1);
      TermLeft(a, c, b, n - 1);
      Swap(Sum(a, b, n - 1), Sum(c, b, n - 1), Term(a, b, n - 1), Term(c, b, n - 1));
    }
  }

  lemma TermRight(a: byte, b: byte, c: byte, n: nat)
    ensures Term(a, Plus(b, c), n) == Plus(Term(a, b, n), Term(a, c, n))
  {
    XTimesPlus(b, c, n);
  }

  lemma {:induction false} SumRight(a: byte, b: byte, c: byte, n: nat)
    ensures Sum(a, Plus(b, c), n) == Plus(Sum(a, b, n), Sum(a, c, n))
  {
    if n > 0 {
      SumRight(a, b, c, n - 1);
      TermRight(a, b, c, n - 1);
      Swap(Sum(a, b, n - 1), Sum(a, c, n - 1), Term(a, b, n - 1), Term(a, c, n - 1));
    }
  }

  function PowerOfX(n: nat): byte
    requires n < 8
  {
    if n == 0 then 1 else if n == 1 then 2 else if n == 2 then 4 else if n == 3 then 8
    else if n == 4 then 16 else if n == 5 then 32 else if n == 6 then 64 else 128
  }

  lemma IsSetIs(a: byte, n: nat)
    requires n < 8
    ensures IsSet(a, n) <==> a & PowerOfX(n) != 0
  {
    assert IsSet(a, 0) <==> a & 0x01 != 0;
    assert IsSet(a, 1) <==> IsSet(a >> 1, 0);
    assert IsSet(a, 2) <==> IsSet(a >> 1, 1);
  }

  lemma {:induction false} SumOfPower(i: nat, b: byte, n: nat)
    requires i < 8 && n <= 8
    ensures Sum(PowerOfX(i), b, n) == if i < n then XTimes(b, i) else 0
  {
    if n > 0 {
      SumOfPower(i, b, n - 1);
      IsSetIs(PowerOfX(i), n - 1);
      PlusZero(Term(PowerOfX(i), b, n - 1));
      PlusZero(Sum(PowerOfX(i), b, n - 1));
    }
  }

  /** The product is additive in both factors, and x^i as a factor is multiplication by x, i times; this
      determines it. */
  lemma Multiplication(a: byte, b: byte, c: byte, i: nat)
    requires i < 8
    ensures GMult(Plus(a, c), b) == Plus(GMult(a, b), GMult(c, b))
    ensures GMult(a, Plus(b, c)) == Plus(GMult(a, b), GMult(a, c))
    ensures GMult(PowerOfX(i), b) == XTimes(b, i)
  {
    SumLeft(a, c, b, 8);
    SumRight(a, b, c, 8);
    SumOfPower(i, b, 8);
  }

  /* ---- The product as a remainder ---- */

  // a has n bits.
  predicate Fits(a: byte, n: nat)
    decreases n, a
  {
    if n == 0 then a == 0 else Fits(a >> 1, n - 1)
  }

  lemma AllFit(a: byte)
    ensures Fits(a, 8)
  {
    assert Fits(a >> 7, 1) by { assert a >> 7 >> 1 == 0; assert Fits(0, 0); }
    assert Fits(a >> 6, 2) by { assert a >> 6 >> 1 == a >> 7; }
    assert Fits(a >> 5, 3) by { assert a >> 5 >> 1 == a >> 6; }
    assert Fits(a >> 4, 4) by { assert a >> 4 >> 1 == a >> 5; }
    assert Fits(a >> 3, 5) by { assert a >> 3 >> 1 == a >> 4; }
    assert Fits(a >> 2, 6) by { assert a >> 2 >> 1 == a >> 3; }
    assert Fits(a >> 1, 7) by { assert a >> 1 >> 1 == a >> 2; }
  }

  function Lowest(a: byte, b: byte): byte
  {
    if a & 1 != 0 then b else 0
  }

  // The sum from its lowest term on: b if the lowest bit is set, and x times the rest.
  lemma {:induction false} SumFromBelow(a: byte, b: byte, n: nat)
    requires n > 0
    ensures Sum(a, b, n) == Plus(Lowest(a, b), XTime(Sum(a >> 1, b, n - 1)))
  {
    if n == 1 {
      PlusZero(Term(a, b, 0));
      assert XTime(0) == 0;
    } else {
      var low, rest := Lowest(a, b), Sum(a >> 1, b, n - 2);
      SumFromBelow(a, b, n - 1);
      XTimePlus(rest, Term(a >> 1, b, n - 2));
      assert XTime(0) == 0;
      PlusAssociates(low, XTime(rest), XTime(Term(a >> 1, b, n - 2)));
    }
  }

  function Size(n: nat): Poly
    requires n <= 8
  {
    if n == 8 then 0x100 else Wide(PowerOfX(n))
  }

  lemma QuotientFits(q: Poly, c: Poly, n: nat)
    requires n < 8 && q < Size(n) && c <= 1
    ensures Add(Double(q), c) < Size(n + 1)
  {
    if n == 0 {} else if n == 1 {} else if n == 2 {} else if n == 3 {} else if n == 4 {} else if n == 5 {}
    else if n == 6 {} else {}
  }

  function Carry(r: byte): Poly
  {
    if r >> 7 != 0 then 1 else 0
  }

  // Doubling a remainder: the carry is one more in the quotient.
  lemma CarryOut(r: byte)
    ensures Double(Wide(r)) == Add(Carryless(MODULUS, Carry(r)), Wide(XTime(r)))
  {
    CarrylessZero(MODULUS);
    CarrylessOne();
  }

  lemma DoubleRemainder(p: Poly, q: Poly, r: byte) returns (q': Poly)
    requires p == Add(Carryless(MODULUS, q), Wide(r))
    ensures Double(p) == Add(Carryless(MODULUS, q'), Wide(XTime(r)))
    ensures q' == Add(Double(q), Carry(r))
  {
    var c := Carry(r);
    q' := Add(Double(q), c);
    DoublePlus(Carryless(MODULUS, q), Wide(r));
    CarrylessDouble(MODULUS, q);
    CarryOut(r);
    CarrylessPlus(MODULUS, Double(q), c);
    AddAssociates(Carryless(MODULUS, Double(q)), Carryless(MODULUS, c), Wide(XTime(r)));
  }

  lemma LowBit(a: byte, b: byte)
    ensures (if Wide(a) & 1 != 0 then Wide(b) else 0) == Wide(Lowest(a, b)) && Wide(a) >> 1 == Wide(a >> 1)
  {
  }

  lemma WideFromBelow(a: byte, b: byte)
    ensures Carryless(Wide(a), Wide(b)) == Add(Wide(Lowest(a, b)), Double(Carryless(Wide(a >> 1), Wide(b))))
  {
    LowBit(a, b);
    CarrylessFromBelow(Wide(a), Wide(b));
  }

  lemma AddLow(p: Poly, m: Poly, r: byte, low: byte)
    requires p == Add(m, Wide(r))
    ensures Add(Wide(low), p) == Add(m, Wide(Plus(low, r)))
  {
    AddSwapped(Wide(low), m, Wide(r));
    WidePlus(low, r);
  }

  lemma NoSum(b: byte)
    ensures Carryless(Wide(0), Wide(b)) == Add(Carryless(MODULUS, 0), Wide(Sum(0, b, 0)))
  {
    CarrylessZero(MODULUS);
    AddZero(0);
  }

  // Dividing the product by the lowest n bits of a leaves the sum.
  predicate Leaves(a: byte, b: byte, n: nat, q: Poly)
  {
    Carryless(Wide(a), Wide(b)) == Add(Carryless(MODULUS, q), Wide(Sum(a, b, n)))
  }

  lemma OneTermMore(a: byte, b: byte, n: nat, q0: Poly) returns (q: Poly)
    requires n > 0 && Leaves(a >> 1, b, n - 1, q0)
    ensures Leaves(a, b, n, q) && q == Add(Double(q0), Carry(Sum(a >> 1, b, n - 1)))
  {
    var half, rest := Carryless(Wide(a >> 1), Wide(b)), Sum(a >> 1, b, n - 1);
    q := DoubleRemainder(half, q0, rest);
    SumFromBelow(a, b, n);
    WideFromBelow(a, b);
    AddLow(Double(half), Carryless(MODULUS, q), XTime(rest), Lowest(a, b));
  }

  lemma {:induction false} SumIsRemainder(a: byte, b: byte, n: nat) returns (q: Poly)
    requires n <= 8 && Fits(a, n)
    ensures q < Size(n) && Leaves(a, b, n, q)
  {
    if n == 0 {
      q := 0;
      NoSum(b);
    } else {
      var q0 := SumIsRemainder(a >> 1, b, n - 1);
      q := OneTermMore(a, b, n, q0);
      QuotientFits(q0, Carry(Sum(a >> 1, b, n - 1)), n - 1);
    }
  }

  /** The product is the remainder of the product without carries, by x^8 + x^4 + x^3 + x + 1; no other byte is. */
  lemma ProductIsRemainder(a: byte, b: byte, r: byte)
    ensures r == GMult(a, b) <==> exists q: Poly :: Divided(Carryless(Wide(a), Wide(b)), q, r)
  {
    AllFit(a);
    var q0 := SumIsRemainder(a, b, 8);
    assert Leaves(a, b, 8, q0);
    assert r == GMult(a, b) ==> Divided(Carryless(Wide(a), Wide(b)), q0, r);
    forall q: Poly | Divided(Carryless(Wide(a), Wide(b)), q, r) ensures r == GMult(a, b) {
      OneRemainder(Carryless(Wide(a), Wide(b)), q, r, q0, GMult(a, b));
    }
  }

  // The lowest n bits of a byte.
  function Low(a: byte, n: nat): byte
    requires n <= 8
    decreases n, a
  {
    if n == 0 then 0 else Plus(Low(a, n - 1), if IsSet(a, n - 1) then PowerOfX(n - 1) else 0)
  }

  lemma OneBitMore(a: byte, n: nat)
    requires 0 < n <= 8
    ensures var p := PowerOfX(n - 1);
            Plus(a & (p - 1), if a & p != 0 then p else 0) == a & (if n == 8 then 255 else PowerOfX(n) - 1)
  {
    if n == 1 {} else if n == 2 {} else if n == 3 {} else if n == 4 {} else if n == 5 {} else if n == 6 {}
    else if n == 7 {} else {}
  }

  lemma {:induction false} LowIs(a: byte, n: nat)
    requires n <= 8
    ensures Low(a, n) == a & (if n == 8 then 255 else PowerOfX(n) - 1)
  {
    if n > 0 {
      LowIs(a, n - 1);
      IsSetIs(a, n - 1);
      OneBitMore(a, n);
    }
  }

  lemma {:induction false} PowerIs(n: nat)
    requires n < 8
    ensures XTimes(1, n) == PowerOfX(n)
  {
    if n > 0 { PowerIs(n - 1); }
  }

  lemma {:induction false} SumOfOne(a: byte, n: nat)
    requires n <= 8
    ensures Sum(a, 1, n) == Low(a, n)
  {
    if n > 0 {
      SumOfOne(a, n - 1);
      PowerIs(n - 1);
    }
  }

  lemma {:induction false} SumTurns(a: byte, b: byte, n: nat)
    ensures Sum(a, XTime(b), n) == XTime(Sum(a, b, n))
  {
    if n > 0 {
      SumTurns(a, b, n - 1);
      XTimesTurns(b, n - 1);
      XTimePlus(Sum(a, b, n - 1), Term(a, b, n - 1));
    }
  }

  /** Multiplying by {01} and {02} from the right. */
  lemma RightFactors(a: byte)
    ensures GMult(a, 0x01) == a && GMult(a, 0x02) == XTime(a)
  {
    SumOfOne(a, 8);
    LowIs(a, 8);
    SumTurns(a, 0x01, 8);
  }

  /* ---- Mixing a column and back ---- */

  // coef_mult of one row of a column with {02}, {03}, {01}, {01}.
  function MixRow(a: byte, b: byte, c: byte, d: byte): byte
  {
    Plus4(GMult(0x02, a), GMult(0x03, b), GMult(0x01, c), GMult(0x01, d))
  }

  // coef_mult of one row of a column with {0e}, {0b}, {0d}, {09}.
  function InvMixRow(a: byte, b: byte, c: byte, d: byte): byte
  {
    Plus4(GMult(0x0e, a), GMult(0x0b, b), GMult(0x0d, c), GMult(0x09, d))
  }

  lemma AddPower(a: byte, i: nat, b: byte)
    requires i < 8
    ensures GMult(Plus(a, PowerOfX(i)), b) == Plus(GMult(a, b), XTimes(b, i))
  {
    Multiplication(a, b, PowerOfX(i), i);
  }

  // The factors that occur, as sums of powers of x.
  lemma Factors(b: byte)
    ensures GMult(0x01, b) == b && GMult(0x02, b) == XTime(b) && GMult(0x03, b) == Plus(XTime(b), b)
    ensures GMult(0x09, b) == Plus(XTimes(b, 3), b)
    ensures GMult(0x0b, b) == Plus(Plus(XTimes(b, 3), b), XTimes(b, 1))
    ensures GMult(0x0d, b) == Plus(Plus(XTimes(b, 3), b), XTimes(b, 2))
    ensures GMult(0x0e, b) == Plus(Plus(XTimes(b, 3), XTimes(b, 2)), XTimes(b, 1))
  {
    SumOfPower(0, b, 8); SumOfPower(1, b, 8); SumOfPower(3, b, 8);
    assert Plus(0x02, 0x01) == 0x03 && Plus(0x08, 0x01) == 0x09;
    assert Plus(0x09, 0x02) == 0x0b && Plus(0x09, 0x04) == 0x0d;
    assert Plus(0x08, 0x04) == 0x0c && Plus(0x0c, 0x02) == 0x0e;
    AddPower(0x02, 0, b); AddPower(0x08, 0, b);
    AddPower(0x09, 1, b); AddPower(0x09, 2, b);
    AddPower(0x08, 2, b); AddPower(0x0c, 1, b);
  }

  // {0e}, {0b}, {0d} and {09} times {02} x.
  lemma Twice(x: byte)
    ensures GMult(0x0e, XTime(x)) == Plus(Plus(XTimes(x, 4), XTimes(x, 3)), XTimes(x, 2))
    ensures GMult(0x0b, XTime(x)) == Plus(Plus(XTimes(x, 4), XTimes(x, 1)), XTimes(x, 2))
    ensures GMult(0x0d, XTime(x)) == Plus(Plus(XTimes(x, 4), XTimes(x, 1)), XTimes(x, 3))
    ensures GMult(0x09, XTime(x)) == Plus(XTimes(x, 4), XTimes(x, 1))
  {
    Factors(XTime(x));
    XTimesTurns(x, 1);
    XTimesTurns(x, 2);
    XTimesTurns(x, 3);
    assert XTimes(x, 1) == XTime(XTimes(x, 0)) == XTime(x);
  }

  lemma Thrice(k: byte, x: byte)
    ensures GMult(k, GMult(0x03, x)) == Plus(GMult(k, XTime(x)), GMult(k, x))
  {
    Factors(x);
    SumRight(k, XTime(x), x, 8);
  }

  // The powers of x times one byte cancel, but for the byte itself in its own row.
  lemma CancelOwn(x: byte, x1: byte, x2: byte, x3: byte, x4: byte)
    ensures Plus4(Plus(Plus(x4, x3), x2), Plus(Plus(x3, x), x1), Plus(Plus(x3, x), x2),
                  Plus(Plus(x4, x1), Plus(x3, x))) == x
  {
  }

  lemma CancelAbove(x: byte, x1: byte, x2: byte, x3: byte, x4: byte)
    ensures Plus4(Plus(Plus(Plus(x4, x3), x2), Plus(Plus(x3, x2), x1)), Plus(Plus(x4, x1), x2), Plus(Plus(x3, x), x2),
                  Plus(x3, x)) == 0
  {
  }

  lemma CancelOpposite(x: byte, x1: byte, x2: byte, x3: byte, x4: byte)
    ensures Plus4(Plus(Plus(x3, x2), x1), Plus(Plus(Plus(x4, x1), x2), Plus(Plus(x3, x), x1)), Plus(Plus(x4, x1), x3),
                  Plus(x3, x)) == 0
  {
  }

  lemma CancelBelow(x: byte, x1: byte, x2: byte, x3: byte, x4: byte)
    ensures Plus4(Plus(Plus(x3, x2), x1), Plus(Plus(x3, x), x1),
                  Plus(Plus(Plus(x4, x1), x3), Plus(Plus(x3, x), x2)), Plus(x4, x1)) == 0
  {
  }

  // What the four rows of the inverse make of one byte of a column.
  lemma OneByte(x: byte)
    ensures Plus4(GMult(0x0e, GMult(0x02, x)), GMult(0x0b, x), GMult(0x0d, x), GMult(0x09, GMult(0x03, x))) == x
    ensures Plus4(GMult(0x0e, GMult(0x03, x)), GMult(0x0b, GMult(0x02, x)), GMult(0x0d, x), GMult(0x09, x)) == 0
    ensures Plus4(GMult(0x0e, x), GMult(0x0b, GMult(0x03, x)), GMult(0x0d, GMult(0x02, x)), GMult(0x09, x)) == 0
    ensures Plus4(GMult(0x0e, x), GMult(0x0b, x), GMult(0x0d, GMult(0x03, x)), GMult(0x09, GMult(0x02, x))) == 0
  {
    Factors(x);
    Twice(x);
    Thrice(0x0e, x); Thrice(0x0b, x); Thrice(0x0d, x); Thrice(0x09, x);
    var x1, x2, x3, x4 := XTimes(x, 1), XTimes(x, 2), XTimes(x, 3), XTimes(x, 4);
    CancelOwn(x, x1, x2, x3, x4);
    CancelAbove(x, x1, x2, x3, x4);
    CancelOpposite(x, x1, x2, x3, x4);
    CancelBelow(x, x1, x2, x3, x4);
  }

  // A mixed row multiplied, part by part.
  lemma MixRowTimes(k: byte, a: byte, b: byte, c: byte, d: byte)
    ensures GMult(k, MixRow(a, b, c, d)) ==
            Plus4(GMult(k, GMult(0x02, a)), GMult(k, GMult(0x03, b)), GMult(k, c), GMult(k, d))
  {
    Factors(c); Factors(d);
    SumRight(k, Plus(GMult(0x02, a), GMult(0x03, b)), Plus(c, d), 8);
    SumRight(k, GMult(0x02, a), GMult(0x03, b), 8);
    SumRight(k, c, d, 8);
  }

  lemma Turn(a: byte, b: byte, c: byte, d: byte)
    ensures Plus4(a, b, c, d) == Plus4(b, c, d, a)
  {
  }

  lemma AddRows(a: byte, b: byte, c: byte, d: byte, e: byte, f: byte, g: byte, h: byte)
    ensures Plus(Plus4(a, b, c, d), Plus4(e, f, g, h)) == Plus4(Plus(a, e), Plus(b, f), Plus(c, g), Plus(d, h))
  {
    Swap(Plus(a, b), Plus(c, d), Plus(e, f), Plus(g, h));
    Swap(a, b, e, f);
    Swap(c, d, g, h);
  }

  // The sum of the rows of a square is the sum of its columns.
  lemma Transpose(a: byte, b: byte, c: byte, d: byte, e: byte, f: byte, g: byte, h: byte,
                  i: byte, j: byte, k: byte, l: byte, m: byte, n: byte, o: byte, p: byte)
    ensures Plus4(Plus4(a, b, c, d), Plus4(e, f, g, h), Plus4(i, j, k, l), Plus4(m, n, o, p)) ==
            Plus4(Plus4(a, e, i, m), Plus4(b, f, j, n), Plus4(c, g, k, o), Plus4(d, h, l, p))
  {
    AddRows(a, b, c, d, e, f, g, h);
    AddRows(i, j, k, l, m, n, o, p);
    AddRows(Plus(a, e), Plus(b, f), Plus(c, g), Plus(d, h), Plus(i, m), Plus(j, n), Plus(k, o), Plus(l, p));
  }

  /** inv_mix_columns undoes mix_columns, row by row of a column. */
  lemma MixInverse(a: byte, b: byte, c: byte, d: byte)
    ensures InvMixRow(MixRow(a, b, c, d), MixRow(b, c, d, a), MixRow(c, d, a, b), MixRow(d, a, b, c)) == a
  {
    MixRowTimes(0x0e, a, b, c, d);
    MixRowTimes(0x0b, b, c, d, a);
    MixRowTimes(0x0d, c, d, a, b);
    MixRowTimes(0x09, d, a, b, c);
    var e1, e2, e3, e4 := GMult(0x0e, GMult(0x02, a)), GMult(0x0e, GMult(0x03, b)), GMult(0x0e, c), GMult(0x0e, d);
    var f1, f2, f3, f4 := GMult(0x0b, GMult(0x02, b)), GMult(0x0b, GMult(0x03, c)), GMult(0x0b, d), GMult(0x0b, a);
    var g1, g2, g3, g4 := GMult(0x0d, GMult(0x02, c)), GMult(0x0d, GMult(0x03, d)), GMult(0x0d, a), GMult(0x0d, b);
    var h1, h2, h3, h4 := GMult(0x09, GMult(0x02, d)), GMult(0x09, GMult(0x03, a)), GMult(0x09, b), GMult(0x09, c);
    Turn(f4, f1, f2, f3);
    Turn(g3, g4, g1, g2); Turn(g4, g1, g2, g3);
    Turn(h1, h2, h3, h4);
    Transpose(e1, e2, e3, e4, f4, f1, f2, f3, g3, g4, g1, g2, h2, h3, h4, h1);
    OneByte(a); OneByte(b); OneByte(c); OneByte(d);
    PlusZero(a); PlusZero(0);
  }

  /* ---- The substitution tables ---- */

  // Row r of s_box, most significant byte first.
  function SBoxRow(r: byte): bv128
    requires r < 16
  {
    if r == 0 then 0x637c777bf26b6fc53001672bfed7ab76 else if r == 1 then 0xca82c97dfa5947f0add4a2af9ca472c0 else
    if r == 2 then 0xb7fd9326363ff7cc34a5e5f171d83115 else if r == 3 then 0x04c723c31896059a071280e2eb27b275 else
    if r == 4 then 0x09832c1a1b6e5aa0523bd6b329e32f84 else if r == 5 then 0x53d100ed20fcb15b6acbbe394a4c58cf else
    if r == 6 then 0xd0efaafb434d338545f9027f503c9fa8 else if r == 7 then 0x51a3408f929d38f5bcb6da2110fff3d2 else
    if r == 8 then 0xcd0c13ec5f974417c4a77e3d645d1973 else if r == 9 then 0x60814fdc222a908846eeb814de5e0bdb else
    if r == 10 then 0xe0323a0a4906245cc2d3ac629195e479 else if r == 11 then 0xe7c8376d8dd54ea96c56f4ea657aae08 else
    if r == 12 then 0xba78252e1ca6b4c6e8dd741f4bbd8b8a else if r == 13 then 0x703eb5664803f60e613557b986c11d9e else
    if r == 14 then 0xe1f8981169d98e949b1e87e9ce5528df else 0x8ca1890dbfe6426841992d0fb054bb16
  }

  function InvSBoxRow(r: byte): bv128
    requires r < 16
  {
    if r == 0 then 0x52096ad53036a538bf40a39e81f3d7fb else if r == 1 then 0x7ce339829b2fff87348e4344c4dee9cb else
    if r == 2 then 0x547b9432a6c2233dee4c950b42fac34e else if r == 3 then 0x082ea16628d924b2765ba2496d8bd125 else
    if r == 4 then 0x72f8f66486689816d4a45ccc5d65b692 else if r == 5 then 0x6c704850fdedb9da5e154657a78d9d84 else
    if r == 6 then 0x90d8ab008cbcd30af7e45805b8b34506 else if r == 7 then 0xd02c1e8fca3f0f02c1afbd0301138a6b else
    if r == 8 then 0x3a9111414f67dcea97f2cfcef0b4e673 else if r == 9 then 0x96ac7422e7ad3585e2f937e81c75df6e else
    if r == 10 then 0x47f11a711d29c5896fb7620eaa18be1b else if r == 11 then 0xfc563e4bc6d279209adbc0fe78cd5af4 else
    if r == 12 then 0x1fdda8338807c731b11210592780ec5f else if r == 13 then 0x60517fa919b54a0d2de57a9f93c99cef else
    if r == 14 then 0xa0e03b4dae2af5b0c8ebbb3c83539961 else 0x172b047eba77d626e169146355210c7d
  }

  function Column(row: bv128, c: byte): byte
    requires c < 16
  {
    var shift := 120 - ((c as bv128) << 3);
    ((row >> shift) & 0xff) as byte
  }

  function SBox(x: byte): byte
  {
    Column(SBoxRow(x >> 4), x & 0x0f)
  }

  function InvSBox(x: byte): byte
  {
    Column(InvSBoxRow(x >> 4), x & 0x0f)
  }

  lemma SBoxInverse(x: byte)
    ensures InvSBox(SBox(x)) == x
  {
  }

  // The affine map of section 5.1.1 of FIPS 197: bits i, i + 4, i + 5, i + 6 and i + 7, cyclically, and {63}.
  function Affine(y: byte): byte
  {
    y ^ Turned(y, 4) ^ Turned(y, 5) ^ Turned(y, 6) ^ Turned(y, 7) ^ 0x63
  }

  // Bit i of the result is bit i + n, cyclically.
  function Turned(y: byte, n: bv4): byte
    requires 0 < n < 8
  {
    (y >> n) | (y << (8 - n))
  }

  function Unaffine(s: byte): byte
  {
    Turned(s, 2) ^ Turned(s, 5) ^ Turned(s, 7) ^ 0x05
  }

  lemma AffineBack(s: byte)
    ensures Affine(Unaffine(s)) == s && Unaffine(Affine(s)) == s
  {
  }

  function Chosen(a: byte, p: byte, b: byte): byte
  {
    if a & p != 0 then b else 0
  }

  // The product without recursion.
  function Closed(a: byte, b0: byte): byte
  {
    var b1 := XTime(b0);
    var b2 := XTime(b1);
    var b3 := XTime(b2);
    var b4 := XTime(b3);
    var b5 := XTime(b4);
    var b6 := XTime(b5);
    var b7 := XTime(b6);
    Plus(Plus(Plus(Plus(Plus(Plus(Plus(
      Chosen(a, 0x01, b0), Chosen(a, 0x02, b1)), Chosen(a, 0x04, b2)), Chosen(a, 0x08, b3)), Chosen(a, 0x10, b4)),
      Chosen(a, 0x20, b5)), Chosen(a, 0x40, b6)), Chosen(a, 0x80, b7))
  }

  lemma ClosedInverse(x: byte)
    requires x != 0
    ensures Closed(x, Unaffine(SBox(x))) == 1
  {
    if x >> 6 == 0 {} else if x >> 6 == 1 {} else if x >> 6 == 2 {} else {}
  }

  lemma OneInverse(x: byte, y: byte)
    requires Closed(x, y) == 1
    ensures Affine(y) == SBox(x)
  {
    if x >> 6 == 0 {} else if x >> 6 == 1 {} else if x >> 6 == 2 {} else {}
  }

  lemma TermIs(a: byte, b: byte, n: nat)
    requires n < 8
    ensures Term(a, b, n) == Chosen(a, PowerOfX(n), XTimes(b, n))
  {
    IsSetIs(a, n);
  }

  lemma ClosedIs(a: byte, b: byte)
    ensures Closed(a, b) == GMult(a, b)
  {
    TermIs(a, b, 0); TermIs(a, b, 1); TermIs(a, b, 2); TermIs(a, b, 3);
    TermIs(a, b, 4); TermIs(a, b, 5); TermIs(a, b, 6); TermIs(a, b, 7);
    PlusZero(Term(a, b, 0));
    assert Sum(a, b, 1) == Chosen(a, 0x01, b);
    assert Sum(a, b, 2) == Plus(Sum(a, b, 1), Chosen(a, 0x02, XTimes(b, 1)));
    assert Sum(a, b, 3) == Plus(Sum(a, b, 2), Chosen(a, 0x04, XTimes(b, 2)));
    assert Sum(a, b, 4) == Plus(Sum(a, b, 3), Chosen(a, 0x08, XTimes(b, 3)));
    assert Sum(a, b, 5) == Plus(Sum(a, b, 4), Chosen(a, 0x10, XTimes(b, 4)));
    assert Sum(a, b, 6) == Plus(Sum(a, b, 5), Chosen(a, 0x20, XTimes(b, 5)));
    assert Sum(a, b, 7) == Plus(Sum(a, b, 6), Chosen(a, 0x40, XTimes(b, 6)));
  }

  /** The substitution table is that of section 5.1.1 of FIPS 197: the affine map of the inverse in the field, and of
      {00} for {00}, which has none. */
  lemma SBoxIsInverse(x: byte, y: byte)
    ensures Affine(Unaffine(SBox(x))) == SBox(x) && GMult(x, Unaffine(SBox(x))) == if x == 0 then 0 else 1
    ensures GMult(x, y) == 1 || x == y == 0 ==> SBox(x) == Affine(y)
  {
    AffineBack(SBox(x));
    ClosedIs(x, Unaffine(SBox(x)));
    ClosedIs(x, y);
    if x != 0 { ClosedInverse(x); }
    if Closed(x, y) == 1 { OneInverse(x, y); }
  }
}
