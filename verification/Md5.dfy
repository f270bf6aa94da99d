/** MD5: the transformation of one block against section 3.4 of RFC 1321, and the object that is fed a message and
    asked for its digest. */
module Md5 {
  import opened Bytes

  datatype Words = Words(a: word, b: word, c: word, d: word)

  /* ---- The standard's transformation ---- */

  function Rotl(w: word, bits: word): word
    requires 0 < bits < 32
  {
    (w << bits) | (w >> (32 - bits))
  }

  function F(x: word, y: word, z: word): word
  {
    (x & y) | (!x & z)
  }

  function G(x: word, y: word, z: word): word
  {
    (x & z) | (y & !z)
  }

  function H(x: word, y: word, z: word): word
  {
    x ^ y ^ z
  }

  function I(x: word, y: word, z: word): word
  {
    y ^ (x | !z)
  }

  // The auxiliary function of step i, the place of its word in the block, its shift, and its constant (the whole part
  // of 2^32 times |sin(i + 1)|).
  function Auxiliary(i: nat, x: word, y: word, z: word): word
  {
    if i < 16 then F(x, y, z) else if i < 32 then G(x, y, z) else if i < 48 then H(x, y, z) else I(x, y, z)
  }

  function Place(i: nat): (k: nat)
    ensures k < 16
  {
    if i < 16 then i else if i < 32 then (5 * i + 1) % 16 else if i < 48 then (3 * i + 5) % 16 else 7 * i % 16
  }

  function Shift(i: nat): (s: word)
    ensures 0 < s < 32
  {
    if i < 16 then Pick(i, 7, 12, 17, 22) else if i < 32 then Pick(i, 5, 9, 14, 20)
    else if i < 48 then Pick(i, 4, 11, 16, 23) else Pick(i, 6, 10, 15, 21)
  }

  // The four shifts of a round, in turn.
  function Pick(i: nat, p: word, q: word, r: word, s: word): word
  {
    if i % 4 == 0 then p else if i % 4 == 1 then q else if i % 4 == 2 then r else s
  }

  function Sine(i: nat): word
  {
    if i < 16 then
      if i < 4 then Pick(i, 0xd76aa478, 0xe8c7b756, 0x242070db, 0xc1bdceee)
      else if i < 8 then Pick(i, 0xf57c0faf, 0x4787c62a, 0xa8304613, 0xfd469501)
      else if i < 12 then Pick(i, 0x698098d8, 0x8b44f7af, 0xffff5bb1, 0x895cd7be)
      else Pick(i, 0x6b901122, 0xfd987193, 0xa679438e, 0x49b40821)
    else if i < 32 then
      if i < 20 then Pick(i, 0xf61e2562, 0xc040b340, 0x265e5a51, 0xe9b6c7aa)
      else if i < 24 then Pick(i, 0xd62f105d, 0x02441453, 0xd8a1e681, 0xe7d3fbc8)
      else if i < 28 then Pick(i, 0x21e1cde6, 0xc33707d6, 0xf4d50d87, 0x455a14ed)
      else Pick(i, 0xa9e3e905, 0xfcefa3f8, 0x676f02d9, 0x8d2a4c8a)
    else if i < 48 then
      if i < 36 then Pick(i, 0xfffa3942, 0x8771f681, 0x6d9d6122, 0xfde5380c)
      else if i < 40 then Pick(i, 0xa4beea44, 0x4bdecfa9, 0xf6bb4b60, 0xbebfbc70)
      else if i < 44 then Pick(i, 0x289b7ec6, 0xeaa127fa, 0xd4ef3085, 0x04881d05)
      else Pick(i, 0xd9d4d039, 0xe6db99e5, 0x1fa27cf8, 0xc4ac5665)
    else
      if i < 52 then Pick(i, 0xf4292244, 0x432aff97, 0xab9423a7, 0xfc93a039)
      else if i < 56 then Pick(i, 0x655b59c3, 0x8f0ccc92, 0xffeff47d, 0x85845dd1)
      else if i < 60 then Pick(i, 0x6fa87e4f, 0xfe2ce6e0, 0xa3014314, 0x4e0811a1)
      else Pick(i, 0xf7537e82, 0xbd3af235, 0x2ad7d2bb, 0xeb86d391)
  }

  function Total(a: word, f: word, x: word, t: word): word
  {
    a + f + x + t
  }

  // The new value of the first word.
  function Mixed(a: word, b: word, f: word, x: word, s: word, t: word): word
    requires 0 < s < 32
  {
    Plus(b, Rotl(Total(a, f, x, t), s))
  }

  function Plus(a: word, b: word): word
  {
    a + b
  }

  function Step(s: Words, x: seq<word>, i: nat): Words
    requires |x| == 16
  {
    Words(s.d, Mixed(s.a, s.b, Auxiliary(i, s.b, s.c, s.d), x[Place(i)], Shift(i), Sine(i)), s.b, s.c)
  }

  function Steps(s: Words, x: seq<word>, n: nat): Words
    requires |x| == 16
    decreases n, x
  {
    if n == 0 then s else Step(Steps(s, x, n - 1), x, n - 1)
  }

  // steps(n) are the words after n steps.
  ghost predicate Follows(steps: nat -> Words, x: seq<word>)
    requires |x| == 16
  {
    forall n: nat :: FollowsAt(steps, x, n)
  }

  ghost predicate FollowsAt(steps: nat -> Words, x: seq<word>, n: nat)
    requires |x| == 16
  {
    steps(n + 1) == Step(steps(n), x, n)
  }

  /* ---- The transformation, as the object does it ---- */

  // Place, shift and constant of a step are as the standard says.
  ghost predicate StepIs(i: nat, k: nat, s: word, t: word)
  {
    k == Place(i) && s == Shift(i) && t == Sine(i)
  }

  method Summed(a: word, f: word, x: word, t: word) returns (r: word)
    ensures r == Total(a, f, x, t)
  {
    r := a + (f + x + t);
  }

  // What the four macros have in common.
  method Mix(a: word, b: word, f: word, x: word, s: word, t: word) returns (r: word)
    requires 0 < s < 32
    ensures r == Mixed(a, b, f, x, s, t)
  {
    r := Summed(a, f, x, t);
    r := Rotl(r, s);
    r := Plus(b, r);
  }

  method FF(a: word, b: word, c: word, d: word, ghost x: seq<word>, ghost i: nat, k: nat, w: word, s: word, t: word)
    returns (r: word)
    requires |x| == 16 && 0 <= i < 16 && StepIs(i, k, s, t) && w == x[k]
    ensures Words(d, r, b, c) == Step(Words(a, b, c, d), x, i)
  {
    r := Mix(a, b, F(b, c, d), w, s, t);
  }

  method GG(a: word, b: word, c: word, d: word, ghost x: seq<word>, ghost i: nat, k: nat, w: word, s: word, t: word)
    returns (r: word)
    requires |x| == 16 && 16 <= i < 32 && StepIs(i, k, s, t) && w == x[k]
    ensures Words(d, r, b, c) == Step(Words(a, b, c, d), x, i)
  {
    r := Mix(a, b, G(b, c, d), w, s, t);
  }

  method HH(a: word, b: word, c: word, d: word, ghost x: seq<word>, ghost i: nat, k: nat, w: word, s: word, t: word)
    returns (r: word)
    requires |x| == 16 && 32 <= i < 48 && StepIs(i, k, s, t) && w == x[k]
    ensures Words(d, r, b, c) == Step(Words(a, b, c, d), x, i)
  {
    r := Mix(a, b, H(b, c, d), w, s, t);
  }

  method II(a: word, b: word, c: word, d: word, ghost x: seq<word>, ghost i: nat, k: nat, w: word, s: word, t: word)
    returns (r: word)
    requires |x| == 16 && 48 <= i < 64 && StepIs(i, k, s, t) && w == x[k]
    ensures Words(d, r, b, c) == Step(Words(a, b, c, d), x, i)
  {
    r := Mix(a, b, I(b, c, d), w, s, t);
  }

  method FFFour(s: Words, x: seq<word>, ghost steps: nat -> Words, ghost i: nat, k0: nat, t0: word, k1: nat, t1: word,
                k2: nat, t2: word, k3: nat, t3: word) returns (r: Words)
    requires |x| == 16 && 0 <= i <= 12 && Follows(steps, x) && s == steps(i)
    requires StepIs(i, k0, 7, t0) && StepIs(i + 1, k1, 12, t1) && StepIs(i + 2, k2, 17, t2) && StepIs(i + 3, k3, 22, t3)
    ensures r == steps(i + 4)
  {
    var a, b, c, d := s.a, s.b, s.c, s.d;
    a := FF(a, b, c, d, x, i, k0, x[k0], 7, t0);
    d := FF(d, a, b, c, x, i + 1, k1, x[k1], 12, t1);
    c := FF(c, d, a, b, x, i + 2, k2, x[k2], 17, t2);
    b := FF(b, c, d, a, x, i + 3, k3, x[k3], 22, t3);
    r := Words(a, b, c, d);
    assert FollowsAt(steps, x, i) && FollowsAt(steps, x, i + 1) && FollowsAt(steps, x, i + 2);
    assert FollowsAt(steps, x, i + 3);
  }

  method GGFour(s: Words, x: seq<word>, ghost steps: nat -> Words, ghost i: nat, k0: nat, t0: word, k1: nat, t1: word,
                k2: nat, t2: word, k3: nat, t3: word) returns (r: Words)
    requires |x| == 16 && 16 <= i <= 28 && Follows(steps, x) && s == steps(i)
    requires StepIs(i, k0, 5, t0) && StepIs(i + 1, k1, 9, t1) && StepIs(i + 2, k2, 14, t2) && StepIs(i + 3, k3, 20, t3)
    ensures r == steps(i + 4)
  {
    var a, b, c, d := s.a, s.b, s.c, s.d;
    a := GG(a, b, c, d, x, i, k0, x[k0], 5, t0);
    d := GG(d, a, b, c, x, i + 1, k1, x[k1], 9, t1);
    c := GG(c, d, a, b, x, i + 2, k2, x[k2], 14, t2);
    b := GG(b, c, d, a, x, i + 3, k3, x[k3], 20, t3);
    r := Words(a, b, c, d);
    assert FollowsAt(steps, x, i) && FollowsAt(steps, x, i + 1) && FollowsAt(steps, x, i + 2);
    assert FollowsAt(steps, x, i + 3);
  }

  method HHFour(s: Words, x: seq<word>, ghost steps: nat -> Words, ghost i: nat, k0: nat, t0: word, k1: nat, t1: word,
                k2: nat, t2: word, k3: nat, t3: word) returns (r: Words)
    requires |x| == 16 && 32 <= i <= 44 && Follows(steps, x) && s == steps(i)
    requires StepIs(i, k0, 4, t0) && StepIs(i + 1, k1, 11, t1) && StepIs(i + 2, k2, 16, t2) && StepIs(i + 3, k3, 23, t3)
    ensures r == steps(i + 4)
  {
    var a, b, c, d := s.a, s.b, s.c, s.d;
    a := HH(a, b, c, d, x, i, k0, x[k0], 4, t0);
    d := HH(d, a, b, c, x, i + 1, k1, x[k1], 11, t1);
    c := HH(c, d, a, b, x, i + 2, k2, x[k2], 16, t2);
    b := HH(b, c, d, a, x, i + 3, k3, x[k3], 23, t3);
    r := Words(a, b, c, d);
    assert FollowsAt(steps, x, i) && FollowsAt(steps, x, i + 1) && FollowsAt(steps, x, i + 2);
    assert FollowsAt(steps, x, i + 3);
  }

  method IIFour(s: Words, x: seq<word>, ghost steps: nat -> Words, ghost i: nat, k0: nat, t0: word, k1: nat, t1: word,
                k2: nat, t2: word, k3: nat, t3: word) returns (r: Words)
    requires |x| == 16 && 48 <= i <= 60 && Follows(steps, x) && s == steps(i)
    requires StepIs(i, k0, 6, t0) && StepIs(i + 1, k1, 10, t1) && StepIs(i + 2, k2, 15, t2) && StepIs(i + 3, k3, 21, t3)
    ensures r == steps(i + 4)
  {
    var a, b, c, d := s.a, s.b, s.c, s.d;
    a := II(a, b, c, d, x, i, k0, x[k0], 6, t0);
    d := II(d, a, b, c, x, i + 1, k1, x[k1], 10, t1);
    c := II(c, d, a, b, x, i + 2, k2, x[k2], 15, t2);
    b := II(b, c, d, a, x, i + 3, k3, x[k3], 21, t3);
    r := Words(a, b, c, d);
    assert FollowsAt(steps, x, i) && FollowsAt(steps, x, i + 1) && FollowsAt(steps, x, i + 2);
    assert FollowsAt(steps, x, i + 3);
  }

  method Round1(s: Words, x: seq<word>, ghost steps: nat -> Words) returns (r: Words)
    requires |x| == 16 && Follows(steps, x) && s == steps(0)
    ensures r == steps(16)
  {
    r := s;
    r := FFFour(r, x, steps, 0,
                0, 0xd76aa478, 1, 0xe8c7b756, 2, 0x242070db, 3, 0xc1bdceee);
    r := FFFour(r, x, steps, 4,
                4, 0xf57c0faf, 5, 0x4787c62a, 6, 0xa8304613, 7, 0xfd469501);
    r := FFFour(r, x, steps, 8,
                8, 0x698098d8, 9, 0x8b44f7af, 10, 0xffff5bb1, 11, 0x895cd7be);
    r := FFFour(r, x, steps, 12,
                12, 0x6b901122, 13, 0xfd987193, 14, 0xa679438e, 15, 0x49b40821);
  }

  method Round2Start(s: Words, x: seq<word>, ghost steps: nat -> Words) returns (r: Words)
    requires |x| == 16 && Follows(steps, x) && s == steps(16)
    ensures r == steps(24)
  {
    r := s;
    r := GGFour(r, x, steps, 16,
                1, 0xf61e2562, 6, 0xc040b340, 11, 0x265e5a51, 0, 0xe9b6c7aa);
    r := GGFour(r, x, steps, 20,
                5, 0xd62f105d, 10, 0x02441453, 15, 0xd8a1e681, 4, 0xe7d3fbc8);
  }

  method Round2End(s: Words, x: seq<word>, ghost steps: nat -> Words) returns (r: Words)
    requires |x| == 16 && Follows(steps, x) && s == steps(24)
    ensures r == steps(32)
  {
    r := s;
    r := GGFour(r, x, steps, 24,
                9, 0x21e1cde6, 14, 0xc33707d6, 3, 0xf4d50d87, 8, 0x455a14ed);
    r := GGFour(r, x, steps, 28,
                13, 0xa9e3e905, 2, 0xfcefa3f8, 7, 0x676f02d9, 12, 0x8d2a4c8a);
  }

  method Round3Start(s: Words, x: seq<word>, ghost steps: nat -> Words) returns (r: Words)
    requires |x| == 16 && Follows(steps, x) && s == steps(32)
    ensures r == steps(40)
  {
    r := s;
    r := HHFour(r, x, steps, 32,
                5, 0xfffa3942, 8, 0x8771f681, 11, 0x6d9d6122, 14, 0xfde5380c);
    r := HHFour(r, x, steps, 36,
                1, 0xa4beea44, 4, 0x4bdecfa9, 7, 0xf6bb4b60, 10, 0xbebfbc70);
  }

  method Round3End(s: Words, x: seq<word>, ghost steps: nat -> Words) returns (r: Words)
    requires |x| == 16 && Follows(steps, x) && s == steps(40)
    ensures r == steps(48)
  {
    r := s;
    r := HHFour(r, x, steps, 40,
                13, 0x289b7ec6, 0, 0xeaa127fa, 3, 0xd4ef3085, 6, 0x04881d05);
    r := HHFour(r, x, steps, 44,
                9, 0xd9d4d039, 12, 0xe6db99e5, 15, 0x1fa27cf8, 2, 0xc4ac5665);
  }

  method Round4Start(s: Words, x: seq<word>, ghost steps: nat -> Words) returns (r: Words)
    requires |x| == 16 && Follows(steps, x) && s == steps(48)
    ensures r == steps(56)
  {
    r := s;
    r := IIFour(r, x, steps, 48,
                0, 0xf4292244, 7, 0x432aff97, 14, 0xab9423a7, 5, 0xfc93a039);
    r := IIFour(r, x, steps, 52,
                12, 0x655b59c3, 3, 0x8f0ccc92, 10, 0xffeff47d, 1, 0x85845dd1);
  }

  method Round4End(s: Words, x: seq<word>, ghost steps: nat -> Words) returns (r: Words)
    requires |x| == 16 && Follows(steps, x) && s == steps(56)
    ensures r == steps(64)
  {
    r := s;
    r := IIFour(r, x, steps, 56,
                8, 0x6fa87e4f, 15, 0xfe2ce6e0, 6, 0xa3014314, 13, 0x4e0811a1);
    r := IIFour(r, x, steps, 60,
                4, 0xf7537e82, 11, 0xbd3af235, 2, 0x2ad7d2bb, 9, 0xeb86d391);
  }

  // decode: word i of a block.
  function WordOf(c: Chunk, i: nat): word
    requires i < 16
  {
    (c[4 * i] as word) | ((c[4 * i + 1] as word) << 8) | ((c[4 * i + 2] as word) << 16) | ((c[4 * i + 3] as word) << 24)
  }

  function WordsOf(c: Chunk): (x: seq<word>)
    ensures |x| == 16
  {
    seq(16, i requires 0 <= i < 16 => WordOf(c, i))
  }

  function Sum(s: Words, t: Words): Words
  {
    Words(Plus(s.a, t.a), Plus(s.b, t.b), Plus(s.c, t.c), Plus(s.d, t.d))
  }

  function Compress(s: Words, c: Chunk): Words
  {
    Sum(s, Steps(s, WordsOf(c), 64))
  }

  method Decode(block: array<byte>, from: nat) returns (x: array<word>)
    requires from + 64 <= block.Length
    ensures fresh(x) && x.Length == 16 && x[..] == WordsOf(block[from..from + 64])
  {
    ghost var c := block[from..from + 64];
    x := new word[16];
    var i, j := 0, 0;
    while j < 64
      invariant 0 <= i <= 16 && j == 4 * i && block[from..from + 64] == c
      invariant forall k :: 0 <= k < i ==> x[k] == WordOf(c, k)
    {
      x[i] := DecodedWord(c, i, block[from + j], block[from + j + 1], block[from + j + 2], block[from + j + 3]);
      i, j := i + 1, j + 4;
    }
  }

  method DecodedWord(ghost c: Chunk, ghost i: nat, b0: byte, b1: byte, b2: byte, b3: byte) returns (w: word)
    requires i < 16 && b0 == c[4 * i] && b1 == c[4 * i + 1] && b2 == c[4 * i + 2] && b3 == c[4 * i + 3]
    ensures w == WordOf(c, i)
  {
    w := (b0 as word) | ((b1 as word) << 8) | ((b2 as word) << 16) | ((b3 as word) << 24);
  }

  lemma StepsFollow(s: Words, x: seq<word>, steps: nat -> Words)
    requires |x| == 16 && forall n: nat :: steps(n) == Steps(s, x, n)
    ensures Follows(steps, x)
  {
    forall n: nat ensures FollowsAt(steps, x, n) {
      assert steps(n) == Steps(s, x, n) && steps(n + 1) == Steps(s, x, n + 1);
    }
  }

  method Transformed(s: Words, x: seq<word>) returns (r: Words)
    requires |x| == 16
    ensures r == Sum(s, Steps(s, x, 64))
  {
    ghost var steps := (n: nat) => Steps(s, x, n);
    StepsFollow(s, x, steps);
    r := RoundsOf(s, x, steps);
    r := Words(Plus(s.a, r.a), Plus(s.b, r.b), Plus(s.c, r.c), Plus(s.d, r.d));
  }

  method RoundsOf(s: Words, x: seq<word>, ghost steps: nat -> Words) returns (r: Words)
    requires |x| == 16 && Follows(steps, x) && s == steps(0)
    ensures r == steps(64)
  {
    r := Round1(s, x, steps);
    r := Round2Start(r, x, steps);
    r := Round2End(r, x, steps);
    r := Round3Start(r, x, steps);
    r := Round3End(r, x, steps);
    r := Round4Start(r, x, steps);
    r := Round4End(r, x, steps);
  }

  /* ---- The digest ---- */

  const START := Words(0x67452301, 0xefcdab89, 0x98badcfe, 0x10325476)

  function Value32(w: word): (v: nat)
    ensures v < 0x1_0000_0000
  {
    w as nat
  }

  // encode: the first n numbers, four bytes each.
  function Encoded(input: seq<nat>, n: nat): (b: seq<byte>)
    requires n <= |input|
    ensures |b| == 4 * n
    decreases n, input
  {
    if n == 0 then [] else Encoded(input, n - 1) + LittleEndian(input[n - 1], 4)
  }

  function Written(s: Words): (b: seq<byte>)
    ensures |b| == 16
  {
    Encoded([Value32(s.a), Value32(s.b), Value32(s.c), Value32(s.d)], 4)
  }

  /** The digest of a message: its blocks, padded and with its length in bits modulo 2^64, folded into the start. */
  function Digest(m: seq<byte>): seq<byte>
  {
    Written(FoldPadded(Compress, START, m, LittleEndian(8 * |m|, 8)))
  }

  /* ---- The object ---- */

  // memcpy.
  method Copy(source: array<byte>, from: nat, dest: array<byte>, at: nat, n: nat)
    requires from + n <= source.Length && at + n <= dest.Length && source != dest
    modifies dest
    ensures dest[at..at + n] == source[from..from + n]
    ensures forall k :: 0 <= k < dest.Length && !(at <= k < at + n) ==> dest[k] == old(dest[k])
  {
    var i := 0;
    while i < n
      invariant 0 <= i <= n
      invariant forall k :: 0 <= k < dest.Length ==>
                  dest[k] == if at <= k < at + i then source[from + (k - at)] else old(dest[k])
    {
      dest[at + i] := source[from + i];
      i := i + 1;
    }
  }

  method Encode(input: seq<nat>, output: array<byte>)
    requires output.Length == 4 * |input|
    modifies output
    ensures output[..] == Encoded(input, |input|)
  {
    var i, j := 0, 0;
    while j < output.Length
      invariant 0 <= i <= |input| && j == 4 * i
      invariant output[..j] == Encoded(input, i)
    {
      ghost var before := output[..j];
      output[j] := Digit(input[i]);
      output[j + 1] := Digit(input[i] / 0x100);
      output[j + 2] := Digit(input[i] / 0x10000);
      output[j + 3] := Digit(input[i] / 0x1000000);
      LittleEndianFour(input[i]);
      assert output[..j] == before;
      assert output[..j + 4] == output[..j] + LittleEndian(input[i], 4);
      i, j := i + 1, j + 4;
    }
    assert output[..j] == output[..];
  }

  lemma ShiftSplit(len: nat)
    requires len < 0x1_0000_0000
    ensures len * 8 == len / 0x2000_0000 * 0x1_0000_0000 + len * 8 % 0x1_0000_0000
  {
  }

  lemma RemainderTwice(high: nat, more: nat, over: nat)
    requires over <= more && high == (more - over) % 0x1_0000_0000
    ensures (high + over) % 0x1_0000_0000 == more % 0x1_0000_0000
  {
  }

  // Adding modulo 2^32 to the low word, and what is over to the high one.
  lemma Carried(low: nat, high: nat, turns: nat, shifted: nat, over: nat)
    requires low < 0x1_0000_0000 && high < 0x1_0000_0000 && shifted < 0x1_0000_0000
    ensures var sum := (low + shifted) % 0x1_0000_0000;
            var more := high + (if sum < shifted then 1 else 0) + over;
            turns * 0x1_0000_0000_0000_0000 + high * 0x1_0000_0000 + low + shifted + over * 0x1_0000_0000 ==
            (turns + more / 0x1_0000_0000) * 0x1_0000_0000_0000_0000 + more % 0x1_0000_0000 * 0x1_0000_0000 + sum
  {
    if low + shifted < 0x1_0000_0000 {
      assert (low + shifted) % 0x1_0000_0000 == low + shifted;
    } else {
      assert (low + shifted) % 0x1_0000_0000 == low + shifted - 0x1_0000_0000;
    }
  }

  /** The loop of init comes to the places i of its input that end a block when r bytes are buffered. Its test whether
      64 bytes are left, whose left side wraps at 2^32, is right at all of them exactly when the buffered bytes and the
      input are fewer than 2^32 together. */
  lemma LengthGuard(r: nat, len: nat)
    requires r < 64
    ensures r + len < 0x1_0000_0000 <==> forall i: nat :: i <= len && Reached(r, i) ==> GuardRight(i, len)
  {
    if r + len < 0x1_0000_0000 {
      forall i: nat | i <= len && Reached(r, i) ensures GuardRight(i, len) { NoWrap(r, i, len); }
    } else {
      var i := if len < 0x1_0000_0000 then 0x1_0000_0000 - r else len - (len + r) % 64;
      WrongAt(r, len, i);
    }
  }

  lemma WrongAt(r: nat, len: nat, i: nat)
    requires r < 64 && r + len >= 0x1_0000_0000
    requires i == if len < 0x1_0000_0000 then 0x1_0000_0000 - r else len - (len + r) % 64
    ensures i <= len && Reached(r, i) && !GuardRight(i, len)
  {
  }

  ghost predicate Reached(r: nat, i: nat)
  {
    64 <= i + r && (i + r) % 64 == 0
  }

  ghost predicate GuardRight(i: nat, len: nat)
  {
    (i + 63) % 0x1_0000_0000 < len <==> i + 64 <= len
  }

  lemma NoWrap(r: nat, i: nat, len: nat)
    requires i <= len && Reached(r, i) && r + len < 0x1_0000_0000
    ensures (i + 63) % 0x1_0000_0000 == i + 63
  {
  }

  lemma More(w: seq<byte>, text: seq<byte>, from: nat, i: nat)
    requires from <= i <= i + 64 <= |text|
    ensures w + text[from..i] + text[i..i + 64] == w + text[from..i + 64]
  {
  }

  lemma Joints(w: seq<byte>, r: seq<byte>, text: seq<byte>, j: nat, i: nat)
    requires j <= i <= |text|
    ensures w + (r + text[..j]) + text[j..i] == w + r + text[..i]
  {
  }

  lemma TwoWords(low: nat, high: nat)
    ensures Encoded([low, high], 2) == LittleEndian(low, 4) + LittleEndian(high, 4)
  {
    assert Encoded([low, high], 1) == [] + LittleEndian(low, 4);
  }

  lemma LengthWords(n: nat, turns: nat, high: nat, low: nat)
    requires 8 * n == turns * 0x1_0000_0000_0000_0000 + high * 0x1_0000_0000 + low
    requires high < 0x1_0000_0000 && low < 0x1_0000_0000
    ensures LittleEndian(8 * n, 8) == LittleEndian(low, 4) + LittleEndian(high, 4)
  {
    var x := high * 0x1_0000_0000 + low;
    TwoToThe64();
    LittleEndianJoined(high, low, x, 4, 4);
    LittleEndianJoined(turns, x, 8 * n, 0, 8);
    assert LittleEndian(turns, 0) == [];
  }

  lemma PaddingFront(p: seq<byte>, n: nat)
    requires |p| == 64 && 0 < n <= 64 && p[0] == 0x80 && forall k :: 1 <= k < 64 ==> p[k] == 0
    ensures p[..n] == [0x80] + Zeros(n - 1)
  {
  }

  lemma TailBehind(start: seq<byte>, n: nat, length: seq<byte>)
    requires |length| == 8
    ensures start + ([0x80] + Zeros(Gap(n))) + length == start + Tail(n, length)
  {
  }

  lemma Halves(start: seq<byte>, text: seq<byte>, i: nat)
    requires i <= |text|
    ensures start + text[..i] + text[i..] == start + text
  {
  }

  lemma RestOf(whole: nat, rest: nat, before: nat, more: nat)
    requires whole % 64 == 0 && before % 64 == 0 && rest < 64 && whole + rest == before + more
    ensures rest == more % 64
  {
  }

  // What a long padding leaves in the buffer.
  function Overwriting(n: nat): (b: seq<byte>)
    ensures |b| == 64
  {
    Zeros(56) + LittleEndian(8 * n, 8)
  }

  // What the object has in the place of the rest of a message of n bytes, once the digest was made.
  function Kept(n: nat, rest: seq<byte>): (k: seq<byte>)
    requires |rest| < 64
    ensures |k| == |rest|
  {
    if |rest| < 56 then rest else Overwriting(n)[..|rest|]
  }

  lemma KeptIs(n: nat, rest: seq<byte>, last: seq<byte>, length: seq<byte>, buffer: seq<byte>)
    requires |rest| < 64 && |last| == 56 && |buffer| == 64
    requires buffer == last + length && length == LittleEndian(8 * n, 8)
    requires |rest| < 56 ==> last[..|rest|] == rest
    requires |rest| >= 56 ==> last == Zeros(56)
    ensures buffer[..|rest|] == Kept(n, rest)
  {
    if |rest| < 56 {
      assert forall k :: 0 <= k < |rest| ==> buffer[k] == last[k] == last[..|rest|][k];
    }
  }

  lemma DigestIs(f: seq<byte> -> Words, m: seq<byte>, whole: seq<byte>)
    requires whole == m + Tail(|m|, LittleEndian(8 * |m|, 8)) && |whole| % 64 == 0 && Folds(f, Compress, START)
    ensures Written(f(whole)) == Digest(m)
  {
    FoldIs(f, Compress, START, whole);
  }

  class Md5 {
    const state: array<word>
    var countLow: nat
    var countHigh: nat
    const buffer: array<byte>
    const digest: array<byte>
    var finished: bool
    ghost var whole: seq<byte>
    ghost var rest: seq<byte>
    ghost var turns: nat
    // The hash of whole blocks: a value, for the proofs about buffers do not look into it.
    ghost const fold: seq<byte> -> Words

    ghost function Message(): seq<byte>
      reads this
    {
      whole + rest
    }

    ghost function Hash(): Words
      requires state.Length == 4
      reads state
    {
      Words(state[0], state[1], state[2], state[3])
    }

    ghost predicate Shape()
    {
      && state.Length == 4 && buffer.Length == 64 && digest.Length == 16 && buffer != digest
      && Folds(fold, Compress, START)
    }

    ghost predicate Hashed()
      requires state.Length == 4
      reads this, state
    {
      |whole| % 64 == 0 && Hash() == fold(whole)
    }

    // The length of the message in bits, modulo 2^64.
    ghost predicate Counted(n: nat)
      reads this
    {
      && 8 * n == turns * 0x1_0000_0000_0000_0000 + countHigh * 0x1_0000_0000 + countLow
      && countHigh < 0x1_0000_0000 && countLow < 0x1_0000_0000
    }

    ghost predicate Valid()
      reads this, state, buffer
    {
      && Shape()
      && |rest| < 64 && buffer[..|rest|] == rest && Hashed()
      && Counted(|whole| + |rest|)
    }

    // transform
    method Transform(block: array<byte>, from: nat)
      requires state.Length == 4 && from + 64 <= block.Length
      modifies state
      ensures Hash() == Compress(old(Hash()), block[from..from + 64])
    {
      var x := Decode(block, from);
      var r := Transformed(Words(state[0], state[1], state[2], state[3]), x[..]);
      state[0] := r.a;
      state[1] := r.b;
      state[2] := r.c;
      state[3] := r.d;
    }

    // The number of bits, with the carry.
    method CountBits(len: nat, ghost n: nat)
      requires Counted(n) && len < 0x1_0000_0000
      modifies this`countLow, this`countHigh, this`turns
      ensures Counted(n + len)
    {
      ShiftSplit(len);
      var shifted, over := len * 8 % 0x1_0000_0000, len / 0x2000_0000;
      Carried(countLow, countHigh, turns, shifted, over);
      ghost var more := countHigh + (if (countLow + shifted) % 0x1_0000_0000 < shifted then 1 else 0) + over;
      countLow := (countLow + shifted) % 0x1_0000_0000;
      if countLow < shifted {
        countHigh := (countHigh + 1) % 0x1_0000_0000;
      }
      RemainderTwice(countHigh, more, over);
      countHigh := (countHigh + over) % 0x1_0000_0000;
      turns := turns + more / 0x1_0000_0000;
    }

    // How far the buffer is filled, from the number of bits.
    method Index(ghost n: nat, ghost r: nat) returns (index: nat)
      requires Counted(n + r) && n % 64 == 0 && r < 64
      ensures index == r
    {
      index := countLow / 8 % 64;
    }

    // One more block.
    method Absorb(block: array<byte>, from: nat, ghost c: Chunk)
      requires Shape() && Hashed()
      requires from + 64 <= block.Length && block[from..from + 64] == c
      modifies this`whole, state
      ensures whole == old(whole) + c && Hashed()
    {
      assert FoldsAt(fold, Compress, whole, c);
      Transform(block, from);
      whole := whole + c;
    }

    // The start of the input completes the buffer.
    method UseBuffer(input: array<byte>, index: nat)
      requires Shape() && Hashed() && |rest| == index < 64 && buffer[..index] == rest
      requires input.Length >= 64 - index && input != buffer
      modifies this`whole, this`rest, state, buffer
      ensures whole == old(whole) + buffer[..] && buffer[..] == old(rest) + input[..64 - index] && rest == []
      ensures Hashed()
    {
      Copy(input, 0, buffer, index, 64 - index);
      ghost var c := rest + input[..64 - index];
      assert buffer[..] == c && buffer[0..0 + 64] == c;
      Absorb(buffer, 0, c);
      rest := [];
    }

    // Whole blocks of the input; i is how much was used.
    method UseBlocks(input: array<byte>, len: nat, from: nat, ghost text: seq<byte>, ghost r: nat) returns (i: nat)
      requires Shape() && Hashed() && Reached(r, from) && r + len < 0x1_0000_0000
      requires from <= len <= input.Length && input[..len] == text
      modifies this`whole, state
      ensures from <= i <= len < i + 64 && whole == old(whole) + text[from..i]
      ensures Hashed()
    {
      i := from;
      while (i + 63) % 0x1_0000_0000 < len
        invariant from <= i <= len && whole == old(whole) + text[from..i]
        invariant Hashed() && Reached(r, i)
      {
        NoWrap(r, i, len);
        More(old(whole), text, from, i);
        assert input[i..i + 64] == text[i..i + 64];
        Absorb(input, i, text[i..i + 64]);
        i := i + 64;
      }
      NoWrap(r, i, len);
    }

    // What has a place in the buffer behind its first `index` bytes.
    method Keep(input: array<byte>, i: nat, len: nat, index: nat, ghost tail: seq<byte>)
      requires Shape() && |rest| == index < 64 && buffer[..index] == rest
      requires i <= len <= input.Length && index + (len - i) < 64 && input != buffer
      requires input[i..len] == tail
      modifies this`rest, buffer
      ensures rest == old(rest) + tail && buffer[..|rest|] == rest
      ensures forall k :: 0 <= k < 64 && !(index <= k < |rest|) ==> buffer[k] == old(buffer[k])
    {
      Copy(input, i, buffer, index, len - i);
      rest := rest + tail;
    }

    // init, when the input does not complete a block, and when it does.
    method InitShort(input: array<byte>, len: nat, index: nat)
      requires Valid() && index == |rest| && len <= input.Length && index + len < 64 && input != buffer
      modifies this`countLow, this`countHigh, this`turns, this`rest, buffer
      ensures Valid() && rest == old(rest) + input[..len]
      ensures forall k :: |rest| <= k < 64 ==> buffer[k] == old(buffer[k])
    {
      CountBits(len, |whole| + |rest|);
      assert input[0..len] == input[..len];
      Keep(input, 0, len, index, input[..len]);
    }

    // All the blocks that the input completes.
    method TakeBlocks(input: array<byte>, len: nat, index: nat, ghost text: seq<byte>) returns (i: nat)
      requires Shape() && Hashed() && |rest| == index < 64 && buffer[..index] == rest
      requires 64 - index <= len <= input.Length && index + len < 0x1_0000_0000 && input != buffer
      requires input[..len] == text
      modifies this`whole, this`rest, state, buffer
      ensures i <= len < i + 64 && whole == old(whole + rest) + text[..i] && rest == []
      ensures Hashed()
      ensures forall k :: 0 <= k < 64 ==> buffer[k] == if k < index then old(rest)[k] else input[k - index]
    {
      ghost var w, r := whole, rest;
      assert input[..64 - index] == text[..64 - index];
      UseBuffer(input, index);
      i := UseBlocks(input, len, 64 - index, text, index);
      Joints(w, r, text, 64 - index, i);
    }

    method InitLong(input: array<byte>, len: nat, index: nat) returns (ghost used: nat)
      requires Valid() && index == |rest| && len <= input.Length && input != buffer
      requires 64 <= index + len < 0x1_0000_0000
      modifies this`countLow, this`countHigh, this`turns, this`whole, this`rest, state, buffer
      ensures Valid() && whole + rest == old(whole + rest) + input[..len]
      ensures used <= len && rest == input[..len][used..]
      ensures forall k :: |rest| <= k < 64 ==> buffer[k] == if k < index then old(rest)[k] else input[k - index]
    {
      ghost var text, start := input[..len], whole + rest;
      CountBits(len, |start|);
      var i := TakeBlocks(input, len, index, text);
      used := i;
      assert input[i..len] == text[i..];
      Keep(input, i, len, 0, text[i..]);
      Halves(start, text, i);
    }

    /** init: the message grows by the input; whole blocks go into the hash, and the rest into the buffer. */
    method Init(input: array<byte>, len: nat) returns (ghost used: nat)
      requires Valid() && len <= input.Length && |rest| + len < 0x1_0000_0000 && input != buffer
      modifies this, state, buffer
      ensures Valid() && !finished && whole + rest == old(whole + rest) + input[..len]
      ensures old(|rest|) + len < 64 ==> rest == old(rest) + input[..len]
      ensures old(|rest|) + len >= 64 ==> used <= len && rest == input[..len][used..]
      ensures old(|rest|) + len >= 64 ==>
                forall k :: |rest| <= k < 64 ==>
                  buffer[k] == if k < old(|rest|) then old(rest)[k] else input[k - old(|rest|)]
    {
      finished := false;
      var index := Index(|whole|, |rest|);
      if len >= 64 - index {
        used := InitLong(input, len, index);
      } else {
        used := 0;
        InitShort(input, len, index);
      }
    }

    /** The object for a text: the start values, and the text as its message. */
    constructor (text: seq<byte>)
      requires |text| < 0x1_0000_0000
      ensures Valid() && !finished && Message() == text && fresh(state) && fresh(buffer) && fresh(digest)
    {
      finished := false;
      countLow := 0;
      countHigh := 0;
      state := new word[4][0x67452301, 0xefcdab89, 0x98badcfe, 0x10325476];
      buffer := new byte[64];
      digest := new byte[16];
      whole, rest, turns := [], [], 0;
      fold := WholeFold(Compress, START);
      new;
      FoldsWhole(Compress, START);
      var input := new byte[|text|](k requires 0 <= k < |text| => text[k]);
      ghost var used := Init(input, input.Length);
      assert input[..] == text;
    }

    // The bytes of the length.
    method LengthBits(ghost n: nat) returns (bits: array<byte>)
      requires Counted(n)
      ensures fresh(bits) && bits.Length == 8 && bits[..] == LittleEndian(8 * n, 8)
    {
      bits := new byte[8];
      Encode([countLow, countHigh], bits);
      TwoWords(countLow, countHigh);
      LengthWords(n, turns, countHigh, countLow);
    }

    // The padding bytes, up to 8 bytes before the end of a block: of this one, or of the next.
    method PadShort(padding: array<byte>, index: nat, ghost n: nat)
      requires Valid() && n == |whole| + |rest| && index == |rest| < 56 && padding != buffer
      requires padding.Length == 64 && padding[..56 - index] == [0x80] + Zeros(Gap(n))
      modifies this, state, buffer
      ensures Valid() && !finished && |rest| == 56 && whole + rest == old(whole + rest) + ([0x80] + Zeros(Gap(n)))
      ensures rest[..index] == old(rest)
    {
      ghost var start, before := whole + rest, rest;
      ghost var used := Init(padding, 56 - index);
    }

    method PadLong(padding: array<byte>, index: nat, ghost n: nat)
      requires Valid() && n == |whole| + |rest| && index == |rest| >= 56 && padding != buffer
      requires padding.Length == 64 && padding[..120 - index] == [0x80] + Zeros(Gap(n))
      modifies this, state, buffer
      ensures Valid() && !finished && whole + rest == old(whole + rest) + ([0x80] + Zeros(Gap(n)))
      ensures rest == Zeros(56)
    {
      ghost var w, p := |whole|, padding[..120 - index];
      ghost var used := Init(padding, 120 - index);
      RestOf(|whole|, |rest|, w, 120);
      assert used == 64 - index;
      assert forall k :: 1 <= k < 120 - index ==> p[k] == 0;
    }

    method PadFront(ghost n: nat)
      requires Valid() && n == |whole| + |rest|
      modifies this, state, buffer
      ensures Valid() && !finished && |rest| == 56 && whole + rest == old(whole + rest) + ([0x80] + Zeros(Gap(n)))
      ensures |old(rest)| < 56 ==> rest[..|old(rest)|] == old(rest)
      ensures |old(rest)| >= 56 ==> rest == Zeros(56)
    {
      var padding := new byte[64](k => if k == 0 then 0x80 else 0);
      var index := Index(|whole|, |rest|);
      GapOf(|whole|, |rest|);
      var padLen := if index < 56 then 56 - index else 120 - index;
      PaddingFront(padding[..], padLen);
      assert padding[..padLen] == padding[..][..padLen];
      if index < 56 {
        PadShort(padding, index, n);
      } else {
        PadLong(padding, index, n);
      }
    }

    // The padding and the length, as two more inputs; the rest of the message in the buffer may be lost.
    method Pad(ghost n: nat)
      requires Valid() && n == |whole| + |rest|
      modifies this, state, buffer
      ensures Valid() && !finished && rest == [] && whole == old(whole + rest) + Tail(n, LittleEndian(8 * n, 8))
      ensures buffer[..|old(rest)|] == Kept(n, old(rest))
    {
      ghost var start, short := whole + rest, rest;
      var bits := LengthBits(n);
      PadFront(n);
      ghost var last := rest;
      AddLength(bits);
      KeptIs(n, short, last, bits[..], buffer[..]);
      TailBehind(start, n, LittleEndian(8 * n, 8));
    }

    method AddLength(bits: array<byte>)
      requires Valid() && |rest| == 56 && bits.Length == 8 && bits != buffer
      modifies this, state, buffer
      ensures Valid() && !finished && rest == [] && whole == old(whole + rest) + bits[..]
      ensures buffer[..] == old(rest) + bits[..]
    {
      ghost var w, b := |whole|, bits[..];
      assert bits[..8] == b;
      ghost var used := Init(bits, 8);
      RestOf(|whole|, |rest|, w, 64);
      assert whole + rest == whole;
    }

    // The saved state and count put back; the buffer is left as it is.
    method Restore(a: word, b: word, c: word, d: word, low: nat, high: nat,
                   ghost oldWhole: seq<byte>, ghost oldTurns: nat, ghost index: nat)
      requires Shape() && |oldWhole| % 64 == 0 && index < 64 && Words(a, b, c, d) == fold(oldWhole)
      requires 8 * (|oldWhole| + index) == oldTurns * 0x1_0000_0000_0000_0000 + high * 0x1_0000_0000 + low
      requires high < 0x1_0000_0000 && low < 0x1_0000_0000
      modifies this`countLow, this`countHigh, this`whole, this`rest, this`turns, state
      ensures Valid() && whole == oldWhole && rest == buffer[..index]
    {
      state[0] := a;
      state[1] := b;
      state[2] := c;
      state[3] := d;
      countLow := low;
      countHigh := high;
      whole, rest, turns := oldWhole, buffer[..index], oldTurns;
    }

    method MakeDigest(ghost n: nat)
      requires Valid() && n == |whole| + |rest|
      modifies this, state, buffer, digest
      ensures Shape() && !finished && digest[..] == Digest(old(whole + rest))
      ensures buffer[..|old(rest)|] == Kept(n, old(rest))
    {
      ghost var m := whole + rest;
      Pad(n);
      Encode([Value32(state[0]), Value32(state[1]), Value32(state[2]), Value32(state[3])], digest);
      DigestIs(fold, m, whole);
    }

    /** getDigest: the digest of the message. The padding goes through the same buffer, so afterwards the object stands
        for the same message only when the rest of it was short; and the flag that should spare a second computation is
        cleared again by init. */
    method GetDigest()
      requires Valid() && !finished
      modifies this, state, buffer, digest
      ensures Valid() && !finished
      ensures digest[..] == Digest(old(whole + rest))
      ensures whole == old(whole) && rest == Kept(old(|whole| + |rest|), old(rest))
    {
      if !finished {
        finished := true;
        var a, b, c, d := state[0], state[1], state[2], state[3];
        var low, high := countLow, countHigh;
        ghost var w, r, t := whole, rest, turns;
        MakeDigest(|w| + |r|);
        ghost var made, kept := digest[..], buffer[..|r|];
        Restore(a, b, c, d, low, high, w, t, |r|);
        assert digest[..] == made && rest == kept;
      }
    }

    /** Two calls in a row, as to_string_32 and then to_string_16 make them: the second gives the digest of the message
        that the first has left, with `kept` in the place of the rest; the same one, if the rest was short or is what
        overwrites it. */
    method GetDigestTwice(ghost n: nat, ghost kept: seq<byte>) returns (first: seq<byte>, second: seq<byte>)
      requires Valid() && !finished && n == |whole| + |rest| && kept == Kept(n, rest)
      modifies this, state, buffer, digest
      ensures Valid() && !finished && first == Digest(old(whole + rest)) && second == Digest(old(whole) + kept)
      ensures old(|rest|) < 56 || old(rest) == Overwriting(n)[..old(|rest|)] ==> second == first
    {
      ghost var w := whole;
      KeptSame(n, rest);
      GetDigest();
      first := digest[..];
      assert whole + rest == w + kept;
      GetDigest();
      second := digest[..];
    }
  }

  /** The message that a digest leaves is the one it was made of exactly if that leaves room for its length in the last
      block, or its rest is what overwrites it. */
  lemma KeptSame(n: nat, rest: seq<byte>)
    requires |rest| < 64
    ensures Kept(n, rest) == rest <==> |rest| < 56 || rest == Overwriting(n)[..|rest|]
  {
  }

  /** A message of 56 ones, say, is forgotten. */
  lemma OnesForgotten()
    ensures Kept(56, seq(56, _ => 1)) == Zeros(56) != seq(56, _ => 1)
  {
    var ones: seq<byte> := seq(56, _ => 1);
    Ends(Zeros(56), LittleEndian(8 * 56, 8));
    assert ones[0] == 1 && Zeros(56)[0] == 0;
  }
}
