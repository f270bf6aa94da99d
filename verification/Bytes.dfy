/** Byte strings: the two byte orders of numbers, folding a function over blocks of 64 bytes, and padding to them. */
module Bytes {
  import opened Basics

  type byte = bv8
  type word = bv32

  function Zeros(n: nat): (z: seq<byte>)
    ensures |z| == n
  {
    seq(n, _ => 0)
  }

  lemma Ends(a: seq<byte>, b: seq<byte>)
    ensures (a + b)[..|a|] == a && (a + b)[|a|..] == b
  {
  }

  // s with t from `at` on.
  function Patched(s: seq<byte>, at: nat, t: seq<byte>): seq<byte>
    requires at + |t| <= |s|
  {
    s[..at] + t + s[at + |t|..]
  }

  /* ---- Numbers ---- */

  // The last digit to base 256.
  function Digit(n: nat): byte
  {
    (n % 256) as byte
  }

  function Value(d: byte): (v: nat)
    ensures v < 256
  {
    d as nat
  }

  lemma DigitValue(n: nat)
    ensures Value(Digit(n)) == n % 256
  {
    ByteBack(n % 256);
  }

  lemma ByteBack(v: nat)
    requires v < 256
    ensures Value(v as byte) == v
  {
    if v < 16 {} else if v < 32 {} else if v < 64 {} else if v < 96 {} else if v < 128 {} else if v < 192 {} else {}
  }

  // The last `count` digits of n to base 256, the greatest first.
  function BigEndian(n: nat, count: nat): (s: seq<byte>)
    ensures |s| == count
    decreases count, n
  {
    if count == 0 then [] else BigEndian(n / 256, count - 1) + [Digit(n)]
  }

  // The same digits, the least first.
  function LittleEndian(n: nat, count: nat): (s: seq<byte>)
    ensures |s| == count
    decreases count, n
  {
    if count == 0 then [] else [Digit(n)] + LittleEndian(n / 256, count - 1)
  }

  // The number that bytes stand for, the greatest digit first.
  function Number(s: seq<byte>): nat
  {
    if s == [] then 0 else 256 * Number(s[..|s| - 1]) + Value(s[|s| - 1])
  }

  lemma NumberNext(s: seq<byte>, from: nat, k: nat)
    requires from <= k < |s|
    ensures Number(s[from..k + 1]) == 256 * Number(s[from..k]) + Value(s[k])
  {
    assert s[from..k + 1][..k - from] == s[from..k];
  }

  function Power256(n: nat): (p: nat)
    ensures p > 0
    decreases n, 0
  {
    if n == 0 then 1 else 256 * Power256(n - 1)
  }

  lemma TwoToThe64()
    ensures Power256(2) == 0x1_0000 && Power256(4) == 0x1_0000_0000 && Power256(8) == 0x1_0000_0000_0000_0000
  {
    assert Power256(3) == 0x100_0000;
    assert Power256(6) == 0x1_0000_0000_0000;
  }

  /** Writing a number and reading it back leaves its last digits. */
  lemma {:induction false} NumberBigEndian(n: nat, count: nat)
    ensures Number(BigEndian(n, count)) == n % Power256(count)
  {
    if count > 0 {
      NumberBigEndian(n / 256, count - 1);
      Ends(BigEndian(n / 256, count - 1), [Digit(n)]);
      Remainder(n, Power256(count - 1));
      DigitValue(n);
    }
  }

  /** A number with as few digits comes back. */
  lemma NumberBack(n: nat, count: nat)
    requires n < Power256(count)
    ensures Number(BigEndian(n, count)) == n
  {
    NumberBigEndian(n, count);
    ModIs(n, 0, n, Power256(count));
  }

  /** Numbers with as few digits are told apart by them. */
  lemma SameDigits(a: nat, b: nat, count: nat)
    requires a < Power256(count) && b < Power256(count) && BigEndian(a, count) == BigEndian(b, count)
    ensures a == b
  {
    NumberBack(a, count);
    NumberBack(b, count);
  }

  /** Two numbers written one behind the other. */
  lemma {:induction false} BigEndianJoined(high: nat, low: nat, n: nat, more: nat, count: nat)
    requires low < Power256(count) && n == high * Power256(count) + low
    ensures BigEndian(n, more + count) == BigEndian(high, more) + BigEndian(low, count)
  {
    if count > 0 {
      Joined(high, Power256(count - 1), low, n);
      DigitIs(n, low);
      BigEndianJoined(high, low / 256, n / 256, more, count - 1);
    }
  }

  lemma Joined(high: nat, p: nat, low: nat, n: nat)
    requires n == high * (256 * p) + low
    ensures n / 256 == high * p + low / 256 && n % 256 == low % 256
  {
    assert n == 256 * (high * p) + low;
  }

  lemma DigitIs(n: nat, m: nat)
    requires n % 256 == m % 256
    ensures Digit(n) == Digit(m)
  {
  }

  /** The same for the other order; and digits beyond the last do not count. */
  lemma {:induction false} LittleEndianJoined(high: nat, low: nat, n: nat, more: nat, count: nat)
    requires low < Power256(count) && n == high * Power256(count) + low
    ensures LittleEndian(n, count + more) == LittleEndian(low, count) + LittleEndian(high, more)
  {
    if count > 0 {
      Joined(high, Power256(count - 1), low, n);
      DigitIs(n, low);
      LittleEndianJoined(high, low / 256, n / 256, more, count - 1);
    }
  }

  // Four digits at once.
  function FourDigits(n: nat): seq<byte>
  {
    [Digit(n / 0x1000000), Digit(n / 0x10000), Digit(n / 0x100), Digit(n)]
  }

  lemma BigEndianFour(n: nat)
    ensures BigEndian(n, 4) == FourDigits(n)
  {
    assert BigEndian(n / 0x1000000, 1) == [] + [Digit(n / 0x1000000)];
    assert BigEndian(n / 0x10000, 2) == BigEndian(n / 0x1000000, 1) + [Digit(n / 0x10000)];
    assert BigEndian(n / 0x100, 3) == BigEndian(n / 0x10000, 2) + [Digit(n / 0x100)];
  }

  lemma LittleEndianFour(n: nat)
    ensures LittleEndian(n, 4) == [Digit(n), Digit(n / 0x100), Digit(n / 0x10000), Digit(n / 0x1000000)]
  {
    LittleEndianQuotients(n, n / 0x100, n / 0x10000, n / 0x1000000);
  }

  lemma LittleEndianQuotients(n: nat, a: nat, b: nat, c: nat)
    requires a == n / 256 && b == a / 256 && c == b / 256
    ensures LittleEndian(n, 4) == [Digit(n), Digit(a), Digit(b), Digit(c)]
  {
    assert LittleEndian(b, 2) == [Digit(b), Digit(c)];
    assert LittleEndian(a, 3) == [Digit(a), Digit(b), Digit(c)];
  }

  lemma Remainder(n: nat, p: nat)
    requires p > 0
    ensures 256 * (n / 256 % p) + n % 256 == n % (256 * p)
  {
    var q := n / 256 / p;
    assert n == 256 * (q * p + n / 256 % p) + n % 256;
    ModIs(n, q, 256 * (n / 256 % p) + n % 256, 256 * p);
  }

  /* ---- Blocks of 64 bytes ---- */

  type Chunk = s: seq<byte> | |s| == 64 witness Zeros(64)

  function Block(m: seq<byte>, i: nat): Chunk
    requires 64 * i + 64 <= |m|
  {
    m[64 * i..64 * i + 64]
  }

  // What f makes of a start value and the first n blocks of m in turn.
  function FoldTo<S>(f: (S, Chunk) -> S, start: S, m: seq<byte>, n: nat): S
    requires 64 * n <= |m|
  {
    if n == 0 then start else f(FoldTo(f, start, m, n - 1), Block(m, n - 1))
  }

  /** What f makes of all blocks. */
  function Fold<S>(f: (S, Chunk) -> S, start: S, m: seq<byte>): S
    requires |m| % 64 == 0
  {
    FoldTo(f, start, m, |m| / 64)
  }

  lemma {:induction false} SameBlocks<S>(f: (S, Chunk) -> S, start: S, m: seq<byte>, p: seq<byte>, n: nat)
    requires 64 * n <= |m| <= |p| && forall k :: 0 <= k < |m| ==> p[k] == m[k]
    ensures FoldTo(f, start, p, n) == FoldTo(f, start, m, n)
  {
    if n > 0 {
      assert Block(p, n - 1) == Block(m, n - 1);
      SameBlocks(f, start, m, p, n - 1);
    }
  }

  lemma FoldChunk<S>(f: (S, Chunk) -> S, start: S, m: seq<byte>, c: Chunk)
    requires |m| % 64 == 0
    ensures Fold(f, start, m + c) == f(Fold(f, start, m), c)
  {
    var n := |m| / 64;
    SameBlocks(f, start, m, m + c, n);
    assert Block(m + c, n) == c;
  }

  // g folds the blocks of a text, one after the other. As a value it is something that proofs do not look into.
  ghost predicate Folds<S>(g: seq<byte> -> S, f: (S, Chunk) -> S, start: S)
  {
    g([]) == start && forall m: seq<byte>, c: Chunk :: FoldsAt(g, f, m, c)
  }

  ghost predicate FoldsAt<S>(g: seq<byte> -> S, f: (S, Chunk) -> S, m: seq<byte>, c: Chunk)
  {
    |m| % 64 == 0 ==> g(m + c) == f(g(m), c)
  }

  lemma {:induction false} FoldToIs<S>(g: seq<byte> -> S, f: (S, Chunk) -> S, start: S, m: seq<byte>, n: nat)
    requires Folds(g, f, start) && 64 * n <= |m|
    ensures g(m[..64 * n]) == FoldTo(f, start, m, n)
  {
    if n == 0 {
      assert m[..0] == [];
    } else {
      FoldToIs(g, f, start, m, n - 1);
      assert m[..64 * n] == m[..64 * (n - 1)] + Block(m, n - 1);
      assert FoldsAt(g, f, m[..64 * (n - 1)], Block(m, n - 1));
    }
  }

  lemma FoldIs<S>(g: seq<byte> -> S, f: (S, Chunk) -> S, start: S, m: seq<byte>)
    requires Folds(g, f, start) && |m| % 64 == 0
    ensures g(m) == Fold(f, start, m)
  {
    FoldToIs(g, f, start, m, |m| / 64);
    assert m[..|m|] == m;
  }

  ghost function WholeFold<S>(f: (S, Chunk) -> S, start: S): seq<byte> -> S
  {
    m => if |m| % 64 == 0 then Fold(f, start, m) else start
  }

  lemma FoldsWhole<S>(f: (S, Chunk) -> S, start: S)
    ensures Folds(WholeFold(f, start), f, start)
  {
    forall m: seq<byte>, c: Chunk ensures FoldsAt(WholeFold(f, start), f, m, c) {
      if |m| % 64 == 0 { FoldChunk(f, start, m, c); }
    }
  }

  /* ---- Padding to whole blocks ---- */

  // How many zeros follow the first padding byte.
  function Gap(n: nat): (k: nat)
    ensures k < 64 && (n + 1 + k) % 64 == 56
  {
    if n % 64 < 56 then 55 - n % 64 else 119 - n % 64
  }

  /** The padding is the shortest that leaves room for the length at the end of a block. */
  lemma GapIsLeast(n: nat, k: nat)
    requires (n + 1 + k) % 64 == 56
    ensures Gap(n) <= k
  {
  }

  // What follows a message of n bytes: a one bit, zeros, and eight bytes for the length.
  function Tail(n: nat, length: seq<byte>): (t: seq<byte>)
    requires |length| == 8
    ensures |t| == Gap(n) + 9
  {
    [0x80] + Zeros(Gap(n)) + length
  }

  lemma TailCompletes(n: nat)
    ensures (n + (Gap(n) + 9)) % 64 == 0
  {
    assert n + (Gap(n) + 9) == (n + 1 + Gap(n)) + 8;
  }

  /** What f makes of a padded message. */
  function FoldPadded<S>(f: (S, Chunk) -> S, start: S, m: seq<byte>, length: seq<byte>): S
    requires |length| == 8
  {
    TailCompletes(|m|);
    Fold(f, start, m + Tail(|m|, length))
  }

  // The last block when the rest of a message leaves room for the length, and the last two when not.
  function LastChunk(rest: seq<byte>, length: seq<byte>): Chunk
    requires |rest| < 56 && |length| == 8
  {
    rest + [0x80] + Zeros(55 - |rest|) + length
  }

  function FilledChunk(rest: seq<byte>): Chunk
    requires 56 <= |rest| < 64
  {
    rest + [0x80] + Zeros(63 - |rest|)
  }

  function ExtraChunk(length: seq<byte>): Chunk
    requires |length| == 8
  {
    Zeros(56) + length
  }

  lemma GapOf(whole: nat, rest: nat)
    requires whole % 64 == 0 && rest < 64
    ensures Gap(whole + rest) == if rest < 56 then 55 - rest else 119 - rest
  {
    assert (whole + rest) % 64 == rest;
  }

  lemma ShortTail(whole: seq<byte>, rest: seq<byte>, length: seq<byte>)
    requires |whole| % 64 == 0 && |rest| < 56 && |length| == 8
    ensures whole + rest + Tail(|whole + rest|, length) == whole + LastChunk(rest, length)
  {
    GapOf(|whole|, |rest|);
  }

  lemma LongTail(whole: seq<byte>, rest: seq<byte>, length: seq<byte>)
    requires |whole| % 64 == 0 && 56 <= |rest| < 64 && |length| == 8
    ensures whole + rest + Tail(|whole + rest|, length) == whole + FilledChunk(rest) + ExtraChunk(length)
  {
    GapOf(|whole|, |rest|);
    assert Zeros(119 - |rest|) == Zeros(63 - |rest|) + Zeros(56);
  }

  /** One more block or two, by the room that is left. */
  lemma FoldTail<S>(f: (S, Chunk) -> S, start: S, whole: seq<byte>, rest: seq<byte>, length: seq<byte>)
    requires |whole| % 64 == 0 && |rest| < 64 && |length| == 8
    ensures FoldPadded(f, start, whole + rest, length) ==
            if |rest| < 56 then f(Fold(f, start, whole), LastChunk(rest, length))
            else f(f(Fold(f, start, whole), FilledChunk(rest)), ExtraChunk(length))
  {
    if |rest| < 56 {
      ShortTail(whole, rest, length);
      FoldChunk(f, start, whole, LastChunk(rest, length));
    } else {
      LongTail(whole, rest, length);
      FoldChunk(f, start, whole, FilledChunk(rest));
      FoldChunk(f, start, whole + FilledChunk(rest), ExtraChunk(length));
    }
  }

  /** The same for a value g. */
  lemma FoldedTail<S>(g: seq<byte> -> S, f: (S, Chunk) -> S, start: S, whole: seq<byte>, rest: seq<byte>,
                      length: seq<byte>)
    requires |whole| % 64 == 0 && |rest| < 64 && |length| == 8 && Folds(g, f, start)
    ensures FoldPadded(f, start, whole + rest, length) ==
            if |rest| < 56 then f(g(whole), LastChunk(rest, length))
            else f(f(g(whole), FilledChunk(rest)), ExtraChunk(length))
  {
    FoldIs(g, f, start, whole);
    FoldTail(f, start, whole, rest, length);
  }
}
