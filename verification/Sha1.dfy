/** SHA-1: the compression of one block against sections 4.1.1, 6.1.2 of FIPS 180-4, and the object that is fed a
    message in any pieces against the digest of the padded message (section 5.1.1). */
module Sha1 {
  import opened Bytes

  datatype Words = Words(a: word, b: word, c: word, d: word, e: word)

  /* ---- The standard's compression ---- */

  function Rotl(bits: nat, w: word): word
    requires 0 < bits < 32
  {
    (w << bits) | (w >> (32 - bits))
  }

  function Ch(x: word, y: word, z: word): word
  {
    (x & y) ^ (!x & z)
  }

  function Parity(x: word, y: word, z: word): word
  {
    x ^ y ^ z
  }

  function Maj(x: word, y: word, z: word): word
  {
    (x & y) ^ (x & z) ^ (y & z)
  }

  // The logical function and the constant of step t.
  function F(t: nat, x: word, y: word, z: word): word
  {
    if t < 20 then Ch(x, y, z) else if 40 <= t < 60 then Maj(x, y, z) else Parity(x, y, z)
  }

  function K(t: nat): word
  {
    if t < 20 then 0x5A827999 else if t < 40 then 0x6ED9EBA1 else if t < 60 then 0x8F1BBCDC else 0xCA62C1D6
  }

  function WordOf(c: Chunk, t: nat): word
    requires t < 16
  {
    ((c[4 * t] as word) << 24) | ((c[4 * t + 1] as word) << 16) | ((c[4 * t + 2] as word) << 8) | (c[4 * t + 3] as word)
  }

  // Word t of the message schedule.
  function Schedule(c: Chunk, t: nat): word
    decreases t, c
  {
    if t < 16 then WordOf(c, t)
    else Rotl(1, Schedule(c, t - 3) ^ Schedule(c, t - 8) ^ Schedule(c, t - 14) ^ Schedule(c, t - 16))
  }

  function Step(s: Words, t: nat, w: word): Words
  {
    Words(Total(Rotl(5, s.a), F(t, s.b, s.c, s.d), s.e, w, K(t)), s.a, Rotl(30, s.b), s.c, s.d)
  }

  function Total(v: word, w: word, x: word, y: word, z: word): word
  {
    v + w + x + y + z
  }

  // The working variables after t steps.
  function Steps(s: Words, c: Chunk, t: nat): Words
    decreases t, c
  {
    if t == 0 then s else Step(Steps(s, c, t - 1), t - 1, Schedule(c, t - 1))
  }

  function Sum(s: Words, t: Words): Words
  {
    Words(Plus(s.a, t.a), Plus(s.b, t.b), Plus(s.c, t.c), Plus(s.d, t.d), Plus(s.e, t.e))
  }

  function Plus(a: word, b: word): word
  {
    a + b
  }

  function Compress(h: Words, c: Chunk): Words
  {
    Sum(h, Steps(h, c, 80))
  }

  /* ---- The standard's padding ---- */

  const H0 := Words(0x67452301, 0xEFCDAB89, 0x98BADCFE, 0x10325476, 0xC3D2E1F0)

  /** The digest of a message: the blocks of the message, padded and with its length in bits, folded into
      the initial value. */
  function Digest(m: seq<byte>): Words
  {
    FoldPadded(Compress, H0, m, BigEndian(8 * |m|, 8))
  }

  // The padded message.
  function Padded(m: seq<byte>): seq<byte>
  {
    m + Tail(|m|, BigEndian(8 * |m|, 8))
  }

  lemma PaddedEnds(m: seq<byte>)
    ensures var p := Padded(m);
            |p| >= |m| + 8 && p[..|m|] == m && p[|p| - 8..] == BigEndian(8 * |m|, 8)
  {
    Ends(m, Tail(|m|, BigEndian(8 * |m|, 8)));
    Ends(m + ([0x80] + Zeros(Gap(|m|))), BigEndian(8 * |m|, 8));
    assert Padded(m) == m + ([0x80] + Zeros(Gap(|m|))) + BigEndian(8 * |m|, 8);
  }

  /** Different messages are padded differently. */
  lemma PaddedDistinct(m: seq<byte>, n: seq<byte>)
    requires 8 * |m| < 0x1_0000_0000_0000_0000 && 8 * |n| < 0x1_0000_0000_0000_0000
    requires Padded(m) == Padded(n)
    ensures m == n
  {
    PaddedEnds(m);
    PaddedEnds(n);
    TwoToThe64();
    SameDigits(8 * |m|, 8 * |n|, 8);
  }

  /* ---- Compression, in place ---- */

  // CircularShift; the masks keep all 32 bits.
  function CircularShift(bits: nat, w: word): (r: word)
    requires 0 < bits < 32
    ensures r == Rotl(bits, w)
  {
    ((w << bits) & 0xFFFFFFFF) | ((w & 0xFFFFFFFF) >> (32 - bits))
  }

  // The object's forms of the logical functions.
  lemma Choices(x: word, y: word, z: word)
    ensures (x & y) | (!x & z) == Ch(x, y, z)
    ensures (x & y) | (x & z) | (y & z) == Maj(x, y, z)
  {
  }

  lemma Masked(x: word)
    ensures x & 0xFFFFFFFF == x
  {
  }

  ghost predicate Scheduled(w: seq<word>, c: Chunk, n: nat)
  {
    n <= |w| && forall t: nat :: t < n ==> ScheduledAt(w, c, t)
  }

  ghost predicate ScheduledAt(w: seq<word>, c: Chunk, t: nat)
  {
    t < |w| && w[t] == Schedule(c, t)
  }

  lemma ScheduledMore(v: seq<word>, w: seq<word>, c: Chunk, t: nat)
    requires t < |v| == |w| && Scheduled(v, c, t) && w == v[t := Schedule(c, t)]
    ensures Scheduled(w, c, t + 1)
  {
    forall k: nat | k < t + 1 ensures ScheduledAt(w, c, k) {
      assert k < t ==> ScheduledAt(v, c, k);
    }
  }

  method ScheduleOf(block: array<byte>) returns (w: array<word>)
    requires block.Length == 64
    ensures fresh(w) && w.Length == 80 && Scheduled(w[..], block[..], 80)
  {
    ghost var c := block[..];
    w := new word[80];
    var t := 0;
    while t < 16
      invariant 0 <= t <= 16 && block[..] == c && Scheduled(w[..], c, t)
    {
      ghost var before := w[..];
      var x := (block[t * 4] as word) << 24;
      x := x | ((block[t * 4 + 1] as word) << 16);
      x := x | ((block[t * 4 + 2] as word) << 8);
      x := x | (block[t * 4 + 3] as word);
      w[t] := x;
      ScheduledMore(before, w[..], c, t);
      t := t + 1;
    }
    while t < 80
      invariant 16 <= t <= 80 && block[..] == c && Scheduled(w[..], c, t)
    {
      ghost var before := w[..];
      assert ScheduledAt(before, c, t - 3) && ScheduledAt(before, c, t - 8);
      assert ScheduledAt(before, c, t - 14) && ScheduledAt(before, c, t - 16);
      w[t] := CircularShift(1, w[t - 3] ^ w[t - 8] ^ w[t - 14] ^ w[t - 16]);
      ScheduledMore(before, w[..], c, t);
      t := t + 1;
    }
  }

  // The new working variables from the value of the step's logical function, and its constant.
  method NextWords(s: Words, ghost t: nat, w: word, mixed: word, k: word) returns (r: Words)
    requires mixed == F(t, s.b, s.c, s.d) && k == K(t)
    ensures r == Step(s, t, w)
  {
    var temp := Total(CircularShift(5, s.a), mixed, s.e, w, k);
    Masked(temp);
    temp := temp & 0xFFFFFFFF;
    r := Words(temp, s.a, CircularShift(30, s.b), s.c, s.d);
  }

  // Steps 0 to 19.
  method ChoiceSteps(w: array<word>, ghost c: Chunk, ghost start: Words, s: Words) returns (r: Words)
    requires w.Length == 80 && Scheduled(w[..], c, 80) && s == Steps(start, c, 0)
    ensures r == Steps(start, c, 20)
  {
    r := s;
    var t := 0;
    while t < 20
      invariant 0 <= t <= 20 && r == Steps(start, c, t)
    {
      assert ScheduledAt(w[..], c, t);
      Choices(r.b, r.c, r.d);
      r := NextWords(r, t, w[t], (r.b & r.c) | (!r.b & r.d), 0x5A827999);
      t := t + 1;
    }
  }

  // Steps 20 to 39, and 60 to 79.
  method ParitySteps(w: array<word>, ghost c: Chunk, ghost start: Words, s: Words, from: nat, k: word)
    returns (r: Words)
    requires w.Length == 80 && Scheduled(w[..], c, 80) && s == Steps(start, c, from) && (from == 20 || from == 60)
    requires k == K(from)
    ensures r == Steps(start, c, from + 20)
  {
    r := s;
    var t := from;
    while t < from + 20
      invariant from <= t <= from + 20 && r == Steps(start, c, t)
    {
      assert ScheduledAt(w[..], c, t);
      r := NextWords(r, t, w[t], r.b ^ r.c ^ r.d, k);
      t := t + 1;
    }
  }

  // Steps 40 to 59.
  method MajoritySteps(w: array<word>, ghost c: Chunk, ghost start: Words, s: Words) returns (r: Words)
    requires w.Length == 80 && Scheduled(w[..], c, 80) && s == Steps(start, c, 40)
    ensures r == Steps(start, c, 60)
  {
    r := s;
    var t := 40;
    while t < 60
      invariant 40 <= t <= 60 && r == Steps(start, c, t)
    {
      assert ScheduledAt(w[..], c, t);
      Choices(r.b, r.c, r.d);
      r := NextWords(r, t, w[t], (r.b & r.c) | (r.b & r.d) | (r.c & r.d), 0x8F1BBCDC);
      t := t + 1;
    }
  }

  method Added(a: word, b: word) returns (r: word)
    ensures r == Plus(a, b)
  {
    r := (a + b) & 0xFFFFFFFF;
  }

  method AddedWords(h: Words, s: Words) returns (r: Words)
    ensures r == Sum(h, s)
  {
    var a := Added(h.a, s.a);
    var b := Added(h.b, s.b);
    var c := Added(h.c, s.c);
    var d := Added(h.d, s.d);
    var e := Added(h.e, s.e);
    r := Words(a, b, c, d, e);
  }

  method Compressed(h: Words, w: array<word>, ghost c: Chunk) returns (r: Words)
    requires w.Length == 80 && Scheduled(w[..], c, 80)
    ensures r == Compress(h, c)
  {
    var s := ChoiceSteps(w, c, h, h);
    s := ParitySteps(w, c, h, s, 20, 0x6ED9EBA1);
    s := MajoritySteps(w, c, h, s);
    s := ParitySteps(w, c, h, s, 60, 0xCA62C1D6);
    r := AddedWords(h, s);
  }

  lemma LengthBytes(n: nat, high: nat, low: nat)
    requires 8 * n == high * 0x1_0000_0000 + low && low < 0x1_0000_0000
    ensures BigEndian(8 * n, 8) == FourDigits(high) + FourDigits(low)
  {
    assert Power256(4) == 0x1_0000_0000;
    BigEndianJoined(high, low, 8 * n, 4, 4);
    BigEndianFour(high);
    BigEndianFour(low);
  }

  // What the object holds between calls; `message` is all that it was fed since it was last reset.
  class Sha1 {
    const H: array<word>
    const block: array<byte>
    var index: nat
    var lengthLow: nat
    var lengthHigh: nat
    var computed: bool
    var corrupted: bool
    ghost var whole: seq<byte>
    ghost var rest: seq<byte>
    // The hash of whole blocks.
    ghost const fold: seq<byte> -> Words

    ghost function Message(): seq<byte>
      reads this
    {
      whole + rest
    }

    ghost predicate Shape()
    {
      H.Length == 5 && block.Length == 64 && Folds(fold, Compress, H0)
    }

    ghost function Hash(): Words
      requires H.Length == 5
      reads H
    {
      Words(H[0], H[1], H[2], H[3], H[4])
    }

    // The hash of the whole blocks, and the bytes behind them.
    ghost predicate Collected()
      requires Shape()
      reads this, H, block
    {
      && |whole| % 64 == 0 && |rest| == index < 64 && block[..index] == rest
      && Hash() == fold(whole)
    }

    // The length of the message in bits.
    ghost predicate Counted(n: nat)
      reads this
    {
      && 8 * n == lengthHigh * 0x1_0000_0000 + lengthLow
      && lengthHigh < 0x1_0000_0000 && lengthLow < 0x1_0000_0000 && lengthLow % 8 == 0
    }

    ghost predicate Valid()
      reads this, H, block
    {
      && Shape()
      && (!corrupted ==> if computed then Hash() == Digest(Message())
                         else Collected() && Counted(|whole| + |rest|))
    }

    /** Reset, also the whole work of the constructor. */
    method Reset()
      requires Shape()
      modifies this, H
      ensures Valid() && !computed && !corrupted && Message() == []
    {
      lengthLow := 0;
      lengthHigh := 0;
      index := 0;
      H[0] := 0x67452301;
      H[1] := 0xEFCDAB89;
      H[2] := 0x98BADCFE;
      H[3] := 0x10325476;
      H[4] := 0xC3D2E1F0;
      computed := false;
      corrupted := false;
      whole := [];
      rest := [];
    }

    constructor ()
      ensures Valid() && !computed && !corrupted && Message() == []
      ensures fresh(H) && fresh(block)
    {
      H := new word[5];
      block := new byte[64];
      fold := WholeFold(Compress, H0);
      new;
      FoldsWhole(Compress, H0);
      Reset();
    }

    /** The compression of the block that was collected. */
    method ProcessMessageBlock()
      requires Shape()
      modifies this`index, H
      ensures Hash() == Compress(old(Hash()), block[..]) && index == 0
    {
      ghost var chunk := block[..];
      var w := ScheduleOf(block);
      var r := Compressed(Words(H[0], H[1], H[2], H[3], H[4]), w, chunk);
      H[0] := r.a;
      H[1] := r.b;
      H[2] := r.c;
      H[3] := r.d;
      H[4] := r.e;
      index := 0;
    }

    // Eight bits more; the count wraps to zero at 2^64.
    method CountByte(ghost n: nat)
      requires Counted(n) && !corrupted
      modifies this`lengthLow, this`lengthHigh, this`corrupted
      ensures !corrupted ==> Counted(n + 1)
      ensures corrupted == (8 * (n + 1) >= 0x1_0000_0000_0000_0000)
    {
      lengthLow := (lengthLow + 8) % 0x1_0000_0000;
      if lengthLow == 0 {
        lengthHigh := (lengthHigh + 1) % 0x1_0000_0000;
        if lengthHigh == 0 {
          corrupted := true;
        }
      }
    }

    // A full buffer goes into the hash.
    method Flush()
      requires Shape()
      requires |whole| % 64 == 0 && |rest| == 64 && block[..] == rest && Hash() == fold(whole)
      modifies this`index, this`whole, this`rest, H
      ensures Collected() && whole == old(whole) + old(rest) && rest == []
    {
      assert FoldsAt(fold, Compress, whole, rest);
      ProcessMessageBlock();
      whole, rest := whole + rest, [];
    }

    // One more byte: the body of the loop of Input.
    method Feed(b: byte)
      requires Valid() && !computed && !corrupted
      modifies this, H, block
      ensures Valid() && !computed && Message() == old(Message()) + [b]
      ensures corrupted == (8 * |Message()| >= 0x1_0000_0000_0000_0000)
    {
      ghost var n := |whole| + |rest|;
      block[index] := b;
      index := index + 1;
      rest := rest + [b];
      CountByte(n);
      if index == 64 {
        assert block[..] == rest;
        Flush();
      }
    }

    /** Input: appends to the message, unless the digest was asked for already or the message becomes too long. */
    method Input(data: seq<byte>)
      requires Valid()
      modifies this, H, block
      ensures Valid() && computed == old(computed)
      ensures data == [] ==> corrupted == old(corrupted) && Message() == old(Message())
      ensures data != [] ==> corrupted == (old(corrupted) || computed ||
                                           8 * (|old(Message())| + |data|) >= 0x1_0000_0000_0000_0000)
      ensures !corrupted ==> Message() == old(Message()) + data
    {
      if data == [] {
        return;
      }
      if computed || corrupted {
        corrupted := true;
        return;
      }
      var i := 0;
      while i < |data| && !corrupted
        invariant 0 <= i <= |data| && Valid() && !computed
        invariant Message() == old(Message()) + data[..i]
        invariant corrupted == (8 * (|old(Message())| + i) >= 0x1_0000_0000_0000_0000)
      {
        assert data[..i + 1] == data[..i] + [data[i]];
        Feed(data[i]);
        i := i + 1;
      }
    }

    // Zeros in the buffer up to place n.
    method ClearTo(n: nat)
      requires block.Length == 64 && index <= n <= 64
      modifies this`index, block
      ensures index == n && block[..n] == old(block[..index]) + Zeros(n - old(index))
    {
      ghost var start := index;
      while index < n
        invariant start <= index <= n
        invariant forall k :: 0 <= k < index ==> block[k] == if k < start then old(block[k]) else 0
      {
        block[index] := 0;
        index := index + 1;
      }
    }

    // The length, in the last eight bytes of the buffer.
    method StoreLength(ghost n: nat)
      requires block.Length == 64 && Counted(n)
      modifies block
      ensures block[..] == old(block[..56]) + BigEndian(8 * n, 8)
    {
      block[56] := Digit(lengthHigh / 0x1000000);
      block[57] := Digit(lengthHigh / 0x10000);
      block[58] := Digit(lengthHigh / 0x100);
      block[59] := Digit(lengthHigh);
      block[60] := Digit(lengthLow / 0x1000000);
      block[61] := Digit(lengthLow / 0x10000);
      block[62] := Digit(lengthLow / 0x100);
      block[63] := Digit(lengthLow);
      LengthBytes(n, lengthHigh, lengthLow);
    }

    // The first padding byte, and zeros up to place n.
    method PadTo(n: nat, ghost kept: seq<byte>)
      requires block.Length == 64 && index < n <= 64 && block[..index] == kept
      modifies this`index, block
      ensures index == n && block[..n] == kept + [0x80] + Zeros(n - |kept| - 1)
    {
      block[index] := 0x80;
      index := index + 1;
      assert block[..index] == kept + [0x80];
      ClearTo(n);
    }

    method PadTwice(ghost kept: seq<byte>)
      requires Shape() && index > 55 && index < 64 && block[..index] == kept
      modifies this`index, H, block
      ensures Hash() == Compress(old(Hash()), FilledChunk(kept)) && block[..56] == Zeros(56)
    {
      PadTo(64, kept);
      assert block[..] == block[..64];
      ProcessMessageBlock();
      ClearTo(56);
    }

    /** PadMessage: one more block, or two when the length does not fit behind the message. */
    method PadMessage()
      requires Shape() && Collected() && Counted(|whole| + |rest|)
      modifies this`index, H, block
      ensures Hash() == Digest(Message())
    {
      ghost var n := |whole| + |rest|;
      ghost var length, m := BigEndian(8 * n, 8), whole + rest;
      FoldedTail(fold, Compress, H0, whole, rest, length);
      assert Digest(m) == FoldPadded(Compress, H0, m, length);
      if index > 55 {
        PadTwice(rest);
        StoreLength(n);
        assert block[..] == ExtraChunk(length);
      } else {
        PadTo(56, rest);
        StoreLength(n);
        assert block[..] == LastChunk(rest, length);
      }
      ProcessMessageBlock();
    }

    /** Result: the digest of the whole message, the same at every call; nothing after a misuse. */
    method Result(digest: array<word>) returns (ok: bool)
      requires Valid() && digest != H && digest.Length == 5
      modifies this`computed, this`index, H, block, digest
      ensures Valid() && ok == !corrupted
      ensures ok ==> computed && Words(digest[0], digest[1], digest[2], digest[3], digest[4]) == Digest(Message())
      ensures !ok ==> computed == old(computed) && digest[..] == old(digest[..])
    {
      if corrupted {
        return false;
      }
      if !computed {
        PadMessage();
        computed := true;
      }
      var i := 0;
      while i < 5
        invariant 0 <= i <= 5 && Valid() && computed && !corrupted
        invariant forall k :: 0 <= k < i ==> digest[k] == H[k]
      {
        digest[i] := H[i];
        i := i + 1;
      }
      ok := true;
    }
  }
}
