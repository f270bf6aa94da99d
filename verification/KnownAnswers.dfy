/** Published digests: what the functions that SHA-1 and MD5 are proved against make of "abc", the first example of FIPS
    180 and of RFC 1321. They come out only if every constant, shift, place and byte order is the standard's. */
module KnownAnswers {
  import opened Bytes
  import S = Sha1
  import M = Md5

  const ABC: seq<byte> := [0x61, 0x62, 0x63]

  // A message of one block.
  lemma OneChunk<W>(f: (W, Chunk) -> W, start: W, m: seq<byte>, length: seq<byte>)
    requires |m| < 56 && |length| == 8
    ensures FoldPadded(f, start, m, length) == f(start, LastChunk(m, length))
  {
    FoldTail(f, start, [], m, length);
    assert [] + m == m;
    assert Fold(f, start, []) == FoldTo(f, start, [], 0) == start;
  }

  /* ---- SHA-1 ---- */

  // The block that pads it.
  function Chunk1(): Chunk
  {
    [0x61, 0x62, 0x63, 0x80] + Zeros(52) + [0, 0, 0, 0, 0, 0, 0, 0x18]
  }

  lemma Schedule0(c: Chunk)
    requires c == Chunk1()
    ensures S.Schedule(c, 0) == 0x61626380 && S.Schedule(c, 1) == 0x00000000
    ensures S.Schedule(c, 2) == 0x00000000 && S.Schedule(c, 3) == 0x00000000
    ensures S.Schedule(c, 4) == 0x00000000 && S.Schedule(c, 5) == 0x00000000
    ensures S.Schedule(c, 6) == 0x00000000 && S.Schedule(c, 7) == 0x00000000
    ensures S.Schedule(c, 8) == 0x00000000 && S.Schedule(c, 9) == 0x00000000
    ensures S.Schedule(c, 10) == 0x00000000 && S.Schedule(c, 11) == 0x00000000
    ensures S.Schedule(c, 12) == 0x00000000 && S.Schedule(c, 13) == 0x00000000
    ensures S.Schedule(c, 14) == 0x00000000 && S.Schedule(c, 15) == 0x00000018
  {
  }

  lemma Schedule16(c: Chunk)
    requires c == Chunk1()
    ensures S.Schedule(c, 16) == 0xc2c4c700 && S.Schedule(c, 17) == 0x00000000
    ensures S.Schedule(c, 18) == 0x00000030 && S.Schedule(c, 19) == 0x85898e01
    ensures S.Schedule(c, 20) == 0x00000000 && S.Schedule(c, 21) == 0x00000060
    ensures S.Schedule(c, 22) == 0x0b131c03 && S.Schedule(c, 23) == 0x00000030
    ensures S.Schedule(c, 24) == 0x85898ec1 && S.Schedule(c, 25) == 0x16263806
    ensures S.Schedule(c, 26) == 0x00000000 && S.Schedule(c, 27) == 0x00000180
    ensures S.Schedule(c, 28) == 0x2c4c700c && S.Schedule(c, 29) == 0x000000f0
    ensures S.Schedule(c, 30) == 0x93afb507 && S.Schedule(c, 31) == 0x5898e048
  {
    Schedule0(c);
  }

  lemma Schedule32(c: Chunk)
    requires c == Chunk1()
    ensures S.Schedule(c, 32) == 0x8e9a9202 && S.Schedule(c, 33) == 0x00000600
    ensures S.Schedule(c, 34) == 0xb131c0f0 && S.Schedule(c, 35) == 0x16263bc6
    ensures S.Schedule(c, 36) == 0x4ebed41e && S.Schedule(c, 37) == 0x626380a1
    ensures S.Schedule(c, 38) == 0x16263806 && S.Schedule(c, 39) == 0x000018c0
    ensures S.Schedule(c, 40) == 0xd2e138c4 && S.Schedule(c, 41) == 0x00000f00
    ensures S.Schedule(c, 42) == 0x3afb5079 && S.Schedule(c, 43) == 0x898e04e5
    ensures S.Schedule(c, 44) == 0xe2ba3c2b && S.Schedule(c, 45) == 0x000060c0
    ensures S.Schedule(c, 46) == 0x053a37cd && S.Schedule(c, 47) == 0x74458547
  {
    Schedule16(c);
  }

  lemma Schedule48(c: Chunk)
    requires c == Chunk1()
    ensures S.Schedule(c, 48) == 0xda9415ed && S.Schedule(c, 49) == 0x26380a16
    ensures S.Schedule(c, 50) == 0x626383a1 && S.Schedule(c, 51) == 0x4ebf54de
    ensures S.Schedule(c, 52) == 0x3835b44b && S.Schedule(c, 53) == 0x0000f600
    ensures S.Schedule(c, 54) == 0x1e84c7a3 && S.Schedule(c, 55) == 0x98e04d98
    ensures S.Schedule(c, 56) == 0x651d16a0 && S.Schedule(c, 57) == 0x62658ca1
    ensures S.Schedule(c, 58) == 0x458544d6 && S.Schedule(c, 59) == 0x44584cb7
    ensures S.Schedule(c, 60) == 0x7ba06619 && S.Schedule(c, 61) == 0x6380aea2
    ensures S.Schedule(c, 62) == 0x0ae55269 && S.Schedule(c, 63) == 0x627b49a1
  {
    Schedule32(c);
  }

  lemma Schedule64(c: Chunk)
    requires c == Chunk1()
    ensures S.Schedule(c, 64) == 0x7cd45c9d && S.Schedule(c, 65) == 0x000f0000
    ensures S.Schedule(c, 66) == 0xfb50753a && S.Schedule(c, 67) == 0xec6765e8
    ensures S.Schedule(c, 68) == 0xba3c2be2 && S.Schedule(c, 69) == 0x0060c000
    ensures S.Schedule(c, 70) == 0x3a37cd05 && S.Schedule(c, 71) == 0x458546f4
    ensures S.Schedule(c, 72) == 0xb8599dd6 && S.Schedule(c, 73) == 0x380a1a26
    ensures S.Schedule(c, 74) == 0x01e02203 && S.Schedule(c, 75) == 0xe7cc3456
    ensures S.Schedule(c, 76) == 0xe6e60b69 && S.Schedule(c, 77) == 0x00f60a00
    ensures S.Schedule(c, 78) == 0x5795ef4f && S.Schedule(c, 79) == 0x822e0879
  {
    Schedule48(c);
  }

  lemma Steps10(c: Chunk)
    requires c == Chunk1()
    ensures S.Steps(S.H0, c, 10) == S.Words(0x8351f929, 0x4b6ae328, 0x27a301f5, 0x664f8c30, 0x0ff1f290)
  {
    Schedule0(c);
    assert S.Steps(S.H0, c, 1).a == 0x0116fc33 && S.Steps(S.H0, c, 2).a == 0x8990536d;
    assert S.Steps(S.H0, c, 3).a == 0xa1390f08 && S.Steps(S.H0, c, 4).a == 0xcdd8e11b;
    assert S.Steps(S.H0, c, 5).a == 0xcfd499de && S.Steps(S.H0, c, 6).a == 0x3fc7ca40;
    assert S.Steps(S.H0, c, 7).a == 0x993e30c1 && S.Steps(S.H0, c, 8).a == 0x9e8c07d4;
    assert S.Steps(S.H0, c, 9).a == 0x4b6ae328;
  }

  lemma Steps20(c: Chunk)
    requires c == Chunk1()
    ensures S.Steps(S.H0, c, 20) == S.Words(0xfd9e1d7d, 0xdc64901d, 0x20aa99ca, 0xd3a49608, 0xc82f758b)
  {
    Steps10(c);
    Schedule0(c);
    Schedule16(c);
    assert S.Steps(S.H0, c, 11).a == 0xfbda9e89 && S.Steps(S.H0, c, 12).a == 0x63188fe4;
    assert S.Steps(S.H0, c, 13).a == 0x4607b664 && S.Steps(S.H0, c, 14).a == 0x9128f695;
    assert S.Steps(S.H0, c, 15).a == 0x196bee77 && S.Steps(S.H0, c, 16).a == 0x20bdd62f;
    assert S.Steps(S.H0, c, 17).a == 0x4e925823 && S.Steps(S.H0, c, 18).a == 0x82aa6728;
    assert S.Steps(S.H0, c, 19).a == 0xdc64901d;
  }

  lemma Steps30(c: Chunk)
    requires c == Chunk1()
    ensures S.Steps(S.H0, c, 30) == S.Words(0xc5fbaf5d, 0x8370b52e, 0xd2aa1365, 0x6f8d7ef5, 0x12104ee9)
  {
    Steps20(c);
    Schedule16(c);
    assert S.Steps(S.H0, c, 21).a == 0x1a37b0ca && S.Steps(S.H0, c, 22).a == 0x33a23bfc;
    assert S.Steps(S.H0, c, 23).a == 0x21283486 && S.Steps(S.H0, c, 24).a == 0xd541f12d;
    assert S.Steps(S.H0, c, 25).a == 0xc7567dc6 && S.Steps(S.H0, c, 26).a == 0x48413ba4;
    assert S.Steps(S.H0, c, 27).a == 0xbe35fbd5 && S.Steps(S.H0, c, 28).a == 0x4aa84d97;
    assert S.Steps(S.H0, c, 29).a == 0x8370b52e;
  }

  lemma Steps40(c: Chunk)
    requires c == Chunk1()
    ensures S.Steps(S.H0, c, 40) == S.Words(0x32de1cba, 0x4c986405, 0xf718e5cf, 0x03d447f6, 0xf72eec32)
  {
    Steps30(c);
    Schedule16(c);
    Schedule32(c);
    assert S.Steps(S.H0, c, 31).a == 0x1267b407 && S.Steps(S.H0, c, 32).a == 0x3b845d33;
    assert S.Steps(S.H0, c, 33).a == 0x046faa0a && S.Steps(S.H0, c, 34).a == 0x2c0ebc11;
    assert S.Steps(S.H0, c, 35).a == 0x21796ad4 && S.Steps(S.H0, c, 36).a == 0xdcbbb0cb;
    assert S.Steps(S.H0, c, 37).a == 0x0f511fd8 && S.Steps(S.H0, c, 38).a == 0xdc63973f;
    assert S.Steps(S.H0, c, 39).a == 0x4c986405;
  }

  lemma Steps50(c: Chunk)
    requires c == Chunk1()
    ensures S.Steps(S.H0, c, 50) == S.Words(0x120731c5, 0xbaf39337, 0xafab40b2, 0x2806e11b, 0x8714787c)
  {
    Steps40(c);
    Schedule32(c);
    Schedule48(c);
    assert S.Steps(S.H0, c, 41).a == 0xfc87dedf && S.Steps(S.H0, c, 42).a == 0x970a0d5c;
    assert S.Steps(S.H0, c, 43).a == 0x7f193dc5 && S.Steps(S.H0, c, 44).a == 0xee1b1aaf;
    assert S.Steps(S.H0, c, 45).a == 0x40f28e09 && S.Steps(S.H0, c, 46).a == 0x1c51e1f2;
    assert S.Steps(S.H0, c, 47).a == 0xa01b846c && S.Steps(S.H0, c, 48).a == 0xbead02ca;
    assert S.Steps(S.H0, c, 49).a == 0xbaf39337;
  }

  lemma Steps60(c: Chunk)
    requires c == Chunk1()
    ensures S.Steps(S.H0, c, 60) == S.Words(0x3f52de5a, 0x09d785fd, 0x3498bfd4, 0xf211824f, 0xd79915ab)
  {
    Steps50(c);
    Schedule48(c);
    assert S.Steps(S.H0, c, 51).a == 0x641db2ce && S.Steps(S.H0, c, 52).a == 0x3847ad66;
    assert S.Steps(S.H0, c, 53).a == 0xe490436d && S.Steps(S.H0, c, 54).a == 0x27e9f1d8;
    assert S.Steps(S.H0, c, 55).a == 0x7b71f76d && S.Steps(S.H0, c, 56).a == 0x5e6456af;
    assert S.Steps(S.H0, c, 57).a == 0xc846093f && S.Steps(S.H0, c, 58).a == 0xd262ff50;
    assert S.Steps(S.H0, c, 59).a == 0x09d785fd;
  }

  lemma Steps70(c: Chunk)
    requires c == Chunk1()
    ensures S.Steps(S.H0, c, 70) == S.Words(0x3f2588c2, 0x497093c0, 0xde37534a, 0x030f7cad, 0x4405957e)
  {
    Steps60(c);
    Schedule48(c);
    Schedule64(c);
    assert S.Steps(S.H0, c, 61).a == 0xd756c147 && S.Steps(S.H0, c, 62).a == 0x548c9cb2;
    assert S.Steps(S.H0, c, 63).a == 0xb66c020b && S.Steps(S.H0, c, 64).a == 0x6b61c9e1;
    assert S.Steps(S.H0, c, 65).a == 0x19dfa7ac && S.Steps(S.H0, c, 66).a == 0x101655f9;
    assert S.Steps(S.H0, c, 67).a == 0x0c3df2b4 && S.Steps(S.H0, c, 68).a == 0x78dd4d2b;
    assert S.Steps(S.H0, c, 69).a == 0x497093c0;
  }

  lemma Steps80(c: Chunk)
    requires c == Chunk1()
    ensures S.Steps(S.H0, c, 80) == S.Words(0x42541b35, 0x5738d5e1, 0x21834873, 0x681e6df6, 0xd8fdf6ad)
  {
    Steps70(c);
    Schedule64(c);
    assert S.Steps(S.H0, c, 71).a == 0xc199f8c7 && S.Steps(S.H0, c, 72).a == 0x39859de7;
    assert S.Steps(S.H0, c, 73).a == 0xedb42de4 && S.Steps(S.H0, c, 74).a == 0x11793f6f;
    assert S.Steps(S.H0, c, 75).a == 0x5ee76897 && S.Steps(S.H0, c, 76).a == 0x63f7dab7;
    assert S.Steps(S.H0, c, 77).a == 0xa079b7d9 && S.Steps(S.H0, c, 78).a == 0x860d21cc;
    assert S.Steps(S.H0, c, 79).a == 0x5738d5e1;
  }

  lemma CompressedBySha1()
    ensures S.Compress(S.H0, Chunk1()) == S.Words(0xa9993e36, 0x4706816a, 0xba3e2571, 0x7850c26c, 0x9cd0d89d)
  {
    Steps80(Chunk1());
  }

  lemma Sha1Length()
    ensures LastChunk(ABC, BigEndian(24, 8)) == Chunk1()
  {
    assert BigEndian(24, 8) == BigEndian(0, 7) + [Digit(24)];
    assert BigEndian(0, 7) == Zeros(7);
  }

  /** SHA-1 of "abc". */
  lemma Sha1OfAbc()
    ensures S.Digest(ABC) == S.Words(0xa9993e36, 0x4706816a, 0xba3e2571, 0x7850c26c, 0x9cd0d89d)
  {
    OneChunk(S.Compress, S.H0, ABC, BigEndian(24, 8));
    Sha1Length();
    CompressedBySha1();
  }

  /* ---- MD5 ---- */

  function Chunk2(): Chunk
  {
    [0x61, 0x62, 0x63, 0x80] + Zeros(52) + [0x18, 0, 0, 0, 0, 0, 0, 0]
  }

  // Its words.
  ghost predicate IsBlock(x: seq<word>)
  {
    |x| == 16 && x[0] == 0x80636261 && x[14] == 0x18 && forall i :: 0 < i < 16 && i != 14 ==> x[i] == 0
  }

  // One step, with the word of the block, the shift and the constant it takes, and what comes out.
  lemma Mix(x: seq<word>, steps: nat -> M.Words, i: nat, s: M.Words, w: word, n: word, t: word, r: word)
    returns (next: M.Words)
    requires |x| == 16 && M.Follows(steps, x) && s == steps(i) && x[M.Place(i)] == w
    requires M.Shift(i) == n && M.Sine(i) == t && M.Mixed(s.a, s.b, M.Auxiliary(i, s.b, s.c, s.d), w, n, t) == r
    ensures next == steps(i + 1) == M.Words(s.d, r, s.b, s.c)
  {
    assert M.FollowsAt(steps, x, i);
    next := steps(i + 1);
  }

  lemma Mixed8(x: seq<word>, steps: nat -> M.Words)
    requires IsBlock(x) && M.Follows(steps, x) && steps(0) == M.Words(0x67452301, 0xefcdab89, 0x98badcfe, 0x10325476)
    ensures steps(8) == M.Words(0xc73741ef, 0x928d99f6, 0x207dc67b, 0x8bac3051)
  {
    var s := steps(0);
    s := Mix(x, steps, 0, s, 0x80636261, 7, 0xd76aa478, 0xd6d117b4);
    s := Mix(x, steps, 1, s, 0x00000000, 12, 0xe8c7b756, 0x344a8432);
    s := Mix(x, steps, 2, s, 0x00000000, 17, 0x242070db, 0x2f6fbd72);
    s := Mix(x, steps, 3, s, 0x00000000, 22, 0xc1bdceee, 0x7ad956f2);
    s := Mix(x, steps, 4, s, 0x00000000, 7, 0xf57c0faf, 0xc73741ef);
    s := Mix(x, steps, 5, s, 0x00000000, 12, 0x4787c62a, 0x8bac3051);
    s := Mix(x, steps, 6, s, 0x00000000, 17, 0xa8304613, 0x207dc67b);
    s := Mix(x, steps, 7, s, 0x00000000, 22, 0xfd469501, 0x928d99f6);
  }

  lemma Mixed16(x: seq<word>, steps: nat -> M.Words)
    requires IsBlock(x) && M.Follows(steps, x) && steps(8) == M.Words(0xc73741ef, 0x928d99f6, 0x207dc67b, 0x8bac3051)
    ensures steps(16) == M.Words(0xdda9b9a6, 0x72aff2e0, 0xe396856b, 0xa1051895)
  {
    var s := steps(8);
    s := Mix(x, steps, 8, s, 0x00000000, 7, 0x698098d8, 0x854b3712);
    s := Mix(x, steps, 9, s, 0x00000000, 12, 0x8b44f7af, 0x74e2f284);
    s := Mix(x, steps, 10, s, 0x00000000, 17, 0xffff5bb1, 0x3020401c);
    s := Mix(x, steps, 11, s, 0x00000000, 22, 0x895cd7be, 0x5ed49596);
    s := Mix(x, steps, 12, s, 0x00000000, 7, 0x6b901122, 0xdda9b9a6);
    s := Mix(x, steps, 13, s, 0x00000000, 12, 0xfd987193, 0xa1051895);
    s := Mix(x, steps, 14, s, 0x00000018, 17, 0xa679438e, 0xe396856b);
    s := Mix(x, steps, 15, s, 0x00000000, 22, 0x49b40821, 0x72aff2e0);
  }

  lemma Mixed24(x: seq<word>, steps: nat -> M.Words)
    requires IsBlock(x) && M.Follows(steps, x) && steps(16) == M.Words(0xdda9b9a6, 0x72aff2e0, 0xe396856b, 0xa1051895)
    ensures steps(24) == M.Words(0x59a8ffda, 0x47092c07, 0xabfc7920, 0x6d002f1e)
  {
    var s := steps(16);
    s := Mix(x, steps, 16, s, 0x00000000, 5, 0xf61e2562, 0x3e9e9126);
    s := Mix(x, steps, 17, s, 0x00000000, 9, 0xc040b340, 0x4a1d804e);
    s := Mix(x, steps, 18, s, 0x00000000, 14, 0x265e5a51, 0xe25e1652);
    s := Mix(x, steps, 19, s, 0x80636261, 20, 0xe9b6c7aa, 0xb5b204e4);
    s := Mix(x, steps, 20, s, 0x00000000, 5, 0xd62f105d, 0x59a8ffda);
    s := Mix(x, steps, 21, s, 0x00000000, 9, 0x02441453, 0x6d002f1e);
    s := Mix(x, steps, 22, s, 0x00000000, 14, 0xd8a1e681, 0xabfc7920);
    s := Mix(x, steps, 23, s, 0x00000000, 20, 0xe7d3fbc8, 0x47092c07);
  }

  lemma Mixed32(x: seq<word>, steps: nat -> M.Words)
    requires IsBlock(x) && M.Follows(steps, x) && steps(24) == M.Words(0x59a8ffda, 0x47092c07, 0xabfc7920, 0x6d002f1e)
    ensures steps(32) == M.Words(0x790a77fb, 0x726342d3, 0xa62884aa, 0x9f47e4f8)
  {
    var s := steps(24);
    s := Mix(x, steps, 24, s, 0x00000000, 5, 0x21e1cde6, 0xb7f268cf);
    s := Mix(x, steps, 25, s, 0x00000018, 9, 0xc33707d6, 0x09388eff);
    s := Mix(x, steps, 26, s, 0x00000000, 14, 0xf4d50d87, 0xfe1623b1);
    s := Mix(x, steps, 27, s, 0x00000000, 20, 0x455a14ed, 0x786acb8f);
    s := Mix(x, steps, 28, s, 0x00000000, 5, 0xa9e3e905, 0x790a77fb);
    s := Mix(x, steps, 29, s, 0x00000000, 9, 0xfcefa3f8, 0x9f47e4f8);
    s := Mix(x, steps, 30, s, 0x00000000, 14, 0x676f02d9, 0xa62884aa);
    s := Mix(x, steps, 31, s, 0x00000000, 20, 0x8d2a4c8a, 0x726342d3);
  }

  lemma Mixed40(x: seq<word>, steps: nat -> M.Words)
    requires IsBlock(x) && M.Follows(steps, x) && steps(32) == M.Words(0x790a77fb, 0x726342d3, 0xa62884aa, 0x9f47e4f8)
    ensures steps(40) == M.Words(0x21b117b9, 0x5a2f5ea5, 0x3575227e, 0x6e7429d5)
  {
    var s := steps(32);
    s := Mix(x, steps, 32, s, 0x00000000, 4, 0xfffa3942, 0xb3707ebf);
    s := Mix(x, steps, 33, s, 0x00000000, 11, 0x8771f681, 0x60127b2e);
    s := Mix(x, steps, 34, s, 0x00000000, 16, 0x6d9d6122, 0x8d212ff5);
    s := Mix(x, steps, 35, s, 0x00000018, 23, 0xfde5380c, 0x3b0875c7);
    s := Mix(x, steps, 36, s, 0x00000000, 4, 0xa4beea44, 0x21b117b9);
    s := Mix(x, steps, 37, s, 0x00000000, 11, 0x4bdecfa9, 0x6e7429d5);
    s := Mix(x, steps, 38, s, 0x00000000, 16, 0xf6bb4b60, 0x3575227e);
    s := Mix(x, steps, 39, s, 0x00000000, 23, 0xbebfbc70, 0x5a2f5ea5);
  }

  lemma Mixed48(x: seq<word>, steps: nat -> M.Words)
    requires IsBlock(x) && M.Follows(steps, x) && steps(40) == M.Words(0x21b117b9, 0x5a2f5ea5, 0x3575227e, 0x6e7429d5)
    ensures steps(48) == M.Words(0x7f2e507b, 0x7beb9700, 0x8fae6399, 0x99d9679d)
  {
    var s := steps(40);
    s := Mix(x, steps, 40, s, 0x00000000, 4, 0x289b7ec6, 0x11de1779);
    s := Mix(x, steps, 41, s, 0x80636261, 11, 0xeaa127fa, 0xfadcaa38);
    s := Mix(x, steps, 42, s, 0x00000000, 16, 0xd4ef3085, 0x31c465ca);
    s := Mix(x, steps, 43, s, 0x00000000, 23, 0x04881d05, 0x4c6124f4);
    s := Mix(x, steps, 44, s, 0x00000000, 4, 0xd9d4d039, 0x7f2e507b);
    s := Mix(x, steps, 45, s, 0x00000000, 11, 0xe6db99e5, 0x99d9679d);
    s := Mix(x, steps, 46, s, 0x00000000, 16, 0x1fa27cf8, 0x8fae6399);
    s := Mix(x, steps, 47, s, 0x00000000, 23, 0xc4ac5665, 0x7beb9700);
  }

  lemma Mixed56(x: seq<word>, steps: nat -> M.Words)
    requires IsBlock(x) && M.Follows(steps, x) && steps(48) == M.Words(0x7f2e507b, 0x7beb9700, 0x8fae6399, 0x99d9679d)
    ensures steps(56) == M.Words(0x06cc5e8a, 0x3bfa2c27, 0x7d632dd0, 0x5b0d97aa)
  {
    var s := steps(48);
    s := Mix(x, steps, 48, s, 0x80636261, 6, 0xf4292244, 0x7b201df8);
    s := Mix(x, steps, 49, s, 0x00000000, 10, 0x432aff97, 0xf4e8e96e);
    s := Mix(x, steps, 50, s, 0x00000018, 15, 0xab9423a7, 0xb298cefd);
    s := Mix(x, steps, 51, s, 0x00000000, 21, 0xfc93a039, 0x8bf025c4);
    s := Mix(x, steps, 52, s, 0x00000000, 6, 0x655b59c3, 0x06cc5e8a);
    s := Mix(x, steps, 53, s, 0x00000000, 10, 0x8f0ccc92, 0x5b0d97aa);
    s := Mix(x, steps, 54, s, 0x00000000, 15, 0xffeff47d, 0x7d632dd0);
    s := Mix(x, steps, 55, s, 0x00000000, 21, 0x85845dd1, 0x3bfa2c27);
  }

  lemma Mixed64(x: seq<word>, steps: nat -> M.Words)
    requires IsBlock(x) && M.Follows(steps, x) && steps(56) == M.Words(0x06cc5e8a, 0x3bfa2c27, 0x7d632dd0, 0x5b0d97aa)
    ensures steps(64) == M.Words(0x310ade8f, 0xc08226b3, 0xe484b9d8, 0x624d8cb2)
  {
    var s := steps(56);
    s := Mix(x, steps, 56, s, 0x00000000, 6, 0x6fa87e4f, 0x7f81cc35);
    s := Mix(x, steps, 57, s, 0x00000000, 10, 0xfe2ce6e0, 0x094454ab);
    s := Mix(x, steps, 58, s, 0x00000000, 15, 0xa3014314, 0x4f9dbe3f);
    s := Mix(x, steps, 59, s, 0x00000000, 21, 0x4e0811a1, 0x7327d604);
    s := Mix(x, steps, 60, s, 0x00000000, 6, 0xf7537e82, 0x310ade8f);
    s := Mix(x, steps, 61, s, 0x00000000, 10, 0xbd3af235, 0x624d8cb2);
    s := Mix(x, steps, 62, s, 0x00000000, 15, 0x2ad7d2bb, 0xe484b9d8);
    s := Mix(x, steps, 63, s, 0x00000000, 21, 0xeb86d391, 0xc08226b3);
  }

  lemma BlockOfAbc()
    ensures IsBlock(M.WordsOf(Chunk2()))
  {
  }

  lemma CompressedByMd5()
    ensures M.Compress(M.START, Chunk2()) == M.Words(0x98500190, 0xb04fd23c, 0x7d3f96d6, 0x727fe128)
  {
    var x := M.WordsOf(Chunk2());
    var steps := (n: nat) => M.Steps(M.START, x, n);
    BlockOfAbc();
    forall n: nat ensures M.FollowsAt(steps, x, n) {}
    Mixed8(x, steps); Mixed16(x, steps); Mixed24(x, steps); Mixed32(x, steps);
    Mixed40(x, steps); Mixed48(x, steps); Mixed56(x, steps); Mixed64(x, steps);
  }

  lemma Md5Length()
    ensures LastChunk(ABC, LittleEndian(24, 8)) == Chunk2()
  {
    assert LittleEndian(24, 8) == [Digit(24)] + LittleEndian(0, 7);
    assert LittleEndian(0, 7) == Zeros(7);
  }

  /** MD5 of "abc": the digest 90 01 50 98 3c d2 4f b0 d6 96 3f 7d 28 e1 7f 72. */
  lemma Md5OfAbc()
    ensures M.Digest(ABC) == M.Written(M.Words(0x98500190, 0xb04fd23c, 0x7d3f96d6, 0x727fe128))
  {
    OneChunk(M.Compress, M.START, ABC, LittleEndian(24, 8));
    Md5Length();
    CompressedByMd5();
  }
}
