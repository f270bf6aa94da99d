/** The AES object and its key expansion (section 5.2 of FIPS 197). */
module AesCipher {
  import opened Bytes
  import opened Gf256
  import opened AesState
  import opened Aes

  /* ---- Key expansion ---- */

  datatype Word = Word(b0: byte, b1: byte, b2: byte, b3: byte)

  // The bytes of a round constant that no call sets.
  datatype Rest = Rest(b1: byte, b2: byte, b3: byte)

  function AddWords(v: Word, w: Word): Word
  {
    Word(Plus(v.b0, w.b0), Plus(v.b1, w.b1), Plus(v.b2, w.b2), Plus(v.b3, w.b3))
  }

  function SubWord(w: Word): Word
  {
    Word(SBox(w.b0), SBox(w.b1), SBox(w.b2), SBox(w.b3))
  }

  function RotWord(w: Word): Word
  {
    Word(w.b1, w.b2, w.b3, w.b0)
  }

  function WordAt(w: seq<byte>, i: nat): Word
    requires 4 * i + 4 <= |w|
  {
    Word(w[4 * i], w[4 * i + 1], w[4 * i + 2], w[4 * i + 3])
  }

  // The round constant; its last three bytes are whatever stands in the object's buffer at the time.
  function RoundConstant(n: nat, rest: Rest): Word
    requires n > 0
  {
    Word(XTimes(1, n - 1), rest.b1, rest.b2, rest.b3)
  }

  // What word i - nk is added to.
  function Temp(previous: Word, nk: nat, i: nat, rest: Rest): Word
    requires 0 < nk <= i
  {
    if i % nk == 0 then
      NotBefore(i, nk);
      AddWords(SubWord(RotWord(previous)), RoundConstant(i / nk, rest))
    else if nk > 6 && i % nk == 4 then SubWord(previous)
    else previous
  }

  lemma NotBefore(i: nat, nk: nat)
    requires 0 < nk <= i
    ensures i / nk > 0
  {
    assert i == i / nk * nk + i % nk;
  }

  /** Word i of the expanded key, by the recurrence of section 5.2 of FIPS 197. */
  function KeyWord(key: seq<byte>, nk: nat, rest: Rest, i: nat): Word
    requires 0 < nk && |key| == 4 * nk
  {
    if i < nk then WordAt(key, i)
    else AddWords(KeyWord(key, nk, rest, i - nk), Temp(KeyWord(key, nk, rest, i - 1), nk, i, rest))
  }

  const NO_REST := Rest(0, 0, 0)

  lemma SumsDiffer(a: byte, b: byte, c: byte)
    ensures Plus(a, Plus(b, c)) == Plus(a, Plus(b, 0)) ==> c == 0
  {
  }

  lemma OverItself(n: nat)
    requires n > 0
    ensures n % n == 0 && n / n == 1
  {
  }

  lemma FirstComputed(key: seq<byte>, nk: nat, rest: Rest)
    requires 0 < nk && |key| == 4 * nk
    ensures KeyWord(key, nk, rest, nk) ==
            AddWords(WordAt(key, 0), AddWords(SubWord(RotWord(WordAt(key, nk - 1))), RoundConstant(1, rest)))
  {
    OverItself(nk);
    assert KeyWord(key, nk, rest, nk - 1) == WordAt(key, nk - 1);
  }

  lemma FirstComputedDiffers(first: Word, turned: Word, rest: Rest)
    ensures AddWords(first, AddWords(turned, RoundConstant(1, rest))) ==
            AddWords(first, AddWords(turned, RoundConstant(1, NO_REST))) ==>
              rest == NO_REST
  {
    SumsDiffer(first.b1, turned.b1, rest.b1);
    SumsDiffer(first.b2, turned.b2, rest.b2);
    SumsDiffer(first.b3, turned.b3, rest.b3);
  }

  ghost predicate SameWords(key: seq<byte>, nk: nat, rest: Rest, other: Rest, words: nat)
    requires 0 < nk && |key| == 4 * nk
  {
    forall i: nat :: i < words ==> KeyWord(key, nk, rest, i) == KeyWord(key, nk, other, i)
  }

  lemma StandardOnlyIf(key: seq<byte>, nk: nat, rest: Rest, words: nat)
    requires 0 < nk < words && |key| == 4 * nk && SameWords(key, nk, rest, NO_REST, words)
    ensures rest == NO_REST
  {
    assert KeyWord(key, nk, rest, nk) == KeyWord(key, nk, NO_REST, nk);
    FirstComputed(key, nk, rest);
    FirstComputed(key, nk, NO_REST);
    FirstComputedDiffers(WordAt(key, 0), SubWord(RotWord(WordAt(key, nk - 1))), rest);
  }

  /** The expansion is the standard's exactly when the three bytes that the object sets only afterwards are zero
      already: otherwise the first word computed differs. */
  lemma StandardExpansion(key: seq<byte>, nk: nat, rest: Rest, words: nat)
    requires 0 < nk < words && |key| == 4 * nk
    ensures SameWords(key, nk, rest, NO_REST, words) <==> rest == NO_REST
  {
    if SameWords(key, nk, rest, NO_REST, words) { StandardOnlyIf(key, nk, rest, words); }
  }

  // rot_word and sub_word on a buffer of four bytes.
  method RotWordOf(w: array<byte>)
    requires w.Length == 4
    modifies w
    ensures WordAt(w[..], 0) == RotWord(old(WordAt(w[..], 0)))
  {
    var tmp := w[0];
    var i := 0;
    while i < 3
      invariant 0 <= i <= 3
      invariant forall k :: 0 <= k < 4 ==> w[k] == old(w[if k < i then k + 1 else k])
    {
      w[i] := w[i + 1];
      i := i + 1;
    }
    w[3] := tmp;
  }

  method SubWordOf(w: array<byte>)
    requires w.Length == 4
    modifies w
    ensures WordAt(w[..], 0) == SubWord(old(WordAt(w[..], 0)))
  {
    ghost var was := w[..];
    var i := 0;
    while i < 4
      invariant 0 <= i <= 4
      invariant w[..] == Substituted(was, i)
    {
      w[i] := SBox(w[i]);
      i := i + 1;
    }
    AllSubstituted(was);
  }

  function Substituted(w: seq<byte>, n: nat): seq<byte>
  {
    seq(|w|, k requires 0 <= k < |w| => if k < n then SBox(w[k]) else w[k])
  }

  lemma AllSubstituted(w: seq<byte>)
    requires |w| == 4
    ensures WordAt(Substituted(w, 4), 0) == SubWord(WordAt(w, 0))
  {
  }

  method CoefAdd(a: array<byte>, b: array<byte>)
    requires a.Length == b.Length == 4 && a != b
    modifies a
    ensures WordAt(a[..], 0) == AddWords(old(WordAt(a[..], 0)), WordAt(b[..], 0))
  {
    a[0] := Plus(a[0], b[0]);
    a[1] := Plus(a[1], b[1]);
    a[2] := Plus(a[2], b[2]);
    a[3] := Plus(a[3], b[3]);
  }

  // The first `words` words are those of the expanded key.
  ghost predicate Expanded(w: seq<byte>, key: seq<byte>, nk: nat, rest: Rest, words: nat)
    requires 0 < nk && |key| == 4 * nk && 4 * words <= |w|
  {
    forall i: nat :: i < words ==> WordDone(w, key, nk, rest, i)
  }

  ghost predicate WordDone(w: seq<byte>, key: seq<byte>, nk: nat, rest: Rest, i: nat)
    requires 0 < nk && |key| == 4 * nk
  {
    4 * i + 4 <= |w| && WordAt(w, i) == KeyWord(key, nk, rest, i)
  }

  lemma OneWordMore(w: seq<byte>, v: seq<byte>, key: seq<byte>, nk: nat, rest: Rest, i: nat)
    requires 0 < nk && |key| == 4 * nk && 4 * i + 4 <= |w| == |v| && Expanded(w, key, nk, rest, i)
    requires v[..4 * i] == w[..4 * i] && WordDone(v, key, nk, rest, i)
    ensures Expanded(v, key, nk, rest, i + 1)
  {
    forall k: nat | k < i ensures WordDone(v, key, nk, rest, k) {
      assert WordDone(w, key, nk, rest, k);
      assert forall m :: 0 <= m < 4 * i ==> v[m] == v[..4 * i][m] && w[m] == w[..4 * i][m];
    }
  }

  /* ---- The object ---- */

  datatype Mode = Aes128 | Aes192 | Aes256

  function Bits(mode: Mode): nat
  {
    match mode
    case Aes128 => 128
    case Aes192 => 192
    case Aes256 => 256
  }

  // The number of key words and of rounds; any other key length counts as 16 bytes.
  function KeyWords(keySize: nat): nat
  {
    if keySize == 24 then 6 else if keySize == 32 then 8 else 4
  }

  function RoundsFor(keySize: nat): nat
  {
    if keySize == 24 then 12 else if keySize == 32 then 14 else 10
  }

  /** Key sizes and rounds are those of figure 4 of FIPS 197. */
  lemma Sizes(mode: Mode)
    ensures Bits(mode) == (match mode case Aes128 => 128 case Aes192 => 192 case Aes256 => 256)
    ensures 32 * KeyWords(Bits(mode) / 8) == Bits(mode) && RoundsFor(Bits(mode) / 8) == KeyWords(Bits(mode) / 8) + 6
  {
  }

  // A string made n bytes long by cutting it or adding zeros.
  function Resized(s: seq<byte>, n: nat): (r: seq<byte>)
    ensures |r| == n && forall k :: 0 <= k < n ==> r[k] == if k < |s| then s[k] else 0
  {
    if |s| >= n then s[..n] else s + seq(n - |s|, _ => 0)
  }

  class AesImpl {
    const nk: nat
    const nr: nat
    const R: array<byte>
    const keyBuf: array<byte>

    ghost predicate Valid()
    {
      nk > 0 && nr > 0 && R.Length == 4 && keyBuf.Length == 16 * nr + 16
    }

    // Rcon: sets the first byte of R; the factor is at least 1 here.
    method Rcon(n: nat)
      requires Valid() && n > 0
      modifies R
      ensures R[0] == XTimes(1, n - 1)
      ensures R[1] == old(R[1]) && R[2] == old(R[2]) && R[3] == old(R[3])
    {
      if n == 1 {
        R[0] := 0x01;
      } else if n > 1 {
        R[0] := 0x02;
        var i := n - 1;
        assert XTimes(1, 1) == XTime(XTimes(1, 0)) == 2;
        while i - 1 > 0
          invariant 1 <= i <= n - 1 && R[0] == XTimes(1, n - i)
          invariant R[1] == old(R[1]) && R[2] == old(R[2]) && R[3] == old(R[3])
        {
          RightFactors(R[0]);
          R[0] := GMult(R[0], 0x02);
          i := i - 1;
        }
      }
    }

    // The bytes of R that no call sets.
    ghost function Unset(): Rest
      requires Valid()
      reads R
    {
      Rest(R[1], R[2], R[3])
    }

    // The word to add to word i - nk, from word i - 1.
    method NextTemp(i: nat) returns (tmp: array<byte>)
      requires Valid() && nk <= i < 4 * nr + 4 && R != keyBuf
      modifies R
      ensures Unset() == old(Unset()) && fresh(tmp) && tmp.Length == 4
      ensures WordAt(tmp[..], 0) == Temp(WordAt(keyBuf[..], i - 1), nk, i, Unset())
    {
      tmp := new byte[4][keyBuf[4 * (i - 1)], keyBuf[4 * (i - 1) + 1],
                         keyBuf[4 * (i - 1) + 2], keyBuf[4 * (i - 1) + 3]];
      if i % nk == 0 {
        RotWordOf(tmp);
        SubWordOf(tmp);
        NotBefore(i, nk);
        Rcon(i / nk);
        CoefAdd(tmp, R);
      } else if nk > 6 && i % nk == 4 {
        SubWordOf(tmp);
      }
    }

    /** aes_key_expansion: writes exactly 4 (nr + 1) words, each by the recurrence. */
    method ExpandKey(key: seq<byte>)
      requires Valid() && |key| == 4 * nk && nk <= 4 * nr + 4 && R != keyBuf
      modifies R, keyBuf
      ensures Unset() == old(Unset()) && KeyedWith(key, Unset())
    {
      ghost var rest := Unset();
      var i := 0;
      while i < nk
        invariant 0 <= i <= nk && Unset() == rest
        invariant Expanded(keyBuf[..], key, nk, rest, i)
      {
        ghost var before := keyBuf[..];
        StoreWord(i, key[4 * i], key[4 * i + 1], key[4 * i + 2], key[4 * i + 3]);
        OneWordMore(before, keyBuf[..], key, nk, rest, i);
        i := i + 1;
      }
      while i < 4 * (nr + 1)
        invariant nk <= i <= 4 * (nr + 1) && Unset() == rest
        invariant Expanded(keyBuf[..], key, nk, rest, i)
      {
        var tmp := NextTemp(i);
        assert WordDone(keyBuf[..], key, nk, rest, i - 1) && WordDone(keyBuf[..], key, nk, rest, i - nk);
        ghost var before := keyBuf[..];
        StoreWord(i, Plus(keyBuf[4 * (i - nk)], tmp[0]), Plus(keyBuf[4 * (i - nk) + 1], tmp[1]),
                  Plus(keyBuf[4 * (i - nk) + 2], tmp[2]), Plus(keyBuf[4 * (i - nk) + 3], tmp[3]));
        OneWordMore(before, keyBuf[..], key, nk, rest, i);
        i := i + 1;
      }
    }

    method StoreWord(i: nat, b0: byte, b1: byte, b2: byte, b3: byte)
      requires Valid() && i < 4 * nr + 4
      modifies keyBuf
      ensures WordAt(keyBuf[..], i) == Word(b0, b1, b2, b3)
      ensures keyBuf[..4 * i] == old(keyBuf[..4 * i])
    {
      keyBuf[4 * i + 0] := b0;
      keyBuf[4 * i + 1] := b1;
      keyBuf[4 * i + 2] := b2;
      keyBuf[4 * i + 3] := b3;
    }

    // The round keys are those of the key, whatever the bytes of R were that the first call of Rcon left alone.
    ghost predicate Keyed(mode: Mode, key: seq<byte>)
      reads keyBuf
    {
      && Valid() && nk == KeyWords(Bits(mode) / 8) && nr == RoundsFor(Bits(mode) / 8)
      && exists rest :: KeyedWith(Resized(key, Bits(mode) / 8), rest)
    }

    ghost predicate KeyedWith(key: seq<byte>, rest: Rest)
      reads keyBuf
    {
      Valid() && |key| == 4 * nk && Expanded(keyBuf[..], key, nk, rest, 4 * nr + 4)
    }

    /** The constructor expands the key before it gives R a value, so the round constants take their last three
        bytes from whatever R holds then. */
    constructor (mode: Mode, key: seq<byte>)
      ensures Keyed(mode, key)
      ensures R != keyBuf && fresh(R) && fresh(keyBuf)
      ensures R[0] == 2 && R[1] == 0 && R[2] == 0 && R[3] == 0
    {
      nk := KeyWords(Bits(mode) / 8);
      nr := RoundsFor(Bits(mode) / 8);
      R := new byte[4];
      keyBuf := new byte[16 * RoundsFor(Bits(mode) / 8) + 16];
      new;
      ExpandKey(Resized(key, Bits(mode) / 8));
      ghost var rest := Unset();
      R[0] := 0x02;
      R[1] := 0x00;
      R[2] := 0x00;
      R[3] := 0x00;
      assert KeyedWith(Resized(key, Bits(mode) / 8), rest);
    }
  }
}
