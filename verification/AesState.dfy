/** The transformations of an AES state as functions, and their inverses (sections 5.1 and 5.3 of FIPS 197). */
module AesState {
  import opened Bytes
  import opened Gf256

  // Four rows of four bytes, row by row.
  type State = s: seq<byte> | |s| == 16 witness seq(16, _ => 0)

  // Rows and columns exchanged; blocks of text come column by column.
  function Transposed(s: State): State
  {
    seq(16, k requires 0 <= k < 16 => s[k / 4 + 4 * (k % 4)])
  }

  // Where the key byte for place k in round r is; the expanded key comes column by column, too.
  function KeyIndex(r: nat, k: nat): (i: nat)
    requires k < 16
    ensures 16 * r <= i < 16 * r + 16
  {
    16 * r + k / 4 + 4 * (k % 4)
  }

  function AddRoundKey(s: State, w: seq<byte>, r: nat): State
    requires 16 * r + 16 <= |w|
  {
    seq(16, k requires 0 <= k < 16 => Plus(s[k], w[KeyIndex(r, k)]))
  }

  function SubBytes(s: State): State
  {
    seq(16, k requires 0 <= k < 16 => SBox(s[k]))
  }

  function InvSubBytes(s: State): State
  {
    seq(16, k requires 0 <= k < 16 => InvSBox(s[k]))
  }

  // Where the byte at place k comes from when row i is turned left by i places, and right.
  function LeftSource(k: nat): (l: nat)
    requires k < 16
    ensures l < 16
  {
    if k < 4 then k
    else if k < 8 then if k < 7 then k + 1 else k - 3
    else if k < 12 then if k < 10 then k + 2 else k - 2
    else if k < 13 then k + 3 else k - 1
  }

  function RightSource(k: nat): (l: nat)
    requires k < 16
    ensures l < 16
  {
    if k < 4 then k
    else if k < 8 then if k < 5 then k + 3 else k - 1
    else if k < 12 then if k < 10 then k + 2 else k - 2
    else if k < 15 then k + 1 else k - 3
  }

  function ShiftRows(s: State): State
  {
    seq(16, k requires 0 <= k < 16 => s[LeftSource(k)])
  }

  function InvShiftRows(s: State): State
  {
    seq(16, k requires 0 <= k < 16 => s[RightSource(k)])
  }

  /** Column j of row i comes from column j + i, and goes back there. */
  lemma ShiftRowsAt(s: State, i: nat, j: nat)
    requires i < 4 && j < 4
    ensures ShiftRows(s)[4 * i + j] == s[4 * i + (j + i) % 4]
    ensures InvShiftRows(s)[4 * i + (j + i) % 4] == s[4 * i + j]
  {
    if i == 0 {} else if i == 1 {} else if i == 2 {} else {}
  }

  // The place below place k in its column, and below the lowest the highest.
  function Below(k: nat): (l: nat)
    requires k < 16
    ensures l < 16
  {
    if k < 12 then k + 4 else k - 12
  }

  // Byte (i, j) becomes f of column j, read downwards from row i on.
  function Columns(f: (byte, byte, byte, byte) -> byte, s: State): State
  {
    seq(16, k requires 0 <= k < 16 => f(s[k], s[Below(k)], s[Below(Below(k))], s[Below(Below(Below(k)))]))
  }

  function MixColumns(s: State): State
  {
    Columns(MixRow, s)
  }

  function InvMixColumns(s: State): State
  {
    Columns(InvMixRow, s)
  }

  // One full round, and the last, which mixes no columns.
  function Round(s: State, w: seq<byte>, r: nat): State
    requires 16 * r + 16 <= |w|
  {
    AddRoundKey(MixColumns(ShiftRows(SubBytes(s))), w, r)
  }

  function FinalRound(s: State, w: seq<byte>, r: nat): State
    requires 16 * r + 16 <= |w|
  {
    AddRoundKey(ShiftRows(SubBytes(s)), w, r)
  }

  // The state after rounds 1 to r.
  function Rounds(s: State, w: seq<byte>, r: nat): State
    requires 16 * r + 16 <= |w|
  {
    if r == 0 then AddRoundKey(s, w, 0) else Round(Rounds(s, w, r - 1), w, r)
  }

  // The cipher between the transpositions.
  function Inner(s: State, w: seq<byte>, nr: nat): State
    requires nr > 0 && 16 * nr + 16 <= |w|
  {
    FinalRound(Rounds(s, w, nr - 1), w, nr)
  }

  /** The cipher. */
  function Cipher(block: State, w: seq<byte>, nr: nat): State
    requires nr > 0 && 16 * nr + 16 <= |w|
  {
    Transposed(Inner(Transposed(block), w, nr))
  }

  // A round of the inverse cipher, and its last.
  function InvRound(s: State, w: seq<byte>, r: nat): State
    requires 16 * r + 16 <= |w|
  {
    InvMixColumns(AddRoundKey(InvSubBytes(InvShiftRows(s)), w, r))
  }

  function InvFinalRound(s: State, w: seq<byte>): State
    requires 16 <= |w|
  {
    AddRoundKey(InvSubBytes(InvShiftRows(s)), w, 0)
  }

  // Rounds r down to 1 of the inverse cipher.
  function InvRounds(s: State, w: seq<byte>, r: nat): State
    requires 16 * r + 16 <= |w|
    decreases r
  {
    if r == 0 then s else InvRounds(InvRound(s, w, r), w, r - 1)
  }

  function InvInner(t: State, w: seq<byte>, nr: nat): State
    requires nr > 0 && 16 * nr + 16 <= |w|
  {
    InvFinalRound(InvRounds(AddRoundKey(t, w, nr), w, nr - 1), w)
  }

  function InvCipher(block: State, w: seq<byte>, nr: nat): State
    requires nr > 0 && 16 * nr + 16 <= |w|
  {
    Transposed(InvInner(Transposed(block), w, nr))
  }

  /* ---- Each transformation and its inverse ---- */

  lemma TransposedTwice(s: State)
    ensures Transposed(Transposed(s)) == s
  {
  }

  lemma AddTwice(s: State, w: seq<byte>, r: nat)
    requires 16 * r + 16 <= |w|
    ensures AddRoundKey(AddRoundKey(s, w, r), w, r) == s
  {
    forall k | 0 <= k < 16 ensures AddRoundKey(AddRoundKey(s, w, r), w, r)[k] == s[k] {
      PlusTwice(s[k], w[KeyIndex(r, k)]);
    }
  }

  lemma ShiftInverse(s: State)
    ensures InvShiftRows(ShiftRows(s)) == s
  {
  }

  lemma SubInverse(s: State)
    ensures InvSubBytes(SubBytes(s)) == s
  {
    forall k | 0 <= k < 16 ensures InvSubBytes(SubBytes(s))[k] == s[k] {
      SBoxInverse(s[k]);
    }
  }

  // g, applied to what f makes of a column turned to each row, gives the first byte of the column.
  ghost predicate Undoes(g: (byte, byte, byte, byte) -> byte, f: (byte, byte, byte, byte) -> byte)
  {
    forall a, b, c, d :: UndoesAt(g, f, a, b, c, d)
  }

  ghost predicate UndoesAt(g: (byte, byte, byte, byte) -> byte, f: (byte, byte, byte, byte) -> byte,
                           a: byte, b: byte, c: byte, d: byte)
  {
    g(f(a, b, c, d), f(b, c, d, a), f(c, d, a, b), f(d, a, b, c)) == a
  }

  lemma ColumnsInverse(g: (byte, byte, byte, byte) -> byte, f: (byte, byte, byte, byte) -> byte, s: State)
    requires Undoes(g, f)
    ensures Columns(g, Columns(f, s)) == s
  {
    forall k | 0 <= k < 16 ensures Columns(g, Columns(f, s))[k] == s[k] {
      var k1, k2, k3 := Below(k), Below(Below(k)), Below(Below(Below(k)));
      var mixed := Columns(f, s);
      assert Below(k3) == k;
      assert mixed[k] == f(s[k], s[k1], s[k2], s[k3]) && mixed[k1] == f(s[k1], s[k2], s[k3], s[k]);
      assert mixed[k2] == f(s[k2], s[k3], s[k], s[k1]) && mixed[k3] == f(s[k3], s[k], s[k1], s[k2]);
      assert UndoesAt(g, f, s[k], s[k1], s[k2], s[k3]);
    }
  }

  lemma MixUndone()
    ensures Undoes(InvMixRow, MixRow)
  {
    forall a, b, c, d ensures UndoesAt(InvMixRow, MixRow, a, b, c, d) {
      MixInverse(a, b, c, d);
    }
  }

  lemma MixColumnsInverse(s: State)
    ensures InvMixColumns(MixColumns(s)) == s
  {
    MixUndone();
    ColumnsInverse(InvMixRow, MixRow, s);
  }

  lemma {:induction false} RoundsInverse(s: State, w: seq<byte>, r: nat)
    requires 16 * r + 16 <= |w|
    ensures InvRounds(ShiftRows(SubBytes(Rounds(s, w, r))), w, r) == ShiftRows(SubBytes(Rounds(s, w, 0)))
  {
    if r > 0 {
      var before := ShiftRows(SubBytes(Rounds(s, w, r - 1)));
      var after := Rounds(s, w, r);
      ShiftInverse(SubBytes(after));
      SubInverse(after);
      AddTwice(MixColumns(before), w, r);
      MixColumnsInverse(before);
      RoundsInverse(s, w, r - 1);
    }
  }

  lemma InnerInverse(s: State, w: seq<byte>, nr: nat)
    requires nr > 0 && 16 * nr + 16 <= |w|
    ensures InvInner(Inner(s, w, nr), w, nr) == s
  {
    AddTwice(ShiftRows(SubBytes(Rounds(s, w, nr - 1))), w, nr);
    RoundsInverse(s, w, nr - 1);
    ShiftInverse(SubBytes(AddRoundKey(s, w, 0)));
    SubInverse(AddRoundKey(s, w, 0));
    AddTwice(s, w, 0);
  }

  /** The inverse cipher undoes the cipher, whatever the round keys. */
  lemma CipherInverse(block: State, w: seq<byte>, nr: nat)
    requires nr > 0 && 16 * nr + 16 <= |w|
    ensures InvCipher(Cipher(block, w, nr), w, nr) == block
  {
    TransposedTwice(Inner(Transposed(block), w, nr));
    InnerInverse(Transposed(block), w, nr);
    TransposedTwice(block);
  }
}
