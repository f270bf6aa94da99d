/** The transformations of AES in place, on a state of sixteen bytes, each proved equal to its function. */
module Aes {
  import opened Bytes
  import opened Gf256
  import opened AesState

  /* ---- The transformations, in place ---- */

  // One byte of a column, and its key byte; g is what the whole state is to become.
  method AddKeyByte(state: array<byte>, w: array<byte>, r: nat, c: nat, i: nat, ghost s: State, ghost g: State)
    requires state.Length == 16 && 16 * r + 16 <= w.Length && state != w && c < 4 && i < 4
    requires state[4 * i + c] == s[4 * i + c] && g == AddRoundKey(s, w[..], r)
    modifies state
    ensures state[..] == old(state[..])[4 * i + c := g[4 * i + c]]
  {
    assert KeyIndex(r, 4 * i + c) == 16 * r + 4 * c + i;
    state[4 * i + c] := Plus(state[4 * i + c], w[16 * r + 4 * c + i]);
  }

  // t has the columns of g before c, and those of s from c on.
  ghost predicate ColumnsTo(s: State, g: State, c: nat, t: State)
  {
    forall k :: 0 <= k < 16 ==> t[k] == if k % 4 < c then g[k] else s[k]
  }

  lemma ColumnAdded(s: State, g: State, c: nat, t: State, u: State)
    requires c < 4 && ColumnsTo(s, g, c, t)
    requires u == t[c := g[c]][4 + c := g[4 + c]][8 + c := g[8 + c]][12 + c := g[12 + c]]
    ensures ColumnsTo(s, g, c + 1, u)
  {
    if c == 0 {} else if c == 1 {} else if c == 2 {} else {}
  }

  method AddRoundKeyTo(state: array<byte>, w: array<byte>, r: nat)
    requires state.Length == 16 && 16 * r + 16 <= w.Length && state != w
    modifies state
    ensures state[..] == AddRoundKey(old(state[..]), w[..], r)
  {
    ghost var s, g := state[..], AddRoundKey(state[..], w[..], r);
    var c := 0;
    while c < 4
      invariant 0 <= c <= 4 && ColumnsTo(s, g, c, state[..]) && g == AddRoundKey(s, w[..], r)
    {
      ghost var before := state[..];
      AddKeyByte(state, w, r, c, 0, s, g);
      AddKeyByte(state, w, r, c, 1, s, g);
      AddKeyByte(state, w, r, c, 2, s, g);
      AddKeyByte(state, w, r, c, 3, s, g);
      ColumnAdded(s, g, c, before, state[..]);
      c := c + 1;
    }
    assert state[..] == g;
  }

  method SubBytesOf(state: array<byte>)
    requires state.Length == 16
    modifies state
    ensures state[..] == SubBytes(old(state[..]))
  {
    var i := 0;
    while i < 4
      invariant 0 <= i <= 4
      invariant forall k :: 0 <= k < 16 ==> state[k] == if k < 4 * i then SBox(old(state[k])) else old(state[k])
    {
      var j := 0;
      while j < 4
        invariant 0 <= j <= 4
        invariant forall k :: 0 <= k < 16 ==> state[k] == if k < 4 * i + j then SBox(old(state[k])) else old(state[k])
      {
        state[4 * i + j] := SBox(state[4 * i + j]);
        j := j + 1;
      }
      i := i + 1;
    }
  }

  method InvSubBytesOf(state: array<byte>)
    requires state.Length == 16
    modifies state
    ensures state[..] == InvSubBytes(old(state[..]))
  {
    var i := 0;
    while i < 4
      invariant 0 <= i <= 4
      invariant forall k :: 0 <= k < 16 ==> state[k] == if k < 4 * i then InvSBox(old(state[k])) else old(state[k])
    {
      var j := 0;
      while j < 4
        invariant 0 <= j <= 4
        invariant forall k :: 0 <= k < 16 ==>
                    state[k] == if k < 4 * i + j then InvSBox(old(state[k])) else old(state[k])
      {
        state[4 * i + j] := InvSBox(state[4 * i + j]);
        j := j + 1;
      }
      i := i + 1;
    }
  }

  // Row i of s, turned left by `turns` places, is row i of t; the other rows are the same.
  ghost predicate RowTurned(s: seq<byte>, i: nat, turns: nat, t: seq<byte>)
    requires |s| == |t| == 16 && i < 4 && turns <= 4
  {
    && t[4 * i] == s[4 * i + Column(0, turns)]
    && t[4 * i + 1] == s[4 * i + Column(1, turns)]
    && t[4 * i + 2] == s[4 * i + Column(2, turns)]
    && t[4 * i + 3] == s[4 * i + Column(3, turns)]
    && (forall k :: 0 <= k < 16 && !(4 * i <= k < 4 * i + 4) ==> t[k] == s[k])
  }

  function Column(j: nat, turns: nat): (c: nat)
    requires j < 4 && turns <= 4
    ensures c < 4
  {
    if j + turns < 4 then j + turns else j + turns - 4
  }

  // Row i turned left by one place.
  method TurnRow(state: array<byte>, i: nat)
    requires state.Length == 16 && i < 4
    modifies state
    ensures RowTurned(old(state[..]), i, 1, state[..])
  {
    var tmp := state[4 * i];
    var k := 1;
    while k < 4
      invariant 1 <= k <= 4
      invariant forall m :: 0 <= m < 16 ==> state[m] == old(state[if 4 * i <= m < 4 * i + k - 1 then m + 1 else m])
    {
      state[4 * i + k - 1] := state[4 * i + k];
      k := k + 1;
    }
    state[4 * i + 3] := tmp;
  }

  // Row i turned right by one place.
  method TurnRowBack(state: array<byte>, i: nat)
    requires state.Length == 16 && i < 4
    modifies state
    ensures RowTurned(old(state[..]), i, 3, state[..])
  {
    var tmp := state[4 * i + 3];
    var k := 3;
    while k > 0
      invariant 0 <= k <= 3
      invariant forall m :: 0 <= m < 16 ==> state[m] == old(state[if 4 * i + k < m < 4 * i + 4 then m - 1 else m])
    {
      state[4 * i + k] := state[4 * i + k - 1];
      k := k - 1;
    }
    state[4 * i] := tmp;
  }

  lemma TurnedOnce(s: seq<byte>, i: nat, turns: nat, t: seq<byte>, u: seq<byte>)
    requires |s| == |t| == |u| == 16 && i < 4 && turns < 4
    requires RowTurned(s, i, turns, t) && RowTurned(t, i, 1, u)
    ensures RowTurned(s, i, turns + 1, u)
  {
    assert Column(0, turns + 1) == Column(1, turns) && Column(1, turns + 1) == Column(2, turns);
    assert Column(2, turns + 1) == Column(3, turns) && Column(3, turns + 1) == Column(0, turns);
  }

  lemma TurnedBackOnce(s: seq<byte>, i: nat, turns: nat, t: seq<byte>, u: seq<byte>)
    requires |s| == |t| == |u| == 16 && i < 4 && turns < 4
    requires RowTurned(s, i, turns + 1, t) && RowTurned(t, i, 3, u)
    ensures RowTurned(s, i, turns, u)
  {
    assert Column(0, turns + 1) == Column(1, turns) && Column(1, turns + 1) == Column(2, turns);
    assert Column(2, turns + 1) == Column(3, turns) && Column(3, turns + 1) == Column(0, turns);
  }

  method TurnRowTimes(state: array<byte>, i: nat)
    requires state.Length == 16 && i < 4
    modifies state
    ensures RowTurned(old(state[..]), i, i, state[..])
  {
    var s := 0;
    while s < i
      invariant 0 <= s <= i
      invariant RowTurned(old(state[..]), i, s, state[..])
    {
      ghost var before := state[..];
      TurnRow(state, i);
      TurnedOnce(old(state[..]), i, s, before, state[..]);
      s := s + 1;
    }
  }

  method TurnRowBackTimes(state: array<byte>, i: nat)
    requires state.Length == 16 && i < 4
    modifies state
    ensures RowTurned(old(state[..]), i, 4 - i, state[..])
  {
    var s := 0;
    while s < i
      invariant 0 <= s <= i
      invariant RowTurned(old(state[..]), i, 4 - s, state[..])
    {
      ghost var before := state[..];
      TurnRowBack(state, i);
      TurnedBackOnce(old(state[..]), i, 3 - s, before, state[..]);
      s := s + 1;
    }
  }

  // The rows before row i have been turned left by their numbers, or right.
  ghost predicate Shifted(s: seq<byte>, i: nat, t: seq<byte>)
    requires |s| == |t| == 16
  {
    forall k :: 0 <= k < 16 ==> t[k] == s[if k < 4 * i then LeftSource(k) else k]
  }

  ghost predicate Unshifted(s: seq<byte>, i: nat, t: seq<byte>)
    requires |s| == |t| == 16
  {
    forall k :: 0 <= k < 16 ==> t[k] == s[if k < 4 * i then RightSource(k) else k]
  }

  lemma ShiftOneMore(s: seq<byte>, i: nat, t: seq<byte>, u: seq<byte>)
    requires |s| == |t| == |u| == 16 && 1 <= i < 4
    ensures Shifted(s, i, t) && RowTurned(t, i, i, u) ==> Shifted(s, i + 1, u)
    ensures Unshifted(s, i, t) && RowTurned(t, i, 4 - i, u) ==> Unshifted(s, i + 1, u)
  {
    if i == 1 {} else if i == 2 {} else {}
  }

  method ShiftRowsOf(state: array<byte>)
    requires state.Length == 16
    modifies state
    ensures state[..] == ShiftRows(old(state[..]))
  {
    var i := 1;
    while i < 4
      invariant 1 <= i <= 4
      invariant Shifted(old(state[..]), i, state[..])
    {
      ghost var before := state[..];
      TurnRowTimes(state, i);
      ShiftOneMore(old(state[..]), i, before, state[..]);
      i := i + 1;
    }
  }

  method InvShiftRowsOf(state: array<byte>)
    requires state.Length == 16
    modifies state
    ensures state[..] == InvShiftRows(old(state[..]))
  {
    var i := 1;
    while i < 4
      invariant 1 <= i <= 4
      invariant Unshifted(old(state[..]), i, state[..])
    {
      ghost var before := state[..];
      TurnRowBackTimes(state, i);
      ShiftOneMore(old(state[..]), i, before, state[..]);
      i := i + 1;
    }
  }

  /* ---- Mixing columns ---- */

  // One byte of the product of two columns.
  function Dot(p: byte, q: byte, r: byte, s: byte, b: (byte, byte, byte, byte)): byte
  {
    Plus(Plus(Plus(GMult(p, b.0), GMult(q, b.1)), GMult(r, b.2)), GMult(s, b.3))
  }

  method CoefMult(a: array<byte>, b: array<byte>, d: array<byte>)
    requires a.Length == b.Length == d.Length == 4 && a != d && b != d
    modifies d
    ensures var col := (b[0], b[1], b[2], b[3]);
            && d[0] == Dot(a[0], a[3], a[2], a[1], col) && d[1] == Dot(a[1], a[0], a[3], a[2], col)
            && d[2] == Dot(a[2], a[1], a[0], a[3], col) && d[3] == Dot(a[3], a[2], a[1], a[0], col)
  {
    var col := (b[0], b[1], b[2], b[3]);
    d[0] := Dot(a[0], a[3], a[2], a[1], col);
    d[1] := Dot(a[1], a[0], a[3], a[2], col);
    d[2] := Dot(a[2], a[1], a[0], a[3], col);
    d[3] := Dot(a[3], a[2], a[1], a[0], col);
  }

  // With these coefficients each row is f of the column, read downwards from that row on.
  ghost predicate Coefficients(a0: byte, a1: byte, a2: byte, a3: byte, f: (byte, byte, byte, byte) -> byte)
  {
    forall b :: CoefficientsAt(a0, a1, a2, a3, f, b)
  }

  ghost predicate CoefficientsAt(a0: byte, a1: byte, a2: byte, a3: byte, f: (byte, byte, byte, byte) -> byte,
                                 b: (byte, byte, byte, byte))
  {
    && Dot(a0, a3, a2, a1, b) == f(b.0, b.1, b.2, b.3)
    && Dot(a1, a0, a3, a2, b) == f(b.1, b.2, b.3, b.0)
    && Dot(a2, a1, a0, a3, b) == f(b.2, b.3, b.0, b.1)
    && Dot(a3, a2, a1, a0, b) == f(b.3, b.0, b.1, b.2)
  }

  lemma AnyOrder(a: byte, b: byte, c: byte, d: byte)
    ensures Plus(Plus(Plus(a, b), c), d) == Plus4(a, b, c, d)
    ensures Plus4(a, b, c, d) == Plus4(b, c, d, a) && Plus4(a, b, c, d) == Plus4(c, d, a, b)
    ensures Plus4(a, b, c, d) == Plus4(d, a, b, c)
  {
    PlusAssociates(Plus(a, b), c, d);
    Turn(a, b, c, d);
    Turn(b, c, d, a);
    Turn(d, a, b, c);
  }

  lemma MixCoefficients(b: (byte, byte, byte, byte))
    ensures CoefficientsAt(0x02, 0x01, 0x01, 0x03, MixRow, b)
  {
    AnyOrder(GMult(0x02, b.0), GMult(0x03, b.1), GMult(0x01, b.2), GMult(0x01, b.3));
    AnyOrder(GMult(0x01, b.0), GMult(0x02, b.1), GMult(0x03, b.2), GMult(0x01, b.3));
    AnyOrder(GMult(0x01, b.0), GMult(0x01, b.1), GMult(0x02, b.2), GMult(0x03, b.3));
    AnyOrder(GMult(0x03, b.0), GMult(0x01, b.1), GMult(0x01, b.2), GMult(0x02, b.3));
  }

  lemma InvMixCoefficients(b: (byte, byte, byte, byte))
    ensures CoefficientsAt(0x0e, 0x09, 0x0d, 0x0b, InvMixRow, b)
  {
    AnyOrder(GMult(0x0e, b.0), GMult(0x0b, b.1), GMult(0x0d, b.2), GMult(0x09, b.3));
    AnyOrder(GMult(0x09, b.0), GMult(0x0e, b.1), GMult(0x0b, b.2), GMult(0x0d, b.3));
    AnyOrder(GMult(0x0d, b.0), GMult(0x09, b.1), GMult(0x0e, b.2), GMult(0x0b, b.3));
    AnyOrder(GMult(0x0b, b.0), GMult(0x0d, b.1), GMult(0x09, b.2), GMult(0x0e, b.3));
  }

  // A column times the polynomial with coefficients a.
  method ColumnProduct(a: array<byte>, col: array<byte>, ghost f: (byte, byte, byte, byte) -> byte)
    returns (res: array<byte>)
    requires a.Length == 4 && col.Length == 4 && Coefficients(a[0], a[1], a[2], a[3], f)
    ensures fresh(res) && res.Length == 4
    ensures res[0] == f(col[0], col[1], col[2], col[3]) && res[1] == f(col[1], col[2], col[3], col[0])
    ensures res[2] == f(col[2], col[3], col[0], col[1]) && res[3] == f(col[3], col[0], col[1], col[2])
  {
    res := new byte[4](_ => 0);
    CoefMult(a, col, res);
    assert CoefficientsAt(a[0], a[1], a[2], a[3], f, (col[0], col[1], col[2], col[3]));
  }

  method GatherColumn(state: array<byte>, j: nat) returns (col: array<byte>)
    requires state.Length == 16 && j < 4
    ensures fresh(col) && col.Length == 4
    ensures col[0] == state[j] && col[1] == state[4 + j] && col[2] == state[8 + j] && col[3] == state[12 + j]
  {
    col := new byte[4](_ => 0);
    var i := 0;
    while i < 4
      invariant 0 <= i <= 4
      invariant i > 0 ==> col[0] == state[j]
      invariant i > 1 ==> col[1] == state[4 + j]
      invariant i > 2 ==> col[2] == state[8 + j]
      invariant i > 3 ==> col[3] == state[12 + j]
    {
      col[i] := state[4 * i + j];
      i := i + 1;
    }
  }

  method StoreColumn(state: array<byte>, j: nat, res: array<byte>)
    requires state.Length == 16 && j < 4 && res.Length == 4 && res != state
    modifies state
    ensures state[j] == res[0] && state[4 + j] == res[1] && state[8 + j] == res[2] && state[12 + j] == res[3]
    ensures forall k :: 0 <= k < 16 && k % 4 != j ==> state[k] == old(state[k])
  {
    var i := 0;
    while i < 4
      invariant 0 <= i <= 4
      invariant i > 0 ==> state[j] == res[0]
      invariant i > 1 ==> state[4 + j] == res[1]
      invariant i > 2 ==> state[8 + j] == res[2]
      invariant i > 3 ==> state[12 + j] == res[3]
      invariant forall k :: 0 <= k < 16 && k % 4 != j ==> state[k] == old(state[k])
    {
      state[4 * i + j] := res[i];
      i := i + 1;
    }
  }

  method MultiplyColumn(state: array<byte>, a: array<byte>, j: nat, ghost f: (byte, byte, byte, byte) -> byte)
    requires state.Length == 16 && a.Length == 4 && state != a && j < 4
    requires Coefficients(a[0], a[1], a[2], a[3], f)
    modifies state
    ensures ColumnDone(f, old(state[..]), state[..], j)
    ensures forall k :: 0 <= k < 16 && k % 4 != j ==> state[k] == old(state[k])
  {
    var col := GatherColumn(state, j);
    var res := ColumnProduct(a, col, f);
    StoreColumn(state, j, res);
  }

  // Column j of t is f of column j of s.
  ghost predicate ColumnDone(f: (byte, byte, byte, byte) -> byte, s: State, t: State, j: nat)
    requires j < 4
  {
    && t[j] == f(s[j], s[4 + j], s[8 + j], s[12 + j]) && t[4 + j] == f(s[4 + j], s[8 + j], s[12 + j], s[j])
    && t[8 + j] == f(s[8 + j], s[12 + j], s[j], s[4 + j]) && t[12 + j] == f(s[12 + j], s[j], s[4 + j], s[8 + j])
  }

  lemma AllColumnsDone(f: (byte, byte, byte, byte) -> byte, s: State, t: State)
    requires forall j :: 0 <= j < 4 ==> ColumnDone(f, s, t, j)
    ensures t == Columns(f, s)
  {
    forall k | 0 <= k < 16 ensures t[k] == Columns(f, s)[k] {
      var j := k % 4;
      assert ColumnDone(f, s, t, j);
      ColumnIs(f, s, j);
      assert k == j || k == 4 + j || k == 8 + j || k == 12 + j;
    }
  }

  lemma ColumnIs(f: (byte, byte, byte, byte) -> byte, s: State, j: nat)
    requires j < 4
    ensures ColumnDone(f, s, Columns(f, s), j)
  {
    assert Below(j) == 4 + j && Below(4 + j) == 8 + j && Below(8 + j) == 12 + j && Below(12 + j) == j;
  }

  method MultiplyColumns(state: array<byte>, a: array<byte>, ghost f: (byte, byte, byte, byte) -> byte)
    requires state.Length == 16 && a.Length == 4 && state != a && Coefficients(a[0], a[1], a[2], a[3], f)
    modifies state
    ensures state[..] == Columns(f, old(state[..]))
  {
    var j := 0;
    while j < 4
      invariant 0 <= j <= 4
      invariant forall c :: 0 <= c < j ==> ColumnDone(f, old(state[..]), state[..], c)
      invariant forall k :: 0 <= k < 16 && k % 4 >= j ==> state[k] == old(state[k])
    {
      ghost var before := state[..];
      MultiplyColumn(state, a, j, f);
      forall c | 0 <= c <= j ensures ColumnDone(f, old(state[..]), state[..], c) {
        assert c < j ==> ColumnDone(f, old(state[..]), before, c);
      }
      j := j + 1;
    }
    AllColumnsDone(f, old(state[..]), state[..]);
  }

  method MixColumnsOf(state: array<byte>)
    requires state.Length == 16
    modifies state
    ensures state[..] == MixColumns(old(state[..]))
  {
    var a := new byte[4][0x02, 0x01, 0x01, 0x03];
    forall b ensures CoefficientsAt(0x02, 0x01, 0x01, 0x03, MixRow, b) { MixCoefficients(b); }
    MultiplyColumns(state, a, MixRow);
  }

  method InvMixColumnsOf(state: array<byte>)
    requires state.Length == 16
    modifies state
    ensures state[..] == InvMixColumns(old(state[..]))
  {
    var a := new byte[4][0x0e, 0x09, 0x0d, 0x0b];
    forall b ensures CoefficientsAt(0x0e, 0x09, 0x0d, 0x0b, InvMixRow, b) { InvMixCoefficients(b); }
    MultiplyColumns(state, a, InvMixRow);
  }
}
