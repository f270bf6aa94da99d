/** Base 64 (section 4 of RFC 4648): the encoder, and the decoder, which reads letters until something else comes. */
module Base64 {
  import opened Bytes

  /* ---- Letters ---- */

  // base64_chars at place v.
  function Letter(v: byte): byte
    requires v < 64
  {
    if v < 26 then v + 65 else if v < 52 then v + 71 else if v < 62 then v - 4 else if v == 62 then 43 else 47
  }

  // base64_chars.find, cut down to a byte: 255 when c is not among the letters.
  function Find(c: byte): byte
  {
    if 65 <= c <= 90 then c - 65 else if 97 <= c <= 122 then c - 71 else if 48 <= c <= 57 then c + 4
    else if c == 43 then 62 else if c == 47 then 63 else 255
  }

  predicate IsBase64(c: byte)
  {
    65 <= c <= 90 || 97 <= c <= 122 || 48 <= c <= 57 || c == 43 || c == 47
  }

  const PAD: byte := 61

  /** The letters are those of table 1 of RFC 4648. */
  lemma LettersAre(v: byte)
    requires v < 64
    ensures var n := v as int;
            Letter(v) as int == if n < 26 then 'A' as int + n else if n < 52 then 'a' as int + (n - 26)
                                else if n < 62 then '0' as int + (n - 52)
                                else if n == 62 then '+' as int else '/' as int
    ensures PAD as int == '=' as int
  {
  }

  lemma LetterFound(v: byte)
    requires v < 64
    ensures Find(Letter(v)) == v && IsBase64(Letter(v)) && Letter(v) != PAD
  {
  }

  /** Find is the inverse of Letter, and succeeds on the letters only. */
  lemma FoundLetter(c: byte)
    ensures IsBase64(c) <==> Find(c) < 64
    ensures if IsBase64(c) then Letter(Find(c)) == c else Find(c) == 255
  {
  }

  /* ---- Groups of 24 bits ---- */

  function Joined(a: byte, b: byte, c: byte): bv24
  {
    ((a as bv24) << 16) | ((b as bv24) << 8) | (c as bv24)
  }

  // Six bits of a group, from the left.
  function Sextet(g: bv24, j: nat): (v: byte)
    requires j < 4
    ensures v < 64
  {
    var part := if j == 0 then g >> 18 else if j == 1 then g >> 12 else if j == 2 then g >> 6 else g;
    (part & 0x3F) as byte
  }

  function FourLetters(a: byte, b: byte, c: byte): (q: seq<byte>)
    ensures |q| == 4
  {
    var g := Joined(a, b, c);
    [Letter(Sextet(g, 0)), Letter(Sextet(g, 1)), Letter(Sextet(g, 2)), Letter(Sextet(g, 3))]
  }

  function Regrouped(v: byte, w: byte, x: byte, y: byte): bv24
  {
    ((v as bv24) << 18) | ((w as bv24) << 12) | ((x as bv24) << 6) | (y as bv24)
  }

  function Octet(g: bv24, j: nat): byte
    requires j < 3
  {
    var part := if j == 0 then g >> 16 else if j == 1 then g >> 8 else g;
    (part & 0xFF) as byte
  }

  function ThreeBytes(s: seq<byte>): (t: seq<byte>)
    requires |s| == 4
    ensures |t| == 3
  {
    var g := Regrouped(Find(s[0]), Find(s[1]), Find(s[2]), Find(s[3]));
    [Octet(g, 0), Octet(g, 1), Octet(g, 2)]
  }

  /* ---- The codec ---- */

  /** The standard's encoding: four letters for three bytes; for what is left over as many letters as carry bits, and
      padding. */
  function Encoded(s: seq<byte>): seq<byte>
  {
    if s == [] then []
    else if |s| == 1 then FourLetters(s[0], 0, 0)[..2] + [PAD, PAD]
    else if |s| == 2 then FourLetters(s[0], s[1], 0)[..3] + [PAD]
    else FourLetters(s[0], s[1], s[2]) + Encoded(s[3..])
  }

  /** Examples of section 10 of RFC 4648, one for each kind of ending: "f" is "Zg==", "fo" is "Zm8=", "foobar" is
      "Zm9vYmFy". */
  lemma Examples()
    ensures Encoded([102]) == [90, 103, 61, 61]
    ensures Encoded([102, 111]) == [90, 109, 56, 61]
    ensures Encoded([102, 111, 111, 98, 97, 114]) == [90, 109, 57, 118, 89, 109, 70, 121]
  {
    FourAre(102, 0, 0, 90, 103, 65, 65);
    FourAre(102, 111, 0, 90, 109, 56, 65);
    FourAre(102, 111, 111, 90, 109, 57, 118);
    FourAre(98, 97, 114, 89, 109, 70, 121);
    assert [102, 111, 111, 98, 97, 114][3..] == [98, 97, 114];
    assert Encoded([98, 97, 114]) == FourLetters(98, 97, 114) + Encoded([]);
  }

  lemma FourAre(a: byte, b: byte, c: byte, p: byte, q: byte, r: byte, s: byte)
    requires Joined(a, b, c) == Regrouped(Find(p), Find(q), Find(r), Find(s))
    requires IsBase64(p) && IsBase64(q) && IsBase64(r) && IsBase64(s)
    ensures FourLetters(a, b, c) == [p, q, r, s]
  {
    FoundLetter(p); FoundLetter(q); FoundLetter(r); FoundLetter(s);
    SextetsOf(Find(p), Find(q), Find(r), Find(s));
  }

  lemma SextetsOf(v: byte, w: byte, x: byte, y: byte)
    requires v < 64 && w < 64 && x < 64 && y < 64
    ensures var g := Regrouped(v, w, x, y);
            Sextet(g, 0) == v && Sextet(g, 1) == w && Sextet(g, 2) == x && Sextet(g, 3) == y
  {
  }

  // How many letters s starts with, four at most.
  function Leading(s: seq<byte>): (n: nat)
    ensures n <= 4 && n <= |s| && forall k :: 0 <= k < n ==> IsBase64(s[k])
    ensures n < 4 && n < |s| ==> !IsBase64(s[n])
  {
    if |s| < 1 || !IsBase64(s[0]) then 0
    else if |s| < 2 || !IsBase64(s[1]) then 1
    else if |s| < 3 || !IsBase64(s[2]) then 2
    else if |s| < 4 || !IsBase64(s[3]) then 3
    else 4
  }

  /** What the decoder makes of any text: whole groups of letters, and of the first that is not whole the bytes that its
      letters complete. */
  function Decoded(s: seq<byte>): seq<byte>
  {
    var n := Leading(s);
    if n == 4 then ThreeBytes(s[..4]) + Decoded(s[4..]) else Completed(s[..n])
  }

  // What at most four letters complete: three bytes of four, and one less than there are of fewer.
  function Completed(q: seq<byte>): seq<byte>
    requires |q| <= 4
  {
    if |q| < 2 then [] else ThreeBytes(q + [65, 65, 65, 65][..4 - |q|])[..|q| - 1]
  }

  /* ---- Groups there and back ---- */

  lemma SextetsBack(a: byte, b: byte, c: byte)
    ensures var g := Joined(a, b, c);
            var r := Regrouped(Sextet(g, 0), Sextet(g, 1), Sextet(g, 2), Sextet(g, 3));
            Octet(r, 0) == a && Octet(r, 1) == b && Octet(r, 2) == c
  {
  }

  lemma GroupBack(a: byte, b: byte, c: byte)
    ensures ThreeBytes(FourLetters(a, b, c)) == [a, b, c]
    ensures Leading(FourLetters(a, b, c)) == 4
  {
    var g := Joined(a, b, c);
    SextetsBack(a, b, c);
    LetterFound(Sextet(g, 0));
    LetterFound(Sextet(g, 1));
    LetterFound(Sextet(g, 2));
    LetterFound(Sextet(g, 3));
  }

  lemma ZeroSextets(a: byte, b: byte)
    ensures FourLetters(a, 0, 0)[2] == FourLetters(a, 0, 0)[3] == 65 && FourLetters(a, b, 0)[3] == 65
  {
    assert Sextet(Joined(a, 0, 0), 2) == 0 && Sextet(Joined(a, b, 0), 3) == 0;
  }

  lemma LeadingOf(q: seq<byte>, n: nat, x: seq<byte>)
    requires |q| == 4 && Leading(q) == 4 && n <= 4 && (n < 4 ==> x != [] && !IsBase64(x[0]))
    ensures Leading(q[..n] + x) == n
  {
    var s := q[..n] + x;
    assert forall k :: 0 <= k < n ==> s[k] == q[k];
    assert n < 4 ==> s[n] == x[0];
  }

  /** What was encoded is decoded, also with more text behind it, which is read on only if there was no padding. */
  lemma {:induction false} DecodedEncoded(s: seq<byte>, x: seq<byte>)
    ensures Decoded(Encoded(s) + x) == if |s| % 3 == 0 then s + Decoded(x) else s
    decreases |s|
  {
    if s == [] {
      assert Encoded(s) + x == x;
    } else if |s| < 3 {
      ShortDecoded(s, x);
    } else {
      DecodedEncoded(s[3..], x);
      LongDecoded(s, x);
      ThreeMore(s, x);
    }
  }

  lemma LongDecoded(s: seq<byte>, x: seq<byte>)
    requires |s| >= 3
    ensures Decoded(Encoded(s) + x) == [s[0], s[1], s[2]] + Decoded(Encoded(s[3..]) + x)
  {
    var q, e := FourLetters(s[0], s[1], s[2]), Encoded(s[3..]);
    GroupBack(s[0], s[1], s[2]);
    Associates(q, e, x);
    WholeGroup(q, e + x);
  }

  lemma Associates(a: seq<byte>, b: seq<byte>, c: seq<byte>)
    ensures a + b + c == a + (b + c)
  {
  }

  lemma WholeGroup(q: seq<byte>, t: seq<byte>)
    requires |q| == 4 && Leading(q) == 4
    ensures Decoded(q + t) == ThreeBytes(q) + Decoded(t)
  {
    LeadingOf(q, 4, t);
    assert q[..4] == q;
    Ends(q, t);
  }

  lemma ThreeMore(s: seq<byte>, x: seq<byte>)
    requires |s| >= 3
    ensures [s[0], s[1], s[2]] + s[3..] == s && |s[3..]| % 3 == |s| % 3
    ensures [s[0], s[1], s[2]] + (s[3..] + Decoded(x)) == s + Decoded(x)
  {
  }

  lemma ShortDecoded(s: seq<byte>, x: seq<byte>)
    requires 1 <= |s| <= 2
    ensures Decoded(Encoded(s) + x) == s
  {
    var b := if |s| == 2 then s[1] else 0;
    var q, n := FourLetters(s[0], b, 0), |s| + 1;
    var rest := (if |s| == 1 then [PAD, PAD] else [PAD]) + x;
    GroupBack(s[0], b, 0);
    ZeroSextets(s[0], b);
    LeadingOf(q, n, rest);
    assert Encoded(s) + x == q[..n] + rest;
    Ends(q[..n], rest);
    assert q[..n] + [65, 65, 65, 65][..4 - n] == q;
  }

  lemma {:induction false} EncodedLength(s: seq<byte>)
    ensures |Encoded(s)| == 4 * ((|s| + 2) / 3)
    decreases |s|
  {
    if |s| >= 3 { EncodedLength(s[3..]); }
  }

  /** decode_base64 undoes encode_base64. */
  lemma RoundTrip(s: seq<byte>)
    ensures Decoded(Encoded(s)) == s && |Encoded(s)| == 4 * ((|s| + 2) / 3)
  {
    DecodedEncoded(s, []);
    EncodedLength(s);
    assert Encoded(s) + [] == Encoded(s);
    assert s + [] == s;
  }

  /* ---- The loops ---- */

  // char_array_4 from char_array_3.
  method Split(a: array<byte>) returns (r: array<byte>)
    requires a.Length == 3
    ensures fresh(r) && r.Length == 4
    ensures forall j :: 0 <= j < 4 ==> r[j] == Sextet(Joined(a[0], a[1], a[2]), j)
  {
    r := new byte[4];
    r[0] := (a[0] & 0xfc) >> 2;
    r[1] := ((a[0] & 0x03) << 4) + ((a[1] & 0xf0) >> 4);
    r[2] := ((a[1] & 0x0f) << 2) + ((a[2] & 0xc0) >> 6);
    r[3] := a[2] & 0x3f;
    SplitIs(a[0], a[1], a[2]);
  }

  lemma SplitIs(a: byte, b: byte, c: byte)
    ensures var g := Joined(a, b, c);
            && (a & 0xfc) >> 2 == Sextet(g, 0) && ((a & 0x03) << 4) + ((b & 0xf0) >> 4) == Sextet(g, 1)
            && ((b & 0x0f) << 2) + ((c & 0xc0) >> 6) == Sextet(g, 2) && c & 0x3f == Sextet(g, 3)
  {
  }

  // The letters of the first n values.
  method Append(ret: seq<byte>, v: array<byte>, n: nat, ghost q: seq<byte>) returns (r: seq<byte>)
    requires n <= v.Length == |q| && forall j :: 0 <= j < v.Length ==> v[j] < 64 && Letter(v[j]) == q[j]
    ensures r == ret + q[..n]
  {
    r := ret;
    var j := 0;
    while j < n
      invariant 0 <= j <= n && r == ret + q[..j]
    {
      r := r + [Letter(v[j])];
      j := j + 1;
    }
  }

  // The letters of a whole group.
  method EncodeGroup(ret: seq<byte>, three: array<byte>) returns (r: seq<byte>)
    requires three.Length == 3
    ensures r == ret + FourLetters(three[0], three[1], three[2])
  {
    var four := Split(three);
    r := Append(ret, four, 4, FourLetters(three[0], three[1], three[2]));
  }

  // The letters of what is left over, and the padding.
  method EncodeRest(ret: seq<byte>, three: array<byte>, i: nat) returns (r: seq<byte>)
    requires three.Length == 3 && 0 < i < 3
    modifies three
    ensures r == ret + Encoded(old(three[..i]))
  {
    var j := i;
    while j < 3
      invariant i <= j <= 3
      invariant forall k :: 0 <= k < 3 ==> three[k] == if i <= k < j then 0 else old(three[k])
    {
      three[j] := 0;
      j := j + 1;
    }
    var four := Split(three);
    r := Append(ret, four, i + 1, FourLetters(three[0], three[1], three[2]));
    var m := i;
    while m < 3
      invariant i <= m <= 3 && r == ret + FourLetters(three[0], three[1], three[2])[..i + 1] + seq(m - i, _ => PAD)
    {
      r := r + [PAD];
      m := m + 1;
    }
  }

  /** encode_base64. */
  method Encode(data: seq<byte>) returns (ret: seq<byte>)
    ensures ret == Encoded(data)
  {
    ret := [];
    var three := new byte[3];
    var i, pos := 0, 0;
    assert data[0..] == data;
    while pos < |data|
      invariant 0 <= i < 3 && i <= pos <= |data|
      invariant three[..i] == data[pos - i..pos]
      invariant ret + Encoded(data[pos - i..]) == Encoded(data)
    {
      ghost var before := three[..i];
      three[i] := data[pos];
      assert three[..i + 1] == before + [data[pos]] == data[pos - i..pos + 1];
      i, pos := i + 1, pos + 1;
      if i == 3 {
        assert three[0] == three[..i][0] && three[1] == three[..i][1] && three[2] == three[..i][2];
        EncodedFrom(data, pos - 3, ret);
        ret := EncodeGroup(ret, three);
        i := 0;
      }
    }
    assert data[pos - i..pos] == data[pos - i..];
    if i > 0 {
      ret := EncodeRest(ret, three, i);
    } else {
      assert Encoded(data[pos..]) == [];
    }
  }

  lemma EncodedFrom(data: seq<byte>, k: nat, ret: seq<byte>)
    requires k + 3 <= |data|
    ensures ret + Encoded(data[k..]) == ret + FourLetters(data[k], data[k + 1], data[k + 2]) + Encoded(data[k + 3..])
  {
    assert data[k..][3..] == data[k + 3..];
  }

  // The bytes of char_array_3, each from two of four values.
  function FirstByte(v: byte, w: byte): byte
  {
    (v << 2) + ((w & 0x30) >> 4)
  }

  function SecondByte(w: byte, x: byte): byte
  {
    ((w & 0xf) << 4) + ((x & 0x3c) >> 2)
  }

  function ThirdByte(x: byte, y: byte): byte
  {
    ((x & 0x3) << 6) + y
  }

  lemma FirstByteIs(v: byte, w: byte, x: byte, y: byte)
    requires v < 64 && w < 64 && x < 64 && y < 64
    ensures FirstByte(v, w) == Octet(Regrouped(v, w, x, y), 0)
  {
    assert FirstByte(v, w) == (v << 2) | ((w & 0x30) >> 4);
  }

  lemma SecondByteIs(v: byte, w: byte, x: byte, y: byte)
    requires v < 64 && w < 64 && x < 64 && y < 64
    ensures SecondByte(w, x) == Octet(Regrouped(v, w, x, y), 1)
  {
    assert SecondByte(w, x) == ((w & 0xf) << 4) | ((x & 0x3c) >> 2);
  }

  lemma ThirdByteIs(v: byte, w: byte, x: byte, y: byte)
    requires v < 64 && w < 64 && x < 64 && y < 64
    ensures ThirdByte(x, y) == Octet(Regrouped(v, w, x, y), 2)
  {
    assert ThirdByte(x, y) == ((x & 0x3) << 6) | y;
  }

  method Join(v: array<byte>) returns (r: array<byte>)
    requires v.Length == 4
    ensures fresh(r) && r.Length == 3
    ensures r[0] == FirstByte(v[0], v[1]) && r[1] == SecondByte(v[1], v[2]) && r[2] == ThirdByte(v[2], v[3])
  {
    r := new byte[3];
    r[0] := (v[0] << 2) + ((v[1] & 0x30) >> 4);
    r[1] := ((v[1] & 0xf) << 4) + ((v[2] & 0x3c) >> 2);
    r[2] := ((v[2] & 0x3) << 6) + v[3];
  }

  ghost predicate AllLetters(q: seq<byte>)
  {
    forall k :: 0 <= k < |q| ==> IsBase64(q[k])
  }

  // The bytes that the first i letters in four complete.
  method DecodeGroup(ret: seq<byte>, four: array<byte>, i: nat) returns (r: seq<byte>)
    requires four.Length == 4 && 0 < i <= 4 && AllLetters(four[..i])
    modifies four
    ensures r == ret + Completed(old(four[..i]))
  {
    ghost var q := four[..i];
    var j := i;
    while j < 4
      invariant i <= j <= 4
      invariant forall k :: 0 <= k < 4 ==> four[k] == if i <= k < j then 0 else old(four[k])
    {
      four[j] := 0;
      j := j + 1;
    }
    j := 0;
    while j < 4
      invariant 0 <= j <= 4
      invariant forall k :: 0 <= k < 4 ==>
                  four[k] == if k < j then Find(if k < i then q[k] else 0) else if k < i then q[k] else 0
    {
      four[j] := Find(four[j]);
      j := j + 1;
    }
    var three := Join(four);
    CompletedIs(q, four[..], three[..]);
    r := ret;
    j := 0;
    while j < i - 1
      invariant 0 <= j <= i - 1 && r == ret + three[..j]
    {
      r := r + [three[j]];
      j := j + 1;
    }
  }

  lemma FilledUp(q: seq<byte>, f: seq<byte>)
    requires 0 < |q| <= 4 && f == q + [65, 65, 65, 65][..4 - |q|]
    requires forall k :: 0 <= k < |q| ==> IsBase64(q[k])
    ensures |f| == 4 && forall k :: 0 <= k < |q| ==> f[k] == q[k]
    ensures Find(f[0]) < 64 && Find(f[1]) < 64 && Find(f[2]) < 64 && Find(f[3]) < 64
  {
    forall k | 0 <= k < 4 ensures Find(f[k]) < 64 {
      FoundLetter(f[k]);
      assert k >= |q| ==> f[k] == 65;
    }
  }

  // Of values for missing letters nothing is kept.
  lemma CompletedIs(q: seq<byte>, v: seq<byte>, t: seq<byte>)
    requires 0 < |q| <= 4 && |v| == 4 && |t| == 3
    requires forall k :: 0 <= k < |q| ==> IsBase64(q[k]) && v[k] == Find(q[k])
    requires t[0] == FirstByte(v[0], v[1]) && t[1] == SecondByte(v[1], v[2]) && t[2] == ThirdByte(v[2], v[3])
    ensures t[..|q| - 1] == Completed(q)
  {
    var f := q + [65, 65, 65, 65][..4 - |q|];
    FilledUp(q, f);
    CompletedBytes(f[0], f[1], f[2], f[3], v, t);
  }

  lemma CompletedBytes(a: byte, b: byte, c: byte, d: byte, v: seq<byte>, t: seq<byte>)
    requires |v| == 4 && |t| == 3 && Find(a) < 64 && Find(b) < 64 && Find(c) < 64 && Find(d) < 64
    requires t[0] == FirstByte(v[0], v[1]) && t[1] == SecondByte(v[1], v[2]) && t[2] == ThirdByte(v[2], v[3])
    ensures v[0] == Find(a) && v[1] == Find(b) ==> t[0] == ThreeBytes([a, b, c, d])[0]
    ensures v[1] == Find(b) && v[2] == Find(c) ==> t[1] == ThreeBytes([a, b, c, d])[1]
    ensures v[2] == Find(c) && v[3] == Find(d) ==> t[2] == ThreeBytes([a, b, c, d])[2]
  {
    FirstByteIs(Find(a), Find(b), Find(c), Find(d));
    SecondByteIs(Find(a), Find(b), Find(c), Find(d));
    ThirdByteIs(Find(a), Find(b), Find(c), Find(d));
  }

  method Store(a: array<byte>, i: nat, c: byte, ghost q: seq<byte>)
    requires i < a.Length && a[..i] == q
    modifies a
    ensures a[..i + 1] == q + [c]
  {
    a[i] := c;
  }

  // What is still to be decoded comes behind ret.
  ghost predicate DecodedTo(data: seq<byte>, k: nat, ret: seq<byte>)
    requires k <= |data|
  {
    ret + Decoded(data[k..]) == Decoded(data)
  }

  /** decode_base64. */
  method Decode(data: seq<byte>) returns (ret: seq<byte>)
    requires |data| <= 0x7FFF_FFFF
    ensures ret == Decoded(data)
  {
    ret := [];
    var four := new byte[4];
    var i, pos := 0, 0;
    ghost var q: seq<byte> := [];
    assert data[0..] == data;
    while pos < |data| && data[pos] != PAD && IsBase64(data[pos])
      invariant 0 <= i < 4 && i <= pos <= |data|
      invariant four[..i] == q == data[pos - i..pos] && AllLetters(q)
      invariant DecodedTo(data, pos - i, ret)
    {
      Store(four, i, data[pos], q);
      OneLetterMore(q, data[pos]);
      SliceMore(data, pos - i, pos);
      q := q + [data[pos]];
      i, pos := i + 1, pos + 1;
      if i == 4 {
        DecodedGroup(data, pos - 4, q, ret);
        ret := DecodeGroup(ret, four, 4);
        i, q := 0, [];
      }
    }
    DecodedRest(data, pos - i, q, ret);
    if i > 0 {
      ret := DecodeGroup(ret, four, i);
    }
  }

  lemma DecodedGroup(data: seq<byte>, k: nat, q: seq<byte>, ret: seq<byte>)
    requires |q| == 4 && k + 4 <= |data| && q == data[k..k + 4] && AllLetters(q) && DecodedTo(data, k, ret)
    ensures DecodedTo(data, k + 4, ret + Completed(q))
  {
    DecodedFrom(data, k, 4, ret);
  }

  lemma DecodedRest(data: seq<byte>, k: nat, q: seq<byte>, ret: seq<byte>)
    requires |q| < 4 && k + |q| <= |data| && q == data[k..k + |q|] && AllLetters(q) && DecodedTo(data, k, ret)
    requires k + |q| < |data| ==> !IsBase64(data[k + |q|])
    ensures ret + Completed(q) == Decoded(data)
  {
    DecodedFrom(data, k, |q|, ret);
  }

  lemma SliceMore(s: seq<byte>, from: nat, k: nat)
    requires from <= k < |s|
    ensures s[from..k] + [s[k]] == s[from..k + 1]
  {
  }

  lemma OneLetterMore(q: seq<byte>, c: byte)
    requires AllLetters(q) && IsBase64(c)
    ensures AllLetters(q + [c])
  {
  }

  lemma LeadingIs(s: seq<byte>, n: nat)
    requires n <= |s| && n <= 4 && AllLetters(s[..n]) && (n < 4 && n < |s| ==> !IsBase64(s[n]))
    ensures Leading(s) == n
  {
    assert forall k :: 0 <= k < n ==> s[k] == s[..n][k];
  }

  lemma DecodedFrom(data: seq<byte>, k: nat, n: nat, ret: seq<byte>)
    requires k + n <= |data| && n <= 4 && AllLetters(data[k..k + n])
    requires n < 4 && k + n < |data| ==> !IsBase64(data[k + n])
    ensures ret + Decoded(data[k..]) ==
            ret + Completed(data[k..k + n]) + (if n == 4 then Decoded(data[k + 4..]) else [])
  {
    var s := data[k..];
    assert s[..n] == data[k..k + n];
    LeadingIs(s, n);
    assert n == 4 ==> s[4..] == data[k + 4..];
    assert n == 4 ==> Completed(s[..4]) == ThreeBytes(s[..4]);
  }
}
