/** WebSocket frames: the encoder of unmasked frames, and the decoder, which takes one frame from the front of a buffer
    and unmasks it there (sections 5.2 and 5.3 of RFC 6455). */
module WebSocket {
  import opened Basics
  import opened Bytes

  /* ---- Frame types ---- */

  datatype FrameType = Error | Incomplete | Opening | Closing | IncompleteText | IncompleteBinary | Text | Binary
                     | Ping | Pong

  // The low byte of the type's number, which is the first byte of a frame.
  function TypeByte(t: FrameType): byte
  {
    match t
    case Error | Incomplete | Opening | Closing => 0x00
    case IncompleteText => 0x01
    case IncompleteBinary => 0x02
    case Text => 0x81
    case Binary => 0x82
    case Ping => 0x19
    case Pong => 0x1A
  }

  // The type that the decoder reads from a first byte.
  function TypeOf(b: byte): FrameType
  {
    var opcode, fin := b & 0x0F, (b >> 7) & 0x01;
    if opcode == 0x0 then if fin != 0 then Text else IncompleteText
    else if opcode == 0x1 then if fin != 0 then Text else IncompleteText
    else if opcode == 0x2 then if fin != 0 then Binary else IncompleteBinary
    else if opcode == 0x9 then Ping
    else if opcode == 0xA then Pong
    else Error
  }

  /** Exactly six types survive; the other four become an unfinished text. */
  lemma TypeBack(t: FrameType)
    ensures TypeOf(TypeByte(t)) == t <==> t !in {Error, Incomplete, Opening, Closing}
    ensures TypeOf(TypeByte(t)) != Incomplete
  {
  }

  // The final bit and the opcode of a frame of the type, by sections 5.2 and 5.5 of RFC 6455; the message in pieces is
  // its first piece. The other four types are not frames.
  function StandardParts(t: FrameType): Option<(bool, byte)>
  {
    match t
    case IncompleteText => Some((false, 0x1))
    case IncompleteBinary => Some((false, 0x2))
    case Text => Some((true, 0x1))
    case Binary => Some((true, 0x2))
    case Ping => Some((true, 0x9))
    case Pong => Some((true, 0xA))
    case _ => None
  }

  function Marked(final: bool, opcode: byte): byte
  {
    if final then 0x80 | opcode else opcode
  }

  /** The first byte is the standard's, three reserved bits clear, for texts and binaries. A ping or a pong has the
      right opcode, but not the final bit, and a reserved bit is set. */
  lemma FirstByte(t: FrameType)
    ensures var b := TypeByte(t);
            match StandardParts(t)
            case None => b == 0
            case Some(parts) =>
              && b & 0x0F == parts.1
              && (b == Marked(parts.0, parts.1) <==> t != Ping && t != Pong)
              && (t == Ping || t == Pong ==> b & 0xF0 == 0x10)
  {
  }

  predicate IsFirstOf(b: byte, t: FrameType)
  {
    match StandardParts(t)
    case None => false
    case Some(parts) => b & 0x0F == parts.1 && ((b >= 0x80) == parts.0 || t == Ping || t == Pong)
  }

  /** A first byte is read by its opcode and final bit, which pings and pongs need not have, whatever its reserved bits
      are. A further piece of a message counts as a text, and what has another opcode as an error. */
  lemma FirstByteRead(b: byte, t: FrameType)
    ensures IsFirstOf(b, t) ==> TypeOf(b) == t
    ensures b & 0x0F == 0 ==> TypeOf(b) == if b >= 0x80 then Text else IncompleteText
    ensures b & 0x0F !in {0, 1, 2, 9, 10} ==> TypeOf(b) == Error
  {
  }

  /* ---- Encoding ---- */

  // The number that stands for the length in the second byte, and the bytes behind it.
  function First(n: nat): (f: nat)
    ensures f < 128
  {
    if n <= 125 then n else if n <= 65535 then 126 else 127
  }

  function Further(n: nat): seq<byte>
  {
    if n <= 125 then [] else if n <= 65535 then [Digit(n / 0x100), Digit(n)] else [0, 0, 0, 0] + FourDigits(n)
  }

  function SecondByte(n: nat, masked: bool): byte
  {
    if masked then (First(n) as byte) | 0x80 else First(n) as byte
  }

  /** A frame as a server sends it, and as a client does, with four bytes of mask (section 5.2). */
  function FrameOf(t: FrameType, p: seq<byte>, key: Option<seq<byte>>): seq<byte>
    requires key.Some? ==> |key.value| == 4
  {
    match key
    case None => [TypeByte(t), SecondByte(|p|, false)] + Further(|p|) + p
    case Some(k) => [TypeByte(t), SecondByte(|p|, true)] + Further(|p|) + k + MaskedText(p, k)
  }

  function MaskedText(p: seq<byte>, key: seq<byte>): seq<byte>
    requires |key| == 4
  {
    seq(|p|, i requires 0 <= i < |p| => Xor(p[i], key[i % 4]))
  }

  // The four bytes 0 and the low four bytes of the length, as the encoder's loops write them.
  method LongLength(len: nat) returns (r: seq<byte>)
    ensures r == [0, 0, 0, 0] + FourDigits(len)
  {
    r := [];
    var i := 3;
    while i >= 0
      invariant -1 <= i <= 3 && r == Zeros(3 - i)
    {
      r := r + [0];
      i := i - 1;
    }
    i := 3;
    while i >= 0
      invariant -1 <= i <= 3 && r == [0, 0, 0, 0] + FourDigits(len)[..3 - i]
    {
      r := r + [Digit(Shifted(len, i))];
      i := i - 1;
    }
  }

  // n shifted right by i bytes.
  function Shifted(n: nat, i: int): nat
  {
    if i == 0 then n else if i == 1 then n / 0x100 else if i == 2 then n / 0x10000 else n / 0x1000000
  }

  method Encode(t: FrameType, data: array<byte>, len: nat) returns (ret: seq<byte>)
    requires len <= data.Length
    ensures ret == FrameOf(t, data[..len], None)
  {
    ret := [TypeByte(t)];
    if len <= 125 {
      ret := ret + [len as byte];
    } else if len <= 65535 {
      ret := ret + [126];
      ret := ret + [Digit(len / 0x100)];
      ret := ret + [Digit(len)];
    } else {
      ret := ret + [127];
      var long := LongLength(len);
      ret := ret + long;
    }
    assert ret == [TypeByte(t), SecondByte(len, false)] + Further(len);
    ret := ret + data[..len];
  }

  /* ---- Decoding ---- */

  const MOD64: nat := 0x1_0000_0000_0000_0000

  datatype Outcome = More | Frame(kind: FrameType, start: nat, length: nat, cost: nat)

  function Field(s: seq<byte>): (f: nat)
    requires |s| >= 2
    ensures f < 128
  {
    SevenBits(s[1]);
    Value(s[1] & 0x7F)
  }

  lemma SevenBits(b: byte)
    ensures Value(b & 0x7F) < 128
  {
  }

  function MaskBit(s: seq<byte>): bool
    requires |s| >= 2
  {
    (s[1] >> 7) & 0x01 != 0
  }

  // How long the first byte and the length field are.
  function HeaderLength(s: seq<byte>): nat
    requires |s| >= 2
  {
    if Field(s) <= 125 then 2 else if Field(s) == 126 then 4 else 10
  }

  function PayloadLength(s: seq<byte>): nat
    requires |s| >= 2 && HeaderLength(s) <= |s|
  {
    if Field(s) <= 125 then Field(s) else Number(s[2..HeaderLength(s)])
  }

  // The length that is compared with what is there; it wraps, and leaves out the four bytes of a mask.
  function Needed(s: seq<byte>): nat
    requires |s| >= 2 && HeaderLength(s) <= |s|
  {
    (PayloadLength(s) + HeaderLength(s)) % MOD64
  }

  // All that decode touches is in the memory s, of which len bytes were received.
  predicate Readable(s: seq<byte>, len: nat)
  {
    && len <= |s|
    && (len >= 3 ==> HeaderLength(s) <= |s|)
    && (len >= 3 && len >= Needed(s) && MaskBit(s) ==> HeaderLength(s) + 4 + PayloadLength(s) <= |s|)
  }

  function Start(s: seq<byte>): nat
    requires |s| >= 2
  {
    HeaderLength(s) + (if MaskBit(s) then 4 else 0)
  }

  function Decoded(s: seq<byte>, len: nat): Outcome
    requires Readable(s, len)
  {
    if len < 3 || len < Needed(s) then More
    else Frame(TypeOf(s[0]), Start(s), PayloadLength(s), (Start(s) + PayloadLength(s)) % MOD64)
  }

  // n bytes of s from `at` on, combined in turn with the four bytes before them.
  function Masked(s: seq<byte>, at: nat, n: nat): seq<byte>
    requires 4 <= at <= at + n <= |s|
  {
    seq(|s|, k requires 0 <= k < |s| => MaskedByte(s, at, n, k))
  }

  function MaskedByte(s: seq<byte>, at: nat, n: nat, k: nat): byte
    requires 4 <= at && k < |s|
  {
    if at <= k < at + n then Xor(s[k], s[at - 4 + (k - at) % 4]) else s[k]
  }

  function Xor(a: byte, b: byte): byte
  {
    a ^ b
  }

  /** Masking is section 5.3's exclusive or: the bits that one of the two bytes has and the other has not. */
  lemma XorIs(a: byte, b: byte)
    ensures Xor(a, b) == (a | b) - (a & b)
  {
  }

  // The memory after decode.
  function After(s: seq<byte>, len: nat): seq<byte>
    requires Readable(s, len)
  {
    if Decoded(s, len).Frame? && MaskBit(s) then Masked(s, Start(s), PayloadLength(s)) else s
  }

  lemma EightBytes(s: seq<byte>)
    requires |s| >= 10
    ensures Number(s[2..10]) ==
            Value(s[2]) * 0x100_0000_0000_0000 + Value(s[3]) * 0x1_0000_0000_0000 + Value(s[4]) * 0x100_0000_0000 +
            Value(s[5]) * 0x1_0000_0000 + Value(s[6]) * 0x100_0000 + Value(s[7]) * 0x1_0000 + Value(s[8]) * 0x100 +
            Value(s[9])
    ensures Number(s[2..4]) == Value(s[2]) * 0x100 + Value(s[3])
  {
    TwoBytes(s, 2);
    TwoBytes(s, 4);
    TwoBytes(s, 6);
    TwoBytes(s, 8);
  }

  lemma TwoBytes(s: seq<byte>, k: nat)
    requires 2 <= k <= k + 2 <= |s|
    ensures Number(s[2..k + 2]) == 0x1_0000 * Number(s[2..k]) + 0x100 * Value(s[k]) + Value(s[k + 1])
    ensures Number(s[2..2]) == 0
  {
    NumberNext(s, 2, k);
    NumberNext(s, 2, k + 1);
  }

  method ReadLength(data: array<byte>, field: nat) returns (payload: nat, pos: nat)
    requires data.Length >= 2 && HeaderLength(data[..]) <= data.Length && field == Field(data[..])
    ensures payload == PayloadLength(data[..]) && pos == HeaderLength(data[..])
  {
    payload, pos := 0, 2;
    if field <= 125 {
      payload := field;
    } else if field == 126 {
      ghost var memory := data[..] + Zeros(6);
      EightBytes(memory);
      assert memory[2..4] == data[..][2..4];
      payload := Value(data[2]) * 0x100 + Value(data[3]);
      pos := pos + 2;
    } else if field == 127 {
      EightBytes(data[..]);
      payload := Value(data[2]) * 0x100_0000_0000_0000 + Value(data[3]) * 0x1_0000_0000_0000 +
                 Value(data[4]) * 0x100_0000_0000 + Value(data[5]) * 0x1_0000_0000 + Value(data[6]) * 0x100_0000 +
                 Value(data[7]) * 0x1_0000 + Value(data[8]) * 0x100 + Value(data[9]);
      pos := pos + 8;
    }
  }

  method Unmask(data: array<byte>, at: nat, n: nat)
    requires 4 <= at <= at + n <= data.Length
    modifies data
    ensures data[..] == Masked(old(data[..]), at, n)
  {
    ghost var was := data[..];
    var mask := data[at - 4..at];
    var i := 0;
    while i < n
      invariant 0 <= i <= n && forall k :: 0 <= k < data.Length ==> data[k] == MaskedByte(was, at, i, k)
    {
      assert mask[i % 4] == was[at - 4 + i % 4];
      data[at + i] := Xor(data[at + i], mask[i % 4]);
      i := i + 1;
    }
  }

  /** decode: one frame from the front, unmasked in place; or that more bytes are needed. */
  method Decode(data: array<byte>, len: nat) returns (r: Outcome)
    requires Readable(data[..], len)
    modifies data
    ensures r == Decoded(old(data[..]), len) && data[..] == After(old(data[..]), len)
  {
    if len < 3 {
      return More;
    }
    var first, masked := data[0], (data[1] >> 7) & 0x01;
    var payload, pos := ReadLength(data, Value(data[1] & 0x7F));
    if len < (payload + pos) % MOD64 {
      return More;
    }
    if masked != 0 {
      pos := pos + 4;
      Unmask(data, pos, payload);
    }
    r := Frame(TypeOf(first), pos, payload, (pos + payload) % MOD64);
  }

  /* ---- Reading frames ---- */

  function HeaderOf(n: nat): nat
  {
    2 + |Further(n)|
  }

  lemma Bits(n: nat)
    requires n < 128
    ensures (n as byte) & 0x7F == n as byte && ((n as byte) | 0x80) & 0x7F == n as byte
    ensures ((n as byte) >> 7) & 0x01 == 0 && (((n as byte) | 0x80) >> 7) & 0x01 == 1
  {
    BitsOf(n as byte);
    LowByte(n);
  }

  lemma BitsOf(b: byte)
    ensures b < 128 ==> b & 0x7F == b && (b | 0x80) & 0x7F == b
    ensures b < 128 ==> (b >> 7) & 0x01 == 0 && ((b | 0x80) >> 7) & 0x01 == 1
  {
  }

  lemma LowByte(n: nat)
    requires n < 128
    ensures (n as byte) < 128
  {
  }

  lemma HeaderRead(s: seq<byte>, n: nat, masked: bool)
    requires |s| >= 2 && s[1] == SecondByte(n, masked)
    ensures Field(s) == First(n) && MaskBit(s) == masked && HeaderLength(s) == HeaderOf(n)
  {
    Bits(First(n));
    ByteBack(First(n));
  }

  lemma FourDigitsCut(n: nat)
    ensures [0, 0, 0, 0] + FourDigits(n) == BigEndian(n % 0x1_0000_0000, 8)
  {
    var low, high := n % 0x1_0000_0000, n / 0x1_0000_0000;
    TwoToThe64();
    BigEndianJoined(high, low, n, 0, 4);
    BigEndianJoined(0, low, low, 4, 4);
    BigEndianFour(n);
    BigEndianFour(0);
    assert BigEndian(high, 0) == [];
  }

  lemma TwoDigits(n: nat)
    ensures BigEndian(n, 2) == [Digit(n / 0x100), Digit(n)]
  {
    assert BigEndian(n / 0x100, 1) == [] + [Digit(n / 0x100)];
  }

  lemma NumberTwo(n: nat)
    requires n <= 65535
    ensures Number([Digit(n / 0x100), Digit(n)]) == n
  {
    TwoDigits(n);
    TwoToThe64();
    NumberBack(n, 2);
  }

  lemma NumberEight(n: nat)
    ensures Number([0, 0, 0, 0] + FourDigits(n)) == n % 0x1_0000_0000
  {
    FourDigitsCut(n);
    TwoToThe64();
    NumberBack(n % 0x1_0000_0000, 8);
  }

  lemma NumberFurther(n: nat)
    requires n > 125
    ensures Number(Further(n)) == n % 0x1_0000_0000
  {
    if n > 65535 {
      NumberEight(n);
    } else {
      NumberTwo(n);
    }
  }

  lemma PayloadRead(s: seq<byte>, n: nat)
    requires |s| >= HeaderOf(n) && Field(s) == First(n) && s[2..HeaderOf(n)] == Further(n)
    ensures HeaderLength(s) == HeaderOf(n) && PayloadLength(s) == n % 0x1_0000_0000
  {
    if n > 125 { NumberFurther(n); }
  }

  // The first n bytes of s are those of f.
  ghost predicate Agree(s: seq<byte>, f: seq<byte>, n: nat)
  {
    n <= |s| && n <= |f| && forall k :: 0 <= k < n ==> s[k] == f[k]
  }

  function MaskLength(key: Option<seq<byte>>): nat
  {
    if key.Some? then 4 else 0
  }

  lemma FrameParts(t: FrameType, p: seq<byte>, key: Option<seq<byte>>)
    requires key.Some? ==> |key.value| == 4
    ensures var f, h := FrameOf(t, p, key), HeaderOf(|p|);
            && |f| == h + MaskLength(key) + |p|
            && f[0] == TypeByte(t) && f[1] == SecondByte(|p|, key.Some?) && f[2..h] == Further(|p|)
            && (key.Some? ==> f[h..h + 4] == key.value && f[h + 4..] == MaskedText(p, key.value))
            && (key.None? ==> f[h..] == p)
  {
  }

  lemma FrameHeader(s: seq<byte>, t: FrameType, p: seq<byte>, key: Option<seq<byte>>)
    requires (key.Some? ==> |key.value| == 4) && HeaderOf(|p|) <= |FrameOf(t, p, key)|
    requires Agree(s, FrameOf(t, p, key), HeaderOf(|p|))
    ensures s[0] == TypeByte(t) && HeaderLength(s) == HeaderOf(|p|) && MaskBit(s) == key.Some?
    ensures PayloadLength(s) == |p| % 0x1_0000_0000
  {
    var f, h := FrameOf(t, p, key), HeaderOf(|p|);
    FrameParts(t, p, key);
    assert s[2..h] == f[2..h];
    HeaderRead(s, |p|, key.Some?);
    PayloadRead(s, |p|);
  }

  lemma Small(n: nat)
    requires n < MOD64
    ensures n % MOD64 == n
  {
  }

  // decode on a memory whose header is known.
  lemma DecodedIs(s: seq<byte>, len: nat, h: nat, n: nat)
    requires 3 <= len <= |s| && HeaderLength(s) == h <= |s| && PayloadLength(s) == n < 0x1_0000_0000 && h + n <= len
    requires MaskBit(s) ==> h + 4 + n <= |s|
    ensures Readable(s, len)
    ensures var start := h + (if MaskBit(s) then 4 else 0); Decoded(s, len) == Frame(TypeOf(s[0]), start, n, start + n)
    ensures After(s, len) == if MaskBit(s) then Masked(s, h + 4, n) else s
  {
    Small(n + h);
    Small(n + h + 4);
  }

  /** A frame in front of anything is read off with its type and its length modulo 2^32; of a masked one the last four
      bytes may be missing from the count. */
  lemma FrameRead(s: seq<byte>, len: nat, t: FrameType, p: seq<byte>, key: Option<seq<byte>>)
    requires key.Some? ==> |key.value| == 4
    requires 3 <= len <= |s| && |FrameOf(t, p, key)| <= len + MaskLength(key)
    requires Agree(s, FrameOf(t, p, key), |FrameOf(t, p, key)|)
    ensures Readable(s, len)
    ensures var start, n := HeaderOf(|p|) + MaskLength(key), |p| % 0x1_0000_0000;
            && Decoded(s, len) == Frame(TypeOf(TypeByte(t)), start, n, start + n) && start + n <= |s|
            && After(s, len) == if key.Some? then Masked(s, start, n) else s
  {
    FrameParts(t, p, key);
    FrameHeader(s, t, p, key);
    DecodedIs(s, len, HeaderOf(|p|), |p| % 0x1_0000_0000);
  }

  // The memory t is as s, but with p from `at` on.
  ghost predicate Placed(s: seq<byte>, t: seq<byte>, at: nat, p: seq<byte>)
  {
    && |t| == |s| >= at + |p| && t[at..at + |p|] == p
    && t[..at] == s[..at] && t[at + |p|..] == s[at + |p|..]
  }

  lemma PlainPayload(s: seq<byte>, f: seq<byte>, h: nat, p: seq<byte>)
    requires |f| == h + |p| && Agree(s, f, |f|) && f[h..] == p
    ensures Placed(s, s, h, p)
  {
    assert s[h..h + |p|] == f[h..];
  }

  lemma MaskedPayload(s: seq<byte>, f: seq<byte>, h: nat, p: seq<byte>, k: seq<byte>)
    requires |k| == 4 && |f| == h + 4 + |p| && Agree(s, f, |f|) && f[h..h + 4] == k && f[h + 4..] == MaskedText(p, k)
    ensures Placed(s, Masked(s, h + 4, |p|), h + 4, p)
  {
    assert s[h..h + 4] == f[h..h + 4];
    assert s[h + 4..h + 4 + |p|] == f[h + 4..];
    Unmasked(s, p, h, k);
  }

  /** The payload is then in its place, unmasked, and nothing else in the memory has changed. */
  lemma PayloadBack(s: seq<byte>, len: nat, t: FrameType, p: seq<byte>, key: Option<seq<byte>>)
    requires key.Some? ==> |key.value| == 4
    requires 3 <= len <= |s| && |FrameOf(t, p, key)| <= len + MaskLength(key) && |p| < 0x1_0000_0000
    requires Agree(s, FrameOf(t, p, key), |FrameOf(t, p, key)|)
    ensures Readable(s, len) && Placed(s, After(s, len), HeaderOf(|p|) + MaskLength(key), p)
  {
    FrameRead(s, len, t, p, key);
    FrameParts(t, p, key);
    Small32(|p|);
    match key
    case None => PlainPayload(s, FrameOf(t, p, key), HeaderOf(|p|), p);
    case Some(k) => MaskedPayload(s, FrameOf(t, p, key), HeaderOf(|p|), p, k);
  }

  lemma Small32(n: nat)
    requires n < 0x1_0000_0000
    ensures n % 0x1_0000_0000 == n
  {
  }

  lemma XorTwice(a: byte, b: byte)
    ensures Xor(Xor(a, b), b) == a
  {
  }

  lemma Unmasked(s: seq<byte>, p: seq<byte>, h: nat, k: seq<byte>)
    requires |k| == 4 && h + 4 + |p| <= |s| && s[h..h + 4] == k && s[h + 4..h + 4 + |p|] == MaskedText(p, k)
    ensures Masked(s, h + 4, |p|)[h + 4..h + 4 + |p|] == p
  {
    forall i | 0 <= i < |p| ensures Masked(s, h + 4, |p|)[h + 4..h + 4 + |p|][i] == p[i] {
      assert s[h + 4 + i] == MaskedText(p, k)[i] == Xor(p[i], k[i % 4]);
      assert s[h + i % 4] == s[h..h + 4][i % 4] == k[i % 4];
      XorTwice(p[i], k[i % 4]);
    }
  }

  /** Less than that is never taken for a frame, whatever stands in the memory behind it. */
  lemma FrameRefused(s: seq<byte>, len: nat, t: FrameType, p: seq<byte>, key: Option<seq<byte>>)
    requires key.Some? ==> |key.value| == 4
    requires |p| < 0x1_0000_0000 && len + MaskLength(key) < |FrameOf(t, p, key)|
    requires Agree(s, FrameOf(t, p, key), len) && Readable(s, len)
    ensures Decoded(s, len) == More
  {
    if len >= 3 {
      FrameParts(t, p, key);
      if HeaderOf(|p|) <= len {
        FrameHeader(s, t, p, key);
        Small32(|p|);
        Small(|p| + HeaderOf(|p|));
      } else {
        StartedHeader(s, FrameOf(t, p, key), |p|, key.Some?);
        ShortHeader(s, len);
      }
    }
  }

  lemma StartedHeader(s: seq<byte>, f: seq<byte>, n: nat, masked: bool)
    requires Agree(s, f, 3) && f[1] == SecondByte(n, masked) && 3 < HeaderOf(n) <= |f|
    requires f[2..HeaderOf(n)] == Further(n)
    ensures HeaderLength(s) == HeaderOf(n) && (HeaderLength(s) == 10 ==> s[2] == 0)
  {
    HeaderRead(s, n, masked);
    assert f[2] == f[2..HeaderOf(n)][0];
  }

  lemma ShortHeader(s: seq<byte>, len: nat)
    requires |s| >= 3 && 3 <= len < HeaderLength(s) <= |s| && (HeaderLength(s) == 10 ==> s[2] == 0)
    ensures len < Needed(s)
  {
    ShortPayload(s);
    Small(PayloadLength(s) + HeaderLength(s));
  }

  // Eight bytes of length that start with zero are far from wrapping.
  lemma ShortPayload(s: seq<byte>)
    requires |s| >= 3 && HeaderLength(s) <= |s|
    requires HeaderLength(s) == 10 ==> s[2] == 0
    ensures PayloadLength(s) < 0x100_0000_0000_0000
  {
    if HeaderLength(s) == 10 {
      EightBytes(s);
      assert Value(0) == 0;
    } else if HeaderLength(s) == 4 {
      NumberNext(s, 2, 2);
      NumberNext(s, 2, 3);
    }
  }

  /** So a frame is recognised exactly when all of it is there (but for the four bytes that the count forgets), and at
      least three bytes: an empty one that nothing follows is not. */
  lemma Recognised(s: seq<byte>, len: nat, t: FrameType, p: seq<byte>, key: Option<seq<byte>>)
    requires key.Some? ==> |key.value| == 4
    requires |p| < 0x1_0000_0000 && len <= |s| && Agree(s, FrameOf(t, p, key), |FrameOf(t, p, key)|)
    ensures Readable(s, len) ==> (Decoded(s, len).Frame? <==> len >= 3 && len + MaskLength(key) >= |FrameOf(t, p, key)|)
  {
    if Readable(s, len) && len + MaskLength(key) < |FrameOf(t, p, key)| {
      FrameRefused(s, len, t, p, key);
    } else if Readable(s, len) && len >= 3 {
      FrameRead(s, len, t, p, key);
    }
  }

  // The payload of a frame lies in the bytes received.
  ghost predicate Inside(s: seq<byte>, len: nat)
    requires Readable(s, len) && Decoded(s, len).Frame?
  {
    Decoded(s, len).start + Decoded(s, len).length <= len
  }

  /** Where the payload of a frame that decode returns lies in the bytes received: exactly when its length and header do
      not wrap at 2^64, and the bytes of a mask are not missing. Only then, too, is the cost the end of the payload. */
  lemma FrameInside(s: seq<byte>, len: nat)
    requires len < MOD64 && Readable(s, len) && Decoded(s, len).Frame?
    ensures Inside(s, len) <==> PayloadLength(s) + HeaderLength(s) < MOD64 &&
                                (MaskBit(s) ==> HeaderLength(s) + 4 + PayloadLength(s) <= len)
    ensures Inside(s, len) ==> Decoded(s, len).cost == Start(s) + PayloadLength(s) > 0
  {
    if PayloadLength(s) + HeaderLength(s) < MOD64 { Small(PayloadLength(s) + HeaderLength(s)); }
    if Inside(s, len) { Small(Start(s) + PayloadLength(s)); }
  }

  /** A length of 2^64 - 10 makes a frame of any ten bytes, which costs nothing. */
  lemma WrappedFrame(s: seq<byte>, len: nat)
    requires 10 <= len <= |s| && s[1] == 127 && Number(s[2..10]) == MOD64 - 10
    ensures Readable(s, len) && Decoded(s, len) == Frame(TypeOf(s[0]), 10, MOD64 - 10, 0)
  {
    Bits(127);
    ByteBack(127);
  }

  /* ---- Streams ---- */

  datatype Message = Message(kind: FrameType, payload: seq<byte>)

  // What one call of decode takes from the len bytes that there are in s, and what it leaves.
  datatype Taken = Nothing | One(message: Message, rest: seq<byte>, left: nat)

  function Take(s: seq<byte>, len: nat): Taken
  {
    if !Readable(s, len) then Nothing
    else match Decoded(s, len)
      case More => Nothing
      case Frame(kind, start, length, cost) =>
        // a frame whose payload is not all in the memory, or that costs nothing, ends the reading
        var after := After(s, len);
        if start + length > |after| || cost == 0 || cost > len then Nothing
        else One(Message(kind, after[start..start + length]), after[cost..], len - cost)
  }

  // What a receiver reads that does so again and again.
  function Received(take: (seq<byte>, nat) -> Taken, s: seq<byte>, len: nat): seq<Message>
    decreases len
  {
    match take(s, len)
    case Nothing => []
    case One(message, rest, left) => if left >= len then [] else [message] + Received(take, rest, left)
  }

  function Sent(messages: seq<Message>): seq<byte>
  {
    if messages == [] then []
    else FrameOf(messages[0].kind, messages[0].payload, None) + Sent(messages[1..])
  }

  ghost predicate Sendable(m: Message)
  {
    m.kind !in {Error, Incomplete, Opening, Closing} && |m.payload| < 0x1_0000_0000
  }

  lemma TakeOne(m: Message, rest: seq<byte>, left: nat)
    requires Sendable(m) && left <= |rest| && |FrameOf(m.kind, m.payload, None)| + left >= 3
    ensures var f := FrameOf(m.kind, m.payload, None); Take(f + rest, |f| + left) == One(m, rest, left)
  {
    var f, h := FrameOf(m.kind, m.payload, None), HeaderOf(|m.payload|);
    FrameParts(m.kind, m.payload, None);
    FrameRead(f + rest, |f| + left, m.kind, m.payload, None);
    PlainPayload(f + rest, f, h, m.payload);
    Small32(|m.payload|);
    TypeBack(m.kind);
    Ends(f, rest);
    TakenIs(f + rest, |f| + left, m, h, |f|);
  }

  lemma TakenIs(s: seq<byte>, len: nat, m: Message, start: nat, cost: nat)
    requires Readable(s, len) && Decoded(s, len) == Frame(m.kind, start, |m.payload|, cost) && After(s, len) == s
    requires 0 < cost <= len && start + |m.payload| <= |s| && s[start..start + |m.payload|] == m.payload
    ensures Take(s, len) == One(m, s[cost..], len - cost)
  {
  }

  lemma TakeNothing(s: seq<byte>, len: nat)
    requires len < 3
    ensures Take(s, len) == Nothing
  {
  }

  lemma TakeStarted(last: Message, tail: seq<byte>, k: nat)
    requires Sendable(last)
    requires k < |FrameOf(last.kind, last.payload, None)| && Agree(tail, FrameOf(last.kind, last.payload, None), k)
    ensures Take(tail, k) == Nothing
  {
    if Readable(tail, k) { FrameRefused(tail, k, last.kind, last.payload, None); }
  }

  // take reads whole frames of at least three bytes; a value, so that what follows need not look into decode.
  ghost predicate Reads(take: (seq<byte>, nat) -> Taken)
  {
    && (forall s: seq<byte>, len: nat :: ReadsNothing(take, s, len))
    && (forall m: Message, rest: seq<byte>, left: nat :: ReadsOne(take, m, rest, left))
  }

  ghost predicate ReadsNothing(take: (seq<byte>, nat) -> Taken, s: seq<byte>, len: nat)
  {
    len < 3 ==> take(s, len) == Nothing
  }

  ghost predicate ReadsOne(take: (seq<byte>, nat) -> Taken, m: Message, rest: seq<byte>, left: nat)
  {
    Sendable(m) && left <= |rest| && |FrameOf(m.kind, m.payload, None)| + left >= 3 ==>
      take(FrameOf(m.kind, m.payload, None) + rest, |FrameOf(m.kind, m.payload, None)| + left) == One(m, rest, left)
  }

  lemma TakeReads()
    ensures Reads(Take)
  {
    forall s: seq<byte>, len: nat ensures ReadsNothing(Take, s, len) {
      if len < 3 { TakeNothing(s, len); }
    }
    forall m: Message, rest: seq<byte>, left: nat ensures ReadsOne(Take, m, rest, left) {
      if Sendable(m) && left <= |rest| && |FrameOf(m.kind, m.payload, None)| + left >= 3 { TakeOne(m, rest, left); }
    }
  }

  lemma SentLength(messages: seq<Message>)
    ensures messages != [] ==> |Sent(messages)| >= 2
  {
    if messages != [] { FrameParts(messages[0].kind, messages[0].payload, None); }
  }

  // All messages but an empty one at the very end.
  function Seen(messages: seq<Message>, k: nat): seq<Message>
  {
    if messages == [] || k > 0 || messages[|messages| - 1].payload != [] then messages else messages[..|messages| - 1]
  }

  lemma SeenMore(m: Message, more: seq<Message>, k: nat)
    ensures more != [] || k > 0 || m.payload != [] ==> Seen([m] + more, k) == [m] + Seen(more, k)
    ensures more == [] && k == 0 && m.payload == [] ==> Seen([m] + more, k) == []
  {
  }

  lemma SentInFront(messages: seq<Message>, tail: seq<byte>)
    requires messages != []
    ensures var f := FrameOf(messages[0].kind, messages[0].payload, None);
            && Sent(messages) + tail == f + (Sent(messages[1..]) + tail)
            && |Sent(messages)| == |f| + |Sent(messages[1..])|
  {
    Associates(FrameOf(messages[0].kind, messages[0].payload, None), Sent(messages[1..]), tail);
  }

  lemma Associates(a: seq<byte>, b: seq<byte>, c: seq<byte>)
    ensures a + b + c == a + (b + c)
  {
  }

  lemma AllSeen(messages: seq<Message>, k: nat)
    requires messages != []
    ensures var left := |Sent(messages[1..])| + k;
            Seen(messages, k) == if left == 0 && messages[0].payload == [] then []
                                 else [messages[0]] + Seen(messages[1..], k)
  {
    SentLength(messages[1..]);
    SeenMore(messages[0], messages[1..], k);
    assert messages == [messages[0]] + messages[1..];
  }

  // One message in front of what is received as r.
  lemma OneMore(take: (seq<byte>, nat) -> Taken, m: Message, s: seq<byte>, len: nat, f: seq<byte>, rest: seq<byte>,
                left: nat, r: seq<Message>, all: seq<Message>)
    requires Reads(take) && Sendable(m) && f == FrameOf(m.kind, m.payload, None) && left <= |rest|
    requires s == f + rest && len == |f| + left && Received(take, rest, left) == r
    requires all == if left == 0 && m.payload == [] then [] else [m] + r
    ensures Received(take, s, len) == all
  {
    FrameParts(m.kind, m.payload, None);
    assert ReadsNothing(take, f + rest, |f| + left) && ReadsOne(take, m, rest, left);
  }

  lemma {:induction false} ReceivedFrom(take: (seq<byte>, nat) -> Taken, messages: seq<Message>, tail: seq<byte>,
                                       k: nat, s: seq<byte>, len: nat)
    requires Reads(take) && take(tail, k) == Nothing && k <= |tail|
    requires forall i :: 0 <= i < |messages| ==> Sendable(messages[i])
    requires s == Sent(messages) + tail && len == |Sent(messages)| + k
    ensures Received(take, s, len) == Seen(messages, k)
    decreases |messages|
  {
    if messages == [] {
      assert s == tail;
    } else {
      var m, more := messages[0], messages[1..];
      var f, rest, left := FrameOf(m.kind, m.payload, None), Sent(more) + tail, |Sent(more)| + k;
      ReceivedFrom(take, more, tail, k, rest, left);
      SentInFront(messages, tail);
      AllSeen(messages, k);
      OneMore(take, m, s, len, f, rest, left, Seen(more, k), Seen(messages, k));
    }
  }

  /** A sent list of messages, with the start of a further frame behind it, is received as it was sent. Only an empty
      message at the very end is not seen before more follows. */
  lemma ReceivedIsSent(messages: seq<Message>, last: Message, tail: seq<byte>, k: nat)
    requires Sendable(last) && forall i :: 0 <= i < |messages| ==> Sendable(messages[i])
    requires k < |FrameOf(last.kind, last.payload, None)| && Agree(tail, FrameOf(last.kind, last.payload, None), k)
    ensures Received(Take, Sent(messages) + tail, |Sent(messages)| + k) == Seen(messages, k)
  {
    TakeReads();
    TakeStarted(last, tail, k);
    ReceivedFrom(Take, messages, tail, k, Sent(messages) + tail, |Sent(messages)| + k);
  }
}
