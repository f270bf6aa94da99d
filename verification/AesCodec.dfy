/** The two ciphers on blocks of memory, and the codec that pads a text to whole blocks and notes the padding in a
    last byte. */
module AesCodec {
  import opened Bytes
  import opened Gf256
  import opened AesState
  import opened Aes
  import opened AesCipher

  /* ---- One block ---- */

  method LoadState(input: array<byte>, at: nat) returns (state: array<byte>)
    requires at + 16 <= input.Length
    ensures fresh(state) && state.Length == 16 && state[..] == Transposed(input[at..at + 16])
  {
    state := new byte[16](_ => 0);
    var i := 0;
    while i < 4
      invariant 0 <= i <= 4
      invariant forall k :: 0 <= k < 4 * i ==> state[k] == input[at + k / 4 + 4 * (k % 4)]
    {
      var j := 0;
      while j < 4
        invariant 0 <= j <= 4
        invariant forall k :: 0 <= k < 4 * i + j ==> state[k] == input[at + k / 4 + 4 * (k % 4)]
      {
        state[4 * i + j] := input[at + i + 4 * j];
        j := j + 1;
      }
      i := i + 1;
    }
  }

  method StoreState(state: array<byte>, output: array<byte>, at: nat)
    requires state.Length == 16 && at + 16 <= output.Length && state != output
    modifies output
    ensures output[..] == Patched(old(output[..]), at, Transposed(state[..]))
  {
    var i := 0;
    while i < 4
      invariant 0 <= i <= 4
      invariant forall k :: 0 <= k < output.Length ==>
                  output[k] == if at <= k < at + 16 && (k - at) % 4 < i then Transposed(state[..])[k - at]
                               else old(output[k])
    {
      var j := 0;
      while j < 4
        invariant 0 <= j <= 4
        invariant forall k :: 0 <= k < output.Length ==>
                    output[k] == if at <= k < at + 16 && ((k - at) % 4 < i || ((k - at) % 4 == i && (k - at) / 4 < j))
                                 then Transposed(state[..])[k - at] else old(output[k])
      {
        output[at + i + 4 * j] := state[4 * i + j];
        j := j + 1;
      }
      i := i + 1;
    }
  }

  method CipherRound(state: array<byte>, w: array<byte>, r: nat)
    requires state.Length == 16 && state != w && 16 * r + 16 <= w.Length
    modifies state
    ensures state[..] == Round(old(state[..]), w[..], r)
  {
    SubBytesOf(state);
    ShiftRowsOf(state);
    MixColumnsOf(state);
    AddRoundKeyTo(state, w, r);
  }

  method LastRound(state: array<byte>, w: array<byte>, r: nat)
    requires state.Length == 16 && state != w && 16 * r + 16 <= w.Length
    modifies state
    ensures state[..] == FinalRound(old(state[..]), w[..], r)
  {
    SubBytesOf(state);
    ShiftRowsOf(state);
    AddRoundKeyTo(state, w, r);
  }

  // The states of the cipher by rounds: a value, for the loop need not look into the rounds.
  ghost predicate Follow(states: nat -> State, f: (State, nat) -> State, nr: nat)
  {
    forall r: nat :: FollowAt(states, f, nr, r)
  }

  ghost predicate FollowAt(states: nat -> State, f: (State, nat) -> State, nr: nat, r: nat)
  {
    r < nr ==> states(r + 1) == f(states(r), r + 1)
  }

  ghost function RoundWith(w: seq<byte>): (State, nat) -> State
  {
    (s: State, r: nat) => if 16 * r + 16 <= |w| then Round(s, w, r) else s
  }

  ghost function RoundStates(s: State, w: seq<byte>): nat -> State
  {
    (r: nat) => if 16 * r + 16 <= |w| then Rounds(s, w, r) else s
  }

  lemma RoundFollows(s: State, w: seq<byte>, nr: nat, r: nat)
    requires nr > 0 && 16 * nr + 16 <= |w|
    ensures FollowAt(RoundStates(s, w), RoundWith(w), nr, r)
  {
    if r < nr { assert Rounds(s, w, r + 1) == Round(Rounds(s, w, r), w, r + 1); }
  }

  lemma RoundsFollow(s: State, w: seq<byte>, nr: nat)
    requires nr > 0 && 16 * nr + 16 <= |w|
    ensures Follow(RoundStates(s, w), RoundWith(w), nr)
  {
    forall r: nat ensures FollowAt(RoundStates(s, w), RoundWith(w), nr, r) { RoundFollows(s, w, nr, r); }
  }

  lemma StatesAre(s: State, w: seq<byte>, r: nat)
    requires 16 * r + 16 <= |w|
    ensures RoundStates(s, w)(r) == Rounds(s, w, r)
  {
  }

  lemma InnerIs(s: State, w: seq<byte>, nr: nat, t: State)
    requires nr > 0 && 16 * nr + 16 <= |w| && t == Rounds(s, w, nr - 1)
    ensures FinalRound(t, w, nr) == Inner(s, w, nr)
  {
  }

  // The full rounds.
  method CipherRounds(state: array<byte>, w: array<byte>, nr: nat, ghost states: nat -> State)
    requires state.Length == 16 && state != w && nr > 0 && 16 * nr + 16 <= w.Length
    requires Follow(states, RoundWith(w[..]), nr) && state[..] == states(0)
    modifies state
    ensures state[..] == states(nr - 1)
  {
    ghost var keys := w[..];
    var r := 1;
    while r < nr
      invariant 1 <= r <= nr && w[..] == keys && state[..] == states(r - 1)
    {
      CipherRound(state, w, r);
      assert FollowAt(states, RoundWith(keys), nr, r - 1);
      r := r + 1;
    }
  }

  method CipherState(state: array<byte>, w: array<byte>, nr: nat)
    requires state.Length == 16 && state != w && nr > 0 && 16 * nr + 16 <= w.Length
    modifies state
    ensures state[..] == Inner(old(state[..]), w[..], nr)
  {
    ghost var s, states := state[..], RoundStates(state[..], w[..]);
    RoundsFollow(s, w[..], nr);
    StatesAre(s, w[..], 0);
    StatesAre(s, w[..], nr - 1);
    AddRoundKeyTo(state, w, 0);
    CipherRounds(state, w, nr, states);
    InnerIs(s, w[..], nr, state[..]);
    LastRound(state, w, nr);
  }

  /** aes_cipher, from memory to memory. */
  method CipherBlock(input: array<byte>, from: nat, output: array<byte>, dest: nat, w: array<byte>, nr: nat)
    requires from + 16 <= input.Length && dest + 16 <= output.Length && nr > 0 && 16 * nr + 16 <= w.Length
    modifies output
    ensures output[..] == Patched(old(output[..]), dest, old(Cipher(input[from..from + 16], w[..], nr)))
  {
    var state := LoadState(input, from);
    CipherState(state, w, nr);
    StoreState(state, output, dest);
  }

  method InvCipherRound(state: array<byte>, w: array<byte>, r: nat)
    requires state.Length == 16 && state != w && 16 * r + 16 <= w.Length
    modifies state
    ensures state[..] == InvRound(old(state[..]), w[..], r)
  {
    InvShiftRowsOf(state);
    InvSubBytesOf(state);
    AddRoundKeyTo(state, w, r);
    InvMixColumnsOf(state);
  }

  method InvLastRound(state: array<byte>, w: array<byte>)
    requires state.Length == 16 && state != w && 16 <= w.Length
    modifies state
    ensures state[..] == InvFinalRound(old(state[..]), w[..])
  {
    InvShiftRowsOf(state);
    InvSubBytesOf(state);
    AddRoundKeyTo(state, w, 0);
  }

  lemma InvRoundsStep(s: State, w: seq<byte>, r: nat)
    requires 0 < r && 16 * r + 16 <= |w|
    ensures InvRounds(s, w, r) == InvRounds(InvRound(s, w, r), w, r - 1)
  {
  }

  method InvCipherRounds(state: array<byte>, w: array<byte>, nr: nat)
    requires state.Length == 16 && state != w && nr > 0 && 16 * nr + 16 <= w.Length
    modifies state
    ensures state[..] == InvRounds(old(state[..]), w[..], nr - 1)
  {
    ghost var s, keys := state[..], w[..];
    var r := nr - 1;
    while r >= 1
      invariant 0 <= r <= nr - 1 && w[..] == keys && InvRounds(state[..], keys, r) == InvRounds(s, keys, nr - 1)
    {
      InvRoundsStep(state[..], keys, r);
      InvCipherRound(state, w, r);
      r := r - 1;
    }
  }

  method InvCipherState(state: array<byte>, w: array<byte>, nr: nat)
    requires state.Length == 16 && state != w && nr > 0 && 16 * nr + 16 <= w.Length
    modifies state
    ensures state[..] == InvInner(old(state[..]), w[..], nr)
  {
    AddRoundKeyTo(state, w, nr);
    InvCipherRounds(state, w, nr);
    InvLastRound(state, w);
  }

  /** aes_inv_cipher, from memory to memory. */
  method InvCipherBlock(input: array<byte>, from: nat, output: array<byte>, dest: nat, w: array<byte>, nr: nat)
    requires from + 16 <= input.Length && dest + 16 <= output.Length && nr > 0 && 16 * nr + 16 <= w.Length
    modifies output
    ensures output[..] == Patched(old(output[..]), dest, old(InvCipher(input[from..from + 16], w[..], nr)))
  {
    var state := LoadState(input, from);
    InvCipherState(state, w, nr);
    StoreState(state, output, dest);
  }

  /* ---- Whole texts ---- */

  // Block by block, for two functions that need not be looked into.
  function EachBlock(f: State -> State, text: seq<byte>): (r: seq<byte>)
    requires |text| % 16 == 0
    ensures |r| == |text|
  {
    if text == [] then [] else EachBlock(f, text[..|text| - 16]) + f(text[|text| - 16..])
  }

  lemma {:induction false} EachBlockBack(f: State -> State, g: State -> State, text: seq<byte>)
    requires |text| % 16 == 0 && forall s: State :: g(f(s)) == s
    ensures EachBlock(g, EachBlock(f, text)) == text
  {
    if text != [] {
      var n := |text| - 16;
      EachBlockBack(f, g, text[..n]);
      LastBlock(g, EachBlock(f, text), EachBlock(f, text[..n]), f(text[n..]));
    }
  }

  lemma LastBlock(g: State -> State, p: seq<byte>, front: seq<byte>, last: State)
    requires |front| % 16 == 0 && p == front + last
    ensures EachBlock(g, p) == EachBlock(g, front) + g(last)
  {
    Ends(front, last);
  }

  function CipherWith(w: seq<byte>, nr: nat): State -> State
    requires nr > 0 && 16 * nr + 16 <= |w|
  {
    s => Cipher(s, w, nr)
  }

  function InvCipherWith(w: seq<byte>, nr: nat): State -> State
    requires nr > 0 && 16 * nr + 16 <= |w|
  {
    s => InvCipher(s, w, nr)
  }

  // A text of whole blocks, enciphered block by block.
  function CipherAll(text: seq<byte>, w: seq<byte>, nr: nat): (r: seq<byte>)
    requires nr > 0 && 16 * nr + 16 <= |w| && |text| % 16 == 0
    ensures |r| == |text|
  {
    EachBlock(CipherWith(w, nr), text)
  }

  function InvCipherAll(text: seq<byte>, w: seq<byte>, nr: nat): (r: seq<byte>)
    requires nr > 0 && 16 * nr + 16 <= |w| && |text| % 16 == 0
    ensures |r| == |text|
  {
    EachBlock(InvCipherWith(w, nr), text)
  }

  lemma CipherAllInverse(text: seq<byte>, w: seq<byte>, nr: nat)
    requires nr > 0 && 16 * nr + 16 <= |w| && |text| % 16 == 0
    ensures InvCipherAll(CipherAll(text, w, nr), w, nr) == text
  {
    forall s: State ensures InvCipherWith(w, nr)(CipherWith(w, nr)(s)) == s { CipherInverse(s, w, nr); }
    EachBlockBack(CipherWith(w, nr), InvCipherWith(w, nr), text);
  }

  // How many zeros complete the last block.
  function Padding(n: nat): (pad: nat)
    ensures pad < 16 && (n + pad) % 16 == 0
  {
    if n % 16 == 0 then 0 else 16 - n % 16
  }

  function Encoded(data: seq<byte>, w: seq<byte>, nr: nat): seq<byte>
    requires nr > 0 && 16 * nr + 16 <= |w|
  {
    if data == [] then []
    else
      var pad := Padding(|data|);
      CipherAll(Resized(data, |data| + pad), w, nr) + [pad as byte]
  }

  // Whole blocks and a last byte that, as a signed character, is from 0 to 15.
  predicate Acceptable(data: seq<byte>)
  {
    |data| >= 17 && |data| % 16 == 1 && data[|data| - 1] < 16
  }

  function Decoded(data: seq<byte>, w: seq<byte>, nr: nat): seq<byte>
    requires nr > 0 && 16 * nr + 16 <= |w|
  {
    if !Acceptable(data) then []
    else
      var n := |data| - 1;
      InvCipherAll(data[..n], w, nr)[..n - data[n] as nat]
  }

  lemma EncodedParts(data: seq<byte>, w: seq<byte>, nr: nat)
    requires nr > 0 && 16 * nr + 16 <= |w| && data != []
    ensures var e, pad := Encoded(data, w, nr), Padding(|data|);
            && |e| == |data| + pad + 1 && e[|e| - 1] == pad as byte
            && e[..|e| - 1] == CipherAll(Resized(data, |data| + pad), w, nr)
  {
    Ends(CipherAll(Resized(data, |data| + Padding(|data|)), w, nr), [Padding(|data|) as byte]);
  }

  lemma ResizedFront(data: seq<byte>, n: nat)
    requires n >= |data|
    ensures Resized(data, n)[..|data|] == data
  {
  }

  lemma PaddedAcceptable(n: nat, pad: nat)
    requires n > 0 && pad < 16 && (n + pad) % 16 == 0
    ensures n + pad + 1 >= 17 && (n + pad + 1) % 16 == 1
  {
  }

  /** decode undoes encode, for every text and any round keys; what it is given is never refused. */
  lemma DecodeEncode(data: seq<byte>, w: seq<byte>, nr: nat)
    requires nr > 0 && 16 * nr + 16 <= |w|
    ensures Decoded(Encoded(data, w, nr), w, nr) == data
    ensures data != [] ==> Acceptable(Encoded(data, w, nr))
  {
    if data != [] {
      var pad := Padding(|data|);
      EncodedParts(data, w, nr);
      PaddedAcceptable(|data|, pad);
      ByteBack(pad);
      CipherAllInverse(Resized(data, |data| + pad), w, nr);
      ResizedFront(data, |data| + pad);
    }
  }

  /* ---- The codec ---- */

  lemma NextBlock(f: State -> State, text: seq<byte>, i: nat)
    requires i % 16 == 0 && i + 16 <= |text|
    ensures EachBlock(f, text[..i + 16]) == EachBlock(f, text[..i]) + f(text[i..i + 16])
  {
    assert text[..i + 16][..i] == text[..i] && text[..i + 16][i..] == text[i..i + 16];
  }

  lemma PatchedFront(s: seq<byte>, at: nat, t: seq<byte>)
    requires at + |t| <= |s|
    ensures |Patched(s, at, t)| == |s| && Patched(s, at, t)[..at + |t|] == s[..at] + t
  {
  }

  // o is what f makes of the blocks of the text before i; behind a quantifier, for code that only carries it along.
  ghost predicate BlocksDone(f: State -> State, text: seq<byte>, i: nat, o: seq<byte>)
  {
    forall n: nat :: BlocksDoneAt(f, text, i, o, n)
  }

  ghost predicate BlocksDoneAt(f: State -> State, text: seq<byte>, i: nat, o: seq<byte>, n: nat)
  {
    n == i ==> n % 16 == 0 && n <= |text| && o == EachBlock(f, text[..n])
  }

  lemma NoBlocksDone(f: State -> State, text: seq<byte>)
    ensures BlocksDone(f, text, 0, [])
  {
  }

  lemma BlockDone(f: State -> State, text: seq<byte>, i: nat, o: seq<byte>)
    requires i % 16 == 0 && i + 16 <= |text| && BlocksDone(f, text, i, o)
    ensures BlocksDone(f, text, i + 16, o + f(text[i..i + 16]))
  {
    AllBlocksDone(f, text, i, o);
    NextBlock(f, text, i);
    DoneIs(f, text, i + 16, o + f(text[i..i + 16]));
  }

  lemma DoneIs(f: State -> State, text: seq<byte>, i: nat, o: seq<byte>)
    requires i % 16 == 0 && i <= |text| && o == EachBlock(f, text[..i])
    ensures BlocksDone(f, text, i, o)
  {
  }

  lemma AllBlocksDone(f: State -> State, text: seq<byte>, i: nat, o: seq<byte>)
    requires BlocksDone(f, text, i, o)
    ensures i % 16 == 0 && i <= |text| && o == EachBlock(f, text[..i])
  {
    assert BlocksDoneAt(f, text, i, o, i);
  }

  // The block at i, behind those done already.
  method CipherNext(input: array<byte>, output: array<byte>, w: array<byte>, nr: nat, i: nat, ghost text: seq<byte>)
    requires nr > 0 && 16 * nr + 16 <= w.Length && output != input && output != w && input[..] == text
    requires i % 16 == 0 && i + 16 <= |text| && i + 16 <= output.Length
    requires BlocksDone(CipherWith(w[..], nr), text, i, output[..i])
    modifies output
    ensures BlocksDone(CipherWith(w[..], nr), text, i + 16, output[..i + 16])
  {
    ghost var before := output[..];
    assert before[..i] == output[..i] && input[i..i + 16] == text[i..i + 16];
    BlockDone(CipherWith(w[..], nr), text, i, before[..i]);
    PatchedFront(before, i, Cipher(text[i..i + 16], w[..], nr));
    CipherBlock(input, i, output, i, w, nr);
    assert output[..i + 16] == output[..][..i + 16];
  }

  method InvCipherNext(input: array<byte>, output: array<byte>, w: array<byte>, nr: nat, i: nat, ghost text: seq<byte>)
    requires nr > 0 && 16 * nr + 16 <= w.Length && output != input && output != w && input[..] == text
    requires i % 16 == 0 && i + 16 <= |text| && i + 16 <= output.Length
    requires BlocksDone(InvCipherWith(w[..], nr), text, i, output[..i])
    modifies output
    ensures BlocksDone(InvCipherWith(w[..], nr), text, i + 16, output[..i + 16])
  {
    ghost var before := output[..];
    assert before[..i] == output[..i] && input[i..i + 16] == text[i..i + 16];
    BlockDone(InvCipherWith(w[..], nr), text, i, before[..i]);
    PatchedFront(before, i, InvCipher(text[i..i + 16], w[..], nr));
    InvCipherBlock(input, i, output, i, w, nr);
    assert output[..i + 16] == output[..][..i + 16];
  }

  // The last byte is compared as a signed character.
  method Refuses(data: seq<byte>) returns (refused: bool)
    ensures refused == !Acceptable(data)
  {
    refused := |data| < 17 || |data| % 16 != 1 || data[|data| - 1] >= 128 || data[|data| - 1] > 15;
  }

  class AesCodec {
    const impl: AesImpl

    constructor (mode: Mode, key: seq<byte>)
      ensures impl.Keyed(mode, key)
    {
      impl := new AesImpl(mode, key);
    }

    // The padded text, enciphered block by block.
    method EncipherAll(text: seq<byte>) returns (output: array<byte>)
      requires impl.Valid() && |text| % 16 == 0
      ensures fresh(output) && output[..] == CipherAll(text, impl.keyBuf[..], impl.nr)
    {
      output := new byte[|text|](_ => 0);
      var input := new byte[|text|](k requires 0 <= k < |text| => text[k]);
      ghost var w := impl.keyBuf[..];
      ghost var f := CipherWith(w, impl.nr);
      assert input[..] == text && output[..0] == [];
      NoBlocksDone(f, text);
      var i := 0;
      while i < input.Length
        invariant i % 16 == 0 && i <= |text| && input[..] == text && impl.keyBuf[..] == w
        invariant BlocksDone(f, text, i, output[..i])
      {
        CipherNext(input, output, impl.keyBuf, impl.nr, i, text);
        i := i + 16;
      }
      AllBlocksDone(f, text, i, output[..i]);
      assert text[..i] == text && output[..i] == output[..];
    }

    /** encode: whole blocks enciphered in turn, then the number of zeros added. */
    method Encode(data: seq<byte>) returns (ret: seq<byte>)
      requires impl.Valid()
      ensures ret == Encoded(data, impl.keyBuf[..], impl.nr)
    {
      if data == [] {
        return [];
      }
      var pad := Missing(|data|);
      var output := EncipherAll(Resized(data, |data| + pad));
      ret := output[..] + [pad as byte];
    }

    method Missing(n: nat) returns (pad: nat)
      ensures pad == Padding(n)
    {
      pad := n % 16;
      if pad > 0 {
        pad := 16 - pad;
      }
    }

    // The text but for its last byte, deciphered block by block.
    method DecipherFront(data: seq<byte>) returns (output: array<byte>)
      requires impl.Valid() && |data| >= 17 && |data| % 16 == 1
      ensures fresh(output) && output[..] == InvCipherAll(data[..|data| - 1], impl.keyBuf[..], impl.nr)
    {
      ghost var n := |data| - 1;
      output := new byte[|data| - 1](_ => 0);
      var input := new byte[|data|](k requires 0 <= k < |data| => data[k]);
      ghost var w := impl.keyBuf[..];
      ghost var f := InvCipherWith(w, impl.nr);
      assert input[..] == data && output[..0] == [] && n % 16 == 0;
      NoBlocksDone(f, data);
      var i := 0;
      while i < |data| - 1
        invariant i % 16 == 0 && i <= n == output.Length && input[..] == data && impl.keyBuf[..] == w
        invariant BlocksDone(f, data, i, output[..i])
      {
        InvCipherNext(input, output, impl.keyBuf, impl.nr, i, data);
        i := i + 16;
      }
      AllBlocksDone(f, data, n, output[..n]);
      assert output[..n] == output[..];
    }

    /** decode: nothing for a text that encode cannot have made by its length and last byte. */
    method Decode(data: seq<byte>) returns (ret: seq<byte>)
      requires impl.Valid()
      ensures ret == Decoded(data, impl.keyBuf[..], impl.nr)
    {
      var refused := Refuses(data);
      if refused {
        return [];
      }
      var pad := data[|data| - 1] as nat;
      var output := DecipherFront(data);
      ret := output[..];
      ret := ret[..|ret| - pad];
    }
  }
}
