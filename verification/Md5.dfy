/**
 * MD5 (RFC 1321) over a message that arrives in pieces.
 *
 * The block transform is a parameter: what is proved is that buffering, the two-word bit count
 * and the padding feed it exactly the blocks that sections 3.1 to 3.4 of the RFC prescribe.
 */
module Md5 {
  import opened Common

  const WORD := 0x1_0000_0000

  type UINT4 = x: int | 0 <= x < WORD

  datatype State = State(a: UINT4, b: UINT4, c: UINT4, d: UINT4)

  type Transform = (State, seq<Byte>) -> State

  const INIT := State(0x67452301, 0xefcdab89, 0x98badcfe, 0x10325476)

  // ---------------------------------------------------------------- the definition in the RFC

  // The state after all whole blocks of s.
  function Fold(t: Transform, st: State, s: seq<Byte>): State
    decreases |s|
  {
    if |s| < 64 then st else Fold(t, t(st, s[..64]), s[64..])
  }

  // The low n bytes of a number, low-order byte first.
  function LittleEndian(w: nat, n: nat): (b: seq<Byte>)
    ensures |b| == n
  {
    if n == 0 then [] else [w % 0x100] + LittleEndian(w / 0x100, n - 1)
  }

  function Number(b: seq<Byte>): nat {
    if b == [] then 0 else b[0] as nat + 0x100 * Number(b[1..])
  }

  function Pow256(n: nat): nat {
    if n == 0 then 1 else 0x100 * Pow256(n - 1)
  }

  lemma {:induction false} NumberLittleEndian(w: nat, n: nat)
    requires w < Pow256(n)
    ensures Number(LittleEndian(w, n)) == w
  {
    if n > 0 {
      NumberLittleEndian(w / 0x100, n - 1);
    }
  }

  function Bytes4(w: UINT4): (b: seq<Byte>)
    ensures |b| == 4
  {
    LittleEndian(w, 4)
  }

  function Zeros(n: nat): (z: seq<Byte>)
    ensures |z| == n
  {
    seq(n, _ => 0)
  }

  // Section 3.1: a 1 bit, then 0 bits until the length is 448 modulo 512 bits; at least one bit, at most 512.
  function PaddingFor(n: nat): seq<Byte> {
    [0x80] + Zeros((55 - n) % 64)
  }

  lemma {:induction false} PaddingLength(n: nat)
    ensures 1 <= |PaddingFor(n)| <= 64 && (n + |PaddingFor(n)|) % 64 == 56
    ensures |PaddingFor(n)| == if n % 64 < 56 then 56 - n % 64 else 120 - n % 64
  {
    var r := n % 64;
    assert n == 64 * (n / 64) + r;
    ModShift(55 - r, -(n / 64));
  }

  // Section 3.2: the bit length modulo 2^64 in 64 bits, low-order bytes first.
  function LengthBytes(n: nat): (l: seq<Byte>)
    ensures |l| == 8
  {
    LittleEndian(8 * n % (WORD * WORD), 8)
  }

  function Padded(msg: seq<Byte>): seq<Byte> {
    msg + PaddingFor(|msg|) + LengthBytes(|msg|)
  }

  lemma {:induction false} EightMore(n: nat)
    requires n % 64 == 56
    ensures (n + 8) % 64 == 0
  {
  }

  lemma {:induction false} PaddedWhole(msg: seq<Byte>)
    ensures Whole(|Padded(msg)|) == |Padded(msg)|
  {
    hide PaddingFor;
    PaddingLength(|msg|);
    WholeAndRest(|Padded(msg)|);
    EightMore(|msg| + |PaddingFor(|msg|)|);
  }

  // Section 3.5: the four words, low-order byte first.
  function Output(st: State): (o: seq<Byte>)
    ensures |o| == 16
  {
    Bytes4(st.a) + Bytes4(st.b) + Bytes4(st.c) + Bytes4(st.d)
  }

  function Digest(t: Transform, msg: seq<Byte>): seq<Byte> {
    Output(Fold(t, INIT, Padded(msg)))
  }

  // ---------------------------------------------------------------- the definition, read byte by byte

  lemma {:induction false} LittleEndianUpTo4(w: nat)
    ensures w < 0x1_0000_0000 ==>
              var b := LittleEndian(w, 4);
              b[0] as int + 0x100 * b[1] as int + 0x1_0000 * b[2] as int + 0x100_0000 * b[3] as int == w
  {
    NumberOf4(LittleEndian(w, 4));
    if w < 0x1_0000_0000 {
      PowersOf256();
      NumberLittleEndian(w, 4);
    }
  }

  lemma {:induction false} PowersOf256()
    ensures Pow256(4) == 0x1_0000_0000 && Pow256(8) == 0x1_0000_0000_0000_0000
  {
    assert Pow256(2) == 0x1_0000;
    assert Pow256(4) == 0x1_0000_0000;
    assert Pow256(6) == 0x1_0000_0000_0000;
  }

  lemma {:induction false} NumberOf4(b: seq<Byte>)
    requires |b| >= 4
    ensures Number(b) == b[0] as int + 0x100 * b[1] as int + 0x1_0000 * b[2] as int + 0x100_0000 * b[3] as int
                         + 0x1_0000_0000 * Number(b[4..])
  {
    assert b[1..][1..] == b[2..] && b[2..][1..] == b[3..] && b[3..][1..] == b[4..];
    assert Number(b[2..]) == b[2] as int + 0x100 * (b[3] as int + 0x100 * Number(b[4..]));
  }

  lemma {:induction false} NumberOf8(b: seq<Byte>)
    requires |b| == 8
    ensures Number(b) == b[0] as int + 0x100 * b[1] as int + 0x1_0000 * b[2] as int + 0x100_0000 * b[3] as int
                         + 0x1_0000_0000 * (b[4] as int + 0x100 * b[5] as int + 0x1_0000 * b[6] as int + 0x100_0000 * b[7] as int)
  {
    NumberOf4(b);
    NumberOf4(b[4..]);
    assert b[4..][4..] == [];
  }

  // The message, a byte 0x80, zeros to the next place that is 56 modulo 64, and the bit length in eight bytes.
  lemma {:induction false} PaddedIs(msg: seq<Byte>)
    ensures var p, n := Padded(msg), |msg|;
            && |p| % 64 == 0 && n + 9 <= |p| < n + 73
            && p[..n] == msg && p[n] == 0x80 && (forall k | n < k < |p| - 8 :: p[k] == 0)
            && var b := p[|p| - 8..];
               b[0] as int + 0x100 * b[1] as int + 0x1_0000 * b[2] as int + 0x100_0000 * b[3] as int
               + 0x1_0000_0000 * (b[4] as int + 0x100 * b[5] as int + 0x1_0000 * b[6] as int + 0x100_0000 * b[7] as int)
               == 8 * n % 0x1_0000_0000_0000_0000
  {
    var p, n, l := Padded(msg), |msg|, LengthBytes(|msg|);
    PaddingLength(n);
    EightMore(n + |PaddingFor(n)|);
    assert p[|p| - 8..] == l;
    NumberOf8(l);
    PowersOf256();
    NumberLittleEndian(8 * n % (WORD * WORD), 8);
  }

  lemma {:induction false} OutputIs(st: State)
    ensures var o := Output(st);
            && o[0] as int + 0x100 * o[1] as int + 0x1_0000 * o[2] as int + 0x100_0000 * o[3] as int == st.a
            && o[4] as int + 0x100 * o[5] as int + 0x1_0000 * o[6] as int + 0x100_0000 * o[7] as int == st.b
            && o[8] as int + 0x100 * o[9] as int + 0x1_0000 * o[10] as int + 0x100_0000 * o[11] as int == st.c
            && o[12] as int + 0x100 * o[13] as int + 0x1_0000 * o[14] as int + 0x100_0000 * o[15] as int == st.d
  {
    LittleEndianUpTo4(st.a);
    LittleEndianUpTo4(st.b);
    LittleEndianUpTo4(st.c);
    LittleEndianUpTo4(st.d);
    hide LittleEndian;
  }

  // One block goes through the transform once, and the first from the four words of section 3.3.
  lemma {:induction false} OneBlock(t: Transform, st: State, s: seq<Byte>)
    requires |s| == 64
    ensures Fold(t, st, s) == t(st, s)
  {
    assert s[..64] == s;
  }

  lemma {:induction false} EmptyDigest(t: Transform)
    ensures Digest(t, []) == Output(t(State(0x67452301, 0xefcdab89, 0x98badcfe, 0x10325476), [0x80] + seq(63, _ => 0)))
  {
    PaddedIs([]);
    hide Padded, Output, Fold;
    var p := Padded([]);
    assert |p| == 64;
    OneBlock(t, INIT, p);
    ZeroBytes(p[56..]);
    assert forall k | 56 <= k < 64 :: p[k] == p[56..][k - 56];
    assert p == [0x80] + seq(63, _ => 0);
  }

  lemma {:induction false} ZeroBytes(b: seq<Byte>)
    requires |b| == 8
    requires b[0] as int + 0x100 * b[1] as int + 0x1_0000 * b[2] as int + 0x100_0000 * b[3] as int
             + 0x1_0000_0000 * (b[4] as int + 0x100 * b[5] as int + 0x1_0000 * b[6] as int + 0x100_0000 * b[7] as int) == 0
    ensures forall k | 0 <= k < 8 :: b[k] == 0
  {
  }

  // ---------------------------------------------------------------- folding block by block

  lemma {:induction false} FoldAppend(t: Transform, st: State, s: seq<Byte>, rest: seq<Byte>)
    requires |s| % 64 == 0
    ensures Fold(t, st, s + rest) == Fold(t, Fold(t, st, s), rest)
    decreases |s|
  {
    if s == [] {
      assert s + rest == rest;
    } else {
      assert (s + rest)[..64] == s[..64] && (s + rest)[64..] == s[64..] + rest;
      FoldAppend(t, t(st, s[..64]), s[64..], rest);
    }
  }

  // What is folded in of msg so far, and what waits for the rest of its block.
  function Whole(n: nat): (w: nat)
    ensures w <= n < w + 64 && w % 64 == 0
  {
    n - n % 64
  }

  lemma {:induction false} WholeAndRest(n: nat)
    ensures n == Whole(n) + n % 64
  {
  }

  // ---------------------------------------------------------------- the two-word bit count

  lemma {:induction false} CountLow(n: nat)
    ensures 8 * n % WORD / 8 % 64 == n % 64
  {
    var q := 8 * n / WORD;
    assert 8 * n % WORD == 8 * (n - 0x2000_0000 * q);
    assert 8 * n % WORD / 8 == n - 0x2000_0000 * q;
    assert n - 0x2000_0000 * q == n + 64 * (-0x80_0000 * q);
    ModShift(n, -0x80_0000 * q);
  }

  lemma {:induction false} ModShift(n: int, k: int)
    ensures (n + 64 * k) % 64 == n % 64
  {
  }

  // Adding the chunk's bit length with a carry tracks 8 * n modulo 2^64.
  lemma {:induction false} CountAdvances(n: nat, len: nat, low: UINT4, high: UINT4)
    requires low == 8 * n % WORD && high == 8 * n / WORD % WORD && len < WORD
    ensures var shifted := 8 * len % WORD;
            var low' := (low + shifted) % WORD;
            var carried := if low' < shifted then (high + 1) % WORD else high;
            low' == 8 * (n + len) % WORD && (carried + len / 0x2000_0000) % WORD == 8 * (n + len) / WORD % WORD
  {
    var shifted, top := 8 * len % WORD, len / 0x2000_0000;
    assert 8 * len == WORD * top + shifted;
    var q := 8 * n / WORD;
    assert 8 * n == WORD * q + low;
    var carry := if low + shifted >= WORD then 1 else 0;
    var low' := low + shifted - WORD * carry;
    assert (low + shifted) % WORD == low';
    assert 8 * (n + len) == WORD * (q + top + carry) + low';
    DivModUnique(8 * (n + len), q + top + carry, low');
    AddMod(q, carry, top);
  }

  lemma {:induction false} DivModUnique(x: int, q: int, r: int)
    requires x == WORD * q + r && 0 <= r < WORD
    ensures x / WORD == q && x % WORD == r
  {
  }

  lemma {:induction false} AddMod(q: int, carry: int, top: int)
    requires carry == 0 || carry == 1
    ensures ((if carry == 1 then (q % WORD + 1) % WORD else q % WORD) + top) % WORD == (q + top + carry) % WORD
  {
  }

  // ---------------------------------------------------------------- the streaming object

  class MD5 {
    const transform: Transform
    var state: State
    var count0: UINT4
    var count1: UINT4
    const buffer: array<Byte>
    ghost var message: seq<Byte>  // everything passed to Update since Init

    ghost predicate Valid()
      reads this, buffer
    {
      Counts(|message|) && Absorbed(message)
    }

    constructor (transform: Transform)
      ensures Valid() && message == [] && fresh(buffer) && this.transform == transform
    {
      this.transform := transform;
      this.buffer := new Byte[64];
      state, count0, count1, message := INIT, 0, 0, [];
    }

    method Init()
      requires buffer.Length == 64
      modifies this
      ensures Valid() && message == []
    {
      state, count0, count1, message := INIT, 0, 0, [];
    }

    method CopyToBuffer(at: nat, bytes: seq<Byte>)
      requires at + |bytes| <= buffer.Length
      modifies buffer
      ensures buffer[..at] == old(buffer[..at]) && buffer[at..at + |bytes|] == bytes
    {
      forall k | 0 <= k < |bytes| {
        buffer[at + k] := bytes[k];
      }
    }

    ghost predicate Counts(n: nat)
      reads this
    {
      count0 == 8 * n % WORD && count1 == 8 * n / WORD % WORD
    }

    // n bytes of s are accounted for: whole blocks in the state, the rest in the buffer.
    ghost predicate Absorbed(s: seq<Byte>)
      reads this, buffer
    {
      var w := Whole(|s|);
      && buffer.Length == 64
      && state == Fold(transform, INIT, s[..w])
      && buffer[..|s| - w] == s[w..]
    }

    method AddBits(ghost n: nat, len: nat)
      requires Counts(n) && len < WORD
      modifies this`count0, this`count1
      ensures Counts(n + len)
    {
      CountAdvances(n, len, count0, count1);
      var shifted := 8 * len % WORD;
      count0 := (count0 + shifted) % WORD;
      if count0 < shifted {
        count1 := (count1 + 1) % WORD;
      }
      count1 := (count1 + len / 0x2000_0000) % WORD;
    }

    // `i + 63` is computed in 32 bits, so the chunk and what waits in the buffer must stay below 2^32.
    method Update(input: seq<Byte>)
      requires Valid() && |input| < WORD && |input| + |message| % 64 < WORD
      modifies this, buffer
      ensures Valid() && message == old(message) + input
    {
      hide Fold, Whole;
      var index := count0 / 8 % 64;
      CountLow(|message|);
      WholeAndRest(|message|);
      AddBits(|message|, |input|);
      Absorb(input, index);
      message := message + input;
    }

    method Absorb(input: seq<Byte>, index: nat)
      requires Absorbed(message) && index == |message| - Whole(|message|) && |input| + index < WORD
      modifies this`state, buffer
      ensures Absorbed(message + input)
    {
      hide Fold, Whole;
      var partLen := 64 - index;
      if |input| >= partLen {
        var i := TransformBlocks(input, index);
        CopyToBuffer(0, input[i..]);
        assert (message + input)[|message| + i..] == input[i..];
        LastBlock(message + input, |message| + i);
      } else {
        ghost var w := Whole(|message|);
        CopyToBuffer(index, input);
        assert (message + input)[..w] == message[..w] && (message + input)[w..] == message[w..] + input;
        LastBlock(message + input, w);
      }
    }

    // Fills the buffer, then takes whole blocks straight from the input; what is left starts at i.
    method TransformBlocks(input: seq<Byte>, index: nat) returns (i: nat)
      requires Absorbed(message) && index == |message| - Whole(|message|) && |input| >= 64 - index
      requires |input| + index < WORD
      modifies this`state, buffer
      ensures 64 - index <= i <= |input| < i + 64 && (|message| + i) % 64 == 0
      ensures state == Fold(transform, INIT, (message + input)[..|message| + i])
    {
      hide Fold, Whole;
      var partLen := 64 - index;
      ghost var all, n := message + input, |message|;
      CopyToBuffer(index, input[..partLen]);
      assert buffer[..] == buffer[..index] + buffer[index..index + partLen];
      FoldOneMore(transform, INIT, message[..Whole(n)], buffer[..]);
      assert all[..n + partLen] == message[..Whole(n)] + (message[Whole(n)..] + input[..partLen]);
      state := transform(state, buffer[..]);
      i := partLen;
      FirstAligned(n, index);
      NextFits(index, i, |input|);
      while (i + 63) % WORD < |input|
        invariant partLen <= i <= |input| && (n + i) % 64 == 0 == (index + i) % 64 && (i + 63) % WORD == i + 63
        invariant state == Fold(transform, INIT, all[..n + i])
      {
        FoldOneMore(transform, INIT, all[..n + i], input[i..i + 64]);
        assert all[..n + i] + input[i..i + 64] == all[..n + i + 64];
        state := transform(state, input[i..i + 64]);
        i := i + 64;
        NextAligned(n, index, i);
        NextFits(index, i, |input|);
      }
    }

    static lemma {:induction false} FirstAligned(n: nat, index: nat)
      requires index == n - Whole(n)
      ensures (n + (64 - index)) % 64 == 0 == (index + (64 - index)) % 64
    {
    }

    static lemma {:induction false} NextAligned(n: nat, index: nat, i: nat)
      requires i >= 64 && (n + (i - 64)) % 64 == 0 == (index + (i - 64)) % 64
      ensures (n + i) % 64 == 0 == (index + i) % 64
    {
    }

    static lemma {:induction false} NextFits(index: nat, i: nat, len: nat)
      requires (index + i) % 64 == 0 && i <= len && len + index < WORD
      ensures (i + 63) % WORD == i + 63
    {
    }

    // Where the last whole block ends, the loop's guard is false, as it should be, exactly under that condition.
    static lemma {:induction false} LoopEndsIff(index: nat, len: nat, i: nat)
      requires index < 64 && i <= len < i + 64 && (index + i) % 64 == 0 && len < WORD
      ensures (i + 63) % WORD >= len <==> index + len < WORD
    {
      if index + len < WORD {
        NextFits(index, i, len);
      } else {
        assert index + i == WORD;
        assert (i + 63) % WORD == 63 - index;
      }
    }

    lemma {:induction false} LastBlock(s: seq<Byte>, w: nat)
      requires w % 64 == 0 && w <= |s| < w + 64
      requires buffer.Length == 64 && state == Fold(transform, INIT, s[..w]) && buffer[..|s| - w] == s[w..]
      ensures Absorbed(s)
    {
      WholeIs(|s|, w);
    }

    static lemma {:induction false} FoldOneMore(t: Transform, st: State, s: seq<Byte>, block: seq<Byte>)
      requires |s| % 64 == 0 && |block| == 64
      ensures Fold(t, st, s + block) == t(Fold(t, st, s), block)
    {
      FoldAppend(t, st, s, block);
      assert block[..64] == block;
    }

    static lemma {:induction false} WholeIs(n: nat, w: nat)
      requires w % 64 == 0 && w <= n < w + 64
      ensures Whole(n) == w
    {
    }

    method Final() returns (digest: seq<Byte>)
      requires Valid()
      modifies this, buffer
      ensures digest == Digest(transform, old(message))
      // The context is wiped.
      ensures state == State(0, 0, 0, 0) && count0 == 0 && count1 == 0 && buffer[..] == Zeros(64)
    {
      hide Fold, LittleEndian, LengthBytes, EncodeWords;
      ghost var msg := message;
      var bits := Encode([count0, count1]);
      EncodeCount(|msg|, count0, count1);
      var index := count0 / 8 % 64;
      CountLow(|msg|);
      var padLen := if index < 56 then 56 - index else 120 - index;
      var padding := [0x80] + Zeros(63);
      PaddingLength(|msg|);
      assert padding[..padLen] == PaddingFor(|msg|);
      Update(padding[..padLen]);
      Update(bits);
      assert message == Padded(msg);
      PaddedWhole(msg);
      assert message[..Whole(|message|)] == message;
      EncodeState(state);
      digest := Encode([state.a, state.b, state.c, state.d]);
      state, count0, count1 := State(0, 0, 0, 0), 0, 0;
      forall k | 0 <= k < 64 {
        buffer[k] := 0;
      }
    }
  }

  function EncodeWords(ws: seq<UINT4>): seq<Byte> {
    if ws == [] then [] else EncodeWords(ws[..|ws| - 1]) + Bytes4(ws[|ws| - 1])
  }

  method Encode(input: seq<UINT4>) returns (output: seq<Byte>)
    ensures output == EncodeWords(input)
  {
    output := [];
    for i := 0 to |input|
      invariant output == EncodeWords(input[..i])
    {
      assert input[..i + 1][..i] == input[..i];
      var w: nat := input[i];
      FourBytes(w);
      output := output + [w % 0x100, w / 0x100 % 0x100, w / 0x100 / 0x100 % 0x100, w / 0x100 / 0x100 / 0x100 % 0x100];
    }
    assert input[..|input|] == input;
  }

  lemma {:induction false} FourBytes(w: nat)
    ensures LittleEndian(w, 4)
              == [w % 0x100, w / 0x100 % 0x100, w / 0x100 / 0x100 % 0x100, w / 0x100 / 0x100 / 0x100 % 0x100]
  {
    var (w1, w2, w3) := (w / 0x100, w / 0x100 / 0x100, w / 0x100 / 0x100 / 0x100);
    assert LittleEndian(w3, 1) == [w3 % 0x100] + LittleEndian(w3 / 0x100, 0);
    assert LittleEndian(w2, 2) == [w2 % 0x100] + LittleEndian(w3, 1);
    assert LittleEndian(w1, 3) == [w1 % 0x100] + LittleEndian(w2, 2);
  }

  // Two words, low-order word first, are one number of 64 bits.
  lemma {:induction false} SplitLittleEndian(low: nat, high: nat, m: nat, n: nat)
    requires low < Pow256(m)
    ensures LittleEndian(low + Pow256(m) * high, m + n) == LittleEndian(low, m) + LittleEndian(high, n)
  {
    if m > 0 {
      SplitLittleEndian(low / 0x100, high, m - 1, n);
      var k := Pow256(m - 1) * high;
      ScaleAssociates(Pow256(m - 1), high);
      DivStep(low, k);
      assert LittleEndian(low + 0x100 * k, m + n) == [low % 0x100] + LittleEndian(low / 0x100 + k, m + n - 1);
    } else {
      assert Pow256(0) * high == high;
    }
  }

  lemma {:induction false} ScaleAssociates(x: nat, y: nat)
    ensures 0x100 * x * y == 0x100 * (x * y)
  {
  }

  lemma {:induction false} DivStep(low: nat, k: nat)
    ensures (low + 0x100 * k) / 0x100 == low / 0x100 + k && (low + 0x100 * k) % 0x100 == low % 0x100
  {
  }

  lemma {:induction false} EncodeCount(n: nat, count0: UINT4, count1: UINT4)
    requires count0 == 8 * n % WORD && count1 == 8 * n / WORD % WORD
    ensures EncodeWords([count0, count1]) == LengthBytes(n)
  {
    assert [count0, count1][..1] == [count0] && [count0][..0] == [];
    assert EncodeWords([count0]) == Bytes4(count0);
    SplitMod(8 * n);
    Pow256Eight();
    SplitLittleEndian(count0, count1, 4, 4);
  }

  lemma {:induction false} SplitMod(x: nat)
    ensures x % (WORD * WORD) == x % WORD + WORD * (x / WORD % WORD)
  {
  }

  lemma {:induction false} EncodeState(st: State)
    ensures EncodeWords([st.a, st.b, st.c, st.d]) == Output(st)
  {
    assert [st.a, st.b, st.c, st.d][..3] == [st.a, st.b, st.c] && [st.a, st.b, st.c][..2] == [st.a, st.b];
    assert [st.a, st.b][..1] == [st.a] && [st.a][..0] == [];
    assert EncodeWords([st.a]) == Bytes4(st.a);
    assert EncodeWords([st.a, st.b]) == Bytes4(st.a) + Bytes4(st.b);
  }

  // ---------------------------------------------------------------- any chunking

  function Joined(chunks: seq<seq<Byte>>): seq<Byte> {
    if chunks == [] then [] else Joined(chunks[..|chunks| - 1]) + chunks[|chunks| - 1]
  }

  // However a message is cut into chunks, its digest is the one of the RFC.
  method DigestChunks(t: Transform, chunks: seq<seq<Byte>>) returns (digest: seq<Byte>)
    requires forall k | 0 <= k < |chunks| :: |chunks[k]| < WORD && |chunks[k]| + |Joined(chunks[..k])| % 64 < WORD
    ensures digest == Digest(t, Joined(chunks))
  {
    var md5 := new MD5(t);
    for k := 0 to |chunks|
      invariant fresh(md5) && fresh(md5.buffer) && md5.Valid() && md5.transform == t
      invariant md5.message == Joined(chunks[..k])
    {
      assert chunks[..k + 1][..k] == chunks[..k];
      md5.Update(chunks[k]);
    }
    assert chunks[..|chunks|] == chunks;
    digest := md5.Final();
  }

  // ---------------------------------------------------------------- padding loses nothing

  // Below 2^61 bytes, different messages are padded differently.
  lemma {:induction false} PaddedInjective(x: seq<Byte>, y: seq<Byte>)
    requires |x| < 0x2000_0000_0000_0000 && |y| < 0x2000_0000_0000_0000
    requires Padded(x) == Padded(y)
    ensures x == y
  {
    var p := Padded(x);
    assert p[|p| - 8..] == LengthBytes(|x|);
    assert p[|p| - 8..] == LengthBytes(|y|);
    LengthBytesInjective(|x|, |y|);
    assert p[..|x|] == x;
    assert p[..|y|] == y;
  }

  lemma {:induction false} LengthBytesInjective(m: nat, n: nat)
    requires m < 0x2000_0000_0000_0000 && n < 0x2000_0000_0000_0000 && LengthBytes(m) == LengthBytes(n)
    ensures m == n
  {
    Pow256Eight();
    NumberLittleEndian(8 * m, 8);
    NumberLittleEndian(8 * n, 8);
    SmallMod(8 * m, WORD * WORD);
    SmallMod(8 * n, WORD * WORD);
  }

  lemma {:induction false} SmallMod(x: nat, m: nat)
    requires x < m
    ensures x % m == x
  {
  }

  lemma {:induction false} Pow256Eight()
    ensures Pow256(4) == WORD && Pow256(8) == WORD * WORD
  {
    assert Pow256(2) == 0x1_0000;
    assert Pow256(4) == WORD;
    assert Pow256(6) == 0x1_0000 * WORD;
  }
}
