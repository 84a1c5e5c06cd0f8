/**
 * Bob Jenkins' lookup3 hash, hashlittle2.
 *
 * The key is read in 32-bit words, in 16-bit words or byte by byte, depending on how it is aligned
 * in memory.  All three must give the hash of the key's bytes and nothing else, although the first
 * reads up to three bytes past the end.
 */
module Jenkins {
  import opened Common

  const WORD := 0x1_0000_0000

  type UInt32 = x: int | 0 <= x < WORD

  datatype Abc = Abc(a: UInt32, b: UInt32, c: UInt32)

  // ---------------------------------------------------------------- mix and final

  // 32-bit wrap-around.
  function Add(x: UInt32, y: UInt32): UInt32 {
    if x + y < WORD then x + y else x + y - WORD
  }

  function Sub(x: UInt32, y: UInt32): UInt32 {
    if y <= x then x - y else x - y + WORD
  }

  function XorBits(x: nat, y: nat, n: nat): nat {
    if n == 0 then 0 else (if x % 2 == y % 2 then 0 else 1) + 2 * XorBits(x / 2, y / 2, n - 1)
  }

  function Pow2(n: nat): nat {
    if n == 0 then 1 else 2 * Pow2(n - 1)
  }

  lemma {:induction false} XorBounded(x: nat, y: nat, n: nat)
    ensures XorBits(x, y, n) < Pow2(n)
  {
    if n > 0 {
      XorBounded(x / 2, y / 2, n - 1);
    }
  }

  lemma {:induction false} Pow2Is()
    ensures Pow2(32) == WORD
  {
    assert Pow2(4) == 16;
    assert Pow2(8) == 256;
    assert Pow2(12) == 4096;
    assert Pow2(16) == 65536;
    assert Pow2(20) == 0x10_0000;
    assert Pow2(24) == 0x100_0000;
    assert Pow2(28) == 0x1000_0000;
  }

  function Xor(x: UInt32, y: UInt32): UInt32 {
    XorBounded(x, y, 32);
    Pow2Is();
    XorBits(x, y, 32)
  }

  // (x << k) | (x >> (32 - k)); the two parts have no bit in common.
  function Rot(x: UInt32, k: nat): UInt32
    requires 0 < k < 32
  {
    PowPositive(32 - k);
    (x * Pow2(k) % WORD + x / Pow2(32 - k)) % WORD
  }

  lemma {:induction false} PowPositive(n: nat)
    ensures Pow2(n) > 0
  {
    if n > 0 {
      PowPositive(n - 1);
    }
  }

  // One line of `mix`, for the triple in the order in which the line uses it:
  //   x -= z;  x ^= rot(z, k);  z += y
  // The next line uses the triple rotated by one.
  function MixLine(t: Abc, k: nat): Abc
    requires 0 < k < 32
  {
    Abc(t.b, Add(t.c, t.b), Xor(Sub(t.a, t.c), Rot(t.c, k)))
  }

  function Mix(t: Abc): Abc {
    MixLine(MixLine(MixLine(MixLine(MixLine(MixLine(t, 4), 6), 8), 16), 19), 4)
  }

  // One line of `final`:  x ^= z;  x -= rot(z, k).  It starts from (c, a, b) and ends, after seven, at (a, b, c).
  function FinalLine(t: Abc, k: nat): Abc
    requires 0 < k < 32
  {
    Abc(t.b, t.c, Sub(Xor(t.a, t.c), Rot(t.c, k)))
  }

  function Final(t: Abc): Abc {
    var t3 := FinalLine(FinalLine(FinalLine(Abc(t.c, t.a, t.b), 14), 11), 25);
    FinalLine(FinalLine(FinalLine(FinalLine(t3, 16), 4), 14), 24)
  }

  // ---------------------------------------------------------------- both can be undone

  lemma {:induction false} XorTwice(x: nat, y: nat, n: nat)
    requires x < Pow2(n)
    ensures XorBits(XorBits(x, y, n), y, n) == x
  {
    if n > 0 {
      var z := XorBits(x, y, n);
      assert z == (if x % 2 == y % 2 then 0 else 1) + 2 * XorBits(x / 2, y / 2, n - 1);
      assert z / 2 == XorBits(x / 2, y / 2, n - 1) && z % 2 == if x % 2 == y % 2 then 0 else 1;
      XorTwice(x / 2, y / 2, n - 1);
      assert XorBits(z, y, n) == (if z % 2 == y % 2 then 0 else 1) + 2 * XorBits(z / 2, y / 2, n - 1);
    }
  }

  lemma {:induction false} XorUndoes(x: UInt32, y: UInt32)
    ensures Xor(Xor(x, y), y) == x
  {
    Pow2Is();
    XorTwice(x, y, 32);
  }

  lemma {:induction false} AddUndoes(x: UInt32, y: UInt32)
    ensures Sub(Add(x, y), y) == x && Add(Sub(x, y), y) == x
  {
  }

  function UnmixLine(t: Abc, k: nat): Abc
    requires 0 < k < 32
  {
    var z := Sub(t.b, t.a);
    Abc(Add(Xor(t.c, Rot(z, k)), z), t.a, z)
  }

  lemma {:induction false} MixLineUndone(t: Abc, k: nat)
    requires 0 < k < 32
    ensures UnmixLine(MixLine(t, k), k) == t && MixLine(UnmixLine(t, k), k) == t
  {
    AddUndoes(t.c, t.b);
    AddUndoes(t.a, t.c);
    XorUndoes(Sub(t.a, t.c), Rot(t.c, k));
    var z := Sub(t.b, t.a);
    AddUndoes(t.b, t.a);
    AddUndoes(Xor(t.c, Rot(z, k)), z);
    XorUndoes(t.c, Rot(z, k));
  }

  function Unmix(t: Abc): Abc {
    UnmixLine(UnmixLine(UnmixLine(UnmixLine(UnmixLine(UnmixLine(t, 4), 19), 16), 8), 6), 4)
  }

  // `mix` is a bijection on triples of 32-bit words.
  lemma {:induction false} MixBijective(t: Abc)
    ensures Unmix(Mix(t)) == t && Mix(Unmix(t)) == t
  {
    var t1 := MixLine(t, 4);
    var t2 := MixLine(t1, 6);
    var t3 := MixLine(t2, 8);
    var t4 := MixLine(t3, 16);
    var t5 := MixLine(t4, 19);
    MixLineUndone(t, 4); MixLineUndone(t1, 6); MixLineUndone(t2, 8);
    MixLineUndone(t3, 16); MixLineUndone(t4, 19); MixLineUndone(t5, 4);
    var u1 := UnmixLine(t, 4);
    var u2 := UnmixLine(u1, 19);
    var u3 := UnmixLine(u2, 16);
    var u4 := UnmixLine(u3, 8);
    var u5 := UnmixLine(u4, 6);
    MixLineUndone(u1, 19); MixLineUndone(u2, 16); MixLineUndone(u3, 8);
    MixLineUndone(u4, 6); MixLineUndone(u5, 4);
  }

  function UnfinalLine(t: Abc, k: nat): Abc
    requires 0 < k < 32
  {
    Abc(Xor(Add(t.c, Rot(t.b, k)), t.b), t.a, t.b)
  }

  lemma {:induction false} FinalLineUndone(t: Abc, k: nat)
    requires 0 < k < 32
    ensures UnfinalLine(FinalLine(t, k), k) == t && FinalLine(UnfinalLine(t, k), k) == t
  {
    AddUndoes(Xor(t.a, t.c), Rot(t.c, k));
    XorUndoes(t.a, t.c);
    AddUndoes(t.c, Rot(t.b, k));
    XorUndoes(Add(t.c, Rot(t.b, k)), t.b);
  }

  function Unfinal(t: Abc): Abc {
    var t4 := UnfinalLine(UnfinalLine(UnfinalLine(UnfinalLine(t, 24), 14), 4), 16);
    var t7 := UnfinalLine(UnfinalLine(UnfinalLine(t4, 25), 11), 14);
    Abc(t7.b, t7.c, t7.a)
  }

  // So is `final`.
  lemma {:induction false} FinalBijective(t: Abc)
    ensures Unfinal(Final(t)) == t && Final(Unfinal(t)) == t
  {
    var t0 := Abc(t.c, t.a, t.b);
    var t1 := FinalLine(t0, 14);
    var t2 := FinalLine(t1, 11);
    var t3 := FinalLine(t2, 25);
    var t4 := FinalLine(t3, 16);
    var t5 := FinalLine(t4, 4);
    var t6 := FinalLine(t5, 14);
    FinalLineUndone(t0, 14); FinalLineUndone(t1, 11); FinalLineUndone(t2, 25); FinalLineUndone(t3, 16);
    FinalLineUndone(t4, 4); FinalLineUndone(t5, 14); FinalLineUndone(t6, 24);
    var u1 := UnfinalLine(t, 24);
    var u2 := UnfinalLine(u1, 14);
    var u3 := UnfinalLine(u2, 4);
    var u4 := UnfinalLine(u3, 16);
    var u5 := UnfinalLine(u4, 25);
    var u6 := UnfinalLine(u5, 11);
    FinalLineUndone(t, 24); FinalLineUndone(u1, 14); FinalLineUndone(u2, 4); FinalLineUndone(u3, 16);
    FinalLineUndone(u4, 25); FinalLineUndone(u5, 11); FinalLineUndone(u6, 14);
  }

  // ---------------------------------------------------------------- what the functions compute

  // Bit b of x.
  function Bit(x: nat, b: nat): nat {
    if b == 0 then x % 2 else Bit(x / 2, b - 1)
  }

  // h shifted left by n bits, with l in the bits that become free.
  function Join(h: nat, l: nat, n: nat): nat {
    h * Pow2(n) + l
  }

  lemma {:induction false} JoinHalves(h: nat, l: nat, n: nat)
    requires n > 0
    ensures Join(h, l, n) % 2 == l % 2 && Join(h, l, n) / 2 == Join(h, l / 2, n - 1)
  {
    var p := h * Pow2(n - 1);
    assert Join(h, l, n) == 2 * p + l;
  }

  lemma {:induction false} BitOfJoin(h: nat, l: nat, n: nat, b: nat)
    requires l < Pow2(n)
    ensures Bit(Join(h, l, n), b) == if b < n then Bit(l, b) else Bit(h, b - n)
    decreases n
  {
    if n > 0 {
      JoinHalves(h, l, n);
      if b > 0 {
        BitOfJoin(h, l / 2, n - 1, b - 1);
      }
    }
  }

  lemma {:induction false} PowSum(m: nat, n: nat)
    ensures Pow2(m) * Pow2(n) == Pow2(m + n)
  {
    if m > 0 {
      PowSum(m - 1, n);
      assert Pow2(m) * Pow2(n) == 2 * (Pow2(m - 1) * Pow2(n));
    }
  }

  // A rotation exchanges the upper k bits and the others.
  lemma {:induction false} RotIsJoin(x: UInt32, k: nat) returns (h: nat, l: nat)
    requires 0 < k < 32
    ensures x == Join(h, l, 32 - k) && Rot(x, k) == Join(l, h, k) && h < Pow2(k) && l < Pow2(32 - k)
  {
    PowPositive(32 - k);
    PowPositive(k);
    Pow2Is();
    PowSum(k, 32 - k);
    PowSum(32 - k, k);
    hide Pow2;
    var p, q := Pow2(k), Pow2(32 - k);
    assert Rot(x, k) == (x * p % WORD + x / q) % WORD;
    hide Rot;
    h, l := Rotated(x, p, q);
  }

  lemma {:induction false} Rotated(x: UInt32, p: nat, q: nat) returns (h: nat, l: nat)
    requires p > 0 && q > 0 && p * q == q * p == WORD
    ensures x == h * q + l && h < p && l < q && (x * p % WORD + x / q) % WORD == l * p + h
  {
    h, l := x / q, x % q;
    assert x == q * h + l;
    Quotient(x, p, q);
    assert x * p == h * (q * p) + l * p;
    Product(l, p, q);
    Remainder(h, l * p);
  }

  lemma {:induction false} Quotient(x: nat, p: nat, q: nat)
    requires q > 0 && x < p * q
    ensures x / q < p
  {
    if x / q >= p {
      Scale(p, x / q, q);
    }
  }

  lemma {:induction false} Scale(m: nat, n: nat, q: nat)
    requires m <= n
    ensures m * q <= n * q
  {
  }

  lemma {:induction false} Product(l: nat, p: nat, q: nat)
    requires l < q
    ensures l * p + p <= p * q
  {
    Scale(l + 1, q, p);
  }

  lemma {:induction false} Remainder(h: nat, r: nat)
    requires r < WORD
    ensures (h * WORD + r) % WORD == r
  {
  }

  // Bit b of the rotation to the left by k is the bit k places lower, counted round.
  lemma {:induction false} RotMovesBits(x: UInt32, k: nat, b: nat)
    requires 0 < k < 32 && b < 32
    ensures Bit(Rot(x, k), b) == Bit(x, (b + 32 - k) % 32)
  {
    hide Rot, Bit, Join, Pow2;
    var h, l := RotIsJoin(x, k);
    assert (b + 32 - k) % 32 == if b < k then b + 32 - k else b - k;
    BitOfJoin(l, h, k, b);
    BitOfJoin(h, l, 32 - k, if b < k then b + 32 - k else b - k);
  }

  lemma {:induction false} XorBit(x: nat, y: nat, n: nat, b: nat)
    requires b < n
    ensures Bit(XorBits(x, y, n), b) == if Bit(x, b) == Bit(y, b) then 0 else 1
  {
    var z := XorBits(x, y, n);
    assert z == (if x % 2 == y % 2 then 0 else 1) + 2 * XorBits(x / 2, y / 2, n - 1);
    assert z / 2 == XorBits(x / 2, y / 2, n - 1) && z % 2 == if x % 2 == y % 2 then 0 else 1;
    if b > 0 {
      XorBit(x / 2, y / 2, n - 1, b - 1);
    }
  }

  // Bit by bit.
  lemma {:induction false} XorIsBitwise(x: UInt32, y: UInt32, b: nat)
    requires b < 32
    ensures Bit(Xor(x, y), b) == if Bit(x, b) == Bit(y, b) then 0 else 1
  {
    XorBit(x, y, 32, b);
  }

  lemma {:induction false} AddWraps(x: UInt32, y: UInt32)
    ensures Add(x, y) == (x + y) % WORD && Sub(x, y) == (x - y) % WORD
  {
    if x < y {
      assert (x - y + WORD) % WORD == (x - y) % WORD;
    }
  }

  // The eighteen assignments of `mix`.
  lemma {:induction false} MixIs(a: UInt32, b: UInt32, c: UInt32)
    ensures Mix(Abc(a, b, c)) ==
            var a1 := Xor(Sub(a, c), Rot(c, 4)); var c1 := Add(c, b);
            var b1 := Xor(Sub(b, a1), Rot(a1, 6)); var a2 := Add(a1, c1);
            var c2 := Xor(Sub(c1, b1), Rot(b1, 8)); var b2 := Add(b1, a2);
            var a3 := Xor(Sub(a2, c2), Rot(c2, 16)); var c3 := Add(c2, b2);
            var b3 := Xor(Sub(b2, a3), Rot(a3, 19)); var a4 := Add(a3, c3);
            var c4 := Xor(Sub(c3, b3), Rot(b3, 4)); var b4 := Add(b3, a4);
            Abc(a4, b4, c4)
  {
    hide Xor, Rot, Add, Sub;
  }

  // The fourteen of `final`.
  lemma {:induction false} FinalIs(a: UInt32, b: UInt32, c: UInt32)
    ensures Final(Abc(a, b, c)) ==
            var c1 := Sub(Xor(c, b), Rot(b, 14));
            var a1 := Sub(Xor(a, c1), Rot(c1, 11));
            var b1 := Sub(Xor(b, a1), Rot(a1, 25));
            var c2 := Sub(Xor(c1, b1), Rot(b1, 16));
            var a2 := Sub(Xor(a1, c2), Rot(c2, 4));
            var b2 := Sub(Xor(b1, a2), Rot(a2, 14));
            var c3 := Sub(Xor(c2, b2), Rot(b2, 24));
            Abc(a2, b2, c3)
  {
    hide Xor, Rot, Add, Sub;
  }

  // ---------------------------------------------------------------- the hash of a key

  // The key continued with zero bytes.
  function ByteAt(key: seq<Byte>, i: nat): Byte {
    if i < |key| then key[i] else 0
  }

  function Word(b0: int, b1: int, b2: int, b3: int): int {
    b0 + 0x100 * b1 + 0x1_0000 * b2 + 0x100_0000 * b3
  }

  function WordAt(key: seq<Byte>, i: nat): UInt32 {
    Word(ByteAt(key, i), ByteAt(key, i + 1), ByteAt(key, i + 2), ByteAt(key, i + 3))
  }

  function AddBlock(t: Abc, key: seq<Byte>, i: nat): Abc {
    Abc(Add(t.a, WordAt(key, i)), Add(t.b, WordAt(key, i + 4)), Add(t.c, WordAt(key, i + 8)))
  }

  // Blocks of twelve bytes are mixed in while more than twelve remain; the last, padded with zeros, goes to `final`.
  function HashFrom(t: Abc, key: seq<Byte>, i: nat): Abc
    requires i <= |key|
    decreases |key| - i
  {
    if |key| - i > 12 then HashFrom(Mix(AddBlock(t, key, i)), key, i + 12)
    else if i == |key| then t
    else Final(AddBlock(t, key, i))
  }

  function Start(length: nat, pc: UInt32, pb: UInt32): Abc {
    var a := Add(Add(0xdeadbeef, length % WORD), pc);
    Abc(a, a, Add(a, pb))
  }

  function Hash(key: seq<Byte>, pc: UInt32, pb: UInt32): Abc {
    HashFrom(Start(|key|, pc, pb), key, 0)
  }

  // ---------------------------------------------------------------- reading memory

  // What little-endian memory holds from the key on; reading past its end is not allowed.
  function Read16(mem: seq<Byte>, i: nat): (r: UInt32)
    requires i + 2 <= |mem|
    ensures r < 0x1_0000
  {
    Word(mem[i], mem[i + 1], 0, 0)
  }

  function Read32(mem: seq<Byte>, i: nat): UInt32
    requires i + 4 <= |mem|
  {
    Word(mem[i], mem[i + 1], mem[i + 2], mem[i + 3])
  }

  function Shl8(x: Byte): UInt32 { 0x100 * x as int }
  function Shl16(x: int): UInt32 requires 0 <= x < 0x1_0000 { 0x1_0000 * x }
  function Shl24(x: Byte): UInt32 { 0x100_0000 * x as int }

  lemma {:induction false} AddAssociates(x: UInt32, y: UInt32, z: UInt32)
    requires y + z < WORD
    ensures Add(Add(x, y), z) == Add(x, y + z) == Add(Add(x, z), y)
    ensures Add(x, 0) == x
  {
  }

  // The n bytes of the key from byte i on, as each way of reading adds them up.
  lemma {:induction false} WordFromBytes(mem: seq<Byte>, len: nat, i: nat)
    requires len <= |mem|
    ensures len <= i ==> WordAt(mem[..len], i) == 0
    ensures len == i + 1 ==> WordAt(mem[..len], i) == mem[i]
    ensures len == i + 2 ==> WordAt(mem[..len], i) == Read16(mem, i)
    ensures len == i + 3 ==> WordAt(mem[..len], i) == Read16(mem, i) + Shl16(mem[i + 2])
    ensures len >= i + 4 ==> WordAt(mem[..len], i) == Read16(mem, i) + Shl16(Read16(mem, i + 2)) == Read32(mem, i)
  {
  }

  lemma {:induction false} MaskWord(b0: Byte, b1: Byte, b2: Byte, b3: Byte)
    ensures Word(b0, b1, b2, b3) % 0x100 == b0
    ensures Word(b0, b1, b2, b3) % 0x1_0000 == Word(b0, b1, 0, 0)
    ensures Word(b0, b1, b2, b3) % 0x100_0000 == Word(b0, b1, b2, 0)
  {
    assert Word(b0, b1, b2, b3) == 0x100 * (b1 + 0x100 * b2 + 0x1_0000 * b3) + b0;
    assert Word(b0, b1, b2, b3) == 0x1_0000 * (b2 + 0x100 * b3) + Word(b0, b1, 0, 0);
    assert Word(b0, b1, b2, b3) == 0x100_0000 * b3 + Word(b0, b1, b2, 0);
  }

  // Masking off the bytes past the end leaves the key's.
  lemma {:induction false} WordFromMask(mem: seq<Byte>, len: nat, i: nat)
    requires len <= |mem| && i + 4 <= |mem|
    ensures len == i + 1 ==> WordAt(mem[..len], i) == Read32(mem, i) % 0x100
    ensures len == i + 2 ==> WordAt(mem[..len], i) == Read32(mem, i) % 0x1_0000
    ensures len == i + 3 ==> WordAt(mem[..len], i) == Read32(mem, i) % 0x100_0000
  {
    MaskWord(mem[i], mem[i + 1], mem[i + 2], mem[i + 3]);
    hide Word;
    if len == i + 1 {
      WordOfOne(mem[i]);
    }
  }

  lemma {:induction false} WordOfOne(b: Byte)
    ensures Word(b, 0, 0, 0) == b
  {
  }

  // The block at byte k, all of it within the key, read in any of the three ways.
  lemma {:induction false} WholeBlock(t: Abc, mem: seq<Byte>, len: nat, k: nat)
    requires k + 12 <= len <= |mem|
    ensures AddBlock(t, mem[..len], k)
              == Abc(Add(t.a, Read32(mem, k)), Add(t.b, Read32(mem, k + 4)), Add(t.c, Read32(mem, k + 8)))
    ensures AddBlock(t, mem[..len], k)
              == Abc(Add(t.a, Read16(mem, k) + Shl16(Read16(mem, k + 2))),
                     Add(t.b, Read16(mem, k + 4) + Shl16(Read16(mem, k + 6))),
                     Add(t.c, Read16(mem, k + 8) + Shl16(Read16(mem, k + 10))))
  {
    WordFromBytes(mem, len, k);
    WordFromBytes(mem, len, k + 4);
    WordFromBytes(mem, len, k + 8);
  }

  // ---------------------------------------------------------------- the aligned 32-bit reads

  // A read may reach past the key, but not past the aligned cell that holds its last byte.
  ghost predicate CellsReadable(mem: seq<Byte>, len: nat) {
    forall cell: nat :: CellReadable(mem, len, cell)
  }

  ghost predicate CellReadable(mem: seq<Byte>, len: nat, cell: nat) {
    4 * cell < len ==> 4 * cell + 4 <= |mem|
  }

  method Hash32(mem: seq<Byte>, len: nat, start: Abc) returns (t: Abc)
    requires len <= |mem| && CellsReadable(mem, len)
    ensures t == HashFrom(start, mem[..len], 0)
  {
    hide Add, Word, Mix, Final;
    t := start;
    var length, k := len, 0;
    ghost var cell := 0;
    while length > 12
      invariant k + length == len && k == 4 * cell
      invariant HashFrom(t, mem[..len], k) == HashFrom(start, mem[..len], 0)
    {
      WholeBlock(t, mem, len, k);
      t := Mix(Abc(Add(t.a, Read32(mem, k)), Add(t.b, Read32(mem, k + 4)), Add(t.c, Read32(mem, k + 8))));
      length := length - 12;
      k := k + 12;
      cell := cell + 3;
    }
    if length == 0 {
      return;
    }
    t := Tail32(mem, len, k, cell, t);
    t := Final(t);
  }

  method Tail32(mem: seq<Byte>, len: nat, k: nat, ghost cell: nat, start: Abc) returns (t: Abc)
    requires len <= |mem| && CellsReadable(mem, len) && k == 4 * cell
    ensures t == AddBlock(start, mem[..len], k)
  {
    var c := TailWord32(mem, len, k + 8, cell + 2, start.c);
    var b := TailWord32(mem, len, k + 4, cell + 1, start.b);
    var a := TailWord32(mem, len, k, cell, start.a);
    t := Abc(a, b, c);
  }

  // What the switch on the remaining length adds for the word at k: masked to its bytes, or nothing.
  method TailWord32(mem: seq<Byte>, len: nat, k: nat, ghost cell: nat, start: UInt32) returns (x: UInt32)
    requires len <= |mem| && CellsReadable(mem, len) && k == 4 * cell
    ensures x == Add(start, WordAt(mem[..len], k))
  {
    WordFromBytes(mem, len, k);
    AddAssociates(start, 0, 0);
    if k >= len {
      return start;
    }
    assert CellReadable(mem, len, cell);
    WordFromMask(mem, len, k);
    match len - k {
      case 1 => x := Add(start, Read32(mem, k) % 0x100);
      case 2 => x := Add(start, Read32(mem, k) % 0x1_0000);
      case 3 => x := Add(start, Read32(mem, k) % 0x100_0000);
      case _ => x := Add(start, Read32(mem, k));
    }
  }

  // ---------------------------------------------------------------- the aligned 16-bit reads

  method Hash16(mem: seq<Byte>, len: nat, start: Abc) returns (t: Abc)
    requires len <= |mem|
    ensures t == HashFrom(start, mem[..len], 0)
  {
    hide Add, Word, Mix, Final;
    t := start;
    var length, k := len, 0;
    while length > 12
      invariant k + length == len
      invariant HashFrom(t, mem[..len], k) == HashFrom(start, mem[..len], 0)
    {
      WholeBlock(t, mem, len, k);
      var a := Add(t.a, Read16(mem, k) + Shl16(Read16(mem, k + 2)));
      var b := Add(t.b, Read16(mem, k + 4) + Shl16(Read16(mem, k + 6)));
      var c := Add(t.c, Read16(mem, k + 8) + Shl16(Read16(mem, k + 10)));
      t := Mix(Abc(a, b, c));
      length := length - 12;
      k := k + 12;
    }
    if length == 0 {
      return;
    }
    var c := TailWord16(mem, len, k + 8, t.c);
    var b := TailWord16(mem, len, k + 4, t.b);
    var a := TailWord16(mem, len, k, t.a);
    t := Final(Abc(a, b, c));
  }

  // What the switch adds for the word at k; a third byte is added first and falls through to the first two.
  method TailWord16(mem: seq<Byte>, len: nat, k: nat, start: UInt32) returns (x: UInt32)
    requires len <= |mem|
    ensures x == Add(start, WordAt(mem[..len], k))
  {
    WordFromBytes(mem, len, k);
    AddAssociates(start, 0, 0);
    x := start;
    if k >= len {
      return;
    }
    match len - k {
      case 1 =>
        x := Add(x, mem[k]);
      case 2 =>
        x := Add(x, Read16(mem, k));
      case 3 =>
        AddAssociates(x, Read16(mem, k), Shl16(mem[k + 2]));
        x := Add(x, Shl16(mem[k + 2]));
        x := Add(x, Read16(mem, k));
      case _ =>
        x := Add(x, Read16(mem, k) + Shl16(Read16(mem, k + 2)));
    }
  }

  // ---------------------------------------------------------------- byte by byte

  lemma {:induction false} AddFourBytes(x: UInt32, b0: Byte, b1: Byte, b2: Byte, b3: Byte)
    ensures Add(Add(Add(Add(x, b0), Shl8(b1)), Shl16(b2)), Shl24(b3)) == Add(x, Word(b0, b1, b2, b3))
    ensures Add(Add(Add(Add(x, Shl24(b3)), Shl16(b2)), Shl8(b1)), b0) == Add(x, Word(b0, b1, b2, b3))
  {
    AddAssociates(x, b0, Shl8(b1));
    AddAssociates(x, b0 + Shl8(b1), Shl16(b2));
    AddAssociates(x, Word(b0, b1, b2, 0), Shl24(b3));
    AddAssociates(x, Shl24(b3), Shl16(b2));
    AddAssociates(x, Shl24(b3) + Shl16(b2), Shl8(b1));
    AddAssociates(x, Word(0, b1, b2, b3), b0);
  }

  method HashBytes(mem: seq<Byte>, len: nat, start: Abc) returns (t: Abc)
    requires len <= |mem|
    ensures t == HashFrom(start, mem[..len], 0)
  {
    hide Add, Word, Mix, Final;
    t := start;
    var length, k := len, 0;
    while length > 12
      invariant k + length == len
      invariant HashFrom(t, mem[..len], k) == HashFrom(start, mem[..len], 0)
    {
      AddFourBytes(t.a, mem[k], mem[k + 1], mem[k + 2], mem[k + 3]);
      AddFourBytes(t.b, mem[k + 4], mem[k + 5], mem[k + 6], mem[k + 7]);
      AddFourBytes(t.c, mem[k + 8], mem[k + 9], mem[k + 10], mem[k + 11]);
      var a := Add(Add(Add(Add(t.a, mem[k]), Shl8(mem[k + 1])), Shl16(mem[k + 2])), Shl24(mem[k + 3]));
      var b := Add(Add(Add(Add(t.b, mem[k + 4]), Shl8(mem[k + 5])), Shl16(mem[k + 6])), Shl24(mem[k + 7]));
      var c := Add(Add(Add(Add(t.c, mem[k + 8]), Shl8(mem[k + 9])), Shl16(mem[k + 10])), Shl24(mem[k + 11]));
      assert Abc(a, b, c) == AddBlock(t, mem[..len], k);
      t := Mix(Abc(a, b, c));
      length := length - 12;
      k := k + 12;
    }
    if length == 0 {
      return;
    }
    // Each case of the switch falls through to the ones below it.
    var a, b, c := t.a, t.b, t.c;
    c := TailBytes(mem, len, k + 8, c);
    b := TailBytes(mem, len, k + 4, b);
    a := TailBytes(mem, len, k, a);
    t := Final(Abc(a, b, c));
  }

  method TailBytes(mem: seq<Byte>, len: nat, k: nat, start: UInt32) returns (x: UInt32)
    requires len <= |mem|
    ensures x == Add(start, WordAt(mem[..len], k))
  {
    ghost var key := mem[..len];
    AddFourBytes(start, ByteAt(key, k), ByteAt(key, k + 1), ByteAt(key, k + 2), ByteAt(key, k + 3));
    AddAssociates(start, 0, 0);
    x := start;
    if k + 3 < len { x := Add(x, Shl24(mem[k + 3])); }
    assert x == Add(start, Shl24(ByteAt(key, k + 3)));
    AddAssociates(x, 0, 0);
    if k + 2 < len { x := Add(x, Shl16(mem[k + 2])); }
    assert x == Add(Add(start, Shl24(ByteAt(key, k + 3))), Shl16(ByteAt(key, k + 2)));
    AddAssociates(x, 0, 0);
    if k + 1 < len { x := Add(x, Shl8(mem[k + 1])); }
    AddAssociates(x, 0, 0);
    if k < len { x := Add(x, mem[k]); }
  }

  // ---------------------------------------------------------------- the choice between them

  // The result depends on the key's bytes alone: not on its address, not on what follows it in memory.
  method HashLittle2(address: nat, mem: seq<Byte>, length: nat, pc: UInt32, pb: UInt32) returns (pc': UInt32, pb': UInt32)
    requires length <= |mem|
    requires address % 4 == 0 ==> CellsReadable(mem, length)
    ensures Hash(mem[..length], pc, pb) == Abc(Hash(mem[..length], pc, pb).a, pb', pc')
  {
    var a := Add(Add(0xdeadbeef, length % WORD), pc);
    var t := Abc(a, a, Add(a, pb));
    assert t == Start(|mem[..length]|, pc, pb);
    if address % 4 == 0 {
      t := Hash32(mem, length, t);
    } else if address % 2 == 0 {
      t := Hash16(mem, length, t);
    } else {
      t := HashBytes(mem, length, t);
    }
    pc', pb' := t.c, t.b;
  }

  // ---------------------------------------------------------------- known answers

  function Differ(x: nat, y: nat): nat {
    if x % 2 == y % 2 then 0 else 1
  }

  // The exclusive or of the low-order bytes, written out.
  function XorByte(x: nat, y: nat): nat {
    Differ(x, y) + 2 * Differ(x / 2, y / 2) + 4 * Differ(x / 4, y / 4) + 8 * Differ(x / 8, y / 8)
      + 16 * Differ(x / 16, y / 16) + 32 * Differ(x / 32, y / 32) + 64 * Differ(x / 64, y / 64) + 128 * Differ(x / 128, y / 128)
  }

  function XorWord(x: nat, y: nat): nat {
    XorByte(x, y) + 0x100 * XorByte(x / 0x100, y / 0x100)
      + 0x1_0000 * XorByte(x / 0x1_0000, y / 0x1_0000) + 0x100_0000 * XorByte(x / 0x100_0000, y / 0x100_0000)
  }

  lemma {:induction false} XorOneBit(x: nat, y: nat, n: nat)
    ensures XorBits(x, y, n + 1) == Differ(x, y) + 2 * XorBits(x / 2, y / 2, n)
  {
  }

  lemma {:induction false} XorOneByte(x: nat, y: nat, n: nat)
    ensures XorBits(x, y, n + 8) == XorByte(x, y) + 0x100 * XorBits(x / 0x100, y / 0x100, n)
  {
    XorOneBit(x, y, n + 7);
    XorOneBit(x / 2, y / 2, n + 6);
    XorOneBit(x / 4, y / 4, n + 5);
    XorOneBit(x / 8, y / 8, n + 4);
    XorOneBit(x / 16, y / 16, n + 3);
    XorOneBit(x / 32, y / 32, n + 2);
    XorOneBit(x / 64, y / 64, n + 1);
    XorOneBit(x / 128, y / 128, n);
    hide XorBits, Differ;
    Halves(x);
    Halves(y);
  }

  lemma {:induction false} Halves(x: nat)
    ensures x / 2 / 2 == x / 4 && x / 4 / 2 == x / 8 && x / 8 / 2 == x / 16 && x / 16 / 2 == x / 32
    ensures x / 32 / 2 == x / 64 && x / 64 / 2 == x / 128 && x / 128 / 2 == x / 256
  {
  }

  lemma {:induction false} XorIsWord(x: UInt32, y: UInt32)
    ensures Xor(x, y) == XorWord(x, y)
  {
    hide XorByte;
    XorOneByte(x, y, 24);
    XorOneByte(x / 0x100, y / 0x100, 16);
    XorOneByte(x / 0x1_0000, y / 0x1_0000, 8);
    XorOneByte(x / 0x100_0000, y / 0x100_0000, 0);
    assert XorBits(x / 0x100_0000 / 0x100, y / 0x100_0000 / 0x100, 0) == 0;
    hide XorBits;
    assert x / 0x100 / 0x100 == x / 0x1_0000 && x / 0x1_0000 / 0x100 == x / 0x100_0000;
    assert y / 0x100 / 0x100 == y / 0x1_0000 && y / 0x1_0000 / 0x100 == y / 0x100_0000;
  }

  lemma {:induction false} Powers()
    ensures Pow2(4) == 0x10 && Pow2(6) == 0x40 && Pow2(8) == 0x100 && Pow2(11) == 0x800 && Pow2(14) == 0x4000
    ensures Pow2(16) == 0x1_0000 && Pow2(19) == 0x8_0000 && Pow2(24) == 0x100_0000 && Pow2(25) == 0x200_0000
    ensures Pow2(28) == 0x1000_0000 && Pow2(26) == 0x400_0000 && Pow2(21) == 0x20_0000 && Pow2(18) == 0x4_0000
    ensures Pow2(13) == 0x2000 && Pow2(7) == 0x80
  {
  }

  lemma {:induction false} MixLineIs(t: Abc, k: nat, x: UInt32, r: UInt32, u: Abc)
    requires 0 < k < 32 && Pow2(32 - k) > 0 && (t.c * Pow2(k) % WORD + t.c / Pow2(32 - k)) % WORD == r
    requires Sub(t.a, t.c) == x && XorWord(x, r) == u.c && u.a == t.b && u.b == Add(t.c, t.b)
    ensures MixLine(t, k) == u
  {
    hide XorWord, XorBits, Pow2, Add, Sub;
    XorIsWord(x, r);
  }

  lemma {:induction false} FinalLineIs(t: Abc, k: nat, x: UInt32, r: UInt32, u: Abc)
    requires 0 < k < 32 && Pow2(32 - k) > 0 && (t.c * Pow2(k) % WORD + t.c / Pow2(32 - k)) % WORD == r
    requires XorWord(t.a, t.c) == x && u.c == Sub(x, r) && u.a == t.b && u.b == t.c
    ensures FinalLine(t, k) == u
  {
    hide XorWord, XorBits, Pow2, Sub;
    XorIsWord(t.a, t.c);
  }

  // The key below goes through `mix` twice and through `final` once.
  lemma {:induction false} FirstMix1()
    ensures MixLine(Abc(0x51232e53, 0x4e11322d, 0x3fce247f), 4) == Abc(0x4e11322d, 0x8ddf56ac, 0xedb74e27)
  {
    Powers();
    MixLineIs(Abc(0x51232e53, 0x4e11322d, 0x3fce247f), 4, 0x115509d4, 0xfce247f3, Abc(0x4e11322d, 0x8ddf56ac, 0xedb74e27));
  }

  lemma {:induction false} FirstMix2()
    ensures MixLine(Abc(0x4e11322d, 0x8ddf56ac, 0xedb74e27), 6) == Abc(0x8ddf56ac, 0x7b96a4d3, 0x0d8a6dfd)
  {
    Powers();
    MixLineIs(Abc(0x4e11322d, 0x8ddf56ac, 0xedb74e27), 6, 0x6059e406, 0x6dd389fb, Abc(0x8ddf56ac, 0x7b96a4d3, 0x0d8a6dfd));
  }

  lemma {:induction false} FirstMix3()
    ensures MixLine(Abc(0x8ddf56ac, 0x7b96a4d3, 0x0d8a6dfd), 8) == Abc(0x7b96a4d3, 0x892112d0, 0x0a3915a2)
  {
    Powers();
    MixLineIs(Abc(0x8ddf56ac, 0x7b96a4d3, 0x0d8a6dfd), 8, 0x8054e8af, 0x8a6dfd0d, Abc(0x7b96a4d3, 0x892112d0, 0x0a3915a2));
  }

  lemma {:induction false} FirstMix4()
    ensures MixLine(Abc(0x7b96a4d3, 0x892112d0, 0x0a3915a2), 16) == Abc(0x892112d0, 0x935a2872, 0x64ff8508)
  {
    Powers();
    MixLineIs(Abc(0x7b96a4d3, 0x892112d0, 0x0a3915a2), 16, 0x715d8f31, 0x15a20a39, Abc(0x892112d0, 0x935a2872, 0x64ff8508));
  }

  lemma {:induction false} FirstMix5()
    ensures MixLine(Abc(0x892112d0, 0x935a2872, 0x64ff8508), 19) == Abc(0x935a2872, 0xf859ad7a, 0x0c62aa34)
  {
    Powers();
    MixLineIs(Abc(0x892112d0, 0x935a2872, 0x64ff8508), 19, 0x24218dc8, 0x284327fc, Abc(0x935a2872, 0xf859ad7a, 0x0c62aa34));
  }

  lemma {:induction false} FirstMix6()
    ensures MixLine(Abc(0x935a2872, 0xf859ad7a, 0x0c62aa34), 4) == Abc(0xf859ad7a, 0x04bc57ae, 0x40dddd7e)
  {
    Powers();
    MixLineIs(Abc(0x935a2872, 0xf859ad7a, 0x0c62aa34), 4, 0x86f77e3e, 0xc62aa340, Abc(0xf859ad7a, 0x04bc57ae, 0x40dddd7e));
  }

  lemma {:induction false} FirstMix()
    ensures Mix(Abc(0x51232e53, 0x4e11322d, 0x3fce247f)) == Abc(0xf859ad7a, 0x04bc57ae, 0x40dddd7e)
  {
    hide MixLine;
    FirstMix1();
    FirstMix2();
    FirstMix3();
    FirstMix4();
    FirstMix5();
    FirstMix6();
  }

  lemma {:induction false} SecondMix1()
    ensures MixLine(Abc(0x6b7a11e8, 0x7321ce13, 0xa243569e), 4) == Abc(0x7321ce13, 0x156524b1, 0xed03d2a0)
  {
    Powers();
    MixLineIs(Abc(0x6b7a11e8, 0x7321ce13, 0xa243569e), 4, 0xc936bb4a, 0x243569ea, Abc(0x7321ce13, 0x156524b1, 0xed03d2a0));
  }

  lemma {:induction false} SecondMix2()
    ensures MixLine(Abc(0x7321ce13, 0x156524b1, 0xed03d2a0), 6) == Abc(0x156524b1, 0x0268f751, 0xc6e95348)
  {
    Powers();
    MixLineIs(Abc(0x7321ce13, 0x156524b1, 0xed03d2a0), 6, 0x861dfb73, 0x40f4a83b, Abc(0x156524b1, 0x0268f751, 0xc6e95348));
  }

  lemma {:induction false} SecondMix3()
    ensures MixLine(Abc(0x156524b1, 0x0268f751, 0xc6e95348), 8) == Abc(0x0268f751, 0xc9524a99, 0xa72899af)
  {
    Powers();
    MixLineIs(Abc(0x156524b1, 0x0268f751, 0xc6e95348), 8, 0x4e7bd169, 0xe95348c6, Abc(0x0268f751, 0xc9524a99, 0xa72899af));
  }

  lemma {:induction false} SecondMix4()
    ensures MixLine(Abc(0x0268f751, 0xc9524a99, 0xa72899af), 16) == Abc(0xc9524a99, 0x707ae448, 0xc2effa8a)
  {
    Powers();
    MixLineIs(Abc(0x0268f751, 0xc9524a99, 0xa72899af), 16, 0x5b405da2, 0x99afa728, Abc(0xc9524a99, 0x707ae448, 0xc2effa8a));
  }

  lemma {:induction false} SecondMix5()
    ensures MixLine(Abc(0xc9524a99, 0x707ae448, 0xc2effa8a), 19) == Abc(0x707ae448, 0x336aded2, 0xd2344770)
  {
    Powers();
    MixLineIs(Abc(0xc9524a99, 0x707ae448, 0xc2effa8a), 19, 0x0662500f, 0xd456177f, Abc(0x707ae448, 0x336aded2, 0xd2344770));
  }

  lemma {:induction false} SecondMix6()
    ensures MixLine(Abc(0x707ae448, 0x336aded2, 0xd2344770), 4) == Abc(0x336aded2, 0x059f2642, 0xbd02ebd5)
  {
    Powers();
    MixLineIs(Abc(0x707ae448, 0x336aded2, 0xd2344770), 4, 0x9e469cd8, 0x2344770d, Abc(0x336aded2, 0x059f2642, 0xbd02ebd5));
  }

  lemma {:induction false} SecondMix()
    ensures Mix(Abc(0x6b7a11e8, 0x7321ce13, 0xa243569e)) == Abc(0x336aded2, 0x059f2642, 0xbd02ebd5)
  {
    hide MixLine;
    SecondMix1();
    SecondMix2();
    SecondMix3();
    SecondMix4();
    SecondMix5();
    SecondMix6();
  }

  lemma {:induction false} LastFinal1()
    ensures FinalLine(Abc(0xbd02ebd5, 0x948b5244, 0x059f95a9), 14) == Abc(0x948b5244, 0x059f95a9, 0xd3333d15)
  {
    Powers();
    FinalLineIs(Abc(0xbd02ebd5, 0x948b5244, 0x059f95a9), 14, 0xb89d7e7c, 0xe56a4167, Abc(0x948b5244, 0x059f95a9, 0xd3333d15));
  }

  lemma {:induction false} LastFinal2()
    ensures FinalLine(Abc(0x948b5244, 0x059f95a9, 0xd3333d15), 11) == Abc(0x059f95a9, 0xd3333d15, 0xadcfc0b8)
  {
    Powers();
    FinalLineIs(Abc(0x948b5244, 0x059f95a9, 0xd3333d15), 11, 0x47b86f51, 0x99e8ae99, Abc(0x059f95a9, 0xd3333d15, 0xadcfc0b8));
  }

  lemma {:induction false} LastFinal3()
    ensures FinalLine(Abc(0x059f95a9, 0xd3333d15, 0xadcfc0b8), 25) == Abc(0xd3333d15, 0xadcfc0b8, 0x36f4b590)
  {
    Powers();
    FinalLineIs(Abc(0x059f95a9, 0xd3333d15, 0xadcfc0b8), 25, 0xa8505511, 0x715b9f81, Abc(0xd3333d15, 0xadcfc0b8, 0x36f4b590));
  }

  lemma {:induction false} LastFinal4()
    ensures FinalLine(Abc(0xd3333d15, 0xadcfc0b8, 0x36f4b590), 16) == Abc(0xadcfc0b8, 0x36f4b590, 0x30375191)
  {
    Powers();
    FinalLineIs(Abc(0xd3333d15, 0xadcfc0b8, 0x36f4b590), 16, 0xe5c78885, 0xb59036f4, Abc(0xadcfc0b8, 0x36f4b590, 0x30375191));
  }

  lemma {:induction false} LastFinal5()
    ensures FinalLine(Abc(0xadcfc0b8, 0x36f4b590, 0x30375191), 4) == Abc(0x36f4b590, 0x30375191, 0x9a837816)
  {
    Powers();
    FinalLineIs(Abc(0xadcfc0b8, 0x36f4b590, 0x30375191), 4, 0x9df89129, 0x03751913, Abc(0x36f4b590, 0x30375191, 0x9a837816));
  }

  lemma {:induction false} LastFinal6()
    ensures FinalLine(Abc(0x36f4b590, 0x30375191, 0x9a837816), 14) == Abc(0x30375191, 0x9a837816, 0xce7226e6)
  {
    Powers();
    FinalLineIs(Abc(0x36f4b590, 0x30375191, 0x9a837816), 14, 0xac77cd86, 0xde05a6a0, Abc(0x30375191, 0x9a837816, 0xce7226e6));
  }

  lemma {:induction false} LastFinal7()
    ensures FinalLine(Abc(0x30375191, 0x9a837816, 0xce7226e6), 24) == Abc(0x9a837816, 0xce7226e6, 0x17770551)
  {
    Powers();
    FinalLineIs(Abc(0x30375191, 0x9a837816, 0xce7226e6), 24, 0xfe457777, 0xe6ce7226, Abc(0x9a837816, 0xce7226e6, 0x17770551));
  }

  lemma {:induction false} LastFinal()
    ensures Final(Abc(0x948b5244, 0x059f95a9, 0xbd02ebd5)) == Abc(0x9a837816, 0xce7226e6, 0x17770551)
  {
    hide FinalLine;
    LastFinal1();
    LastFinal2();
    LastFinal3();
    LastFinal4();
    LastFinal5();
    LastFinal6();
    LastFinal7();
  }

  const TEXT := "Four score and seven years ago"
  const FOUR_SCORE := BytesOf(TEXT)

  // Four of its characters, or the last two and two zero bytes.
  lemma {:induction false} WordIs(i: nat, w: UInt32)
    requires i + 2 <= |TEXT|
    requires TEXT[i] < 128 as char && TEXT[i + 1] < 128 as char
    requires i + 4 <= |TEXT| ==> TEXT[i + 2] < 128 as char && TEXT[i + 3] < 128 as char
    requires w == TEXT[i] as int + 0x100 * TEXT[i + 1] as int
                  + if i + 4 <= |TEXT| then 0x1_0000 * TEXT[i + 2] as int + 0x100_0000 * TEXT[i + 3] as int else 0
    requires i + 3 != |TEXT|
    ensures WordAt(FOUR_SCORE, i) == w
  {
  }

  lemma {:induction false} PastEnd(i: nat)
    requires i >= |TEXT|
    ensures WordAt(FOUR_SCORE, i) == 0
  {
  }

  lemma {:induction false} Block1()
    ensures AddBlock(Abc(0xdeadbf0d, 0xdeadbf0d, 0xdeadbf0d), FOUR_SCORE, 0) == Abc(0x51232e53, 0x4e11322d, 0x3fce247f)
  {
    hide WordAt, ByteAt, BytesOf;
    WordIs(0, 0x72756f46);
    WordIs(4, 0x6f637320);
    WordIs(8, 0x61206572);
  }

  lemma {:induction false} Block2()
    ensures AddBlock(Abc(0xf859ad7a, 0x04bc57ae, 0x40dddd7e), FOUR_SCORE, 12) == Abc(0x6b7a11e8, 0x7321ce13, 0xa243569e)
  {
    hide WordAt, ByteAt, BytesOf;
    WordIs(12, 0x7320646e);
    WordIs(16, 0x6e657665);
    WordIs(20, 0x61657920);
  }

  lemma {:induction false} Block3()
    ensures AddBlock(Abc(0x336aded2, 0x059f2642, 0xbd02ebd5), FOUR_SCORE, 24) == Abc(0x948b5244, 0x059f95a9, 0xbd02ebd5)
  {
    hide WordAt, ByteAt, BytesOf;
    WordIs(24, 0x61207372);
    WordIs(28, 0x00006f67);
    PastEnd(32);
  }

  // "Four score and seven years ago", with both seeds 0.
  lemma {:induction false} FourScore()
    ensures Hash(FOUR_SCORE, 0, 0) == Abc(0x9a837816, 0xce7226e6, 0x17770551)
  {
    Block1();
    Block2();
    Block3();
    FirstMix();
    SecondMix();
    LastFinal();
    FourScoreStarts();
    hide Mix, Final, AddBlock, BytesOf, Start;
    assert |FOUR_SCORE| == 30;
    assert HashFrom(Abc(0x336aded2, 0x059f2642, 0xbd02ebd5), FOUR_SCORE, 24) == Abc(0x9a837816, 0xce7226e6, 0x17770551);
    assert HashFrom(Abc(0xf859ad7a, 0x04bc57ae, 0x40dddd7e), FOUR_SCORE, 12) == Abc(0x9a837816, 0xce7226e6, 0x17770551);
  }

  lemma {:induction false} FourScoreStarts()
    ensures Start(30, 0, 0) == Abc(0xdeadbf0d, 0xdeadbf0d, 0xdeadbf0d)
  {
  }

  // The empty key, with neither seed, the second, and both.
  lemma {:induction false} NoKey()
    ensures var h := Hash([], 0, 0); h.c == 0xdeadbeef && h.b == 0xdeadbeef
    ensures var h := Hash([], 0, 0xdeadbeef); h.c == 0xbd5b7dde && h.b == 0xdeadbeef
    ensures var h := Hash([], 0xdeadbeef, 0xdeadbeef); h.c == 0x9c093ccd && h.b == 0xbd5b7dde
  {
  }

  function BytesOf(s: string): (bytes: seq<Byte>)
    ensures |bytes| == |s|
  {
    var bytes := seq(|s|, i requires 0 <= i < |s| => if s[i] < 128 as char then s[i] as int else 0);
    bytes
  }
}
