/**
 * Runes of a byte string and the words cut out of them.
 *
 * A sentence is decoded into a vector of RuneStr, each of which remembers where in the
 * sentence its bytes are.  A WordRange is a closed interval of rune positions; the words
 * are the bytes under such intervals.
 */
module Unicode {
  import opened Common

  // Bytes and runes are numbers here; masks and shifts are written as % and / by powers of two,
  // and `(x << 6) | y` with y below 64 as 64 * x + y.
  type Rune = x: int | 0 <= x <= UINT32_MAX

  // Offsets and lengths are uint32_t in the source.
  const UINT32_MAX := 0xffff_ffff
  type Uint32 = x: int | 0 <= x <= UINT32_MAX

  datatype RuneStrLite = RuneStrLite(rune: Rune, len: Uint32)

  datatype RuneStr = RuneStr(rune: Rune, offset: Uint32, len: Uint32,
                             unicodeOffset: Uint32, unicodeLength: Uint32)

  datatype WordRange = WordRange(left: nat, right: nat) {
    function Length(): int { right - left + 1 }
  }

  datatype Word = Word(word: seq<Byte>, offset: Uint32, unicodeOffset: Uint32, unicodeLength: Uint32)

  // ---------------------------------------------------------------- one rune

  function Low6(b: Byte): (r: int)
    ensures 0 <= r < 64
  {
    b % 64
  }

  function DecodeRuneInString(s: seq<Byte>): (r: RuneStrLite)
    ensures r.len <= 4 && r.len <= |s|
    ensures r.len == 0 <==> s == [] || s[0] > 0xf7 || |s| < LeadLength(s[0])
  {
    if s == [] then RuneStrLite(0, 0)
    else if s[0] < 0x80 then RuneStrLite(s[0], 1)
    else if s[0] <= 0xdf && 1 < |s| then
      RuneStrLite(64 * (s[0] % 32) + Low6(s[1]), 2)
    else if s[0] <= 0xef && 2 < |s| then
      RuneStrLite(64 * (64 * (s[0] % 16) + Low6(s[1])) + Low6(s[2]), 3)
    else if s[0] <= 0xf7 && 3 < |s| then
      RuneStrLite(64 * (64 * (64 * (s[0] % 8) + Low6(s[1])) + Low6(s[2])) + Low6(s[3]), 4)
    else RuneStrLite(0, 0)
  }

  // How many bytes a lead byte announces; a stray continuation byte counts as a lead of two.
  function LeadLength(b: Byte): nat {
    if b < 0x80 then 1 else if b <= 0xdf then 2 else if b <= 0xef then 3 else 4
  }

  // ---------------------------------------------------------------- all runes of a sentence

  predicate Decodable(s: seq<Byte>) {
    s == [] || (var r := DecodeRuneInString(s); r.len != 0 && Decodable(s[r.len..]))
  }

  // The byte position at which rune k starts; position |runes| is the end of the text.
  function RuneStart(runes: seq<RuneStr>, k: nat): nat
    requires k <= |runes|
  {
    if k < |runes| then runes[k].offset else if k == 0 then 0 else runes[k - 1].offset + runes[k - 1].len
  }

  // Rune k ends where rune k + 1 starts, at or before byte n.
  predicate PlacedAt(runes: seq<RuneStr>, k: nat, n: nat)
    requires k < |runes|
  {
    && 0 < runes[k].len
    && runes[k].offset + runes[k].len == RuneStart(runes, k + 1) <= n
    && runes[k].unicodeOffset == k
    && runes[k].unicodeLength == 1
  }

  // The record says what is written in s at its offset.
  predicate Denotes(s: seq<Byte>, r: RuneStr) {
    r.offset <= |s| && DecodeRuneInString(s[r.offset..]) == RuneStrLite(r.rune, r.len)
  }

  // The runes lie side by side over the first n bytes of s and say what is written there.
  ghost predicate Tiles(s: seq<Byte>, runes: seq<RuneStr>, n: nat) {
    && n <= |s|
    && RuneStart(runes, 0) == 0
    && RuneStart(runes, |runes|) == n
    && (forall k | 0 <= k < |runes| :: PlacedAt(runes, k, n))
    && (forall k | 0 <= k < |runes| :: Denotes(s, runes[k]))
  }

  method DecodeRunesInString(s: seq<Byte>) returns (ok: bool, runes: seq<RuneStr>)
    requires |s| <= UINT32_MAX
    ensures ok <==> Decodable(s)
    ensures ok ==> Tiles(s, runes, |s|)
    ensures !ok ==> runes == []
  {
    hide DecodeRuneInString;
    runes := [];
    var i, j := 0, 0;
    while i < |s|
      invariant 0 <= i <= |s| && 0 <= j == |runes| <= i
      invariant Decodable(s) <==> Decodable(s[i..])
      invariant Tiles(s, runes, i)
    {
      var rp := DecodeRuneInString(s[i..]);
      if rp.len == 0 {
        return false, [];
      }
      var x := RuneStr(rp.rune, i, rp.len, j, 1);
      ghost var before := runes;
      runes := runes + [x];
      assert s[i..][rp.len..] == s[i + rp.len..];
      ghost var was := i;
      i := i + rp.len;
      forall k: nat | k < |runes| ensures PlacedAt(runes, k, i) {
        assert k < |before| ==> PlacedAt(before, k, was);
      }
      j := j + 1;
    }
    assert s[i..] == [];
    return true, runes;
  }

  lemma {:induction false} RuneStartMonotone(s: seq<Byte>, runes: seq<RuneStr>, n: nat, a: nat, b: nat)
    requires Tiles(s, runes, n) && a <= b <= |runes|
    ensures a + RuneStart(runes, b) >= b + RuneStart(runes, a)
    ensures RuneStart(runes, b) <= n
    decreases b - a
  {
    hide DecodeRuneInString;
    if a == b {
      assert a < |runes| ==> PlacedAt(runes, a, n);
    } else {
      RuneStartMonotone(s, runes, n, a + 1, b);
      assert PlacedAt(runes, a, n);
    }
  }

  // ---------------------------------------------------------------- words

  // The ranges follow each other without gap or overlap from rune b up to, not including, rune e.
  ghost predicate Covers(wrs: seq<WordRange>, b: nat, e: nat) {
    if wrs == [] then b == e
    else wrs[0].left == b && b <= wrs[0].right < e && Covers(wrs[1..], wrs[0].right + 1, e)
  }

  lemma {:induction false} CoversIff(wrs: seq<WordRange>, b: nat, e: nat)
    ensures Covers(wrs, b, e) <==>
              if wrs == [] then b == e
              else
                && wrs[0].left == b && wrs[|wrs| - 1].right + 1 == e
                && (forall k | 0 <= k < |wrs| :: wrs[k].left <= wrs[k].right)
                && (forall k | 0 < k < |wrs| :: wrs[k].left == wrs[k - 1].right + 1)
    ensures Covers(wrs, b, e) ==> b <= e
  {
    if wrs != [] {
      var rest := wrs[1..];
      CoversIff(rest, wrs[0].right + 1, e);
      assert forall k | 0 < k < |wrs| :: wrs[k] == rest[k - 1];
    }
  }

  lemma {:induction false} CoversConcat(x: seq<WordRange>, y: seq<WordRange>, b: nat, m: nat, e: nat)
    requires Covers(x, b, m) && Covers(y, m, e)
    ensures Covers(x + y, b, e)
    ensures b <= m <= e
    decreases |x| + |y|
  {
    if x == [] {
      assert x + y == y;
      if y != [] {
        CoversConcat([], y[1..], y[0].right + 1, y[0].right + 1, e);
      }
    } else {
      CoversConcat(x[1..], y, x[0].right + 1, m, e);
      assert (x + y)[1..] == x[1..] + y;
    }
  }

  lemma {:induction false} CoversAppend(x: seq<WordRange>, b: nat, l: nat, r: nat)
    requires Covers(x, b, l) && l <= r
    ensures Covers(x + [WordRange(l, r)], b, r + 1)
  {
    assert Covers([WordRange(l, r)], l, r + 1);
    CoversConcat(x, [WordRange(l, r)], b, l, r + 1);
  }

  lemma {:induction false} CoversSplit(x: seq<WordRange>, b: nat, e: nat, k: nat)
    requires Covers(x, b, e) && k < |x|
    ensures b <= x[k].left <= x[k].right < e
    ensures Covers(x[..k], b, x[k].left) && Covers(x[k + 1..], x[k].right + 1, e)
  {
    if k == 0 {
      assert x[..0] == [];
      CoversConcat([], x[1..], x[0].right + 1, x[0].right + 1, e);
    } else {
      CoversSplit(x[1..], x[0].right + 1, e, k - 1);
      assert x[..k][1..] == x[1..][..k - 1];
      assert x[1..][k - 1 + 1..] == x[k + 1..];
    }
  }

  // The word is the bytes under its runes, and it knows where they are.
  ghost predicate Spells(s: seq<Byte>, runes: seq<RuneStr>, wr: WordRange, w: Word) {
    && wr.left <= wr.right < |runes|
    && var at, to := RuneStart(runes, wr.left), RuneStart(runes, wr.right + 1);
    && at < to <= |s|
    && w.word == s[at..to]
    && w.offset == at
    && w.unicodeOffset == wr.left
    && w.unicodeLength == wr.Length()
  }

  function GetWordFromRunes(s: seq<Byte>, runes: seq<RuneStr>, wr: WordRange): (w: Word)
    requires |s| <= UINT32_MAX && Tiles(s, runes, |s|) && wr.left <= wr.right < |runes|
    ensures Spells(s, runes, wr, w)
  {
    WordSpan(s, runes, wr);
    var left, right := runes[wr.left], runes[wr.right];
    var len: Uint32 := right.offset - left.offset + right.len;
    var unicodeLength: Uint32 := right.unicodeOffset - left.unicodeOffset + right.unicodeLength;
    Word(s[left.offset..left.offset + len], left.offset, left.unicodeOffset, unicodeLength)
  }

  lemma {:induction false} WordSpan(s: seq<Byte>, runes: seq<RuneStr>, wr: WordRange)
    requires Tiles(s, runes, |s|) && wr.left <= wr.right < |runes|
    ensures var left, right := runes[wr.left], runes[wr.right];
            && left.offset <= right.offset && left.unicodeOffset == wr.left && right.unicodeOffset == wr.right
            && right.unicodeLength == 1 && right.len > 0
            && wr.right < right.offset + right.len == RuneStart(runes, wr.right + 1) <= |s|
  {
    hide DecodeRuneInString;
    RuneStartMonotone(s, runes, |s|, 0, wr.right + 1);
    RuneStartMonotone(s, runes, |s|, wr.left, wr.right);
    assert PlacedAt(runes, wr.left, |s|) && PlacedAt(runes, wr.right, |s|);
  }

  // The words are non-empty, stand side by side in s from byte `at` to byte `to`, and know where they are.
  ghost predicate Consecutive(s: seq<Byte>, words: seq<Word>, at: nat, to: nat) {
    if words == [] then at == to
    else
      && at <= |s|
      && words[0].offset == at
      && words[0].word != []
      && words[0].word <= s[at..]
      && Consecutive(s, words[1..], at + |words[0].word|, to)
  } 

  function Strings(words: seq<Word>): seq<seq<Byte>> {
    seq(|words|, i requires 0 <= i < |words| => words[i].word)
  }

  function Flatten(strs: seq<seq<Byte>>): seq<Byte> {
    if strs == [] then [] else strs[0] + Flatten(strs[1..])
  }

  lemma {:induction false} ConsecutiveFlatten(s: seq<Byte>, words: seq<Word>, at: nat, to: nat)
    requires at <= |s| && Consecutive(s, words, at, to)
    ensures at <= to <= |s|
    ensures Flatten(Strings(words)) == s[at..to]
  {
    if words != [] {
      ConsecutiveFlatten(s, words[1..], at + |words[0].word|, to);
      assert Strings(words)[1..] == Strings(words[1..]);
      assert s[at..to] == s[at..at + |words[0].word|] + s[at + |words[0].word|..to];
    }
  }

  method GetWordsFromWordRanges(s: seq<Byte>, runes: seq<RuneStr>, wrs: seq<WordRange>) returns (words: seq<Word>)
    requires |s| <= UINT32_MAX && (runes == [] || Tiles(s, runes, |s|))
    requires forall k | 0 <= k < |wrs| :: wrs[k].left <= wrs[k].right < |runes|
    ensures |words| == |wrs|
    ensures forall k | 0 <= k < |wrs| :: Spells(s, runes, wrs[k], words[k])
    ensures Tiles(s, runes, |s|) && Covers(wrs, 0, |runes|) ==> Consecutive(s, words, 0, |s|)
  {
    words := [];
    for i := 0 to |wrs|
      invariant |words| == i
      invariant forall k | 0 <= k < i :: Spells(s, runes, wrs[k], words[k])
    {
      words := words + [GetWordFromRunes(s, runes, wrs[i])];
    }
    if Tiles(s, runes, |s|) && Covers(wrs, 0, |runes|) {
      WordsConsecutive(s, runes, wrs, words, 0);
    }
  }

  lemma {:induction false} WordsConsecutive(s: seq<Byte>, runes: seq<RuneStr>, wrs: seq<WordRange>, words: seq<Word>, b: nat)
    requires RuneStart(runes, |runes|) == |s| && b <= |runes| && Covers(wrs, b, |runes|) && |words| == |wrs|
    requires forall k | 0 <= k < |wrs| :: Spells(s, runes, wrs[k], words[k])
    ensures Consecutive(s, words, RuneStart(runes, b), |s|)
  {
    if wrs != [] {
      assert Spells(s, runes, wrs[0], words[0]);
      WordsConsecutive(s, runes, wrs[1..], words[1..], wrs[0].right + 1);
    }
  }

  // ---------------------------------------------------------------- UTF-8

  // RFC 3629, section 3: the bytes of a code point (kept up to 21 bits, as the source does).
  function Utf8(c: Rune): seq<Byte>
    requires c < 0x20_0000
  {
    var (d, e, f) := (c / 64, c / 64 / 64, c / 64 / 64 / 64);
    if c < 0x80 then [c]
    else if c < 0x800 then [0xc0 + d, 0x80 + c % 64]
    else if c < 0x1_0000 then [0xe0 + e, 0x80 + d % 64, 0x80 + c % 64]
    else [0xf0 + f, 0x80 + e % 64, 0x80 + d % 64, 0x80 + c % 64]
  }

  // The marks of its bytes and the bits between them, in as few bytes as the code point fits in.
  lemma {:induction false} Utf8Is(c: Rune)
    requires c < 0x20_0000
    ensures var u := Utf8(c);
            && (forall k | 1 <= k < |u| :: 0x80 <= u[k] < 0xc0)
            && if c < 0x80 then |u| == 1 && u[0] == c
               else if c < 0x800 then |u| == 2 && 0xc0 <= u[0] < 0xe0 && c == 64 * (u[0] as int - 0xc0) + (u[1] as int - 0x80)
               else if c < 0x1_0000 then
                 |u| == 3 && 0xe0 <= u[0] < 0xf0
                 && c == 0x1000 * (u[0] as int - 0xe0) + 64 * (u[1] as int - 0x80) + (u[2] as int - 0x80)
               else
                 && |u| == 4 && 0xf0 <= u[0] < 0xf8
                 && c == 0x4_0000 * (u[0] as int - 0xf0) + 0x1000 * (u[1] as int - 0x80)
                         + 64 * (u[2] as int - 0x80) + (u[3] as int - 0x80)
  {
    var (d, e, f) := (c / 64, c / 64 / 64, c / 64 / 64 / 64);
    assert c == 64 * d + c % 64 && d == 64 * e + d % 64 && e == 64 * f + e % 64;
  }

  lemma {:induction false} DecodeOne(c: nat, rest: seq<Byte>)
    requires c < 128
    ensures DecodeRuneInString([c] + rest) == RuneStrLite(c, 1)
  {
    assert ([c] + rest)[0] == c;
  }

  lemma {:induction false} DecodeTwo(d: nat, x: nat, rest: seq<Byte>)
    requires d < 32 && x < 64
    ensures DecodeRuneInString([0xc0 + d, 0x80 + x] + rest) == RuneStrLite(64 * d + x, 2)
  {
    var s := [0xc0 + d, 0x80 + x] + rest;
    assert s[0] == 0xc0 + d && s[1] == 0x80 + x;
  }

  lemma {:induction false} DecodeThree(e: nat, y: nat, x: nat, rest: seq<Byte>)
    requires e < 16 && y < 64 && x < 64
    ensures DecodeRuneInString([0xe0 + e, 0x80 + y, 0x80 + x] + rest) == RuneStrLite(64 * (64 * e + y) + x, 3)
  {
    var s := [0xe0 + e, 0x80 + y, 0x80 + x] + rest;
    assert s[0] == 0xe0 + e && s[1] == 0x80 + y && s[2] == 0x80 + x;
  }

  lemma {:induction false} DecodeFour(f: nat, z: nat, y: nat, x: nat, rest: seq<Byte>)
    requires f < 8 && z < 64 && y < 64 && x < 64
    ensures DecodeRuneInString([0xf0 + f, 0x80 + z, 0x80 + y, 0x80 + x] + rest)
              == RuneStrLite(64 * (64 * (64 * f + z) + y) + x, 4)
  {
    var s := [0xf0 + f, 0x80 + z, 0x80 + y, 0x80 + x] + rest;
    assert s[0] == 0xf0 + f && s[1] == 0x80 + z && s[2] == 0x80 + y && s[3] == 0x80 + x;
  }

  // A code point is decoded from its UTF-8 form.
  lemma {:induction false} DecodeUtf8(c: Rune, rest: seq<Byte>)
    requires c < 0x20_0000
    ensures DecodeRuneInString(Utf8(c) + rest) == RuneStrLite(c, |Utf8(c)|)
  {
    hide Low6;
    var (d, e, f) := (c / 64, c / 64 / 64, c / 64 / 64 / 64);
    if 0x80 <= c < 0x800 {
      DecodeTwo(d, c % 64, rest);
    } else if 0x800 <= c < 0x1_0000 {
      DecodeThree(e, d % 64, c % 64, rest);
    } else if 0x1_0000 <= c {
      DecodeFour(f, e % 64, d % 64, c % 64, rest);
    }
  }

  function EncodeText(cs: seq<Rune>): seq<Byte>
    requires forall k | 0 <= k < |cs| :: cs[k] < 0x20_0000
  {
    if cs == [] then [] else Utf8(cs[0]) + EncodeText(cs[1..])
  }

  // Text in UTF-8 always decodes.
  lemma {:induction false} EncodedDecodes(cs: seq<Rune>)
    requires forall k | 0 <= k < |cs| :: cs[k] < 0x20_0000
    ensures Decodable(EncodeText(cs))
  {
    if cs != [] {
      EncodedDecodes(cs[1..]);
      DecodeUtf8(cs[0], EncodeText(cs[1..]));
      assert EncodeText(cs)[|Utf8(cs[0])|..] == EncodeText(cs[1..]);
    }
  }
}
