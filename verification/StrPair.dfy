/**
 * tinyxml2's strings: escaping on the way out, and the lazy in-place decoding of StrPair::GetStr
 * on the way in.
 *
 * Text is a sequence of byte-valued chars without NUL; the NUL that ends a C string is what At()
 * reads one past the end.
 */
module StrPair {
  import opened Common
  import Unicode

  const NUL := 0 as char
  const LF := '\n'
  const CR := '\r'

  function At(s: string, i: nat): char {
    if i < |s| then s[i] else NUL
  }

  ghost predicate NulFree(s: string) {
    forall k | 0 <= k < |s| :: s[k] != NUL
  }

  // What a C string shows of the characters it is made of: those before the first NUL.
  function CString(s: string): (c: string)
    ensures c <= s && NulFree(c) && (NulFree(s) ==> c == s) && (!NulFree(s) ==> |c| < |s| && s[|c|] == NUL)
  {
    if s == "" || s[0] == NUL then "" else [s[0]] + CString(s[1..])
  }

  lemma {:induction false} CStringEnds(s: string, n: nat)
    requires n <= |s| && NulFree(s[..n]) && (n == |s| || s[n] == NUL)
    ensures CString(s) == s[..n]
  {
    if n > 0 {
      assert s[..n][0] == s[0] && s[..n][1..] == s[1..][..n - 1];
      CStringEnds(s[1..], n - 1);
    }
  }

  // ---------------------------------------------------------------- the entity table

  datatype Entity = Entity(pattern: string, value: char)

  const ENTITIES := [Entity("quot", '\"'), Entity("amp", '&'), Entity("apos", '\''), Entity("lt", '<'), Entity("gt", '>')]

  // Below, t is the text from the read pointer on.

  // Whether "pattern;" follows the '&' that t starts with.
  predicate Names(t: string, pattern: string) {
    |pattern| + 1 < |t| && t[1..|pattern| + 1] == pattern && t[|pattern| + 1] == ';'
  }

  function FindEntity(t: string, i: nat): (r: int)
    requires i <= |ENTITIES|
    ensures r < |ENTITIES|
    ensures r >= 0 ==> Names(t, ENTITIES[r].pattern)
    decreases |ENTITIES| - i
  {
    if i == |ENTITIES| then -1 else if Names(t, ENTITIES[i].pattern) then i else FindEntity(t, i + 1)
  }

  // The first entity of the table whose name follows, or -1 if none does.
  lemma {:induction false} FindEntityIsFirst(t: string, i: nat)
    requires i <= |ENTITIES|
    ensures var r := FindEntity(t, i);
            && (r == -1 <==> forall k | i <= k < |ENTITIES| :: !Names(t, ENTITIES[k].pattern))
            && (r != -1 ==> i <= r && forall k | i <= k < r :: !Names(t, ENTITIES[k].pattern))
    decreases |ENTITIES| - i
  {
    hide Names;
    if i < |ENTITIES| && !Names(t, ENTITIES[i].pattern) {
      FindEntityIsFirst(t, i + 1);
    }
  }

  // ---------------------------------------------------------------- numeric references

  const UINT := 0x1_0000_0000
  const ULONG := 0x1_0000_0000_0000_0000

  function Digit(c: char, base: nat): (d: int)
    ensures d < 16
  {
    if '0' <= c <= '9' then c as int - '0' as int
    else if base == 16 && 'a' <= c <= 'f' then c as int - 'a' as int + 10
    else if base == 16 && 'A' <= c <= 'F' then c as int - 'A' as int + 10
    else -1
  }

  // strchr
  function Find(s: string, c: char, i: nat): (r: int)
    ensures r == -1 || (i <= r < |s| && s[r] == c)
    ensures forall k | i <= k < (if r == -1 then |s| else r) :: s[k] != c
    decreases |s| - i
  {
    if i >= |s| then -1 else if s[i] == c then i else Find(s, c, i + 1)
  }

  function AddDigit(ucs: nat, mult: nat, digit: nat): (r: nat)
    ensures r < ULONG
  {
    (ucs + mult * digit % UINT) % ULONG
  }

  function NextMult(mult: nat, base: nat): (r: nat)
    ensures r < UINT
  {
    mult * base % UINT
  }

  // Reads digits from i backwards until the stop character, in 32-bit and 64-bit arithmetic; -1 if a
  // non-digit comes first.  The stop character is not looked for in any particular place: the last one counts.
  function ReadBack(s: string, i: int, stop: char, base: nat, mult: nat, ucs: nat): (r: int)
    requires -1 <= i < |s| && ucs < ULONG
    ensures r < ULONG
    decreases i + 1
  {
    if i < 0 then -1
    else if s[i] == stop then ucs
    else if Digit(s[i], base) < 0 then -1
    else ReadBack(s, i - 1, stop, base, NextMult(mult, base), AddDigit(ucs, mult, Digit(s[i], base)))
  }

  function Chars(bytes: seq<Byte>): (r: string)
    ensures |r| == |bytes|
  {
    seq(|bytes|, i requires 0 <= i < |bytes| => bytes[i] as char)
  }

  // Nothing is written for a number above 21 bits.
  function ConvertUTF32ToUTF8(input: nat): (r: string)
    ensures |r| <= 4
    ensures input < 0x80 ==> |r| == 1
  {
    if input < 0x80 then [input as char]
    else if input < 0x800 then [(0xC0 + input / 64) as char, (0x80 + input % 64) as char]
    else if input < 0x1_0000 then
      [(0xE0 + input / 64 / 64) as char, (0x80 + input / 64 % 64) as char, (0x80 + input % 64) as char]
    else if input < 0x20_0000 then
      [(0xF0 + input / 64 / 64 / 64) as char, (0x80 + input / 64 / 64 % 64) as char,
       (0x80 + input / 64 % 64) as char, (0x80 + input % 64) as char]
    else []
  }

  lemma {:induction false} ConvertIsUtf8(c: Unicode.Rune)
    requires c < 0x20_0000
    ensures ConvertUTF32ToUTF8(c) == Chars(Unicode.Utf8(c))
  {
  }

  datatype Ref = NoRef | Ref(out: string, len: nat)

  // t starts with "&#".
  function CharacterRef(t: string): (r: Ref)
    requires 1 < |t| && t[0] == '&' && t[1] == '#'
    ensures r.Ref? ==> 0 < r.len <= |t| && |r.out| <= r.len
  {
    if |t| == 2 then Ref("", 1)
    else
      var hex := t[2] == 'x';
      var q := Find(t, ';', if hex then 3 else 2);
      if q == -1 then NoRef
      else
        var ucs := ReadBack(t, q - 1, if hex then 'x' else '#', if hex then 16 else 10, 1, 0);
        if ucs < 0 then NoRef
        else
          RefIsLongEnough(t, q, hex);
          Ref(ConvertUTF32ToUTF8(ucs), q + 1)
  }

  // "&#;" and "&#x;" stand for 0, which takes one byte; any other reference has four characters or more.
  lemma {:induction false} RefIsLongEnough(t: string, q: nat, hex: bool)
    requires 1 < q < |t| && t[1] == '#' && (hex ==> q > 2 && t[2] == 'x')
    requires ReadBack(t, q - 1, if hex then 'x' else '#', if hex then 16 else 10, 1, 0) >= 0
    ensures |ConvertUTF32ToUTF8(ReadBack(t, q - 1, if hex then 'x' else '#', if hex then 16 else 10, 1, 0))| <= q + 1
  {
  }

  method GetCharacterRef(t: string) returns (r: Ref)
    requires 1 < |t| && t[0] == '&' && t[1] == '#'
    ensures r == CharacterRef(t)
  {
    if |t| == 2 {
      return Ref("", 1);
    }
    var hex := t[2] == 'x';
    var q := Find(t, ';', if hex then 3 else 2);
    if q == -1 {
      return NoRef;
    }
    var stop, base := if hex then 'x' else '#', if hex then 16 else 10;
    var delta := q;
    var ucs: nat, mult: nat := 0, 1;
    q := q - 1;
    while t[q] != stop
      invariant 1 <= q < |t| && (hex ==> 2 <= q)
      invariant ucs < ULONG
      invariant ReadBack(t, q, stop, base, mult, ucs) == ReadBack(t, delta - 1, stop, base, 1, 0)
      decreases q
    {
      var digit := Digit(t[q], base);
      if digit < 0 {
        return NoRef;
      }
      ucs := AddDigit(ucs, mult, digit);
      mult := NextMult(mult, base);
      q := q - 1;
    }
    return Ref(ConvertUTF32ToUTF8(ucs), delta + 1);
  }

  // ---------------------------------------------------------------- one pass over the text

  datatype Flags = Flags(entities: bool, newlines: bool)

  // Emit: these characters are written and `len` are read, never more than are read.
  // Skip: both pointers move by one and nothing is written.
  datatype Step = Emit(out: string, len: nat) | Skip {
    function Reads(): nat { if Emit? then len else 1 }

    function Writes(): nat { if Emit? then |out| else 1 }

    predicate Fits(n: nat) { Writes() <= Reads() && 0 < Reads() <= n }
  }

  function StepAt(t: string, f: Flags): (r: Step)
    requires t != ""
    ensures r.Fits(|t|)
  {
    if f.newlines && t[0] == CR then Emit([LF], if At(t, 1) == LF then 2 else 1)
    else if f.newlines && t[0] == LF then Emit([LF], if At(t, 1) == CR then 2 else 1)
    else if f.entities && t[0] == '&' then
      if At(t, 1) == '#' then
        var r := CharacterRef(t);
        if r.NoRef? then Emit("&", 1) else Emit(r.out, r.len)
      else
        var i := FindEntity(t, 0);
        if i >= 0 then Emit([ENTITIES[i].value], |ENTITIES[i].pattern| + 2) else Skip
    else Emit([t[0]], 1)
  }

  ghost function Steps(t: string, f: Flags): (r: seq<Step>)
    ensures Paced(r, |t|)
    decreases |t|
  {
    if t == "" then [] else var step := StepAt(t, f); [step] + Steps(t[step.Reads()..], f)
  }

  // The steps read n characters between them.
  ghost predicate Paced(steps: seq<Step>, n: nat) {
    if steps == [] then n == 0 else steps[0].Fits(n) && Paced(steps[1..], n - steps[0].Reads())
  }

  // What the steps leave of s from q on, when they read it from p: a skipped position keeps whatever
  // the text had there.
  ghost function Rewrite(s: string, steps: seq<Step>, p: nat, q: nat): string
    requires q <= p <= |s| && Paced(steps, |s| - p)
  {
    if steps == [] then ""
    else
      (if steps[0].Emit? then steps[0].out else [s[q]])
        + Rewrite(s, steps[1..], p + steps[0].Reads(), q + steps[0].Writes())
  }

  // Decoding as one would define it: an '&' that starts nothing stands for itself.
  ghost function Decode(steps: seq<Step>): string {
    if steps == [] then "" else (if steps[0].Emit? then steps[0].out else "&") + Decode(steps[1..])
  }

  // Every skipped '&' falls, after the shortening so far, on a place where the text had an '&' too.
  ghost predicate SkipsOnAmpersands(s: string, steps: seq<Step>, p: nat, q: nat)
    requires q <= p <= |s| && Paced(steps, |s| - p)
  {
    steps == [] ||
    ((steps[0].Skip? ==> s[q] == '&') &&
     SkipsOnAmpersands(s, steps[1..], p + steps[0].Reads(), q + steps[0].Writes()))
  }

  ghost function InPlace(s: string, f: Flags): string {
    Rewrite(s, Steps(s, f), 0, 0)
  }

  ghost function Decoded(s: string, f: Flags): string {
    Decode(Steps(s, f))
  }

  // The in-place pass decodes the text exactly when that holds.
  lemma {:induction false} RewriteDecodesIff(s: string, steps: seq<Step>, p: nat, q: nat)
    requires q <= p <= |s| && Paced(steps, |s| - p)
    ensures |Rewrite(s, steps, p, q)| == |Decode(steps)| <= |s| - p
    ensures Rewrite(s, steps, p, q) == Decode(steps) <==> SkipsOnAmpersands(s, steps, p, q)
    decreases |steps|
  {
    if steps != [] {
      var p', q' := p + steps[0].Reads(), q + steps[0].Writes();
      var x, y := Rewrite(s, steps[1..], p', q'), Decode(steps[1..]);
      assert steps[0].Emit? ==> Rewrite(s, steps, p, q) == steps[0].out + x && Decode(steps) == steps[0].out + y;
      assert steps[0].Skip? ==> Rewrite(s, steps, p, q) == [s[q]] + x && Decode(steps) == "&" + y;
      assert SkipsOnAmpersands(s, steps, p, q) ==
             ((steps[0].Skip? ==> s[q] == '&') && SkipsOnAmpersands(s, steps[1..], p', q'));
      hide Rewrite, Decode, SkipsOnAmpersands;
      RewriteDecodesIff(s, steps[1..], p', q');
      if steps[0].Emit? {
        SamePrefix(steps[0].out, x, y);
      } else {
        SameHead(s[q], '&', x, y);
      }
    }
  }

  lemma {:induction false} InPlaceDecodesIff(s: string, f: Flags)
    ensures |InPlace(s, f)| == |Decoded(s, f)| <= |s|
    ensures InPlace(s, f) == Decoded(s, f) <==> SkipsOnAmpersands(s, Steps(s, f), 0, 0)
  {
    RewriteDecodesIff(s, Steps(s, f), 0, 0);
  }

  // It does fail: behind a shortened entity, an ampersand that starts nothing is lost.
  lemma {:induction false} SkipGoesWrong()
    ensures InPlace("&lt;&x", Flags(true, true)) == "<lx" && Decoded("&lt;&x", Flags(true, true)) == "<&x"
  {
    hide CharacterRef, FindEntity;
    var s, f := "&lt;&x", Flags(true, true);
    IsLt(s);
    assert StepAt(s, f) == Emit("<", 4) && s[4..] == "&x";
    IsNoEntity("&x");
    assert StepAt("&x", f) == Skip && "&x"[1..] == "x";
    assert StepAt("x", f) == Emit("x", 1) && "x"[1..] == "";
    assert Steps("x", f) == [Emit("x", 1)];
    assert Steps("&x", f) == [Skip, Emit("x", 1)];
    var steps := Steps(s, f);
    assert steps == [Emit("<", 4), Skip, Emit("x", 1)];
    assert steps[1..] == [Skip, Emit("x", 1)] && steps[1..][1..] == [Emit("x", 1)] && steps[1..][1..][1..] == [];
    assert Rewrite(s, steps[1..][1..], 5, 2) == "x" && Decode(steps[1..][1..]) == "x";
    assert Rewrite(s, steps[1..], 4, 1) == "lx" && Decode(steps[1..]) == "&x";
  }

  lemma {:induction false} IsLt(s: string)
    requires s == "&lt;&x"
    ensures FindEntity(s, 0) == 3
  {
    assert s[1..3] == "lt";
    assert s[1..5][0] == 'l' && s[1..4][0] == 'l';
    assert FindEntity(s, 3) == 3;
    assert FindEntity(s, 2) == 3 && FindEntity(s, 1) == 3;
  }

  lemma {:induction false} IsNoEntity(s: string)
    requires |s| == 2
    ensures FindEntity(s, 0) == -1
  {
    assert FindEntity(s, 5) == -1;
    assert FindEntity(s, 4) == -1;
    assert FindEntity(s, 3) == -1;
    assert FindEntity(s, 2) == -1;
    assert FindEntity(s, 1) == -1;
  }

  lemma {:induction false} SameHead(a: char, b: char, x: string, y: string)
    ensures [a] + x == [b] + y <==> a == b && x == y
  {
    assert ([a] + x)[0] == a && ([b] + y)[0] == b && ([a] + x)[1..] == x && ([b] + y)[1..] == y;
  }

  lemma {:induction false} SamePrefix(a: string, x: string, y: string)
    ensures a + x == a + y <==> x == y
  {
    assert (a + x)[|a|..] == x && (a + y)[|a|..] == y;
  }

  // ---------------------------------------------------------------- the pass itself

  // The text lies in buffer[start..end]; what GetStr makes of it starts at `start` and ends at the NUL.
  method GetStr(buffer: array<char>, start: nat, end: nat, f: Flags) returns (q: nat)
    requires start <= end < buffer.Length
    modifies buffer
    ensures start <= q <= end
    ensures buffer[start..q] == InPlace(old(buffer[start..end]), f) && buffer[q] == NUL
    ensures buffer[..start] == old(buffer[..start]) && buffer[end + 1..] == old(buffer[end + 1..])
  {
    ghost var s := buffer[start..end];
    buffer[end] := NUL;
    assert buffer[start..end] == s;
    q := Pass(buffer, start, end, f, s);
    assert buffer[start..q] == InPlace(s, f);
    buffer[q] := NUL;
  }

  ghost predicate Holds(buffer: array<char>, at: nat, s: string)
    requires at + |s| <= buffer.Length
    reads buffer
  {
    forall k | at <= k < at + |s| :: buffer[k] == s[k - at]
  }

  method Pass(buffer: array<char>, start: nat, end: nat, f: Flags, ghost s: string) returns (q: nat)
    requires start <= end <= buffer.Length && |s| == end - start && Holds(buffer, start, s)
    modifies buffer
    ensures start <= q <= end && |InPlace(s, f)| == q - start && Holds(buffer, start, InPlace(s, f))
    ensures forall k | 0 <= k < buffer.Length && !(start <= k < end) :: buffer[k] == old(buffer[k])
  {
    hide Steps, Rewrite, InPlace;
    ghost var steps, done := Steps(s, f), "";
    var p := start;
    q := start;
    BeforePass(s, f);
    assert Holds(buffer, start, done) && Holds(buffer, start, s[0..]);
    while p < end
      invariant start <= q <= p <= end && |done| == q - start
      invariant Holds(buffer, start, done) && Holds(buffer, q, s[q - start..])
      invariant forall k | 0 <= k < buffer.Length && !(start <= k < end) :: buffer[k] == old(buffer[k])
      invariant steps == Steps(s[p - start..], f) && Paced(steps, end - p)
      invariant done + Rewrite(s, steps, p - start, q - start) == InPlace(s, f)
      decreases end - p
    {
      ghost var step, out;
      ghost var p0, q0 := p, q;
      p, q, step, out := TakeStep(buffer, start, end, p, q, f, s, done);
      Advance(s, f, steps, p0 - start, q0 - start, done, step, out);
      steps, done := steps[1..], done + out;
    }
    AfterPass(s, f, steps, q - start);
    assert done + "" == done;
  }

  lemma {:induction false} BeforePass(s: string, f: Flags)
    ensures Steps(s, f) == Steps(s[0..], f) && Paced(Steps(s, f), |s|)
    ensures "" + Rewrite(s, Steps(s, f), 0, 0) == InPlace(s, f)
  {
    assert s[0..] == s;
  }

  lemma {:induction false} AfterPass(s: string, f: Flags, steps: seq<Step>, q: nat)
    requires q <= |s| && steps == Steps(s[|s|..], f) && Paced(steps, 0)
    ensures Rewrite(s, steps, |s|, q) == ""
  {
  }

  // One turn of the loop: what is written joins what is done, and the text not yet overwritten is as it was.
  method TakeStep(buffer: array<char>, start: nat, end: nat, p: nat, q: nat, f: Flags, ghost s: string, ghost done: string)
    returns (p': nat, q': nat, ghost step: Step, ghost out: string)
    requires start <= q <= p < end <= buffer.Length && |s| == end - start && |done| == q - start
    requires Holds(buffer, start, done) && Holds(buffer, q, s[q - start..])
    modifies buffer
    ensures step.Fits(end - p) && p' == p + step.Reads() && q' == q + step.Writes()
    ensures out == if step.Emit? then step.out else [s[q - start]]
    ensures Steps(s[p - start..], f) == [step] + Steps(s[p' - start..], f)
    ensures Holds(buffer, start, done + out) && Holds(buffer, q', s[q' - start..])
    ensures forall k | 0 <= k < buffer.Length && !(start <= k < end) :: buffer[k] == old(buffer[k])
  {
    hide StepAt, Steps;
    assert buffer[p..end] == s[p - start..];
    var st := NextStep(buffer[p..end], f);
    step := st;
    assert s[p - start..][st.Reads()..] == s[p - start + st.Reads()..];
    out := if st.Emit? then st.out else [s[q - start]];
    if st.Emit? {
      Put(buffer, q, st.out);
    }
    p', q' := p + st.Reads(), q + st.Writes();
  }

  method Put(buffer: array<char>, q: nat, out: string)
    requires q + |out| <= buffer.Length
    modifies buffer
    ensures Holds(buffer, q, out)
    ensures forall k | 0 <= k < buffer.Length && !(q <= k < q + |out|) :: buffer[k] == old(buffer[k])
  {
    forall k | 0 <= k < |out| {
      buffer[q + k] := out[k];
    }
  }

  lemma {:induction false} Advance(s: string, f: Flags, steps: seq<Step>, p: nat, q: nat, done: string, step: Step, out: string)
    requires q <= p < |s| && step.Fits(|s| - p)
    requires steps == Steps(s[p..], f) == [step] + Steps(s[p + step.Reads()..], f)
    requires out == if step.Emit? then step.out else [s[q]]
    ensures steps[1..] == Steps(s[p + step.Reads()..], f) && Paced(steps[1..], |s| - p - step.Reads())
    ensures done + Rewrite(s, steps, p, q)
              == (done + out) + Rewrite(s, steps[1..], p + step.Reads(), q + step.Writes())
  {
    hide StepAt, Steps;
    assert steps[0] == step && steps[1..] == Steps(s[p + step.Reads()..], f);
    Associate(done, out, Rewrite(s, steps[1..], p + step.Reads(), q + step.Writes()));
  }

  method NextStep(t: string, f: Flags) returns (step: Step)
    requires t != ""
    ensures step.Fits(|t|) && Steps(t, f) == [step] + Steps(t[step.Reads()..], f)
  {
    if f.newlines && (t[0] == CR || t[0] == LF) {
      step := StepAt(t, f);
    } else if f.entities && t[0] == '&' && At(t, 1) == '#' {
      var r := GetCharacterRef(t);
      step := if r.NoRef? then Emit("&", 1) else Emit(r.out, r.len);
    } else {
      step := StepAt(t, f);
    }
  }
}
