/**
 * What tinyxml2 writes for a string, and what reading it back gives.
 */
module Entities {
  import opened Common
  import Unicode
  import opened StrPair

  const TEXT := Flags(true, true)

  // ---------------------------------------------------------------- escaping

  // Attribute values escape all five entities, text only & < and >.
  predicate IsEscaped(c: char, restricted: bool) {
    c == '&' || c == '<' || c == '>' || (!restricted && (c == '\"' || c == '\''))
  }

  function EntityOf(c: char): (i: nat)
    requires IsEscaped(c, false)
    ensures i < |ENTITIES| && ENTITIES[i].value == c
  {
    if c == '\"' then 0 else if c == '&' then 1 else if c == '\'' then 2 else if c == '<' then 3 else 4
  }

  function Escaped(c: char, restricted: bool): string {
    if IsEscaped(c, restricted) then "&" + ENTITIES[EntityOf(c)].pattern + ";" else [c]
  }

  function Escape(s: string, restricted: bool): string {
    if s == "" then "" else Escaped(s[0], restricted) + Escape(s[1..], restricted)
  }

  // Runs of plain characters are written in one piece, each entity by itself.
  method PrintString(text: string, restricted: bool) returns (out: string)
    ensures out == Escape(text, restricted)
  {
    hide Escape, EntityOf;
    out := "";
    var p, q := 0, 0;
    assert text[0..] == text;
    while q < |text|
      invariant 0 <= p <= q <= |text|
      invariant out + (text[p..q] + Escape(text[q..], restricted)) == Escape(text, restricted)
    {
      Unfold(text, q, restricted);
      ghost var rest := Escape(text[q + 1..], restricted);
      if IsEscaped(text[q], restricted) {
        var run, entity := text[p..q], "&" + ENTITIES[EntityOf(text[q])].pattern + ";";
        Regroup(out, run, entity, rest);
        out := out + run;
        out := out + entity;
        p := q + 1;
      } else {
        assert text[p..q + 1] == text[p..q] + [text[q]];
        Associate(text[p..q], [text[q]], rest);
      }
      q := q + 1;
    }
    EscapeOfNothing(text, restricted);
    if p < q {
      out := out + text[p..q];
    }
  }

  lemma {:induction false} Unfold(text: string, q: nat, restricted: bool)
    requires q < |text|
    ensures Escape(text[q..], restricted) == Escaped(text[q], restricted) + Escape(text[q + 1..], restricted)
  {
    assert text[q..][1..] == text[q + 1..];
  }

  lemma {:induction false} EscapeOfNothing(text: string, restricted: bool)
    ensures Escape(text[|text|..], restricted) == ""
  {
  }

  lemma {:induction false} Regroup(a: string, b: string, c: string, d: string)
    ensures a + (b + (c + d)) == ((a + b) + c) + ("" + d)
  {
  }

  // ---------------------------------------------------------------- reading it back

  // CR LF, LF CR and a lone CR become LF.
  function NormalizeNewlines(s: string): string
    decreases |s|
  {
    if s == "" then ""
    else if s[0] == CR then [LF] + NormalizeNewlines(s[if At(s, 1) == LF then 2 else 1..])
    else if s[0] == LF then [LF] + NormalizeNewlines(s[if At(s, 1) == CR then 2 else 1..])
    else [s[0]] + NormalizeNewlines(s[1..])
  }

  lemma {:induction false} NormalizedHasNoCR(s: string)
    ensures CR !in NormalizeNewlines(s)
    ensures CR !in s ==> NormalizeNewlines(s) == s
    decreases |s|
  {
    if s != "" {
      if s[0] == CR {
        NormalizedHasNoCR(s[if At(s, 1) == LF then 2 else 1..]);
      } else if s[0] == LF {
        NormalizedHasNoCR(s[if At(s, 1) == CR then 2 else 1..]);
      } else {
        NormalizedHasNoCR(s[1..]);
      }
    }
  }

  lemma {:induction false} FindsEntity(i: nat, rest: string)
    requires i < |ENTITIES|
    ensures FindEntity("&" + ENTITIES[i].pattern + ";" + rest, 0) == i
  {
    var t := "&" + ENTITIES[i].pattern + ";" + rest;
    var n := |ENTITIES[i].pattern|;
    assert t[1..n + 1] == ENTITIES[i].pattern && t[n + 1] == ';';
    forall j | 0 <= j < i ensures !Names(t, ENTITIES[j].pattern) {
      var m := |ENTITIES[j].pattern|;
      assert t[1] != ENTITIES[j].pattern[0] || t[2] != ENTITIES[j].pattern[1];
      assert m + 1 < |t| ==> t[1..m + 1][0] == t[1] && t[1..m + 1][1] == t[2];
    }
    FirstMatch(t, 0, i);
  }

  lemma {:induction false} FirstMatch(t: string, j: nat, i: nat)
    requires j <= i < |ENTITIES| && Names(t, ENTITIES[i].pattern)
    requires forall k | j <= k < i :: !Names(t, ENTITIES[k].pattern)
    ensures FindEntity(t, j) == i
    decreases i - j
  {
    if j < i {
      FirstMatch(t, j + 1, i);
    }
  }

  // The five entities, each read as one character, whatever follows.
  lemma {:induction false} FiveEntities(rest: string)
    ensures StepAt("&quot;" + rest, TEXT) == Emit("\"", 6)
    ensures StepAt("&amp;" + rest, TEXT) == Emit("&", 5)
    ensures StepAt("&apos;" + rest, TEXT) == Emit("'", 6)
    ensures StepAt("&lt;" + rest, TEXT) == Emit("<", 4)
    ensures StepAt("&gt;" + rest, TEXT) == Emit(">", 4)
  {
    hide StepAt;
    OneEntity(0, "&quot;", rest);
    OneEntity(1, "&amp;", rest);
    OneEntity(2, "&apos;", rest);
    OneEntity(3, "&lt;", rest);
    OneEntity(4, "&gt;", rest);
  }

  // Of the ampersands that start no character reference, only these five with their semicolon start anything.
  lemma {:induction false} SkippedIff(t: string)
    requires t != "" && t[0] == '&' && At(t, 1) != '#'
    ensures StepAt(t, TEXT) == Skip <==>
              !("&quot;" <= t) && !("&amp;" <= t) && !("&apos;" <= t) && !("&lt;" <= t) && !("&gt;" <= t)
  {
    FindEntityIsFirst(t, 0);
    NamesIff(t, 0, "&quot;");
    NamesIff(t, 1, "&amp;");
    NamesIff(t, 2, "&apos;");
    NamesIff(t, 3, "&lt;");
    NamesIff(t, 4, "&gt;");
    hide FindEntity, CharacterRef, Names;
  }

  lemma {:induction false} NamesIff(t: string, i: nat, s: string)
    requires t != "" && t[0] == '&' && i < |ENTITIES| && s == "&" + ENTITIES[i].pattern + ";"
    ensures Names(t, ENTITIES[i].pattern) <==> s <= t
  {
    var p := ENTITIES[i].pattern;
    if Names(t, p) {
      assert t[..|s|] == s;
    }
    if s <= t {
      assert t[1..|p| + 1] == s[1..|p| + 1] == p && t[|p| + 1] == s[|p| + 1];
    }
  }

  lemma {:induction false} OneEntity(i: nat, s: string, rest: string)
    requires i < |ENTITIES| && s == "&" + ENTITIES[i].pattern + ";"
    ensures StepAt(s + rest, TEXT) == Emit([ENTITIES[i].value], |s|)
  {
    hide FindEntity, CharacterRef;
    FindsEntity(i, rest);
    assert (s + rest)[0] == '&' && (s + rest)[1] == ENTITIES[i].pattern[0];
  }

  // And written so; the two quotes only where they need it.
  lemma {:induction false} FiveEscapes()
    ensures Escape("&", false) == "&amp;" && Escape("<", false) == "&lt;" && Escape(">", false) == "&gt;"
    ensures Escape("\"", false) == "&quot;" && Escape("'", false) == "&apos;"
    ensures Escape("&", true) == "&amp;" && Escape("<", true) == "&lt;" && Escape(">", true) == "&gt;"
    ensures Escape("\"", true) == "\"" && Escape("'", true) == "'"
  {
    EscapeOne('&', false); EscapeOne('<', false); EscapeOne('>', false); EscapeOne('\"', false); EscapeOne('\'', false);
    EscapeOne('&', true); EscapeOne('<', true); EscapeOne('>', true); EscapeOne('\"', true); EscapeOne('\'', true);
  }

  lemma {:induction false} EscapeOne(c: char, restricted: bool)
    ensures Escape([c], restricted) == Escaped(c, restricted)
  {
  }

  // Any other character stands for itself.
  lemma {:induction false} OthersStay(c: char, restricted: bool, rest: string)
    requires c !in "&<>\"'" || (restricted && c in "\"'")
    ensures Escape([c] + rest, restricted) == [c] + Escape(rest, restricted)
  {
  }

  // The line ends: CR LF, CR alone, LF CR and LF alone.
  lemma {:induction false} LineEnds(c: char, rest: string)
    ensures StepAt("\r\n" + rest, TEXT) == Emit("\n", 2) && StepAt("\n\r" + rest, TEXT) == Emit("\n", 2)
    ensures c != '\n' ==> StepAt("\r" + [c] + rest, TEXT) == Emit("\n", 1)
    ensures c != '\r' ==> StepAt("\n" + [c] + rest, TEXT) == Emit("\n", 1)
    ensures StepAt("\r", TEXT) == StepAt("\n", TEXT) == Emit("\n", 1)
  {
    hide FindEntity, CharacterRef;
  }

  // The digits, in either case, and nothing else.
  lemma {:induction false} DigitIs(c: char, k: nat)
    requires k < 16
    ensures Digit("0123456789abcdef"[k], 16) == k == Digit("0123456789ABCDEF"[k], 16)
    ensures k < 10 ==> Digit("0123456789"[k], 10) == k
    ensures Digit(c, 16) == -1 <==> !('0' <= c <= '9' || 'a' <= c <= 'f' || 'A' <= c <= 'F')
    ensures Digit(c, 10) == -1 <==> !('0' <= c <= '9')
  {
  }

  // The first step over escaped text, when the text does not start with a line end.
  lemma {:induction false} StepOverEscaped(c: char, restricted: bool, rest: string)
    requires c != CR && c != LF
    ensures StepAt(Escaped(c, restricted) + rest, TEXT) == Emit([c], |Escaped(c, restricted)|)
  {
    if IsEscaped(c, restricted) {
      var i := EntityOf(c);
      FindsEntity(i, rest);
      var t := Escaped(c, restricted) + rest;
      assert t == "&" + ENTITIES[i].pattern + ";" + rest;
      assert t[1] == ENTITIES[i].pattern[0];
    }
  }

  lemma {:induction false} FirstOfEscape(s: string, restricted: bool)
    ensures At(Escape(s, restricted), 0) == if s != "" && IsEscaped(s[0], restricted) then '&' else At(s, 0)
  {
  }

  // A line end stands for itself in escaped text.
  lemma {:induction false} EscapeOfPlain(s: string, restricted: bool, n: nat)
    requires n <= |s| && n <= 2 && forall k | 0 <= k < n :: !IsEscaped(s[k], restricted)
    ensures Escape(s, restricted) == s[..n] + Escape(s[n..], restricted)
  {
    if n == 1 {
      assert s[..1] == [s[0]];
    } else if n == 2 {
      assert s[1..][1..] == s[2..];
      assert s[..2] == [s[0]] + [s[1]];
      Associate([s[0]], [s[1]], Escape(s[2..], restricted));
    }
  }

  ghost predicate NoSkips(steps: seq<Step>) {
    steps == [] || (steps[0].Emit? && NoSkips(steps[1..]))
  }

  lemma {:induction false} NoSkipsNoHarm(s: string, steps: seq<Step>, p: nat, q: nat)
    requires q <= p <= |s| && Paced(steps, |s| - p) && NoSkips(steps)
    ensures SkipsOnAmpersands(s, steps, p, q)
    decreases |steps|
  {
    if steps != [] {
      NoSkipsNoHarm(s, steps[1..], p + steps[0].Reads(), q + steps[0].Writes());
    }
  }

  lemma {:induction false} UnfoldSteps(t: string, step: Step)
    requires t != "" && StepAt(t, TEXT) == step && step.Emit?
    ensures Decoded(t, TEXT) == step.out + Decoded(t[step.len..], TEXT)
    ensures NoSkips(Steps(t, TEXT)) <==> NoSkips(Steps(t[step.len..], TEXT))
  {
  }

  // Reading back what was written gives the string with its line ends normalised.
  lemma {:induction false} DecodeEscape(s: string, restricted: bool)
    ensures Decoded(Escape(s, restricted), TEXT) == NormalizeNewlines(s)
    ensures NoSkips(Steps(Escape(s, restricted), TEXT))
    decreases |s|
  {
    hide StepAt, Decoded, CharacterRef, FindEntity, Steps, NoSkips;
    var t := Escape(s, restricted);
    if s == "" {
      NothingToDecode();
    } else if s[0] == CR || s[0] == LF {
      var n := if At(s, 1) == (if s[0] == CR then LF else CR) then 2 else 1;
      EscapeOfPlain(s, restricted, n);
      FirstOfEscape(s[1..], restricted);
      assert t == [s[0]] + Escape(s[1..], restricted);
      assert At(t, 1) == At(Escape(s[1..], restricted), 0) && At(s[1..], 0) == At(s, 1);
      LineEndStep(t, n);
      UnfoldSteps(t, Emit([LF], n));
      assert t[n..] == Escape(s[n..], restricted);
      DecodeEscape(s[n..], restricted);
    } else {
      StepOverEscaped(s[0], restricted, Escape(s[1..], restricted));
      UnfoldSteps(t, Emit([s[0]], |Escaped(s[0], restricted)|));
      assert t[|Escaped(s[0], restricted)|..] == Escape(s[1..], restricted);
      DecodeEscape(s[1..], restricted);
    }
  }

  lemma {:induction false} NothingToDecode()
    ensures Decoded("", TEXT) == "" && NoSkips(Steps("", TEXT))
  {
  }

  lemma {:induction false} LineEndStep(t: string, n: nat)
    requires t != "" && (t[0] == CR || t[0] == LF)
    requires n == if At(t, 1) == (if t[0] == CR then LF else CR) then 2 else 1
    ensures StepAt(t, TEXT) == Emit([LF], n) && n <= |t|
  {
  }

  // A string survives being written and read, in place, exactly when it has no CR.
  lemma {:induction false} RoundTripIff(s: string, restricted: bool)
    ensures InPlace(Escape(s, restricted), TEXT) == Decoded(Escape(s, restricted), TEXT) == NormalizeNewlines(s)
    ensures InPlace(Escape(s, restricted), TEXT) == s <==> CR !in s
  {
    var t := Escape(s, restricted);
    DecodeEscape(s, restricted);
    NoSkipsNoHarm(t, Steps(t, TEXT), 0, 0);
    InPlaceDecodesIff(t, TEXT);
    NormalizedHasNoCR(s);
  }

  // ---------------------------------------------------------------- numeric references

  function DigitChar(d: nat): char
    requires d < 16
  {
    if d < 10 then (d + '0' as int) as char else (d - 10 + 'a' as int) as char
  }

  // A number written in base 10 or 16.
  function Numeral(n: nat, base: nat): (s: string)
    requires base == 10 || base == 16
    ensures |s| > 0
  {
    (if n < base then "" else Numeral(n / base, base)) + [DigitChar(n % base)]
  }

  lemma {:induction false} NumeralDigits(n: nat, base: nat)
    requires base == 10 || base == 16
    ensures forall k | 0 <= k < |Numeral(n, base)| ::
              var c := Numeral(n, base)[k]; c != ';' && c != 'x' && c != '#' && 0 <= Digit(c, base) < base
  {
    if n >= base {
      NumeralDigits(n / base, base);
    }
  }

  // Reading the digits backwards adds the number up, as long as it fits in 32 bits.
  lemma {:induction false} ReadsNumeral(t: string, j: nat, i: nat, stop: char, base: nat, n: nat, mult: nat, ucs: nat)
    requires (base == 10 || base == 16) && (stop == '#' || stop == 'x')
    requires j <= i < |t| && t[j] == stop && t[j + 1..i + 1] == Numeral(n, base)
    requires 0 < mult && ucs + mult * n < UINT
    ensures ReadBack(t, i, stop, base, mult, ucs) == ucs + mult * n
    decreases n
  {
    hide AddDigit, NextMult, Numeral, DigitChar, Digit, ReadBack;
    var d, m := n % base, n / base;
    LastDigit(n, base);
    LastDigitAt(t, j, i, n, base);
    OneDigit(ucs, mult, base, n);
    ReadsDigit(t, i, stop, base, mult, ucs, d);
    if n < base {
      NoMoreDigits(t, j, i - 1, stop, base, NextMult(mult, base), AddDigit(ucs, mult, d));
    } else {
      ReadsNumeral(t, j, i - 1, stop, base, m, mult * base, ucs + mult * d);
    }
  }

  lemma {:induction false} ReadsDigit(t: string, i: nat, stop: char, base: nat, mult: nat, ucs: nat, d: nat)
    requires i < |t| && ucs < ULONG && t[i] != stop && Digit(t[i], base) == d
    ensures ReadBack(t, i, stop, base, mult, ucs)
         == ReadBack(t, i - 1, stop, base, NextMult(mult, base), AddDigit(ucs, mult, d))
  {
  }

  lemma {:induction false} NoMoreDigits(t: string, j: nat, i: int, stop: char, base: nat, mult: nat, ucs: nat)
    requires j == i < |t| && t[j] == stop && ucs < ULONG
    ensures ReadBack(t, i, stop, base, mult, ucs) == ucs
  {
  }

  lemma {:induction false} LastDigit(n: nat, base: nat)
    requires base == 10 || base == 16
    ensures var s := Numeral(n, base);
            && var c := s[|s| - 1];
            c != 'x' && c != '#' && Digit(c, base) == n % base
            && s[..|s| - 1] == (if n < base then "" else Numeral(n / base, base))
  {
  }

  lemma {:induction false} LastDigitAt(t: string, j: nat, i: nat, n: nat, base: nat)
    requires base == 10 || base == 16
    requires j <= i < |t| && t[j + 1..i + 1] == Numeral(n, base)
    ensures t[i] == Numeral(n, base)[|Numeral(n, base)| - 1]
    ensures t[j + 1..i] == Numeral(n, base)[..|Numeral(n, base)| - 1]
    ensures j < i && (n < base ==> j == i - 1)
    ensures n == base * (n / base) + n % base
  {
    hide Numeral, Digit, DigitChar;
    LastDigit(n, base);
    var w := t[j + 1..i + 1];
    assert |w| == i - j && w[|w| - 1] == t[i];
    assert w[..|w| - 1] == t[j + 1..i];
  }

  lemma {:induction false} OneDigit(ucs: nat, mult: nat, base: nat, n: nat)
    requires (base == 10 || base == 16) && 0 < mult && ucs + mult * n < UINT
    ensures AddDigit(ucs, mult, n % base) == ucs + mult * (n % base) < UINT
    ensures n < base ==> n % base == n
    ensures n >= base ==>
              && NextMult(mult, base) == mult * base > 0
              && (ucs + mult * (n % base)) + mult * base * (n / base) == ucs + mult * n
  {
    hide AddDigit, NextMult;
    var d, m := n % base, n / base;
    assert n == base * m + d;
    SplitProduct(mult, base, m, d);
    SmallMods(ucs, mult, base, m, d);
    Positive(mult, base);
  }

  lemma {:induction false} Positive(x: nat, y: nat)
    requires x > 0 && y > 0
    ensures x * y > 0
  {
  }

  lemma {:induction false} SplitProduct(mult: nat, base: nat, m: nat, d: nat)
    ensures mult * (base * m + d) == mult * base * m + mult * d
    ensures m > 0 ==> mult * base <= mult * base * m
  {
  }

  lemma {:induction false} SmallMods(ucs: nat, mult: nat, base: nat, m: nat, d: nat)
    requires ucs + (mult * base * m + mult * d) < UINT
    requires m > 0 ==> mult * base <= mult * base * m
    ensures AddDigit(ucs, mult, d) == ucs + mult * d < UINT
    ensures m > 0 ==> NextMult(mult, base) == mult * base
  {
  }

  function Reference(c: nat, hex: bool): string {
    if hex then "&#x" + Numeral(c, 16) + ";" else "&#" + Numeral(c, 10) + ";"
  }

  // A numeric reference to any code point, decimal or hexadecimal, is read as its UTF-8 bytes.
  lemma {:induction false} ReferenceDecodes(c: Unicode.Rune, hex: bool, rest: string)
    requires c < 0x20_0000
    ensures StepAt(Reference(c, hex) + rest, TEXT) == Emit(Chars(Unicode.Utf8(c)), |Reference(c, hex)|)
  {
    hide Unicode.Utf8, Numeral, ReadBack, ConvertUTF32ToUTF8, Find;
    var base, from := if hex then 16 else 10, if hex then 3 else 2;
    var digits := Numeral(c, base);
    var t := Reference(c, hex) + rest;
    NumeralDigits(c, base);
    assert t[from..from + |digits|] == digits && t[from + |digits|] == ';';
    FirstSemicolon(t, from, from + |digits|);
    assert (t[2] == 'x') == hex by { assert t[2] == if hex then 'x' else digits[0]; }
    ReadsNumeral(t, from - 1, from + |digits| - 1, if hex then 'x' else '#', base, c, 1, 0);
    ConvertIsUtf8(c);
  }

  lemma {:induction false} FirstSemicolon(t: string, from: nat, q: nat)
    requires from <= q < |t| && t[q] == ';' && forall k | 0 <= k < q - from :: t[from..q][k] != ';'
    ensures Find(t, ';', from) == q
  {
    forall k | from <= k < q ensures t[k] != ';' {
      assert t[k] == t[from..q][k - from];
    }
  }

  // ---------------------------------------------------------------- which references are read, and as what

  // Where the stop character last occurs at or before i, or -1.
  function LastStop(t: string, i: int, stop: char): (j: int)
    requires -1 <= i < |t|
    ensures -1 <= j <= i && (j >= 0 ==> t[j] == stop)
    ensures forall k | j < k <= i :: t[k] != stop
    decreases i + 1
  {
    if i < 0 || t[i] == stop then i else LastStop(t, i - 1, stop)
  }

  predicate AllDigits(d: string, base: nat) {
    forall k | 0 <= k < |d| :: Digit(d[k], base) >= 0
  }

  // Adding up digits from the last to the first, in the arithmetic of the source.
  function Amount(d: string, base: nat, mult: nat, ucs: nat): (r: nat)
    requires AllDigits(d, base) && ucs < ULONG
    ensures r < ULONG
  {
    if d == "" then ucs
    else
      var n := |d| - 1;
      Amount(d[..n], base, NextMult(mult, base), AddDigit(ucs, mult, Digit(d[n], base)))
  }

  // What the digits mean.
  function Value(d: string, base: nat): nat
    requires AllDigits(d, base)
  {
    if d == "" then 0 else base * Value(d[..|d| - 1], base) + Digit(d[|d| - 1], base)
  }

  // The backward loop reads the digits behind the last stop character, and refuses anything else there.
  lemma {:induction false} ReadBackReads(t: string, i: int, stop: char, base: nat, mult: nat, ucs: nat)
    requires 0 <= i < |t| && ucs < ULONG && LastStop(t, i, stop) >= 0
    ensures var d := t[LastStop(t, i, stop) + 1..i + 1];
            ReadBack(t, i, stop, base, mult, ucs) == if AllDigits(d, base) then Amount(d, base, mult, ucs) else -1
    decreases i
  {
    if t[i] != stop {
      var j := LastStop(t, i, stop);
      var d := t[j + 1..i + 1];
      assert d[|d| - 1] == t[i] && d[..|d| - 1] == t[j + 1..i];
      if Digit(t[i], base) >= 0 {
        ReadBackReads(t, i - 1, stop, base, NextMult(mult, base), AddDigit(ucs, mult, Digit(t[i], base)));
        assert AllDigits(d, base) <==> AllDigits(t[j + 1..i], base) by {
          assert forall k | 0 <= k < |d| - 1 :: d[k] == t[j + 1..i][k];
        }
      }
    }
  }

  // Leading zeros notwithstanding, the arithmetic is exact for every value below 2^32.
  lemma {:induction false} AmountIsValue(d: string, base: nat, m: nat, mult: nat, ucs: nat)
    requires AllDigits(d, base) && mult == m % UINT && ucs + m * Value(d, base) < UINT
    ensures Amount(d, base, mult, ucs) == ucs + m * Value(d, base)
    decreases |d|
  {
    if d != "" {
      var n := |d| - 1;
      var v, x := Value(d[..n], base), Digit(d[n], base);
      hide AddDigit, NextMult, Digit;
      SplitProduct(m, base, v, x);
      ExactDigit(ucs, m, mult, x, m * base * v);
      NextMultIs(m, mult, base);
      AmountIsValue(d[..n], base, m * base, NextMult(mult, base), AddDigit(ucs, mult, x));
    }
  }

  lemma {:induction false} ExactDigit(ucs: nat, m: nat, mult: nat, x: nat, more: nat)
    requires mult == m % UINT && ucs + (more + m * x) < UINT
    ensures AddDigit(ucs, mult, x) == ucs + m * x
  {
    if x == 0 {
      Times(mult, m);
    } else {
      AtLeast(m, x);
      assert mult == m;
      SmallProduct(ucs, m * x);
    }
  }

  lemma {:induction false} SmallProduct(ucs: nat, product: nat)
    requires ucs + product < UINT
    ensures (ucs + product % UINT) % ULONG == ucs + product
  {}

  lemma {:induction false} Times(x: nat, y: nat)
    ensures x * 0 == 0 == y * 0
  {}

  lemma {:induction false} AtLeast(m: nat, x: nat)
    requires x > 0
    ensures m <= m * x
  {}

  lemma {:induction false} NextMultIs(m: nat, mult: nat, base: nat)
    requires mult == m % UINT
    ensures NextMult(mult, base) == m * base % UINT
  {
    var q := m / UINT;
    SplitProduct(base, UINT, q, mult);
    assert m * base == mult * base + UINT * (base * q);
    AddMultiple(mult * base, base * q);
  }

  lemma {:induction false} AddMultiple(x: nat, k: nat)
    ensures (x + UINT * k) % UINT == x % UINT
  {}

  // Above that it is exact modulo 2^32, whatever the wrapping does on the way.
  lemma {:induction false} AmountModulo(d: string, base: nat, m: nat, mult: nat, ucs: nat)
    requires AllDigits(d, base) && mult == m % UINT && ucs < ULONG
    ensures Amount(d, base, mult, ucs) % UINT == (ucs + m * Value(d, base)) % UINT
    decreases |d|
  {
    if d != "" {
      var n := |d| - 1;
      var v, x := Value(d[..n], base), Digit(d[n], base);
      ValueStep(d, base);
      hide AddDigit, NextMult, Digit, Amount, Value, AllDigits;
      NextMultIs(m, mult, base);
      AmountModulo(d[..n], base, m * base, NextMult(mult, base), AddDigit(ucs, mult, x));
      AmountStep(d, base, mult, ucs);
      Congruent(ucs, m, mult, base, v, x);
    } else {
      Times(m, 0);
    }
  }

  lemma {:induction false} Congruent(ucs: nat, m: nat, mult: nat, base: nat, v: nat, x: nat)
    requires mult == m % UINT
    ensures (AddDigit(ucs, mult, x) + m * base * v) % UINT == (ucs + m * (base * v + x)) % UINT
  {
    hide AddDigit;
    AddDigitModulo(ucs, m, mult, x, m * base * v);
    SplitProduct(m, base, v, x);
  }

  lemma {:induction false} ValueStep(d: string, base: nat)
    requires AllDigits(d, base) && d != ""
    ensures var n := |d| - 1;
            AllDigits(d[..n], base) && Digit(d[n], base) >= 0
            && Value(d, base) == base * Value(d[..n], base) + Digit(d[n], base)
  {
  }

  lemma {:induction false} AmountStep(d: string, base: nat, mult: nat, ucs: nat)
    requires AllDigits(d, base) && ucs < ULONG && d != ""
    ensures var n := |d| - 1;
            Amount(d, base, mult, ucs) == Amount(d[..n], base, NextMult(mult, base), AddDigit(ucs, mult, Digit(d[n], base)))
  {
  }

  lemma {:induction false} AddDigitModulo(ucs: nat, m: nat, mult: nat, x: nat, more: nat)
    requires mult == m % UINT
    ensures (AddDigit(ucs, mult, x) + more) % UINT == (ucs + (more + m * x)) % UINT
  {
    var product, q := mult * x, m / UINT;
    var kept := product % UINT;
    assert AddDigit(ucs, mult, x) == (ucs + kept) % ULONG;
    var a, b := (ucs + kept) / ULONG, product / UINT;
    SplitProduct(x, UINT, q, mult);
    assert m * x == product + UINT * (x * q);
    assert ucs + kept == AddDigit(ucs, mult, x) + UINT * (UINT * a);
    AddMultiple(AddDigit(ucs, mult, x) + more, UINT * a);
    AddMultiple(ucs + kept + more, b + x * q);
    assert kept + UINT * (b + x * q) == m * x;
  }

  // In base 16 no sum reaches 2^32, so there it is the remainder.
  lemma {:induction false} HexAmount(d: string, k: nat, mult: nat, ucs: nat)
    requires AllDigits(d, 16) && mult == (if k < 8 then Power16(k) else 0) && ucs < Power16(if k < 8 then k else 8) && ucs < UINT
    ensures Amount(d, 16, mult, ucs) < UINT
    decreases |d|
  {
    if d != "" {
      var n := |d| - 1;
      ValueStep(d, 16);
      hide Amount, AllDigits, Power16;
      HexDigit(k, mult, ucs, Digit(d[n], 16));
      AmountStep(d, 16, mult, ucs);
      HexAmount(d[..n], k + 1, NextMult(mult, 16), AddDigit(ucs, mult, Digit(d[n], 16)));
    }
  }

  lemma {:induction false} HexDigit(k: nat, mult: nat, ucs: nat, x: nat)
    requires mult == (if k < 8 then Power16(k) else 0) && ucs < Power16(if k < 8 then k else 8) && ucs < UINT && x < 16
    ensures NextMult(mult, 16) == if k + 1 < 8 then Power16(k + 1) else 0
    ensures AddDigit(ucs, mult, x) < Power16(if k + 1 < 8 then k + 1 else 8) && AddDigit(ucs, mult, x) < UINT
  {
    Powers16(k);
    hide Power16;
    if k < 8 {
      Scale(mult, x, 15);
      assert mult * x % UINT == mult * x;
    } else {
      Times(mult, x);
    }
  }

  lemma {:induction false} Scale(m: nat, x: nat, y: nat)
    requires x <= y
    ensures m * x <= m * y
  {}

  function Power16(k: nat): (p: nat)
    ensures p > 0
  {
    if k == 0 then 1 else 16 * Power16(k - 1)
  }

  lemma {:induction false} Powers16(k: nat)
    ensures Power16(8) == UINT
    ensures k < 8 ==> 16 * Power16(k) == Power16(k + 1) <= UINT
    ensures k < 7 ==> Power16(k + 1) < UINT
  {
    assert Power16(2) == 0x100 && Power16(4) == 0x1_0000 && Power16(6) == 0x100_0000;
    assert Power16(1) == 16 && Power16(3) == 0x1000 && Power16(5) == 0x10_0000 && Power16(7) == 0x1000_0000;
  }

  // Digits add up to their value below 2^32, and beyond it to something congruent: in base 16 the
  // remainder, in base 10 possibly more.
  lemma {:induction false} AddsUpTo(d: string, base: nat)
    requires AllDigits(d, base) && (base == 10 || base == 16)
    ensures Amount(d, base, 1, 0) % UINT == Value(d, base) % UINT
    ensures Value(d, base) < UINT ==> Amount(d, base, 1, 0) == Value(d, base)
    ensures base == 16 ==> Amount(d, base, 1, 0) == Value(d, base) % UINT
  {
    hide Amount, Value, Digit;
    AmountModulo(d, base, 1, 1, 0);
    if Value(d, base) < UINT {
      AmountIsValue(d, base, 1, 1, 0);
    }
    if base == 16 {
      HexAmount(d, 0, 1, 0);
    }
  }

  // What follows "&#" or "&#x" up to the first semicolon, and what of it counts.
  function NumeralStart(t: string): nat
    requires |t| > 2
  {
    if t[2] == 'x' then 3 else 2
  }

  function Base(t: string): nat
    requires |t| > 2
  {
    if t[2] == 'x' then 16 else 10
  }

  function NumeralRead(t: string): string
    requires |t| > 2 && t[1] == '#' && Find(t, ';', NumeralStart(t)) != -1
  {
    var q := Find(t, ';', NumeralStart(t));
    t[LastStop(t, q - 1, if t[2] == 'x' then 'x' else '#') + 1..q]
  }

  // A reference is accepted if and only if it has a semicolon and the characters between its last stop
  // character and the first semicolon are digits; it then writes what they add up to.
  lemma {:induction false} ReferenceAcceptedIff(t: string)
    requires |t| > 2 && t[0] == '&' && t[1] == '#'
    ensures var q := Find(t, ';', NumeralStart(t));
            && (CharacterRef(t).Ref? <==> q != -1 && AllDigits(NumeralRead(t), Base(t)))
            && (CharacterRef(t).Ref? ==>
                  CharacterRef(t) == Ref(ConvertUTF32ToUTF8(Amount(NumeralRead(t), Base(t), 1, 0)), q + 1)
                  && Amount(NumeralRead(t), Base(t), 1, 0) % UINT == Value(NumeralRead(t), Base(t)) % UINT
                  && (Value(NumeralRead(t), Base(t)) < UINT ==>
                        Amount(NumeralRead(t), Base(t), 1, 0) == Value(NumeralRead(t), Base(t))))
  {
    hide ConvertUTF32ToUTF8, ReadBack, Amount, Value, Find, Digit;
    var q := Find(t, ';', NumeralStart(t));
    if q != -1 {
      var stop := if t[2] == 'x' then 'x' else '#';
      assert t[NumeralStart(t) - 1] == stop;
      assert LastStop(t, q - 1, stop) >= NumeralStart(t) - 1;
      ReadBackReads(t, q - 1, stop, Base(t), 1, 0);
      if AllDigits(NumeralRead(t), Base(t)) {
        AddsUpTo(NumeralRead(t), Base(t));
      }
    }
  }

  // So an accepted reference writes the UTF-8 form of its number if and only if the number is below 2^32, or
  // too large to be written in either reading.
  lemma {:induction false} WrittenRightIff(t: string)
    requires |t| > 2 && t[0] == '&' && t[1] == '#' && CharacterRef(t).Ref?
    ensures Find(t, ';', NumeralStart(t)) != -1 && AllDigits(NumeralRead(t), Base(t))
    ensures var d, base := NumeralRead(t), Base(t);
            CharacterRef(t).out == ConvertUTF32ToUTF8(Value(d, base))
            <==> Value(d, base) < UINT || Amount(d, base, 1, 0) >= 0x20_0000
  {
    hide CharacterRef, Find, Amount, Value, Digit, AllDigits;
    ReferenceAcceptedIff(t);
    AddsUpTo(NumeralRead(t), Base(t));
  }

  // This one has nine digits of base 16 and writes an A.
  lemma {:induction false} WrittenWrong()
    ensures CharacterRef("&#x100000041;") == Ref("A", 13)
  {
    hide CharacterRef, Find, Amount, Value, AllDigits, NumeralRead;
    var t, d := "&#x100000041;", "100000041";
    assert t == "&#x" + d + ";";
    HexNumeral(t, d);
    ValueOfNine(d);
    ReferenceAcceptedIff(t);
    AddsUpTo(d, 16);
  }

  lemma {:induction false} HexNumeral(t: string, d: string)
    requires t == "&#x" + d + ";" && 'x' !in d && ';' !in d
    ensures NumeralStart(t) == 3 && Base(t) == 16 && Find(t, ';', 3) == |d| + 3 && NumeralRead(t) == d
  {
    var n := |d|;
    assert t[3..n + 3] == d;
    FirstSemicolon(t, 3, n + 3);
    assert forall k | 3 <= k < n + 3 :: t[k] == d[k - 3];
    assert t[2] == 'x' && LastStop(t, n + 2, 'x') >= 2;
  }

  lemma {:induction false} ValueOfNine(d: string)
    requires d == "100000041"
    ensures AllDigits(d, 16) && Value(d, 16) == 0x1_0000_0041
  {
    assert d[..9] == d && AllDigits(d, 16) && forall i | 1 <= i < 7 :: d[i] == '0';
    hide Value, AllDigits;
    OneAndZeros(d, 7);
    assert Power16(6) == 0x100_0000 by { Powers16(6); }
    PrefixValue(d, 7);
    PrefixValue(d, 8);
  }

  lemma {:induction false} OneAndZeros(d: string, k: nat)
    requires 1 <= k <= |d| && AllDigits(d, 16) && d[0] == '1' && forall i | 1 <= i < k :: d[i] == '0'
    ensures Value(d[..k], 16) == Power16(k - 1)
    decreases k
  {
    PrefixValue(d, k - 1);
    if k == 1 {
      assert Value(d[..0], 16) == 0;
    } else {
      OneAndZeros(d, k - 1);
    }
  }

  lemma {:induction false} PrefixValue(d: string, k: nat)
    requires k < |d| && AllDigits(d, 16)
    ensures AllDigits(d[..k], 16) && AllDigits(d[..k + 1], 16)
    ensures Value(d[..k + 1], 16) == 16 * Value(d[..k], 16) + Digit(d[k], 16)
  {
    assert d[..k + 1][..k] == d[..k];
    ValueStep(d[..k + 1], 16);
  }

  // It is read as written if and only if the stop character does not occur again.
  lemma {:induction false} ReadAsWrittenIff(t: string)
    requires |t| > 2 && t[0] == '&' && t[1] == '#' && Find(t, ';', NumeralStart(t)) != -1
    ensures var numeral := t[NumeralStart(t)..Find(t, ';', NumeralStart(t))];
            && (NumeralRead(t) == numeral <==> (if t[2] == 'x' then 'x' else '#') !in numeral)
            && (AllDigits(numeral, Base(t)) ==> NumeralRead(t) == numeral && CharacterRef(t).Ref?)
            && (CharacterRef(t).Ref? && NumeralRead(t) == numeral ==> AllDigits(numeral, Base(t)))
  {
    hide CharacterRef, Find;
    ReferenceAcceptedIff(t);
    var from, q := NumeralStart(t), Find(t, ';', NumeralStart(t));
    var stop, numeral := if t[2] == 'x' then 'x' else '#', t[from..q];
    var j := LastStop(t, q - 1, stop);
    assert t[from - 1] == stop && j >= from - 1;
    if j >= from {
      assert numeral[j - from] == stop;
      assert |NumeralRead(t)| < |numeral|;
    } else {
      assert forall k | 0 <= k < |numeral| :: numeral[k] == t[from + k];
    }
  }

  // So this one is read as 34 in base 16.
  lemma {:induction false} ReadFromTheLastX()
    ensures CharacterRef("&#x12x34;") == Ref(ConvertUTF32ToUTF8(0x34), 9)
  {
    hide ConvertUTF32ToUTF8, CharacterRef, Find, Amount;
    var t := "&#x12x34;";
    FirstSemicolon(t, 3, 8);
    assert LastStop(t, 7, 'x') == 5;
    assert NumeralRead(t) == "34";
    ReferenceAcceptedIff(t);
    AmountOf34();
  }

  lemma {:induction false} AmountOf34()
    ensures AllDigits("34", 16) && Amount("34", 16, 1, 0) == 0x34
  {
    assert "34"[..1] == "3" && "3"[..0] == "";
    assert Amount("3", 16, 16, 4) == 0x34;
  }
}
