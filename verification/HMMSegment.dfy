/**
 * Cutting a run of runes with a hidden Markov model over the tags B, E, M and S.
 *
 * Viterbi fills a table column by column; cells that no tag sequence lifts above MIN_DOUBLE are
 * clamped to it.  The theorem says what the clamping leaves intact.
 */
module HMMSegment {
  import opened Common
  import opened Unicode
  import opened Trie

  // The tags B, E, M and S are 0 to 3, in this order.
  const E := 1
  const S := 3
  const STATUS_SUM := 4

  type Tag = y: int | 0 <= y < STATUS_SUM

  // Log probabilities; a rune without an emission entry gets MIN_DOUBLE.
  datatype HMMModel = HMMModel(startProb: seq<real>, transProb: seq<seq<real>>, emitProb: seq<map<Rune, real>>) {
    ghost predicate Valid() {
      && |startProb| == STATUS_SUM && |transProb| == STATUS_SUM && |emitProb| == STATUS_SUM
      && forall y | 0 <= y < STATUS_SUM :: |transProb[y]| == STATUS_SUM
    }

    function Emit(y: Tag, r: Rune): real
      requires Valid()
    {
      if r in emitProb[y] then emitProb[y][r] else MIN_DOUBLE
    }

    // Every logarithm is that of a probability.
    ghost predicate Logarithmic()
      requires Valid()
    {
      && (forall x: Tag, y: Tag :: transProb[x][y] <= 0.0)
      && (forall y: Tag, r :: Emit(y, r) <= 0.0)
    }
  }

  // ---------------------------------------------------------------- what is being optimised

  ghost function TagScore(m: HMMModel, rs: seq<Rune>, tags: seq<Tag>): real
    requires m.Valid() && 0 < |tags| <= |rs|
  {
    var x := |tags| - 1;
    m.Emit(tags[x], rs[x])
      + if x == 0 then m.startProb[tags[0]]
        else TagScore(m, rs, tags[..x]) + m.transProb[tags[x - 1]][tags[x]]
  }

  predicate Ends(y: int) { y == E || y == S }

  // ---------------------------------------------------------------- the table

  ghost function Weight(m: HMMModel, rs: seq<Rune>, x: nat, y: Tag): real
    requires m.Valid() && x < |rs|
    decreases x, STATUS_SUM + 1
  {
    if x == 0 then m.startProb[y] + m.Emit(y, rs[0]) else WeightUpTo(m, rs, x, y, STATUS_SUM)
  }

  // The score of coming from tag pre, extending whatever the table holds there.
  ghost function From(m: HMMModel, rs: seq<Rune>, x: nat, y: Tag, pre: Tag): real
    requires m.Valid() && 0 < x < |rs|
    decreases x, 0
  {
    Weight(m, rs, x - 1, pre) + m.transProb[pre][y] + m.Emit(y, rs[x])
  }

  ghost function WeightUpTo(m: HMMModel, rs: seq<Rune>, x: nat, y: Tag, k: nat): real
    requires m.Valid() && 0 < x < |rs| && k <= STATUS_SUM
    decreases x, k
  {
    if k == 0 then MIN_DOUBLE
    else
      var before, tmp := WeightUpTo(m, rs, x, y, k - 1), From(m, rs, x, y, k - 1);
      if tmp > before then tmp else before
  }

  ghost function PathUpTo(m: HMMModel, rs: seq<Rune>, x: nat, y: Tag, k: nat): Tag
    requires m.Valid() && 0 < x < |rs| && k <= STATUS_SUM
  {
    if k == 0 then E
    else if From(m, rs, x, y, k - 1) > WeightUpTo(m, rs, x, y, k - 1) then k - 1
    else PathUpTo(m, rs, x, y, k - 1)
  }

  // The tags found by following the table back from (x, y).
  ghost function Trace(m: HMMModel, rs: seq<Rune>, x: nat, y: Tag): (t: seq<Tag>)
    requires m.Valid() && x < |rs|
    ensures |t| == x + 1 && t[x] == y
  {
    if x == 0 then [y] else Trace(m, rs, x - 1, PathUpTo(m, rs, x, y, STATUS_SUM)) + [y]
  }

  ghost function LastTag(m: HMMModel, rs: seq<Rune>): Tag
    requires m.Valid() && |rs| > 0
  {
    if Weight(m, rs, |rs| - 1, E) >= Weight(m, rs, |rs| - 1, S) then E else S
  }

  // Every rune gets a tag, and the last tag ends a word.
  ghost function Status(m: HMMModel, rs: seq<Rune>): (status: seq<Tag>)
    requires m.Valid() && |rs| > 0
    ensures |status| == |rs| && Ends(status[|rs| - 1])
  {
    Trace(m, rs, |rs| - 1, LastTag(m, rs))
  }

  // ---------------------------------------------------------------- the table is right above the floor

  lemma {:induction false} UpToBounds(m: HMMModel, rs: seq<Rune>, x: nat, y: Tag, pre: Tag, k: nat)
    requires m.Valid() && 0 < x < |rs| && pre < k <= STATUS_SUM
    ensures From(m, rs, x, y, pre) <= WeightUpTo(m, rs, x, y, k)
  {
    if pre < k - 1 {
      UpToBounds(m, rs, x, y, pre, k - 1);
    }
  }

  lemma {:induction false} PathGivesWeight(m: HMMModel, rs: seq<Rune>, x: nat, y: Tag, k: nat)
    requires m.Valid() && 0 < x < |rs| && k <= STATUS_SUM
    requires WeightUpTo(m, rs, x, y, k) > MIN_DOUBLE
    ensures From(m, rs, x, y, PathUpTo(m, rs, x, y, k)) == WeightUpTo(m, rs, x, y, k)
  {
    if !(From(m, rs, x, y, k - 1) > WeightUpTo(m, rs, x, y, k - 1)) {
      PathGivesWeight(m, rs, x, y, k - 1);
    }
  }

  // Of several best previous tags the first is taken, and E when none lifts the cell above the floor.
  lemma {:induction false} PathIsFirstBest(m: HMMModel, rs: seq<Rune>, x: nat, y: Tag, k: nat)
    requires m.Valid() && 0 < x < |rs| && k <= STATUS_SUM
    ensures var p := PathUpTo(m, rs, x, y, k);
            if exists pre: Tag :: pre < k && From(m, rs, x, y, pre) > MIN_DOUBLE then
              && p < k && From(m, rs, x, y, p) == WeightUpTo(m, rs, x, y, k)
              && (forall pre: Tag | pre < k :: From(m, rs, x, y, pre) <= From(m, rs, x, y, p))
              && (forall pre: Tag | pre < p :: From(m, rs, x, y, pre) < From(m, rs, x, y, p))
            else p == 1 && WeightUpTo(m, rs, x, y, k) == MIN_DOUBLE
  {
    hide From;
    if k > 0 {
      PathIsFirstBest(m, rs, x, y, k - 1);
    }
  }

  // The score, on three runes: a start, and an emission and a transition for each.
  lemma {:induction false} ScoreOfThree(m: HMMModel, rs: seq<Rune>, a: Tag, b: Tag, c: Tag)
    requires m.Valid() && |rs| == 3
    ensures TagScore(m, rs, [a, b, c]) ==
            m.startProb[a] + m.Emit(a, rs[0]) + m.transProb[a][b] + m.Emit(b, rs[1]) + m.transProb[b][c] + m.Emit(c, rs[2])
  {
    assert [a, b, c][..2] == [a, b] && [a, b][..1] == [a];
    assert TagScore(m, rs, [a]) == m.Emit(a, rs[0]) + m.startProb[a];
    assert TagScore(m, rs, [a, b]) == m.Emit(b, rs[1]) + (TagScore(m, rs, [a]) + m.transProb[a][b]);
  }

  // A tag sequence that scores above the floor scores no more than its cell.
  lemma {:induction false} CellBoundsScore(m: HMMModel, rs: seq<Rune>, tags: seq<Tag>)
    requires m.Valid() && m.Logarithmic() && 0 < |tags| <= |rs|
    requires TagScore(m, rs, tags) > MIN_DOUBLE
    ensures TagScore(m, rs, tags) <= Weight(m, rs, |tags| - 1, tags[|tags| - 1])
    decreases |tags|
  {
    var x := |tags| - 1;
    if x > 0 {
      var pre: Tag, y: Tag := tags[x - 1], tags[x];
      assert m.transProb[pre][y] <= 0.0 && m.Emit(y, rs[x]) <= 0.0;
      CellBoundsScore(m, rs, tags[..x]);
      UpToBounds(m, rs, x, y, pre, STATUS_SUM);
    }
  }

  // A cell above the floor is the score of its own trace.
  lemma {:induction false} CellIsScoreOfTrace(m: HMMModel, rs: seq<Rune>, x: nat, y: Tag)
    requires m.Valid() && m.Logarithmic() && x < |rs| && Weight(m, rs, x, y) > MIN_DOUBLE
    ensures TagScore(m, rs, Trace(m, rs, x, y)) == Weight(m, rs, x, y)
  {
    hide WeightUpTo, PathUpTo;
    if x > 0 {
      var pre := PathUpTo(m, rs, x, y, STATUS_SUM);
      PathGivesWeight(m, rs, x, y, STATUS_SUM);
      assert m.transProb[pre][y] <= 0.0 && m.Emit(y, rs[x]) <= 0.0;
      CellIsScoreOfTrace(m, rs, x - 1, pre);
      assert Trace(m, rs, x, y)[..x] == Trace(m, rs, x - 1, pre);
    }
  }

  // The traced tags are the best that end in E or S, as soon as any such tags score above the floor.
  lemma {:induction false} StatusIsOptimal(m: HMMModel, rs: seq<Rune>, other: seq<Tag>)
    requires m.Valid() && m.Logarithmic() && |other| == |rs| > 0
    requires Ends(other[|rs| - 1]) && TagScore(m, rs, other) > MIN_DOUBLE
    ensures TagScore(m, rs, Status(m, rs)) >= TagScore(m, rs, other)
  {
    CellBoundsScore(m, rs, other);
    CellIsScoreOfTrace(m, rs, |rs| - 1, LastTag(m, rs));
  }

  // ---------------------------------------------------------------- filling it

  // Cell (x, y) of a table X columns wide; spelled out per row so that the index stays linear.
  function At(x: nat, y: nat, X: nat): (k: nat)
    requires x < X && y < STATUS_SUM
    ensures k == x + y * X && k < X * STATUS_SUM
  {
    match y
    case 0 => x
    case 1 => x + X
    case 2 => x + 2 * X
    case _ => x + 3 * X
  }

  lemma {:induction false} AtInjective(x: nat, y: nat, x': nat, y': nat, X: nat)
    requires x < X && x' < X && y < STATUS_SUM && y' < STATUS_SUM && At(x, y, X) == At(x', y', X)
    ensures x == x' && y == y'
  {
  }

  ghost predicate CellOk(m: HMMModel, rs: seq<Rune>, path: array<int>, weight: array<real>, x: nat, y: Tag)
    requires m.Valid() && x < |rs| && path.Length == weight.Length == |rs| * STATUS_SUM
    reads path, weight
  {
    && weight[At(x, y, |rs|)] == Weight(m, rs, x, y)
    && path[At(x, y, |rs|)] == if x == 0 then -1 else PathUpTo(m, rs, x, y, STATUS_SUM)
  }

  ghost predicate ColumnOk(m: HMMModel, rs: seq<Rune>, path: array<int>, weight: array<real>, x: nat, n: nat)
    requires m.Valid() && x < |rs| && path.Length == weight.Length == |rs| * STATUS_SUM
    reads path, weight
  {
    forall y: Tag | y < n :: CellOk(m, rs, path, weight, x, y)
  }

  method FillCell(m: HMMModel, rs: seq<Rune>, path: array<int>, weight: array<real>, x: nat, y: Tag)
    requires m.Valid() && 0 < x < |rs| && path.Length == weight.Length == |rs| * STATUS_SUM
    requires ColumnOk(m, rs, path, weight, x - 1, STATUS_SUM) && ColumnOk(m, rs, path, weight, x, y)
    modifies path, weight
    ensures ColumnOk(m, rs, path, weight, x, y + 1)
    ensures forall x' | 0 <= x' < x && old(ColumnOk(m, rs, path, weight, x', STATUS_SUM)) ::
              ColumnOk(m, rs, path, weight, x', STATUS_SUM)
  {
    var X := |rs|;
    var now := At(x, y, X);
    weight[now] := MIN_DOUBLE;
    path[now] := E;
    var emitProb := m.Emit(y, rs[x]);
    for preY := 0 to STATUS_SUM
      invariant weight[now] == WeightUpTo(m, rs, x, y, preY)
      invariant path[now] == PathUpTo(m, rs, x, y, preY)
      invariant forall k | 0 <= k < path.Length && k != now :: path[k] == old(path[k]) && weight[k] == old(weight[k])
    {
      var prev := At(x - 1, preY, X);
      assert prev != now by {
        if prev == now {
          AtInjective(x - 1, preY, x, y, X);
        }
      }
      assert old(CellOk(m, rs, path, weight, x - 1, preY));
      var tmp := weight[prev] + m.transProb[preY][y] + emitProb;
      assert tmp == From(m, rs, x, y, preY);
      if tmp > weight[now] {
        weight[now] := tmp;
        path[now] := preY;
      }
    }
    forall x': nat, y': Tag | x' <= x && (x' < x || y' < y) && old(CellOk(m, rs, path, weight, x', y'))
      ensures CellOk(m, rs, path, weight, x', y')
    {
      assert At(x', y', X) != now;
    }
    forall y': Tag | y' < y ensures CellOk(m, rs, path, weight, x, y') {
      assert old(CellOk(m, rs, path, weight, x, y'));
    }
    forall x' | 0 <= x' < x && old(ColumnOk(m, rs, path, weight, x', STATUS_SUM))
      ensures ColumnOk(m, rs, path, weight, x', STATUS_SUM)
    {
      forall y': Tag | y' < STATUS_SUM ensures CellOk(m, rs, path, weight, x', y') {
        assert old(CellOk(m, rs, path, weight, x', y'));
      }
    }
  }

  method Viterbi(m: HMMModel, rs: seq<Rune>) returns (status: seq<Tag>)
    requires m.Valid() && |rs| > 0
    ensures status == Status(m, rs)
    ensures m.Logarithmic() ==>
              forall other: seq<Tag> | |other| == |rs| && Ends(other[|rs| - 1]) && TagScore(m, rs, other) > MIN_DOUBLE ::
                TagScore(m, rs, other) <= TagScore(m, rs, status)
  {
    var X := |rs|;
    var path := new int[X * STATUS_SUM];
    var weight := new real[X * STATUS_SUM];
    for y := 0 to STATUS_SUM
      invariant ColumnOk(m, rs, path, weight, 0, y)
    {
      label before:
      weight[At(0, y, X)] := m.startProb[y] + m.Emit(y, rs[0]);
      path[At(0, y, X)] := -1;
      forall y': Tag | y' < y ensures CellOk(m, rs, path, weight, 0, y') {
        assert old@before(CellOk(m, rs, path, weight, 0, y'));
      }
    }
    for x := 1 to X
      invariant forall x' | 0 <= x' < x :: ColumnOk(m, rs, path, weight, x', STATUS_SUM)
    {
      for y := 0 to STATUS_SUM
        invariant forall x' | 0 <= x' < x :: ColumnOk(m, rs, path, weight, x', STATUS_SUM)
        invariant ColumnOk(m, rs, path, weight, x, y)
      {
        FillCell(m, rs, path, weight, x, y);
      }
    }
    var last := BetterEnd(m, rs, path, weight);
    status := ReadBack(m, rs, path, weight, last);
    if m.Logarithmic() {
      forall other: seq<Tag> | |other| == |rs| && Ends(other[|rs| - 1]) && TagScore(m, rs, other) > MIN_DOUBLE
        ensures TagScore(m, rs, other) <= TagScore(m, rs, status)
      {
        StatusIsOptimal(m, rs, other);
      }
    }
  }

  method BetterEnd(m: HMMModel, rs: seq<Rune>, path: array<int>, weight: array<real>) returns (stat: Tag)
    requires m.Valid() && |rs| > 0 && path.Length == weight.Length == |rs| * STATUS_SUM
    requires ColumnOk(m, rs, path, weight, |rs| - 1, STATUS_SUM)
    ensures stat == LastTag(m, rs)
  {
    assert CellOk(m, rs, path, weight, |rs| - 1, E) && CellOk(m, rs, path, weight, |rs| - 1, S);
    var endE, endS := weight[At(|rs| - 1, E, |rs|)], weight[At(|rs| - 1, S, |rs|)];
    stat := if endE >= endS then E else S;
  }

  method ReadBack(m: HMMModel, rs: seq<Rune>, path: array<int>, weight: array<real>, last: Tag) returns (status: seq<Tag>)
    requires m.Valid() && |rs| > 0 && path.Length == weight.Length == |rs| * STATUS_SUM
    requires forall x | 0 <= x < |rs| :: ColumnOk(m, rs, path, weight, x, STATUS_SUM)
    ensures status == Trace(m, rs, |rs| - 1, last)
  {
    hide PathUpTo, Weight;
    status := [];
    var stat: int := last;
    var x := |rs|;
    while x > 0
      invariant 0 <= x <= |rs|
      invariant x > 0 ==> 0 <= stat < STATUS_SUM && Trace(m, rs, x - 1, stat) + status == Trace(m, rs, |rs| - 1, last)
      invariant x == 0 ==> status == Trace(m, rs, |rs| - 1, last)
    {
      x := x - 1;
      assert ColumnOk(m, rs, path, weight, x, STATUS_SUM) && CellOk(m, rs, path, weight, x, stat);
      status := [stat] + status;
      stat := path[At(x, stat, |rs|)];
    }
  }

  // ---------------------------------------------------------------- words

  // The words that the tags from rune i on complete; the first of them starts at `left`.
  ghost function Breaks(status: seq<Tag>, begin: nat, left: nat, i: nat): seq<WordRange>
    requires left <= begin + i
    decreases |status| - i
  {
    if i >= |status| then []
    else if Ends(status[i]) then [WordRange(left, begin + i)] + Breaks(status, begin, begin + i + 1, i + 1)
    else Breaks(status, begin, left, i + 1)
  }

  ghost function RunCut(m: HMMModel, text: seq<RuneStr>, begin: nat, end: nat): seq<WordRange>
    requires m.Valid() && begin <= end <= |text|
  {
    if begin == end then [] else Breaks(Status(m, Runes(text[begin..end])), begin, begin, 0)
  }

  // A word ends at a rune tagged E or S, and none of its other runes is.
  ghost predicate EndsAtTag(status: seq<Tag>, begin: nat, w: WordRange) {
    && begin <= w.left <= w.right < begin + |status|
    && (status[w.right - begin] == 1 || status[w.right - begin] == 3)
    && forall k | w.left - begin <= k < w.right - begin :: status[k] == 0 || status[k] == 2
  }

  lemma {:induction false} BreaksEndAtTags(status: seq<Tag>, begin: nat, left: nat, i: nat)
    requires begin <= left <= begin + i && i <= |status|
    requires forall k | left - begin <= k < i :: status[k] == 0 || status[k] == 2
    ensures forall w | w in Breaks(status, begin, left, i) :: EndsAtTag(status, begin, w)
    decreases |status| - i
  {
    if i < |status| {
      if Ends(status[i]) {
        BreaksEndAtTags(status, begin, begin + i + 1, i + 1);
        assert EndsAtTag(status, begin, WordRange(left, begin + i));
      } else {
        BreaksEndAtTags(status, begin, left, i + 1);
      }
    }
  }

  // The tags found for a run, and the words that they end.
  method InternalCut(m: HMMModel, text: seq<RuneStr>, begin: nat, end: nat, res: seq<WordRange>)
    returns (res': seq<WordRange>, ghost status: seq<Tag>)
    requires m.Valid() && begin < end <= |text|
    ensures status == Status(m, Runes(text[begin..end])) && res <= res' && Covers(res'[|res|..], begin, end)
    ensures forall w | w in res'[|res|..] :: EndsAtTag(status, begin, w)
    ensures res' == res + RunCut(m, text, begin, end)
  {
    var tags := Viterbi(m, Runes(text[begin..end]));
    status := tags;
    res' := res;
    var left := begin;
    for i := 0 to |tags|
      invariant begin <= left <= begin + i
      invariant res' + Breaks(tags, begin, left, i) == res + RunCut(m, text, begin, end)
    {
      if tags[i] % 2 == 1 {
        var right := begin + i + 1;
        res' := res' + [WordRange(left, right - 1)];
        left := right;
      }
    }
    assert res' + [] == res';
    assert res'[|res|..] == Breaks(tags, begin, begin, 0);
    BreaksEndAtTags(tags, begin, begin, 0);
    RunCutCovers(m, text, begin, end);
  }

  predicate IsLetter(x: Rune) {
    0x61 <= x <= 0x7a || 0x41 <= x <= 0x5a
  }

  predicate IsDigit(x: Rune) {
    0x30 <= x <= 0x39
  }

  function LettersEnd(text: seq<RuneStr>, r: nat, end: nat): (q: nat)
    requires r <= end <= |text|
    ensures r <= q <= end
    decreases end - r
  {
    if r < end && (IsLetter(text[r].rune) || IsDigit(text[r].rune)) then LettersEnd(text, r + 1, end) else r
  }

  function NumberEnd(text: seq<RuneStr>, r: nat, end: nat): (q: nat)
    requires r <= end <= |text|
    ensures r <= q <= end
    decreases end - r
  {
    if r < end && (IsDigit(text[r].rune) || text[r].rune == 0x2e) then NumberEnd(text, r + 1, end) else r
  }

  // A letter and all letters and digits after it.
  method SequentialLetterRule(text: seq<RuneStr>, begin: nat, end: nat) returns (r: nat)
    requires begin < end <= |text|
    ensures r == if IsLetter(text[begin].rune) then LettersEnd(text, begin + 1, end) else begin
  {
    if !IsLetter(text[begin].rune) {
      return begin;
    }
    r := begin + 1;
    while r != end && (IsLetter(text[r].rune) || IsDigit(text[r].rune))
      invariant begin < r <= end
      invariant LettersEnd(text, r, end) == LettersEnd(text, begin + 1, end)
    {
      r := r + 1;
    }
  }

  // A digit and all digits and points after it.
  method NumbersRule(text: seq<RuneStr>, begin: nat, end: nat) returns (r: nat)
    requires begin < end <= |text|
    ensures r == if IsDigit(text[begin].rune) then NumberEnd(text, begin + 1, end) else begin
  {
    if !IsDigit(text[begin].rune) {
      return begin;
    }
    r := begin + 1;
    while r != end && (IsDigit(text[r].rune) || text[r].rune == 0x2e)
      invariant begin < r <= end
      invariant NumberEnd(text, r, end) == NumberEnd(text, begin + 1, end)
    {
      r := r + 1;
    }
  }

  // Where the token starting with this ASCII rune stops: an identifier, a number, or the rune alone.
  function AsciiEnd(text: seq<RuneStr>, left: nat, end: nat): (r: nat)
    requires left < end <= |text|
    ensures left < r <= end
  {
    if IsLetter(text[left].rune) then LettersEnd(text, left + 1, end)
    else if IsDigit(text[left].rune) then NumberEnd(text, left + 1, end)
    else left + 1
  }

  // The words of text[left..end] when the runes of [left, right) are known not to be ASCII.
  ghost function Words(m: HMMModel, text: seq<RuneStr>, left: nat, right: nat, end: nat): seq<WordRange>
    requires m.Valid() && left <= right <= end <= |text|
    decreases end - right
  {
    if right == end then RunCut(m, text, left, right)
    else if text[right].rune < 0x80 then
      var stop := AsciiEnd(text, right, end);
      RunCut(m, text, left, right) + ([WordRange(right, stop - 1)] + Words(m, text, stop, stop, end))
    else Words(m, text, left, right + 1, end)
  }

  method AsciiToken(text: seq<RuneStr>, left: nat, end: nat) returns (right: nat)
    requires left < end <= |text|
    ensures right == AsciiEnd(text, left, end)
  {
    right := SequentialLetterRule(text, left, end);
    if right != left {
      return;
    }
    right := NumbersRule(text, left, end);
    if right != left {
      return;
    }
    right := right + 1;
  }

  method Cut(m: HMMModel, text: seq<RuneStr>, begin: nat, end: nat, res: seq<WordRange>) returns (res': seq<WordRange>)
    requires m.Valid() && begin <= end <= |text|
    ensures res' == res + Words(m, text, begin, begin, end)
  {
    hide RunCut, AsciiEnd;
    ghost var tags;
    res' := res;
    var left, right := begin, begin;
    while right != end
      invariant begin <= left <= right <= end
      invariant res' + Words(m, text, left, right, end) == res + Words(m, text, begin, begin, end)
      decreases end - right
    {
      if text[right].rune < 0x80 {
        ghost var was, run := res', RunCut(m, text, left, right);
        if left != right {
          res', tags := InternalCut(m, text, left, right, res');
        } else {
          NothingToCut(m, text, left);
        }
        assert res' == was + run;
        left := right;
        right := AsciiToken(text, left, end);
        ghost var word, rest := [WordRange(left, right - 1)], Words(m, text, right, right, end);
        assert (was + run) + word + rest == was + (run + (word + rest));
        res' := res' + [WordRange(left, right - 1)];
        left := right;
      } else {
        right := right + 1;
      }
    }
    if left != right {
      res', tags := InternalCut(m, text, left, right, res');
    } else {
      NothingToCut(m, text, left);
    }
  }

  lemma {:induction false} NothingToCut(m: HMMModel, text: seq<RuneStr>, at: nat)
    requires m.Valid() && at <= |text|
    ensures RunCut(m, text, at, at) == []
  {
  }

  // ---------------------------------------------------------------- nothing is lost, nothing is mixed

  lemma {:induction false} BreaksCover(status: seq<Tag>, begin: nat, left: nat, i: nat)
    requires i <= |status| && begin <= left <= begin + i
    requires if i < |status| then Ends(status[|status| - 1]) else left == begin + i
    ensures Covers(Breaks(status, begin, left, i), left, begin + |status|)
    decreases |status| - i
  {
    if i < |status| {
      if Ends(status[i]) {
        BreaksCover(status, begin, begin + i + 1, i + 1);
        assert Breaks(status, begin, left, i)[1..] == Breaks(status, begin, begin + i + 1, i + 1);
      } else {
        BreaksCover(status, begin, left, i + 1);
      }
    }
  }

  lemma {:induction false} RunCutCovers(m: HMMModel, text: seq<RuneStr>, begin: nat, end: nat)
    requires m.Valid() && begin <= end <= |text|
    ensures Covers(RunCut(m, text, begin, end), begin, end)
  {
    if begin < end {
      BreaksCover(Status(m, Runes(text[begin..end])), begin, begin, 0);
    }
  }

  lemma {:induction false} WordsCover(m: HMMModel, text: seq<RuneStr>, left: nat, right: nat, end: nat)
    requires m.Valid() && left <= right <= end <= |text|
    ensures Covers(Words(m, text, left, right, end), left, end)
    decreases end - right
  {
    RunCutCovers(m, text, left, right);
    if right < end {
      if text[right].rune < 0x80 {
        var stop := AsciiEnd(text, right, end);
        WordsCover(m, text, stop, stop, end);
        TokenStep(m, text, left, right, end);
        hide Words, RunCut, AsciiEnd;
        var rest := [WordRange(right, stop - 1)] + Words(m, text, stop, stop, end);
        assert rest[1..] == Words(m, text, stop, stop, end);
        CoversConcat(RunCut(m, text, left, right), rest, left, right, end);
      } else {
        WordsCover(m, text, left, right + 1, end);
      }
    }
  }

  // Where a token of this kind ends, and nothing more of the kind behind it: a letter with letters and digits,
  // a digit with digits and points, or anything else alone.
  lemma {:induction false} AsciiEndIs(text: seq<RuneStr>, left: nat, end: nat)
    requires left < end <= |text|
    ensures var r, x := AsciiEnd(text, left, end), text[left].rune;
            if 'a' as int <= x <= 'z' as int || 'A' as int <= x <= 'Z' as int then
              && (forall k | left < k < r :: Alphanumeric(text[k].rune)) && (r < end ==> !Alphanumeric(text[r].rune))
            else if '0' as int <= x <= '9' as int then
              && (forall k | left < k < r :: Numeric(text[k].rune)) && (r < end ==> !Numeric(text[r].rune))
            else r == left + 1
  {
    LettersEndIs(text, left + 1, end);
    NumberEndIs(text, left + 1, end);
  }

  lemma {:induction false} AlphanumericIs(x: Rune)
    ensures Alphanumeric(x) <==> IsLetter(x) || IsDigit(x)
  {
  }

  lemma {:induction false} NumericIs(x: Rune)
    ensures Numeric(x) <==> IsDigit(x) || x == 0x2e
  {
  }

  predicate Alphanumeric(x: Rune) {
    'a' as int <= x <= 'z' as int || 'A' as int <= x <= 'Z' as int || '0' as int <= x <= '9' as int
  }

  predicate Numeric(x: Rune) {
    '0' as int <= x <= '9' as int || x == '.' as int
  }

  lemma {:induction false} LettersEndIs(text: seq<RuneStr>, r: nat, end: nat)
    requires r <= end <= |text|
    ensures var q := LettersEnd(text, r, end);
            (forall k | r <= k < q :: Alphanumeric(text[k].rune)) && (q < end ==> !Alphanumeric(text[q].rune))
    decreases end - r
  {
    if r < end {
      AlphanumericIs(text[r].rune);
      if IsLetter(text[r].rune) || IsDigit(text[r].rune) {
        LettersEndIs(text, r + 1, end);
      }
    }
  }

  lemma {:induction false} NumberEndIs(text: seq<RuneStr>, r: nat, end: nat)
    requires r <= end <= |text|
    ensures var q := NumberEnd(text, r, end);
            (forall k | r <= k < q :: Numeric(text[k].rune)) && (q < end ==> !Numeric(text[q].rune))
    decreases end - r
  {
    if r < end {
      NumericIs(text[r].rune);
      if IsDigit(text[r].rune) || text[r].rune == 0x2e {
        NumberEndIs(text, r + 1, end);
      }
    }
  }

  // Each maximal stretch of runes that are not ASCII is tagged as one run.
  lemma {:induction false} StretchCutAsOne(m: HMMModel, text: seq<RuneStr>, left: nat, right: nat, end: nat, l: nat, r: nat)
    returns (before: seq<WordRange>)
    requires m.Valid() && left <= right <= end <= |text| && l < r <= end
    requires forall k | l <= k < r :: text[k].rune >= 0x80
    requires (left < l ==> text[l - 1].rune < 0x80) && (r < end ==> text[r].rune < 0x80)
    requires (left == l && right <= r) || right < l
    ensures Words(m, text, left, right, end) == before + (RunCut(m, text, l, r) + Words(m, text, r, r, end))
    ensures left == l ==> before == []
    decreases end - right
  {
    hide Words, RunCut, AsciiEnd;
    ghost var rest := RunCut(m, text, l, r) + Words(m, text, r, r, end);
    if left == l && right == r {
      before := [];
      RestOfStretch(m, text, l, r, end);
      assert [] + rest == rest;
    } else if text[right].rune < 0x80 {
      var stop := AsciiEnd(text, right, end);
      StopsBefore(text, right, l, end);
      TokenStep(m, text, left, right, end);
      var more := StretchCutAsOne(m, text, stop, stop, end, l, r);
      before := RunCut(m, text, left, right) + ([WordRange(right, stop - 1)] + more);
      Associate([WordRange(right, stop - 1)], more, rest);
      Associate(RunCut(m, text, left, right), [WordRange(right, stop - 1)] + more, rest);
    } else {
      PastStep(m, text, left, right, end);
      before := StretchCutAsOne(m, text, left, right + 1, end, l, r);
    }
  }

  lemma {:induction false} PastStep(m: HMMModel, text: seq<RuneStr>, left: nat, right: nat, end: nat)
    requires m.Valid() && left <= right < end <= |text| && text[right].rune >= 0x80
    ensures Words(m, text, left, right, end) == Words(m, text, left, right + 1, end)
  {
    hide RunCut, AsciiEnd;
  }

  lemma {:induction false} TokenStep(m: HMMModel, text: seq<RuneStr>, left: nat, right: nat, end: nat)
    requires m.Valid() && left <= right < end <= |text| && text[right].rune < 0x80
    ensures var stop := AsciiEnd(text, right, end);
            Words(m, text, left, right, end) ==
            RunCut(m, text, left, right) + ([WordRange(right, stop - 1)] + Words(m, text, stop, stop, end))
  {
    hide RunCut, AsciiEnd;
  }

  lemma {:induction false} RestOfStretch(m: HMMModel, text: seq<RuneStr>, l: nat, r: nat, end: nat)
    requires m.Valid() && l < r <= end <= |text| && (r < end ==> text[r].rune < 0x80)
    ensures Words(m, text, l, r, end) == RunCut(m, text, l, r) + Words(m, text, r, r, end)
  {
    NothingToCut(m, text, r);
    hide RunCut;
    if r < end {
      ghost var word := [WordRange(r, AsciiEnd(text, r, end) - 1)] + Words(m, text, AsciiEnd(text, r, end), AsciiEnd(text, r, end), end);
      assert [] + word == word;
    }
  }

  lemma {:induction false} TokenIsAscii(text: seq<RuneStr>, left: nat, end: nat)
    requires left < end <= |text| && text[left].rune < 0x80
    ensures forall k | left <= k < AsciiEnd(text, left, end) :: text[k].rune < 0x80
  {
    AsciiEndIs(text, left, end);
  }

  lemma {:induction false} StopsBefore(text: seq<RuneStr>, left: nat, l: nat, end: nat)
    requires left < l < end <= |text| && text[left].rune < 0x80 && text[l].rune >= 0x80
    ensures AsciiEnd(text, left, end) <= l
  {
    TokenIsAscii(text, left, end);
  }

  // A word is one whole ASCII token or has no ASCII rune in it.
  ghost predicate Unmixed(text: seq<RuneStr>, w: WordRange, end: nat)
    requires end <= |text|
  {
    && w.left <= w.right < end
    && if text[w.left].rune < 0x80 then w.right + 1 == AsciiEnd(text, w.left, end)
       else forall k | w.left <= k <= w.right :: text[k].rune >= 0x80
  }

  lemma {:induction false} WordsUnmixed(m: HMMModel, text: seq<RuneStr>, left: nat, right: nat, end: nat, w: WordRange)
    requires m.Valid() && left <= right <= end <= |text|
    requires forall k | left <= k < right :: text[k].rune >= 0x80
    requires w in Words(m, text, left, right, end)
    ensures Unmixed(text, w, end)
    decreases end - right
  {
    if right < end && text[right].rune >= 0x80 {
      WordsUnmixed(m, text, left, right + 1, end, w);
    } else if w in RunCut(m, text, left, right) {
      RunCutCovers(m, text, left, right);
      var run := RunCut(m, text, left, right);
      var k :| 0 <= k < |run| && run[k] == w;
      CoversSplit(run, left, right, k);
    } else {
      var stop := AsciiEnd(text, right, end);
      if w != WordRange(right, stop - 1) {
        WordsUnmixed(m, text, stop, stop, end, w);
      }
    }
  }
}
