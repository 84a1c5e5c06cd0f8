/**
 * Maximum-probability segmentation: dynamic programming over the word graph of a sentence.
 *
 * The optimum is stated over segmentations proper - sequences of word ranges that cover the
 * text - and not over the graph or the table that the code fills.
 */
module MPSegment {
  import opened Common
  import opened Unicode
  import opened Trie

  // ---------------------------------------------------------------- what is being optimised

  function PieceWeight(dict: Dictionary, minWeight: real, w: seq<Rune>): real {
    if w in dict then dict[w].weight else minWeight
  }

  // Every piece is a dictionary word of at most maxLen runes or a single rune.
  ghost predicate AllLegit(dict: Dictionary, text: seq<Rune>, maxLen: nat, ws: seq<WordRange>) {
    forall k | 0 <= k < |ws| :: Legit(dict, text, ws[k].left, ws[k].right, maxLen)
  }

  ghost predicate Segmentation(dict: Dictionary, text: seq<Rune>, maxLen: nat, ws: seq<WordRange>, i: nat) {
    Covers(ws, i, |text|) && AllLegit(dict, text, maxLen, ws)
  }

  ghost function Score(dict: Dictionary, minWeight: real, text: seq<Rune>, ws: seq<WordRange>): real
    requires forall k | 0 <= k < |ws| :: ws[k].left <= ws[k].right < |text|
  {
    if ws == [] then 0.0
    else PieceWeight(dict, minWeight, text[ws[0].left..ws[0].right + 1]) + Score(dict, minWeight, text, ws[1..])
  }

  // The words of a segmentation, and what they score, without the names above.
  lemma {:induction false} SegmentationIff(dict: Dictionary, text: seq<Rune>, ws: seq<WordRange>)
    ensures Segmentation(dict, text, MAX_WORD_LENGTH, ws, 0) <==>
              && (if ws == [] then text == [] else ws[0].left == 0 && ws[|ws| - 1].right + 1 == |text|)
              && (forall k | 0 < k < |ws| :: ws[k].left == ws[k - 1].right + 1)
              && forall k | 0 <= k < |ws| ::
                   && ws[k].left <= ws[k].right < |text|
                   && (ws[k].left == ws[k].right
                       || (ws[k].right - ws[k].left + 1 <= 512 && text[ws[k].left..ws[k].right + 1] in dict))
  {
    CoversIff(ws, 0, |text|);
    hide Covers;
    assert forall k | 0 <= k < |ws| :: Legit(dict, text, ws[k].left, ws[k].right, MAX_WORD_LENGTH) ==> ws[k].left <= ws[k].right;
  }

  lemma {:induction false} ScoreIs(dict: Dictionary, minWeight: real, text: seq<Rune>, ws: seq<WordRange>, w: WordRange)
    requires forall k | 0 <= k < |ws| :: ws[k].left <= ws[k].right < |text|
    requires w.left <= w.right < |text|
    ensures Score(dict, minWeight, text, []) == 0.0
    ensures var word := text[w.left..w.right + 1];
            Score(dict, minWeight, text, ws + [w]) ==
            Score(dict, minWeight, text, ws) + if word in dict then dict[word].weight else minWeight
  {
    ScoreAppend(dict, minWeight, text, ws, w);
  }

  ghost predicate AboveFloorFrom(dict: Dictionary, minWeight: real, text: seq<Rune>, maxLen: nat, i: nat) {
    exists ws :: Segmentation(dict, text, maxLen, ws, i) && Score(dict, minWeight, text, ws) > MIN_DOUBLE
  }

  // From every rune on, some segmentation scores above the floor at which the code starts comparing.
  ghost predicate AboveFloor(dict: Dictionary, minWeight: real, text: seq<Rune>, maxLen: nat) {
    forall i | 0 <= i < |text| :: AboveFloorFrom(dict, minWeight, text, maxLen, i)
  }

  // Cutting the text from i on into single runes.
  ghost function Singles(text: seq<Rune>, i: nat): (ws: seq<WordRange>)
    requires i <= |text|
    ensures Covers(ws, i, |text|)
    ensures |ws| == |text| - i && forall k | 0 <= k < |ws| :: ws[k] == WordRange(i + k, i + k)
    decreases |text| - i
  {
    if i == |text| then [] else [WordRange(i, i)] + Singles(text, i + 1)
  }

  lemma {:induction false} SinglesScore(dict: Dictionary, minWeight: real, text: seq<Rune>, i: nat)
    requires i <= |text| && forall w | w in dict :: dict[w].weight >= minWeight
    ensures Score(dict, minWeight, text, Singles(text, i)) >= (|text| - i) as real * minWeight
    decreases |text| - i
  {
    if i < |text| {
      SinglesScore(dict, minWeight, text, i + 1);
      OneSingle(dict, minWeight, text, i);
      hide Score, Singles, PieceWeight;
      OneMore(|text| - i - 1, minWeight);
    }
  }

  lemma {:induction false} OneSingle(dict: Dictionary, minWeight: real, text: seq<Rune>, i: nat)
    requires i < |text| && forall w | w in dict :: dict[w].weight >= minWeight
    ensures Score(dict, minWeight, text, Singles(text, i)) >= minWeight + Score(dict, minWeight, text, Singles(text, i + 1))
  {
    assert Singles(text, i)[1..] == Singles(text, i + 1);
    hide Covers;
    assert PieceWeight(dict, minWeight, text[i..i + 1]) >= minWeight;
  }

  lemma {:induction false} OneMore(n: nat, x: real)
    ensures (n + 1) as real * x == n as real * x + x
  {
    assert (n + 1) as real == n as real + 1.0;
  }

  lemma {:induction false} FewerIsMore(m: nat, n: nat, x: real)
    requires m <= n && x <= 0.0
    ensures m as real * x >= n as real * x
  {
    if m < n {
      FewerIsMore(m, n - 1, x);
      OneMore(n - 1, x);
    }
  }

  // What a caller can check beforehand: no word weighs less than minWeight, as is so when minWeight is the
  // least weight of the dictionary, and as many runes of that weight would still be above the floor.
  lemma {:induction false} LightEnough(dict: Dictionary, minWeight: real, text: seq<Rune>, maxLen: nat)
    requires minWeight <= 0.0 && forall w | w in dict :: dict[w].weight >= minWeight
    requires |text| as real * minWeight > MIN_DOUBLE
    ensures AboveFloor(dict, minWeight, text, maxLen)
  {
    hide Covers, Score;
    forall i | 0 <= i < |text| ensures AboveFloorFrom(dict, minWeight, text, maxLen, i) {
      SinglesScore(dict, minWeight, text, i);
      FewerIsMore(|text| - i, |text|, minWeight);
      assert Segmentation(dict, text, maxLen, Singles(text, i), i);
    }
  }

  // ---------------------------------------------------------------- the table

  type Graph = seq<seq<Edge>>

  ghost predicate Forward(g: Graph) {
    forall i, k | 0 <= i < |g| && 0 <= k < |g[i]| :: i <= g[i][k].pos < |g|
  }

  function EdgeWeight(minWeight: real, e: Edge): real {
    if e.entry.Some? then e.entry.value.weight else minWeight
  }

  // The best score from rune i on, never below the floor.
  ghost function Weight(g: Graph, minWeight: real, i: nat): real
    requires Forward(g)
    decreases |g| - i, 1, 0
  {
    if i < |g| then WeightUpTo(g, minWeight, i, |g[i]|) else 0.0
  }

  ghost function Value(g: Graph, minWeight: real, i: nat, k: nat): real
    requires Forward(g) && i < |g| && k < |g[i]|
    decreases |g| - i, 0, 0
  {
    Weight(g, minWeight, g[i][k].pos + 1) + EdgeWeight(minWeight, g[i][k])
  }

  ghost function WeightUpTo(g: Graph, minWeight: real, i: nat, k: nat): real
    requires Forward(g) && i < |g| && k <= |g[i]|
    decreases |g| - i, 0, k + 1
  {
    if k == 0 then MIN_DOUBLE
    else
      var before, val := WeightUpTo(g, minWeight, i, k - 1), Value(g, minWeight, i, k - 1);
      if val > before then val else before
  }

  // The unit of the first edge that reaches that score; none when no edge rises above the floor.
  ghost function ChosenUpTo(g: Graph, minWeight: real, i: nat, k: nat): Option<DictUnit>
    requires Forward(g) && i < |g| && k <= |g[i]|
  {
    if k == 0 then None
    else if Value(g, minWeight, i, k - 1) > WeightUpTo(g, minWeight, i, k - 1) then g[i][k - 1].entry
    else ChosenUpTo(g, minWeight, i, k - 1)
  }

  ghost predicate Solved(g: Graph, minWeight: real, i: nat, d: Dag)
    requires Forward(g) && i < |g|
  {
    d.nexts == g[i] && d.weight == Weight(g, minWeight, i) && d.pInfo == ChosenUpTo(g, minWeight, i, |g[i]|)
  }

  method CalcDP(dags: array<Dag>, minWeight: real, ghost g: Graph)
    requires |g| == dags.Length && Forward(g)
    requires forall i | 0 <= i < dags.Length :: dags[i].nexts == g[i]
    modifies dags
    ensures forall i | 0 <= i < dags.Length :: Solved(g, minWeight, i, dags[i])
  {
    var i := dags.Length;
    while i > 0
      invariant 0 <= i <= dags.Length
      invariant forall j | 0 <= j < i :: dags[j].nexts == g[j]
      invariant forall j | i <= j < dags.Length :: Solved(g, minWeight, j, dags[j])
    {
      i := i - 1;
      var nexts := dags[i].nexts;
      var pInfo: Option<DictUnit> := None;
      var weight := MIN_DOUBLE;
      for k := 0 to |nexts|
        invariant weight == WeightUpTo(g, minWeight, i, k)
        invariant pInfo == ChosenUpTo(g, minWeight, i, k)
      {
        var nextPos, p := nexts[k].pos, nexts[k].entry;
        var val := 0.0;
        if nextPos + 1 < dags.Length {
          val := val + dags[nextPos + 1].weight;
        }
        val := val + (if p.Some? then p.value.weight else minWeight);
        assert val == Value(g, minWeight, i, k);
        if val > weight {
          pInfo := p;
          weight := val;
        }
      }
      dags[i] := dags[i].(pInfo := pInfo, weight := weight);
    }
  }

  // ---------------------------------------------------------------- the table bounds every segmentation

  ghost function GraphOf(dict: Dictionary, text: seq<Rune>, maxLen: nat): (g: Graph)
    ensures |g| == |text| && Forward(g)
    ensures forall i | 0 <= i < |g| :: g[i] == Edges(dict, text, i, maxLen)
  {
    var g := seq(|text|, i requires 0 <= i < |text| => Edges(dict, text, i, maxLen));
    assert Forward(g) by {
      forall i, k | 0 <= i < |g| && 0 <= k < |g[i]| ensures i <= g[i][k].pos < |g| {
        EdgesComplete(dict, text, i, maxLen, g[i][k]);
        assert g[i][k] in Edges(dict, text, i, maxLen);
      }
    }
    g
  }

  lemma {:induction false} WeightIsBound(g: Graph, minWeight: real, i: nat, k: nat, m: nat)
    requires Forward(g) && i < |g| && k < m <= |g[i]|
    ensures Value(g, minWeight, i, k) <= WeightUpTo(g, minWeight, i, m)
  {
    if k < m - 1 {
      WeightIsBound(g, minWeight, i, k, m - 1);
    }
  }

  // Above the floor, the choice is the first edge that gives the weight.
  lemma {:induction false} ChoiceGivesWeight(g: Graph, minWeight: real, i: nat, m: nat) returns (k: nat)
    requires Forward(g) && i < |g| && m <= |g[i]|
    requires WeightUpTo(g, minWeight, i, m) > MIN_DOUBLE
    ensures k < m && Value(g, minWeight, i, k) == WeightUpTo(g, minWeight, i, m)
    ensures ChosenUpTo(g, minWeight, i, m) == g[i][k].entry
    ensures forall j | 0 <= j < k :: Value(g, minWeight, i, j) < WeightUpTo(g, minWeight, i, m)
  {
    hide Value;
    if Value(g, minWeight, i, m - 1) > WeightUpTo(g, minWeight, i, m - 1) {
      k := m - 1;
      forall j | 0 <= j < k ensures Value(g, minWeight, i, j) < WeightUpTo(g, minWeight, i, m) {
        WeightIsBound(g, minWeight, i, j, m - 1);
      }
    } else {
      k := ChoiceGivesWeight(g, minWeight, i, m - 1);
    }
  }

  lemma {:induction false} ChoiceIsEdgeOrNone(g: Graph, minWeight: real, i: nat, m: nat)
    requires Forward(g) && i < |g| && m <= |g[i]|
    ensures var p := ChosenUpTo(g, minWeight, i, m); p.Some? ==> exists k :: 0 <= k < m && g[i][k].entry == p
  {
    if m > 0 {
      ChoiceIsEdgeOrNone(g, minWeight, i, m - 1);
      assert 0 <= m - 1 < m;
    }
  }

  lemma {:induction false} SegmentationBounded(dict: Dictionary, minWeight: real, text: seq<Rune>, maxLen: nat, ws: seq<WordRange>, i: nat)
    requires Segmentation(dict, text, maxLen, ws, i)
    ensures forall k | 0 <= k < |ws| :: Legit(dict, text, ws[k].left, ws[k].right, maxLen)
    ensures Score(dict, minWeight, text, ws) <= Weight(GraphOf(dict, text, maxLen), minWeight, i)
    decreases |ws|
  {
    if ws != [] {
      assert Legit(dict, text, ws[0].left, ws[0].right, maxLen);
      forall k | 0 <= k < |ws| - 1 ensures Legit(dict, text, ws[1..][k].left, ws[1..][k].right, maxLen) {
        assert ws[1..][k] == ws[k + 1];
      }
      SegmentationBounded(dict, minWeight, text, maxLen, ws[1..], ws[0].right + 1);
      hide Edges, LongerWords;
      var g := GraphOf(dict, text, maxLen);
      var e := Edge(ws[0].right, Lookup(dict, text[i..ws[0].right + 1]));
      EdgesComplete(dict, text, i, maxLen, e);
      var k :| 0 <= k < |g[i]| && g[i][k] == e;
      WeightIsBound(g, minWeight, i, k, |g[i]|);
    }
  }

  // ---------------------------------------------------------------- which of the best cuts it is

  // Where the two differ first, xs has the shorter word.
  ghost predicate Sooner(xs: seq<WordRange>, ys: seq<WordRange>) {
    xs != [] && ys != [] && (xs[0].right < ys[0].right || (xs[0] == ys[0] && Sooner(xs[1..], ys[1..])))
  }

  // No segmentation scores higher, and of those that score the same it has the shorter words first.
  ghost predicate Best(dict: Dictionary, minWeight: real, text: seq<Rune>, maxLen: nat, cut: seq<WordRange>)
    requires Segmentation(dict, text, maxLen, cut, 0)
  {
    forall ws | Segmentation(dict, text, maxLen, ws, 0) ::
      Score(dict, minWeight, text, ws) <= Score(dict, minWeight, text, cut)
      && (Score(dict, minWeight, text, ws) == Score(dict, minWeight, text, cut) ==> ws == cut || Sooner(cut, ws))
  }

  // The words chosen from rune i on.
  ghost function ChosenFrom(dict: Dictionary, minWeight: real, text: seq<Rune>, maxLen: nat, i: nat): seq<WordRange>
    requires WellKeyed(dict) && i <= |text|
    decreases |text| - i
  {
    if i == |text| then []
    else
      ChoiceIsLegit(dict, minWeight, text, maxLen, i);
      var n := StepLength(Chosen(dict, minWeight, text, maxLen, i));
      [WordRange(i, i + n - 1)] + ChosenFrom(dict, minWeight, text, maxLen, i + n)
  }

  lemma {:induction false} ChosenStep(dict: Dictionary, minWeight: real, text: seq<Rune>, maxLen: nat, cut: seq<WordRange>, i: nat)
    requires WellKeyed(dict) && i < |text|
    ensures var n := StepLength(Chosen(dict, minWeight, text, maxLen, i));
            && n >= 1 && i + n <= |text|
            && cut + ChosenFrom(dict, minWeight, text, maxLen, i) ==
               cut + [WordRange(i, i + n - 1)] + ChosenFrom(dict, minWeight, text, maxLen, i + n)
  {
    hide Chosen, StepLength;
    ChoiceIsLegit(dict, minWeight, text, maxLen, i);
  }

  // The first word of a best segmentation is an edge as good as the chosen one, and what is left is best again.
  lemma {:induction false} FirstOfBest(dict: Dictionary, minWeight: real, text: seq<Rune>, maxLen: nat, ws: seq<WordRange>, i: nat)
    requires WellKeyed(dict) && i < |text| && AboveFloorFrom(dict, minWeight, text, maxLen, i)
    requires Segmentation(dict, text, maxLen, ws, i) && ws != []
    requires Score(dict, minWeight, text, ws) == Weight(GraphOf(dict, text, maxLen), minWeight, i)
    ensures var n := StepLength(Chosen(dict, minWeight, text, maxLen, i));
            var next := ws[0].right + 1;
            && ws[0].left == i && i + n <= next
            && Segmentation(dict, text, maxLen, ws[1..], next)
            && Score(dict, minWeight, text, ws[1..]) == Weight(GraphOf(dict, text, maxLen), minWeight, next)
  {
    hide Weight, Edges;
    var g := GraphOf(dict, text, maxLen);
    assert Legit(dict, text, ws[0].left, ws[0].right, maxLen);
    assert AllLegit(dict, text, maxLen, ws[1..]) by {
      assert forall k | 0 <= k < |ws| - 1 :: ws[1..][k] == ws[k + 1];
    }
    SegmentationBounded(dict, minWeight, text, maxLen, ws[1..], ws[0].right + 1);
    var e := Edge(ws[0].right, Lookup(dict, text[i..ws[0].right + 1]));
    EdgesComplete(dict, text, i, maxLen, e);
    var k0 :| 0 <= k0 < |g[i]| && g[i][k0] == e;
    WeightIsBound(g, minWeight, i, k0, |g[i]|);
    WeightIs(g, minWeight, i);
    AboveAt(dict, minWeight, text, maxLen, i);
    var k := ChoiceGivesWeight(g, minWeight, i, |g[i]|);
    EdgesAscend(dict, text, i, maxLen);
    EdgeIsWord(dict, text, maxLen, i, k);
    assert k <= k0;
  }

  lemma {:induction false} WeightIs(g: Graph, minWeight: real, i: nat)
    requires Forward(g) && i < |g|
    ensures Weight(g, minWeight, i) == WeightUpTo(g, minWeight, i, |g[i]|)
  {
  }

  lemma {:induction false} AboveAt(dict: Dictionary, minWeight: real, text: seq<Rune>, maxLen: nat, i: nat)
    requires i < |text| && AboveFloorFrom(dict, minWeight, text, maxLen, i)
    ensures Weight(GraphOf(dict, text, maxLen), minWeight, i) > MIN_DOUBLE
  {
    var ws :| Segmentation(dict, text, maxLen, ws, i) && Score(dict, minWeight, text, ws) > MIN_DOUBLE;
    SegmentationBounded(dict, minWeight, text, maxLen, ws, i);
  }

  lemma {:induction false} ChosenIsSooner(dict: Dictionary, minWeight: real, text: seq<Rune>, maxLen: nat, ws: seq<WordRange>, i: nat)
    requires WellKeyed(dict) && i <= |text| && AboveFloor(dict, minWeight, text, maxLen)
    requires Segmentation(dict, text, maxLen, ws, i)
    requires Score(dict, minWeight, text, ws) == Weight(GraphOf(dict, text, maxLen), minWeight, i)
    ensures var cut := ChosenFrom(dict, minWeight, text, maxLen, i); ws == cut || Sooner(cut, ws)
    decreases |ws|
  {
    hide Weight, Chosen, StepLength, GraphOf, Score, AllLegit;
    if i < |text| {
      FirstOfBest(dict, minWeight, text, maxLen, ws, i);
      var cut := ChosenFrom(dict, minWeight, text, maxLen, i);
      if cut[0].right == ws[0].right {
        ChosenIsSooner(dict, minWeight, text, maxLen, ws[1..], ws[0].right + 1);
        assert cut[1..] == ChosenFrom(dict, minWeight, text, maxLen, ws[0].right + 1);
        assert ws == [ws[0]] + ws[1..] && cut == [cut[0]] + cut[1..];
      }
    }
  }

  // ---------------------------------------------------------------- reading the cut off the table

  method CutByDag(begin: nat, dags: array<Dag>, words: seq<WordRange>,
                  ghost dict: Dictionary, ghost text: seq<Rune>, ghost maxLen: nat, ghost minWeight: real)
    returns (res: seq<WordRange>, ghost cut: seq<WordRange>)
    requires WellKeyed(dict) && |text| == dags.Length
    requires forall i | 0 <= i < dags.Length :: Solved(GraphOf(dict, text, maxLen), minWeight, i, dags[i])
    ensures res == words + Shift(cut, begin)
    ensures words <= res && Covers(res[|words|..], begin, begin + dags.Length)
    ensures Segmentation(dict, text, maxLen, cut, 0)
    ensures AboveFloor(dict, minWeight, text, maxLen) ==>
              Score(dict, minWeight, text, cut) == Weight(GraphOf(dict, text, maxLen), minWeight, 0)
    ensures cut == ChosenFrom(dict, minWeight, text, maxLen, 0)
  {
    hide Weight, ChosenFrom, Covers, Score, Shift, Chosen;
    NothingCut(dict, minWeight, text, maxLen, begin);
    ghost var g := GraphOf(dict, text, maxLen);
    res, cut := words, [];
    var i := 0;
    while i < dags.Length
      invariant 0 <= i <= dags.Length
      invariant res == words + Shift(cut, begin)
      invariant Covers(cut, 0, i) && AllLegit(dict, text, maxLen, cut)
      invariant cut + ChosenFrom(dict, minWeight, text, maxLen, i) == ChosenFrom(dict, minWeight, text, maxLen, 0)
      invariant AboveFloor(dict, minWeight, text, maxLen) ==>
                  Score(dict, minWeight, text, cut) + Weight(g, minWeight, i) == Weight(g, minWeight, 0)
      decreases dags.Length - i
    {
      var p := dags[i].pInfo;
      assert Solved(g, minWeight, i, dags[i]);
      ChoiceIs(dict, minWeight, text, maxLen, i, p);
      Extend(dict, minWeight, text, maxLen, begin, cut, i);
      ChosenStep(dict, minWeight, text, maxLen, cut, i);
      cut := cut + [WordRange(i, i + StepLength(p) - 1)];
      if p.Some? {
        res := res + [WordRange(begin + i, begin + i + |p.value.word| - 1)];
        i := i + |p.value.word|;
      } else {
        res := res + [WordRange(begin + i, begin + i)];
        i := i + 1;
      }
    }
    WeightAtEnd(g, minWeight);
    NothingChosen(dict, minWeight, text, maxLen, cut);
    ShiftCovers(cut, begin, 0, dags.Length);
    assert res[|words|..] == Shift(cut, begin);
  }

  lemma {:induction false} ChoiceIs(dict: Dictionary, minWeight: real, text: seq<Rune>, maxLen: nat, i: nat, p: Option<DictUnit>)
    requires i < |text|
    requires var g := GraphOf(dict, text, maxLen); p == ChosenUpTo(g, minWeight, i, |g[i]|)
    ensures p == Chosen(dict, minWeight, text, maxLen, i)
  {
  }

  lemma {:induction false} NothingCut(dict: Dictionary, minWeight: real, text: seq<Rune>, maxLen: nat, begin: nat)
    ensures Covers([], 0, 0) && AllLegit(dict, text, maxLen, []) && Shift([], begin) == [] && Score(dict, minWeight, text, []) == 0.0
  {
  }

  lemma {:induction false} NothingChosen(dict: Dictionary, minWeight: real, text: seq<Rune>, maxLen: nat, cut: seq<WordRange>)
    requires WellKeyed(dict)
    ensures cut + ChosenFrom(dict, minWeight, text, maxLen, |text|) == cut
  {
  }

  lemma {:induction false} WeightAtEnd(g: Graph, minWeight: real)
    requires Forward(g)
    ensures Weight(g, minWeight, |g|) == 0.0
  {
  }

  function Shift(ws: seq<WordRange>, d: nat): (r: seq<WordRange>)
    ensures |r| == |ws|
  {
    seq(|ws|, k requires 0 <= k < |ws| => WordRange(ws[k].left + d, ws[k].right + d))
  }

  lemma {:induction false} ShiftCovers(ws: seq<WordRange>, d: nat, b: nat, e: nat)
    requires Covers(ws, b, e)
    ensures Covers(Shift(ws, d), b + d, e + d)
  {
    if ws != [] {
      ShiftCovers(ws[1..], d, ws[0].right + 1, e);
      assert Shift(ws, d)[1..] == Shift(ws[1..], d);
    }
  }

  ghost function Chosen(dict: Dictionary, minWeight: real, text: seq<Rune>, maxLen: nat, i: nat): Option<DictUnit>
    requires i < |text|
  {
    var g := GraphOf(dict, text, maxLen);
    ChosenUpTo(g, minWeight, i, |g[i]|)
  }

  function StepLength(p: Option<DictUnit>): nat {
    if p.Some? then |p.value.word| else 1
  }

  lemma {:induction false} EdgeIsWord(dict: Dictionary, text: seq<Rune>, maxLen: nat, i: nat, k: nat)
    requires WellKeyed(dict) && i < |text| && k < |Edges(dict, text, i, maxLen)|
    ensures var e := Edges(dict, text, i, maxLen)[k];
            && Legit(dict, text, i, e.pos, maxLen)
            && StepLength(e.entry) == e.pos + 1 - i
            && forall minWeight :: EdgeWeight(minWeight, e) == PieceWeight(dict, minWeight, text[i..e.pos + 1])
  {
    var e := Edges(dict, text, i, maxLen)[k];
    EdgesComplete(dict, text, i, maxLen, e);
  }

  // What is chosen at rune i is a word that may stand there.
  lemma {:induction false} ChoiceIsLegit(dict: Dictionary, minWeight: real, text: seq<Rune>, maxLen: nat, i: nat)
    requires WellKeyed(dict) && i < |text|
    ensures var n := StepLength(Chosen(dict, minWeight, text, maxLen, i));
            n >= 1 && Legit(dict, text, i, i + n - 1, maxLen)
  {
    var g := GraphOf(dict, text, maxLen);
    ChoiceIsEdgeOrNone(g, minWeight, i, |g[i]|);
    var p := Chosen(dict, minWeight, text, maxLen, i);
    if p.Some? {
      var k :| 0 <= k < |g[i]| && g[i][k].entry == p;
      EdgeIsWord(dict, text, maxLen, i, k);
    }
  }

  // Above the floor it gives up no score.
  lemma {:induction false} ChoiceKeepsScore(dict: Dictionary, minWeight: real, text: seq<Rune>, maxLen: nat, i: nat)
    requires WellKeyed(dict) && i < |text| && AboveFloorFrom(dict, minWeight, text, maxLen, i)
    ensures var g := GraphOf(dict, text, maxLen);
            var n := StepLength(Chosen(dict, minWeight, text, maxLen, i));
            i + n <= |text| &&
            Weight(g, minWeight, i) == PieceWeight(dict, minWeight, text[i..i + n]) + Weight(g, minWeight, i + n)
  {
    var g := GraphOf(dict, text, maxLen);
    var ws :| Segmentation(dict, text, maxLen, ws, i) && Score(dict, minWeight, text, ws) > MIN_DOUBLE;
    SegmentationBounded(dict, minWeight, text, maxLen, ws, i);
    var k := ChoiceGivesWeight(g, minWeight, i, |g[i]|);
    EdgeIsWord(dict, text, maxLen, i, k);
  }

  lemma {:induction false} Extend(dict: Dictionary, minWeight: real, text: seq<Rune>, maxLen: nat, begin: nat, cut: seq<WordRange>, i: nat)
    requires WellKeyed(dict) && i < |text|
    requires Covers(cut, 0, i) && AllLegit(dict, text, maxLen, cut)
    ensures var n := StepLength(Chosen(dict, minWeight, text, maxLen, i));
            n >= 1 && i + n <= |text| &&
            var c := cut + [WordRange(i, i + n - 1)];
            && Covers(c, 0, i + n) && AllLegit(dict, text, maxLen, c)
            && Shift(c, begin) == Shift(cut, begin) + [WordRange(begin + i, begin + i + n - 1)]
            && (AboveFloorFrom(dict, minWeight, text, maxLen, i) ==>
                  var g := GraphOf(dict, text, maxLen);
                  Score(dict, minWeight, text, c) + Weight(g, minWeight, i + n)
                    == Score(dict, minWeight, text, cut) + Weight(g, minWeight, i))
  {
    hide GraphOf, Weight, Chosen, Covers, StepLength;
    ChoiceIsLegit(dict, minWeight, text, maxLen, i);
    var n := StepLength(Chosen(dict, minWeight, text, maxLen, i));
    CoversAppend(cut, 0, i, i + n - 1);
    ScoreAppend(dict, minWeight, text, cut, WordRange(i, i + n - 1));
    if AboveFloorFrom(dict, minWeight, text, maxLen, i) {
      ChoiceKeepsScore(dict, minWeight, text, maxLen, i);
    }
  }

  lemma {:induction false} ScoreAppend(dict: Dictionary, minWeight: real, text: seq<Rune>, ws: seq<WordRange>, w: WordRange)
    requires forall k | 0 <= k < |ws| :: ws[k].left <= ws[k].right < |text|
    requires w.left <= w.right < |text|
    ensures Score(dict, minWeight, text, ws + [w]) ==
            Score(dict, minWeight, text, ws) + PieceWeight(dict, minWeight, text[w.left..w.right + 1])
  {
    if ws != [] {
      ScoreAppend(dict, minWeight, text, ws[1..], w);
      assert (ws + [w])[1..] == ws[1..] + [w];
    }
  }

  // ---------------------------------------------------------------- the whole cut

  method Cut(trie: Trie, minWeight: real, runes: seq<RuneStr>, begin: nat, end: nat, words: seq<WordRange>, maxLen: nat)
    returns (res: seq<WordRange>, ghost cut: seq<WordRange>)
    requires trie.Valid() && WellKeyed(trie.dict) && begin <= end <= |runes|
    ensures res == words + Shift(cut, begin)
    ensures words <= res && Covers(res[|words|..], begin, end)
    ensures Segmentation(trie.dict, Runes(runes[begin..end]), maxLen, cut, 0)
    ensures AboveFloor(trie.dict, minWeight, Runes(runes[begin..end]), maxLen) ==>
              Best(trie.dict, minWeight, Runes(runes[begin..end]), maxLen, cut)
  {
    ghost var text := Runes(runes[begin..end]);
    ghost var g := GraphOf(trie.dict, text, maxLen);
    var dags := trie.FindDag(runes, begin, end, maxLen);
    CalcDP(dags, minWeight, g);
    res, cut := CutByDag(begin, dags, words, trie.dict, text, maxLen, minWeight);
    if AboveFloor(trie.dict, minWeight, text, maxLen) {
      forall ws | Segmentation(trie.dict, text, maxLen, ws, 0)
        ensures Score(trie.dict, minWeight, text, ws) <= Score(trie.dict, minWeight, text, cut)
        ensures Score(trie.dict, minWeight, text, ws) == Score(trie.dict, minWeight, text, cut) ==> ws == cut || Sooner(cut, ws)
      {
        SegmentationBounded(trie.dict, minWeight, text, maxLen, ws, 0);
        if Score(trie.dict, minWeight, text, ws) == Score(trie.dict, minWeight, text, cut) {
          ChosenIsSooner(trie.dict, minWeight, text, maxLen, ws, 0);
        }
      }
    }
  }
}
