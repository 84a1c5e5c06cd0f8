/**
 * The segmenter the server uses: dictionary words first, then the hidden Markov model over
 * every run of single runes that the dictionary cut has left over.
 */
module MixSegment {
  import opened Common
  import opened Unicode
  import opened Trie
  import MPSegment
  import HMMSegment
  import PreFilter

  class MixSegment {
    const trie: Trie
    const minWeight: real
    const userSingles: set<Rune>  // single runes that the user dictionary lists as words
    const model: HMMSegment.HMMModel
    const symbols: set<Rune>

    constructor (trie: Trie, minWeight: real, userSingles: set<Rune>, model: HMMSegment.HMMModel, symbols: set<Rune>)
      ensures this.trie == trie && this.minWeight == minWeight && this.userSingles == userSingles
      ensures this.model == model && this.symbols == symbols
    {
      this.trie, this.minWeight, this.userSingles, this.model, this.symbols := trie, minWeight, userSingles, model, symbols;
    }

    ghost predicate Valid()
      reads trie, trie.Repr
    {
      trie.Valid() && WellKeyed(trie.dict) && model.Valid()
    }

    // ---------------------------------------------------------------- what the second cut may touch

    // A dictionary word, or a single rune that the user dictionary lists.
    predicate Keeps(text: seq<RuneStr>, w: WordRange)
      requires w.left <= w.right < |text|
    {
      w.left != w.right || text[w.left].rune in userSingles
    }

    ghost predicate InOrder(text: seq<RuneStr>, words: seq<WordRange>) {
      && (forall k | 0 <= k < |words| :: words[k].left <= words[k].right < |text|)
      && (forall k, l | 0 <= k < l < |words| :: words[k].right < words[l].left)
    }

    // The first kept word at or after i.
    ghost function RunEnd(text: seq<RuneStr>, words: seq<WordRange>, i: nat): (j: nat)
      requires InOrder(text, words) && i <= |words|
      ensures i <= j <= |words|
      decreases |words| - i
    {
      if i < |words| && !Keeps(text, words[i]) then RunEnd(text, words, i + 1) else i
    }

    lemma {:induction false} RunEndStops(text: seq<RuneStr>, words: seq<WordRange>, i: nat, k: nat)
      requires InOrder(text, words) && i <= k < |words| && Keeps(text, words[k])
      ensures RunEnd(text, words, i) <= k
      decreases |words| - i
    {
      if !Keeps(text, words[i]) {
        RunEndStops(text, words, i + 1, k);
      }
    }

    // From i to there, single runes that the user dictionary does not list, and no more of them behind.
    lemma {:induction false} RunIsMaximal(text: seq<RuneStr>, words: seq<WordRange>, i: nat)
      requires InOrder(text, words) && i <= |words|
      ensures var j := RunEnd(text, words, i);
              && (forall k | i <= k < j :: words[k].left == words[k].right && text[words[k].left].rune !in userSingles)
              && (j == |words| || words[j].left != words[j].right || text[words[j].left].rune in userSingles)
      decreases |words| - i
    {
      if i < |words| && !Keeps(text, words[i]) {
        RunIsMaximal(text, words, i + 1);
      }
    }

    // The run of words i .. j - 1, cut anew.
    ghost function RecutRun(text: seq<RuneStr>, words: seq<WordRange>, i: nat, j: nat): seq<WordRange>
      requires InOrder(text, words) && model.Valid() && i < j <= |words|
    {
      HMMSegment.Words(model, text, words[i].left, words[i].left, words[j - 1].left + 1)
    }

    ghost function Recut(text: seq<RuneStr>, words: seq<WordRange>, i: nat): seq<WordRange>
      requires InOrder(text, words) && model.Valid() && i <= |words|
      decreases |words| - i
    {
      if i == |words| then []
      else if Keeps(text, words[i]) then [words[i]] + Recut(text, words, i + 1)
      else
        var j := RunEnd(text, words, i + 1);
        RecutRun(text, words, i, j) + Recut(text, words, j)
    }

    lemma {:induction false} CoverIsInOrder(text: seq<RuneStr>, words: seq<WordRange>, b: nat, e: nat)
      requires Covers(words, b, e) && e <= |text|
      ensures InOrder(text, words)
      ensures forall k | 0 <= k < |words| :: b <= words[k].left && words[k].right < e
    {
      if words != [] {
        CoverIsInOrder(text, words[1..], words[0].right + 1, e);
        forall k | 0 <= k < |words|
          ensures b <= words[k].left <= words[k].right < e && (k > 0 ==> words[0].right < words[k].left)
        {
          assert k > 0 ==> words[k] == words[1..][k - 1];
        }
        forall k, l | 0 <= k < l < |words| ensures words[k].right < words[l].left {
          assert words[l] == words[1..][l - 1];
          assert k > 0 ==> words[k] == words[1..][k - 1];
        }
      }
    }

    // ---------------------------------------------------------------- which stretches are cut anew

    // All of words a .. b - 1 are unlisted single runes, between kept words or ends.
    ghost predicate Block(text: seq<RuneStr>, words: seq<WordRange>, a: nat, b: nat)
      requires InOrder(text, words)
    {
      && a < b <= |words|
      && (forall k | a <= k < b :: words[k].left == words[k].right && text[words[k].left].rune !in userSingles)
      && (a == 0 || words[a - 1].left != words[a - 1].right || text[words[a - 1].left].rune in userSingles)
      && (b == |words| || words[b].left != words[b].right || text[words[b].left].rune in userSingles)
    }

    lemma {:induction false} RecutStep(text: seq<RuneStr>, words: seq<WordRange>, i: nat)
      requires model.Valid() && InOrder(text, words) && i < |words|
      ensures Recut(text, words, i) ==
              if Keeps(text, words[i]) then [words[i]] + Recut(text, words, i + 1)
              else RecutRun(text, words, i, RunEnd(text, words, i + 1)) + Recut(text, words, RunEnd(text, words, i + 1))
    {
    }

    lemma {:induction false} BlockIsRun(text: seq<RuneStr>, words: seq<WordRange>, a: nat, b: nat)
      requires InOrder(text, words) && Block(text, words, a, b)
      ensures !Keeps(text, words[a]) && RunEnd(text, words, a + 1) == b
    {
      var j := RunEnd(text, words, a + 1);
      RunIsMaximal(text, words, a + 1);
      assert j < b ==> a <= j < b;
      assert b < j ==> a + 1 <= b < j;
    }

    // What the model makes of it, as one stretch.
    ghost function BlockCut(text: seq<RuneStr>, words: seq<WordRange>, a: nat, b: nat): seq<WordRange>
      requires model.Valid() && InOrder(text, words) && Block(text, words, a, b)
    {
      BlockBounds(text, words, a, b);
      HMMSegment.Words(model, text, words[a].left, words[a].left, words[b - 1].right + 1)
    }

    lemma {:induction false} BlockBounds(text: seq<RuneStr>, words: seq<WordRange>, a: nat, b: nat)
      requires InOrder(text, words) && Block(text, words, a, b)
      ensures a < b <= |words| && words[a].left <= words[b - 1].right < |text| && words[b - 1].left == words[b - 1].right
    {
      assert a == b - 1 || words[a].right < words[b - 1].left;
    }

    lemma {:induction false} BlockStep(text: seq<RuneStr>, words: seq<WordRange>, a: nat, b: nat)
      requires model.Valid() && InOrder(text, words) && Block(text, words, a, b)
      ensures Recut(text, words, a) == BlockCut(text, words, a, b) + Recut(text, words, b)
    {
      BlockIsRun(text, words, a, b);
      BlockBounds(text, words, a, b);
      hide HMMSegment.Words, RunEnd, Keeps;
    }

    // It stands between what becomes of the words before the block and of those behind.
    lemma {:induction false} BlockCutAsOne(text: seq<RuneStr>, words: seq<WordRange>, i: nat, a: nat, b: nat) returns (before: seq<WordRange>)
      requires model.Valid() && InOrder(text, words) && Block(text, words, a, b) && i <= a
      ensures Recut(text, words, i) == before + (BlockCut(text, words, a, b) + Recut(text, words, b))
      ensures i == a ==> before == []
    {
      BlockBounds(text, words, a, b);
      before := UpToBlock(text, words, i, a, b);
      BlockStep(text, words, a, b);
      hide BlockCut, Block, Keeps, Recut, HMMSegment.Words;
    }

    lemma {:induction false} UpToBlock(text: seq<RuneStr>, words: seq<WordRange>, i: nat, a: nat, b: nat) returns (before: seq<WordRange>)
      requires model.Valid() && InOrder(text, words) && Block(text, words, a, b) && i <= a <= |words|
      ensures Recut(text, words, i) == before + Recut(text, words, a)
      ensures i == a ==> before == []
      decreases a - i
    {
      hide Block, InOrder, RunEnd, Keeps, Recut, RecutRun, HMMSegment.Words;
      ghost var rest := Recut(text, words, a);
      if i == a {
        before := [];
        assert [] + rest == rest;
      } else {
        StepBefore(text, words, i, a, b);
        if Keeps(text, words[i]) {
          var more := UpToBlock(text, words, i + 1, a, b);
          before := [words[i]] + more;
          Associate([words[i]], more, rest);
        } else {
          var j := RunEnd(text, words, i + 1);
          var more := UpToBlock(text, words, j, a, b);
          before := RecutRun(text, words, i, j) + more;
          Associate(RecutRun(text, words, i, j), more, rest);
        }
      }
    }

    lemma {:induction false} StepBefore(text: seq<RuneStr>, words: seq<WordRange>, i: nat, a: nat, b: nat)
      requires model.Valid() && InOrder(text, words) && Block(text, words, a, b) && i < a
      ensures words[i].left <= words[i].right < |text|
      ensures if Keeps(text, words[i]) then Recut(text, words, i) == [words[i]] + Recut(text, words, i + 1)
              else
                var j := RunEnd(text, words, i + 1);
                i < j < a && Recut(text, words, i) == RecutRun(text, words, i, j) + Recut(text, words, j)
    {
      KeptBefore(text, words, a, b);
      RecutStep(text, words, i);
      hide Recut, RecutRun, RunEnd, Keeps, Block, HMMSegment.Words;
      if !Keeps(text, words[i]) {
        assert i < a - 1;
        RunEndStops(text, words, i + 1, a - 1);
      }
    }

    lemma {:induction false} KeptBefore(text: seq<RuneStr>, words: seq<WordRange>, a: nat, b: nat)
      requires InOrder(text, words) && Block(text, words, a, b) && a > 0
      ensures a <= |words| && Keeps(text, words[a - 1])
    {
    }

    // ---------------------------------------------------------------- one piece

    // The cut of a piece into dictionary words and single runes: none scores higher, and of those that score the
    // same it has the shorter words first.
    ghost predicate BestCut(text: seq<RuneStr>, begin: nat, end: nat, cut: seq<WordRange>)
      requires begin <= end <= |text|
      reads trie
    {
      && Covers(MPSegment.Shift(cut, begin), begin, end) && InOrder(text, MPSegment.Shift(cut, begin))
      && MPSegment.Segmentation(trie.dict, Runes(text[begin..end]), MAX_WORD_LENGTH, cut, 0)
      && (MPSegment.AboveFloor(trie.dict, minWeight, Runes(text[begin..end]), MAX_WORD_LENGTH) ==>
            MPSegment.Best(trie.dict, minWeight, Runes(text[begin..end]), MAX_WORD_LENGTH, cut))
    }

    // What becomes of it in the sentence, with and without the second cut.
    ghost function OneCut(text: seq<RuneStr>, begin: nat, end: nat, cut: seq<WordRange>, hmm: bool): seq<WordRange>
      requires begin <= end <= |text| && model.Valid() && BestCut(text, begin, end, cut)
      reads trie
    {
      if hmm then Recut(text, MPSegment.Shift(cut, begin), 0) else MPSegment.Shift(cut, begin)
    }

    method CutRange(text: seq<RuneStr>, begin: nat, end: nat, res: seq<WordRange>, hmm: bool)
      returns (res': seq<WordRange>, ghost cut: seq<WordRange>)
      requires Valid() && begin <= end <= |text|
      ensures BestCut(text, begin, end, cut)
      ensures res' == res + OneCut(text, begin, end, cut, hmm)
      ensures Covers(res'[|res|..], begin, end)
    {
      if !hmm {
        res', cut := MPSegment.Cut(trie, minWeight, text, begin, end, res, MAX_WORD_LENGTH);
        CoverIsInOrder(text, MPSegment.Shift(cut, begin), begin, end);
        return;
      }
      var words;
      words, cut := MPSegment.Cut(trie, minWeight, text, begin, end, [], MAX_WORD_LENGTH);
      assert words == MPSegment.Shift(cut, begin);
      CoverIsInOrder(text, words, begin, end);
      res' := RecutRuns(text, words, res);
      assert words[0..] == words;
      RecutCovers(text, words, begin, end, 0);
    }

    method RecutRuns(text: seq<RuneStr>, words: seq<WordRange>, res: seq<WordRange>) returns (res': seq<WordRange>)
      requires model.Valid() && InOrder(text, words)
      ensures res' == res + Recut(text, words, 0)
    {
      hide HMMSegment.Words, RunEnd;
      res' := res;
      var i := 0;
      while i < |words|
        invariant 0 <= i <= |words|
        invariant res' + Recut(text, words, i) == res + Recut(text, words, 0)
        decreases |words| - i
      {
        if Keeps(text, words[i]) {
          res' := res' + [words[i]];
          i := i + 1;
        } else {
          var j := FindRunEnd(text, words, i);
          var hmmRes := HMMSegment.Cut(model, text, words[i].left, words[j - 1].left + 1, []);
          assert hmmRes == RecutRun(text, words, i, j);
          assert res' + (hmmRes + Recut(text, words, j)) == (res' + hmmRes) + Recut(text, words, j);
          res' := res' + hmmRes;
          i := j;
        }
      }
    }

    method FindRunEnd(text: seq<RuneStr>, words: seq<WordRange>, i: nat) returns (j: nat)
      requires InOrder(text, words) && i < |words| && !Keeps(text, words[i])
      ensures i < j == RunEnd(text, words, i + 1)
    {
      j := i;
      while j < |words| && !Keeps(text, words[j])
        invariant i <= j <= |words|
        invariant RunEnd(text, words, j) == RunEnd(text, words, i)
      {
        j := j + 1;
      }
    }

    // ---------------------------------------------------------------- what the second cut does

    lemma {:induction false} RecutCovers(text: seq<RuneStr>, words: seq<WordRange>, b: nat, e: nat, i: nat)
      requires model.Valid() && e <= |text| && i <= |words| && InOrder(text, words)
      requires Covers(words[i..], b, e)
      ensures Covers(Recut(text, words, i), b, e)
      decreases |words| - i
    {
      if i < |words| {
        RecutStep(text, words, i);
        hide Recut, RecutRun, RunEnd, Keeps, HMMSegment.Words;
        if Keeps(text, words[i]) {
          assert words[i..][1..] == words[i + 1..];
          RecutCovers(text, words, words[i].right + 1, e, i + 1);
          assert Recut(text, words, i)[1..] == Recut(text, words, i + 1);
        } else {
          var j := RunEnd(text, words, i + 1);
          RunOfSingles(text, words, b, e, i, j);
          RecutCovers(text, words, words[j - 1].left + 1, e, j);
          RunCovers(text, words, i, j, Recut(text, words, j), e);
        }
      }
    }

    lemma {:induction false} RunCovers(text: seq<RuneStr>, words: seq<WordRange>, i: nat, j: nat, rest: seq<WordRange>, e: nat)
      requires model.Valid() && InOrder(text, words) && i < j <= |words|
      requires Covers(rest, words[j - 1].left + 1, e)
      ensures Covers(RecutRun(text, words, i, j) + rest, words[i].left, e)
    {
      var b, end := words[i].left, words[j - 1].left + 1;
      HMMSegment.WordsCover(model, text, b, b, end);
      CoversConcat(RecutRun(text, words, i, j), rest, b, end, e);
    }

    lemma {:induction false} LastOfRun(text: seq<RuneStr>, words: seq<WordRange>, i: nat)
      requires InOrder(text, words) && i < |words| && !Keeps(text, words[i])
      ensures var j := RunEnd(text, words, i + 1); words[j - 1].left == words[j - 1].right
      decreases |words| - i
    {
      if i + 1 < |words| && !Keeps(text, words[i + 1]) {
        LastOfRun(text, words, i + 1);
      }
    }

    lemma {:induction false} RunOfSingles(text: seq<RuneStr>, words: seq<WordRange>, b: nat, e: nat, i: nat, j: nat)
      requires InOrder(text, words) && i < |words| && !Keeps(text, words[i]) && j == RunEnd(text, words, i + 1)
      requires Covers(words[i..], b, e)
      ensures words[i].left == b && Covers(words[j..], words[j - 1].left + 1, e)
    {
      LastOfRun(text, words, i);
      CoversSplit(words[i..], b, e, j - 1 - i);
      assert words[i..][j - 1 - i] == words[j - 1] && words[i..][j - 1 - i + 1..] == words[j..];
    }

    // The second cut never touches a dictionary word of two or more runes, nor a user word.
    lemma {:induction false} KeptWordsSurvive(text: seq<RuneStr>, words: seq<WordRange>, i: nat, k: nat)
      requires model.Valid() && InOrder(text, words) && i <= k < |words| && Keeps(text, words[k])
      ensures words[k] in Recut(text, words, i)
      decreases |words| - i
    {
      if Keeps(text, words[i]) {
        if k > i {
          KeptWordsSurvive(text, words, i + 1, k);
        }
      } else {
        RunEndStops(text, words, i + 1, k);
        KeptWordsSurvive(text, words, RunEnd(text, words, i + 1), k);
      }
    }

    // ---------------------------------------------------------------- the sentence

    // A separator is never part of a longer word.
    ghost predicate SeparatorsApart(text: seq<RuneStr>, w: WordRange)
      requires w.left <= w.right < |text|
    {
      w.left == w.right || forall k | w.left <= k <= w.right :: text[k].rune !in symbols
    }

    ghost predicate AllApart(text: seq<RuneStr>, wrs: seq<WordRange>)
      requires InOrder(text, wrs)
    {
      forall k | 0 <= k < |wrs| :: SeparatorsApart(text, wrs[k])
    }

    // A piece is one separator or has none.
    ghost predicate Piece(text: seq<RuneStr>, begin: nat, end: nat)
      requires begin < end <= |text|
    {
      end == begin + 1 || forall k | begin <= k < end :: text[k].rune !in symbols
    }

    // A separator, or a stretch without one that ends at a separator or with the text.
    ghost predicate IsPiece(text: seq<RuneStr>, range: PreFilter.Range) {
      && range.begin < range.end <= |text|
      && ((range.end == range.begin + 1 && text[range.begin].rune in symbols)
          || ((forall k | range.begin <= k < range.end :: text[k].rune !in symbols)
              && (range.end < |text| ==> text[range.end].rune in symbols)))
    }

    // Such pieces, one behind the other up to e, each with a best cut.
    ghost predicate Pieces(text: seq<RuneStr>, pieces: seq<PreFilter.Range>, cuts: seq<seq<WordRange>>, e: nat)
      reads trie
    {
      && |cuts| == |pieces|
      && if pieces == [] then e == 0
         else
           var n := |pieces| - 1;
           && IsPiece(text, pieces[n]) && pieces[n].end == e && BestCut(text, pieces[n].begin, e, cuts[n])
           && Pieces(text, pieces[..n], cuts[..n], pieces[n].begin)
    }

    ghost function AllCuts(text: seq<RuneStr>, pieces: seq<PreFilter.Range>, cuts: seq<seq<WordRange>>, e: nat, hmm: bool): seq<WordRange>
      requires model.Valid() && Pieces(text, pieces, cuts, e)
      reads trie
    {
      if pieces == [] then []
      else
        var n := |pieces| - 1;
        AllCuts(text, pieces[..n], cuts[..n], pieces[n].begin, hmm) + OneCut(text, pieces[n].begin, e, cuts[n], hmm)
    }

    lemma {:induction false} OneMore(text: seq<RuneStr>, pieces: seq<PreFilter.Range>, cuts: seq<seq<WordRange>>,
                                     range: PreFilter.Range, cut: seq<WordRange>, hmm: bool)
      requires model.Valid() && Pieces(text, pieces, cuts, range.begin)
      requires IsPiece(text, range) && BestCut(text, range.begin, range.end, cut)
      ensures Pieces(text, pieces + [range], cuts + [cut], range.end)
      ensures AllCuts(text, pieces + [range], cuts + [cut], range.end, hmm) ==
              AllCuts(text, pieces, cuts, range.begin, hmm) + OneCut(text, range.begin, range.end, cut, hmm)
    {
      hide IsPiece, BestCut, OneCut;
      assert (pieces + [range])[..|pieces|] == pieces && (cuts + [cut])[..|cuts|] == cuts;
    }

    lemma {:induction false} AppendPiece(text: seq<RuneStr>, before: seq<WordRange>, wrs: seq<WordRange>, begin: nat, end: nat)
      requires begin < end <= |text| && Piece(text, begin, end)
      requires Covers(before, 0, begin) && InOrder(text, before) && before <= wrs && Covers(wrs[|before|..], begin, end)
      requires AllApart(text, before)
      ensures Covers(wrs, 0, end) && InOrder(text, wrs) && AllApart(text, wrs)
    {
      var new' := wrs[|before|..];
      assert wrs == before + new';
      CoversConcat(before, new', 0, begin, end);
      CoverIsInOrder(text, wrs, 0, end);
      CoverIsInOrder(text, new', begin, end);
      forall k | 0 <= k < |wrs| ensures SeparatorsApart(text, wrs[k]) {
        if k >= |before| {
          assert wrs[k] == new'[k - |before|];
        }
      }
    }

    lemma {:induction false} NoPieces(text: seq<RuneStr>, hmm: bool)
      requires model.Valid()
      ensures Pieces(text, [], [], 0) && AllCuts(text, [], [], 0, hmm) == []
      ensures Covers([], 0, 0) && InOrder(text, []) && AllApart(text, [])
    {
    }

    lemma {:induction false} RangesIn(text: seq<RuneStr>, wrs: seq<WordRange>)
      requires InOrder(text, wrs)
      ensures forall k | 0 <= k < |wrs| :: wrs[k].left <= wrs[k].right < |text|
      ensures text == [] ==> wrs == []
    {
      assert wrs == [] || wrs[0].right < |text|;
    }

    lemma {:induction false} PieceIs(text: seq<RuneStr>, range: PreFilter.Range)
      requires range.begin < range.end <= |text|
      requires
        || (range.end == range.begin + 1 && text[range.begin].rune in symbols)
        || ((forall k | range.begin <= k < range.end :: text[k].rune !in symbols)
            && (range.end < |text| ==> text[range.end].rune in symbols))
      ensures IsPiece(text, range) && Piece(text, range.begin, range.end)
    {
    }

    method Cut(sentence: seq<Byte>, hmm: bool)
      returns (words: seq<Word>, ghost text: seq<RuneStr>, ghost ranges: seq<WordRange>,
               ghost pieces: seq<PreFilter.Range>, ghost cuts: seq<seq<WordRange>>)
      requires Valid() && |sentence| <= UINT32_MAX
      ensures !Decodable(sentence) ==> words == []
      ensures Decodable(sentence) ==>
                && Consecutive(sentence, words, 0, |sentence|)
                && Flatten(Strings(words)) == sentence
      ensures Decodable(sentence) ==>
                && Tiles(sentence, text, |sentence|) && |ranges| == |words| && InOrder(text, ranges)
                && (forall k | 0 <= k < |words| :: Spells(sentence, text, ranges[k], words[k]))
                && AllApart(text, ranges)
      // They are the best cuts of its pieces, cut again if that is asked for.
      ensures Pieces(text, pieces, cuts, |text|) && ranges == AllCuts(text, pieces, cuts, |text|, hmm)
    {
      hide IsPiece, Piece, BestCut, OneCut, Pieces, AllCuts, InOrder, Covers, AllApart;
      var preFilter := new PreFilter.PreFilter(symbols, sentence);
      text := preFilter.sentence;
      var wrs: seq<WordRange> := [];
      pieces, cuts := [], [];
      NoPieces(text, hmm);
      while preFilter.HasNext()
        invariant fresh(preFilter) && preFilter.Valid() && preFilter.sentence == text
        invariant Covers(wrs, 0, preFilter.cursor) && InOrder(text, wrs) && AllApart(text, wrs)
        invariant Pieces(text, pieces, cuts, preFilter.cursor) && wrs == AllCuts(text, pieces, cuts, preFilter.cursor, hmm)
        decreases |text| - preFilter.cursor
      {
        var range := preFilter.Next();
        ghost var before := wrs;
        ghost var cut;
        wrs, cut := CutRange(preFilter.sentence, range.begin, range.end, wrs, hmm);
        AppendPiece(text, before, wrs, range.begin, range.end);
        PieceIs(text, range);
        OneMore(text, pieces, cuts, range, cut, hmm);
        pieces, cuts := pieces + [range], cuts + [cut];
      }
      ranges := wrs;
      RangesIn(text, wrs);
      words := GetWordsFromWordRanges(sentence, preFilter.sentence, wrs);
      if Decodable(sentence) {
        ConsecutiveFlatten(sentence, words, 0, |sentence|);
      }
    }
  }

  // ---------------------------------------------------------------- the caller's check

  function TotalSize(strs: seq<seq<Byte>>): nat {
    if strs == [] then 0 else |strs[0]| + TotalSize(strs[1..])
  }

  lemma {:induction false} FlattenSize(strs: seq<seq<Byte>>)
    ensures |Flatten(strs)| == TotalSize(strs)
  {
    if strs != [] {
      FlattenSize(strs[1..]);
    }
  }

  // Adding up the sizes of the words of a sentence, as keyword extraction does, reports illegal
  // words exactly for the sentences that do not decode.
  lemma {:induction false} WordsIllegalIffUndecodable(sentence: seq<Byte>, words: seq<Word>)
    requires !Decodable(sentence) ==> words == []
    requires Decodable(sentence) ==> Flatten(Strings(words)) == sentence
    ensures TotalSize(Strings(words)) != |sentence| <==> !Decodable(sentence)
  {
    FlattenSize(Strings(words));
  }
}
