/**
 * The inverted index: built offline from the pages' word counts, and intersected online to find the
 * pages that contain every word of a query.
 */
module InvertedIndex {
  // How often each word occurs in a page.
  type WordsMap = map<string, nat>

  // For each word, the pages that contain it, with its weight there.
  type Table = map<string, map<nat, real>>

  ghost predicate Has(pages: seq<WordsMap>, id: nat, word: string) {
    id < |pages| && word in pages[id]
  }

  // What the table should say of the first n pages.
  ghost predicate Indexes(table: Table, pages: seq<WordsMap>, n: nat) {
    && (forall word, id: nat | word in table && id in table[word] :: id < n && Has(pages, id, word))
    && (forall word, id: nat | id < n && Has(pages, id, word) :: word in table && id in table[word])
  }

  ghost predicate SameKeys(table: Table, table': Table) {
    table.Keys == table'.Keys && forall word | word in table :: table[word].Keys == table'[word].Keys
  }

  ghost predicate SameBut(idx: nat, table: Table, table': Table)
    requires SameKeys(table, table')
  {
    forall word, id: nat | word in table && id in table[word] && id != idx :: table'[word][id] == table[word][id]
  }

  lemma {:induction false} SameAtFirst(idx: nat, table: Table)
    ensures SameKeys(table, table) && SameBut(idx, table, table)
  {}

  lemma {:induction false} SameHas(table: Table, table': Table, word: string)
    requires SameKeys(table, table') && word in table
    ensures word in table' && table'[word].Keys == table[word].Keys
  {}

  lemma {:induction false} SameUpdated(idx: nat, table: Table, table': Table, word: string, weight: real)
    requires SameKeys(table, table') && SameBut(idx, table, table') && word in table' && idx in table'[word]
    ensures var ids: map<nat, real> := table'[word][idx := weight]; var table'' := table'[word := ids];
            SameKeys(table, table'') && SameBut(idx, table, table'')
  {
    assert table'[word][idx := weight].Keys == table'[word].Keys;
  }

  // ---------------------------------------------------------------- weights

  ghost function PagesWith(pages: seq<WordsMap>, word: string): set<nat> {
    set id | 0 <= id < |pages| && word in pages[id]
  }

  // How often a word occurs in a page, times what idf makes of the number of pages and of those with the word.
  ghost function RawWeight(pages: seq<WordsMap>, id: nat, idf: (nat, nat) -> real, word: string): real
    requires Has(pages, id, word)
  {
    pages[id][word] as real * idf(|pages|, |PagesWith(pages, word)|)
  }

  ghost function RawWeights(pages: seq<WordsMap>, id: nat, idf: (nat, nat) -> real): (raw: map<string, real>)
    requires id < |pages|
    ensures raw.Keys == pages[id].Keys
  {
    map word | word in pages[id] :: RawWeight(pages, id, idf, word)
  }

  lemma {:induction false} RawWeightsIs(pages: seq<WordsMap>, id: nat, idf: (nat, nat) -> real, word: string)
    requires id < |pages| && word in pages[id]
    ensures word in RawWeights(pages, id, idf)
    ensures RawWeights(pages, id, idf)[word] == pages[id][word] as real * idf(|pages|, |set i: nat | i < |pages| && word in pages[i]|)
  {
    assert PagesWith(pages, word) == set i: nat | i < |pages| && word in pages[i];
  }

  // The table has every word of the page, with the share of its weight in all the weights of the page.
  ghost predicate WeighedAt(table: Table, pages: seq<WordsMap>, id: nat, idf: (nat, nat) -> real, share: (real, map<string, real>) -> real)
    requires id < |pages|
  {
    var raw := RawWeights(pages, id, idf);
    forall word | word in pages[id] :: word in table && id in table[word] && table[word][id] == share(raw[word], raw)
  }

  lemma {:induction false} EntryIsThere(table: Table, pages: seq<WordsMap>, idx: nat, word: string)
    requires Indexes(table, pages, |pages|) && Has(pages, idx, word)
    ensures word in table && idx in table[word] && |table[word]| == |PagesWith(pages, word)|
  {
    assert forall id: nat :: id in table[word].Keys <==> Has(pages, id, word);
    assert table[word].Keys == PagesWith(pages, word);
  }

  lemma {:induction false} AllWeighed(table: Table, pages: seq<WordsMap>, id: nat, idf: (nat, nat) -> real, share: (real, map<string, real>) -> real)
    requires id < |pages|
    requires var raw := RawWeights(pages, id, idf);
             forall word | word in raw :: word in table && id in table[word] && table[word][id] == share(raw[word], raw)
    ensures WeighedAt(table, pages, id, idf, share)
  {
    hide PagesWith;
    assert RawWeights(pages, id, idf).Keys == pages[id].Keys;
  }

  lemma {:induction false} SameIndexes(table: Table, table': Table, pages: seq<WordsMap>)
    requires SameKeys(table, table') && Indexes(table, pages, |pages|)
    ensures Indexes(table', pages, |pages|)
  {
    hide Has;
    forall word, id: nat ensures (word in table' && id in table'[word]) <==> (word in table && id in table[word]) {
      assert word in table.Keys <==> word in table'.Keys;
      if word in table {
        assert id in table[word].Keys <==> id in table'[word].Keys;
      }
    }
  }

  lemma {:induction false} StillWeighed(table: Table, table': Table, pages: seq<WordsMap>, idx: nat, id: nat,
                                        idf: (nat, nat) -> real, share: (real, map<string, real>) -> real)
    requires SameKeys(table, table') && SameBut(idx, table, table') && id != idx && id < |pages|
    requires WeighedAt(table, pages, id, idf, share)
    ensures WeighedAt(table', pages, id, idf, share)
  {
    hide SameKeys, PagesWith, RawWeights;
    var raw := RawWeights(pages, id, idf);
    forall word | word in pages[id]
      ensures word in table' && id in table'[word] && table'[word][id] == share(raw[word], raw)
    {
      SameHas(table, table', word);
    }
  }

  class PageLibPreprocessor {
    const pageLib: seq<WordsMap>
    var invertIndexTable: Table

    constructor (pageLib: seq<WordsMap>)
      ensures this.pageLib == pageLib && invertIndexTable == map[]
    {
      this.pageLib := pageLib;
      invertIndexTable := map[];
    }

    // Looking a word up in the table puts it there.
    method Entry(word: string) returns (ids: map<nat, real>)
      modifies this
      ensures ids == if word in old(invertIndexTable) then old(invertIndexTable)[word] else map[]
      ensures invertIndexTable == old(invertIndexTable)[word := ids]
    {
      ids := if word in invertIndexTable then invertIndexTable[word] else map[];
      invertIndexTable := invertIndexTable[word := ids];
    }

    method GetIndexTable(idx: nat)
      requires idx < |pageLib| && Indexes(invertIndexTable, pageLib, idx)
      modifies this
      ensures Indexes(invertIndexTable, pageLib, idx + 1)
    {
      var rest := pageLib[idx].Keys;
      while rest != {}
        invariant rest <= pageLib[idx].Keys
        invariant forall word, id: nat | word in invertIndexTable && id in invertIndexTable[word] ::
                    id <= idx && Has(pageLib, id, word)
        invariant forall word, id: nat | id <= idx && Has(pageLib, id, word) && (id == idx ==> word !in rest) ::
                    word in invertIndexTable && id in invertIndexTable[word]
        decreases rest
      {
        var word :| word in rest;
        var ids := Entry(word);
        if idx !in ids {
          invertIndexTable := invertIndexTable[word := ids[idx := 0.0]];
        }
        rest := rest - {word};
      }
    }

    // The first loop of compute: looking up a word that is in the table leaves the table as it is.
    method WordWeights(idx: nat, idf: (nat, nat) -> real) returns (wordW: map<string, real>)
      requires idx < |pageLib| && Indexes(invertIndexTable, pageLib, |pageLib|)
      modifies this
      ensures invertIndexTable == old(invertIndexTable) && wordW == RawWeights(pageLib, idx, idf)
    {
      hide Indexes, PagesWith;
      wordW := map[];
      var rest := pageLib[idx].Keys;
      while rest != {}
        invariant rest <= pageLib[idx].Keys && wordW.Keys == pageLib[idx].Keys - rest
        invariant forall word | word in wordW :: wordW[word] == RawWeight(pageLib, idx, idf, word)
        invariant invertIndexTable == old(invertIndexTable)
        decreases rest
      {
        var word :| word in rest;
        EntryIsThere(invertIndexTable, pageLib, idx, word);
        var ids := Entry(word);
        wordW := wordW[word := pageLib[idx][word] as real * idf(|pageLib|, |ids|)];
        rest := rest - {word};
      }
    }

    // Weighs the words of a page by how often they occur in it and in how many pages.  No entry appears
    // or goes, and no other page's weights change.
    method Compute(idx: nat, idf: (nat, nat) -> real, share: (real, map<string, real>) -> real)
      requires idx < |pageLib| && Indexes(invertIndexTable, pageLib, |pageLib|)
      modifies this
      ensures SameKeys(old(invertIndexTable), invertIndexTable)
      ensures SameBut(idx, old(invertIndexTable), invertIndexTable)
      ensures WeighedAt(invertIndexTable, pageLib, idx, idf, share)
    {
      hide SameKeys, SameBut, WeighedAt, Indexes, RawWeights, PagesWith;
      var wordW := WordWeights(idx, idf);
      SameAtFirst(idx, invertIndexTable);
      var rest := wordW.Keys;
      while rest != {}
        invariant rest <= wordW.Keys
        invariant SameKeys(old(invertIndexTable), invertIndexTable)
        invariant SameBut(idx, old(invertIndexTable), invertIndexTable)
        invariant forall word | word in wordW && word !in rest ::
                    word in invertIndexTable && idx in invertIndexTable[word]
                    && invertIndexTable[word][idx] == share(wordW[word], wordW)
        decreases rest
      {
        var word :| word in rest;
        EntryIsThere(old(invertIndexTable), pageLib, idx, word);
        SameHas(old(invertIndexTable), invertIndexTable, word);
        ghost var before := invertIndexTable;
        var ids := Entry(word);
        assert invertIndexTable == before;
        if idx in ids {
          SameUpdated(idx, old(invertIndexTable), before, word, share(wordW[word], wordW));
          invertIndexTable := invertIndexTable[word := ids[idx := share(wordW[word], wordW)]];
        }
        rest := rest - {word};
      }
      AllWeighed(invertIndexTable, pageLib, idx, idf, share);
    }

    method BuildInvertIndexTable(idf: (nat, nat) -> real, share: (real, map<string, real>) -> real)
      requires invertIndexTable == map[]
      modifies this
      ensures Indexes(invertIndexTable, pageLib, |pageLib|)
      ensures forall id | 0 <= id < |pageLib| :: WeighedAt(invertIndexTable, pageLib, id, idf, share)
    {
      assert forall word, id: nat :: !(id < 0 && Has(pageLib, id, word));
      for i := 0 to |pageLib|
        invariant Indexes(invertIndexTable, pageLib, i)
      {
        GetIndexTable(i);
      }
      hide Indexes, SameKeys, SameBut, WeighedAt;
      for i := 0 to |pageLib|
        invariant Indexes(invertIndexTable, pageLib, |pageLib|)
        invariant forall id | 0 <= id < i :: WeighedAt(invertIndexTable, pageLib, id, idf, share)
      {
        ghost var before := invertIndexTable;
        Compute(i, idf, share);
        SameIndexes(before, invertIndexTable, pageLib);
        forall id | 0 <= id < i ensures WeighedAt(invertIndexTable, pageLib, id, idf, share) {
          StillWeighed(before, invertIndexTable, pageLib, i, id, idf, share);
        }
      }
    }
  }

  // ---------------------------------------------------------------- queries

  ghost predicate Ascending(ids: seq<nat>) {
    forall i, j | 0 <= i < j < |ids| :: ids[i] < ids[j]
  }

  predicate HasAll(page: WordsMap, words: seq<string>) {
    forall w | w in words :: w in page
  }

  // What a scan of the first n pages would find.
  function Scan(pages: seq<WordsMap>, words: seq<string>, n: nat): seq<nat>
    requires n <= |pages|
  {
    if n == 0 then [] else Scan(pages, words, n - 1) + if HasAll(pages[n - 1], words) then [n - 1] else []
  }

  lemma {:induction false} ScanFinds(pages: seq<WordsMap>, words: seq<string>, n: nat)
    requires n <= |pages|
    ensures Ascending(Scan(pages, words, n))
    ensures forall id: nat :: id in Scan(pages, words, n) <==> id < n && forall w | w in words :: w in pages[id]
  {
    if n > 0 {
      var before := Scan(pages, words, n - 1);
      ScanFinds(pages, words, n - 1);
      if HasAll(pages[n - 1], words) {
        AscendingPush(before, n - 1);
      }
    }
  }

  lemma {:induction false} AscendingUnique(xs: seq<nat>, ys: seq<nat>)
    requires Ascending(xs) && Ascending(ys) && forall x: nat :: x in xs <==> x in ys
    ensures xs == ys
  {
    if xs != [] {
      assert xs[0] in xs;
    }
    if ys != [] {
      assert ys[0] in ys;
    }
    if xs != [] && ys != [] {
      var xs', ys' := xs[..|xs| - 1], ys[..|ys| - 1];
      var x, y := xs[|xs| - 1], ys[|ys| - 1];
      assert x in ys && y in xs;
      assert x == y;
      AscendingInit(xs);
      AscendingInit(ys);
      forall z: nat ensures z in xs' <==> z in ys' {
        assert z in xs' <==> z in xs && z != x;
        assert z in ys' <==> z in ys && z != y;
      }
      AscendingUnique(xs', ys');
      assert xs == xs' + [x] && ys == ys' + [y];
    }
  }

  lemma {:induction false} AscendingInit(xs: seq<nat>)
    requires Ascending(xs) && xs != []
    ensures Ascending(xs[..|xs| - 1])
    ensures forall x: nat :: x in xs[..|xs| - 1] <==> x in xs && x != xs[|xs| - 1]
  {
    forall x | x in xs && x != xs[|xs| - 1] ensures x in xs[..|xs| - 1] {
      var k :| 0 <= k < |xs| && xs[k] == x;
      assert xs[..|xs| - 1][k] == x;
    }
  }

  lemma {:induction false} AscendingPush(xs: seq<nat>, x: nat)
    requires Ascending(xs) && forall y | y in xs :: y < x
    ensures Ascending(xs + [x])
  {
    assert forall k | 0 <= k < |xs| :: xs[k] in xs;
  }

  // The keys of a map, sorted.
  method SortedKeys(m: map<nat, real>) returns (ids: seq<nat>)
    ensures Ascending(ids) && forall x: nat :: x in ids <==> x in m
  {
    ids := [];
    var rest := m.Keys;
    while rest != {}
      invariant Ascending(ids) && rest <= m.Keys
      invariant forall x :: x in m <==> x in ids || x in rest
      invariant forall x, y | x in ids && y in rest :: x < y
      decreases rest
    {
      var least := Least(rest);
      AscendingPush(ids, least);
      ids := ids + [least];
      rest := rest - {least};
    }
  }

  method Least(s: set<nat>) returns (least: nat)
    requires s != {}
    ensures least in s && forall x | x in s :: least <= x
  {
    least :| least in s;
    var rest := s - {least};
    while rest != {}
      invariant least in s && rest <= s
      invariant forall x | x in s && x !in rest :: least <= x
      decreases rest
    {
      var x :| x in rest;
      if x < least {
        least := x;
      }
      rest := rest - {x};
    }
  }

  // What std::set_intersection does with two sorted ranges.
  method SetIntersection(xs: seq<nat>, ys: seq<nat>) returns (both: seq<nat>)
    requires Ascending(xs) && Ascending(ys)
    ensures Ascending(both) && forall x: nat :: x in both <==> x in xs && x in ys
  {
    both := [];
    var i, j := 0, 0;
    while i < |xs| && j < |ys|
      invariant i <= |xs| && j <= |ys|
      invariant Ascending(both)
      invariant forall x: nat :: x in both <==> x in xs[..i] && x in ys[..j]
      invariant i < |xs| ==> forall k | 0 <= k < j :: ys[k] < xs[i]
      invariant j < |ys| ==> forall k | 0 <= k < i :: xs[k] < ys[j]
    {
      if xs[i] < ys[j] {
        i := i + 1;
      } else if ys[j] < xs[i] {
        j := j + 1;
      } else {
        AscendingPush(both, xs[i]);
        both := both + [xs[i]];
        i, j := i + 1, j + 1;
      }
    }
  }

  method GetDocs(table: Table, words: seq<string>, ghost pages: seq<WordsMap>) returns (docs: seq<nat>)
    requires Indexes(table, pages, |pages|)
    requires words != [] && forall w | w in words :: w in table
    ensures docs == Scan(pages, words, |pages|)
    ensures AllHit(table, docs, words)
  {
    hide Ascending, Scan, Indexes;
    docs := SortedKeys(table[words[0]]);
    for k := 1 to |words|
      invariant Ascending(docs) && forall id: nat :: id in docs <==> forall w | w in words[..k] :: id in table[w]
    {
      var rhs := SortedKeys(table[words[k]]);
      docs := SetIntersection(docs, rhs);
    }
    assert words[..|words|] == words;
    DocsAreScan(table, docs, words, pages);
  }

  lemma {:induction false} AllIn(table: Table, docs: seq<nat>, words: seq<string>)
    requires forall w | w in words :: w in table
    requires forall id: nat | id in docs :: forall w | w in words :: id in table[w]
    ensures AllHit(table, docs, words)
  {
    assert forall w | 0 <= w < |words| :: words[w] in words;
    assert forall d | 0 <= d < |docs| :: docs[d] in docs;
  }

  lemma {:induction false} InAllIff(table: Table, words: seq<string>, pages: seq<WordsMap>, id: nat)
    requires Indexes(table, pages, |pages|) && words != [] && forall w | w in words :: w in table
    ensures (forall w | w in words :: id in table[w]) <==> id < |pages| && HasAll(pages[id], words)
  {
    assert words[0] in words;
  }

  lemma {:induction false} DocsAreScan(table: Table, docs: seq<nat>, words: seq<string>, pages: seq<WordsMap>)
    requires Indexes(table, pages, |pages|) && words != [] && forall w | w in words :: w in table
    requires Ascending(docs) && forall id: nat :: id in docs <==> forall w | w in words :: id in table[w]
    ensures docs == Scan(pages, words, |pages|) && AllHit(table, docs, words)
  {
    hide Ascending, Scan, Indexes, AllHit;
    AllIn(table, docs, words);
    ScanFinds(pages, words, |pages|);
    forall id: nat ensures id in docs <==> id in Scan(pages, words, |pages|) {
      InAllIff(table, words, pages, id);
    }
    AscendingUnique(docs, Scan(pages, words, |pages|));
  }

  // Every lookup of a word, and of a page under it, finds its entry.
  ghost predicate AllHit(table: Table, docs: seq<nat>, words: seq<string>) {
    && (forall w | 0 <= w < |words| :: words[w] in table)
    && (forall d, w | 0 <= d < |docs| && 0 <= w < |words| :: docs[d] in table[words[w]])
  }

  // The weights of the words of a query in each page found: every lookup hits.
  method Weigh(table: Table, docs: seq<nat>, words: seq<string>) returns (resultList: seq<(nat, seq<real>)>)
    requires AllHit(table, docs, words)
    ensures |resultList| == |docs| && forall d | 0 <= d < |docs| :: resultList[d].0 == docs[d] && |resultList[d].1| == |words|
    ensures forall d, w | 0 <= d < |docs| && 0 <= w < |words| :: resultList[d].1[w] == table[words[w]][docs[d]]
  {
    resultList := [];
    for d := 0 to |docs|
      invariant |resultList| == d && forall e | 0 <= e < d :: resultList[e].0 == docs[e] && |resultList[e].1| == |words|
      invariant forall e, w | 0 <= e < d && 0 <= w < |words| :: resultList[e].1[w] == table[words[w]][docs[e]]
    {
      var tmp := [];
      for w := 0 to |words|
        invariant |tmp| == w && forall v | 0 <= v < w :: tmp[v] == table[words[v]][docs[d]]
      {
        tmp := tmp + [table[words[w]][docs[d]]];
      }
      resultList := resultList + [(docs[d], tmp)];
    }
  }

  // What a query that the cache does not know comes to.  FirstOfNone stands for the read of the first of no words.
  datatype Outcome = NoAnswer | FirstOfNone | Answer(resultList: seq<(nat, seq<real>)>)

  // A word that no page has leaves nothing to find.
  lemma {:induction false} UnknownWord(table: Table, pages: seq<WordsMap>, words: seq<string>, word: string)
    requires Indexes(table, pages, |pages|) && word in words && word !in table
    ensures Scan(pages, words, |pages|) == []
  {
    forall id | 0 <= id < |pages| ensures word !in pages[id] {
      assert !Has(pages, id, word);
    }
    NothingFound(pages, words, word, |pages|);
  }

  lemma {:induction false} NothingFound(pages: seq<WordsMap>, words: seq<string>, word: string, n: nat)
    requires n <= |pages| && word in words && forall id | 0 <= id < n :: word !in pages[id]
    ensures Scan(pages, words, n) == []
  {
    if n > 0 {
      NothingFound(pages, words, word, n - 1);
    }
  }

  // The outcome is that of a scan of the pages, but for a query without words.
  method DoQuery(table: Table, frq: seq<string>, ghost pages: seq<WordsMap>) returns (o: Outcome)
    requires Indexes(table, pages, |pages|)
    ensures o.FirstOfNone? <==> frq == []
    ensures o.NoAnswer? <==> frq != [] && Scan(pages, frq, |pages|) == []
    ensures o.Answer? ==>
              var docs := Scan(pages, frq, |pages|);
              && |o.resultList| == |docs| && AllHit(table, docs, frq)
              && forall d | 0 <= d < |docs| ::
                   && o.resultList[d].0 == docs[d] && |o.resultList[d].1| == |frq|
                   && forall w | 0 <= w < |frq| :: o.resultList[d].1[w] == table[frq[w]][docs[d]]
  {
    hide Indexes, Scan;
    var words: seq<string> := [];
    for k := 0 to |frq|
      invariant words == frq[..k] && forall w | w in words :: w in table
    {
      if frq[k] !in table {
        UnknownWord(table, pages, frq, frq[k]);
        return NoAnswer;
      }
      words := words + [frq[k]];
    }
    assert words == frq;
    // Nothing has been returned for an empty query, and getDocs begins with words[0].
    if words == [] {
      return FirstOfNone;
    }
    var docs := GetDocs(table, words, pages);
    if docs == [] {
      return NoAnswer;
    }
    var resultList := Weigh(table, docs, words);
    o := Answer(resultList);
  }

  // From the pages to the answer: the pages that have every word, each with the weights of those words in it.
  method BuildAndQuery(pages: seq<WordsMap>, idf: (nat, nat) -> real, share: (real, map<string, real>) -> real, words: seq<string>)
    returns (o: Outcome)
    ensures o.FirstOfNone? <==> words == []
    ensures o.NoAnswer? <==> words != [] && Scan(pages, words, |pages|) == []
    ensures o.Answer? ==> |o.resultList| == |Scan(pages, words, |pages|)|
    ensures o.Answer? ==>
              forall d | 0 <= d < |o.resultList| ::
                var id := Scan(pages, words, |pages|)[d];
                && o.resultList[d].0 == id < |pages| && |o.resultList[d].1| == |words| && (forall w | w in words :: w in pages[id])
                && forall w | 0 <= w < |words| ::
                     o.resultList[d].1[w] == share(RawWeights(pages, id, idf)[words[w]], RawWeights(pages, id, idf))
  {
    hide Scan, RawWeights;
    var p := new PageLibPreprocessor(pages);
    p.BuildInvertIndexTable(idf, share);
    o := DoQuery(p.invertIndexTable, words, pages);
    ghost var docs := Scan(pages, words, |pages|);
    ScanFinds(pages, words, |pages|);
    forall d | o.Answer? && 0 <= d < |docs|
      ensures docs[d] < |pages| && HasAll(pages[docs[d]], words)
      ensures forall w | 0 <= w < |words| ::
                o.resultList[d].1[w] == share(RawWeights(pages, docs[d], idf)[words[w]], RawWeights(pages, docs[d], idf))
    {
      assert docs[d] in docs;
      assert WeighedAt(p.invertIndexTable, pages, docs[d], idf, share);
    }
  }
}
