/**
 * The dictionary trie.  Nodes are heap objects linked through hash maps; what the trie means
 * is the finite map from words to units given by Dict().
 */
module Trie {
  import opened Common
  import opened Unicode

  const MAX_WORD_LENGTH := 512

  // -3.14e+100: the score below which nothing is compared.
  const MIN_DOUBLE := -31400000000000000000000000000000000000000000000000000000000000000000000000000000000000000000000000000.0

  datatype DictUnit = DictUnit(word: seq<Rune>, weight: real, tag: string)

  type Dictionary = map<seq<Rune>, DictUnit>

  // nexts[k] = (position of the last rune of a word starting here, its unit if it has one)
  datatype Edge = Edge(pos: nat, entry: Option<DictUnit>)

  datatype Dag = Dag(runestr: RuneStr, nexts: seq<Edge>, pInfo: Option<DictUnit>, weight: real)

  // ---------------------------------------------------------------- what the edges should be

  function Runes(text: seq<RuneStr>): (r: seq<Rune>)
    ensures |r| == |text|
  {
    seq(|text|, i requires 0 <= i < |text| => text[i].rune)
  }

  function Lookup(dict: Dictionary, w: seq<Rune>): Option<DictUnit> {
    if w in dict then Some(dict[w]) else None
  }

  // The dictionary words text[i..j + 1], text[i..j + 2], ... up to maxLen runes, in that order.
  ghost function LongerWords(dict: Dictionary, text: seq<Rune>, i: nat, j: nat, maxLen: nat): seq<Edge>
    requires i < j
    decreases |text| - j
  {
    if j >= |text| || j - i + 1 > maxLen then []
    else
      var here := Lookup(dict, text[i..j + 1]);
      (if here.Some? then [Edge(j, here)] else []) + LongerWords(dict, text, i, j + 1, maxLen)
  }

  // All words starting at rune i; the single rune is always there, known or not.
  ghost function Edges(dict: Dictionary, text: seq<Rune>, i: nat, maxLen: nat): seq<Edge>
    requires i < |text|
  {
    [Edge(i, Lookup(dict, [text[i]]))] + LongerWords(dict, text, i, i + 1, maxLen)
  }

  // A stretch of text that may stand as one word.
  ghost predicate Legit(dict: Dictionary, text: seq<Rune>, i: nat, j: nat, maxLen: nat) {
    i <= j < |text| && (i == j || (j - i + 1 <= maxLen && text[i..j + 1] in dict))
  }

  lemma {:induction false} LongerWordsComplete(dict: Dictionary, text: seq<Rune>, i: nat, j: nat, maxLen: nat, e: Edge)
    requires i < j
    ensures e in LongerWords(dict, text, i, j, maxLen) <==>
              j <= e.pos && Legit(dict, text, i, e.pos, maxLen) && e.entry == Lookup(dict, text[i..e.pos + 1])
    decreases |text| - j
  {
    if j < |text| && j - i + 1 <= maxLen {
      LongerWordsComplete(dict, text, i, j + 1, maxLen, e);
    }
  }

  // The edges at rune i are exactly the words that may start there.
  lemma {:induction false} EdgesComplete(dict: Dictionary, text: seq<Rune>, i: nat, maxLen: nat, e: Edge)
    requires i < |text|
    ensures e in Edges(dict, text, i, maxLen) <==>
              i <= e.pos && Legit(dict, text, i, e.pos, maxLen) && e.entry == Lookup(dict, text[i..e.pos + 1])
  {
    LongerWordsComplete(dict, text, i, i + 1, maxLen, e);
    assert text[i..i + 1] == [text[i]];
  }

  // Edges in order of length, from j on.
  ghost predicate Ascending(es: seq<Edge>, j: nat) {
    && (forall k | 0 <= k < |es| :: j <= es[k].pos)
    && (forall k, l | 0 <= k < l < |es| :: es[k].pos < es[l].pos)
  }

  lemma {:induction false} AscendingFront(e: Edge, es: seq<Edge>)
    requires Ascending(es, e.pos + 1)
    ensures Ascending([e] + es, e.pos)
  {
    assert forall k | 0 < k < |[e] + es| :: ([e] + es)[k] == es[k - 1];
  }

  lemma {:induction false} StillAscending(es: seq<Edge>, j: nat)
    requires Ascending(es, j + 1)
    ensures Ascending(es, j)
  {
  }

  lemma {:induction false} LongerWordsAscend(dict: Dictionary, text: seq<Rune>, i: nat, j: nat, maxLen: nat)
    requires i < j
    ensures Ascending(LongerWords(dict, text, i, j, maxLen), j)
    decreases |text| - j
  {
    if j < |text| && j - i + 1 <= maxLen {
      LongerWordsAscend(dict, text, i, j + 1, maxLen);
      LongerWordsStep(dict, text, i, j, maxLen);
      hide LongerWords, Ascending, Lookup;
      var here, more := Lookup(dict, text[i..j + 1]), LongerWords(dict, text, i, j + 1, maxLen);
      StillAscending(more, j);
      AscendingFront(Edge(j, here), more);
    }
  }

  lemma {:induction false} LongerWordsStep(dict: Dictionary, text: seq<Rune>, i: nat, j: nat, maxLen: nat)
    requires i < j < |text| && j - i + 1 <= maxLen
    ensures var here, more := Lookup(dict, text[i..j + 1]), LongerWords(dict, text, i, j + 1, maxLen);
            LongerWords(dict, text, i, j, maxLen) == if here.Some? then [Edge(j, here)] + more else more
  {
    hide Lookup;
    var more := LongerWords(dict, text, i, j + 1, maxLen);
    assert [] + more == more;
  }

  // Shorter words come first.
  lemma {:induction false} EdgesAscend(dict: Dictionary, text: seq<Rune>, i: nat, maxLen: nat)
    requires i < |text|
    ensures var es := Edges(dict, text, i, maxLen); forall k, l | 0 <= k < l < |es| :: es[k].pos < es[l].pos
  {
    LongerWordsAscend(dict, text, i, i + 1, maxLen);
    AscendingFront(Edge(i, Lookup(dict, [text[i]])), LongerWords(dict, text, i, i + 1, maxLen));
  }

  // ---------------------------------------------------------------- the linked structure

  class TrieNode {
    ghost const path: seq<Rune>  // the runes on the way here from the root
    var next: map<Rune, TrieNode>
    var value: Option<DictUnit>

    constructor (ghost path: seq<Rune>)
      ensures this.path == path && next == map[] && value == None
    {
      this.path := path;
      next := map[];
      value := None;
    }
  }

  class Trie {
    const root: TrieNode
    ghost var dict: Dictionary  // what has been inserted
    ghost var nodes: map<seq<Rune>, TrieNode>  // the node reached by each prefix that has one
    ghost var Repr: set<object>

    // The node for prefix p holds the unit of p, and its links lead to the nodes one rune on.
    ghost predicate NodeOk(p: seq<Rune>)
      requires p in nodes
      reads this, nodes[p], Repr
    {
      && nodes[p].path == p
      && nodes[p].value == Lookup(dict, p)
      && forall r | r in nodes[p].next :: IsNode(nodes[p].next[r], p + [r])
    }

    ghost predicate IsNode(n: TrieNode, p: seq<Rune>)
      reads this
    {
      n.path == p && p in nodes && nodes[p] == n
    }

    // Every prefix but the empty one hangs below the prefix one rune shorter.
    ghost predicate Hangs(p: seq<Rune>)
      reads this, Repr
    {
      p == [] ||
      (var up := p[..|p| - 1]; up in nodes && nodes[up] in Repr && p[|p| - 1] in nodes[up].next)
    }

    ghost predicate Valid()
      reads this, Repr
    {
      && this in Repr
      && (forall p | p in nodes :: nodes[p] in Repr)
      && IsNode(root, []) && [] !in dict
      && (forall p {:trigger NodeOk(p)} | p in nodes :: NodeOk(p))
      && (forall p {:trigger Hangs(p)} | p in nodes :: Hangs(p))
      && dict.Keys <= nodes.Keys
    }

    constructor ()
      ensures Valid() && fresh(Repr)
      ensures dict == map[]
    {
      root := new TrieNode([]);
      new;
      nodes := map[[] := root];
      dict := map[];
      Repr := {this, root};
    }

    // Hangs a fresh, valueless node under an existing one.
    method AddChild(node: TrieNode, c: Rune) returns (child: TrieNode)
      requires Valid() && IsNode(node, node.path) && c !in node.next
      modifies this`nodes, this`Repr, node`next
      ensures Valid() && fresh(Repr - old(Repr)) && IsNode(child, node.path + [c])
    {
      ghost var p := node.path;
      assert NodeOk(p);
      ghost var q := p + [c];
      assert Hangs(q) || q !in nodes;
      assert q[..|q| - 1] == p;
      child := new TrieNode(q);
      node.next := node.next[c := child];
      nodes := nodes[q := child];
      Repr := Repr + {child};
      forall x | x in nodes ensures NodeOk(x) {
        assert x != q ==> old(NodeOk(x));
      }
      forall x | x in nodes ensures Hangs(x) {
        assert x != q ==> old(Hangs(x));
      }
    }

    method InsertNode(key: seq<Rune>, u: DictUnit)
      requires Valid()
      modifies Repr
      ensures Valid() && fresh(Repr - old(Repr))
      ensures dict == if key == [] then old(dict) else old(dict)[key := u]
    {
      if key == [] {
        return;
      }
      var node := root;
      var k := 0;
      while k < |key|
        invariant 0 <= k <= |key|
        invariant Valid() && fresh(Repr - old(Repr))
        invariant IsNode(node, key[..k])
        invariant dict == old(dict)
      {
        assert NodeOk(key[..k]);
        assert key[..k + 1] == key[..k] + [key[k]];
        if key[k] !in node.next {
          node := AddChild(node, key[k]);
        } else {
          node := node.next[key[k]];
        }
        k := k + 1;
      }
      assert key[..k] == key;
      SetValue(node, u);
    }

    method SetValue(node: TrieNode, u: DictUnit)
      requires Valid() && IsNode(node, node.path) && node.path != []
      modifies node`value, this`dict
      ensures Valid()
      ensures dict == old(dict)[node.path := u]
    {
      node.value := Some(u);
      dict := dict[node.path := u];
      forall q | q in nodes ensures NodeOk(q) {
        assert old(NodeOk(q));
      }
      forall q | q in nodes ensures Hangs(q) {
        assert old(Hangs(q));
      }
    }

    // The last unit inserted under this word, if any.
    method Find(text: seq<RuneStr>, begin: nat, end: nat) returns (r: Option<DictUnit>)
      requires Valid() && begin <= end <= |text|
      ensures r == Lookup(dict, Runes(text[begin..end]))
    {
      if begin == end {
        return None;
      }
      ghost var key := Runes(text[begin..end]);
      var node := root;
      var it := begin;
      while it != end
        invariant begin <= it <= end
        invariant IsNode(node, key[..it - begin])
      {
        assert key[..it - begin + 1] == key[..it - begin] + [text[it].rune];
        assert NodeOk(key[..it - begin]);
        if text[it].rune !in node.next {
          NothingBelow(key, it - begin);
          assert key[..|key|] == key;
          return None;
        }
        node := node.next[text[it].rune];
        it := it + 1;
      }
      assert key[..it - begin] == key;
      assert NodeOk(key);
      return node.value;
    }

    lemma {:induction false} UpOf(p: seq<Rune>)
      requires Valid() && p != []
      ensures var up := p[..|p| - 1]; p in nodes ==> up in nodes && p[|p| - 1] in nodes[up].next
    {
      assert p in nodes ==> Hangs(p);
    }

    // Where a link is missing no longer prefix has a node.
    lemma {:induction false} NothingBelow(key: seq<Rune>, k: nat)
      requires Valid() && k < |key| && key[..k] in nodes && key[k] !in nodes[key[..k]].next
      ensures forall m | k < m <= |key| :: key[..m] !in nodes
    {
      var m := k;
      while m < |key|
        invariant k <= m <= |key|
        invariant m > k ==> key[..m] !in nodes
        invariant forall x | k < x <= m :: key[..x] !in nodes
      {
        m := m + 1;
        UpOf(key[..m]);
        assert key[..m][..m - 1] == key[..m - 1];
      }
    }

    // All words of the text, by where they start.
    method FindDag(text: seq<RuneStr>, begin: nat, end: nat, maxLen: nat) returns (res: array<Dag>)
      requires Valid() && begin <= end <= |text|
      ensures fresh(res) && res.Length == end - begin
      ensures forall i | 0 <= i < res.Length ::
        res[i].runestr == text[begin + i] && res[i].nexts == Edges(dict, Runes(text[begin..end]), i, maxLen)
    {
      var n := end - begin;
      res := new Dag[n](_ => Dag(RuneStr(0, 0, 0, 0, 0), [], None, 0.0));
      for i := 0 to n
        invariant forall k | 0 <= k < i ::
          res[k].runestr == text[begin + k] && res[k].nexts == Edges(dict, Runes(text[begin..end]), k, maxLen)
      {
        var nexts := WordsFrom(text[begin..end], i, maxLen);
        res[i] := Dag(text[begin + i], nexts, None, 0.0);
      }
    }

    method WordsFrom(text: seq<RuneStr>, i: nat, maxLen: nat) returns (nexts: seq<Edge>)
      requires Valid() && i < |text|
      ensures nexts == Edges(dict, Runes(text), i, maxLen)
    {
      ghost var t := Runes(text);
      var node: TrieNode? := null;
      assert t[i..i] == [] && t[i..i + 1] == [t[i]];
      OneDown(t, i, i, root);
      hide NodeOk, Hangs;
      if text[i].rune in root.next {
        node := root.next[text[i].rune];
      }
      nexts := [Edge(i, if node != null then node.value else None)];
      var j := i + 1;
      while j < |text| && j - i + 1 <= maxLen
        invariant i + 1 <= j <= |text|
        invariant node == null ==> t[i..j] !in nodes
        invariant node != null ==> IsNode(node, t[i..j])
        invariant nexts + LongerWords(dict, t, i, j, maxLen) == Edges(dict, t, i, maxLen)
      {
        if node == null {
          DeadEnd(t, i, j, maxLen);
          break;
        }
        OneDown(t, i, j, node);
        if text[j].rune !in node.next {
          DeadEnd(t, i, j + 1, maxLen);
          break;
        }
        node := node.next[text[j].rune];
        if node.value.Some? {
          nexts := nexts + [Edge(j, node.value)];
        }
        j := j + 1;
      }
    }

    // One rune further down: the node of the longer stretch, or none.
    lemma {:induction false} OneDown(t: seq<Rune>, i: nat, j: nat, node: TrieNode)
      requires Valid() && i <= j < |t| && IsNode(node, t[i..j])
      ensures node in Repr
      ensures t[j] !in node.next ==> t[i..j + 1] !in nodes && t[i..j + 1] !in dict
      ensures t[j] in node.next ==>
                var n := node.next[t[j]];
                n in Repr && IsNode(n, t[i..j + 1]) && n.value == Lookup(dict, t[i..j + 1])
    {
      assert NodeOk(t[i..j]) && t[i..j + 1] == t[i..j] + [t[j]];
      if t[j] in node.next {
        assert NodeOk(t[i..j + 1]);
      } else {
        assert t[i..][..j - i] == t[i..j] && t[i..][..j - i + 1] == t[i..j + 1];
        NothingBelow(t[i..], j - i);
      }
    }

    lemma {:induction false} DeadEnd(t: seq<Rune>, i: nat, j: nat, maxLen: nat)
      requires Valid() && i < j <= |t| && t[i..j] !in nodes
      ensures LongerWords(dict, t, i, j, maxLen) == []
      decreases |t| - j
    {
      if j < |t| {
        UpOf(t[i..j + 1]);
        assert t[i..j + 1][..j - i] == t[i..j];
        DeadEnd(t, i, j + 1, maxLen);
      }
    }
  }

  // ---------------------------------------------------------------- building it

  // Each word stands for itself, so that the length of a unit's word is the length of its match.
  ghost predicate WellKeyed(dict: Dictionary) {
    forall w | w in dict :: w != [] && dict[w].word == w
  }

  // The unit that wins for word w: the last one in the list.
  function LastUnit(units: seq<DictUnit>, w: seq<Rune>): Option<DictUnit> {
    if units == [] then None
    else if units[|units| - 1].word == w then Some(units[|units| - 1])
    else LastUnit(units[..|units| - 1], w)
  }

  lemma {:induction false} LastUnitIs(units: seq<DictUnit>, w: seq<Rune>)
    ensures LastUnit(units, w).None? <==> forall k | 0 <= k < |units| :: units[k].word != w
    ensures LastUnit(units, w).Some? ==>
              exists k ::
                && 0 <= k < |units| && units[k] == LastUnit(units, w).value && units[k].word == w
                && forall j | k < j < |units| :: units[j].word != w
  {
    if units != [] && units[|units| - 1].word != w {
      LastUnitIs(units[..|units| - 1], w);
    }
  }

  method CreateTrie(units: seq<DictUnit>) returns (trie: Trie)
    ensures trie.Valid() && fresh(trie.Repr)
    ensures WellKeyed(trie.dict)
    ensures forall w | w != [] :: Lookup(trie.dict, w) == LastUnit(units, w)
  {
    trie := new Trie();
    for i := 0 to |units|
      invariant trie.Valid() && fresh(trie.Repr)
      invariant WellKeyed(trie.dict)
      invariant forall w | w != [] :: Lookup(trie.dict, w) == LastUnit(units[..i], w)
    {
      assert units[..i + 1][..i] == units[..i];
      trie.InsertNode(units[i].word, units[i]);
    }
    assert units[..|units|] == units;
  }
}
