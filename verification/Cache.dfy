/** The query cache: a list with the most recently used word first, and a map from words to its nodes. */
module Cache {
  import opened Common

  // ---------------------------------------------------------------- lists of words

  lemma {:induction false} CutMembers<T>(xs: seq<T>, p: nat)
    requires p < |xs|
    ensures forall x :: x in xs <==> x == xs[p] || x in Cut(xs, p)
  {
    forall x | x in xs && x != xs[p] ensures x in Cut(xs, p) {
      var k :| 0 <= k < |xs| && xs[k] == x;
      assert Cut(xs, p)[if k < p then k else k - 1] == x;
    }
  }

  lemma {:induction false} CutDistinct(words: seq<string>, p: nat)
    requires NoRepeats(words) && p < |words|
    ensures NoRepeats(Cut(words, p)) && words[p] !in Cut(words, p)
  {
    hide Cut;
  }

  function Without(words: seq<string>, word: string): seq<string> {
    if words == [] then []
    else (if words[0] == word then [] else [words[0]]) + Without(words[1..], word)
  }

  lemma {:induction false} WithoutAppend(us: seq<string>, vs: seq<string>, word: string)
    ensures Without(us + vs, word) == Without(us, word) + Without(vs, word)
  {
    if us == [] {
      assert us + vs == vs;
    } else {
      WithoutAppend(us[1..], vs, word);
      assert (us + vs)[0] == us[0] && (us + vs)[1..] == us[1..] + vs;
      if us[0] != word {
        Associate([us[0]], Without(us[1..], word), Without(vs, word));
      }
    }
  }

  lemma {:induction false} WithoutAbsent(words: seq<string>, word: string)
    requires word !in words
    ensures Without(words, word) == words
  {
    if words != [] {
      WithoutAbsent(words[1..], word);
    }
  }

  // Of distinct words, one goes.
  lemma {:induction false} WithoutOne(words: seq<string>, p: nat)
    requires NoRepeats(words) && p < |words|
    ensures Without(words, words[p]) == Cut(words, p)
  {
    var us, word, vs := words[..p], words[p], words[p + 1..];
    assert words == us + ([word] + vs);
    assert word !in us && word !in vs;
    hide Without, NoRepeats;
    WithoutAppend(us, [word] + vs, word);
    WithoutAppend([word], vs, word);
    WithoutItself(word);
    WithoutAbsent(us, word);
    WithoutAbsent(vs, word);
  }

  lemma {:induction false} WithoutItself(word: string)
    ensures Without([word], word) == []
  {}

  // What using a word does to the words in a cache.
  function Touch(words: seq<string>, word: string, capacity: nat): seq<string> {
    if word in words then [word] + Without(words, word)
    else if |words| == capacity && words != [] then [word] + words[..|words| - 1]
    else [word] + words
  }

  function TouchAll(words: seq<string>, uses: seq<string>, capacity: nat): seq<string> {
    if uses == [] then words else Touch(TouchAll(words, uses[..|uses| - 1], capacity), uses[|uses| - 1], capacity)
  }

  lemma {:induction false} TouchAllAppend(words: seq<string>, us: seq<string>, vs: seq<string>, capacity: nat)
    ensures TouchAll(words, us + vs, capacity) == TouchAll(TouchAll(words, us, capacity), vs, capacity)
  {
    if vs == [] {
      assert us + vs == us;
    } else {
      TouchAllAppend(words, us, vs[..|vs| - 1], capacity);
      assert (us + vs)[..|us + vs| - 1] == us + vs[..|vs| - 1];
    }
  }

  lemma {:induction false} TouchNew(words: seq<string>, word: string, capacity: nat)
    requires word !in words && |words| < capacity
    ensures Touch(words, word, capacity) == [word] + words
  {}

  lemma {:induction false} DistinctRest(words: seq<string>, k: nat)
    requires NoRepeats(words) && k < |words|
    ensures words[k] !in words[k + 1..]
  {}

  // ---------------------------------------------------------------- least recently used

  // When a word was last used.
  function LastUse(uses: seq<string>, word: string): int {
    if uses == [] then -1
    else if uses[|uses| - 1] == word then |uses| - 1
    else LastUse(uses[..|uses| - 1], word)
  }

  lemma {:induction false} LastUseIs(uses: seq<string>, word: string)
    ensures var k := LastUse(uses, word);
            -1 <= k < |uses| && (k >= 0 ==> uses[k] == word) && forall j | k < j < |uses| :: uses[j] != word
  {
    if uses != [] && uses[|uses| - 1] != word {
      var before := uses[..|uses| - 1];
      LastUseIs(before, word);
      assert forall j | 0 <= j < |before| :: uses[j] == before[j];
    }
  }

  // These are all the words used, the most recently used first.
  ghost predicate ByRecency(words: seq<string>, uses: seq<string>) {
    && (forall w :: w in words <==> LastUse(uses, w) >= 0)
    && Falls(words, LastUseOf(uses))
  }

  ghost predicate Falls(words: seq<string>, f: string -> int) {
    forall i, j | 0 <= i < j < |words| :: f(words[i]) > f(words[j])
  }

  function LastUseOf(uses: seq<string>): string -> int {
    w => LastUse(uses, w)
  }

  lemma {:induction false} FallsCut(words: seq<string>, p: nat, f: string -> int)
    requires Falls(words, f) && p < |words|
    ensures Falls(Cut(words, p), f)
  {
    hide Cut;
  }

  lemma {:induction false} FallsFront(words: seq<string>, word: string, f: string -> int, g: string -> int)
    requires Falls(words, f) && forall w | w in words :: f(w) == g(w) < g(word)
    ensures Falls([word] + words, g)
  {
    assert forall k | 0 <= k < |words| :: words[k] in words;
  }

  function Recent(uses: seq<string>): seq<string> {
    if uses == [] then []
    else [uses[|uses| - 1]] + Without(Recent(uses[..|uses| - 1]), uses[|uses| - 1])
  }

  lemma {:induction false} LastUseBound(uses: seq<string>, word: string)
    ensures LastUse(uses, word) < |uses|
  {
    if uses != [] {
      LastUseBound(uses[..|uses| - 1], word);
    }
  }

  lemma {:induction false} RecentIsByRecency(uses: seq<string>)
    ensures ByRecency(Recent(uses), uses) && NoRepeats(Recent(uses))
  {
    if uses != [] {
      RecentIsByRecency(uses[..|uses| - 1]);
      RecencyStep(Recent(uses[..|uses| - 1]), uses);
    }
  }

  lemma {:induction false} RecencyStep(words: seq<string>, uses: seq<string>)
    requires uses != [] && ByRecency(words, uses[..|uses| - 1]) && NoRepeats(words)
    ensures var word := uses[|uses| - 1]; var words' := [word] + Without(words, word);
            ByRecency(words', uses) && NoRepeats(words')
  {
    hide Without, Cut, LastUse, NoRepeats, Falls;
    var word := uses[|uses| - 1];
    var rest := Without(words, word);
    if word in words {
      var p :| 0 <= p < |words| && words[p] == word;
      WithoutOne(words, p);
      CutMembers(words, p);
      CutDistinct(words, p);
      FallsCut(words, p, LastUseOf(uses[..|uses| - 1]));
    } else {
      WithoutAbsent(words, word);
    }
    var before := uses[..|uses| - 1];
    forall w: string
      ensures LastUse(uses, w) == (if w == word then |uses| - 1 else LastUse(before, w)) && LastUse(before, w) < |uses| - 1
    {
      LastUseStep(uses, w);
    }
    FallsFront(rest, word, LastUseOf(uses[..|uses| - 1]), LastUseOf(uses));
    DistinctFront(rest, word);
    assert forall w :: w in [word] + rest <==> w == word || w in rest;
  }

  lemma {:induction false} LastUseStep(uses: seq<string>, w: string)
    requires uses != []
    ensures LastUse(uses, w) == if w == uses[|uses| - 1] then |uses| - 1 else LastUse(uses[..|uses| - 1], w)
    ensures LastUse(uses, w) < |uses| && LastUse(uses[..|uses| - 1], w) < |uses| - 1
  {
    LastUseBound(uses[..|uses| - 1], w);
  }

  function Take(words: seq<string>, n: nat): seq<string> {
    if |words| <= n then words else words[..n]
  }

  lemma {:induction false} TouchIsPrefix(words: seq<string>, word: string, capacity: nat)
    requires capacity > 0 && NoRepeats(words)
    ensures Touch(Take(words, capacity), word, capacity) == Take([word] + Without(words, word), capacity)
  {
    hide Without, NoRepeats, Cut;
    var kept := Take(words, capacity);
    if word in words {
      var p :| 0 <= p < |words| && words[p] == word;
      WithoutOne(words, p);
      if p < capacity {
        DistinctTake(words, capacity);
        assert kept[p] == word;
        WithoutOne(kept, p);
      } else {
        DistinctApart(words, p, capacity);
      }
    } else {
      WithoutAbsent(words, word);
    }
  }

  lemma {:induction false} DistinctTake(words: seq<string>, n: nat)
    requires NoRepeats(words)
    ensures NoRepeats(Take(words, n))
  {}

  lemma {:induction false} DistinctApart(words: seq<string>, p: nat, n: nat)
    requires NoRepeats(words) && n <= p < |words|
    ensures words[p] !in words[..n]
  {}

  // The cache holds the `capacity` most recently used words, in that order.
  lemma {:induction false} LeastRecentlyUsedGoes(uses: seq<string>, capacity: nat)
    requires capacity > 0
    ensures TouchAll([], uses, capacity) == Take(Recent(uses), capacity)
    ensures ByRecency(Recent(uses), uses)
  {
    RecentIsByRecency(uses);
    if uses != [] {
      LeastRecentlyUsedGoes(uses[..|uses| - 1], capacity);
      RecentIsByRecency(uses[..|uses| - 1]);
      TouchIsPrefix(Recent(uses[..|uses| - 1]), uses[|uses| - 1], capacity);
    }
  }

  // ---------------------------------------------------------------- the cache

  class Node {
    const queryWord: string
    var result: string

    constructor (queryWord: string, result: string)
      ensures this.queryWord == queryWord && this.result == result
    {
      this.queryWord, this.result := queryWord, result;
    }
  }

  function Words(nodes: seq<Node>): seq<string> {
    seq(|nodes|, k requires 0 <= k < |nodes| => nodes[k].queryWord)
  }

  ghost function Results(nodes: seq<Node>): seq<string>
    reads nodes
  {
    seq(|nodes|, k requires 0 <= k < |nodes| reads nodes => nodes[k].result)
  }

  lemma {:induction false} ResultsFront(node: Node, nodes: seq<Node>)
    ensures Results([node] + nodes) == [node.result] + Results(nodes)
  {}

  lemma {:induction false} NodesLength(nodes: seq<Node>)
    ensures |Words(nodes)| == |Results(nodes)| == |nodes|
    ensures Words([]) == [] && Results([]) == []
  {}

  lemma {:induction false} WordsElements(nodes: seq<Node>)
    ensures |Words(nodes)| == |nodes| && forall k | 0 <= k < |nodes| :: Words(nodes)[k] == nodes[k].queryWord
  {}

  lemma {:induction false} NodeAt(nodes: seq<Node>, k: nat)
    requires k < |nodes|
    ensures Words(nodes)[k] == nodes[k].queryWord && Results(nodes)[k] == nodes[k].result
  {}

  // The map holds the words of the list, each with its node.
  ghost predicate Matches(hashMap: map<string, Node>, nodes: seq<Node>) {
    && (forall n | n in nodes :: n.queryWord in hashMap && hashMap[n.queryWord] == n)
    && (forall word | word in hashMap :: hashMap[word] in nodes && hashMap[word].queryWord == word)
  }

  lemma {:induction false} KeyListed(hashMap: map<string, Node>, nodes: seq<Node>, key: string)
    requires Matches(hashMap, nodes)
    ensures key in hashMap <==> key in Words(nodes)
    ensures key in hashMap ==> hashMap[key] in nodes && hashMap[key].queryWord == key
  {
    if key in hashMap {
      var k :| 0 <= k < |nodes| && nodes[k] == hashMap[key];
      assert Words(nodes)[k] == key;
    }
  }

  lemma {:induction false} DropLast(hashMap: map<string, Node>, nodes: seq<Node>)
    requires Matches(hashMap, nodes) && NoRepeats(Words(nodes)) && nodes != []
    ensures var rest := nodes[..|nodes| - 1];
            Matches(hashMap - {nodes[|nodes| - 1].queryWord}, rest) && NoRepeats(Words(rest)) && Words(rest) == Words(nodes)[..|nodes| - 1]
  {
    var rest, last := nodes[..|nodes| - 1], nodes[|nodes| - 1];
    WordsElements(nodes);
    assert Words(rest) == Words(nodes)[..|nodes| - 1];
    assert forall k | 0 <= k < |rest| :: rest[k].queryWord == Words(nodes)[k] != last.queryWord;
    assert forall n | n in nodes && n != last :: n in rest;
  }

  lemma {:induction false} PushFront(hashMap: map<string, Node>, nodes: seq<Node>, node: Node)
    requires Matches(hashMap, nodes) && NoRepeats(Words(nodes)) && node.queryWord !in hashMap
    ensures Matches(hashMap[node.queryWord := node], [node] + nodes) && NoRepeats(Words([node] + nodes))
    ensures Words([node] + nodes) == [node.queryWord] + Words(nodes)
  {
    WordsElements(nodes);
    WordsFront(node, nodes);
    assert forall k | 0 <= k < |nodes| :: nodes[k] in nodes && Words(nodes)[k] in hashMap;
    DistinctFront(Words(nodes), node.queryWord);
  }

  lemma {:induction false} MoveFront(hashMap: map<string, Node>, nodes: seq<Node>, node: Node)
    requires Matches(hashMap, nodes) && NoRepeats(Words(nodes)) && node in nodes
    ensures var nodes' := [node] + Unlink(nodes, node);
            && Matches(hashMap, nodes') && NoRepeats(Words(nodes')) && |nodes'| == |nodes|
            && Words(nodes') == [node.queryWord] + Without(Words(nodes), node.queryWord)
            && forall n | n in nodes' :: n in nodes
  {
    hide Cut, Matches, Without, NoRepeats, Words;
    var p := UnlinkIsCut(nodes, node);
    var rest := Unlink(nodes, node);
    NodesLength(nodes);
    NodeAt(nodes, p);
    WithoutOne(Words(nodes), p);
    CutMembers(nodes, p);
    CutDistinct(Words(nodes), p);
    WordsCut(nodes, p);
    SameNodesMatch(hashMap, nodes, [node] + rest);
    WordsFront(node, rest);
    DistinctFront(Words(rest), node.queryWord);
  }

  lemma {:induction false} DistinctFront(words: seq<string>, word: string)
    requires NoRepeats(words) && word !in words
    ensures NoRepeats([word] + words)
  {}

  lemma {:induction false} WordsCut(nodes: seq<Node>, p: nat)
    requires p < |nodes|
    ensures Words(Cut(nodes, p)) == Cut(Words(nodes), p)
  {
    hide Cut;
  }

  lemma {:induction false} WordsFront(node: Node, nodes: seq<Node>)
    ensures Words([node] + nodes) == [node.queryWord] + Words(nodes)
  {}

  lemma {:induction false} SameNodesMatch(hashMap: map<string, Node>, nodes: seq<Node>, nodes': seq<Node>)
    requires Matches(hashMap, nodes) && forall n :: n in nodes <==> n in nodes'
    ensures Matches(hashMap, nodes')
  {}

  // What splice leaves behind when it moves a node.
  function Unlink(nodes: seq<Node>, node: Node): seq<Node> {
    if nodes == [] then []
    else if nodes[0] == node then nodes[1..]
    else [nodes[0]] + Unlink(nodes[1..], node)
  }

  lemma {:induction false} UnlinkIsCut(nodes: seq<Node>, node: Node) returns (p: nat)
    requires node in nodes
    ensures p < |nodes| && nodes[p] == node && Unlink(nodes, node) == Cut(nodes, p)
  {
    if nodes[0] == node {
      p := 0;
    } else {
      var q := UnlinkIsCut(nodes[1..], node);
      p := q + 1;
      assert nodes[..p] == [nodes[0]] + nodes[1..][..q];
    }
  }

  const MISS := "-1"

  class Cache {
    const capacity: nat
    var cacheList: seq<Node>
    var hashMap: map<string, Node>

    ghost predicate Valid()
      reads this
    {
      0 < capacity && |cacheList| <= capacity && NoRepeats(Words(cacheList)) && Matches(hashMap, cacheList)
    }

    constructor (capacity: nat)
      requires capacity > 0
      ensures Valid() && this.capacity == capacity && cacheList == []
    {
      this.capacity := capacity;
      cacheList, hashMap := [], map[];
    }

    // Adding the oldest first gives the same order.
    constructor Copy(rhs: Cache)
      requires rhs.Valid()
      ensures Valid() && capacity == rhs.capacity
      ensures Words(cacheList) == Words(rhs.cacheList)
      ensures Results(cacheList) == Results(rhs.cacheList)
    {
      capacity := rhs.capacity;
      cacheList, hashMap := [], map[];
      new;
      var nodes := rhs.cacheList;
      ghost var words := Words(nodes);
      NodesLength(nodes);
      hide Touch, Without, Matches, NoRepeats, Words, Results;
      var k: nat := |nodes|;
      while k > 0
        invariant k <= |nodes| && Valid() && |cacheList| == |nodes| - k
        invariant Words(cacheList) == words[k..] && Results(cacheList) == Results(nodes)[k..]
      {
        k := k - 1;
        DistinctRest(words, k);
        NodeAt(nodes, k);
        TouchNew(words[k + 1..], words[k], capacity);
        ghost var before := cacheList;
        AddElement(nodes[k].queryWord, nodes[k].result);
        assert cacheList == [cacheList[0]] + before;
        ResultsFront(cacheList[0], before);
        assert words[k..] == [words[k]] + words[k + 1..];
        assert Results(nodes)[k..] == [Results(nodes)[k]] + Results(nodes)[k + 1..];
      }
      assert words[0..] == words && Results(nodes)[0..] == Results(nodes);
    }

    // A word already there moves to the front and keeps its result.
    method AddElement(key: string, value: string)
      requires Valid()
      modifies this
      ensures Valid() && Words(cacheList) == Touch(old(Words(cacheList)), key, capacity)
      ensures key in old(Words(cacheList)) ==> forall n | n in cacheList :: n in old(cacheList)
      ensures key !in old(Words(cacheList)) ==> cacheList != [] && fresh(cacheList[0]) && cacheList[0].result == value
      ensures key !in old(Words(cacheList)) ==>
                cacheList[1..] == if old(|cacheList|) == capacity then old(cacheList)[..capacity - 1] else old(cacheList)
    {
      hide NoRepeats, Matches, Without;
      KeyListed(hashMap, cacheList, key);
      if key !in hashMap {
        if |cacheList| == capacity {
          DropLast(hashMap, cacheList);
          hashMap := hashMap - {cacheList[|cacheList| - 1].queryWord};
          cacheList := cacheList[..|cacheList| - 1];
        }
        var node := new Node(key, value);
        PushFront(hashMap, cacheList, node);
        cacheList := [node] + cacheList;
        hashMap := hashMap[key := node];
      } else {
        var node := hashMap[key];
        MoveFront(hashMap, cacheList, node);
        cacheList := [node] + Unlink(cacheList, node);
        assert hashMap[key := node] == hashMap;
        hashMap := hashMap[key := cacheList[0]];
      }
    }

    method Get(queryWord: string) returns (result: string)
      requires Valid()
      ensures result == if queryWord in Words(cacheList) then hashMap[queryWord].result else MISS
    {
      KeyListed(hashMap, cacheList, queryWord);
      if queryWord !in hashMap {
        result := MISS;
      } else {
        result := hashMap[queryWord].result;
      }
    }
  }
}
