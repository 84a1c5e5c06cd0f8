/**
 * Two replicas of the cache.  Readers look only at `current`; what is read or written is queued, and
 * a background thread applies the queue to `clone`, swaps the replicas and applies it to the other.
 * Each method is one critical section or one statement of the background thread, so every
 * interleaving is a sequence of calls.
 */
module MyCache {
  import opened Common
  import opened Cache

  datatype CacheNode = CacheNode(queryWord: string, result: string)

  function WordsOf(nodes: seq<CacheNode>): seq<string> {
    seq(|nodes|, k requires 0 <= k < |nodes| => nodes[k].queryWord)
  }

  // Where the background thread is.
  datatype Place = AtHead | ApplyingFirst | Saved | ApplyingSecond

  // Where its next statement takes it, and which node of a batch of some length is then next.
  function NextPlace(place: Place, next: nat, batch: nat): (Place, nat) {
    match place
    case AtHead => (ApplyingFirst, next)
    case ApplyingFirst => if next < batch then (ApplyingFirst, next + 1) else (Saved, next)
    case Saved => (ApplyingSecond, 0)
    case ApplyingSecond => if next < batch then (ApplyingSecond, next + 1) else (AtHead, 0)
  }

  const CAPACITY := 1000

  // The words of a cache to which these nodes have been written.
  ghost function Used(nodes: seq<CacheNode>): seq<string> {
    TouchAll([], WordsOf(nodes), CAPACITY)
  }

  lemma {:induction false} UsedIsRecent(nodes: seq<CacheNode>)
    ensures Used(nodes) == Take(Recent(WordsOf(nodes)), 1000)
    ensures ByRecency(Recent(WordsOf(nodes)), WordsOf(nodes))
  {
    LeastRecentlyUsedGoes(WordsOf(nodes), CAPACITY);
  }

  lemma {:induction false} UsedStep(nodes: seq<CacheNode>, n: nat)
    requires n < |nodes|
    ensures Used(nodes[..n + 1]) == Touch(Used(nodes[..n]), nodes[n].queryWord, CAPACITY)
  {
    var words := WordsOf(nodes[..n + 1]);
    assert words[..|words| - 1] == WordsOf(nodes[..n]) && words[|words| - 1] == nodes[n].queryWord;
  }

  lemma {:induction false} PrefixKept(nodes: seq<CacheNode>, node: CacheNode, n: nat)
    requires n <= |nodes|
    ensures (nodes + [node])[..n] == nodes[..n]
  {}

  function Stripped(result: string): string {
    if result != [] && result[|result| - 1] == '\n' then result[..|result| - 1] else result
  }

  // One newline at the end, and nothing else.
  lemma {:induction false} StrippedIs(result: string, c: char)
    ensures Stripped(result + "\n") == result && Stripped("") == ""
    ensures c != '\n' ==> Stripped(result + [c]) == result + [c]
  {
    assert (result + "\n")[..|result|] == result;
  }

  lemma {:induction false} NodesDistinct(nodes: seq<Node>)
    requires NoRepeats(Words(nodes))
    ensures forall i, j | 0 <= i < j < |nodes| :: nodes[i] != nodes[j]
  {
    WordsElements(nodes);
  }

  // ---------------------------------------------------------------- results

  // The result a cache has under each of its words: the one written when the word last came in.
  ghost function HeldResults(nodes: seq<CacheNode>): (held: map<string, string>)
    ensures held.Keys == Members(Used(nodes))
  {
    if nodes == [] then map[]
    else
      var before, last := nodes[..|nodes| - 1], nodes[|nodes| - 1];
      UsedMembers(nodes);
      map word | word in Used(nodes) :: if word in Used(before) then HeldResults(before)[word] else last.result
  }

  ghost function Members(words: seq<string>): set<string> {
    set word | word in words
  }

  // A word in use was so before, or it is the last one.
  lemma {:induction false} UsedMembers(nodes: seq<CacheNode>)
    requires nodes != []
    ensures forall word | word in Used(nodes) ::
              word in Used(nodes[..|nodes| - 1]) || word == nodes[|nodes| - 1].queryWord
  {
    assert nodes[..|nodes|] == nodes;
    UsedStep(nodes, |nodes| - 1);
    WithoutMembers(Used(nodes[..|nodes| - 1]), nodes[|nodes| - 1].queryWord);
  }

  lemma {:induction false} WithoutMembers(words: seq<string>, word: string)
    ensures forall w | w in Without(words, word) :: w in words
  {
    if words != [] {
      WithoutMembers(words[1..], word);
    }
  }

  lemma {:induction false} HeldStep(nodes: seq<CacheNode>, n: nat, word: string)
    requires n < |nodes| && word in Used(nodes[..n + 1])
    ensures word in HeldResults(nodes[..n + 1])
    ensures word in Used(nodes[..n]) || word == nodes[n].queryWord
    ensures HeldResults(nodes[..n + 1])[word] ==
            if word in Used(nodes[..n]) then HeldResults(nodes[..n])[word] else nodes[n].result
  {
    hide Used;
    UsedMembers(nodes[..n + 1]);
    assert nodes[..n + 1][..n] == nodes[..n];
  }

  // That is the write at which the word was last not in use.
  lemma {:induction false} HeldSince(nodes: seq<CacheNode>, word: string) returns (k: nat)
    requires word in HeldResults(nodes)
    ensures k < |nodes| && nodes[k] == CacheNode(word, HeldResults(nodes)[word])
    ensures word !in Used(nodes[..k]) && forall j | k < j <= |nodes| :: word in Used(nodes[..j])
  {
    assert nodes != [] && word in Used(nodes);
    hide Used, HeldResults;
    var before := nodes[..|nodes| - 1];
    assert nodes[..|nodes|] == nodes;
    HeldStep(nodes, |nodes| - 1, word);
    if word in Used(before) {
      k := HeldSince(before, word);
      assert before[..k] == nodes[..k];
      assert forall j | k < j <= |before| :: before[..j] == nodes[..j];
    } else {
      k := |nodes| - 1;
    }
  }

  // A result less some of the newlines at its end.
  ghost predicate Trims(less: string, result: string) {
    less <= result && forall k | |less| <= k < |result| :: result[k] == '\n'
  }

  ghost predicate AllHeld(nodes: seq<Node>, held: map<string, string>)
    reads nodes
  {
    forall n | n in nodes :: n.queryWord in held && Trims(n.result, held[n.queryWord])
  }

  ghost predicate Apart(xs: seq<Node>, ys: seq<Node>) {
    forall n | n in xs :: n !in ys
  }

  lemma {:induction false} BothTrim(x: string, y: string, result: string)
    requires Trims(x, result) && Trims(y, result)
    ensures Trims(x, y) || Trims(y, x)
  {
    assert if |x| <= |y| then x <= y else y <= x;
  }

  lemma {:induction false} StillApart(xs: seq<Node>, was: seq<Node>, now: seq<Node>)
    requires Apart(xs, was) && forall x | x in now && x in xs :: x in was
    ensures Apart(xs, now)
  {}

  lemma {:induction false} StripTrims(less: string, result: string)
    requires Trims(less, result)
    ensures Trims(Stripped(less), result)
  {}

  // Adding a node to a cache adds it to what the cache holds.
  lemma {:induction false} AddedHolds(was: seq<Node>, now: seq<Node>, nodes: seq<CacheNode>, n: nat)
    requires n < |nodes| && AllHeld(was, HeldResults(nodes[..n]))
    requires Words(was) == Used(nodes[..n]) && Words(now) == Used(nodes[..n + 1])
    requires Words(now) == Touch(Words(was), nodes[n].queryWord, CAPACITY)
    requires nodes[n].queryWord in Words(was) ==> forall x | x in now :: x in was
    requires nodes[n].queryWord !in Words(was) ==>
               now != [] && now[0].result == nodes[n].result && forall x | x in now[1..] :: x in was
    ensures AllHeld(now, HeldResults(nodes[..n + 1]))
  {
    hide Used, HeldResults, Trims, Words, Without;
    WordsElements(was);
    WordsElements(now);
    assert forall x | x in now :: x in was || (now != [] && x == now[0]);
    forall x | x in now
      ensures x.queryWord in HeldResults(nodes[..n + 1]) && Trims(x.result, HeldResults(nodes[..n + 1])[x.queryWord])
    {
      var k :| 0 <= k < |now| && now[k] == x;
      assert Words(now)[k] == x.queryWord;
      HeldStep(nodes, n, x.queryWord);
      if x !in was {
        TrimsItself(x.result);
      }
    }
  }

  lemma {:induction false} TrimsItself(result: string)
    ensures Trims(result, result)
  {}

  class MyCache {
    var current: Cache
    var clone: Cache
    var list: seq<CacheNode>
    // The background thread's own.
    var docker: seq<CacheNode>
    var place: Place
    var next: nat  // which node of the docker it applies next
    // Every node written, and how many of them had been applied at the last loop head.
    ghost var written: seq<CacheNode>
    ghost var applied: nat

    ghost predicate Valid()
      reads this, current, clone, current.cacheList, clone.cacheList
    {
      && current != clone && current.Valid() && clone.Valid() && current.capacity == clone.capacity == CAPACITY
      && applied + |docker| <= |written| && next <= |docker|
      && docker == written[applied..applied + |docker|] && list == written[applied + |docker|..]
      && Words(current.cacheList) == Used(written[..applied + if place.ApplyingSecond? then |docker| else 0])
      && Words(clone.cacheList) == Used(written[..applied + next])
      && AllHeld(current.cacheList, HeldResults(written[..applied + if place.ApplyingSecond? then |docker| else 0]))
      && AllHeld(clone.cacheList, HeldResults(written[..applied + next]))
      && Apart(current.cacheList, clone.cacheList)
      && (place.AtHead? ==> docker == []) && (place.Saved? ==> next == |docker|)
    }

    constructor ()
      ensures Valid() && fresh(current) && fresh(clone)
      ensures place == AtHead && written == []
    {
      current := new Cache(CAPACITY);
      clone := new Cache(CAPACITY);
      list, docker, place, next, written, applied := [], [], AtHead, 0, [], 0;
    }

    method Write(node: CacheNode)
      requires Valid()
      modifies `list, `written
      ensures Valid() && written == old(written) + [node]
    {
      hide Used, HeldResults, Words, Matches, NoRepeats;
      list := list + [node];
      written := written + [node];
      PrefixKept(old(written), node, applied + if place.ApplyingSecond? then |docker| else 0);
      PrefixKept(old(written), node, applied + next);
      assert written[applied..applied + |docker|] == old(written)[applied..applied + |docker|];
    }

    // Reading, up to the end of its first critical section.
    method Look(word: string) returns (ret: string)
      requires Valid()
      ensures ret == if word in Words(current.cacheList) then current.hashMap[word].result else MISS
      ensures word in Words(current.cacheList) ==>
                exists k :: 0 <= k < |written| && written[k].queryWord == word && Trims(ret, written[k].result)
    {
      hide Used, HeldResults, Trims, Words, Matches, NoRepeats;
      ret := current.Get(word);
      if word in Words(current.cacheList) {
        ghost var n := applied + if place.ApplyingSecond? then |docker| else 0;
        KeyListed(current.hashMap, current.cacheList, word);
        ghost var k := HeldSince(written[..n], word);
        assert written[..n][k] == written[k];
        assert written[k].queryWord == word && Trims(ret, written[k].result);
      }
    }

    // The rest of it, at any later time: a hit is written again, and so becomes the most recently used.
    method Answer(word: string, ret: string)
      requires Valid()
      modifies `list, `written
      ensures Valid() && written == old(written) + if ret == MISS then [] else [CacheNode(word, ret)]
    {
      if ret == MISS {
        return;
      }
      Write(CacheNode(word, ret));
    }

    method TakeList()
      requires Valid() && place == AtHead
      modifies `list, `docker, `place
      ensures Valid() && place == ApplyingFirst && written == old(written)
      ensures docker == old(list) && list == [] && next == old(next)
    {
      hide Used, HeldResults, Words, Matches, NoRepeats, Touch;
      list, docker := docker, list;
      place := ApplyingFirst;
    }

    method ApplyNext()
      requires Valid() && (place == ApplyingFirst || place == ApplyingSecond) && next < |docker|
      modifies `next, clone
      ensures Valid() && written == old(written) && next == old(next) + 1
    {
      hide Used, HeldResults, AllHeld, Apart, Words, Matches, NoRepeats, Touch;
      UsedStep(written, applied + next);
      assert docker[next] == written[applied + next];
      ghost var was := clone.cacheList;
      clone.AddElement(docker[next].queryWord, docker[next].result);
      AddedHolds(was, clone.cacheList, written, applied + next);
      assert forall x | x in clone.cacheList && x in current.cacheList :: x in was;
      StillApart(current.cacheList, was, clone.cacheList);
      next := next + 1;
    }

    // Writing the clone to its file takes the newline off the end of each result.
    method Save()
      requires Valid() && place == ApplyingFirst && next == |docker|
      modifies `place, clone.cacheList
      ensures Valid() && place == Saved && written == old(written)
      ensures forall n | n in clone.cacheList :: n.result == Stripped(old(n.result))
    {
      hide Used, HeldResults, Words, Matches, NoRepeats, Touch, Trims;
      var nodes := clone.cacheList;
      NodesDistinct(nodes);
      for k := 0 to |nodes|
        invariant forall j | 0 <= j < |nodes| :: nodes[j].result == if j < k then Stripped(old(nodes[j].result)) else old(nodes[j].result)
        modifies nodes
      {
        var node := nodes[k];
        if node.result != [] && node.result[|node.result| - 1] == '\n' {
          node.result := node.result[..|node.result| - 1];
        }
      }
      place := Saved;
      forall n | n in nodes
        ensures Trims(n.result, HeldResults(written[..applied + next])[n.queryWord])
      {
        StripTrims(old(n.result), HeldResults(written[..applied + next])[n.queryWord]);
      }
    }

    method SwapReplicas()
      requires Valid() && place == Saved
      modifies `current, `clone, `place, `next
      ensures Valid() && place == ApplyingSecond && written == old(written)
      ensures current == old(clone) && clone == old(current) && next == 0
    {
      hide Used, HeldResults, Words, Matches, NoRepeats, Touch;
      current, clone := clone, current;
      place, next := ApplyingSecond, 0;
    }

    method Finish()
      requires Valid() && place == ApplyingSecond && next == |docker|
      modifies `docker, `place, `next, `applied
      ensures Valid() && place == AtHead && written == old(written)
      ensures applied == old(applied + |docker|)
    {
      hide Used, HeldResults, Words, Matches, NoRepeats, Touch;
      applied := applied + |docker|;
      assert written[applied..applied] == [] && written[applied..] == list;
      docker, place, next := [], AtHead, 0;
    }

    // The background thread's next statement.
    method Step()
      requires Valid()
      modifies this, clone, clone.cacheList
      ensures Valid() && written == old(written) && (place, next) == old(NextPlace(place, next, |docker|))
    {
      hide Used, HeldResults, AllHeld, Apart, Words, Matches, NoRepeats, Cache.Valid;
      match place {
        case AtHead => TakeList();
        case ApplyingFirst => if next < |docker| { ApplyNext(); } else { Save(); }
        case Saved => SwapReplicas();
        case ApplyingSecond => if next < |docker| { ApplyNext(); } else { Finish(); }
      }
    }

    // At a loop head the replicas hold the same words in the same order: the most recently used of
    // those written so far, but for what still waits in the list.  Their results differ in final newlines at most.
    lemma {:induction false} ReplicasAgree()
      requires Valid() && place == AtHead
      ensures Words(current.cacheList) == Words(clone.cacheList)
      ensures written == written[..applied] + list
      ensures Words(current.cacheList) == Take(Recent(WordsOf(written[..applied])), 1000)
      ensures AllHeld(current.cacheList, HeldResults(written[..applied])) && AllHeld(clone.cacheList, HeldResults(written[..applied]))
      ensures forall x, y | x in current.cacheList && y in clone.cacheList && x.queryWord == y.queryWord ::
                Trims(x.result, y.result) || Trims(y.result, x.result)
    {
      hide Used, HeldResults, Trims, Words, Matches, NoRepeats, Take, Recent;
      UsedIsRecent(written[..applied]);
      ghost var held := HeldResults(written[..applied]);
      forall x, y | x in current.cacheList && y in clone.cacheList && x.queryWord == y.queryWord
        ensures Trims(x.result, y.result) || Trims(y.result, x.result)
      {
        BothTrim(x.result, y.result, held[x.queryWord]);
      }
    }

    // At any other time, a reader finds the most recently used words of some moment.
    lemma {:induction false} ReadersSeeAPrefix() returns (n: nat)
      requires Valid()
      ensures applied <= n <= applied + |docker| <= |written|
      ensures Words(current.cacheList) == Take(Recent(WordsOf(written[..n])), 1000)
      ensures AllHeld(current.cacheList, HeldResults(written[..n]))
    {
      hide Used, HeldResults, Trims, Words, Matches, NoRepeats, Take, Recent, AllHeld;
      n := applied + if place.ApplyingSecond? then |docker| else 0;
      UsedIsRecent(written[..n]);
    }
  }
}
