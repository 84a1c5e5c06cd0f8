/** The document tree of tinyxml2: nodes linked to their parent, first and last child, and both siblings. */
module Dom {
  import opened Common
  import MemPool

  class XMLNode {
    const item: MemPool.Item?  // where the pool has put the node; none for the document
    var parent: XMLNode?
    var firstChild: XMLNode?
    var lastChild: XMLNode?
    var prev: XMLNode?
    var next: XMLNode?

    constructor (item: MemPool.Item?)
      ensures Children([]) && this.item == item
      ensures parent == firstChild == lastChild == prev == next == null
    {
      this.item := item;
      parent, firstChild, lastChild, prev, next := null, null, null, null, null;
    }

    // These are the node's children, in order.
    ghost predicate Children(s: seq<XMLNode>)
      reads this, s
    {
      && firstChild == (if s == [] then null else s[0])
      && lastChild == (if s == [] then null else s[|s| - 1])
      && Chain(s)
    }

    ghost predicate Chain(s: seq<XMLNode>)
      reads s
    {
      && (forall i | 0 <= i < |s| :: s[i].parent == this)
      && (forall i, j | 0 <= i < j < |s| :: s[i] != s[j])
      && (forall i, j | 0 <= i < j < |s| && j == i + 1 :: s[i].next == s[j] && s[j].prev == s[i])
      && (s != [] ==> s[0].prev == null && s[|s| - 1].next == null)
    }

    twostate lemma {:induction false} ChildrenKept(s: seq<XMLNode>)
      requires old(Children(s)) && firstChild == old(firstChild) && lastChild == old(lastChild)
      requires forall c | c in s :: c.parent == old(c.parent) && c.prev == old(c.prev) && c.next == old(c.next)
      ensures Children(s)
    {}

    lemma {:induction false} ChildrenParent(s: seq<XMLNode>)
      requires Children(s)
      ensures forall c | c in s :: c.parent == this
    {}

    lemma {:induction false} Neighbours(s: seq<XMLNode>, i: nat)
      requires Children(s) && i < |s|
      ensures s[i].prev == (if i == 0 then null else s[i - 1])
      ensures s[i].next == (if i == |s| - 1 then null else s[i + 1])
    {}

    method Unlink(child: XMLNode, ghost s: seq<XMLNode>, ghost i: nat)
      requires Children(s) && i < |s| && s[i] == child && this !in s
      modifies this, s
      ensures Children(Cut(s, i))
      ensures child.parent == child.prev == child.next == null
      ensures forall n | n in s + [this] && n != this :: n.firstChild == old(n.firstChild) && n.lastChild == old(n.lastChild)
      ensures parent == old(parent) && prev == old(prev) && next == old(next)
    {
      hide Cut;
      Neighbours(s, i);
      if child == firstChild {
        firstChild := firstChild.next;
      }
      if child == lastChild {
        lastChild := lastChild.prev;
      }
      if child.prev != null {
        child.prev.next := child.next;
      }
      if child.next != null {
        child.next.prev := child.prev;
      }
      child.next := null;
      child.prev := null;
      child.parent := null;
    }

    // The end of insertEndChild, once addThis is on its own.
    method LinkEnd(addThis: XMLNode, ghost s: seq<XMLNode>)
      requires Children(s) && this !in s && addThis !in s && addThis != this
      modifies this, s, addThis
      ensures Children(s + [addThis])
      ensures forall n | n in s + [addThis] :: n.firstChild == old(n.firstChild) && n.lastChild == old(n.lastChild)
      ensures parent == old(parent) && prev == old(prev) && next == old(next)
    {
      if lastChild != null {
        assert lastChild == s[|s| - 1];
        lastChild.next := addThis;
        addThis.prev := lastChild;
        lastChild := addThis;
        addThis.next := null;
      } else {
        firstChild, lastChild := addThis, addThis;
        addThis.prev := null;
        addThis.next := null;
      }
      addThis.parent := this;
    }

    method LinkFirst(addThis: XMLNode, ghost s: seq<XMLNode>)
      requires Children(s) && this !in s && addThis !in s && addThis != this
      modifies this, s, addThis
      ensures Children([addThis] + s)
      ensures forall n | n in s + [addThis] :: n.firstChild == old(n.firstChild) && n.lastChild == old(n.lastChild)
      ensures parent == old(parent) && prev == old(prev) && next == old(next)
    {
      if firstChild != null {
        assert firstChild == s[0];
        firstChild.prev := addThis;
        addThis.next := firstChild;
        firstChild := addThis;
        addThis.prev := null;
      } else {
        firstChild, lastChild := addThis, addThis;
        addThis.prev := null;
        addThis.next := null;
      }
      addThis.parent := this;
    }

    method LinkAfter(afterThis: XMLNode, addThis: XMLNode, ghost s: seq<XMLNode>, ghost i: nat)
      requires Children(s) && this !in s && addThis !in s && addThis != this
      requires i + 1 < |s| && s[i] == afterThis
      modifies this, s, addThis
      ensures Children(Put(s, i + 1, addThis))
      ensures forall n | n in s + [addThis] :: n.firstChild == old(n.firstChild) && n.lastChild == old(n.lastChild)
      ensures parent == old(parent) && prev == old(prev) && next == old(next)
    {
      hide Put;
      Neighbours(s, i);
      PutAt(s, i + 1, addThis);
      addThis.prev := afterThis;
      addThis.next := afterThis.next;
      afterThis.next.prev := addThis;
      afterThis.next := addThis;
      addThis.parent := this;
      ghost var r := Put(s, i + 1, addThis);
      assert r[0] == s[0] && r[i] == afterThis && r[i + 1] == addThis && r[i + 2] == s[i + 1] && r[|r| - 1] == s[|s| - 1];
      assert forall k | 0 <= k < |r| :: r[k].parent == this;
    }
  }

  // ---------------------------------------------------------------- the tree, as values

  type Kids = map<XMLNode, seq<XMLNode>>
  type Up = map<XMLNode, XMLNode?>

  // Each node is once in its parent's list, and in no other.
  ghost predicate Family(kids: Kids, up: Up) {
    && kids.Keys == up.Keys
    && (forall n | n in kids :: NoRepeats(kids[n]))
    && (forall n, c | n in kids && c in kids[n] :: c in up && up[c] == n)
    && (forall c | c in up && up[c] != null :: up[c] in kids && c in kids[up[c]])
  }

  // A rank below the bound for each node, larger for children: so no node is its own ancestor.
  ghost predicate Ranked(up: Up, rank: map<XMLNode, nat>, bound: nat) {
    && (forall n | n in up :: n in rank && rank[n] < bound)
    && (forall n | n in up && up[n] != null :: up[n] in up && up[n] in rank && n in rank && rank[up[n]] < rank[n])
  }

  // n is x or below it.
  ghost predicate Under(up: Up, rank: map<XMLNode, nat>, bound: nat, n: XMLNode, x: XMLNode)
    requires Ranked(up, rank, bound) && n in up
    decreases rank[n]
  {
    n == x || (up[n] != null && Under(up, rank, bound, up[n], x))
  }

  // The nodes without a parent.
  ghost predicate Alone(up: Up, alone: set<XMLNode>) {
    alone <= up.Keys && forall n | n in up :: up[n] == null <==> n in alone
  }

  ghost function Elements(s: seq<XMLNode>): set<XMLNode> {
    set n | n in s
  }

  lemma {:induction false} ChildAt(kids: Kids, up: Up, rank: map<XMLNode, nat>, bound: nat, child: XMLNode) returns (i: nat)
    requires Family(kids, up) && Ranked(up, rank, bound) && child in up && up[child] != null
    ensures up[child] in kids && i < |kids[up[child]]| && kids[up[child]][i] == child
    ensures up[child] !in kids[up[child]]
  {
    i :| 0 <= i < |kids[up[child]]| && kids[up[child]][i] == child;
  }

  lemma {:induction false} Families(kids: Kids, up: Up, n: XMLNode)
    requires Family(kids, up) && n in kids
    ensures NoRepeats(kids[n]) && forall c | c in kids[n] :: c in kids && c in up && up[c] == n
    ensures forall m, c | m in kids && m != n && c in kids[m] :: c !in kids[n]
  {}

  lemma {:induction false} FamilyKeys(kids: Kids, up: Up)
    requires Family(kids, up)
    ensures kids.Keys == up.Keys
    ensures forall n, c | n in kids && c in kids[n] :: c in kids
  {}

  // Taking a node out of its parent's list.
  lemma {:induction false} Removed(kids: Kids, up: Up, x: XMLNode, r: seq<XMLNode>)
    requires Family(kids, up) && x in up && up[x] != null && up[x] in kids
    requires NoRepeats(r) && forall c :: c in r <==> c in kids[up[x]] && c != x
    ensures Family(kids[up[x] := r], up[x := null])
  {}

  // Putting a node without a parent into a list.
  lemma {:induction false} Added(kids: Kids, up: Up, n: XMLNode, x: XMLNode, r: seq<XMLNode>)
    requires Family(kids, up) && n in kids && x in up && up[x] == null
    requires NoRepeats(r) && forall c :: c in r <==> c in kids[n] || c == x
    ensures Family(kids[n := r], up[x := n])
  {}

  lemma {:induction false} CutElements(s: seq<XMLNode>, i: nat)
    requires NoRepeats(s) && i < |s|
    ensures NoRepeats(Cut(s, i)) && forall c :: c in Cut(s, i) <==> c in s && c != s[i]
  {
    hide Cut;
    forall c | c in s && c != s[i] ensures c in Cut(s, i) {
      var k :| 0 <= k < |s| && s[k] == c;
      assert Cut(s, i)[if k < i then k else k - 1] == c;
    }
  }

  lemma {:induction false} AloneRemoved(up: Up, rank: map<XMLNode, nat>, bound: nat, alone: set<XMLNode>, x: XMLNode)
    requires Ranked(up, rank, bound) && Alone(up, alone) && x in up && up[x] != null
    ensures x !in alone
    ensures Ranked(up[x := null], rank, bound) && Alone(up[x := null], alone + {x})
  {}

  lemma {:induction false} UnderCut(up: Up, rank: map<XMLNode, nat>, bound: nat, n: XMLNode, x: XMLNode)
    requires Ranked(up, rank, bound) && Ranked(up[x := null], rank, bound) && n in up && x in up
    ensures Under(up[x := null], rank, bound, n, x) == Under(up, rank, bound, n, x)
    ensures !Under(up, rank, bound, n, x) ==> n != x
    decreases rank[n]
  {
    if n != x && up[n] != null {
      UnderCut(up, rank, bound, up[n], x);
    }
  }

  // Moving everything below x out of the way makes room for x below n.
  ghost function Raised(up: Up, rank: map<XMLNode, nat>, bound: nat, x: XMLNode): map<XMLNode, nat>
    requires Ranked(up, rank, bound)
  {
    map m | m in up :: if Under(up, rank, bound, m, x) then rank[m] + bound else rank[m]
  }

  lemma {:induction false} RaisedRanks(up: Up, rank: map<XMLNode, nat>, bound: nat, n: XMLNode, x: XMLNode, alone: set<XMLNode>)
    requires Ranked(up, rank, bound) && x in up && up[x] == null && n in up && !Under(up, rank, bound, n, x)
    requires Alone(up, alone)
    ensures Ranked(up[x := n], Raised(up, rank, bound, x), 2 * bound)
    ensures Alone(up[x := n], alone - {x})
  {
    assert Under(up, rank, bound, x, x);
    forall m | m in up && m != x && up[m] != null
      ensures Under(up, rank, bound, m, x) == Under(up, rank, bound, up[m], x)
    {
    }
  }

  // A list without a given node.
  ghost function Without(s: seq<XMLNode>, x: XMLNode): seq<XMLNode> {
    if s == [] then [] else if s[0] == x then s[1..] else [s[0]] + Without(s[1..], x)
  }

  lemma {:induction false} WithoutIsCut(s: seq<XMLNode>, i: nat)
    requires NoRepeats(s) && i < |s|
    ensures Without(s, s[i]) == Cut(s, i)
  {
    hide Cut;
    if i == 0 {
      assert Cut(s, 0) == s[1..];
    } else {
      assert s[0] != s[i] && s[1..][i - 1] == s[i];
      assert NoRepeats(s[1..]);
      WithoutIsCut(s[1..], i - 1);
      assert Cut(s, i) == [s[0]] + Cut(s[1..], i - 1);
    }
  }

  // The tree when a node is held by none.
  ghost function Detached(kids: Kids, up: Up, x: XMLNode): Kids
    requires x in up && (up[x] != null ==> up[x] in kids)
  {
    if up[x] == null then kids else kids[up[x] := Without(kids[up[x]], x)]
  }

  lemma {:induction false} Detaching(kids: Kids, up: Up, n: XMLNode, x: XMLNode)
    requires Family(kids, up) && n in kids && x in up
    ensures up[x] != null ==> up[x] in kids
    ensures n in Detached(kids, up, x)
    ensures Detached(kids, up, x)[n] == if x in kids[n] then Without(kids[n], x) else kids[n]
  {}

  // Where an element is once another has gone; something still follows it unless only the other did.
  lemma {:induction false} AfterDetaching(s: seq<XMLNode>, i: nat, x: XMLNode) returns (j: nat)
    requires NoRepeats(s) && i < |s| && s[i] != x
    ensures var r := if x in s then Without(s, x) else s;
            && j < |r| && r[j] == s[i]
            && (i == |s| - 1 ==> j == |r| - 1)
            && (j + 1 < |r| <==> i + 1 < |s| && !(s[i + 1] == x && i + 2 == |s|))
  {
    hide Without, Cut;
    if x in s {
      var k :| 0 <= k < |s| && s[k] == x;
      WithoutIsCut(s, k);
      j := if i < k then i else i - 1;
    } else {
      j := i;
    }
  }

  lemma {:induction false} NewNodeAlone(kids: Kids, up: Up, rank: map<XMLNode, nat>, bound: nat, root: XMLNode, unlinked: seq<XMLNode>, node: XMLNode)
    requires Family(kids, up) && Ranked(up, rank, bound) && Alone(up, {root} + Elements(unlinked) + {})
    requires node !in kids && root in kids && NoRepeats(unlinked) && root !in unlinked
    ensures Family(kids[node := []], up[node := null]) && Ranked(up[node := null], rank[node := 0], bound)
    ensures Alone(up[node := null], {root} + Elements(unlinked + [node]) + {})
    ensures NoRepeats(unlinked + [node]) && node !in unlinked && node != root
    ensures Elements(unlinked + [node]) !! {}
  {
    assert forall n | n in unlinked :: n in Elements(unlinked);
    assert Elements(unlinked + [node]) == Elements(unlinked) + {node};
    assert rank[root] < bound;
  }

  // ---------------------------------------------------------------- the document

  // `child` goes to or from the children of `self`, which become r; its parent becomes p.
  datatype Change = Change(self: XMLNode, child: XMLNode, r: seq<XMLNode>, p: XMLNode?)

  function Put(s: seq<XMLNode>, k: nat, x: XMLNode): seq<XMLNode>
    requires k <= |s|
  {
    s[..k] + [x] + s[k..]
  }

  lemma {:induction false} PutAt(s: seq<XMLNode>, k: nat, x: XMLNode)
    requires k <= |s|
    ensures |Put(s, k, x)| == |s| + 1
    ensures forall i {:trigger Put(s, k, x)[i]} | 0 <= i <= |s| :: Put(s, k, x)[i] == if i < k then s[i] else if i == k then x else s[i - 1]
  {}

  lemma {:induction false} PutElements(s: seq<XMLNode>, k: nat, x: XMLNode)
    requires k <= |s| && NoRepeats(s) && x !in s
    ensures NoRepeats(Put(s, k, x)) && forall c :: c in Put(s, k, x) <==> c in s || c == x
  {
    var r := Put(s, k, x);
    assert forall i | 0 <= i < |r| :: r[i] == if i < k then s[i] else if i == k then x else s[i - 1];
    forall c | c in s ensures c in r {
      var i :| 0 <= i < |s| && s[i] == c;
      assert r[if i < k then i else i + 1] == c;
    }
    assert r[k] == x;
  }

  lemma {:induction false} PutEnds(s: seq<XMLNode>, x: XMLNode)
    ensures Put(s, |s|, x) == s + [x] && Put(s, 0, x) == [x] + s
  {}

  lemma {:induction false} NoneRepeats()
    ensures NoRepeats<XMLNode>([])
  {}

  // The pointers of the nodes say what the tree says.
  ghost predicate Linked(kids: Kids, up: Up)
    requires Family(kids, up)
    reads kids.Keys
  {
    forall n | n in kids :: n.Children(kids[n]) && n.parent == up[n] && (up[n] == null ==> n.prev == null && n.next == null)
  }

  // The tree of an empty document.
  ghost function RootKids(root: XMLNode): Kids {
    map[root := []]
  }

  ghost function RootUp(root: XMLNode): Up {
    map[root := null]
  }

  ghost function RootRank(root: XMLNode): map<XMLNode, nat> {
    map[root := 0]
  }

  lemma {:induction false} OnlyRoot(root: XMLNode)
    requires root.Children([]) && root.parent == null && root.prev == null && root.next == null
    ensures Family(RootKids(root), RootUp(root)) && Ranked(RootUp(root), RootRank(root), 1)
    ensures Alone(RootUp(root), {root} + Elements([]) + {}) && Elements([]) !! {}
    ensures Linked(RootKids(root), RootUp(root)) && root in RootKids(root) && |RootKids(root)| == 1
  {
    assert RootKids(root).Keys == {root};
  }

  // The nodes that are in kids but no longer in kids' are node and all that is below it.
  ghost predicate Gone(kids: Kids, up: Up, kids': Kids, up': Up, rank: map<XMLNode, nat>, node: XMLNode) {
    && kids'.Keys <= kids.Keys
    && (forall n | n in kids' :: kids'[n] == kids[n] && n in up && n in up' && up'[n] == up[n])
    && (forall m | m in kids && m !in kids' ::
          && (forall c | c in kids[m] :: c !in kids')
          && m in up && (m == node || (up[m] != null && up[m] !in kids'))
          && m in rank && node in rank && rank[m] >= rank[node])
  }

  // The nodes that are in kids but no longer in kids' are some children of self and all that is below them.
  ghost predicate Pruned(kids: Kids, up: Up, kids': Kids, up': Up, rank: map<XMLNode, nat>, self: XMLNode) {
    && kids'.Keys <= kids.Keys
    && (forall n | n in kids' && n != self :: kids'[n] == kids[n])
    && (forall n | n in kids' :: n in up && n in up' && up'[n] == up[n])
    && (forall m | m in kids && m !in kids' ::
          && (forall c | c in kids[m] :: c !in kids')
          && m in up && (up[m] == self || (up[m] != null && up[m] !in kids'))
          && m in rank && self in rank && rank[m] > rank[self])
  }

  lemma {:induction false} PrunedNothing(kids: Kids, up: Up, rank: map<XMLNode, nat>, self: XMLNode)
    requires kids.Keys == up.Keys
    ensures Pruned(kids, up, kids, up, rank, self)
  {}

  lemma {:induction false} PrunedTwice(k0: Kids, u0: Up, k1: Kids, u1: Up, k2: Kids, u2: Up, rank: map<XMLNode, nat>, self: XMLNode)
    requires Pruned(k0, u0, k1, u1, rank, self) && Pruned(k1, u1, k2, u2, rank, self)
    ensures Pruned(k0, u0, k2, u2, rank, self)
  {}

  lemma {:induction false} PrunedThenFreed(k0: Kids, u0: Up, k1: Kids, u1: Up, rank: map<XMLNode, nat>, node: XMLNode)
    requires Family(k0, u0) && Family(k1, u1) && node in k0 && node in k1 && k1[node] == [] && node in rank
    requires Pruned(k0, u0, k1, u1, rank, node)
    ensures Gone(k0, u0, k1 - {node}, u1 - {node}, rank, node)
  {
    hide Family;
    FamilyKeys(k1, u1);
    Childless(k1, u1, node);
    Families(k0, u0, node);
  }

  lemma {:induction false} RankBelow(up: Up, rank: map<XMLNode, nat>, bound: nat, node: XMLNode)
    requires Ranked(up, rank, bound) && node in up && up[node] != null
    ensures node in rank && up[node] in rank && rank[up[node]] < rank[node] < bound
  {}

  lemma {:induction false} GoneThenPruned(k0: Kids, u0: Up, k1: Kids, u1: Up, rank: map<XMLNode, nat>, self: XMLNode, node: XMLNode, r: seq<XMLNode>)
    requires self in k0 && node in u0 && u0[node] == self && self in rank && node in rank && rank[self] < rank[node]
    requires forall c | c in k0[self] && c != node :: c in r
    requires Gone(k0[self := r], u0[node := null], k1, u1, rank, node) && node !in k1
    ensures Pruned(k0, u0, k1, u1, rank, self) && self in k1 && k1[self] == r
  {}

  lemma {:induction false} FreedFamily(kids: Kids, up: Up, node: XMLNode)
    requires Family(kids, up) && node in kids && kids[node] == [] && up[node] == null
    ensures Family(kids - {node}, up - {node})
  {
    hide NoRepeats;
    assert forall c | c in up :: up[c] != node;
  }

  lemma {:induction false} FreedRest(up: Up, rank: map<XMLNode, nat>, bound: nat, base: set<XMLNode>, loose: set<XMLNode>, node: XMLNode)
    requires Ranked(up, rank, bound) && Alone(up, base + loose) && node in loose && node !in base
    requires forall c | c in up :: up[c] != node
    ensures Ranked(up - {node}, rank, bound) && Alone(up - {node}, base + (loose - {node}))
    ensures up[node] == null
  {}

  lemma {:induction false} FreedLinked(kids: Kids, up: Up, node: XMLNode)
    requires Family(kids, up) && Linked(kids, up) && node in kids && Family(kids - {node}, up - {node})
    ensures Linked(kids - {node}, up - {node}) && |kids - {node}| == |kids| - 1
  {
    hide Family, XMLNode.Children;
    FamilyKeys(kids, up);
    assert (kids - {node}).Keys == kids.Keys - {node};
  }

  lemma {:induction false} Childless(kids: Kids, up: Up, node: XMLNode)
    requires Family(kids, up) && node in kids && kids[node] == []
    ensures forall c | c in up :: up[c] != node
  {}

  lemma {:induction false} NodeRank(up: Up, rank: map<XMLNode, nat>, bound: nat)
    requires Ranked(up, rank, bound)
    ensures forall n | n in up :: n in rank
  {}

  lemma {:induction false} PrunedKeys(k0: Kids, u0: Up, k1: Kids, u1: Up, rank: map<XMLNode, nat>, self: XMLNode)
    requires Pruned(k0, u0, k1, u1, rank, self)
    ensures k1.Keys <= k0.Keys
  {}

  lemma {:induction false} GoneKeys(k0: Kids, u0: Up, k1: Kids, u1: Up, rank: map<XMLNode, nat>, n: XMLNode)
    requires exists node :: Gone(k0, u0, k1, u1, rank, node)
    requires n in k1
    ensures k1.Keys <= k0.Keys && n in k0 && k1[n] == k0[n]
  {}

  // If only the root has no parent, and the root no children, there is only the root.
  lemma {:induction false} OnlyRootLeft(kids: Kids, up: Up, rank: map<XMLNode, nat>, bound: nat, root: XMLNode)
    requires Family(kids, up) && Ranked(up, rank, bound) && Alone(up, {root} + Elements([]) + {})
    requires root in kids && kids[root] == []
    ensures kids == RootKids(root) && |kids| == 1
  {
    forall n | n in kids ensures n == root {
      BelowRoot(kids, up, rank, bound, root, n);
    }
    assert kids.Keys == {root};
  }

  lemma {:induction false} BelowRoot(kids: Kids, up: Up, rank: map<XMLNode, nat>, bound: nat, root: XMLNode, n: XMLNode)
    requires Family(kids, up) && Ranked(up, rank, bound) && Alone(up, {root} + Elements([]) + {})
    requires root in kids && kids[root] == [] && n in kids
    ensures n == root
    decreases rank[n]
  {
    if up[n] != null {
      BelowRoot(kids, up, rank, bound, root, up[n]);
      assert false;
    }
  }

  lemma {:induction false} WithoutShorter(s: seq<XMLNode>, x: XMLNode)
    requires x in s
    ensures |Without(s, x)| < |s|
  {
    if s[0] != x {
      WithoutShorter(s[1..], x);
    }
  }

  // Each node has an item of its own, and no other item is in use.
  ghost predicate Housed(nodes: set<XMLNode>, used: set<MemPool.Item>) {
    && (forall n | n in nodes :: n.item != null && n.item in used)
    && (forall n, m | n in nodes && m in nodes && n != m :: n.item != m.item)
    && (forall i | i in used :: exists n :: n in nodes && n.item == i)
  }

  lemma {:induction false} HousedMore(kids: Kids, root: XMLNode, used: set<MemPool.Item>, node: XMLNode)
    requires Housed(kids.Keys - {root}, used) && node !in kids && node != root && node.item != null && node.item !in used
    ensures Housed(kids[node := []].Keys - {root}, used + {node.item})
  {
    var nodes := kids.Keys - {root};
    assert kids[node := []].Keys - {root} == nodes + {node};
    forall i | i in used + {node.item} ensures exists n :: n in nodes + {node} && n.item == i {
      if i == node.item {
        assert node in nodes + {node};
      } else {
        var n :| n in nodes && n.item == i;
        assert n in nodes + {node};
      }
    }
  }

  lemma {:induction false} HousedLess(kids: Kids, root: XMLNode, used: set<MemPool.Item>, node: XMLNode)
    requires Housed(kids.Keys - {root}, used) && node in kids && node != root
    ensures node.item != null && node.item in used
    ensures Housed((kids - {node}).Keys - {root}, used - {node.item})
  {
    var nodes := kids.Keys - {root};
    assert (kids - {node}).Keys - {root} == nodes - {node};
    forall i | i in used - {node.item} ensures exists n :: n in nodes - {node} && n.item == i {
      var n :| n in nodes && n.item == i;
      assert n in nodes - {node};
    }
  }

  lemma {:induction false} NoneHoused(root: XMLNode, used: set<MemPool.Item>)
    ensures Housed(RootKids(root).Keys - {root}, used) <==> used == {}
  {
    assert RootKids(root).Keys - {root} == {};
  }

  class XMLDocument {
    const root: XMLNode  // the document itself, as a node
    const pool: MemPool.MemPoolT
    var unlinked: seq<XMLNode>
    ghost var kids: Kids
    ghost var up: Up
    ghost var rank: map<XMLNode, nat>
    ghost var bound: nat

    // loose: nodes that the operation under way holds in its hands.
    ghost predicate Holds(loose: set<XMLNode>)
      reads this, kids.Keys
    {
      && root in kids && Family(kids, up) && Ranked(up, rank, bound)
      && Linked(kids, up)
      && Alone(up, {root} + Elements(unlinked) + loose)
      && NoRepeats(unlinked) && root !in unlinked && root !in loose && Elements(unlinked) !! loose
    }

    // The items in use are those of the nodes, one each.
    ghost predicate Pooled()
      reads this, pool, pool.free
    {
      pool.Valid() && Housed(kids.Keys - {root}, pool.used)
    }

    // Between operations every node is in the tree or in the list of unlinked nodes, once.
    ghost predicate Valid()
      reads this, kids.Keys, pool, pool.free
    {
      Holds({}) && Pooled() && pool.nUntracked == |unlinked|
    }

    constructor (itemSize: nat)
      requires 0 < itemSize <= MemPool.BLOCK_SIZE
      ensures Valid() && fresh(root) && fresh(pool) && kids == RootKids(root) && unlinked == []
    {
      root := new XMLNode(null);
      pool := new MemPool.MemPoolT(itemSize);
      unlinked := [];
      new;
      hide RootKids, RootUp, RootRank, Family, Ranked, Alone, NoRepeats, Elements, Linked, XMLNode.Children;
      kids, up, rank, bound := RootKids(root), RootUp(root), RootRank(root), 1;
      EmptyIsValid();
    }

    lemma {:induction false} EmptyIsValid()
      requires kids == RootKids(root) && up == RootUp(root) && rank == RootRank(root) && bound == 1
      requires unlinked == [] && pool.Valid() && pool.used == {} && pool.nUntracked == 0
      requires root.Children([]) && root.parent == null && root.prev == null && root.next == null
      ensures Valid()
    {
      hide Family, Ranked, Alone, NoRepeats, Elements, Linked, RootKids, RootUp, RootRank, XMLNode.Children;
      OnlyRoot(root);
      NoneRepeats();
      NoneHoused(root, pool.used);
    }

    method Unlink(self: XMLNode, child: XMLNode, ghost loose: set<XMLNode>) returns (ghost i: nat)
      requires Holds(loose) && child in kids && child.parent == self
      modifies `kids, `up, self, kids[self]
      ensures self in old(kids) && i < |old(kids)[self]| && old(kids)[self][i] == child
      ensures kids == old(kids)[self := Cut(old(kids)[self], i)] && up == old(up)[child := null]
      ensures Holds(loose + {child})
    {
      hide Ranked, NoRepeats, Alone, Cut, Family, Linked, Elements, XMLNode.Children;
      NodeParent(child, loose);
      Place(self, loose);
      i := ChildAt(kids, up, rank, bound, child);
      ghost var s := kids[self];
      CutElements(s, i);
      Removed(kids, up, child, Cut(s, i));
      AloneRemoved(up, rank, bound, {root} + Elements(unlinked) + loose, child);
      label ready:
      self.Unlink(child, s, i);
      Relinked@ready(Change(self, child, Cut(s, i), null));
      kids, up := kids[self := Cut(s, i)], up[child := null];
      LooseMore(child, loose);
    }

    // A node and its children.
    lemma {:induction false} Place(self: XMLNode, loose: set<XMLNode>)
      requires Holds(loose) && self in kids
      ensures self.Children(kids[self]) && NoRepeats(kids[self]) && self !in kids[self]
      ensures forall c | c in kids[self] :: c in kids && c in up && up[c] == self
    {
      hide Alone, NoRepeats, XMLNode.Children;
    }

    lemma {:induction false} LooseMore(child: XMLNode, loose: set<XMLNode>)
      requires child != root && child !in {root} + Elements(unlinked) + loose && Elements(unlinked) !! loose
      ensures {root} + Elements(unlinked) + (loose + {child}) == {root} + Elements(unlinked) + loose + {child}
      ensures Elements(unlinked) !! (loose + {child})
    {}

    // The pointers have been set as the change says.
    twostate lemma {:induction false} Relinked(change: Change)
      requires kids == old(kids) && up == old(up) && Family(kids, up) && old(Linked(kids, up))
      requires change.self in kids && change.child in up && change.self != change.child
      requires up[change.child] == null || up[change.child] == change.self
      requires Family(kids[change.self := change.r], up[change.child := change.p])
      requires change.self.Children(change.r) && change.child.parent == change.p
      requires forall c | c in change.r && c != change.child :: c in kids[change.self]
      requires forall c | c in kids[change.self] && c != change.child :: c in change.r
      requires change.p == null ==> change.child.prev == null && change.child.next == null
      requires forall n | n in kids && n != change.self :: n.firstChild == old(n.firstChild) && n.lastChild == old(n.lastChild)
      requires forall n | n in kids && n !in kids[change.self] && n != change.child ::
                 n.parent == old(n.parent) && n.prev == old(n.prev) && n.next == old(n.next)
      ensures Linked(kids[change.self := change.r], up[change.child := change.p])
    {
      hide XMLNode.Children, NoRepeats, Family;
      var kids', up' := kids[change.self := change.r], up[change.child := change.p];
      change.self.ChildrenParent(change.r);
      Families(kids, up, change.self);
      FamilyKeys(kids, up);
      FamilyKeys(kids', up');
      forall n | n in kids ensures n.Children(kids'[n]) && n.parent == up'[n] && (up'[n] == null ==> n.prev == null && n.next == null) {
        if n != change.self {
          Families(kids, up, n);
          assert forall c | c in kids[n] :: c in kids && c !in kids[change.self] && c != change.child;
          n.ChildrenKept(kids[n]);
        }
      }
    }

    method SwapRemove(i: nat)
      requires i < |unlinked| && NoRepeats(unlinked)
      modifies `unlinked
      ensures |unlinked| == old(|unlinked|) - 1 && NoRepeats(unlinked)
      ensures Elements(unlinked) == old(Elements(unlinked)) - {old(unlinked)[i]}
    {
      ghost var was := unlinked;
      unlinked := unlinked[i := unlinked[|unlinked| - 1]];
      unlinked := unlinked[..|unlinked| - 1];
      forall n | n in was && n != was[i] ensures n in unlinked {
        var k :| 0 <= k < |was| && was[k] == n;
        assert unlinked[if k == |was| - 1 then i else k] == n;
      }
    }

    method MarkInUse(node: XMLNode)
      requires NoRepeats(unlinked)
      modifies `unlinked
      ensures NoRepeats(unlinked) && Elements(unlinked) == old(Elements(unlinked)) - {node}
      ensures |unlinked| == old(|unlinked|) - if node in old(unlinked) then 1 else 0
      ensures node !in old(unlinked) ==> unlinked == old(unlinked)
    {
      for i := 0 to |unlinked|
        invariant unlinked == old(unlinked) && node !in unlinked[..i]
      {
        if node == unlinked[i] {
          SwapRemove(i);
          return;
        }
      }
      assert unlinked[..|unlinked|] == unlinked;
    }

    // Takes a node from wherever it is.
    method InsertChildPreamble(insertThis: XMLNode)
      requires Valid() && insertThis in kids && insertThis != root
      modifies this, kids.Keys, pool`nUntracked
      ensures Holds({insertThis}) && Pooled() && pool.nUntracked == |unlinked|
      ensures rank == old(rank) && bound == old(bound)
      ensures insertThis in old(up) && (old(up)[insertThis] != null ==> old(up)[insertThis] in old(kids))
      ensures kids == Detached(old(kids), old(up), insertThis) && up == old(up)[insertThis := null]
      ensures kids.Keys == old(kids.Keys)
    {
      hide Ranked, Family, Cut, Without, NoRepeats, Linked, Alone, Elements, Housed;
      FamilyKeys(kids, up);
      NodeParent(insertThis, {});
      if insertThis.parent != null {
        var n := insertThis.parent;
        ghost var i := Unlink(n, insertThis, {});
        WithoutIsCut(old(kids)[n], i);
        assert kids.Keys == old(kids.Keys);
        assert {} + {insertThis} == {insertThis};
      } else {
        TakeUp(insertThis, {});
        pool.SetTracked();
        assert {} + {insertThis} == {insertThis};
        assert up == old(up)[insertThis := null];
      }
    }

    // Removing a node without a parent from the list of unlinked nodes.
    method TakeUp(node: XMLNode, ghost loose: set<XMLNode>)
      requires Holds(loose) && node in kids && node.parent == null && node != root
      modifies `unlinked
      ensures Holds(loose + {node})
      ensures |unlinked| == old(|unlinked|) - if node in old(unlinked) then 1 else 0
      ensures node !in old(unlinked) ==> unlinked == old(unlinked)
      ensures node !in loose ==> node in old(unlinked)
    {
      hide Ranked, Family, Cut, NoRepeats, Linked;
      FamilyKeys(kids, up);
      NodeParent(node, loose);
      MarkInUse(node);
      assert {root} + Elements(unlinked) + (loose + {node}) == {root} + old(Elements(unlinked)) + loose;
    }

    lemma {:induction false} NodeParent(n: XMLNode, loose: set<XMLNode>)
      requires Holds(loose) && n in kids
      ensures n in up && n.parent == up[n]
      ensures n.parent != null ==> n.parent in kids && NoRepeats(kids[n.parent]) && forall c | c in kids[n.parent] :: c in kids
    {
      hide Ranked, Alone, NoRepeats, XMLNode.Children;
    }

    // The source's callers must not put a node below itself.
    ghost predicate CanInsert(self: XMLNode, addThis: XMLNode)
      reads this, kids.Keys, pool, pool.free
    {
      Valid() && self in kids && addThis in kids && addThis != root && !Under(up, rank, bound, self, addThis)
    }

    // The rest of an insertion, once the pointers are set: the tree takes the node in.
    ghost method Adopt(self: XMLNode, addThis: XMLNode, r: seq<XMLNode>)
      requires root in kids && Ranked(up, rank, bound) && self in up && addThis in up && up[addThis] == null
      requires addThis != root && addThis !in unlinked && !Under(up, rank, bound, self, addThis)
      requires Alone(up, {root} + Elements(unlinked) + {addThis})
      requires NoRepeats(unlinked) && root !in unlinked
      requires Pooled() && pool.nUntracked == |unlinked|
      requires self in kids && Family(kids[self := r], up[addThis := self]) && Linked(kids[self := r], up[addThis := self])
      modifies `kids, `up, `rank, `bound
      ensures Valid()
      ensures kids == old(kids)[self := r] && up == old(up)[addThis := self]
    {
      hide Under, NoRepeats, Family, Linked, Ranked, Alone, Raised, Housed, MemPool.MemPoolT.Valid;
      RaisedRanks(up, rank, bound, self, addThis, {root} + Elements(unlinked) + {addThis});
      assert {root} + Elements(unlinked) + {addThis} - {addThis} == {root} + Elements(unlinked) + {};
      assert kids[self := r].Keys == kids.Keys;
      rank, bound := Raised(up, rank, bound, addThis), 2 * bound;
      kids, up := kids[self := r], up[addThis := self];
    }

    // What holds of a place and of the node to be put there.
    lemma {:induction false} Ready(self: XMLNode, addThis: XMLNode)
      requires Holds({addThis}) && self in kids && addThis in kids && addThis != self
      ensures addThis in up && up[addThis] == null && addThis !in kids[self] && addThis !in unlinked && self in up
      ensures self.Children(kids[self]) && NoRepeats(kids[self]) && self !in kids[self]
      ensures forall c | c in kids[self] :: c in kids
    {}

    // The start of an insertion: the node in hand, and the place as it is without it.
    method BeginInsert(self: XMLNode, addThis: XMLNode)
      requires CanInsert(self, addThis)
      modifies this, kids.Keys, pool`nUntracked
      ensures Holds({addThis}) && Pooled() && pool.nUntracked == |unlinked| && kids.Keys == old(kids.Keys)
      ensures self in kids && addThis in kids && addThis != self && !Under(up, rank, bound, self, addThis)
      ensures addThis in old(up) && (old(up)[addThis] != null ==> old(up)[addThis] in old(kids))
      ensures kids == Detached(old(kids), old(up), addThis) && up == old(up)[addThis := null]
    {
      hide Ranked, Family, Cut, Without, NoRepeats, Linked, Alone, Under, Detached, Elements, XMLNode.Children, Housed, MemPool.MemPoolT.Valid;
      FamilyKeys(kids, up);
      InsertChildPreamble(addThis);
      UnderCut(old(up), rank, bound, self, addThis);
    }

    method InsertEndChild(self: XMLNode, addThis: XMLNode)
      requires CanInsert(self, addThis)
      modifies this, kids.Keys, pool`nUntracked
      ensures Valid()
      ensures self in old(kids) && addThis in old(up) && (old(up)[addThis] != null ==> old(up)[addThis] in old(kids))
      ensures var rest := Detached(old(kids), old(up), addThis); self in rest && kids == rest[self := rest[self] + [addThis]]
      ensures up == old(up)[addThis := self]
    {
      hide Ranked, Family, Cut, Without, NoRepeats, Linked, Alone, Under, Detached, Put, Elements, XMLNode.Children, Housed, MemPool.MemPoolT.Valid;
      BeginInsert(self, addThis);
      ghost var s := kids[self];
      Ready(self, addThis);
      ghost var r := s + [addThis];
      PutElements(s, |s|, addThis);
      PutEnds(s, addThis);
      Added(kids, up, self, addThis, r);
      label ready:
      self.LinkEnd(addThis, s);
      self.ChildrenParent(r);
      Relinked@ready(Change(self, addThis, r, self));
      Adopt(self, addThis, r);
    }

    method InsertFirstChild(self: XMLNode, addThis: XMLNode)
      requires CanInsert(self, addThis)
      modifies this, kids.Keys, pool`nUntracked
      ensures Valid()
      ensures self in old(kids) && addThis in old(up) && (old(up)[addThis] != null ==> old(up)[addThis] in old(kids))
      ensures var rest := Detached(old(kids), old(up), addThis); self in rest && kids == rest[self := [addThis] + rest[self]]
      ensures up == old(up)[addThis := self]
    {
      hide Ranked, Family, Cut, Without, NoRepeats, Linked, Alone, Under, Detached, Put, Elements, XMLNode.Children, Housed, MemPool.MemPoolT.Valid;
      BeginInsert(self, addThis);
      ghost var s := kids[self];
      Ready(self, addThis);
      ghost var r := [addThis] + s;
      PutElements(s, 0, addThis);
      PutEnds(s, addThis);
      Added(kids, up, self, addThis, r);
      label ready:
      self.LinkFirst(addThis, s);
      self.ChildrenParent(r);
      Relinked@ready(Change(self, addThis, r, self));
      Adopt(self, addThis, r);
    }

    // Once addThis is in hand, something follows afterThis if and only if something other than addThis did.
    method WhatFollows(self: XMLNode, afterThis: XMLNode, addThis: XMLNode) returns (next: XMLNode?)
      requires CanInsert(self, addThis) && afterThis in kids
      requires afterThis.parent == self && afterThis != addThis && afterThis.next != null
      modifies this, kids.Keys, pool`nUntracked
      ensures Holds({addThis}) && next == afterThis.next
      ensures next == null <==> old(afterThis.next == addThis && addThis.next == null)
    {
      hide Ranked, Family, Cut, Without, NoRepeats, Linked, Alone, Under, Detached, Elements, XMLNode.Children, Housed, MemPool.MemPoolT.Valid;
      FamilyKeys(kids, up);
      NodeParent(afterThis, {});
      Place(self, {});
      Detaching(kids, up, self, addThis);
      ghost var i := ChildAt(kids, up, rank, bound, afterThis);
      ghost var s := kids[self];
      self.Neighbours(s, i);
      if i + 1 < |s| && s[i + 1] == addThis {
        self.Neighbours(s, i + 1);
      }
      ghost var j := AfterDetaching(s, i, addThis);
      BeginInsert(self, addThis);
      Place(self, {addThis});
      self.Neighbours(kids[self], j);
      next := afterThis.next;
    }

    // Null is the refusal of an afterThis that is not a child of self.  The last precondition excludes
    // the one case in which the source follows a null pointer: the next of afterThis is then addThis alone.
    method InsertAfterChild(self: XMLNode, afterThis: XMLNode, addThis: XMLNode) returns (inserted: XMLNode?, ghost i: nat)
      requires CanInsert(self, addThis) && afterThis in kids
      requires afterThis.parent == self ==> !(afterThis.next == addThis && addThis.next == null)
      modifies this, kids.Keys, pool`nUntracked
      ensures Valid()
      ensures self in old(kids) && addThis in old(up) && (old(up)[addThis] != null ==> old(up)[addThis] in old(kids))
      ensures inserted == if afterThis in old(kids)[self] then addThis else null
      ensures inserted == null || afterThis == addThis ==> kids == old(kids) && up == old(up)
      ensures inserted != null && afterThis != addThis ==>
                var rest := Detached(old(kids), old(up), addThis);
                && self in rest && i < |rest[self]| && rest[self][i] == afterThis
                && kids == rest[self := Put(rest[self], i + 1, addThis)] && up == old(up)[addThis := self]
    {
      hide Ranked, Family, Cut, Without, NoRepeats, Linked, Alone, Under, Detached, Put, Elements, XMLNode.Children, Housed, MemPool.MemPoolT.Valid;
      FamilyKeys(kids, up);
      NodeParent(afterThis, {});
      Place(self, {});
      Detaching(kids, up, self, addThis);
      i := 0;
      if afterThis.parent != self {
        return null, i;
      }
      i := ChildAt(kids, up, rank, bound, afterThis);
      if afterThis == addThis {
        return addThis, i;
      }
      ghost var s := kids[self];
      self.Neighbours(s, i);
      if i + 1 < |s| && s[i + 1] == addThis {
        self.Neighbours(s, i + 1);
      }
      ghost var j := AfterDetaching(s, i, addThis);
      if afterThis.next == null {
        InsertEndChild(self, addThis);
        ghost var rest := Detached(old(kids), old(up), addThis);
        PutEnds(rest[self], addThis);
        return addThis, j;
      }
      InsertBefore(self, afterThis, addThis, Detached(kids, up, addThis)[self], j);
      return addThis, j;
    }

    lemma {:induction false} RootNotUnder(node: XMLNode)
      requires Holds({}) && node != root
      ensures root in up && !Under(up, rank, bound, root, node)
    {
      hide Family, Ranked, Linked, NoRepeats;
    }

    method NewLast() returns (node: XMLNode)
      requires Valid()
      modifies this, kids.Keys, pool
      ensures Valid() && fresh(node) && root in old(kids)
      ensures kids == old(kids)[node := []][root := old(kids)[root] + [node]] && up == old(up)[node := root]
    {
      hide Ranked, Family, NoRepeats, Linked, Alone, Under, Elements, Housed, MemPool.MemPoolT.Valid;
      node := NewNode();
      RootNotUnder(node);
      InsertEndChild(root, node);
    }

    // There are valid documents in that case: two nodes appended in turn, and the second to go behind the first.
    static method LastButOne(itemSize: nat) returns (doc: XMLDocument, afterThis: XMLNode, addThis: XMLNode)
      requires 0 < itemSize <= MemPool.BLOCK_SIZE
      ensures doc.CanInsert(doc.root, addThis) && afterThis in doc.kids
      ensures afterThis.parent == doc.root && afterThis.next == addThis && addThis.next == null
    {
      hide Ranked, Family, NoRepeats, Linked, Alone, Under, Elements, Housed, MemPool.MemPoolT.Valid, XMLNode.Children;
      doc := new XMLDocument(itemSize);
      afterThis := doc.NewLast();
      addThis := doc.NewLast();
      doc.RootNotUnder(addThis);
      doc.Place(doc.root, {});
      assert doc.kids[doc.root] == [afterThis, addThis];
      doc.NodeParent(afterThis, {});
      doc.root.Neighbours(doc.kids[doc.root], 0);
      doc.root.Neighbours(doc.kids[doc.root], 1);
    }

    // The last part of insertAfterChild: afterThis is the i-th child, and not the last, without addThis.
    method InsertBefore(self: XMLNode, afterThis: XMLNode, addThis: XMLNode, ghost s: seq<XMLNode>, ghost i: nat)
      requires CanInsert(self, addThis) && addThis in up && (up[addThis] != null ==> up[addThis] in kids)
      requires self in Detached(kids, up, addThis) && Detached(kids, up, addThis)[self] == s
      requires i + 1 < |s| && s[i] == afterThis
      modifies this, kids.Keys, pool`nUntracked
      ensures Valid()
      ensures kids == Detached(old(kids), old(up), addThis)[self := Put(s, i + 1, addThis)]
      ensures up == old(up)[addThis := self]
    {
      hide Ranked, Family, Cut, Without, NoRepeats, Linked, Alone, Under, Detached, Put, Elements, XMLNode.Children, Housed, MemPool.MemPoolT.Valid;
      BeginInsert(self, addThis);
      Ready(self, addThis);
      ghost var r := Put(s, i + 1, addThis);
      PutElements(s, i + 1, addThis);
      Added(kids, up, self, addThis, r);
      label ready:
      self.LinkAfter(afterThis, addThis, s, i);
      self.ChildrenParent(r);
      Relinked@ready(Change(self, addThis, r, self));
      Adopt(self, addThis, r);
    }

    lemma {:induction false} LinkedNew(node: XMLNode)
      requires Family(kids, up) && Linked(kids, up) && node !in kids
      requires node.Children([]) && node.parent == null && node.prev == null && node.next == null
      requires Family(kids[node := []], up[node := null])
      ensures Linked(kids[node := []], up[node := null])
      ensures |kids[node := []]| == |kids| + 1
    {
      hide Family, XMLNode.Children;
      assert kids[node := []].Keys == kids.Keys + {node};
    }

    method NewNode() returns (node: XMLNode)
      requires Valid()
      modifies this, pool
      ensures Valid() && fresh(node) && unlinked == old(unlinked) + [node]
      ensures kids == old(kids)[node := []] && up == old(up)[node := null]
    {
      hide Ranked, Family, NoRepeats, Alone, Elements, Linked, Housed, MemPool.MemPoolT.Valid, XMLNode.Children;
      FamilyKeys(kids, up);
      var item := pool.Alloc();
      node := new XMLNode(item);
      assert node !in kids;
      NewNodeAlone(kids, up, rank, bound, root, unlinked, node);
      HousedMore(kids, root, old(pool.used), node);
      unlinked := unlinked + [node];
      LinkedNew(node);
      kids, up, rank := kids[node := []], up[node := null], rank[node := 0];
    }

    // The pool takes a node back: one that has no parent and no children left.
    method Free(node: XMLNode, ghost loose: set<XMLNode>)
      requires Holds(loose) && Pooled() && node in loose && node in kids && kids[node] == []
      modifies `kids, `up, pool, pool.used
      ensures Holds(loose - {node})
      ensures Pooled() && pool.used <= old(pool.used) && pool.nUntracked == old(pool.nUntracked)
      ensures kids == old(kids) - {node} && up == old(up) - {node}
    {
      hide Linked, NoRepeats, Ranked, Family, Alone, Housed, Elements;
      Childless(kids, up, node);
      FreedRest(up, rank, bound, {root} + Elements(unlinked), loose, node);
      FreedFamily(kids, up, node);
      FreedLinked(kids, up, node);
      HousedLess(kids, root, pool.used, node);
      pool.Free(node.item);
      kids, up := kids - {node}, up - {node};
    }

    // Deletes a node that has no parent, and everything below it.
    method DestroyNode(node: XMLNode, ghost loose: set<XMLNode>)
      requires Holds(loose) && Pooled() && node in kids && node.parent == null && node != root && node in rank
      modifies this, kids.Keys, pool, pool.used
      ensures Holds(loose - {node}) && rank == old(rank) && bound == old(bound)
      ensures Pooled() && pool.used <= old(pool.used) && pool.nUntracked == old(pool.nUntracked)
      ensures Gone(old(kids), old(up), kids, up, rank, node) && node !in kids
      ensures |unlinked| == old(|unlinked|) - if node in old(unlinked) then 1 else 0
      ensures node !in old(unlinked) ==> unlinked == old(unlinked)
      decreases bound - rank[node], 2
    {
      hide Family, Ranked, Linked, Alone, NoRepeats, Pruned, Gone, Elements, XMLNode.Children;
      TakeUp(node, loose);
      DeleteChildren(node, loose + {node});
      assert Gone(old(kids), old(up), kids - {node}, up - {node}, rank, node) by {
        PrunedThenFreed(old(kids), old(up), kids, up, rank, node);
      }
      Free(node, loose + {node});
      assert loose + {node} - {node} == loose - {node};
    }

    method DeleteChild(self: XMLNode, node: XMLNode, ghost loose: set<XMLNode>)
      requires Holds(loose) && Pooled() && self in kids && node in kids && node.parent == self && self in rank
      modifies this, kids.Keys, pool, pool.used
      ensures Holds(loose) && rank == old(rank) && bound == old(bound) && unlinked == old(unlinked)
      ensures Pooled() && pool.used <= old(pool.used) && pool.nUntracked == old(pool.nUntracked)
      ensures Pruned(old(kids), old(up), kids, up, rank, self) && self in kids && node !in kids
      ensures kids[self] == Without(old(kids)[self], node)
      decreases bound - rank[self], 0
    {
      hide Family, Ranked, Linked, Alone, NoRepeats, Pruned, Gone, Elements, Without, Cut, XMLNode.Children;
      NodeParent(node, loose);
      RankBelow(up, rank, bound, node);
      NotUnlinked(node, loose);
      ghost var i := Unlink(self, node, loose);
      WithoutIsCut(old(kids)[self], i);
      CutElements(old(kids)[self], i);
      NodeParent(node, loose + {node});
      DestroyNode(node, loose + {node});
      GoneThenPruned(old(kids), old(up), kids, up, rank, self, node, Cut(old(kids)[self], i));
      assert loose + {node} - {node} == loose;
    }

    lemma {:induction false} NotUnlinked(node: XMLNode, loose: set<XMLNode>)
      requires Holds(loose) && node in kids && node.parent != null
      ensures node !in unlinked && node != root && node !in loose
    {}

    method DeleteChildren(self: XMLNode, ghost loose: set<XMLNode>)
      requires Holds(loose) && Pooled() && self in kids && self in rank
      modifies this, kids.Keys, pool, pool.used
      ensures Holds(loose) && rank == old(rank) && bound == old(bound) && unlinked == old(unlinked)
      ensures Pooled() && pool.used <= old(pool.used) && pool.nUntracked == old(pool.nUntracked)
      ensures Pruned(old(kids), old(up), kids, up, rank, self) && self in kids && kids[self] == []
      decreases bound - rank[self], 1
    {
      hide Family, Ranked, Linked, Alone, NoRepeats, Pruned, Without, XMLNode.Children;
      FamilyKeys(kids, up);
      PrunedNothing(kids, up, rank, self);
      FirstChild(self, loose);
      while self.firstChild != null
        invariant Holds(loose) && self in kids && rank == old(rank) && bound == old(bound)
        invariant Pooled() && pool.used <= old(pool.used) && pool.nUntracked == old(pool.nUntracked)
        invariant unlinked == old(unlinked)
        invariant Pruned(old(kids), old(up), kids, up, rank, self)
        invariant kids.Keys <= old(kids.Keys)
        invariant if self.firstChild == null then kids[self] == []
                  else self.firstChild in kids && self.firstChild in kids[self] && self.firstChild.parent == self
        decreases |kids[self]|
      {
        ghost var k, u, s := kids, up, kids[self];
        ghost var first := self.firstChild;
        DeleteChild(self, self.firstChild, loose);
        WithoutShorter(s, first);
        PrunedTwice(old(kids), old(up), k, u, kids, up, rank, self);
        FirstChild(self, loose);
      }
    }

    lemma {:induction false} FirstChild(self: XMLNode, loose: set<XMLNode>)
      requires Holds(loose) && self in kids
      ensures if self.firstChild == null then kids[self] == []
              else self.firstChild in kids && self.firstChild in kids[self] && self.firstChild.parent == self
    {
      hide Family, Ranked, Linked, Alone, NoRepeats;
      Place(self, loose);
      assert kids[self] != [] ==> kids[self][0] in kids[self];
      self.ChildrenParent(kids[self]);
    }

    method DeleteNode(node: XMLNode)
      requires Valid() && node in kids && node != root
      modifies this, kids.Keys, pool, pool.used
      ensures Valid() && node !in kids && rank == old(rank) && node in old(up) && pool.used <= old(pool.used)
      ensures old(up)[node] == null ==> Gone(old(kids), old(up), kids, up, rank, node) && |unlinked| == old(|unlinked|) - 1
      ensures old(up)[node] != null ==>
                var self := old(up)[node];
                && Pruned(old(kids), old(up), kids, up, rank, self) && self in old(kids) && self in kids
                && kids[self] == Without(old(kids)[self], node) && unlinked == old(unlinked)
    {
      hide Family, Ranked, Linked, Alone, NoRepeats, Pruned, Gone, Elements, Without, XMLNode.Children;
      NodeParent(node, {});
      NodeRank(up, rank, bound);
      FamilyKeys(kids, up);
      if node.parent != null {
        DeleteChild(node.parent, node, {});
      } else {
        pool.SetTracked();
        InUnlinked(node);
        DestroyNode(node, {});
        assert {} - {node} == {};
      }
    }

    lemma {:induction false} InUnlinked(node: XMLNode)
      requires Holds({}) && node in kids && node.parent == null && node != root
      ensures node in unlinked
    {}

    // Everything goes, in the tree or out of it, and the pool has all its items back.
    method Clear()
      requires Valid()
      modifies this, kids.Keys, pool, pool.used
      ensures Valid() && kids == RootKids(root) && unlinked == []
      ensures pool.used == {} && pool.currentAllocs == 0 && pool.nUntracked == 0
    {
      hide Family, Ranked, Linked, Alone, NoRepeats, Pruned, Gone, Elements, RootKids, XMLNode.Children;
      NodeRank(up, rank, bound);
      FamilyKeys(kids, up);
      DeleteChildren(root, {});
      PrunedKeys(old(kids), old(up), kids, up, rank, root);
      while |unlinked| > 0
        invariant Valid() && root in kids && kids[root] == [] && kids.Keys <= old(kids.Keys)
        invariant pool.used <= old(pool.used)
        decreases |unlinked|
      {
        ghost var k, u := kids, up;
        Unparented(unlinked[0]);
        DeleteNode(unlinked[0]);
        GoneKeys(k, u, kids, up, rank, root);
      }
      OnlyRootLeft(kids, up, rank, bound, root);
      NoneHoused(root, pool.used);
    }

    lemma {:induction false} Unparented(node: XMLNode)
      requires Holds({}) && node in unlinked
      ensures node in kids && node in up && up[node] == null && node != root
    {}
  }
}
