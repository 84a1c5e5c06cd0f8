/** The pool from which tinyxml2's nodes come: blocks of items, those not in use linked in a list. */
module MemPool {
  import opened Common

  class Item {
    var next: Item?

    constructor ()
      ensures next == null
    {
      next := null;
    }
  }

  // The items reached from `item` by following next.
  ghost predicate List(item: Item?, items: seq<Item>)
    reads items
    decreases |items|
  {
    if items == [] then item == null
    else item == items[0] && List(items[0].next, items[1..])
  }

  lemma {:induction false} RestApart(items: seq<Item>)
    requires NoRepeats(items) && items != []
    ensures NoRepeats(items[1..]) && forall item | item in items[1..] :: item in items && item != items[0]
  {}

  const BLOCK_SIZE := 4 * 1024

  class MemPoolT {
    const itemsPerBlock: nat
    var root: Item?
    var currentAllocs: int
    var maxAllocs: int
    var nAllocs: int
    var nUntracked: int
    ghost var free: seq<Item>
    ghost var used: set<Item>

    // An item is free or in use, not both, and is free only once.
    ghost predicate Valid()
      reads this, free
    {
      && itemsPerBlock > 0
      && List(root, free) && NoRepeats(free)
      && (forall item | item in free :: item !in used)
      && currentAllocs == |used| <= maxAllocs <= nAllocs
    }

    constructor (itemSize: nat)
      requires 0 < itemSize <= BLOCK_SIZE
      ensures Valid() && used == {} && free == [] && nUntracked == 0
    {
      itemsPerBlock := BLOCK_SIZE / itemSize;
      root, currentAllocs, maxAllocs, nAllocs, nUntracked := null, 0, 0, 0, 0;
      free, used := [], {};
    }

    // A new block, its items linked in order.
    method NewBlock()
      requires Valid() && root == null
      modifies this`root, this`free
      ensures Valid() && root != null && |free| == itemsPerBlock && forall item | item in free :: fresh(item)
    {
      root := null;
      free := [];
      for k := 0 to itemsPerBlock
        invariant Valid() && |free| == k && (k > 0 ==> root != null)
        invariant forall item | item in free :: fresh(item)
      {
        var item := new Item();
        item.next := root;
        assert item !in used;
        ghost var rest := free;
        assert [item] + rest == [item] + free && ([item] + rest)[1..] == rest;
        root := item;
        free := [item] + rest;
      }
    }

    // An item that is not in use.
    method Alloc() returns (result: Item)
      requires Valid()
      modifies this
      ensures Valid() && result !in old(used) && used == old(used) + {result}
      ensures result in old(free) || fresh(result)
      ensures nUntracked == old(nUntracked) + 1
    {
      if root == null {
        NewBlock();
      }
      hide NoRepeats;
      result := root;
      assert free != [] && free[0] == result && result in free;
      RestApart(free);
      root := root.next;
      free, used := free[1..], used + {result};
      currentAllocs := currentAllocs + 1;
      if currentAllocs > maxAllocs {
        maxAllocs := currentAllocs;
      }
      nAllocs := nAllocs + 1;
      nUntracked := nUntracked + 1;
    }

    method SetTracked()
      requires Valid()
      modifies `nUntracked
      ensures Valid() && nUntracked == old(nUntracked) - 1
    {
      nUntracked := nUntracked - 1;
    }

    method Free(item: Item)
      requires Valid() && item in used
      modifies this, item
      ensures Valid() && used == old(used) - {item} && free == [item] + old(free)
      ensures nUntracked == old(nUntracked)
    {
      currentAllocs := currentAllocs - 1;
      item.next := root;
      root := item;
      used := used - {item};
      free := [item] + free;
      assert free[1..] == old(free);
    }
  }
}
