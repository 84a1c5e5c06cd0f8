/** The ring buffer behind the thread pool's queue. */
module BoundedQueue {
  class BoundedQueue<T(0)> {
    var head: nat
    var tail: nat
    var size: nat
    const capacity: nat
    const buffer: array<T>

    ghost predicate Valid()
      reads this
    {
      && 0 < capacity == buffer.Length
      && head < capacity && tail < capacity && size <= capacity
      && tail == Slot(size)
    }

    // The place of the k-th element from the head.
    function Slot(k: nat): int
      reads this
    {
      if head + k < capacity then head + k else head + k - capacity
    }

    // What is queued, oldest first.
    ghost function Contents(): (c: seq<T>)
      requires Valid()
      reads this, buffer
      ensures |c| == size
    {
      seq(size, k requires 0 <= k < size && Valid() reads this, buffer => buffer[Slot(k)])
    }

    constructor (capacity: nat)
      requires capacity > 0
      ensures Valid() && this.capacity == capacity && fresh(buffer) && Contents() == []
    {
      this.capacity := capacity;
      this.buffer := new T[capacity];
      head, tail, size := 0, 0, 0;
    }

    predicate Empty()
      reads this
    {
      size == 0
    }

    predicate Full()
      reads this
    {
      capacity == size
    }

    method Push(t: T)
      requires Valid() && !Full()
      modifies this, buffer
      ensures Valid() && Contents() == old(Contents()) + [t]
    {
      buffer[tail] := t;
      Next(tail, capacity);
      tail := (tail + 1) % capacity;
      size := size + 1;
    }

    method Pop() returns (t: T)
      requires Valid() && !Empty()
      modifies this
      ensures Valid() && [t] + Contents() == old(Contents())
    {
      var oldPos := head;
      Next(head, capacity);
      head := (head + 1) % capacity;
      size := size - 1;
      return buffer[oldPos];
    }

    static lemma {:induction false} Next(x: nat, capacity: nat)
      requires x < capacity
      ensures (x + 1) % capacity == if x + 1 < capacity then x + 1 else 0
    {
      if x + 1 < capacity {
        Small(x + 1, capacity);
      }
    }

    static lemma {:induction false} Small(x: nat, m: nat)
      requires x < m
      ensures x % m == x
    {
    }
  }
}
