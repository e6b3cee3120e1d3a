/** Sequences that keep only their newest elements: what an overwriting ring holds. */
module BoundedSeq {

  /** Appends x, dropping the oldest element when s already holds capacity elements. */
  function PushBounded<T>(s: seq<T>, x: T, capacity: nat): seq<T> {
    if |s| < capacity || |s| == 0 then s + [x] else s[1..] + [x]
  }

  /** The newest min(n, |s|) elements of s, oldest first. */
  function LastN<T>(s: seq<T>, n: nat): seq<T> {
    if |s| <= n then s else s[|s| - n..]
  }

  /** A ring that held the newest elements of a history holds them again after one more push. */
  lemma PushKeepsLast<T>(history: seq<T>, x: T, capacity: nat)
    requires 0 < capacity
    ensures PushBounded(LastN(history, capacity), x, capacity) == LastN(history + [x], capacity)
  {
  }
}

/** include/circular_buffer.h: a fixed array used as a ring that overwrites its oldest element. */
module CircularBuffers {
  import opened BoundedSeq

  /** Where the ring stores the i-th element from index start: (start + i) % capacity. */
  function Slot(start: nat, i: nat, capacity: nat): (k: nat)
    requires start < capacity && i <= capacity
    ensures k < capacity
    ensures k == if start + i < capacity then start + i else start + i - capacity
  {
    WrapsOnce(start + i, capacity);
    (start + i) % capacity
  }

  lemma WrapsOnce(n: nat, capacity: nat)
    requires n < 2 * capacity
    ensures n % capacity == if n < capacity then n else n - capacity
  {
  }

  lemma SlotOfSlot(start: nat, a: nat, b: nat, capacity: nat)
    requires start < capacity && a + b <= capacity
    ensures Slot(Slot(start, a, capacity), b, capacity) == Slot(start, a + b, capacity)
  {
  }

  class CircularBuffer<T> {
    const buffer: array<T>
    var head: nat
    var tail: nat
    var count: nat
    ghost var Contents: seq<T>   // what the ring holds, oldest first

    ghost predicate Valid()
      reads this, buffer
    {
      && 0 < buffer.Length
      && head < buffer.Length
      && count <= buffer.Length
      && tail == Slot(head, count, buffer.Length)
      && |Contents| == count
      && forall i :: 0 <= i < count ==> Contents[i] == buffer[Slot(head, i, buffer.Length)]
    }

    constructor (capacity: nat, initial: T)
      requires 0 < capacity
      ensures Valid() && fresh(buffer)
      ensures buffer.Length == capacity && Contents == []
    {
      buffer := new T[capacity](_ => initial);
      head, tail, count := 0, 0, 0;
      Contents := [];
    }

    method PushBack(item: T)
      requires Valid()
      modifies this, buffer
      ensures Valid()
      ensures Contents == PushBounded(old(Contents), item, buffer.Length)
    {
      if count == buffer.Length {
        buffer[tail] := item;
        tail := (tail + 1) % buffer.Length;
        head := (head + 1) % buffer.Length;
        assert head == Slot(old(head), 1, buffer.Length);
        assert tail == Slot(old(tail), 1, buffer.Length);
      } else {
        buffer[tail] := item;
        tail := (tail + 1) % buffer.Length;
        assert tail == Slot(old(tail), 1, buffer.Length);
        count := count + 1;
      }
      Contents := PushBounded(Contents, item, buffer.Length);
    }

    method PopFront()
      requires Valid()
      modifies this
      ensures Valid()
      ensures Contents == if old(Contents) == [] then [] else old(Contents)[1..]
    {
      if count > 0 {
        head := (head + 1) % buffer.Length;
        assert head == Slot(old(head), 1, buffer.Length);
        count := count - 1;
        Contents := Contents[1..];
      }
    }

    /** operator[]: in range it reads the i-th oldest element. */
    method At(i: nat) returns (x: T)
      requires Valid() && i < count
      ensures x == Contents[i]
    {
      assert Slot(head, i, buffer.Length) == (head + i) % buffer.Length;
      x := buffer[(head + i) % buffer.Length];
    }

    method Front() returns (x: T)
      requires Valid() && 0 < count
      ensures x == Contents[0]
    {
      assert Slot(head, 0, buffer.Length) == head;
      x := buffer[head];
    }

    method Back() returns (x: T)
      requires Valid() && 0 < count
      ensures x == Contents[count - 1]
    {
      var i := (tail + buffer.Length - 1) % buffer.Length;
      assert i == Slot(tail, buffer.Length - 1, buffer.Length) == Slot(head, count - 1, buffer.Length);
      x := buffer[i];
    }

    method Clear()
      requires Valid()
      modifies this
      ensures Valid() && Contents == []
    {
      head, tail, count := 0, 0, 0;
      Contents := [];
    }
  }
}
