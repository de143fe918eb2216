/** A queue in a fixed ring of slots that drops its oldest item when it overflows. */
module Queues {
  import opened Remainders

  /** What is queued after one more item, with room for `capacity`. */
  function Push<T>(q: seq<T>, x: T, capacity: nat): (r: seq<T>)
    requires capacity > 0
    ensures |r| > 0 && r[|r| - 1] == x
    ensures |r| == if |q| == capacity then capacity else |q| + 1
  {
    (if |q| == capacity then q[1..] else q) + [x]
  }

  function PushAll<T>(q: seq<T>, xs: seq<T>, capacity: nat): (r: seq<T>)
    requires |q| <= capacity && capacity > 0
    ensures |r| <= capacity
    decreases |xs|
  {
    if xs == [] then q else PushAll(Push(q, xs[0], capacity), xs[1..], capacity)
  }

  lemma PushedFront<T>(q: seq<T>, xs: seq<T>, capacity: nat)
    requires |q| <= capacity && capacity > 0 && xs != []
    ensures Push(q, xs[0], capacity) + xs[1..] == if |q| == capacity then (q + xs)[1..] else q + xs
  {
  }

  /** Of any number of items the last `capacity` remain. */
  lemma {:induction false} PushAllKeepsLast<T>(q: seq<T>, xs: seq<T>, capacity: nat)
    requires |q| <= capacity && capacity > 0
    ensures var all := q + xs;
            PushAll(q, xs, capacity) == if |all| <= capacity then all else all[|all| - capacity..]
    decreases |xs|
  {
    hide Push;
    if xs == [] {
      assert q + xs == q;
    } else {
      var p, all := Push(q, xs[0], capacity), q + xs;
      PushAllKeepsLast(p, xs[1..], capacity);
      PushedFront(q, xs, capacity);
      if |q| == capacity {
        assert all[1..][|all| - 1 - capacity..] == all[|all| - capacity..];
      }
    }
  }

  lemma PushAllNext<T>(q: seq<T>, xs: seq<T>, i: nat, capacity: nat)
    requires |q| <= capacity && capacity > 0 && i < |xs|
    ensures PushAll(q, xs[i..], capacity) == PushAll(Push(q, xs[i], capacity), xs[i + 1..], capacity)
  {
    hide Push;
    assert xs[i..][1..] == xs[i + 1..];
  }

  lemma PushAllNone<T>(q: seq<T>, xs: seq<T>, capacity: nat)
    requires |q| <= capacity && capacity > 0
    ensures PushAll(q, xs[0..], capacity) == PushAll(q, xs, capacity)
    ensures PushAll(q, xs[|xs|..], capacity) == q
  {
    assert xs[0..] == xs;
  }

  function InRing<T>(items: seq<T>, front: nat, count: nat): (s: seq<T>)
    requires front < |items| && count <= |items|
    ensures |s| == count
    ensures forall i :: 0 <= i < count ==> s[i] == items[Mod(front + i, |items|)]
  {
    seq(count, i requires 0 <= i < count => items[Mod(front + i, |items|)])
  }

  /** Writing behind the last item of the ring, which is the first when the ring is full. */
  lemma RingPush<T>(items: seq<T>, front: nat, count: nat, x: T)
    requires front < |items| && count <= |items|
    ensures var n := |items|; var after := items[Mod(front + count, n) := x]; var q := InRing(items, front, count);
            && (count < n ==> InRing(after, front, count + 1) == Push(q, x, n))
            && (count == n ==> InRing(after, Mod(front + 1, n), count) == Push(q, x, n))
  {
    var n := |items|;
    var after, q := items[Mod(front + count, n) := x], InRing(items, front, count);
    if count < n {
      var r := InRing(after, front, count + 1);
      assert forall i :: 0 <= i < count ==> r[i] == q[i];
    } else {
      var r := InRing(after, Mod(front + 1, n), count);
      assert forall i :: 0 <= i < count - 1 ==> r[i] == q[i + 1];
    }
  }

  class Queue<T> {
    const items: array<T>
    var front: nat
    var rear: nat
    var currentIdx: nat
    var count: nat

    ghost predicate Valid()
      reads this
    {
      && front < items.Length && count <= items.Length
      && rear == Mod(front + count, items.Length)
      && currentIdx < items.Length
    }

    ghost function Contents(): seq<T>
      requires Valid()
      reads this, items
    {
      InRing(items[..], front, count)
    }

    constructor (items: array<T>)
      requires items.Length > 0
      ensures Valid() && this.items == items && Contents() == []
    {
      this.items := items;
      front, rear, currentIdx, count := 0, 0, 0, 0;
    }

    method Enqueue(x: T)
      requires Valid()
      modifies this, items
      ensures Valid() && Contents() == Push(old(Contents()), x, items.Length)
      ensures items[..] == old(items[..])[old(rear) := x] && currentIdx == rear
      ensures front == old(front) <==> old(count) < items.Length || items.Length == 1
    {
      hide InRing, Push;
      RingPush(items[..], front, count, x);
      ghost var slots := items[..];
      items[rear] := x;
      assert items[..] == slots[rear := x];
      if count == items.Length {
        front := Mod(front + 1, items.Length);
      } else {
        count := count + 1;
      }
      rear := Mod(rear + 1, items.Length);
      currentIdx := rear;
    }

    /** Returns the slot of the oldest item, which stays where it is, or -1. */
    method Dequeue() returns (slot: int)
      requires Valid()
      modifies this
      ensures Valid() && items[..] == old(items[..])
      ensures slot == -1 <==> old(Contents()) == []
      ensures slot == -1 ==> Contents() == []
      ensures slot != -1 ==>
                && 0 <= slot < items.Length && items[slot] == old(Contents())[0]
                && Contents() == old(Contents())[1..] && Vacated(slot)
    {
      slot := -1;
      if count != 0 {
        slot := front;
        front := Mod(front + 1, items.Length);
        count := count - 1;
      }
    }

    /** The slot just in front of the queue. */
    ghost predicate Vacated(slot: int)
      reads this
    {
      slot == if front == 0 then items.Length - 1 else front - 1
    }

    /** A run of enqueues. A pointer into the slot dequeued last reads the same item as long as
        fewer items come in than there are free slots; the next one overwrites it. */
    method EnqueueAll(xs: seq<T>, ghost slot: nat)
      requires Valid() && Vacated(slot)
      modifies this, items
      ensures Valid() && Contents() == PushAll(old(Contents()), xs, items.Length)
      ensures |xs| <= items.Length - 1 - old(count) ==> items[slot] == old(items[slot])
      ensures |xs| == items.Length - old(count) > 0 ==> items[slot] == xs[|xs| - 1]
    {
      hide Push, PushAll, InRing, Mod;
      ghost var was, n := Contents(), count;
      PushAllNone(was, xs, items.Length);
      for i := 0 to |xs|
        invariant Valid()
        invariant PushAll(Contents(), xs[i..], items.Length) == PushAll(was, xs, items.Length)
        invariant i <= items.Length - n ==> count == n + i && front == old(front)
        invariant i <= items.Length - 1 - n ==> items[slot] == old(items[slot])
        invariant 0 < i == items.Length - n ==> items[slot] == xs[i - 1]
      {
        PushAllNext(Contents(), xs, i, items.Length);
        Enqueue(xs[i]);
      }
      PushAllNone(Contents(), xs, items.Length);
    }
  }
}
