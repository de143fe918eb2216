/** A singly linked list with one iterator, which may outlive the node it has just passed. */
module LinkedLists {
  import opened Common

  class Node<T> {
    const data: T
    var next: Node?<T>

    constructor (data: T)
      ensures this.data == data && next == null
    {
      this.data := data;
      next := null;
    }
  }

  ghost function NodeAt<T>(nodes: seq<Node<T>>, i: nat): Node?<T>
  {
    if i < |nodes| then nodes[i] else null
  }

  ghost function Items<T>(nodes: seq<Node<T>>): (s: seq<T>)
    ensures |s| == |nodes|
    ensures forall i :: 0 <= i < |s| ==> s[i] == nodes[i].data
  {
    if nodes == [] then [] else [nodes[0].data] + Items(nodes[1..])
  }

  /** Position of the first item with the given key, or the length of the list. */
  function FirstWith<T>(s: seq<T>, keyOf: T -> string, key: string): (i: nat)
    ensures i <= |s|
    ensures i < |s| ==> keyOf(s[i]) == key
    ensures forall j :: 0 <= j < i ==> keyOf(s[j]) != key
  {
    if s == [] || keyOf(s[0]) == key then 0 else 1 + FirstWith(s[1..], keyOf, key)
  }

  lemma FirstIs<T>(s: seq<T>, keyOf: T -> string, key: string, i: nat)
    requires i <= |s| && (i < |s| ==> keyOf(s[i]) == key)
    requires forall j :: 0 <= j < i ==> keyOf(s[j]) != key
    ensures FirstWith(s, keyOf, key) == i
  {
    var f := FirstWith(s, keyOf, key);
    assert f < |s| ==> keyOf(s[f]) == key;
  }

  function Without<T>(s: seq<T>, i: nat): (r: seq<T>)
    requires i < |s|
    ensures |r| == |s| - 1
    ensures forall k :: 0 <= k < |r| ==> r[k] == s[if k < i then k else k + 1]
  {
    s[..i] + s[i + 1..]
  }

  lemma ItemsAppend<T>(nodes: seq<Node<T>>, node: Node<T>)
    ensures Items(nodes + [node]) == Items(nodes) + [node.data]
  {
  }

  lemma ItemsWithout<T>(nodes: seq<Node<T>>, i: nat)
    requires i < |nodes|
    ensures Items(Without(nodes, i)) == Without(Items(nodes), i)
  {
  }

  /** A list without its first item equal to the given one. */
  function Minus<T>(s: seq<T>, keyOf: T -> string, key: string): seq<T>
  {
    var i := FirstWith(s, keyOf, key);
    if i < |s| then Without(s, i) else s
  }

  /** The chain of next pointers runs through the nodes in order. */
  ghost predicate Linked<T>(nodes: seq<Node<T>>)
    reads nodes
  {
    forall i :: 0 <= i < |nodes| ==> nodes[i].next == NodeAt(nodes, i + 1)
  }

  lemma NoDupWithout<T>(s: seq<T>, i: nat)
    requires i < |s| && NoDup(s)
    ensures NoDup(Without(s, i))
  {
  }

  /** Two items are equal for the list's comparator when their keys are. */
  class LinkedList<T> {
    var head: Node?<T>
    var cursor: Node?<T>
    var count: int
    const keyOf: T -> string

    ghost var nodes: seq<Node<T>>
    ghost var pos: nat

    ghost predicate Valid()
      reads this, nodes
    {
      && count == |nodes|
      && head == NodeAt(nodes, 0)
      && Linked(nodes)
      && NoDup(nodes)
    }

    /** The iterator points at a node of the list, or is at the end. */
    ghost predicate Iterating()
      reads this
    {
      pos <= |nodes| && cursor == NodeAt(nodes, pos)
    }

    ghost function Contents(): (s: seq<T>)
      reads this
      ensures |s| == |nodes|
    {
      Items(nodes)
    }

    constructor (keyOf: T -> string)
      ensures Valid() && Contents() == [] && nodes == []
      ensures this.keyOf == keyOf
    {
      this.keyOf := keyOf;
      head, cursor, count := null, null, 0;
      nodes, pos := [], 0;
    }

    /** create_node and append_node. */
    method Append(data: T)
      requires Valid()
      modifies this, nodes
      ensures Valid()
      ensures Contents() == old(Contents()) + [data]
      ensures |nodes| == |old(nodes)| + 1 && nodes[..|old(nodes)|] == old(nodes) && fresh(nodes[|old(nodes)|])
    {
      hide Items, NoDup;
      var node := new Node(data);
      ItemsAppend(nodes, node);
      NoDupAppend(nodes, node);
      if head == null {
        head := node;
      } else {
        var last := Last();
        last.next := node;
      }
      count := count + 1;
      nodes := nodes + [node];
    }

    method Last() returns (previous: Node<T>)
      requires Valid() && nodes != []
      ensures previous == nodes[|nodes| - 1]
    {
      previous := head;
      var current := head.next;
      ghost var i := 1;
      while current != null
        invariant 1 <= i <= |nodes| && current == NodeAt(nodes, i) && previous == nodes[i - 1]
        decreases |nodes| - i
      {
        previous := current;
        current := current.next;
        i := i + 1;
      }
    }

    /** Walks to the first node whose item equals the given one. */
    method Locate(key: string) returns (current: Node?<T>, previous: Node?<T>, ghost i: nat)
      requires Valid()
      ensures i == FirstWith(Contents(), keyOf, key)
      ensures current == NodeAt(nodes, i)
      ensures previous == if i == 0 then null else nodes[i - 1]
    {
      current, previous, i := head, null, 0;
      while current != null && keyOf(current.data) != key
        invariant i <= |nodes| && current == NodeAt(nodes, i)
        invariant previous == if i == 0 then null else nodes[i - 1]
        invariant forall j :: 0 <= j < i ==> keyOf(nodes[j].data) != key
        decreases |nodes| - i
      {
        previous := current;
        current := current.next;
        i := i + 1;
      }
      FirstIs(Contents(), keyOf, key, i);
    }

    method Find(key: string) returns (node: Node?<T>)
      requires Valid()
      ensures node == NodeAt(nodes, FirstWith(Contents(), keyOf, key))
    {
      node := head;
      if count != 0 {
        var previous;
        ghost var i;
        node, previous, i := Locate(key);
      }
    }

    method Unlink(current: Node<T>, previous: Node?<T>, ghost i: nat)
      requires Valid() && i < |nodes| && current == nodes[i]
      requires previous == if i == 0 then null else nodes[i - 1]
      modifies this, nodes
      ensures Valid() && nodes == Without(old(nodes), i)
      ensures pos == (if i < old(pos) then old(pos) - 1 else old(pos)) && cursor == old(cursor)
    {
      hide Without, Linked;
      ghost var rest := Without(nodes, i);
      NoDupWithout(nodes, i);
      NextNode(i);
      if previous == null {
        head := current.next;
      } else {
        previous.next := current.next;
      }
      count, nodes, pos := count - 1, rest, if i < pos then pos - 1 else pos;
      LinkedWithout(i);
    }

    lemma NextNode(i: nat)
      requires Linked(nodes) && i < |nodes|
      ensures nodes[i].next == NodeAt(nodes, i + 1)
    {
    }

    /** The chain without a node, whose predecessor points past it. */
    twostate lemma LinkedWithout(new i: nat)
      requires i < |old(nodes)| && nodes == Without(old(nodes), i) && old(NoDup(nodes) && Linked(nodes))
      requires forall k :: 0 <= k < |old(nodes)| ==>
                 old(nodes)[k].next == if k == i - 1 then NodeAt(old(nodes), i + 1) else old(nodes[k].next)
      ensures Linked(nodes)
    {
    }

    /** Unlinks the first item equal to the given one. An iterator that points elsewhere
        stays on its node. */
    method Remove(key: string) returns (removed: bool)
      requires Valid()
      modifies this, nodes
      ensures Valid()
      ensures removed == (FirstWith(old(Contents()), keyOf, key) < |old(nodes)|)
      ensures Contents() == Minus(old(Contents()), keyOf, key)
      ensures forall n <- nodes :: n in old(nodes)
      ensures var i := FirstWith(old(Contents()), keyOf, key);
              old(Iterating()) && i != old(pos) ==>
                Iterating() && pos == if i < old(pos) then old(pos) - 1 else old(pos)
    {
      hide Linked, NoDup, Items, FirstWith;
      var current, previous, i := Locate(key);
      removed := current != null;
      if current != null {
        ItemsWithout(nodes, i);
        Unlink(current, previous, i);
      }
    }

    method ResetIterator()
      modifies this`cursor, this`pos
      requires Valid()
      ensures Valid() && Iterating() && pos == 0
    {
      cursor := head;
      pos := 0;
    }

    method IteratorNext() returns (node: Node?<T>)
      requires Valid() && Iterating()
      modifies this`cursor, this`pos
      ensures Valid() && Iterating()
      ensures node == NodeAt(nodes, old(pos))
      ensures pos == if node == null then old(pos) else old(pos) + 1
    {
      node := null;
      if cursor != null {
        node := cursor;
        cursor := cursor.next;
        pos := pos + 1;
      }
    }

    /** iterate_list: `visited` are the items its callback is called with, in order. */
    method Iterate() returns (visited: seq<T>)
      requires Valid()
      ensures visited == Contents()
    {
      visited := [];
      var current := head;
      ghost var i := 0;
      while current != null
        invariant i <= |nodes| && current == NodeAt(nodes, i)
        invariant visited == Contents()[..i]
        decreases |nodes| - i
      {
        visited := visited + [current.data];
        current := current.next;
        i := i + 1;
      }
    }
  }
}
