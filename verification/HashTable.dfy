/** A hash table with separate chaining, and the finite map it stands for. */
module HashTables {

  class HashItem<K, V> {
    const key: K
    const value: V
    var next: HashItem?<K, V>

    constructor (key: K, value: V)
      ensures this.key == key && this.value == value && next == null
    {
      this.key, this.value, next := key, value, null;
    }
  }

  ghost function ItemAt<K, V>(chain: seq<HashItem<K, V>>, i: nat): HashItem?<K, V>
  {
    if i < |chain| then chain[i] else null
  }

  /** The items of a bucket, from its head along the next pointers. */
  ghost predicate Chained<K, V>(head: HashItem?<K, V>, chain: seq<HashItem<K, V>>)
    reads chain
  {
    head == ItemAt(chain, 0) && forall i :: 0 <= i < |chain| ==> chain[i].next == ItemAt(chain, i + 1)
  }

  function Bucket<K>(hash: K -> nat, key: K, capacity: nat): (b: nat)
    requires capacity > 0
    ensures b < capacity
  {
    hash(key) % capacity
  }

  /** Items sit in the bucket of their key, no key twice. */
  ghost predicate Placed<K, V>(chains: seq<seq<HashItem<K, V>>>, hash: K -> nat)
  {
    && (forall b, i :: 0 <= b < |chains| && 0 <= i < |chains[b]| ==> Bucket(hash, chains[b][i].key, |chains|) == b)
    && (forall b, i, j :: 0 <= b < |chains| && 0 <= i < j < |chains[b]| ==> chains[b][i].key != chains[b][j].key)
  }

  ghost predicate HasKey<K, V>(chain: seq<HashItem<K, V>>, key: K)
  {
    exists i :: 0 <= i < |chain| && chain[i].key == key
  }

  /** The map has exactly the items of all chains. */
  ghost predicate Holds<K, V>(chains: seq<seq<HashItem<K, V>>>, m: map<K, V>, hash: K -> nat)
    requires |chains| > 0
  {
    && (forall b, i :: 0 <= b < |chains| && 0 <= i < |chains[b]| ==>
          chains[b][i].key in m && m[chains[b][i].key] == chains[b][i].value)
    && (forall k <- m :: HasKey(chains[Bucket(hash, k, |chains|)], k))
  }

  /** The number of buckets in use. */
  ghost function Used<T>(chains: seq<seq<T>>): nat
  {
    if chains == [] then 0 else (if chains[0] == [] then 0 else 1) + Used(chains[1..])
  }

  lemma {:induction false} UsedUpdate<T>(chains: seq<seq<T>>, b: nat, chain: seq<T>)
    requires b < |chains|
    ensures Used(chains[b := chain]) ==
            Used(chains) - (if chains[b] == [] then 0 else 1) + (if chain == [] then 0 else 1)
  {
    if b > 0 {
      UsedUpdate(chains[1..], b - 1, chain);
      assert chains[b := chain][1..] == chains[1..][b - 1 := chain];
    } else {
      assert chains[b := chain][1..] == chains[1..];
    }
  }

  lemma {:induction false} UsedZero<T>(chains: seq<seq<T>>)
    ensures Used(chains) == 0 <==> forall b :: 0 <= b < |chains| ==> chains[b] == []
  {
    if chains != [] {
      UsedZero(chains[1..]);
      if forall b :: 0 <= b < |chains| ==> chains[b] == [] {
        assert forall b :: 0 <= b < |chains[1..]| ==> chains[1..][b] == chains[b + 1];
      } else {
        var b :| 0 <= b < |chains| && chains[b] != [];
        assert b > 0 ==> chains[1..][b - 1] != [];
      }
    }
  }

  lemma Apart<K, V>(chains: seq<seq<HashItem<K, V>>>, hash: K -> nat, b: nat, c: nat)
    requires Placed(chains, hash) && b < |chains| && c < |chains| && b != c
    ensures forall n <- chains[b] :: n !in chains[c]
  {
    forall n | n in chains[b]
      ensures n !in chains[c]
    {
      var i :| 0 <= i < |chains[b]| && chains[b][i] == n;
      assert Bucket(hash, n.key, |chains|) == b;
      assert forall j :: 0 <= j < |chains[c]| ==> Bucket(hash, chains[c][j].key, |chains|) == c;
    }
  }

  lemma Inserted<K, V>(chains: seq<seq<HashItem<K, V>>>, m: map<K, V>, hash: K -> nat, item: HashItem<K, V>)
    requires |chains| > 0 && Placed(chains, hash) && Holds(chains, m, hash) && item.key !in m
    ensures var b := Bucket(hash, item.key, |chains|); var after := chains[b := chains[b] + [item]];
            Placed(after, hash) && Holds(after, m[item.key := item.value], hash)
  {
    var b := Bucket(hash, item.key, |chains|);
    var after: seq<seq<HashItem<K, V>>> := chains[b := chains[b] + [item]];
    var m' := m[item.key := item.value];
    forall k | k in m'
      ensures HasKey(after[Bucket(hash, k, |after|)], k)
    {
      var c := Bucket(hash, k, |chains|);
      if k == item.key {
        assert after[b][|chains[b]|] == item;
      } else {
        var i :| 0 <= i < |chains[c]| && chains[c][i].key == k;
        assert after[c][i] == chains[c][i];
      }
    }
  }

  lemma Removed<K, V>(chains: seq<seq<HashItem<K, V>>>, m: map<K, V>, hash: K -> nat, b: nat, p: nat)
    requires |chains| > 0 && Placed(chains, hash) && Holds(chains, m, hash) && b < |chains| && p < |chains[b]|
    ensures var after := chains[b := chains[b][..p] + chains[b][p + 1..]];
            Placed(after, hash) && Holds(after, m - {chains[b][p].key}, hash)
  {
    var key := chains[b][p].key;
    var chain: seq<HashItem<K, V>> := chains[b][..p] + chains[b][p + 1..];
    var after: seq<seq<HashItem<K, V>>> := chains[b := chain];
    var m' := m - {key};
    assert forall i :: 0 <= i < |chain| ==> chain[i] == chains[b][if i < p then i else i + 1];
    assert Placed(after, hash);
    forall c, i | 0 <= c < |after| && 0 <= i < |after[c]|
      ensures after[c][i].key in m' && m'[after[c][i].key] == after[c][i].value
    {
      var j := if c == b && i >= p then i + 1 else i;
      assert after[c][i] == chains[c][j];
      assert Bucket(hash, chains[c][j].key, |chains|) == c;
      assert Bucket(hash, key, |chains|) == b;
    }
    forall k | k in m'
      ensures HasKey(after[Bucket(hash, k, |after|)], k)
    {
      var c := Bucket(hash, k, |chains|);
      var i :| 0 <= i < |chains[c]| && chains[c][i].key == k;
      assert after[c][if c == b && i > p then i - 1 else i].key == k;
    }
  }

  twostate lemma ChainWithout<K, V>(chain: seq<HashItem<K, V>>, new i: nat)
    requires 0 < i < |chain| && old(Chained(chain[0], chain))
    requires chain[i - 1].next == old(chain[i].next)
    requires forall j :: 0 <= j < |chain| && j != i - 1 ==> chain[j].next == old(chain[j].next)
    ensures Chained(chain[0], chain[..i] + chain[i + 1..])
  {
    var rest := chain[..i] + chain[i + 1..];
    assert forall j :: 0 <= j < |rest| ==> rest[j] == chain[if j < i then j else j + 1];
  }

  twostate lemma ChainAppended<K, V>(chain: seq<HashItem<K, V>>, new item: HashItem<K, V>)
    requires |chain| > 0 && old(Chained(chain[0], chain)) && item.next == null
    requires forall j :: 0 <= j < |chain| ==> chain[j].next == if j == |chain| - 1 then item else old(chain[j].next)
    ensures Chained(chain[0], chain + [item])
  {
  }

  lemma ChainTail<K, V>(head: HashItem?<K, V>, chain: seq<HashItem<K, V>>)
    requires Chained(head, chain) && chain != []
    ensures head == chain[0] && Chained(chain[0].next, chain[1..])
    ensures chain[0].next == null <==> |chain| == 1
  {
  }

  lemma LoadFactorFull(items: int, capacity: int)
    requires capacity > 0
    ensures items as real / capacity as real >= 1.0 <==> items >= capacity
  {
    var x, y := items as real, capacity as real;
    assert x / y * y == x;
    if x / y >= 1.0 {
      assert (x / y - 1.0) * y >= 0.0;
    } else {
      assert (1.0 - x / y) * y > 0.0;
    }
  }

  /** With the default load factor the table is full when it holds as many items as buckets. */
  class HashTable<K(==), V> {
    const items: array<HashItem?<K, V>>
    const hash: K -> nat
    const loadFactor: real
    var itemCount: int
    var linkCount: int

    ghost var chains: seq<seq<HashItem<K, V>>>
    ghost var M: map<K, V>
    ghost var Repr: set<object>

    ghost predicate Valid()
      reads this, Repr
      ensures Valid() ==> this in Repr
    {
      && this in Repr && items in Repr && (forall b :: 0 <= b < |chains| ==> forall n <- chains[b] :: n in Repr)
      && |chains| == items.Length > 0 && loadFactor == 1.0
      && (forall b :: 0 <= b < |chains| ==> Chained(items[b], chains[b]))
      && Placed(chains, hash) && Holds(chains, M, hash)
      && itemCount == Used(chains) && itemCount + linkCount == |M|
    }

    constructor (capacity: nat, hash: K -> nat)
      requires capacity > 0
      ensures Valid() && fresh(Repr) && M == map[]
      ensures items.Length == capacity && this.hash == hash
    {
      items := new HashItem?<K, V>[capacity](_ => null);
      this.hash, loadFactor := hash, 1.0;
      itemCount, linkCount := 0, 0;
      M := map[];
      chains := seq(capacity, _ => []);
      new;
      Repr := {this, items};
      UsedZero(chains);
    }

    /** itemCount alone tells whether the table is empty. */
    method IsEmpty() returns (empty: bool)
      requires Valid()
      ensures empty <==> M == map[]
    {
      empty := itemCount == 0;
      UsedZero(chains);
      if empty {
        assert forall k <- M :: !HasKey(chains[Bucket(hash, k, |chains|)], k);
      }
    }

    function CalculateLoadFactor(): real
      requires items.Length > 0
      reads this
    {
      (itemCount + linkCount) as real / items.Length as real
    }

    method IsFull() returns (full: bool)
      requires Valid()
      ensures full <==> |M| >= items.Length
    {
      hide Placed, Holds, Chained, Used;
      LoadFactorFull(itemCount + linkCount, items.Length);
      full := CalculateLoadFactor() >= loadFactor;
    }

    /** Walks the bucket of the key. */
    method Locate(key: K) returns (current: HashItem?<K, V>, previous: HashItem?<K, V>, ghost i: nat)
      requires Valid()
      ensures var chain := chains[Bucket(hash, key, items.Length)];
              && i <= |chain| && current == ItemAt(chain, i)
              && previous == (if i == 0 then null else chain[i - 1])
              && (forall j :: 0 <= j < i ==> chain[j].key != key)
              && (i < |chain| ==> chain[i].key == key)
      ensures current == null <==> key !in M
    {
      hide Used, Placed, Holds;
      KeyIn(key);
      var index := Bucket(hash, key, items.Length);
      ghost var chain := chains[index];
      current, previous, i := items[index], null, 0;
      while current != null && current.key != key
        invariant i <= |chain| && current == ItemAt(chain, i)
        invariant previous == if i == 0 then null else chain[i - 1]
        invariant forall j :: 0 <= j < i ==> chain[j].key != key
        decreases |chain| - i
      {
        previous := current;
        current := current.next;
        i := i + 1;
      }
    }

    lemma KeyIn(key: K)
      requires Valid()
      ensures key in M <==> HasKey(chains[Bucket(hash, key, items.Length)], key)
    {
    }

    method Find(key: K) returns (found: HashItem?<K, V>)
      requires Valid()
      ensures found == null <==> key !in M
      ensures found != null ==> found.key == key && found.value == M[key]
    {
      hide Used;
      found := null;
      var empty := IsEmpty();
      if !empty {
        var previous;
        ghost var i;
        found, previous, i := Locate(key);
      }
    }

    /** The last item of a bucket in use. */
    method Last(index: nat) returns (previous: HashItem<K, V>)
      requires Valid() && index < |chains| && chains[index] != []
      ensures previous == chains[index][|chains[index]| - 1]
    {
      hide Used, Placed, Holds;
      ghost var chain, i := chains[index], 1;
      previous := items[index];
      var current := previous.next;
      while current != null
        invariant 1 <= i <= |chain| && current == ItemAt(chain, i) && previous == chain[i - 1]
        decreases |chain| - i
      {
        previous := current;
        current := current.next;
        i := i + 1;
      }
    }

    /** A change to one bucket leaves the other chains linked. */
    twostate lemma OtherBuckets(b: nat)
      requires old(Valid()) && b < items.Length
      requires |chains| == items.Length && chains == old(chains)[b := chains[b]]
      requires forall c :: 0 <= c < items.Length && c != b ==> items[c] == old(items[c])
      requires forall c :: 0 <= c < items.Length && c != b ==> unchanged(chains[c])
      requires Chained(items[b], chains[b])
      ensures forall c :: 0 <= c < |chains| ==> Chained(items[c], chains[c])
    {
      hide Used, Placed, Holds;
      forall c | 0 <= c < |chains|
        ensures Chained(items[c], chains[c])
      {
        if c != b {
          assert old(Chained(items[c], chains[c]));
        }
      }
    }

    /** Writing to one item of bucket `b`, or to none, does not touch the other buckets. */
    lemma OnlyBucket(b: nat, i: nat)
      requires Valid() && b < |chains| && i < |chains[b]|
      ensures forall c :: 0 <= c < |chains| && c != b ==> chains[b][i] !in chains[c]
    {
      hide Used, Holds;
      forall c | 0 <= c < |chains| && c != b
        ensures chains[b][i] !in chains[c]
      {
        Apart(chains, hash, b, c);
      }
    }

    lemma DistinctItems(b: nat)
      requires Valid() && b < |chains|
      ensures forall i, j :: 0 <= i < j < |chains[b]| ==> chains[b][i] != chains[b][j]
    {
    }

    method Insert(item: HashItem<K, V>) returns (inserted: bool)
      requires Valid() && item !in Repr && item.next == null
      modifies Repr
      ensures Valid() && Repr == old(Repr) + if inserted then {item} else {}
      ensures inserted == (item.key !in old(M) && |old(M)| < items.Length)
      ensures M == if inserted then old(M)[item.key := item.value] else old(M)
    {
      hide Used, Placed, Holds, Chained;
      inserted := false;
      var full := IsFull();
      var found := Find(item.key);
      if !full && found == null {
        var index := Bucket(hash, item.key, items.Length);
        HeadIs(index);
        Inserted(chains, M, hash, item);
        assert chains[index] == [] ==> chains[index] + [item] == [item];
        if items[index] == null {
          LinkFirst(index, item);
        } else {
          LinkLast(index, item);
        }
        inserted := true;
      }
    }

    lemma HeadIs(index: nat)
      requires Valid() && index < |chains|
      ensures items[index] == ItemAt(chains[index], 0)
    {
    }

    method LinkFirst(index: nat, item: HashItem<K, V>)
      requires Valid() && item !in Repr && item.next == null && item.key !in M
      requires index == Bucket(hash, item.key, items.Length) && chains[index] == []
      requires Placed(chains[index := [item]], hash)
      requires Holds(chains[index := [item]], M[item.key := item.value], hash)
      modifies this, items
      ensures Valid() && Repr == old(Repr) + {item} && M == old(M)[item.key := item.value]
    {
      hide Used, Placed, Holds;
      UsedUpdate(chains, index, [item]);
      items[index] := item;
      itemCount := itemCount + 1;
      chains, M, Repr := chains[index := [item]], M[item.key := item.value], Repr + {item};
      OtherBuckets(index);
    }

    method LinkLast(index: nat, item: HashItem<K, V>)
      requires Valid() && item !in Repr && item.next == null && item.key !in M
      requires index == Bucket(hash, item.key, items.Length) && chains[index] != []
      requires Placed(chains[index := chains[index] + [item]], hash)
      requires Holds(chains[index := chains[index] + [item]], M[item.key := item.value], hash)
      modifies Repr
      ensures Valid() && Repr == old(Repr) + {item} && M == old(M)[item.key := item.value]
    {
      hide Used, Placed, Holds, Chained;
      ghost var chain := chains[index];
      UsedUpdate(chains, index, chain + [item]);
      OnlyBucket(index, |chain| - 1);
      DistinctItems(index);
      HeadIs(index);
      var previous := Last(index);
      previous.next := item;
      linkCount, chains, M, Repr := linkCount + 1, chains[index := chain + [item]], M[item.key := item.value], Repr + {item};
      ChainAppended(chain, item);
      OtherBuckets(index);
    }

    /** Unlinks the item with the key, if there is one. */
    method Remove(key: K) returns (removed: bool)
      requires Valid()
      modifies Repr
      ensures Valid() && Repr == old(Repr)
      ensures removed == (key in old(M)) && M == old(M) - {key}
    {
      hide Used, Placed, Holds, Chained;
      removed := false;
      var empty := IsEmpty();
      if !empty {
        var index := Bucket(hash, key, items.Length);
        var current, previous, i := Locate(key);
        if current != null {
          Removed(chains, M, hash, index, i);
          if previous == null {
            assert chains[index][..0] + chains[index][1..] == chains[index][1..];
            UnlinkFirst(index);
          } else {
            UnlinkLater(index, current, previous, i);
          }
          removed := true;
        }
      }
    }

    lemma InMap(b: nat, i: nat)
      requires Valid() && b < |chains| && i < |chains[b]|
      ensures chains[b][i].key in M && Chained(items[b], chains[b])
    {
    }

    method UnlinkFirst(index: nat)
      requires Valid() && index < |chains| && chains[index] != []
      requires Placed(chains[index := chains[index][1..]], hash)
      requires Holds(chains[index := chains[index][1..]], M - {chains[index][0].key}, hash)
      modifies Repr
      ensures Valid() && Repr == old(Repr) && M == old(M) - {old(chains)[index][0].key}
    {
      hide Used, Placed, Holds, Chained;
      ghost var rest := chains[index][1..];
      UsedUpdate(chains, index, rest);
      InMap(index, 0);
      ChainTail(items[index], chains[index]);
      var current := items[index];
      items[index] := current.next;
      if items[index] == null {
        itemCount := itemCount - 1;
      } else {
        linkCount := linkCount - 1;
      }
      chains, M := chains[index := rest], M - {current.key};
      OtherBuckets(index);
    }

    method UnlinkLater(index: nat, current: HashItem<K, V>, previous: HashItem<K, V>, ghost i: nat)
      requires Valid() && index < |chains| && 0 < i < |chains[index]|
      requires current == chains[index][i] && previous == chains[index][i - 1]
      requires Placed(chains[index := chains[index][..i] + chains[index][i + 1..]], hash)
      requires Holds(chains[index := chains[index][..i] + chains[index][i + 1..]], M - {current.key}, hash)
      modifies Repr
      ensures Valid() && Repr == old(Repr) && M == old(M) - {current.key}
    {
      hide Used, Placed, Holds, Chained;
      ghost var chain := chains[index];
      ghost var rest := chain[..i] + chain[i + 1..];
      UsedUpdate(chains, index, rest);
      DistinctItems(index);
      OnlyBucket(index, i - 1);
      InMap(index, i);
      HeadIs(index);
      previous.next := current.next;
      linkCount, chains, M := linkCount - 1, chains[index := rest], M - {current.key};
      ChainWithout(chain, i);
      OtherBuckets(index);
    }
  }
}
