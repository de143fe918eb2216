/** The records that say who is where: a UserChannels record holds a user's channels, a
    ChannelUsers record a channel's users. Both are an owner, a list and a redundant count. */
module Rosters {
  import opened LinkedLists

  class Roster<O, T> {
    const owner: O
    const items: LinkedList<T>
    const capacity: nat
    var count: int
    ghost var Repr: set<object>

    ghost predicate Valid()
      reads this, Repr
      ensures Valid() ==> this in Repr && items in Repr
    {
      && this in Repr && items in Repr && (forall n <- items.nodes :: n in Repr)
      && items.Valid() && count == |items.nodes|
    }

    /** The list's iterator stands at position `p`. */
    ghost predicate Stands(p: int)
      reads items
    {
      items.Iterating() && items.pos == p
    }

    ghost function Contents(): seq<T>
      reads items
    {
      items.Contents()
    }

    constructor (owner: O, capacity: nat, keyOf: T -> string)
      ensures Valid() && Contents() == [] && fresh(Repr)
      ensures this.owner == owner && this.capacity == capacity && items.keyOf == keyOf
    {
      this.owner, this.capacity := owner, capacity;
      items := new LinkedList(keyOf);
      count := 0;
      new;
      Repr := {this, items};
    }

    method Add(x: T) returns (added: bool)
      requires Valid()
      modifies Repr
      ensures Valid() && fresh(Repr - old(Repr))
      ensures added == (|old(Contents())| < capacity)
      ensures Contents() == old(Contents()) + (if added then [x] else [])
    {
      added := false;
      if count < capacity {
        items.Append(x);
        count := count + 1;
        Repr := Repr + {items.nodes[|items.nodes| - 1]};
        added := true;
      }
    }

    /** The count goes down whether or not the item was there: callers only remove members. */
    method Remove(key: string, ghost p: int)
      requires Valid() && FirstWith(Contents(), items.keyOf, key) < |Contents()|
      modifies Repr
      ensures Valid() && Repr == old(Repr)
      ensures Contents() == Minus(old(Contents()), items.keyOf, key)
      ensures old(Stands(p)) && FirstWith(old(Contents()), items.keyOf, key) < p ==> Stands(p - 1)
    {
      hide FirstWith;
      var removed := items.Remove(key);
      count := count - 1;
    }

    method Contains(key: string) returns (found: bool)
      requires Valid()
      ensures found == (FirstWith(Contents(), items.keyOf, key) < |Contents()|)
    {
      var node := items.Find(key);
      found := node != null;
    }
  }

  /** The list of all records of one kind. The view maps each owner's key to what its record
      holds; there is one record per owner. */
  class Membership<O, T> {
    const ownerKey: O -> string
    const itemKey: T -> string
    const capacity: nat
    var records: seq<Roster<O, T>>

    ghost var view: map<string, seq<T>>
    ghost var Repr: set<object>

    ghost predicate RecordOk(r: Roster<O, T>)
      reads this, r, r.Repr
    {
      && r.Valid() && this !in r.Repr
      && r.items.keyOf == itemKey && r.capacity == capacity
      && ownerKey(r.owner) in view && view[ownerKey(r.owner)] == r.Contents()
    }

    /** Records share nothing, and no two have the same owner. */
    ghost predicate Apart(r: Roster<O, T>, s: Roster<O, T>)
      reads r, s
    {
      ownerKey(r.owner) != ownerKey(s.owner) && r.Repr !! s.Repr
    }

    ghost predicate Separate()
      reads this, records
    {
      forall i, j :: 0 <= i < j < |records| ==> Apart(records[i], records[j])
    }

    ghost predicate Valid()
      reads this, Repr
      ensures Valid() ==> this in Repr
    {
      && this in Repr && (forall r <- records :: r in Repr && r.Repr <= Repr)
      && (forall r <- records :: RecordOk(r))
      && Separate()
      && view.Keys == set r <- records :: ownerKey(r.owner)
    }

    constructor (ownerKey: O -> string, itemKey: T -> string, capacity: nat)
      ensures Valid() && fresh(Repr) && view == map[]
      ensures this.ownerKey == ownerKey && this.itemKey == itemKey && this.capacity == capacity
    {
      this.ownerKey, this.itemKey, this.capacity := ownerKey, itemKey, capacity;
      records, view := [], map[];
      new;
      Repr := {this};
    }

    /** No other record of the list has this owner or shares anything with it. */
    ghost predicate Sole(r: Roster<O, T>)
      reads this, records, r
    {
      forall s <- records :: s != r ==> ownerKey(s.owner) != ownerKey(r.owner) && s.Repr !! r.Repr
    }

    lemma AloneAt(i: nat)
      requires Separate() && i < |records|
      ensures Sole(records[i])
    {
      var r := records[i];
      forall s | s in records && s != r
        ensures ownerKey(s.owner) != ownerKey(r.owner) && s.Repr !! r.Repr
      {
        var j :| 0 <= j < |records| && records[j] == s;
        assert if i < j then Apart(r, s) else Apart(s, r);
      }
    }

    method Find(key: string) returns (r: Roster?<O, T>)
      requires Valid()
      ensures r == null <==> key !in view
      ensures r != null ==>
                r in records && ownerKey(r.owner) == key && RecordOk(r) && r.Repr <= Repr && Sole(r)
    {
      hide Separate, Sole;
      var i := FirstWith(records, (r: Roster<O, T>) => ownerKey(r.owner), key);
      r := null;
      if i < |records| {
        r := records[i];
        AloneAt(i);
      } else {
        assert forall s <- records :: exists j :: 0 <= j < |records| && records[j] == s;
      }
    }

    /** A change to one record leaves the others as they were. */
    twostate lemma OthersUnchanged(r: Roster<O, T>)
      requires old(Valid()) && old(Sole(r)) && r in records && records == old(records)
      requires unchanged(old(Repr) - old(r.Repr) - {this})
      requires fresh(r.Repr - old(r.Repr))
      ensures forall s <- records :: s != r ==>
                && s.Repr == old(s.Repr) && s.Valid() && s.Contents() == old(s.Contents())
      ensures Sole(r)
    {
      forall s | s in records && s != r
        ensures s.Repr == old(s.Repr) && s.Valid() && s.Contents() == old(s.Contents())
        ensures s.Repr !! r.Repr
      {
        assert old(RecordOk(s));
        assert old(s.Repr) <= old(Repr) - old(r.Repr) - {this};
      }
    }

    twostate lemma StillSeparate(r: Roster<O, T>)
      requires old(Separate()) && records == old(records) && Sole(r)
      requires forall s <- records :: s != r ==> s.Repr == old(s.Repr)
      ensures Separate()
    {
      forall i, j | 0 <= i < j < |records|
        ensures Apart(records[i], records[j])
      {
        assert old(Apart(records[i], records[j]));
      }
    }

    twostate lemma RecordsOk(r: Roster<O, T>)
      requires old(Valid()) && old(Sole(r)) && r in records && records == old(records)
      requires unchanged(old(Repr) - old(r.Repr) - {this})
      requires r.Valid() && fresh(r.Repr - old(r.Repr))
      requires view == old(view)[ownerKey(r.owner) := r.Contents()]
      ensures forall s <- records :: RecordOk(s) && (s != r ==> s.Repr == old(s.Repr))
    {
      hide Apart, Separate;
      OthersUnchanged(r);
      assert old(RecordOk(r));
      forall s | s in records
        ensures RecordOk(s)
      {
        assert old(RecordOk(s));
      }
    }

    /** Valid again once the view and the footprint follow the record that has changed. */
    twostate lemma Reestablished(r: Roster<O, T>)
      requires old(Valid()) && old(Sole(r)) && r in records && records == old(records)
      requires unchanged(old(Repr) - old(r.Repr) - {this})
      requires r.Valid() && fresh(r.Repr - old(r.Repr))
      requires view == old(view)[ownerKey(r.owner) := r.Contents()]
      requires Repr == old(Repr) + r.Repr
      ensures Valid() && fresh(Repr - old(Repr))
    {
      hide Apart, Separate, Sole, RecordOk;
      OthersUnchanged(r);
      StillSeparate(r);
      RecordsOk(r);
      Known(r);
    }

    /** The owner had a record before. */
    twostate lemma Known(r: Roster<O, T>)
      requires old(Valid()) && r in old(records)
      ensures ownerKey(r.owner) in old(view)
    {
      assert old(RecordOk(r));
    }

    method AddItem(key: string, x: T) returns (added: bool)
      requires Valid() && key in view
      modifies Repr
      ensures Valid() && fresh(Repr - old(Repr))
      ensures added == (|old(view)[key]| < capacity)
      ensures view == old(view)[key := old(view)[key] + if added then [x] else []]
    {
      hide Separate, Sole;
      var r := Find(key);
      added := r.Add(x);
      view := view[key := r.Contents()];
      Repr := Repr + r.Repr;
      Reestablished(r);
    }

    twostate lemma SeparateExtended(new r: Roster<O, T>)
      requires old(Separate()) && records == old(records) + [r]
      requires forall s <- old(records) ::
                 s.Repr == old(s.Repr) && ownerKey(s.owner) != ownerKey(r.owner) && s.Repr !! r.Repr
      ensures Separate()
    {
      forall i, j | 0 <= i < j < |records|
        ensures Apart(records[i], records[j])
      {
        if j < |old(records)| {
          assert old(Apart(records[i], records[j]));
        }
      }
    }

    /** The records there were are untouched and have nothing to do with a fresh one. */
    twostate lemma OthersApart(new r: Roster<O, T>)
      requires old(Valid()) && unchanged(old(Repr) - {this}) && fresh(r.Repr)
      requires ownerKey(r.owner) !in old(view) && view == old(view)[ownerKey(r.owner) := []]
      ensures forall s <- old(records) ::
                RecordOk(s) && s.Repr == old(s.Repr) && ownerKey(s.owner) != ownerKey(r.owner) && s.Repr !! r.Repr
    {
      hide Separate, Apart;
      forall s | s in old(records)
        ensures RecordOk(s) && s.Repr == old(s.Repr) && ownerKey(s.owner) != ownerKey(r.owner) && s.Repr !! r.Repr
      {
        assert old(RecordOk(s));
        assert s in old(Repr) - {this} && old(s.Repr) <= old(Repr) - {this};
      }
    }

    twostate lemma Extended(new r: Roster<O, T>)
      requires old(Valid()) && unchanged(old(Repr) - {this})
      requires r.Valid() && fresh(r) && fresh(r.Repr) && r.Contents() == []
      requires r.items.keyOf == itemKey && r.capacity == capacity
      requires ownerKey(r.owner) !in old(view) && view == old(view)[ownerKey(r.owner) := []]
      requires records == old(records) + [r] && Repr == old(Repr) + r.Repr
      ensures Valid()
    {
      hide Separate, Apart;
      OthersApart(r);
      assert RecordOk(r);
      hide RecordOk;
      SeparateExtended(r);
    }

    /** create_user_channels and add_user_channels, or the same for a channel. */
    method AddRecord(owner: O)
      requires Valid() && ownerKey(owner) !in view
      modifies this
      ensures Valid() && fresh(Repr - old(Repr))
      ensures view == old(view)[ownerKey(owner) := []]
    {
      hide Apart, Separate;
      var r := new Roster(owner, capacity, itemKey);
      records := records + [r];
      view := view[ownerKey(owner) := []];
      Repr := Repr + r.Repr;
      Extended(r);
    }

    twostate lemma SeparateWithout(i: nat)
      requires old(Separate()) && i < |old(records)| && records == Without(old(records), i)
      requires unchanged(old(records))
      ensures Separate()
      ensures forall s <- records :: s in old(records) && ownerKey(s.owner) != ownerKey(old(records)[i].owner)
    {
      hide Without;
      forall p, q | 0 <= p < q < |records|
        ensures Apart(records[p], records[q])
      {
        var a, b := if p < i then p else p + 1, if q < i then q else q + 1;
        assert old(Apart(records[a], records[b]));
      }
      forall s | s in records
        ensures s in old(records) && ownerKey(s.owner) != ownerKey(old(records)[i].owner)
      {
        var p :| 0 <= p < |records| && records[p] == s;
        var a := if p < i then p else p + 1;
        assert if a < i then old(Apart(records[a], records[i])) else old(Apart(records[i], records[a]));
      }
    }

    twostate lemma Shrunk(i: nat)
      requires old(Valid()) && unchanged(old(Repr) - {this})
      requires i < |old(records)| && records == Without(old(records), i)
      requires view == old(view) - {ownerKey(old(records)[i].owner)} && Repr == old(Repr)
      ensures Valid()
    {
      hide Separate, Without;
      SeparateWithout(i);
      forall s | s in records
        ensures RecordOk(s)
      {
        assert old(RecordOk(s));
        assert s in old(Repr) - {this} && old(s.Repr) <= old(Repr) - {this};
      }
      InWithout(old(records), i);
    }

    lemma InWithout(was: seq<Roster<O, T>>, i: nat)
      requires i < |was|
      ensures forall s <- was :: s in Without(was, i) || s == was[i]
    {
      forall s | s in was
        ensures s in Without(was, i) || s == was[i]
      {
        var p :| 0 <= p < |was| && was[p] == s;
        assert p != i ==> Without(was, i)[if p < i then p else p - 1] == s;
      }
    }

    /** remove_user_channels or remove_channel_users. */
    method RemoveRecord(key: string)
      requires Valid() && key in view
      modifies this
      ensures Valid() && Repr == old(Repr)
      ensures view == old(view) - {key}
    {
      hide Without, Separate, Sole;
      var r := Find(key);
      var i := FirstWith(records, (r: Roster<O, T>) => ownerKey(r.owner), key);
      assert i < |records| by {
        var j :| 0 <= j < |records| && records[j] == r;
      }
      records := Without(records, i);
      view := view - {key};
      Shrunk(i);
    }

    /** The iterator of the owner's list stands at position `p`. */
    ghost predicate At(key: string, p: int)
      reads this, Repr
    {
      exists r <- records :: r in Repr && r.items in Repr && ownerKey(r.owner) == key && r.Stands(p)
    }

    lemma AtRecord(r: Roster<O, T>, p: nat)
      requires r in records && Sole(r) && At(ownerKey(r.owner), p)
      ensures r.Stands(p)
    {
    }

    /** The iterator of the owner's list stands at `p`, behind the item. */
    ghost predicate Passed(key: string, item: string, p: nat)
      reads this, Repr
    {
      key in view && At(key, p) && FirstWith(view[key], itemKey, item) < p
    }

    lemma PassedRecord(r: Roster<O, T>, item: string, p: nat)
      requires Valid() && r in records && Sole(r)
      ensures Passed(ownerKey(r.owner), item, p) ==>
                r.Stands(p) && FirstWith(r.Contents(), r.items.keyOf, item) < p
    {
      assert RecordOk(r);
      if Passed(ownerKey(r.owner), item, p) {
        AtRecord(r, p);
      }
    }

    /** remove_channel_in_user_channels or remove_user_in_channel_users, of a member. An
        iterator that has gone past the item keeps its place. */
    method RemoveItem(key: string, item: string, ghost p: nat)
      requires Valid() && key in view && FirstWith(view[key], itemKey, item) < |view[key]|
      modifies Repr
      ensures Valid() && Repr == old(Repr)
      ensures view == old(view)[key := Minus(old(view)[key], itemKey, item)]
      ensures old(Passed(key, item, p)) ==> At(key, p - 1)
    {
      hide Separate, Sole, FirstWith, Minus, At, Passed, Roster.Stands;
      var r := Find(key);
      PassedRecord(r, item, p);
      RemoveFrom(r, item, p);
    }

    method RemoveFrom(r: Roster<O, T>, item: string, ghost p: nat)
      requires Valid() && r in records && RecordOk(r) && r.Repr <= Repr && Sole(r)
      requires FirstWith(r.Contents(), itemKey, item) < |r.Contents()|
      modifies Repr
      ensures Valid() && Repr == old(Repr)
      ensures view == old(view)[ownerKey(r.owner) := Minus(old(r.Contents()), itemKey, item)]
      ensures old(r.Stands(p)) && FirstWith(old(r.Contents()), itemKey, item) < p ==> At(ownerKey(r.owner), p - 1)
    {
      hide Separate, Sole, FirstWith, Minus, At;
      r.Remove(item, p);
      view := view[ownerKey(r.owner) := r.Contents()];
      Reestablished(r);
      StandsAt(r, p - 1);
    }

    lemma StandsAt(r: Roster<O, T>, p: int)
      requires Valid() && r in records
      ensures r.Stands(p) ==> At(ownerKey(r.owner), p)
    {
      assert RecordOk(r);
    }

    method ResetIterator(key: string)
      requires Valid() && key in view
      modifies Repr
      ensures Valid() && Repr == old(Repr) && view == old(view) && At(key, 0)
    {
      hide Separate, Sole;
      var r := Find(key);
      r.items.ResetIterator();
      Reestablished(r);
      StandsAt(r, 0);
    }

    /** iterator_next on the owner's list: the item it stands at, unless the list is used up. */
    method IteratorNext(key: string, ghost p: nat) returns (node: Node?<T>)
      requires Valid() && key in view && At(key, p)
      modifies Repr
      ensures Valid() && Repr == old(Repr) && view == old(view)
      ensures node == null <==> p >= |view[key]|
      ensures node != null ==> node.data == view[key][p] && At(key, p + 1)
    {
      hide Separate, Sole, At;
      var r := Find(key);
      AtRecord(r, p);
      node := r.items.IteratorNext();
      Reestablished(r);
      StandsAt(r, if node == null then p else p + 1);
    }

    /** get_channel_users_count: the stored count is the number of items. */
    method Count(key: string) returns (n: int)
      requires Valid() && key in view
      ensures n == |view[key]|
    {
      var r := Find(key);
      n := r.count;
    }

    method Contains(key: string, item: string) returns (found: bool)
      requires Valid() && key in view
      ensures found == (FirstWith(view[key], itemKey, item) < |view[key]|)
    {
      var r := Find(key);
      found := r.Contains(item);
    }

    /** iterate_list on the owner's list. */
    method Iterate(key: string) returns (visited: seq<T>)
      requires Valid() && key in view
      ensures visited == view[key]
    {
      var r := Find(key);
      visited := r.items.Iterate();
    }
  }
}
