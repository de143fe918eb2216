/** Lists of users and channels seen through their names. */
module NameLists {
  import opened LinkedLists
  import opened SessionSpec

  /** A list of users or channels seen through their names. */
  function Names<T>(s: seq<T>, keyOf: T -> string): (r: seq<string>)
    ensures |r| == |s|
  {
    if s == [] then [] else [keyOf(s[0])] + Names(s[1..], keyOf)
  }

  function NameMap<T>(m: map<string, seq<T>>, keyOf: T -> string): (r: map<string, seq<string>>)
    ensures r.Keys == m.Keys
    ensures forall k <- m :: r[k] == Names(m[k], keyOf)
  {
    map k <- m :: Names(m[k], keyOf)
  }

  lemma {:induction false} NamesAt<T>(s: seq<T>, keyOf: T -> string)
    ensures forall i :: 0 <= i < |s| ==> Names(s, keyOf)[i] == keyOf(s[i])
    ensures forall x :: x in Names(s, keyOf) <==> exists i :: 0 <= i < |s| && keyOf(s[i]) == x
  {
    if s != [] {
      NamesAt(s[1..], keyOf);
      forall i | 0 <= i < |s|
        ensures Names(s, keyOf)[i] == keyOf(s[i])
      {
        assert i > 0 ==> s[i] == s[1..][i - 1];
      }
      var r := Names(s, keyOf);
      assert forall x :: x in r <==> exists i :: 0 <= i < |r| && r[i] == x;
    }
  }

  lemma {:induction false} NamesAppend<T>(s: seq<T>, x: T, keyOf: T -> string)
    ensures Names(s + [x], keyOf) == Names(s, keyOf) + [keyOf(x)]
  {
    if s == [] {
      assert s + [x] == [x];
    } else {
      assert (s + [x])[1..] == s[1..] + [x];
      NamesAppend(s[1..], x, keyOf);
    }
  }

  lemma FirstAfter<T>(s: seq<T>, keyOf: T -> string, key: string)
    requires s != [] && keyOf(s[0]) != key
    ensures FirstWith(s, keyOf, key) == 1 + FirstWith(s[1..], keyOf, key)
  {
  }

  lemma FirstNow<T>(s: seq<T>, keyOf: T -> string, key: string)
    requires s != [] && keyOf(s[0]) == key
    ensures FirstWith(s, keyOf, key) == 0
  {
  }

  lemma WithoutLater<T>(s: seq<T>, i: nat)
    requires 0 < i < |s|
    ensures Without(s, i) == [s[0]] + Without(s[1..], i - 1)
  {
  }

  lemma MinusFirst<T>(s: seq<T>, keyOf: T -> string, key: string)
    requires s != []
    ensures Minus(s, keyOf, key) == if keyOf(s[0]) == key then s[1..] else [s[0]] + Minus(s[1..], keyOf, key)
  {
    hide FirstWith, Without;
    if keyOf(s[0]) == key {
      FirstNow(s, keyOf, key);
      WithoutFirst(s);
    } else {
      FirstAfter(s, keyOf, key);
      var i := FirstWith(s, keyOf, key);
      if i < |s| {
        WithoutLater(s, i);
      } else {
        assert [s[0]] + s[1..] == s;
      }
    }
  }

  lemma WithoutFirst<T>(s: seq<T>)
    requires s != []
    ensures Without(s, 0) == s[1..]
  {
  }

  lemma NamesNone<T>(keyOf: T -> string)
    ensures Names([], keyOf) == []
  {
  }

  lemma NamesFirst<T>(x: T, s: seq<T>, keyOf: T -> string)
    ensures Names([x] + s, keyOf) == [keyOf(x)] + Names(s, keyOf)
  {
    assert ([x] + s)[1..] == s;
  }

  /** Removing the first item with a key removes the first such name. */
  lemma {:induction false} NamesMinus<T>(s: seq<T>, keyOf: T -> string, key: string)
    ensures Names(Minus(s, keyOf, key), keyOf) == Drop(Names(s, keyOf), key)
    ensures FirstWith(s, keyOf, key) < |s| <==> key in Names(s, keyOf)
  {
    hide Minus;
    if s == [] {
      assert Minus(s, keyOf, key) == [] by { MinusNone(s, keyOf, key); }
    } else {
      NamesMinus(s[1..], keyOf, key);
      MinusFirst(s, keyOf, key);
      NamesFirst(s[0], Minus(s[1..], keyOf, key), keyOf);
    }
  }

  lemma MinusNone<T>(s: seq<T>, keyOf: T -> string, key: string)
    requires s == []
    ensures Minus(s, keyOf, key) == []
  {
  }

  lemma NameMapPut<T>(m: map<string, seq<T>>, k: string, s: seq<T>, keyOf: T -> string)
    ensures NameMap(m[k := s], keyOf) == NameMap(m, keyOf)[k := Names(s, keyOf)]
  {
  }

  lemma NameMapWithout<T>(m: map<string, seq<T>>, k: string, keyOf: T -> string)
    ensures NameMap(m - {k}, keyOf) == NameMap(m, keyOf) - {k}
  {
  }

  /** A table files every object under its own name. */
  ghost predicate Keyed<T>(table: map<string, T>, keyOf: T -> string)
  {
    forall k <- table :: keyOf(table[k]) == k
  }

  lemma KeyedAdded<T>(table: map<string, T>, x: T, keyOf: T -> string)
    requires Keyed(table, keyOf)
    ensures Keyed(table[keyOf(x) := x], keyOf)
  {
  }

  /** Every object of the list is the table's object of that name. */
  ghost predicate Live<T>(s: seq<T>, table: map<string, T>, keyOf: T -> string)
  {
    forall i :: 0 <= i < |s| ==> keyOf(s[i]) in table && table[keyOf(s[i])] == s[i]
  }

  ghost predicate AllLive<T>(lists: map<string, seq<T>>, table: map<string, T>, keyOf: T -> string)
  {
    forall k <- lists :: Live(lists[k], table, keyOf)
  }

  lemma AllLivePut<T>(lists: map<string, seq<T>>, k: string, s: seq<T>, table: map<string, T>, keyOf: T -> string)
    requires AllLive(lists, table, keyOf) && Live(s, table, keyOf)
    ensures AllLive(lists[k := s], table, keyOf)
  {
  }

  lemma AllLiveWithout<T>(lists: map<string, seq<T>>, k: string, table: map<string, T>, keyOf: T -> string)
    requires AllLive(lists, table, keyOf)
    ensures AllLive(lists - {k}, table, keyOf)
  {
  }

  lemma LiveAppend<T>(lists: map<string, seq<T>>, k: string, x: T, table: map<string, T>, keyOf: T -> string)
    requires AllLive(lists, table, keyOf) && k in lists && Live([x], table, keyOf)
    ensures AllLive(lists[k := lists[k] + [x]], table, keyOf)
    ensures lists[k := lists[k] + []] == lists
  {
    assert [x][0] == x;
    assert lists[k] + [] == lists[k];
  }

  lemma LiveMinusIn<T>(lists: map<string, seq<T>>, k: string, key: string, table: map<string, T>, keyOf: T -> string)
    requires AllLive(lists, table, keyOf) && k in lists
    ensures AllLive(lists[k := Minus(lists[k], keyOf, key)], table, keyOf)
  {
    LiveMinus(lists[k], key, table, keyOf);
  }

  lemma AllLiveAdded<T>(lists: map<string, seq<T>>, table: map<string, T>, x: T, keyOf: T -> string)
    requires AllLive(lists, table, keyOf) && keyOf(x) !in table
    ensures AllLive(lists, table[keyOf(x) := x], keyOf)
  {
  }

  lemma LiveAdded<T>(s: seq<T>, table: map<string, T>, x: T, keyOf: T -> string)
    requires Live(s, table, keyOf) && keyOf(x) !in table
    ensures Live(s, table[keyOf(x) := x], keyOf)
  {
  }

  lemma LiveMinus<T>(s: seq<T>, key: string, table: map<string, T>, keyOf: T -> string)
    requires Live(s, table, keyOf)
    ensures Live(Minus(s, keyOf, key), table, keyOf)
  {
  }

  /** A name that no list mentions can go. */
  lemma LiveGone<T>(s: seq<T>, key: string, table: map<string, T>, keyOf: T -> string)
    requires Live(s, table, keyOf) && key !in Names(s, keyOf)
    ensures Live(s, table - {key}, keyOf)
  {
    NamesAt(s, keyOf);
  }

  lemma AllLiveGone<T>(lists: map<string, seq<T>>, key: string, table: map<string, T>, keyOf: T -> string)
    requires AllLive(lists, table, keyOf)
    requires forall k <- lists :: key !in Names(lists[k], keyOf)
    ensures AllLive(lists, table - {key}, keyOf)
  {
    forall k | k in lists
      ensures Live(lists[k], table - {key}, keyOf)
    {
      LiveGone(lists[k], key, table, keyOf);
    }
  }
}
