/** What a flush sends: every queued message of every ready channel, to every member. */
module Fanout {
  import opened Common
  import opened SessionSpec

  /** One call of server_write: message number `slot` of the channel's queue, for one member. */
  datatype Delivery = Delivery(channel: Name, slot: nat, nick: Name, message: string)

  function ToMembers(c: Name, slot: nat, m: string, nicks: seq<Name>): (r: seq<Delivery>)
    ensures |r| == |nicks|
    ensures forall i :: 0 <= i < |r| ==> r[i] == Delivery(c, slot, nicks[i], m)
  {
    seq(|nicks|, i requires 0 <= i < |nicks| => Delivery(c, slot, nicks[i], m))
  }

  /** The queue from message number `slot` on. */
  function Drained(c: Name, q: seq<string>, slot: nat, nicks: seq<Name>): seq<Delivery>
    requires slot <= |q|
    decreases |q| - slot
  {
    if slot == |q| then [] else ToMembers(c, slot, q[slot], nicks) + Drained(c, q, slot + 1, nicks)
  }

  function OfChannel(v: View, c: Name): seq<Delivery>
  {
    Drained(c, Get(v.queues, c), 0, Get(v.members, c))
  }

  function Deliveries(v: View, ready: seq<Name>): seq<Delivery>
  {
    if ready == [] then [] else OfChannel(v, ready[0]) + Deliveries(v, ready[1..])
  }

  /** The delivery is due: this message is queued for this member. */
  predicate Due(v: View, d: Delivery)
  {
    && d.slot < |Get(v.queues, d.channel)| && d.message == Get(v.queues, d.channel)[d.slot]
    && IsMember(v, d.channel, d.nick)
  }

  /** Deliveries of one channel are in the order of its queue. */
  predicate Fifo(s: seq<Delivery>)
  {
    forall i, j :: 0 <= i < j < |s| && s[i].channel == s[j].channel ==> s[i].slot <= s[j].slot
  }

  lemma NoDupConcat<T>(a: seq<T>, b: seq<T>)
    requires NoDup(a) && NoDup(b) && forall x <- a :: x !in b
    ensures NoDup(a + b)
  {
    var s := a + b;
    forall i, j | 0 <= i < j < |s|
      ensures s[i] != s[j]
    {
      if i < |a| <= j {
        assert s[i] in a && s[j] in b;
      }
    }
  }

  lemma FifoAppend(a: seq<Delivery>, b: seq<Delivery>)
    requires Fifo(a) && Fifo(b) && forall x <- a, y <- b :: x.channel == y.channel ==> x.slot <= y.slot
    ensures Fifo(a + b)
  {
    var s := a + b;
    forall i, j | 0 <= i < j < |s| && s[i].channel == s[j].channel
      ensures s[i].slot <= s[j].slot
    {
      if i < |a| <= j {
        assert s[i] in a && s[j] in b;
      }
    }
  }

  lemma {:induction false} DrainedExact(c: Name, q: seq<string>, slot: nat, nicks: seq<Name>)
    requires slot <= |q| && NoDup(nicks)
    ensures var s := Drained(c, q, slot, nicks);
            && NoDup(s) && Fifo(s)
            && forall d :: d in s <==>
                 d.channel == c && slot <= d.slot < |q| && d.message == q[d.slot] && d.nick in nicks
    decreases |q| - slot
  {
    if slot < |q| {
      var a, b := ToMembers(c, slot, q[slot], nicks), Drained(c, q, slot + 1, nicks);
      DrainedExact(c, q, slot + 1, nicks);
      forall d
        ensures d in a <==> d.channel == c && d.slot == slot && d.message == q[slot] && d.nick in nicks
      {
        if d.channel == c && d.slot == slot && d.message == q[slot] && d.nick in nicks {
          var i :| 0 <= i < |nicks| && nicks[i] == d.nick;
          assert a[i] == d;
        }
      }
      NoDupConcat(a, b);
      FifoAppend(a, b);
    }
  }

  lemma OfChannelExact(v: View, c: Name)
    requires NoDup(Get(v.members, c))
    ensures NoDup(OfChannel(v, c)) && Fifo(OfChannel(v, c))
    ensures forall d :: d in OfChannel(v, c) <==> d.channel == c && Due(v, d)
  {
    DrainedExact(c, Get(v.queues, c), 0, Get(v.members, c));
  }

  lemma {:induction false} DeliveriesOf(v: View, ready: seq<Name>)
    requires NoDup(ready) && forall c :: NoDup(Get(v.members, c))
    ensures var s := Deliveries(v, ready);
            && NoDup(s) && Fifo(s)
            && forall d :: d in s <==> d.channel in ready && Due(v, d)
  {
    if ready != [] {
      var a, b := OfChannel(v, ready[0]), Deliveries(v, ready[1..]);
      OfChannelExact(v, ready[0]);
      DeliveriesOf(v, ready[1..]);
      assert forall c :: c in ready <==> c == ready[0] || c in ready[1..];
      assert ready[0] !in ready[1..];
      NoDupConcat(a, b);
      FifoAppend(a, b);
    }
  }

  /** A flush calls server_write exactly once for every queued message and current member of
      its channel, ready or not, and in the order of each channel's queue. */
  lemma FlushDeliversAll(v: View)
    requires Inv(v)
    ensures var s := Deliveries(v, v.ready);
            && NoDup(s) && Fifo(s)
            && forall d :: d in s <==> Due(v, d)
  {
    DeliveriesOf(v, v.ready);
  }

  lemma {:induction false} DeliveriesAppend(v: View, a: seq<Name>, b: seq<Name>)
    ensures Deliveries(v, a + b) == Deliveries(v, a) + Deliveries(v, b)
  {
    if a == [] {
      assert a + b == b;
    } else {
      hide OfChannel;
      assert (a + b)[1..] == a[1..] + b && (a + b)[0] == a[0];
      DeliveriesAppend(v, a[1..], b);
      Associative(OfChannel(v, a[0]), Deliveries(v, a[1..]), Deliveries(v, b));
    }
  }

  /** What reaches the sockets: a file descriptor and a message for each delivery. */
  datatype Written = Written(fd: int, message: string)

  function Calls(s: seq<Delivery>, fds: map<Name, int>): (r: seq<Written>)
    ensures |r| == |s|
  {
    seq(|s|, i requires 0 <= i < |s| => Written(if s[i].nick in fds then fds[s[i].nick] else -1, s[i].message))
  }

  lemma CallsAppend(a: seq<Delivery>, b: seq<Delivery>, fds: map<Name, int>)
    ensures Calls(a + b, fds) == Calls(a, fds) + Calls(b, fds)
  {
  }

  /** The entries of the log are those of the deliveries `s`, one by one: all that are due, each
      once, the ones of a channel in the order of its queue; an entry is the queued message,
      for the descriptor of the member. */
  ghost predicate Flushes(v: View, fds: map<Name, int>, s: seq<Delivery>, entries: seq<Written>)
  {
    && NoDup(s) && Fifo(s) && |entries| == |s|
    && (forall c, slot: nat, nick, text ::
          Delivery(c, slot, nick, text) in s <==>
            && c in v.queues && slot < |v.queues[c]| && text == v.queues[c][slot]
            && c in v.members && nick in v.members[c])
    && (forall i :: 0 <= i < |s| ==>
          && s[i].channel in v.queues && s[i].slot < |v.queues[s[i].channel]| && s[i].nick in fds
          && entries[i] == Written(fds[s[i].nick], v.queues[s[i].channel][s[i].slot]))
  }

  /** What a flush hands to the sockets. */
  lemma FlushLogged(v: View, fds: map<Name, int>)
    requires Inv(v) && fds.Keys == v.users
    ensures Flushes(v, fds, Deliveries(v, v.ready), Calls(Deliveries(v, v.ready), fds))
  {
    hide Deliveries, NoDup, Fifo;
    var s := Deliveries(v, v.ready);
    FlushDeliversAll(v);
    forall i | 0 <= i < |s|
      ensures s[i].channel in v.queues && s[i].slot < |v.queues[s[i].channel]| && s[i].nick in fds
      ensures s[i].message == v.queues[s[i].channel][s[i].slot]
    {
      assert s[i] in s && Due(v, s[i]);
      MemberIsUser(v, s[i].channel, s[i].nick);
    }
    assert forall d :: d in s <==> Due(v, d);
  }

  lemma MemberIsUser(v: View, c: Name, u: Name)
    requires Inv(v) && IsMember(v, c, u)
    ensures u in v.users
  {
    assert InUserList(v, u, c);
  }
}
