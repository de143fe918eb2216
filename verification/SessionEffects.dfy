/** What each command does to the session, said about the views before and after it. */
module SessionEffects {
  import opened SessionSpec
  import opened SessionProofs

  /** Everything is as it was, except for the users, members and queues that are named. */
  predicate SameTables(v: View, w: View)
  {
    w.running == v.running && w.users == v.users && w.channels == v.channels
  }

  /** The message is the newest of the channel's queue, the channel is ready, and no other queue
      or place on the ready list has changed. */
  ghost predicate Posted(v: View, w: View, c: Name, m: string)
  {
    && c in w.queues && Newest(Get(v.queues, c), w.queues[c], m)
    && (forall d :: d != c ==> Get(w.queues, d) == Get(v.queues, d))
    && w.queues.Keys == v.queues.Keys + {c}
    && w.ready == if c in v.ready then v.ready else v.ready + [c]
  }

  lemma PostPosted(v: View, c: Name, m: string)
    ensures Posted(v, Post(v, c, m), c, m)
  {
    hide Push, Newest;
    PushNewest(Get(v.queues, c), m);
  }

  /** A message from a member reaches the queue of the channel and changes nothing else; one
      from anyone else, or to a channel that is not there, changes nothing at all. */
  lemma PrivMsgEffect(v: View, u: Name, c: Name, m: string)
    requires Inv(v) && u in v.users
    ensures var w := Apply(v, PrivMsg(u, c, m));
            if IsMember(v, c, u) then
              SameTables(v, w) && w.joined == v.joined && w.members == v.members && Posted(v, w, c, m)
            else w == v
  {
    hide Posted, Symmetric, Bounded, ReadyOk;
    PostPosted(v, c, m);
  }

  /** A part takes exactly the pair of user and channel out of the relation, with the effect of
      leaving that channel; for anyone who is not a member it changes nothing. */
  lemma PartEffect(v: View, u: Name, c: Name, m: string)
    requires Inv(v) && u in v.users
    ensures var w := Apply(v, Part(u, c, m));
            if IsMember(v, c, u) then
              && Inv(w) && Left(v, w, [c], u, m)
              && (forall x, d :: IsMember(w, d, x) <==> IsMember(v, d, x) && !(x == u && d == c))
              && (forall x, d :: InUserList(w, x, d) <==> InUserList(v, x, d) && !(x == u && d == c))
            else w == v
  {
    hide Left, Symmetric, Bounded, ReadyOk, LeaveOne;
    if IsMember(v, c, u) {
      LeaveOneKeeps(v, c, u, m);
      LeaveOneLeft(v, c, u, m);
      var w := LeaveOne(v, c, u, m);
      forall x, d
        ensures InUserList(w, x, d) <==> InUserList(v, x, d) && !(x == u && d == c)
      {
        Mutual(v, x, d);
        Mutual(w, x, d);
      }
    }
  }

  /** The pair of user and channel is added at the ends of both lists (of the user's list only
      while that has a place), and the message reaches the channel. */
  ghost predicate Joined(v: View, w: View, u: Name, c: Name, m: string)
  {
    && w.running && w.users == v.users && w.channels == v.channels + {c}
    && Get(w.members, c) == Get(v.members, c) + [u]
    && (forall d :: d != c ==> Get(w.members, d) == Get(v.members, d))
    && Get(w.joined, u) == Get(v.joined, u) + (if |Get(v.joined, u)| < MAX_CHANNELS_PER_USER then [c] else [])
    && (forall x :: x != u ==> Get(w.joined, x) == Get(v.joined, x))
    && Posted(v, w, c, m)
  }

  /** The handlers let the user in: there is a channel that is not full and does not have the
      user, or there is none and the name is good. */
  predicate LetIn(v: View, u: Name, c: Name)
  {
    if c in v.channels then !IsMember(v, c, u) && |Get(v.members, c)| != MAX_USERS_PER_CHANNEL
    else ValidChannelName(c)
  }

  /** A join does exactly that when the user is let in, ends the program when there is no place
      for a new channel, and changes nothing otherwise. */
  lemma JoinEffect(v: View, u: Name, c: Name, m: string)
    requires Inv(v) && u in v.users
    ensures var w := Apply(v, Join(u, c, m));
            if !LetIn(v, u, c) then w == v
            else if c !in v.channels && |v.channels| >= MAX_CHANNELS then !w.running
            else Joined(v, w, u, c, m)
  {
    hide Joined, Inv, Enter, NewChannel, Post, ValidChannelName;
    InvFacts(v, u);
    if LetIn(v, u, c) {
      if c in v.channels {
        EnterJoined(v, v, u, c, m);
      } else if |v.channels| < MAX_CHANNELS {
        NewFacts(v, c);
        EnterJoined(v, NewChannel(v, c), u, c, m);
      }
    }
  }

  lemma InvFacts(v: View, u: Name)
    requires Inv(v)
    ensures v.running && v.members.Keys == v.channels == v.queues.Keys
    ensures forall c :: |Get(v.members, c)| <= MAX_USERS_PER_CHANNEL
  {
  }

  /** `x` differs from `v` at most by an empty new channel. */
  predicate AtMostNew(v: View, x: View, c: Name)
  {
    && x.running == v.running && x.users == v.users && x.joined == v.joined && x.ready == v.ready
    && x.channels == v.channels + {c}
    && (x.members == v.members || (c !in v.members && x.members == v.members[c := []]))
    && (x.queues == v.queues || (c !in v.queues && x.queues == v.queues[c := []]))
  }

  lemma NewFacts(v: View, c: Name)
    requires c !in v.members && c !in v.queues
    ensures AtMostNew(v, NewChannel(v, c), c)
  {
  }

  lemma EnterJoined(v: View, x: View, u: Name, c: Name, m: string)
    requires v.running && |Get(v.members, c)| < MAX_USERS_PER_CHANNEL
    requires (x == v && c in v.channels) || AtMostNew(v, x, c)
    ensures Joined(v, Post(Enter(x, c, u), c, m), u, c, m)
  {
    hide Posted, Newest, Push;
    var y := Enter(x, c, u);
    PostPosted(y, c, m);
    SameAfterNew(v, y, Post(y, c, m), c, m);
  }

  /** The queue of a new channel is empty, as it is for one that is not there. */
  lemma SameAfterNew(v: View, x: View, w: View, c: Name, m: string)
    requires x.queues == v.queues || (c !in v.queues && x.queues == v.queues[c := []])
    requires x.ready == v.ready && Posted(x, w, c, m)
    ensures Posted(v, w, c, m)
  {
    hide Newest;
  }

  /** Registration enters the user with an empty list, in the table as long as it has a place. */
  lemma RegisterEffect(v: View, u: Name)
    ensures var w := Apply(v, Register(u));
            && w.users == (if |v.users| < MAX_USERS then v.users + {u} else v.users)
            && w.joined.Keys == v.joined.Keys + {u} && w.joined[u] == []
            && (forall x <- v.joined :: x != u ==> w.joined[x] == v.joined[x])
            && w.running == v.running && w.channels == v.channels && w.members == v.members
            && w.ready == v.ready && w.queues == v.queues
  {
    var w := Apply(v, Register(u));
    assert w.joined == v.joined[u := []];
  }

  /** A quit has the effect of leaving all the user's channels, and the user is gone. */
  lemma QuitEffect(v: View, u: Name, m: string)
    requires Inv(v) && u in v.users
    ensures var w := Apply(v, Quit(u, m));
            && Inv(w) && w.users == v.users - {u} && u !in w.joined
            && Left(v, w.(users := v.users), v.joined[u], u, m)
            && (forall x, d :: IsMember(w, d, x) <==> IsMember(v, d, x) && x != u)
  {
    hide Left, Inv, LeaveAll;
    InUsers(v, u);
    QuitKeeps(v, u, m);
    LeaveAllLeft(v, u, m);
    var x := LeaveAll(v, u, m);
    LeftUnlisted(v, x, v.joined[u], u, m);
    SameUsers(v, x, v.joined[u], u, m);
  }

  lemma LeftUnlisted(v: View, x: View, cs: seq<Name>, u: Name, m: string)
    requires Left(v, x, cs, u, m)
    ensures Left(v, UnregisterUser(x, u).(users := v.users), cs, u, m)
  {
    hide Newest, Drop;
  }

  lemma SameUsers(v: View, x: View, cs: seq<Name>, u: Name, m: string)
    requires Left(v, x, cs, u, m)
    ensures x.users == v.users
  {
  }

  /** A flush empties every queue and the ready list and leaves everything else. */
  lemma FlushEffect(v: View)
    requires Inv(v)
    ensures var w := Apply(v, Flush);
            && SameTables(v, w) && w.joined == v.joined && w.members == v.members
            && w.ready == [] && w.queues.Keys == v.queues.Keys && forall c <- w.queues :: w.queues[c] == []
  {
  }
}
