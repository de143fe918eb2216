/** The session invariant over every run, and what leaving all channels does. */
module SessionProofs {
  import opened Common
  import opened SessionSpec

  lemma RegisterLists(v: View, u: Name)
    requires Symmetric(v) && u !in v.joined
    ensures Symmetric(RegisterUser(v, u))
  {
    var w := RegisterUser(v, u);
    forall x, c
      ensures InUserList(w, x, c) <==> IsMember(w, c, x)
    {
      assert InUserList(v, x, c) <==> IsMember(v, c, x);
    }
  }

  lemma RegisterBounds(v: View, u: Name)
    requires Bounded(v) && u !in v.users
    ensures |v.users| < MAX_USERS ==> Bounded(RegisterUser(v, u))
  {
  }

  lemma RegisterKeeps(v: View, u: Name)
    requires Inv(v) && u !in v.users
    ensures Inv(RegisterUser(v, u)) <==> |v.users| < MAX_USERS
  {
    hide Symmetric, Bounded, ReadyOk;
    var w := RegisterUser(v, u);
    if |v.users| < MAX_USERS {
      RegisterLists(v, u);
      RegisterBounds(v, u);
      ReadySame(v, w);
      assert w.joined.Keys == w.users;
    } else {
      assert u in w.joined.Keys && u !in w.users;
    }
  }

  lemma ReadySame(v: View, w: View)
    requires ReadyOk(v) && w.ready == v.ready && w.queues == v.queues && w.channels == v.channels
    ensures ReadyOk(w)
  {
  }

  /** A user and a channel that do not know each other are entered in both lists, unless the
      user's list is full: then only the channel's list changes. */
  lemma EnterKeeps(v: View, c: Name, u: Name)
    requires v.joined.Keys == v.users && v.members.Keys == v.channels
    requires Symmetric(v) && Bounded(v)
    requires u in v.joined && c in v.members && u !in v.members[c] && |v.members[c]| < MAX_USERS_PER_CHANNEL
    ensures var w := Enter(v, c, u);
            |v.joined[u]| < MAX_CHANNELS_PER_USER ==>
              && Symmetric(w) && Bounded(w)
              && w.joined.Keys == v.users && w.members.Keys == v.channels && w.members[c] != []
    ensures |v.joined[u]| >= MAX_CHANNELS_PER_USER ==> !Symmetric(Enter(v, c, u))
  {
    var w := Enter(v, c, u);
    assert !InUserList(v, u, c) by {
      assert !IsMember(v, c, u);
    }
    NoDupAppend(v.members[c], u);
    NoDupAppend(v.joined[u], c);
    if |v.joined[u]| >= MAX_CHANNELS_PER_USER {
      assert IsMember(w, c, u) && !InUserList(w, u, c);
    } else {
      forall x, d
        ensures InUserList(w, x, d) <==> IsMember(w, d, x)
      {
        assert InUserList(v, x, d) <==> IsMember(v, d, x);
      }
    }
  }

  lemma PostReady(v: View, c: Name, m: string)
    requires ReadyOk(v) && c in v.channels
    requires forall d <- v.queues :: |v.queues[d]| <= MAX_USERS_PER_CHANNEL
    ensures var w := Post(v, c, m);
            && ReadyOk(w) && (forall d <- w.queues :: |w.queues[d]| <= MAX_USERS_PER_CHANNEL)
            && w.queues.Keys == v.queues.Keys + {c}
            && c in w.ready && w.queues[c] == Push(Get(v.queues, c), m)
  {
    if c !in v.ready {
      NoDupAppend(v.ready, c);
    }
  }

  lemma PostKeeps(v: View, c: Name, m: string)
    requires Inv(v) && c in v.channels
    ensures Inv(Post(v, c, m))
  {
    hide ReadyOk;
    PostReady(v, c, m);
    var w := Post(v, c, m);
    assert w.queues.Keys == v.queues.Keys;
    SameLists(v, w);
  }

  lemma SameLists(v: View, w: View)
    requires Symmetric(v) && w.joined == v.joined && w.members == v.members
    ensures Symmetric(w)
  {
    forall u, c
      ensures InUserList(w, u, c) <==> IsMember(w, c, u)
    {
      assert InUserList(v, u, c) <==> IsMember(v, c, u);
    }
  }

  /** Leaving takes one pair out of the relation and nothing else. */
  lemma LeaveLists(v: View, c: Name, u: Name)
    requires Symmetric(v) && Bounded(v) && c in v.members && u in v.joined
    ensures var w := Leave(v, c, u);
            && Symmetric(w) && Bounded(w)
            && w.joined.Keys == v.joined.Keys && w.members.Keys == v.members.Keys
            && forall x, d :: IsMember(w, d, x) <==> IsMember(v, d, x) && !(x == u && d == c)
  {
    var w := Leave(v, c, u);
    DropNoDup(v.members[c], u);
    DropNoDup(v.joined[u], c);
    forall x, d
      ensures InUserList(w, x, d) <==> IsMember(w, d, x)
      ensures IsMember(w, d, x) <==> IsMember(v, d, x) && !(x == u && d == c)
    {
      assert InUserList(v, x, d) <==> IsMember(v, d, x);
    }
  }

  lemma RemoveReady(v: View, c: Name)
    requires ReadyOk(v)
    ensures var w := RemoveChannel(v, c);
            && ReadyOk(w)
            && (forall d :: d in w.ready <==> d in v.ready && d != c)
  {
    DropNoDup(v.ready, c);
  }

  lemma RemoveLists(v: View, c: Name)
    requires Symmetric(v) && Bounded(v) && Get(v.members, c) == []
    ensures var w := RemoveChannel(v, c);
            && Symmetric(w) && Bounded(w)
            && forall x, d :: IsMember(w, d, x) <==> IsMember(v, d, x)
  {
    var w := RemoveChannel(v, c);
    assert w.channels == v.channels - {c};
    SubsetSize(w.channels, v.channels);
    forall x, d
      ensures InUserList(w, x, d) <==> IsMember(w, d, x)
      ensures IsMember(w, d, x) <==> IsMember(v, d, x)
    {
      assert InUserList(v, x, d) <==> IsMember(v, d, x);
    }
  }

  lemma {:induction false} SubsetSize(a: set<Name>, b: set<Name>)
    requires a <= b
    ensures |a| <= |b|
  {
    if a != {} {
      var x :| x in a;
      SubsetSize(a - {x}, b - {x});
    }
  }

  /** One member leaves one channel. */
  lemma LeaveOneKeeps(v: View, c: Name, u: Name, m: string)
    requires Inv(v) && c in v.channels && IsMember(v, c, u)
    ensures var w := LeaveOne(v, c, u, m);
            && Inv(w)
            && w.users == v.users && w.joined == v.joined[u := Drop(v.joined[u], c)]
            && (forall x, d :: IsMember(w, d, x) <==> IsMember(v, d, x) && !(x == u && d == c))
  {
    hide Symmetric, Bounded, ReadyOk;
    assert InUserList(v, u, c) by { Mutual(v, u, c); }
    var x := Leave(v, c, u);
    LeaveLists(v, c, u);
    ReadySame(v, x);
    if Get(x.members, c) == [] {
      RemoveLists(x, c);
      RemoveReady(x, c);
    } else {
      assert Inv(x);
      PostKeeps(x, c, m);
    }
  }

  lemma Mutual(v: View, u: Name, c: Name)
    requires Symmetric(v)
    ensures InUserList(v, u, c) <==> IsMember(v, c, u)
  {
  }

  lemma DropOnly<T>(s: seq<T>, x: T)
    requires NoDup(s) && x in s
    ensures Drop(s, x) == [] <==> s == [x]
  {
    if Drop(s, x) == [] {
      assert s[1..] == [];
    }
  }

  /** A message has become the newest of a queue; the oldest one goes when there is no place. */
  ghost predicate Newest(before: seq<string>, after: seq<string>, m: string)
  {
    && after != [] && after[|after| - 1] == m
    && after[..|after| - 1] == if |before| == MAX_USERS_PER_CHANNEL then before[1..] else before
  }

  lemma PushNewest(q: seq<string>, m: string)
    ensures Newest(q, Push(q, m), m)
    ensures forall r :: Newest(q, r, m) ==> r == Push(q, m)
  {
    forall r | Newest(q, r, m)
      ensures r == Push(q, m)
    {
      assert r == r[..|r| - 1] + [m];
    }
  }

  /** `w` is `v` after user `u` has left the channels `cs`: those where the user was alone are
      gone from every table and list, the others lack the user, have the message newest in
      their queue and are ready; nothing else has changed. */
  ghost predicate Left(v: View, w: View, cs: seq<Name>, u: Name, m: string)
  {
    && w.users == v.users
    && (forall d :: d in w.channels <==> d in v.channels && !(d in cs && Get(v.members, d) == [u]))
    && (forall d <- w.channels ::
          && Get(w.members, d) == (if d in cs then Drop(Get(v.members, d), u) else Get(v.members, d))
          && (if d in cs then Newest(Get(v.queues, d), Get(w.queues, d), m) else Get(w.queues, d) == Get(v.queues, d))
          && (d in w.ready <==> d in v.ready || d in cs))
    && (forall x :: x != u ==> Get(w.joined, x) == Get(v.joined, x))
  }

  lemma LeaveOneLeft(v: View, c: Name, u: Name, m: string)
    requires Inv(v) && c in v.channels && IsMember(v, c, u)
    ensures Left(v, LeaveOne(v, c, u, m), [c], u, m)
  {
    hide Symmetric;
    var x := Leave(v, c, u);
    assert NoDup(v.members[c]);
    DropOnly(v.members[c], u);
    assert Get(x.members, c) == [] <==> Get(v.members, c) == [u];
    if Get(x.members, c) == [] {
      RemovedLeft(v, c, u, m);
    } else {
      PostedLeft(v, c, u, m);
    }
  }

  lemma RemovedLeft(v: View, c: Name, u: Name, m: string)
    requires c in v.channels && Get(v.members, c) == [u] && NoDup(v.ready)
    ensures Left(v, RemoveChannel(Leave(v, c, u), c), [c], u, m)
  {
    DropNoDup(v.ready, c);
  }

  lemma PostedLeft(v: View, c: Name, u: Name, m: string)
    requires c in v.channels && Get(v.members, c) != [u]
    ensures Left(v, Post(Leave(v, c, u), c, m), [c], u, m)
  {
    hide Drop, Push, Newest;
    PushNewest(Get(v.queues, c), m);
  }

  lemma LeftThen(v: View, x: View, w: View, c: Name, cs: seq<Name>, u: Name, m: string)
    requires Left(v, x, [c], u, m) && Left(x, w, cs, u, m) && c !in cs
    ensures Left(v, w, [c] + cs, u, m)
  {
    hide Newest, Drop;
    assert forall d :: d in [c] + cs <==> d == c || d in cs;
  }

  /** One turn of leave_all_channels. */
  lemma LeaveNext(v: View, u: Name, m: string)
    requires Inv(v) && u in v.users && v.joined[u] != []
    ensures var c, cs := v.joined[u][0], v.joined[u][1..]; var x := LeaveOne(v, c, u, m);
            && Inv(x) && u in x.users && u in x.joined && x.joined == v.joined[u := cs]
            && Left(v, x, [c], u, m) && c !in cs
  {
    hide Left, Inv, LeaveOne, Drop;
    InUsers(v, u);
    FirstJoined(v, u);
    LeaveOneKeeps(v, v.joined[u][0], u, m);
    LeaveOneLeft(v, v.joined[u][0], u, m);
  }

  /** leave_all_channels, for every session and user. */
  lemma {:induction false} LeaveEachLeft(v: View, cs: seq<Name>, u: Name, m: string)
    requires Inv(v) && u in v.users && cs == v.joined[u]
    ensures var w := LeaveEach(v, cs, u, m);
            Inv(w) && w.joined == v.joined[u := []] && Left(v, w, cs, u, m)
    decreases |cs|
  {
    hide Left, Inv, LeaveOne;
    if cs == [] {
      LeftNone(v, u, m);
    } else {
      var c, x := cs[0], LeaveOne(v, cs[0], u, m);
      LeaveNext(v, u, m);
      LeaveEachLeft(x, cs[1..], u, m);
      LeftThen(v, x, LeaveEach(v, cs, u, m), c, cs[1..], u, m);
      assert [c] + cs[1..] == cs;
    }
  }

  lemma InUsers(v: View, u: Name)
    requires Inv(v) && u in v.users
    ensures u in v.joined
  {
  }

  lemma LeftNone(v: View, u: Name, m: string)
    requires Inv(v) && u in v.users && v.joined[u] == []
    ensures Left(v, v, [], u, m) && v.joined == v.joined[u := []]
  {
  }

  lemma FirstJoined(v: View, u: Name)
    requires Inv(v) && u in v.users && v.joined[u] != []
    ensures var cs := v.joined[u];
            && cs[0] in v.channels && IsMember(v, cs[0], u)
            && cs[0] !in cs[1..] && Drop(cs, cs[0]) == cs[1..]
  {
    Mutual(v, u, v.joined[u][0]);
  }

  /** After leave_all_channels the user's list is empty and the user is in no channel; every
      other user's list is as it was. */
  lemma LeaveAllLeft(v: View, u: Name, m: string)
    requires Inv(v) && u in v.users
    ensures var w := LeaveAll(v, u, m);
            && Inv(w) && w.joined == v.joined[u := []] && Left(v, w, v.joined[u], u, m)
            && forall d, x :: IsMember(w, d, x) <==> IsMember(v, d, x) && x != u
  {
    var w := LeaveAll(v, u, m);
    LeaveEachLeft(v, v.joined[u], u, m);
    forall d, x
      ensures IsMember(w, d, x) <==> IsMember(v, d, x) && x != u
    {
      Mutual(v, x, d);
      Mutual(w, x, d);
    }
  }

  lemma QuitKeeps(v: View, u: Name, m: string)
    requires Inv(v) && u in v.users
    ensures Inv(Apply(v, Quit(u, m)))
  {
    var x := LeaveAll(v, u, m);
    LeaveAllLeft(v, u, m);
    UnregisterKeeps(x, u);
  }

  lemma UnregisterKeeps(v: View, u: Name)
    requires Inv(v) && u in v.users && v.joined[u] == []
    ensures Inv(UnregisterUser(v, u))
  {
    var w := UnregisterUser(v, u);
    SubsetSize(w.users, v.users);
    forall x, c
      ensures InUserList(w, x, c) <==> IsMember(w, c, x)
    {
      Mutual(v, x, c);
    }
  }

  lemma NewChannelLists(v: View, c: Name)
    requires Symmetric(v) && c !in v.members
    ensures Symmetric(NewChannel(v, c))
  {
    var w := NewChannel(v, c);
    forall x, d
      ensures InUserList(w, x, d) <==> IsMember(w, d, x)
    {
      Mutual(v, x, d);
    }
  }

  lemma NewChannelBounds(v: View, c: Name)
    requires Bounded(v) && ReadyOk(v) && |v.channels| < MAX_CHANNELS && c !in v.channels
    ensures Bounded(NewChannel(v, c)) && ReadyOk(NewChannel(v, c))
  {
  }

  lemma NewChannelReady(v: View, c: Name)
    requires Inv(v) && c !in v.channels && |v.channels| < MAX_CHANNELS
    ensures var w := NewChannel(v, c);
            && w.joined.Keys == w.users && w.members.Keys == w.channels == w.queues.Keys == v.channels + {c}
            && Symmetric(w) && Bounded(w) && ReadyOk(w)
  {
    hide Symmetric, Bounded, ReadyOk;
    NewChannelLists(v, c);
    NewChannelBounds(v, c);
  }

  /** A join keeps the invariant if and only if there is room for it; without a place in the
      channel table it ends the program. */
  lemma JoinKeeps(v: View, u: Name, c: Name, m: string)
    requires Inv(v) && u in v.users
    ensures Inv(Apply(v, Join(u, c, m))) <==> Room(v, Join(u, c, m))
    ensures Apply(v, Join(u, c, m)).running <==>
            c in v.channels || !ValidChannelName(c) || |v.channels| < MAX_CHANNELS
  {
    if c !in v.channels {
      if ValidChannelName(c) && |v.channels| < MAX_CHANNELS {
        JoinNewKeeps(v, u, c, m);
      }
    } else if !IsMember(v, c, u) && |v.members[c]| < MAX_USERS_PER_CHANNEL {
      JoinExistingKeeps(v, u, c, m);
    }
  }

  lemma JoinExistingKeeps(v: View, u: Name, c: Name, m: string)
    requires Inv(v) && u in v.users && c in v.channels && !IsMember(v, c, u)
    requires |v.members[c]| < MAX_USERS_PER_CHANNEL
    ensures Inv(Post(Enter(v, c, u), c, m)) <==> |v.joined[u]| < MAX_CHANNELS_PER_USER
  {
    hide Symmetric, Bounded, ReadyOk;
    var w := Enter(v, c, u);
    EnterKeeps(v, c, u);
    if |v.joined[u]| < MAX_CHANNELS_PER_USER {
      ReadySame(v, w);
      PostKeeps(w, c, m);
    } else {
      if Symmetric(Post(w, c, m)) {
        SameLists(Post(w, c, m), w);
      }
    }
  }

  lemma JoinNewKeeps(v: View, u: Name, c: Name, m: string)
    requires Inv(v) && u in v.users && c !in v.channels && |v.channels| < MAX_CHANNELS
    ensures Inv(Post(Enter(NewChannel(v, c), c, u), c, m)) <==> |v.joined[u]| < MAX_CHANNELS_PER_USER
  {
    hide Symmetric, Bounded, ReadyOk;
    var x := NewChannel(v, c);
    var w := Enter(x, c, u);
    NewChannelReady(v, c);
    EnterKeeps(x, c, u);
    if |v.joined[u]| < MAX_CHANNELS_PER_USER {
      ReadySame(x, w);
      PostKeeps(w, c, m);
    } else if Symmetric(Post(w, c, m)) {
      SameLists(Post(w, c, m), w);
    }
  }

  lemma FlushKeeps(v: View)
    requires Inv(v)
    ensures Inv(Apply(v, Flush))
    ensures forall c <- v.queues :: Apply(v, Flush).queues[c] == []
  {
    SameLists(v, Apply(v, Flush));
  }

  /** Every command keeps the invariant if and only if there is room for what it adds. */
  lemma StepKeeps(v: View, s: Step)
    requires Inv(v) && Enabled(v, s)
    ensures Inv(Apply(v, s)) <==> Room(v, s)
  {
    hide Inv;
    match s
    case Register(u) => RegisterKeeps(v, u);
    case Join(u, c, m) => JoinKeeps(v, u, c, m);
    case Part(u, c, m) =>
      if c in v.channels && IsMember(v, c, u) {
        LeaveOneKeeps(v, c, u, m);
      }
    case PrivMsg(u, c, m) =>
      if c in v.channels && IsMember(v, c, u) {
        PostKeeps(v, c, m);
      }
    case Quit(u, m) => QuitKeeps(v, u, m);
    case Flush => FlushKeeps(v);
  }

  /** Every command of the run is enabled where it is reached. */
  predicate AllEnabled(v: View, steps: seq<Step>)
    decreases |steps|
  {
    steps != [] ==> Enabled(v, steps[0]) && AllEnabled(Apply(v, steps[0]), steps[1..])
  }

  predicate AllRoom(v: View, steps: seq<Step>)
    decreases |steps|
  {
    steps != [] ==> Room(v, steps[0]) && AllRoom(Apply(v, steps[0]), steps[1..])
  }

  /** The invariant holds after every command of a run. */
  ghost predicate AlwaysInv(v: View, steps: seq<Step>)
    decreases |steps|
  {
    Inv(v) && (steps != [] ==> AlwaysInv(Apply(v, steps[0]), steps[1..]))
  }

  /** In every run, from every consistent session, the invariant holds all along if and only
      if no command runs out of room. */
  lemma {:induction false} RunKeeps(v: View, steps: seq<Step>)
    requires Inv(v) && AllEnabled(v, steps)
    ensures AlwaysInv(v, steps) <==> AllRoom(v, steps)
    ensures AllRoom(v, steps) ==> Inv(Run(v, steps))
    decreases |steps|
  {
    hide Inv, Apply, Enabled, Room;
    if steps != [] {
      StepKeeps(v, steps[0]);
      if Room(v, steps[0]) {
        RunKeeps(Apply(v, steps[0]), steps[1..]);
      } else {
        NotAlways(v, steps);
      }
    }
  }

  lemma NotAlways(v: View, steps: seq<Step>)
    requires steps != [] && !Inv(Apply(v, steps[0]))
    ensures !AlwaysInv(v, steps)
  {
  }

  lemma EmptySession()
    ensures Inv(EMPTY)
  {
  }

  /** The run that a user sees, from a server that has just started. */
  lemma RunFromStart(steps: seq<Step>)
    requires AllEnabled(EMPTY, steps)
    ensures AlwaysInv(EMPTY, steps) <==> AllRoom(EMPTY, steps)
  {
    hide Inv, Apply, Enabled, Room;
    EmptySession();
    RunKeeps(EMPTY, steps);
  }
}
