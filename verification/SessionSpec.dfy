/** What the server remembers about users and channels, seen through their names, and what
    every command does to it. */
module SessionSpec {
  import opened Common
  import Queues

  const MAX_USERS: nat := 1024
  const MAX_CHANNELS: nat := 100
  const MAX_CHANNELS_PER_USER: nat := 5
  const MAX_USERS_PER_CHANNEL: nat := 100

  type Name = string

  /** Whether the server runs, the two tables, the UserChannels and ChannelUsers records, the
      ready channels, and the messages queued for each channel, oldest first. */
  datatype View = View(
    running: bool,
    users: set<Name>,
    channels: set<Name>,
    joined: map<Name, seq<Name>>,
    members: map<Name, seq<Name>>,
    ready: seq<Name>,
    queues: map<Name, seq<string>>)

  const EMPTY: View := View(true, {}, {}, map[], map[], [], map[])

  // ----- sequences of names

  /** Without the first occurrence of `x`. */
  function Drop<T(==)>(s: seq<T>, x: T): seq<T>
  {
    if s == [] then [] else if s[0] == x then s[1..] else [s[0]] + Drop(s[1..], x)
  }

  lemma {:induction false} DropNoDup<T>(s: seq<T>, x: T)
    requires NoDup(s)
    ensures NoDup(Drop(s, x))
    ensures forall y :: y in Drop(s, x) <==> y in s && y != x
    ensures |Drop(s, x)| == |s| - (if x in s then 1 else 0)
  {
    if s != [] {
      var t := s[1..];
      assert forall y :: y in s <==> y == s[0] || y in t;
      assert s[0] !in t;
      DropNoDup(t, x);
    }
  }

  function Get<V>(m: map<Name, seq<V>>, k: Name): seq<V>
  {
    if k in m then m[k] else []
  }

  // ----- the operations

  /** A channel's queue has a place for every member, and drops its oldest message when full. */
  function Push(q: seq<string>, m: string): seq<string>
  {
    Queues.Push(q, m, MAX_USERS_PER_CHANNEL)
  }

  function RegisterUser(v: View, u: Name): View
  {
    v.(users := if |v.users| < MAX_USERS then v.users + {u} else v.users, joined := v.joined[u := []])
  }

  function UnregisterUser(v: View, u: Name): View
  {
    v.(users := v.users - {u}, joined := v.joined - {u})
  }

  /** add_user_to_channel_users and add_channel_to_user_channels: each stops at its capacity. */
  function Enter(v: View, c: Name, u: Name): View
  {
    v.(members := if |Get(v.members, c)| < MAX_USERS_PER_CHANNEL then v.members[c := Get(v.members, c) + [u]] else v.members,
       joined := if |Get(v.joined, u)| < MAX_CHANNELS_PER_USER then v.joined[u := Get(v.joined, u) + [c]] else v.joined)
  }

  function NewChannel(v: View, c: Name): View
  {
    v.(channels := v.channels + {c},
       members := v.members[c := []],
       queues := v.queues[c := []])
  }

  /** A channel that did not enter the full table is looked up, and the lookup of its users ends
      the program. */
  function Exit(v: View): View
  {
    v.(running := false)
  }

  function Leave(v: View, c: Name, u: Name): View
  {
    v.(members := v.members[c := Drop(Get(v.members, c), u)],
       joined := v.joined[u := Drop(Get(v.joined, u), c)])
  }

  function RemoveChannel(v: View, c: Name): View
  {
    v.(ready := Drop(v.ready, c), members := v.members - {c}, channels := v.channels - {c}, queues := v.queues - {c})
  }

  /** enqueue_to_channel_queue and add_channel_to_ready_list. */
  function Post(v: View, c: Name, m: string): View
  {
    v.(queues := v.queues[c := Push(Get(v.queues, c), m)],
       ready := if c in v.ready then v.ready else v.ready + [c])
  }

  /** A member goes: the channel goes with its last one, or hears about it. */
  function LeaveOne(v: View, c: Name, u: Name, m: string): View
  {
    var w := Leave(v, c, u);
    if Get(w.members, c) == [] then RemoveChannel(w, c) else Post(w, c, m)
  }

  function LeaveEach(v: View, cs: seq<Name>, u: Name, m: string): View
    decreases |cs|
  {
    if cs == [] then v else LeaveEach(LeaveOne(v, cs[0], u, m), cs[1..], u, m)
  }

  function LeaveAll(v: View, u: Name, m: string): View
  {
    LeaveEach(v, Get(v.joined, u), u, m)
  }

  // ----- the commands

  const MAX_CHANNEL_LEN: nat := 50

  predicate IsAlnum(ch: char)
  {
    '0' <= ch <= '9' || 'A' <= ch <= 'Z' || 'a' <= ch <= 'z'
  }

  predicate ValidChannelName(c: Name)
  {
    && 0 < |c| <= MAX_CHANNEL_LEN && c[0] == '#'
    && forall ch <- c :: IsAlnum(ch) || ch in "#-_\\[]{}|^~"
  }

  datatype Step =
    | Register(nick: Name)
    | Join(nick: Name, channel: Name, text: string)
    | Part(nick: Name, channel: Name, text: string)
    | PrivMsg(nick: Name, channel: Name, text: string)
    | Quit(nick: Name, text: string)
    | Flush

  predicate IsMember(v: View, c: Name, u: Name)
  {
    u in Get(v.members, c)
  }

  function Apply(v: View, s: Step): View
  {
    match s
    case Register(u) => RegisterUser(v, u)
    case Join(u, c, m) =>
      if c !in v.channels then
        if !ValidChannelName(c) then v
        else if |v.channels| >= MAX_CHANNELS then Exit(v)
        else Post(Enter(NewChannel(v, c), c, u), c, m)
      else if IsMember(v, c, u) || |Get(v.members, c)| == MAX_USERS_PER_CHANNEL then v
      else Post(Enter(v, c, u), c, m)
    case Part(u, c, m) => if c in v.channels && IsMember(v, c, u) then LeaveOne(v, c, u, m) else v
    case PrivMsg(u, c, m) => if c in v.channels && IsMember(v, c, u) then Post(v, c, m) else v
    case Quit(u, m) => UnregisterUser(LeaveAll(v, u, m), u)
    case Flush => v.(ready := [], queues := map c <- v.queues :: if c in v.ready then [] else v.queues[c])
  }

  function Run(v: View, steps: seq<Step>): View
    decreases |steps|
  {
    if steps == [] then v else Run(Apply(v, steps[0]), steps[1..])
  }

  // ----- the invariant

  predicate InUserList(v: View, u: Name, c: Name)
  {
    c in Get(v.joined, u)
  }

  /** Each user's list holds a channel exactly when the channel's list holds the user. */
  ghost predicate Symmetric(v: View)
  {
    forall u, c :: InUserList(v, u, c) <==> IsMember(v, c, u)
  }

  ghost predicate Bounded(v: View)
  {
    && |v.users| <= MAX_USERS && |v.channels| <= MAX_CHANNELS
    && (forall u <- v.joined :: NoDup(v.joined[u]) && |v.joined[u]| <= MAX_CHANNELS_PER_USER)
    && (forall c <- v.members :: NoDup(v.members[c]) && |v.members[c]| <= MAX_USERS_PER_CHANNEL)
    && (forall c <- v.queues :: |v.queues[c]| <= MAX_USERS_PER_CHANNEL)
  }

  /** The ready list names, each once, exactly the live channels with something to say. */
  ghost predicate ReadyOk(v: View)
  {
    && NoDup(v.ready)
    && (forall c <- v.ready :: c in v.channels)
    && (forall c <- v.queues :: v.queues[c] != [] <==> c in v.ready)
  }

  /** Between two commands: the server runs, tables and records match, no channel is empty. */
  ghost predicate Inv(v: View)
  {
    && v.running
    && v.joined.Keys == v.users && v.members.Keys == v.channels == v.queues.Keys
    && (forall c <- v.members :: v.members[c] != [])
    && Symmetric(v) && Bounded(v) && ReadyOk(v)
  }

  /** What the handlers and their callers guarantee before a command runs. */
  predicate Enabled(v: View, s: Step)
  {
    v.running &&
    match s
    case Register(u) => u !in v.users
    case Join(u, _, _) => u in v.users
    case Part(u, _, _) => u in v.users
    case PrivMsg(u, _, _) => u in v.users
    case Quit(u, _) => u in v.users
    case Flush => true
  }

  /** What no handler checks: there is a place in every table and list the command adds to. */
  predicate Room(v: View, s: Step)
  {
    match s
    case Register(u) => |v.users| < MAX_USERS
    case Join(u, c, _) =>
      if c !in v.channels then
        ValidChannelName(c) ==> |v.channels| < MAX_CHANNELS && |Get(v.joined, u)| < MAX_CHANNELS_PER_USER
      else IsMember(v, c, u) || |Get(v.members, c)| == MAX_USERS_PER_CHANNEL || |Get(v.joined, u)| < MAX_CHANNELS_PER_USER
    case _ => true
  }
}
