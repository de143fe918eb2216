/** The states a client goes through, and the commands and changes the server allows in them. */
module SessionStates {
  import opened Common

  const DISCONNECTED: int := 0
  const CONNECTED: int := 1
  const START_REGISTRATION: int := 2
  const REGISTERED: int := 3
  const IN_CHANNEL: int := 4
  const UNKNOWN_SESSION_STATE_TYPE: int := 5
  const SESSION_STATE_TYPE_COUNT: int := 6

  const CONNECT: int := 1
  const NICK: int := 3
  const USER: int := 4
  const JOIN: int := 5
  const PART: int := 6
  const PRIVMSG: int := 7
  const WHOIS: int := 10
  const QUIT: int := 11
  const COMMAND_TYPE_COUNT: int := 13
  const MAX_STATE_CMDS: int := 12

  /** Both lists end at their first UNASSIGNED. */
  datatype SessionState = SessionState(initialState: int, transitionalStates: seq<int>, cmdTypes: seq<int>)

  const SERVER_STATES: seq<SessionState> := [
    SessionState(DISCONNECTED, [CONNECTED, UNASSIGNED], [CONNECT, UNASSIGNED]),
    SessionState(CONNECTED, [START_REGISTRATION, DISCONNECTED, UNASSIGNED], [NICK, QUIT, UNASSIGNED]),
    SessionState(START_REGISTRATION, [REGISTERED, DISCONNECTED, UNASSIGNED], [USER, QUIT, UNASSIGNED]),
    SessionState(REGISTERED, [IN_CHANNEL, DISCONNECTED, UNASSIGNED], [NICK, JOIN, PRIVMSG, WHOIS, QUIT, UNASSIGNED]),
    SessionState(IN_CHANNEL, [REGISTERED, DISCONNECTED, UNASSIGNED], [NICK, JOIN, PRIVMSG, PART, WHOIS, QUIT, UNASSIGNED])
  ]

  predicate IsValidEnumType(x: int, count: int)
  {
    0 <= x < count
  }

  /** `x` stands in the list before its end. */
  predicate Listed(s: seq<int>, x: int)
  {
    s != [] && s[0] != UNASSIGNED && (s[0] == x || Listed(s[1..], x))
  }

  predicate Terminated(states: seq<SessionState>)
  {
    forall s <- states ::
      && UNASSIGNED in s.transitionalStates && |s.transitionalStates| <= SESSION_STATE_TYPE_COUNT
      && UNASSIGNED in s.cmdTypes && |s.cmdTypes| <= MAX_STATE_CMDS
  }

  /** The table has an entry for every state that a client can be in. */
  method IsAllowedStateTransition(states: seq<SessionState>, initial: int, next: int) returns (allowed: bool)
    requires |states| == UNKNOWN_SESSION_STATE_TYPE && Terminated(states)
    requires initial != UNKNOWN_SESSION_STATE_TYPE
    ensures allowed <==>
              && 0 <= initial < UNKNOWN_SESSION_STATE_TYPE && IsValidEnumType(next, SESSION_STATE_TYPE_COUNT)
              && Listed(states[initial].transitionalStates, next)
  {
    allowed := false;
    if IsValidEnumType(initial, SESSION_STATE_TYPE_COUNT) && IsValidEnumType(next, SESSION_STATE_TYPE_COUNT) {
      assert states[initial] in states;
      allowed := FindListed(states[initial].transitionalStates, SESSION_STATE_TYPE_COUNT, next);
    }
  }

  method IsAllowedStateCommand(states: seq<SessionState>, initial: int, cmd: int) returns (allowed: bool)
    requires |states| == UNKNOWN_SESSION_STATE_TYPE && Terminated(states)
    ensures allowed <==>
              && 0 <= initial < UNKNOWN_SESSION_STATE_TYPE && IsValidEnumType(cmd, COMMAND_TYPE_COUNT)
              && Listed(states[initial].cmdTypes, cmd)
  {
    allowed := false;
    if IsValidEnumType(initial, SESSION_STATE_TYPE_COUNT) && IsValidEnumType(cmd, COMMAND_TYPE_COUNT)
       && initial < |states| {
      assert states[initial] in states;
      allowed := FindListed(states[initial].cmdTypes, MAX_STATE_CMDS, cmd);
    }
  }

  /** The loop of both: at most `size` entries, up to the first UNASSIGNED. */
  method FindListed(s: seq<int>, size: int, x: int) returns (found: bool)
    requires UNASSIGNED in s && |s| <= size && x != UNASSIGNED
    ensures found <==> Listed(s, x)
  {
    found := false;
    var i := 0;
    assert s[0..] == s;
    while i < size && s[i] != UNASSIGNED
      invariant 0 <= i < |s| && UNASSIGNED in s[i..]
      invariant Listed(s, x) <==> Listed(s[i..], x)
      decreases |s| - i
    {
      assert s[i..][1..] == s[i + 1..];
      if s[i] == x {
        found := true;
        break;
      }
      i := i + 1;
    }
  }

  /** The edges of the server's table, said without the table: one step forward, back to
      disconnected, or out of the channels. */
  predicate Edge(a: int, b: int)
  {
    || (DISCONNECTED <= a < IN_CHANNEL && b == a + 1)
    || (DISCONNECTED < a <= IN_CHANNEL && b == DISCONNECTED)
    || (a == IN_CHANNEL && b == REGISTERED)
  }

  lemma ServerEdges(a: int, b: int)
    requires 0 <= a < UNKNOWN_SESSION_STATE_TYPE
    ensures Listed(SERVER_STATES[a].transitionalStates, b) <==> Edge(a, b)
  {
    var s := SERVER_STATES[a].transitionalStates;
    ListedIn(s, b);
    assert s[..|s| - 1] == if a == DISCONNECTED then [CONNECTED]
                           else if a == IN_CHANNEL then [REGISTERED, DISCONNECTED] else [a + 1, DISCONNECTED];
  }

  lemma ServerTable()
    ensures |SERVER_STATES| == UNKNOWN_SESSION_STATE_TYPE && Terminated(SERVER_STATES)
  {
    forall s | s in SERVER_STATES
      ensures UNASSIGNED in s.transitionalStates && UNASSIGNED in s.cmdTypes
    {
      assert s.transitionalStates[|s.transitionalStates| - 1] == UNASSIGNED;
      assert s.cmdTypes[|s.cmdTypes| - 1] == UNASSIGNED;
    }
  }

  /** Where the server accepts the commands that change a client's state. */
  lemma ServerCommands(a: int)
    requires 0 <= a < UNKNOWN_SESSION_STATE_TYPE
    ensures Listed(SERVER_STATES[a].cmdTypes, NICK) <==> a in {CONNECTED, REGISTERED, IN_CHANNEL}
    ensures Listed(SERVER_STATES[a].cmdTypes, USER) <==> a == START_REGISTRATION
    ensures Listed(SERVER_STATES[a].cmdTypes, JOIN) <==> a in {REGISTERED, IN_CHANNEL}
    ensures Listed(SERVER_STATES[a].cmdTypes, PART) <==> a == IN_CHANNEL
  {
    hide Listed;
    var s := SERVER_STATES[a].cmdTypes;
    assert s[..|s| - 1] == if a == DISCONNECTED then [CONNECT]
                           else if a == CONNECTED then [NICK, QUIT]
                           else if a == START_REGISTRATION then [USER, QUIT]
                           else if a == REGISTERED then [NICK, JOIN, PRIVMSG, WHOIS, QUIT]
                           else [NICK, JOIN, PRIVMSG, PART, WHOIS, QUIT];
    ListedIn(s, NICK);
    ListedIn(s, USER);
    ListedIn(s, JOIN);
    ListedIn(s, PART);
  }

  lemma {:induction false} ListedIn(s: seq<int>, x: int)
    requires s != [] && s[|s| - 1] == UNASSIGNED && UNASSIGNED !in s[..|s| - 1]
    ensures Listed(s, x) <==> x in s[..|s| - 1]
  {
    var before := s[..|s| - 1];
    if |s| > 1 {
      assert before == [s[0]] + before[1..];
      assert s[1..][..|s| - 2] == before[1..];
      ListedIn(s[1..], x);
    }
  }
}
