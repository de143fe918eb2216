/** The server's client slots: which slot holds which connection, and in what state. */
module TcpServers {
  import opened Common
  import opened HashTables
  import opened FdIndex
  import S = SessionStates

  class Client {
    var fd: int
    var stateType: int

    constructor ()
      ensures fd == UNASSIGNED && stateType == S.DISCONNECTED
    {
      fd, stateType := UNASSIGNED, S.DISCONNECTED;
    }
  }

  /** The client of a slot gets a descriptor, and the next state when the server's table has
      that edge. */
  method SetClientData(client: Client, fd: int, next: int)
    requires 0 <= client.stateType < S.UNKNOWN_SESSION_STATE_TYPE
    requires 0 <= next < S.UNKNOWN_SESSION_STATE_TYPE
    modifies client
    ensures client.fd == fd
    ensures client.stateType == if S.Edge(old(client.stateType), next) then next else old(client.stateType)
  {
    hide S.Listed, S.Terminated;
    client.fd := fd;
    S.ServerTable();
    S.ServerEdges(client.stateType, next);
    var allowed := S.IsAllowedStateTransition(S.SERVER_STATES, client.stateType, next);
    if allowed {
      client.stateType := next;
    }
  }

  class TcpServer {
    const clients: seq<Client>
    const fdsIdxMap: HashTable<int, int>
    var count: int
    ghost var fds: seq<int>

    ghost predicate Valid()
      reads this, clients, fdsIdxMap, fdsIdxMap.Repr
    {
      && this !in fdsIdxMap.Repr && (forall i :: 0 <= i < |clients| ==> clients[i] !in fdsIdxMap.Repr)
      && (forall i, j :: 0 <= i < j < |clients| ==> clients[i] != clients[j])
      && fdsIdxMap.Valid() && fdsIdxMap.items.Length == |clients|
      && |fds| == |clients| && (forall i :: 0 <= i < |clients| ==> SlotOk(i))
      && Indexed(fds, fdsIdxMap.M) && count == Occupied(fds)
    }

    /** A slot is free exactly when its client is disconnected. */
    ghost predicate SlotOk(i: nat)
      requires i < |clients| && i < |fds|
      reads this, clients
    {
      && clients[i].fd == fds[i]
      && S.DISCONNECTED <= clients[i].stateType <= S.IN_CHANNEL
      && (fds[i] == UNASSIGNED <==> clients[i].stateType == S.DISCONNECTED)
    }

    /** The client at `i` kept its state or took an edge of the server's table; the others
        kept theirs. */
    twostate predicate StepAt(i: nat)
      reads clients
    {
      forall j :: 0 <= j < |clients| ==>
        if j == i then clients[j].stateType == old(clients[j].stateType) || S.Edge(old(clients[j].stateType), clients[j].stateType)
        else clients[j].stateType == old(clients[j].stateType)
    }

    constructor (clients: seq<Client>, hash: int -> nat)
      requires clients != [] && forall i, j :: 0 <= i < j < |clients| ==> clients[i] != clients[j]
      requires forall c <- clients :: c.fd == UNASSIGNED && c.stateType == S.DISCONNECTED
      ensures Valid() && this.clients == clients && fdsIdxMap.M == map[] && fresh(fdsIdxMap.Repr)
    {
      hide HashTable.Valid;
      this.clients := clients;
      fdsIdxMap := new HashTable(|clients|, hash);
      count := 0;
      fds := seq(|clients|, _ => UNASSIGNED);
      new;
      NoneOccupied(fds);
    }

    method FindClientFdIdx(fd: int) returns (index: int)
      requires Valid()
      ensures index == Scan(fds, fd)
    {
      hide Scan, Occupied, Indexed, HashTable.Valid;
      index := UNASSIGNED;
      for i := 0 to |clients|
        invariant index == UNASSIGNED && fd !in fds[..i]
      {
        assert SlotOk(i);
        if clients[i].fd == fd {
          index := i;
          break;
        }
        assert fds[..i + 1] == fds[..i] + [fds[i]];
      }
      ScanIs(fds, fd, if index == UNASSIGNED then |fds| else index);
    }

    /** add_client with a connection accepted on a fresh descriptor. */
    method AddClient(fd: int)
      requires Valid() && fd >= 0 && fd !in fdsIdxMap.M
      modifies this, clients, fdsIdxMap.Repr
      ensures Valid() && fresh(fdsIdxMap.Repr - old(fdsIdxMap.Repr))
      ensures var i := Scan(old(fds), UNASSIGNED);
              && (i == UNASSIGNED <==> old(count) == |clients|)
              && (i == UNASSIGNED ==> fds == old(fds) && fdsIdxMap.M == old(fdsIdxMap.M) && StepAt(|clients|))
              && (i != UNASSIGNED ==>
                    && fds == old(fds)[i := fd] && fdsIdxMap.M == old(fdsIdxMap.M)[fd := i]
                    && clients[i].stateType == S.CONNECTED && StepAt(i))
    {
      hide HashTable.Valid, Scan, Occupied, Indexed;
      FreeSlots(fds);
      if count != |clients| {
        RegisterConnection(fd);
      }
    }

    lemma FreeSlots(slots: seq<int>)
      ensures Scan(slots, UNASSIGNED) == UNASSIGNED <==> Occupied(slots) == |slots|
      ensures Occupied(slots) <= |slots|
    {
      FreeSlot(slots);
      assert Scan(slots, UNASSIGNED) != UNASSIGNED ==> UNASSIGNED in slots;
    }

    /** One slot has changed, and its client with it. */
    twostate lemma SlotChanged(i: nat)
      requires i < |clients| == |old(fds)| && fds == old(fds)[i := clients[i].fd]
      requires forall j :: 0 <= j < |clients| ==> old(SlotOk(j))
      requires forall j :: 0 <= j < |clients| && j != i ==> unchanged(clients[j])
      requires S.DISCONNECTED <= clients[i].stateType <= S.IN_CHANNEL
      requires clients[i].fd == UNASSIGNED <==> clients[i].stateType == S.DISCONNECTED
      requires clients[i].stateType == old(clients[i].stateType) || S.Edge(old(clients[i].stateType), clients[i].stateType)
      ensures forall j :: 0 <= j < |clients| ==> SlotOk(j)
      ensures StepAt(i)
    {
      forall j | 0 <= j < |clients|
        ensures SlotOk(j)
      {
        assert old(SlotOk(j));
      }
    }

    method RegisterConnection(fd: int)
      requires Valid() && fd >= 0 && fd !in fdsIdxMap.M && count < |clients|
      modifies this, clients, fdsIdxMap.Repr
      ensures Valid() && fresh(fdsIdxMap.Repr - old(fdsIdxMap.Repr))
      ensures var i := Scan(old(fds), UNASSIGNED);
              && i != UNASSIGNED
              && fds == old(fds)[i := fd] && fdsIdxMap.M == old(fdsIdxMap.M)[fd := i]
              && clients[i].stateType == S.CONNECTED && StepAt(i)
    {
      hide HashTable.Valid, Scan, Occupied, Indexed;
      FreeSlots(fds);
      var fdIdx := FindClientFdIdx(UNASSIGNED);
      RoomFor(fds, fdsIdxMap.M);
      Assigned(fds, fdsIdxMap.M, fdIdx, fd);
      OccupiedUpdate(fds, fdIdx, fd);
      var item := new HashItem(fd, fdIdx);
      var inserted := fdsIdxMap.Insert(item);
      assert old(SlotOk(fdIdx));
      SetClientData(clients[fdIdx], fd, S.CONNECTED);
      count, fds := count + 1, fds[fdIdx := fd];
      SlotChanged(fdIdx);
    }

    /** remove_client of a registered descriptor. */
    method RemoveClient(fd: int)
      requires Valid() && fd >= 0 && fd in fdsIdxMap.M
      modifies this, clients, fdsIdxMap.Repr
      ensures Valid() && fdsIdxMap.Repr == old(fdsIdxMap.Repr)
      ensures var i := old(fdsIdxMap.M)[fd];
              && 0 <= i < |clients| && clients[i].stateType == S.DISCONNECTED && StepAt(i)
              && fds == old(fds)[i := UNASSIGNED] && fdsIdxMap.M == old(fdsIdxMap.M) - {fd}
    {
      hide HashTable.Valid, Scan, Occupied;
      if count != 0 {
        ghost var i := fdsIdxMap.M[fd];
        Unassigned(fds, fdsIdxMap.M, fd);
        OccupiedUpdate(fds, i, UNASSIGNED);
        hide Indexed;
        var item := fdsIdxMap.Find(fd);
        var fdIdx := item.value;
        var removed := fdsIdxMap.Remove(fd);
        assert old(SlotOk(fdIdx));
        SetClientData(clients[fdIdx], UNASSIGNED, S.DISCONNECTED);
        count, fds := count - 1, fds[fdIdx := UNASSIGNED];
        SlotChanged(fdIdx);
      } else {
        NotEmpty(fds, fdsIdxMap.M, fd);
      }
    }

    lemma NotEmpty(slots: seq<int>, m: map<int, int>, fd: int)
      requires Indexed(slots, m) && fd in m
      ensures Occupied(slots) > 0
    {
    }

    // ----- the state changes of the commands

    method SetClientStateType(i: nat, stateType: int)
      requires Valid() && i < |clients| && fds[i] != UNASSIGNED
      requires S.DISCONNECTED < stateType <= S.IN_CHANNEL && S.Edge(clients[i].stateType, stateType)
      modifies clients[i]
      ensures Valid() && clients[i].stateType == stateType && StepAt(i)
    {
      hide HashTable.Valid, Occupied, Indexed;
      assert SlotOk(i);
      clients[i].stateType := stateType;
      SlotChanged(i);
    }

    /** cmd_nick; `accepted` says that the nickname is there, valid and not in use. */
    method CmdNick(i: nat, accepted: bool)
      requires Valid() && i < |clients| && fds[i] != UNASSIGNED
      modifies clients[i]
      ensures Valid() && StepAt(i)
      ensures clients[i].stateType == if accepted && old(clients[i].stateType) == S.CONNECTED then S.START_REGISTRATION
                                      else old(clients[i].stateType)
    {
      hide HashTable.Valid, Occupied, Indexed;
      assert SlotOk(i);
      S.ServerTable();
      S.ServerCommands(clients[i].stateType);
      var allowed := S.IsAllowedStateCommand(S.SERVER_STATES, clients[i].stateType, S.NICK);
      if allowed && accepted && clients[i].stateType == S.CONNECTED {
        SetClientStateType(i, S.START_REGISTRATION);
      }
    }

    /** cmd_user; `enough` says that all parameters are there. The state is set without a look
        at the table, which holds because the command is only allowed in one state. */
    method CmdUser(i: nat, enough: bool)
      requires Valid() && i < |clients| && fds[i] != UNASSIGNED
      modifies clients[i]
      ensures Valid() && StepAt(i)
      ensures clients[i].stateType == if enough && old(clients[i].stateType) == S.START_REGISTRATION then S.REGISTERED
                                      else old(clients[i].stateType)
    {
      hide HashTable.Valid, Occupied, Indexed;
      assert SlotOk(i);
      S.ServerTable();
      S.ServerCommands(clients[i].stateType);
      var allowed := S.IsAllowedStateCommand(S.SERVER_STATES, clients[i].stateType, S.USER);
      if allowed && enough {
        SetClientStateType(i, S.REGISTERED);
      }
    }

    /** cmd_join; `joined` says that the user has entered the channel. */
    method CmdJoin(i: nat, joined: bool)
      requires Valid() && i < |clients| && fds[i] != UNASSIGNED
      modifies clients[i]
      ensures Valid() && StepAt(i)
      ensures clients[i].stateType == if joined && old(clients[i].stateType) == S.REGISTERED then S.IN_CHANNEL
                                      else old(clients[i].stateType)
    {
      hide HashTable.Valid, Occupied, Indexed;
      assert SlotOk(i);
      S.ServerTable();
      S.ServerCommands(clients[i].stateType);
      var allowed := S.IsAllowedStateCommand(S.SERVER_STATES, clients[i].stateType, S.JOIN);
      if allowed && joined && clients[i].stateType == S.REGISTERED {
        SetClientStateType(i, S.IN_CHANNEL);
      }
    }

    /** cmd_part; `left` says that the user was a member, `empty` that the count read from the
        channel's record is zero. */
    method CmdPart(i: nat, left: bool, empty: bool)
      requires Valid() && i < |clients| && fds[i] != UNASSIGNED
      modifies clients[i]
      ensures Valid() && StepAt(i)
      ensures clients[i].stateType == if left && empty && old(clients[i].stateType) == S.IN_CHANNEL then S.REGISTERED
                                      else old(clients[i].stateType)
    {
      hide HashTable.Valid, Occupied, Indexed;
      assert SlotOk(i);
      S.ServerTable();
      S.ServerCommands(clients[i].stateType);
      var allowed := S.IsAllowedStateCommand(S.SERVER_STATES, clients[i].stateType, S.PART);
      if allowed && left && clients[i].stateType == S.IN_CHANNEL && empty {
        SetClientStateType(i, S.REGISTERED);
      }
    }
  }
}
