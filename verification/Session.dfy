/** The session: tables of users and channels, the records of who is where, and the channels
    that have something to send. */
module Sessions {
  import opened Common
  import opened LinkedLists
  import opened Rosters
  import opened NameLists
  import opened SessionSpec
  import opened SessionProofs
  import opened Fanout

  class User {
    const fd: int
    const nickname: string

    constructor (fd: int, nickname: string)
      ensures this.fd == fd && this.nickname == nickname
    {
      this.fd, this.nickname := fd, nickname;
    }
  }

  class Channel {
    const name: string
    var outQueue: seq<string>

    constructor (name: string)
      ensures this.name == name && outQueue == []
    {
      this.name, outQueue := name, [];
    }
  }

  function Nickname(u: User): string { u.nickname }

  function ChannelName(c: Channel): string { c.name }

  /** The sockets, as server_write sees them. */
  class Network {
    var log: seq<Written>

    constructor ()
      ensures log == []
    {
      log := [];
    }

    method ServerWrite(fd: int, message: string)
      modifies this
      ensures log == old(log) + [Written(fd, message)]
    {
      log := log + [Written(fd, message)];
    }
  }

  class Session {
    var users: map<string, User>
    var channels: map<string, Channel>
    const userChannels: Membership<User, Channel>
    const channelUsers: Membership<Channel, User>
    var readyChannels: seq<Channel>

    ghost var view: View
    ghost var Repr: set<object>

    /** Nothing is shared between the parts. */
    ghost predicate Apart()
      reads this, userChannels, channelUsers
    {
      && this in Repr && userChannels in userChannels.Repr && channelUsers in channelUsers.Repr
      && userChannels.Repr <= Repr && channelUsers.Repr <= Repr
      && this !in userChannels.Repr && this !in channelUsers.Repr
      && userChannels.Repr !! channelUsers.Repr
      && (forall k <- channels :: channels[k] in Repr)
      && (forall k <- channels :: channels[k] !in userChannels.Repr && channels[k] !in channelUsers.Repr)
    }

    /** Every pointer stored anywhere is the table's own object of that name. */
    ghost predicate Resolved()
      reads this, userChannels, channelUsers
    {
      && Keyed(channels, ChannelName) && Keyed(users, Nickname)
      && AllLive(userChannels.view, channels, ChannelName)
      && AllLive(channelUsers.view, users, Nickname)
      && Live(readyChannels, channels, ChannelName)
    }

    /** The view is what the parts show. */
    ghost predicate Shown()
      reads this, userChannels, channelUsers
    {
      && view.users == users.Keys && view.channels == channels.Keys == view.queues.Keys
      && view.joined == NameMap(userChannels.view, ChannelName)
      && view.members == NameMap(channelUsers.view, Nickname)
      && view.ready == Names(readyChannels, ChannelName)
    }

    ghost predicate Shape()
      reads this, Repr
    {
      && this in Repr && userChannels in Repr && channelUsers in Repr
      && Apart() && Resolved() && Shown()
      && userChannels.Valid() && channelUsers.Valid()
      && (forall k <- channels :: channels[k].outQueue == view.queues[k])
      && userChannels.ownerKey == Nickname && userChannels.itemKey == ChannelName
      && channelUsers.ownerKey == ChannelName && channelUsers.itemKey == Nickname
      && userChannels.capacity == MAX_CHANNELS_PER_USER && channelUsers.capacity == MAX_USERS_PER_CHANNEL
    }

    ghost predicate Valid()
      reads this, Repr
    {
      Shape() && Inv(view)
    }

    lemma EmptyShape()
      requires userChannels.Valid() && channelUsers.Valid() && userChannels.Repr !! channelUsers.Repr
      requires this !in userChannels.Repr && this !in channelUsers.Repr
      requires userChannels.view == map[] && channelUsers.view == map[]
      requires userChannels.ownerKey == Nickname && userChannels.itemKey == ChannelName
      requires channelUsers.ownerKey == ChannelName && channelUsers.itemKey == Nickname
      requires userChannels.capacity == MAX_CHANNELS_PER_USER && channelUsers.capacity == MAX_USERS_PER_CHANNEL
      requires users == map[] && channels == map[] && readyChannels == [] && view == EMPTY
      requires Repr == {this} + userChannels.Repr + channelUsers.Repr
      ensures Shape()
    {
    }

    constructor ()
      ensures Valid() && view == EMPTY && fresh(Repr)
    {
      hide Membership.Valid, Inv, Apart, Resolved, Shown;
      userChannels := new Membership(Nickname, ChannelName, MAX_CHANNELS_PER_USER);
      channelUsers := new Membership(ChannelName, Nickname, MAX_USERS_PER_CHANNEL);
      users, channels, readyChannels, view := map[], map[], [], EMPTY;
      new;
      Repr := {this} + userChannels.Repr + channelUsers.Repr;
      EmptySession();
      EmptyShape();
    }

    /** Iterators of users' lists stand where they stood. */
    twostate predicate CursorsKept()
      reads this, userChannels, userChannels.Repr
    {
      forall nick, p: int :: old(userChannels.At(nick, p)) ==> userChannels.At(nick, p)
    }

    /** What the records need to know about the session, and the session about the records. */
    lemma RecordFacts()
      requires Shape()
      ensures Linked()
      ensures userChannels.ownerKey == Nickname && userChannels.itemKey == ChannelName
      ensures channelUsers.ownerKey == ChannelName && channelUsers.itemKey == Nickname
      ensures userChannels.capacity == MAX_CHANNELS_PER_USER && channelUsers.capacity == MAX_USERS_PER_CHANNEL
      ensures AllLive(userChannels.view, channels, ChannelName) && AllLive(channelUsers.view, users, Nickname)
      ensures view.joined == NameMap(userChannels.view, ChannelName)
      ensures view.members == NameMap(channelUsers.view, Nickname)
    {
    }

    lemma TableFacts()
      requires Shape()
      ensures view.users == users.Keys && view.channels == channels.Keys == view.queues.Keys
      ensures view.ready == Names(readyChannels, ChannelName)
      ensures Keyed(channels, ChannelName) && Keyed(users, Nickname) && Live(readyChannels, channels, ChannelName)
    {
    }

    lemma TableSizes()
      requires Shape()
      ensures |view.users| == |users| && |view.channels| == |channels|
    {
      assert |users.Keys| == |users| && |channels.Keys| == |channels|;
    }

    /** Records only ever take fresh memory. */
    twostate lemma StillApart()
      requires old(Apart()) && channels == old(channels)
      requires fresh(userChannels.Repr - old(userChannels.Repr)) && fresh(channelUsers.Repr - old(channelUsers.Repr))
      requires userChannels in userChannels.Repr && channelUsers in channelUsers.Repr
      requires userChannels.Repr !! channelUsers.Repr
      requires Repr == old(Repr) + userChannels.Repr + channelUsers.Repr
      ensures Apart() && fresh(Repr - old(Repr))
    {
      forall k | k in channels
        ensures channels[k] in Repr && channels[k] !in userChannels.Repr && channels[k] !in channelUsers.Repr
      {
        assert old(channels[k]) in old(Repr);
      }
    }

    /** Queues outside the records are as they were. */
    twostate lemma SameQueues()
      requires old(Shape()) && channels == old(channels) && view.queues == old(view).queues
      requires forall o :: o in old(Repr) && o !in old(userChannels.Repr) && o !in old(channelUsers.Repr) && o != this ==> unchanged(o)
      ensures forall k <- channels :: channels[k].outQueue == view.queues[k]
    {
      forall k | k in channels
        ensures channels[k].outQueue == view.queues[k]
      {
        assert old(channels[k]) in old(Repr);
      }
    }

    /** The users' lists and their iterators are as they were. */
    twostate lemma CursorsUntouched()
      requires old(Shape()) && unchanged(old(Repr) - old(channelUsers.Repr) - {this})
      ensures CursorsKept()
      ensures forall x, c, p: nat {:trigger userChannels.Passed(x, c, p)} ::
                old(userChannels.Passed(x, c, p)) ==> userChannels.Passed(x, c, p)
    {
      hide Membership.Valid, Resolved, Shown;
      assert unchanged(old(userChannels.Repr)) && unchanged(userChannels);
    }

    /** The records of channels have changed, and the view with them. */
    twostate lemma ChannelUsersChanged()
      requires old(Shape()) && unchanged(this`users, this`channels, this`readyChannels)
      requires unchanged(old(Repr) - old(channelUsers.Repr) - {this})
      requires channelUsers.Valid() && fresh(channelUsers.Repr - old(channelUsers.Repr))
      requires AllLive(channelUsers.view, users, Nickname)
      requires view == old(view).(members := NameMap(channelUsers.view, Nickname))
      requires Repr == old(Repr) + channelUsers.Repr
      ensures Shape() && fresh(Repr - old(Repr))
      ensures CursorsKept()
      ensures forall x, c, p: nat {:trigger userChannels.Passed(x, c, p)} ::
                old(userChannels.Passed(x, c, p)) ==> userChannels.Passed(x, c, p)
    {
      hide Membership.Valid, Names, NameMap, AllLive, Live, Keyed, CursorsKept;
      StillApart();
      SameQueues();
      CursorsUntouched();
    }

    /** The records of users have changed, and the view with them. */
    twostate lemma UserChannelsChanged()
      requires old(Shape()) && unchanged(this`users, this`channels, this`readyChannels)
      requires unchanged(old(Repr) - old(userChannels.Repr) - {this})
      requires userChannels.Valid() && fresh(userChannels.Repr - old(userChannels.Repr))
      requires AllLive(userChannels.view, channels, ChannelName)
      requires view == old(view).(joined := NameMap(userChannels.view, ChannelName))
      requires Repr == old(Repr) + userChannels.Repr
      ensures Shape() && fresh(Repr - old(Repr))
    {
      hide Membership.Valid, Names, NameMap, AllLive, Live, Keyed;
      StillApart();
      SameQueues();
    }

    /** Only fields of the session have changed; channels that stay keep their queues. */
    twostate lemma TablesChanged()
      requires old(Shape()) && Repr == old(Repr) && unchanged(old(Repr) - {this})
      requires forall k <- channels :: k in old(channels) && channels[k] == old(channels)[k]
      requires forall k <- channels :: k in view.queues && k in old(view).queues && view.queues[k] == old(view).queues[k]
      requires Resolved() && Shown()
      ensures Shape() && CursorsKept()
    {
      hide Membership.Valid, Resolved, Shown, Membership.At;
      forall k | k in channels
        ensures channels[k].outQueue == view.queues[k]
      {
        assert old(channels)[k] in old(Repr);
      }
    }

    // ----- operations on the records, as far as memory goes

    /** What an operation on the records needs. */
    ghost predicate Linked()
      reads this, Repr
    {
      && this in Repr && userChannels in Repr && channelUsers in Repr
      && userChannels.Repr <= Repr && channelUsers.Repr <= Repr
      && this !in userChannels.Repr && this !in channelUsers.Repr && userChannels.Repr !! channelUsers.Repr
      && userChannels.Valid() && channelUsers.Valid()
    }

    method EnterUser(name: string, user: User)
      requires Linked() && name in channelUsers.view
      modifies Repr
      ensures unchanged(this`users, this`channels, this`readyChannels)
      ensures unchanged(old(Repr) - old(channelUsers.Repr) - {this})
      ensures channelUsers.Valid() && fresh(channelUsers.Repr - old(channelUsers.Repr))
      ensures Repr == old(Repr) + channelUsers.Repr
      ensures view == old(view).(members := NameMap(channelUsers.view, Nickname))
      ensures channelUsers.view ==
              old(channelUsers.view)[name := old(channelUsers.view)[name] +
                                       if |old(channelUsers.view)[name]| < channelUsers.capacity then [user] else []]
    {
      hide Membership.Valid, Membership.At, Membership.Passed, Names, NameMap, FirstWith, Minus;
      var added := channelUsers.AddItem(name, user);
      view, Repr := view.(members := NameMap(channelUsers.view, Nickname)), Repr + channelUsers.Repr;
    }

    method TakeUser(name: string, nick: string)
      requires Linked() && name in channelUsers.view
        && FirstWith(channelUsers.view[name], channelUsers.itemKey, nick) < |channelUsers.view[name]|
      modifies Repr
      ensures unchanged(this`users, this`channels, this`readyChannels)
      ensures unchanged(old(Repr) - old(channelUsers.Repr) - {this})
      ensures channelUsers.Valid() && fresh(channelUsers.Repr - old(channelUsers.Repr))
      ensures Repr == old(Repr) + channelUsers.Repr
      ensures view == old(view).(members := NameMap(channelUsers.view, Nickname))
      ensures channelUsers.view ==
              old(channelUsers.view)[name := Minus(old(channelUsers.view)[name], channelUsers.itemKey, nick)]
    {
      hide Membership.Valid, Membership.At, Membership.Passed, Names, NameMap, FirstWith, Minus;
      channelUsers.RemoveItem(name, nick, 0);
      view, Repr := view.(members := NameMap(channelUsers.view, Nickname)), Repr + channelUsers.Repr;
    }

    method DropRecord(name: string)
      requires Linked() && name in channelUsers.view
      modifies Repr
      ensures unchanged(this`users, this`channels, this`readyChannels)
      ensures unchanged(old(Repr) - old(channelUsers.Repr) - {this})
      ensures channelUsers.Valid() && fresh(channelUsers.Repr - old(channelUsers.Repr))
      ensures Repr == old(Repr) + channelUsers.Repr
      ensures view == old(view).(members := NameMap(channelUsers.view, Nickname))
      ensures channelUsers.view == old(channelUsers.view) - {name}
    {
      hide Membership.Valid, Membership.At, Membership.Passed, Names, NameMap, FirstWith, Minus;
      channelUsers.RemoveRecord(name);
      view, Repr := view.(members := NameMap(channelUsers.view, Nickname)), Repr + channelUsers.Repr;
    }

    method EnterChannel(nick: string, channel: Channel)
      requires Linked() && nick in userChannels.view
      modifies Repr
      ensures unchanged(this`users, this`channels, this`readyChannels)
      ensures unchanged(old(Repr) - old(userChannels.Repr) - {this})
      ensures userChannels.Valid() && fresh(userChannels.Repr - old(userChannels.Repr))
      ensures Repr == old(Repr) + userChannels.Repr
      ensures view == old(view).(joined := NameMap(userChannels.view, ChannelName))
      ensures userChannels.view ==
              old(userChannels.view)[nick := old(userChannels.view)[nick] +
                                       if |old(userChannels.view)[nick]| < userChannels.capacity then [channel] else []]
    {
      hide Membership.Valid, Membership.At, Membership.Passed, Names, NameMap, FirstWith, Minus;
      var added := userChannels.AddItem(nick, channel);
      view, Repr := view.(joined := NameMap(userChannels.view, ChannelName)), Repr + userChannels.Repr;
    }

    method TakeChannel(nick: string, name: string, ghost p: nat)
      requires Linked() && nick in userChannels.view
        && FirstWith(userChannels.view[nick], userChannels.itemKey, name) < |userChannels.view[nick]|
      modifies Repr
      ensures unchanged(this`users, this`channels, this`readyChannels)
      ensures unchanged(old(Repr) - old(userChannels.Repr) - {this})
      ensures userChannels.Valid() && fresh(userChannels.Repr - old(userChannels.Repr))
      ensures Repr == old(Repr) + userChannels.Repr
      ensures view == old(view).(joined := NameMap(userChannels.view, ChannelName))
      ensures userChannels.view ==
              old(userChannels.view)[nick := Minus(old(userChannels.view)[nick], userChannels.itemKey, name)]
      ensures old(userChannels.Passed(nick, name, p)) ==> userChannels.At(nick, p - 1)
    {
      hide Membership.Valid, Membership.At, Membership.Passed, Names, NameMap, FirstWith, Minus;
      userChannels.RemoveItem(nick, name, p);
      view, Repr := view.(joined := NameMap(userChannels.view, ChannelName)), Repr + userChannels.Repr;
    }

    method DropUserRecord(nick: string)
      requires Linked() && nick in userChannels.view
      modifies Repr
      ensures unchanged(this`users, this`channels, this`readyChannels)
      ensures unchanged(old(Repr) - old(userChannels.Repr) - {this})
      ensures userChannels.Valid() && fresh(userChannels.Repr - old(userChannels.Repr))
      ensures Repr == old(Repr) + userChannels.Repr
      ensures view == old(view).(joined := NameMap(userChannels.view, ChannelName))
      ensures userChannels.view == old(userChannels.view) - {nick}
    {
      hide Membership.Valid, Membership.At, Membership.Passed, Names, NameMap, FirstWith, Minus;
      userChannels.RemoveRecord(nick);
      view, Repr := view.(joined := NameMap(userChannels.view, ChannelName)), Repr + userChannels.Repr;
    }

    // ----- the tables

    method AddUserToTable(user: User)
      requires Shape() && user.nickname !in users
      modifies this`users, this`view
      ensures Shape()
      ensures view == old(view).(users := old(view).users + if |old(view).users| < MAX_USERS then {user.nickname} else {})
    {
      hide Shape, Membership.Valid, Names, NameMap, CursorsKept, AllLive, Live, Keyed;
      RecordFacts();
      TableFacts();
      UserEntered(user);
      if |users| < MAX_USERS && user.nickname !in users {
        users, view := users[user.nickname := user], view.(users := view.users + {user.nickname});
        TablesChanged();
      }
    }

    lemma UserEntered(user: User)
      requires Shape() && user.nickname !in users
      ensures var t := users[user.nickname := user];
              && Keyed(t, Nickname) && AllLive(channelUsers.view, t, Nickname)
              && t.Keys == view.users + {user.nickname} && |view.users| == |users|
    {
      hide Membership.Valid, Names, NameMap;
      AllLiveAdded(channelUsers.view, users, user, Nickname);
      KeyedAdded(users, user, Nickname);
      assert |users.Keys| == |users|;
    }

    lemma UserGone(nick: string)
      requires Shape() && forall c <- view.members :: nick !in view.members[c]
      ensures var t := users - {nick};
              && Keyed(t, Nickname) && AllLive(channelUsers.view, t, Nickname) && t.Keys == view.users - {nick}
    {
      hide Membership.Valid, Names, Live;
      AllLiveGone(channelUsers.view, nick, users, Nickname);
    }

    lemma ChannelGone(name: string)
      requires Shape() && name !in view.ready && forall u <- view.joined :: name !in view.joined[u]
      ensures var t := channels - {name};
              && Keyed(t, ChannelName) && AllLive(userChannels.view, t, ChannelName) && Live(readyChannels, t, ChannelName)
              && t.Keys == view.channels - {name} == view.queues.Keys - {name}
    {
      hide Membership.Valid, Names;
      AllLiveGone(userChannels.view, name, channels, ChannelName);
      LiveGone(readyChannels, name, channels, ChannelName);
    }

    // ----- the records of users

    method AddUserChannels(user: User)
      requires Shape() && user.nickname !in view.joined
      modifies Repr
      ensures Shape() && view == old(view).(joined := old(view).joined[user.nickname := []])
      ensures fresh(Repr - old(Repr))
      ensures unchanged(this`users)
    {
      hide Shape, Membership.Valid, Names, NameMap, AllLive, Live, Keyed;
      RecordFacts();
      AllLivePut(userChannels.view, user.nickname, [], channels, ChannelName);
      NameMapPut(userChannels.view, user.nickname, [], ChannelName);
      NamesNone<Channel>(ChannelName);
      userChannels.AddRecord(user);
      view, Repr := view.(joined := NameMap(userChannels.view, ChannelName)), Repr + userChannels.Repr;
      UserChannelsChanged();
    }

    method RemoveUserFromTable(nick: string)
      requires Shape() && forall c <- view.members :: nick !in view.members[c]
      modifies this`users, this`view
      ensures Shape() && view == old(view).(users := old(view).users - {nick})
    {
      hide Shape, Membership.Valid, Names, NameMap, CursorsKept, AllLive, Live, Keyed;
      RecordFacts();
      TableFacts();
      UserGone(nick);
      users, view := users - {nick}, view.(users := view.users - {nick});
      TablesChanged();
    }

    method RemoveUserChannels(nick: string)
      requires Shape() && nick in view.joined
      modifies Repr
      ensures Shape() && view == old(view).(joined := old(view).joined - {nick})
      ensures fresh(Repr - old(Repr)) && unchanged(this`users)
    {
      hide Shape, Linked, Membership.Valid, Names, NameMap, AllLive, Live, Keyed;
      RecordFacts();
      AllLiveWithout(userChannels.view, nick, channels, ChannelName);
      NameMapWithout(userChannels.view, nick, ChannelName);
      DropUserRecord(nick);
      UserChannelsChanged();
    }

    method AddChannelToUserChannels(nick: string, channel: Channel)
      requires Shape() && nick in view.joined && Live([channel], channels, ChannelName)
      modifies Repr
      ensures Shape() && fresh(Repr - old(Repr)) && unchanged(this`channels)
      ensures var s := old(view).joined[nick];
              view == old(view).(joined := if |s| < MAX_CHANNELS_PER_USER then old(view).joined[nick := s + [channel.name]]
                                           else old(view).joined)
    {
      hide Shape, Linked, Membership.Valid, Names, NameMap, AllLive, Live, Keyed;
      RecordFacts();
      ghost var s := userChannels.view[nick];
      ghost var t := s + if |s| < MAX_CHANNELS_PER_USER then [channel] else [];
      LiveAppend(userChannels.view, nick, channel, channels, ChannelName);
      NameMapPut(userChannels.view, nick, t, ChannelName);
      NamesAppend(s, channel, ChannelName);
      EnterChannel(nick, channel);
      UserChannelsChanged();
    }

    /** Keeps an iterator of the user's list that has gone past the channel. */
    method RemoveChannelInUserChannels(nick: string, name: string, ghost p: nat)
      requires Shape() && nick in view.joined && name in view.joined[nick]
      modifies Repr
      ensures Shape() && fresh(Repr - old(Repr)) && unchanged(this`channels)
      ensures view == old(view).(joined := old(view).joined[nick := Drop(old(view).joined[nick], name)])
      ensures old(userChannels.Passed(nick, name, p)) ==> userChannels.At(nick, p - 1)
    {
      hide Shape, Linked, Membership.Valid, Names, NameMap, AllLive, Live, Keyed, Membership.At, Membership.Passed;
      RecordFacts();
      ghost var s := userChannels.view[nick];
      LiveMinusIn(userChannels.view, nick, name, channels, ChannelName);
      NameMapPut(userChannels.view, nick, Minus(s, ChannelName, name), ChannelName);
      NamesMinus(s, ChannelName, name);
      TakeChannel(nick, name, p);
      UserChannelsChanged();
    }

    // ----- the records of channels

    method AddChannelUsers(channel: Channel)
      requires Shape() && channel.name !in view.members
      modifies Repr
      ensures Shape() && view == old(view).(members := old(view).members[channel.name := []])
      ensures fresh(Repr - old(Repr)) && unchanged(this`channels) && unchanged(this`users)
    {
      hide Shape, Membership.Valid, Names, NameMap, AllLive, Live, Keyed;
      RecordFacts();
      AllLivePut(channelUsers.view, channel.name, [], users, Nickname);
      NameMapPut(channelUsers.view, channel.name, [], Nickname);
      NamesNone<User>(Nickname);
      channelUsers.AddRecord(channel);
      view, Repr := view.(members := NameMap(channelUsers.view, Nickname)), Repr + channelUsers.Repr;
      ChannelUsersChanged();
    }

    method RemoveChannelUsers(name: string)
      requires Shape() && name in view.members
      modifies Repr
      ensures Shape() && view == old(view).(members := old(view).members - {name})
      ensures fresh(Repr - old(Repr)) && unchanged(this`channels)
      ensures CursorsKept()
    {
      hide Shape, Linked, Membership.Valid, Names, NameMap, AllLive, Live, Keyed, CursorsKept;
      RecordFacts();
      AllLiveWithout(channelUsers.view, name, users, Nickname);
      NameMapWithout(channelUsers.view, name, Nickname);
      DropRecord(name);
      ChannelUsersChanged();
    }

    method AddUserToChannelUsers(name: string, user: User)
      requires Shape() && name in view.members && Live([user], users, Nickname)
      modifies Repr
      ensures Shape() && fresh(Repr - old(Repr)) && unchanged(this`channels)
      ensures var s := old(view).members[name];
              view == old(view).(members := if |s| < MAX_USERS_PER_CHANNEL then old(view).members[name := s + [user.nickname]]
                                            else old(view).members)
    {
      hide Shape, Linked, Membership.Valid, Names, NameMap, AllLive, Live, Keyed;
      RecordFacts();
      ghost var s := channelUsers.view[name];
      ghost var t := s + if |s| < MAX_USERS_PER_CHANNEL then [user] else [];
      LiveAppend(channelUsers.view, name, user, users, Nickname);
      NameMapPut(channelUsers.view, name, t, Nickname);
      NamesAppend(s, user, Nickname);
      EnterUser(name, user);
      ChannelUsersChanged();
    }

    method RemoveUserInChannelUsers(name: string, nick: string)
      requires Shape() && name in view.members && nick in view.members[name]
      modifies Repr
      ensures Shape() && fresh(Repr - old(Repr)) && unchanged(this`channels)
      ensures view == old(view).(members := old(view).members[name := Drop(old(view).members[name], nick)])
      ensures forall x, c, p: nat {:trigger userChannels.Passed(x, c, p)} ::
                old(userChannels.Passed(x, c, p)) ==> userChannels.Passed(x, c, p)
    {
      hide Shape, Linked, Membership.Valid, Names, NameMap, AllLive, Live, Keyed, Membership.Passed;
      RecordFacts();
      ghost var s := channelUsers.view[name];
      LiveMinusIn(channelUsers.view, name, nick, users, Nickname);
      NameMapPut(channelUsers.view, name, Minus(s, Nickname, nick), Nickname);
      NamesMinus(s, Nickname, nick);
      TakeUser(name, nick);
      ChannelUsersChanged();
    }

    // ----- the channel table, the ready list and the queues

    lemma ChannelEntered(channel: Channel)
      requires Shape() && channel.name !in channels
      ensures var t := channels[channel.name := channel];
              && Keyed(t, ChannelName) && AllLive(userChannels.view, t, ChannelName) && Live(readyChannels, t, ChannelName)
              && t.Keys == view.channels + {channel.name} == view.queues.Keys + {channel.name}
              && Live([channel], t, ChannelName)
    {
      hide Membership.Valid, Names, NameMap;
      AllLiveAdded(userChannels.view, channels, channel, ChannelName);
      LiveAdded(readyChannels, channels, channel, ChannelName);
      KeyedAdded(channels, channel, ChannelName);
    }

    /** A channel has entered the table. */
    twostate lemma TableGrown(channel: Channel)
      requires old(Shape()) && channel.name !in old(channels) && channel !in old(Repr) && channel.outQueue == []
      requires unchanged(old(Repr) - {this}) && unchanged(this`users, this`readyChannels)
      requires channels == old(channels)[channel.name := channel] && Repr == old(Repr) + {channel}
      requires view == old(view).(channels := old(view).channels + {channel.name},
                                  queues := old(view).queues[channel.name := []])
      requires Keyed(channels, ChannelName) && AllLive(userChannels.view, channels, ChannelName)
      requires Live(readyChannels, channels, ChannelName)
      ensures Shape()
    {
      hide Membership.Valid, Names, NameMap, AllLive, Keyed, Live;
      forall k | k in channels
        ensures channels[k] in Repr && channels[k] !in userChannels.Repr && channels[k] !in channelUsers.Repr
        ensures channels[k].outQueue == view.queues[k]
      {
        if k != channel.name {
          assert channels[k] == old(channels[k]);
          assert old(channels[k]) in old(Repr) - {this};
        }
      }
    }

    method AddChannelToTable(channel: Channel)
      requires Shape() && channel.name !in channels && |view.channels| < MAX_CHANNELS
      requires channel !in Repr && channel.outQueue == []
      modifies this`channels, this`view, this`Repr
      ensures Shape() && Repr == old(Repr) + {channel} && Live([channel], channels, ChannelName)
      ensures view == old(view).(channels := old(view).channels + {channel.name}, queues := old(view).queues[channel.name := []])
    {
      hide Shape, Live, Membership.Valid, Names, NameMap, AllLive, Keyed;
      RecordFacts();
      TableFacts();
      ChannelEntered(channel);
      TableSizes();
      if |channels| < MAX_CHANNELS && channel.name !in channels {
        channels, Repr, view := channels[channel.name := channel], Repr + {channel},
          view.(channels := view.channels + {channel.name}, queues := view.queues[channel.name := []]);
      }
      TableGrown(channel);
    }

    method RemoveChannelFromTable(name: string)
      requires Shape() && name !in view.ready && forall u <- view.joined :: name !in view.joined[u]
      modifies this`channels, this`view
      ensures Shape()
      ensures view == old(view).(channels := old(view).channels - {name}, queues := old(view).queues - {name})
      ensures CursorsKept()
    {
      hide Shape, Membership.Valid, Names, NameMap, Membership.At, CursorsKept, AllLive, Live, Keyed;
      RecordFacts();
      TableFacts();
      ChannelGone(name);
      channels, view := channels - {name}, view.(channels := view.channels - {name}, queues := view.queues - {name});
      TablesChanged();
    }

    method AddChannelToReadyList(channel: Channel)
      requires Shape() && Live([channel], channels, ChannelName)
      modifies this`readyChannels, this`view
      ensures Shape()
      ensures view == old(view).(ready := if channel.name in old(view).ready then old(view).ready
                                          else old(view).ready + [channel.name])
      ensures CursorsKept()
    {
      hide Shape, Membership.Valid, Names, NameMap, AllLive, Keyed, Membership.At, CursorsKept;
      RecordFacts();
      TableFacts();
      NamesMinus(readyChannels, ChannelName, channel.name);
      NamesAppend(readyChannels, channel, ChannelName);
      if FirstWith(readyChannels, ChannelName, channel.name) == |readyChannels| {
        assert [channel][0] == channel;
        readyChannels, view := readyChannels + [channel], view.(ready := view.ready + [channel.name]);
      }
      hide Live;
      TablesChanged();
    }

    method RemoveChannelFromReadyList(name: string)
      requires Shape()
      modifies this`readyChannels, this`view
      ensures Shape() && view == old(view).(ready := Drop(old(view).ready, name))
      ensures CursorsKept()
    {
      hide Shape, Membership.Valid, Names, NameMap, AllLive, Keyed, Membership.At, CursorsKept;
      RecordFacts();
      TableFacts();
      NamesMinus(readyChannels, ChannelName, name);
      LiveMinus(readyChannels, name, channels, ChannelName);
      hide Live;
      readyChannels, view := Minus(readyChannels, ChannelName, name), view.(ready := Drop(view.ready, name));
      TablesChanged();
    }

    /** The queue of a channel of the table has changed, and the view with it. */
    twostate lemma QueueChanged(channel: Channel)
      requires old(Shape()) && Live([channel], channels, ChannelName)
      requires unchanged(this`users, this`channels, this`readyChannels, this`Repr)
      requires unchanged(old(Repr) - {this, channel})
      requires view == old(view).(queues := old(view).queues[channel.name := channel.outQueue])
      ensures Shape() && CursorsKept()
    {
      hide Membership.Valid, Names, NameMap, AllLive, Membership.At;
      assert [channel][0] == channel;
      forall k | k in channels
        ensures channels[k].outQueue == view.queues[k]
      {
        assert old(channels[k]) in old(Repr);
      }
    }

    method EnqueueToChannelQueue(channel: Channel, message: string)
      requires Shape() && Live([channel], channels, ChannelName)
      modifies channel, this`view
      ensures Shape()
      ensures view == old(view).(queues := old(view).queues[channel.name := Push(Get(old(view).queues, channel.name), message)])
      ensures CursorsKept()
    {
      hide Shape, Live, CursorsKept, Push;
      LiveQueue(channel);
      channel.outQueue := Push(channel.outQueue, message);
      view := view.(queues := view.queues[channel.name := channel.outQueue]);
      QueueChanged(channel);
    }

    lemma LiveQueue(channel: Channel)
      requires Shape() && Live([channel], channels, ChannelName)
      ensures channel.name in view.queues && channel.outQueue == view.queues[channel.name]
      ensures channel in Repr && this in Repr
    {
      assert [channel][0] == channel;
    }

    // ----- joining and leaving

    method RegisterUser(user: User)
      requires Shape() && user.nickname !in view.users && user.nickname !in view.joined
      modifies Repr
      ensures Shape() && view == SessionSpec.RegisterUser(old(view), user.nickname)
      ensures fresh(Repr - old(Repr))
    {
      hide Shape;
      ShapeKeys();
      AddUserToTable(user);
      AddUserChannels(user);
    }

    lemma ShapeKeys()
      requires Shape()
      ensures view.users == users.Keys && view.channels == channels.Keys && this in Repr
    {
    }

    lemma InvKeys(v: View)
      requires Inv(v)
      ensures v.running && v.joined.Keys == v.users && v.members.Keys == v.channels == v.queues.Keys
    {
    }

    lemma Found(name: string)
      requires Shape() && name in channels
      ensures Live([channels[name]], channels, ChannelName) && channels[name].name == name && channels[name] in Repr
    {
    }

    lemma LiveChannel(channel: Channel)
      requires Shape() && Live([channel], channels, ChannelName)
      ensures channel in Repr
    {
      assert [channel][0] == channel;
    }

    lemma FoundUser(nick: string)
      requires Shape() && nick in users
      ensures Live([users[nick]], users, Nickname) && users[nick].nickname == nick
    {
    }

    method UnregisterUser(nick: string)
      requires Shape() && nick in view.joined && forall c <- view.members :: nick !in view.members[c]
      modifies Repr
      ensures Shape() && view == SessionSpec.UnregisterUser(old(view), nick)
      ensures fresh(Repr - old(Repr))
    {
      hide Shape;
      ShapeKeys();
      RemoveUserChannels(nick);
      ShapeKeys();
      RemoveUserFromTable(nick);
    }

    method RegisterNewChannelJoin(channel: Channel, nick: string)
      requires Shape() && nick in users && nick in view.joined
      requires channel.name !in channels && channel.name !in view.members && |view.channels| < MAX_CHANNELS
      requires channel !in Repr && channel.outQueue == []
      modifies Repr, channel
      ensures Shape() && view == Enter(NewChannel(old(view), channel.name), channel.name, nick)
      ensures fresh(Repr - old(Repr) - {channel})
      ensures Live([channel], channels, ChannelName)
    {
      hide Shape, Live;
      FoundUser(nick);
      ShapeKeys();
      AddChannelToTable(channel);
      AddChannelUsers(channel);
      AddUserToChannelUsers(channel.name, users[nick]);
      AddChannelToUserChannels(nick, channel);
    }

    method RegisterExistingChannelJoin(name: string, nick: string)
      requires Shape() && nick in users && nick in view.joined && name in channels && name in view.members
      modifies Repr
      ensures Shape() && view == Enter(old(view), name, nick)
      ensures fresh(Repr - old(Repr)) && unchanged(this`channels)
    {
      hide Shape, Live;
      FoundUser(nick);
      Found(name);
      ShapeKeys();
      var channel := channels[name];
      AddUserToChannelUsers(name, users[nick]);
      AddChannelToUserChannels(nick, channel);
    }

    method RegisterChannelLeave(name: string, nick: string, ghost p: nat)
      requires Shape() && name in view.members && nick in view.joined
      requires nick in view.members[name] && name in view.joined[nick]
      modifies Repr
      ensures Shape() && view == Leave(old(view), name, nick)
      ensures fresh(Repr - old(Repr)) && unchanged(this`channels)
      ensures old(userChannels.Passed(nick, name, p)) ==> userChannels.At(nick, p - 1)
    {
      hide Shape, Membership.At, Membership.Passed;
      ShapeKeys();
      RemoveUserInChannelUsers(name, nick);
      ShapeKeys();
      RemoveChannelInUserChannels(nick, name, p);
    }

    method RemoveChannelData(name: string)
      requires Shape() && name in view.members && NoDup(view.ready)
      requires forall u <- view.joined :: name !in view.joined[u]
      modifies Repr
      ensures Shape() && view == RemoveChannel(old(view), name)
      ensures fresh(Repr - old(Repr)) && CursorsKept()
    {
      hide Shape, Membership.At;
      ShapeKeys();
      DropNoDup(view.ready, name);
      RemoveChannelFromReadyList(name);
      ShapeKeys();
      RemoveChannelUsers(name);
      ShapeKeys();
      RemoveChannelFromTable(name);
    }

    /** enqueue_to_channel_queue and add_channel_to_ready_list. */
    method PostToChannel(channel: Channel, message: string)
      requires Shape() && Live([channel], channels, ChannelName)
      modifies Repr
      ensures Shape() && view == Post(old(view), channel.name, message)
      ensures Repr == old(Repr) && CursorsKept()
    {
      hide Shape, Membership.At, Live;
      ShapeKeys();
      LiveChannel(channel);
      EnqueueToChannelQueue(channel, message);
      AddChannelToReadyList(channel);
    }

    // ----- leaving every channel

    lemma CursorKeys()
      requires Shape()
      ensures userChannels.Valid() && userChannels.view.Keys == view.joined.Keys
      ensures userChannels.Repr <= Repr && this !in userChannels.Repr
    {
    }

    /** Moving an iterator changes nothing but the iterator. */
    twostate lemma OnlyCursors()
      requires old(Shape()) && unchanged(this) && unchanged(old(Repr) - old(userChannels.Repr))
      requires userChannels.Valid() && userChannels.Repr == old(userChannels.Repr) && userChannels.view == old(userChannels.view)
      ensures Shape()
    {
      hide Membership.Valid, Names, NameMap, AllLive, Live, Keyed;
    }

    method FirstChannel(nick: string)
      requires Shape() && nick in view.joined
      modifies Repr
      ensures Shape() && unchanged(this) && userChannels.At(nick, 0)
    {
      hide Shape, Membership.Valid, Membership.At;
      CursorKeys();
      userChannels.ResetIterator(nick);
      OnlyCursors();
    }

    lemma NextIs(nick: string, p: nat, channel: Channel)
      requires Shape() && nick in userChannels.view && p < |userChannels.view[nick]| && channel == userChannels.view[nick][p]
      ensures nick in view.joined && p < |view.joined[nick]| && channel.name == view.joined[nick][p]
      ensures Live([channel], channels, ChannelName)
    {
      NamesAt(userChannels.view[nick], ChannelName);
    }

    method NextChannel(nick: string, ghost p: nat) returns (node: Node?<Channel>)
      requires Shape() && nick in view.joined && userChannels.At(nick, p)
      modifies Repr
      ensures Shape() && unchanged(this)
      ensures node == null <==> p >= |view.joined[nick]|
      ensures node != null ==>
                && userChannels.At(nick, p + 1) && node.data.name == view.joined[nick][p]
                && Live([node.data], channels, ChannelName)
    {
      hide Shape, Membership.Valid, Membership.At, Live;
      CursorKeys();
      JoinedSize(nick);
      node := userChannels.IteratorNext(nick, p);
      OnlyCursors();
      if node != null {
        NextIs(nick, p, node.data);
      }
    }

    lemma JoinedSize(nick: string)
      requires Shape() && nick in view.joined
      ensures |userChannels.view[nick]| == |view.joined[nick]|
    {
    }

    method LeaveOneChannel(channel: Channel, nick: string, message: string, ghost p: nat)
      requires Valid() && nick in view.users && channel.name in view.channels && IsMember(view, channel.name, nick)
      requires Live([channel], channels, ChannelName)
      modifies Repr
      ensures Valid() && view == LeaveOne(old(view), channel.name, nick, message)
      ensures fresh(Repr - old(Repr))
      ensures old(userChannels.Passed(nick, channel.name, p)) ==> userChannels.At(nick, p - 1)
    {
      hide Shape, Inv, Membership.At, Membership.Passed, Live;
      var name := channel.name;
      LeaveFacts(view, name, nick);
      LeaveOneKeeps(view, name, nick, message);
      RegisterChannelLeave(name, nick, p);
      var count := ChannelUsersCount(name);
      if count == 0 {
        RemoveChannelData(name);
      } else {
        PostToChannel(channel, message);
      }
    }

    /** What leaving needs to know, before and after. */
    lemma LeaveFacts(v: View, name: string, nick: string)
      requires Inv(v) && nick in v.users && name in v.channels && IsMember(v, name, nick)
      ensures name in v.members && nick in v.joined && nick in v.members[name] && name in v.joined[nick]
      ensures NoDup(v.ready)
      ensures var w := Leave(v, name, nick);
              w.members[name] == [] ==> forall u <- w.joined :: name !in w.joined[u]
    {
      Mutual(v, nick, name);
      var w := Leave(v, name, nick);
      LeaveLists(v, name, nick);
      forall u | u in w.joined && w.members[name] == []
        ensures name !in w.joined[u]
      {
        Mutual(w, u, name);
      }
    }

    method ChannelUsersCount(name: string) returns (count: int)
      requires Shape() && name in view.members
      ensures count == |view.members[name]|
    {
      count := channelUsers.Count(name);
    }

    /** Walks the user's list while every channel visited is taken out of it. */
    method LeaveAllChannels(nick: string, message: string)
      requires Valid() && nick in view.users
      modifies Repr
      ensures Valid() && view == LeaveAll(old(view), nick, message)
      ensures fresh(Repr - old(Repr))
    {
      hide Shape, Inv, Membership.At, Membership.Passed, Live, LeaveAll, LeaveOne;
      InvKeys(view);
      FirstChannel(nick);
      var node := NextChannel(nick, 0);
      while node != null
        invariant Valid() && view.joined.Keys == view.users && nick in view.users
        invariant fresh(Repr - old(Repr))
        invariant node == null <==> view.joined[nick] == []
        invariant node != null ==>
                    && userChannels.At(nick, 1) && node.data.name == view.joined[nick][0]
                    && Live([node.data], channels, ChannelName)
        invariant LeaveAll(view, nick, message) == LeaveAll(old(view), nick, message)
        decreases |view.joined[nick]|
      {
        var channel := node.data;
        LeaveAllStep(view, nick, message);
        PassedFirst(nick);
        LeaveOneChannel(channel, nick, message, 1);
        node := NextChannel(nick, 0);
      }
      LeaveAllDone(view, nick, message);
    }

    lemma LeaveAllStep(v: View, u: Name, m: string)
      requires Inv(v) && u in v.users && v.joined[u] != []
      ensures var c := v.joined[u][0]; var w := LeaveOne(v, c, u, m);
              && c in v.channels && IsMember(v, c, u)
              && u in w.users && w.joined.Keys == w.users && |w.joined[u]| < |v.joined[u]|
              && LeaveAll(v, u, m) == LeaveAll(w, u, m)
    {
      FirstJoined(v, u);
      LeaveOneKeeps(v, v.joined[u][0], u, m);
    }

    lemma LeaveAllDone(v: View, u: Name, m: string)
      requires Inv(v) && u in v.users && v.joined[u] == []
      ensures LeaveAll(v, u, m) == v
    {
    }

    lemma PassedFirst(nick: string)
      requires Shape() && nick in view.joined && view.joined[nick] != [] && userChannels.At(nick, 1)
      ensures userChannels.Passed(nick, view.joined[nick][0], 1)
    {
      NamesAt(userChannels.view[nick], ChannelName);
    }

    // ----- the commands

    /** Registers a new nickname. The session stays consistent exactly when the table has room. */
    method HandleRegistration(user: User)
      requires Valid() && Enabled(view, Register(user.nickname))
      modifies Repr
      ensures Shape() && view == Apply(old(view), Register(user.nickname)) && fresh(Repr - old(Repr))
      ensures Valid() <==> Room(old(view), Register(user.nickname))
    {
      hide Shape, Inv;
      RegisterKeeps(view, user.nickname);
      InvKeys(view);
      RegisterUser(user);
    }

    /** handle_join_existing_channel. */
    method JoinExisting(nick: string, name: string, text: string)
      requires Shape() && nick in view.users && nick in view.joined && name in view.channels && name in view.members
      modifies Repr
      ensures Shape() && fresh(Repr - old(Repr))
      ensures view == if IsMember(old(view), name, nick) || |old(view).members[name]| == MAX_USERS_PER_CHANNEL then old(view)
                      else Post(Enter(old(view), name, nick), name, text)
    {
      hide Shape, Live, Post, Enter;
      ShapeKeys();
      var found := IsInChannel(name, nick);
      if !found {
        var full := IsChannelFull(name);
        if !full {
          RegisterExistingChannelJoin(name, nick);
          Found(name);
          PostToChannel(channels[name], text);
        }
      }
    }

    /** handle_join_new_channel. */
    method JoinNew(nick: string, name: string, text: string) returns (exited: bool)
      requires Shape() && nick in view.users && nick in view.joined && name !in view.channels && name !in view.members
      modifies Repr
      ensures Shape() && fresh(Repr - old(Repr))
      ensures exited == (ValidChannelName(name) && |old(view).channels| >= MAX_CHANNELS)
      ensures view == if !ValidChannelName(name) then old(view)
                      else if exited then Exit(old(view))
                      else Post(Enter(NewChannel(old(view), name), name, nick), name, text)
    {
      hide Shape, Live, Post, Enter, NewChannel, ValidChannelName, Exit;
      exited := false;
      ShapeKeys();
      TableSizes();
      if ValidChannelName(name) {
        if |channels| >= MAX_CHANNELS {
          exited := true;
          StopRunning();
        } else {
          var channel := new Channel(name);
          RegisterNewChannelJoin(channel, nick);
          PostToChannel(channel, text);
        }
      }
    }

    /** cmd_join with its two cases, up to the message for the channel. The session stays
        consistent exactly when there is room in the lists and the table. */
    method HandleJoin(nick: string, name: string, text: string) returns (exited: bool)
      requires Valid() && Enabled(view, Join(nick, name, text))
      modifies Repr
      ensures exited == !view.running
      ensures Shape() && view == Apply(old(view), Join(nick, name, text)) && fresh(Repr - old(Repr))
      ensures Valid() <==> Room(old(view), Join(nick, name, text))
    {
      hide Shape, Inv, Enter, NewChannel, ValidChannelName;
      exited := false;
      JoinKeeps(view, nick, name, text);
      InvKeys(view);
      ShapeKeys();
      if name in channels {
        JoinExisting(nick, name, text);
      } else {
        exited := JoinNew(nick, name, text);
      }
    }

    /** The lookup of a channel that is not in the table ends the program. */
    ghost method StopRunning()
      requires Shape()
      modifies this`view
      ensures Shape() && view == Exit(old(view))
    {
      hide Membership.Valid, Names, NameMap, AllLive, Live, Keyed;
      view := Exit(view);
    }

    method IsInChannel(name: string, nick: string) returns (found: bool)
      requires Shape() && name in view.members
      ensures found == IsMember(view, name, nick)
    {
      NamesMinus(channelUsers.view[name], Nickname, nick);
      found := channelUsers.Contains(name, nick);
    }

    method IsChannelFull(name: string) returns (full: bool)
      requires Shape() && name in view.members
      ensures full == (|view.members[name]| == MAX_USERS_PER_CHANNEL)
    {
      var count := ChannelUsersCount(name);
      full := count == MAX_USERS_PER_CHANNEL;
    }

    method HandlePart(nick: string, name: string, text: string)
      requires Valid() && Enabled(view, Part(nick, name, text))
      modifies Repr
      ensures Valid() && view == Apply(old(view), Part(nick, name, text)) && fresh(Repr - old(Repr))
    {
      hide Shape, Inv, Live, LeaveOne;
      InvKeys(view);
      ShapeKeys();
      if name in channels {
        var found := IsInChannel(name, nick);
        if found {
          Found(name);
          LeaveOneChannel(channels[name], nick, text, 0);
        }
      }
    }

    method HandlePrivMsg(nick: string, name: string, text: string)
      requires Valid() && Enabled(view, PrivMsg(nick, name, text))
      modifies Repr
      ensures Valid() && view == Apply(old(view), PrivMsg(nick, name, text)) && fresh(Repr - old(Repr))
    {
      hide Shape, Inv, Live;
      InvKeys(view);
      ShapeKeys();
      if name in channels {
        var found := IsInChannel(name, nick);
        if found {
          Found(name);
          PostKeeps(view, name, text);
          PostToChannel(channels[name], text);
        }
      }
    }

    method HandleQuit(nick: string, text: string)
      requires Valid() && Enabled(view, Quit(nick, text))
      modifies Repr
      ensures Valid() && view == Apply(old(view), Quit(nick, text)) && fresh(Repr - old(Repr))
    {
      hide Shape, Inv, LeaveAll;
      QuitKeeps(view, nick, text);
      LeaveAllLeft(view, nick, text);
      LeaveAllChannels(nick, text);
      InvKeys(view);
      assert forall c <- view.members :: !IsMember(view, c, nick);
      UnregisterUser(nick);
    }

    // ----- sending

    ghost function Fds(): map<string, int>
      reads this
    {
      map k <- users :: users[k].fd
    }

    /** One message to every member of the channel. */
    method SendToMembers(name: string, message: string, network: Network, ghost slot: nat)
      requires Shape() && name in view.members && network !in Repr
      modifies network
      ensures network.log == old(network.log) + Calls(ToMembers(name, slot, message, view.members[name]), Fds())
    {
      hide Shape, Membership.Valid, Drained;
      var visited := MembersOf(name);
      ghost var calls := Calls(ToMembers(name, slot, message, view.members[name]), Fds());
      for i := 0 to |visited|
        invariant network.log == old(network.log) + calls[..i]
      {
        network.ServerWrite(visited[i].fd, message);
      }
      assert calls[..|calls|] == calls;
    }

    method MembersOf(name: string) returns (visited: seq<User>)
      requires Shape() && name in view.members
      ensures |visited| == |view.members[name]|
      ensures forall i :: 0 <= i < |visited| ==>
                view.members[name][i] in users && users[view.members[name][i]].fd == visited[i].fd
    {
      visited := channelUsers.Iterate(name);
      NamesAt(visited, Nickname);
    }

    /** send_channel_queue_messages: drains the queue, each message to all members. */
    method SendChannelQueue(channel: Channel, network: Network)
      requires Shape() && Live([channel], channels, ChannelName) && channel.name in view.members
      requires network !in Repr
      modifies channel, this`view, network
      ensures Shape() && view == old(view).(queues := old(view).queues[channel.name := []])
      ensures network.log == old(network.log) + Calls(OfChannel(old(view), channel.name), Fds())
    {
      hide Shape, Live, Calls, Drained, ToMembers, OfChannel;
      LiveQueue(channel);
      var name := channel.name;
      ghost var q, nicks, fds, slot := channel.outQueue, view.members[name], Fds(), 0;
      ghost var all := Calls(OfChannel(view, name), fds);
      DrainedWhole(view, name);
      while channel.outQueue != []
        invariant Shape() && slot <= |q| && channel.outQueue == q[slot..]
        invariant view == old(view).(queues := old(view).queues[name := q[slot..]])
        invariant network.log + Calls(Drained(name, q, slot, nicks), fds) == old(network.log) + all
        decreases |channel.outQueue|
      {
        DrainedNext(name, q, slot, nicks, fds, network.log);
        var message := DequeueFromChannelQueue(channel);
        SendToMembers(name, message, network, slot);
        slot := slot + 1;
      }
      DrainedEnd(name, q, nicks, fds, network.log);
    }

    lemma DrainedWhole(v: View, name: string)
      ensures OfChannel(v, name) == Drained(name, Get(v.queues, name), 0, Get(v.members, name))
    {
    }

    lemma DrainedNext(name: string, q: seq<string>, slot: nat, nicks: seq<Name>, fds: map<string, int>, log: seq<Written>)
      requires slot < |q|
      ensures log + Calls(Drained(name, q, slot, nicks), fds) ==
              log + Calls(ToMembers(name, slot, q[slot], nicks), fds) + Calls(Drained(name, q, slot + 1, nicks), fds)
    {
      var a, b := ToMembers(name, slot, q[slot], nicks), Drained(name, q, slot + 1, nicks);
      CallsAppend(a, b, fds);
      Associative(log, Calls(a, fds), Calls(b, fds));
    }

    lemma DrainedEnd(name: string, q: seq<string>, nicks: seq<Name>, fds: map<string, int>, log: seq<Written>)
      ensures log + Calls(Drained(name, q, |q|, nicks), fds) == log
    {
    }

    method DequeueFromChannelQueue(channel: Channel) returns (message: string)
      requires Shape() && Live([channel], channels, ChannelName) && channel.outQueue != []
      modifies channel, this`view
      ensures Shape() && message == old(channel.outQueue)[0] && channel.outQueue == old(channel.outQueue)[1..]
      ensures view == old(view).(queues := old(view).queues[channel.name := channel.outQueue])
    {
      hide Shape, Live, CursorsKept;
      message := channel.outQueue[0];
      channel.outQueue := channel.outQueue[1..];
      view := view.(queues := view.queues[channel.name := channel.outQueue]);
      QueueChanged(channel);
    }

    /** One turn of the flush: `v` is the view it started from. */
    method SendNext(i: nat, network: Network, ghost v: View)
      requires Shape() && network !in Repr && Inv(v) && i < |readyChannels|
      requires v.ready == view.ready && i < |v.ready| && view == Flushed(v, v.ready[..i])
      modifies Repr, network
      ensures Shape() && unchanged(this`channels, this`users, this`readyChannels, this`Repr)
      ensures view == Flushed(v, v.ready[..i + 1])
      ensures network.log == old(network.log) + Calls(OfChannel(v, v.ready[i]), old(Fds()))
    {
      hide Shape, Inv, Live, Calls, Drained, Flushed, OfChannel;
      ReadyFacts();
      ReadyAt(i);
      NextFlushed(v, i);
      SendChannelQueue(readyChannels[i], network);
    }

    /** Sends what every ready channel has queued. */
    method SendReadyQueues(network: Network)
      requires Valid() && network !in Repr
      modifies Repr, network
      ensures Shape() && view == Flushed(old(view), old(view).ready)
      ensures unchanged(this`channels, this`users, this`readyChannels, this`Repr)
      ensures network.log == old(network.log) + Calls(Deliveries(old(view), old(view).ready), old(Fds()))
    {
      hide Shape, Inv, Live, Calls, Deliveries, OfChannel, Flushed;
      ghost var v, fds := view, Fds();
      ReadyFacts();
      FlushedFacts(v, fds);
      ghost var sent := Calls(Deliveries(v, v.ready[..0]), fds);
      for i := 0 to |readyChannels|
        invariant Shape() && unchanged(this`channels, this`users, this`readyChannels, this`Repr)
        invariant view == Flushed(v, v.ready[..i])
        invariant sent == Calls(Deliveries(v, v.ready[..i]), fds)
        invariant network.log == old(network.log) + sent
      {
        SentNext(v, i, fds);
        SendNext(i, network, v);
        sent := sent + Calls(OfChannel(v, v.ready[i]), fds);
      }
      assert v.ready[..|readyChannels|] == v.ready;
    }

    /** send_socket_messages, as far as channels go: the sockets get exactly what was queued. */
    method SendSocketMessages(network: Network)
      requires Valid() && network !in Repr
      modifies Repr, network
      ensures Valid() && view == Apply(old(view), Flush) && Repr == old(Repr)
      ensures network.log == old(network.log) + Calls(Deliveries(old(view), old(view).ready), old(Fds()))
      ensures old(network.log) <= network.log
      ensures exists s :: Flushes(old(view), old(Fds()), s, network.log[|old(network.log)|..])
      ensures old(Fds()).Keys == old(users).Keys && forall k <- old(users) :: old(Fds())[k] == old(users[k].fd)
    {
      hide Shape, Inv, Live, Calls, Deliveries, OfChannel, Flushed, Flushes;
      ghost var v, fds := view, Fds();
      ShapeKeys();
      FlushKeeps(v);
      FlushedFacts(v, fds);
      FlushLogged(v, fds);
      SendReadyQueues(network);
      LogGrown(old(network.log), Calls(Deliveries(v, v.ready), fds));
      ResetReady();
    }

    lemma LogGrown(before: seq<Written>, entries: seq<Written>)
      ensures before <= before + entries && (before + entries)[|before|..] == entries
    {
    }

    lemma FlushedFacts(v: View, fds: map<string, int>)
      requires Inv(v)
      ensures forall i :: 0 <= i <= |v.ready| ==> Flushed(v, v.ready[..i]).ready == v.ready
      ensures Flushed(v, v.ready).(ready := []) == Apply(v, Flush)
      ensures Calls(Deliveries(v, v.ready[..0]), fds) == []
    {
      assert Flushed(v, v.ready).queues == Apply(v, Flush).queues;
    }

    lemma SentNext(v: View, i: nat, fds: map<string, int>)
      requires Inv(v) && i < |v.ready|
      ensures Calls(Deliveries(v, v.ready[..i + 1]), fds) ==
              Calls(Deliveries(v, v.ready[..i]), fds) + Calls(OfChannel(v, v.ready[i]), fds)
    {
      hide Inv, Calls;
      assert v.ready[..i + 1] == v.ready[..i] + [v.ready[i]];
      DeliveriesAppend(v, v.ready[..i], [v.ready[i]]);
      assert [v.ready[i]][1..] == [] && Deliveries(v, []) == [];
      assert Deliveries(v, [v.ready[i]]) == OfChannel(v, v.ready[i]) + [] == OfChannel(v, v.ready[i]);
      CallsAppend(Deliveries(v, v.ready[..i]), OfChannel(v, v.ready[i]), fds);
    }

    /** The queues of the given channels are empty. */
    ghost function Flushed(v: View, done: seq<Name>): View
    {
      v.(queues := map c <- v.queues :: if c in done then [] else v.queues[c])
    }

    lemma NextFlushed(v: View, i: nat)
      requires Inv(v) && i < |v.ready|
      ensures var c := v.ready[i]; var before := Flushed(v, v.ready[..i]);
              && c in v.members && before.members == v.members && OfChannel(before, c) == OfChannel(v, c)
              && before.(queues := before.queues[c := []]) == Flushed(v, v.ready[..i + 1])
    {
      var c := v.ready[i];
      assert v.ready[..i + 1] == v.ready[..i] + [c];
      assert c !in v.ready[..i];
      assert Flushed(v, v.ready[..i]).queues[c := []] == Flushed(v, v.ready[..i + 1]).queues;
    }

    lemma ReadyFacts()
      requires Shape()
      ensures |readyChannels| == |view.ready| && Flushed(view, view.ready[..0]) == view
      ensures this in Repr && (forall c <- readyChannels :: c in Repr)
    {
      assert Flushed(view, view.ready[..0]).queues == view.queues;
    }

    lemma ReadyAt(i: nat)
      requires Shape() && i < |readyChannels|
      ensures Live([readyChannels[i]], channels, ChannelName)
      ensures i < |view.ready| && readyChannels[i].name == view.ready[i]
    {
      NamesAt(readyChannels, ChannelName);
    }

    /** reset_linked_list on the ready channels. */
    method ResetReady()
      requires Shape()
      modifies this`readyChannels, this`view
      ensures Shape() && view == old(view).(ready := [])
    {
      hide Membership.Valid, Names, NameMap, AllLive;
      NamesNone<Channel>(ChannelName);
      readyChannels, view := [], view.(ready := []);
    }
  }
}
