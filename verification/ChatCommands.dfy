/**
 What single chat commands keep and undo, with the exact condition where a command does not always keep it.
 */
module ChatCommands {
  import opened Sequences
  import opened ChatRegistry
  import opened ChatIntegrity
  import opened ChatRemoval

  // ---------------------------------------------------------------- guest names

  lemma {:induction false} DecimalLength(n: nat, digits: nat, bound: nat)
    requires digits >= 1 && n < bound && bound == Power(digits)
    ensures 1 <= |Decimal(n)| <= digits
    decreases digits
  {
    if n >= 10 {
      assert digits >= 2;
      DecimalLength(n / 10, digits - 1, Power(digits - 1));
    }
  }

  function Power(digits: nat): nat { if digits == 0 then 1 else 10 * Power(digits - 1) }

  lemma {:induction false} DecimalInjective(m: nat, n: nat)
    requires Decimal(m) == Decimal(n)
    ensures m == n
    decreases m
  {
    var a, b := Decimal(m), Decimal(n);
    assert a[|a| - 1] == Digit(m % 10) && b[|b| - 1] == Digit(n % 10);
    DecimalNotEmpty(m / 10);
    DecimalNotEmpty(n / 10);
    if m >= 10 {
      assert a[..|a| - 1] == Decimal(m / 10) && b[..|b| - 1] == Decimal(n / 10);
      DecimalInjective(m / 10, n / 10);
    }
  }

  lemma DecimalNotEmpty(n: nat)
    ensures |Decimal(n)| >= 1
  {
  }

  lemma GuestNameFits(s: Socket)
    ensures |GuestName(s)| <= USERNAME_CHARS
  {
    assert Power(10) == 10_000_000_000 by {
      assert Power(3) == 1000;
      assert Power(6) == 1000_000;
    }
    DecimalLength(s, 10, Power(10));
  }

  lemma GuestNameInjective(s: Socket, t: Socket)
    ensures GuestName(s) == GuestName(t) <==> s == t
  {
    if GuestName(s) == GuestName(t) {
      assert GuestName(s)[5..] == Decimal(s) && GuestName(t)[5..] == Decimal(t);
      DecimalInjective(s, t);
    }
  }

  predicate GuestLike(name: string) {
    exists s: Socket :: name == GuestName(s)
  }

  // ---------------------------------------------------------------- single commands

  /** Room names as stored fit their buffer. */
  ghost predicate NamesFit(rooms: seq<Room>) {
    forall k | 0 <= k < |rooms| :: |rooms[k].name| <= ROOMNAME_CHARS
  }

  lemma CreateKeeps(r: Registry, c: Socket, room: string)
    requires Integrity(r) && |room| <= ROOMNAME_CHARS
    ensures Integrity(Perform(r, c, Create(room))) && Perform(r, c, Create(room)).users == r.users
  {
    ApplyOne(r, OpAddRoom(room));
    AddRoomKeeps(r.rooms, Sockets(r.users), room);
  }

  /** Creating a room keeps the registry in order exactly when its name fits or its stored form is not in use. */
  lemma CreateKeepsExactly(r: Registry, c: Socket, room: string)
    requires Integrity(r) && NamesFit(r.rooms)
    ensures Integrity(Perform(r, c, Create(room))) <==>
      |room| <= ROOMNAME_CHARS || FindRoom(r.rooms, Truncate(room, ROOMNAME_CHARS)) == |r.rooms|
  {
    ApplyOne(r, OpAddRoom(room));
    AddRoomUnique(r.rooms, room);
    var rooms', live := AddRoom(r.rooms, room), Sockets(r.users);
    forall k ensures MembersOk(rooms', live, k) {
      assert MembersOk(r.rooms, live, k) && MembersOk(r.rooms, live, k - 1);
    }
  }

  lemma JoinKeeps(r: Registry, c: Socket, room: string)
    requires Integrity(r) && |room| <= ROOMNAME_CHARS && c in Sockets(r.users)
    ensures Integrity(Perform(r, c, Join(room))) && Perform(r, c, Join(room)).users == r.users
  {
    ApplyTwo(r, OpAddRoom(room), OpAddMember(c, room));
    AddRoomKeeps(r.rooms, Sockets(r.users), room);
    AddMemberKeeps(AddRoom(r.rooms, room), Sockets(r.users), c, room);
  }

  /** Joining keeps the registry in order exactly when a live client joins a room whose name fits, or when the name does not
      fit and its stored form is not in use; then the room is created and nobody joins it. */
  lemma JoinKeepsExactly(r: Registry, c: Socket, room: string)
    requires Integrity(r) && NamesFit(r.rooms)
    ensures Integrity(Perform(r, c, Join(room))) <==>
      if |room| <= ROOMNAME_CHARS then c in Sockets(r.users) else FindRoom(r.rooms, Truncate(room, ROOMNAME_CHARS)) == |r.rooms|
  {
    ApplyTwo(r, OpAddRoom(room), OpAddMember(c, room));
    var live, rooms := Sockets(r.users), AddRoom(r.rooms, room);
    var k, rooms' := FindRoom(rooms, room), AddMember(rooms, c, room);
    RoomFound(rooms, room);
    if |room| <= ROOMNAME_CHARS {
      AddRoomKeeps(r.rooms, live, room);
      if c in live {
        AddMemberKeeps(rooms, live, c, room);
      } else {
        assert c in rooms'[k].members;
        assert !MembersOk(rooms', live, k);
      }
    } else {
      NamesStayFit(r.rooms, room);
      assert rooms' == rooms;
      ApplyOne(r, OpAddRoom(room));
      CreateKeepsExactly(r, c, room);
    }
  }

  lemma NamesStayFit(rooms: seq<Room>, name: string)
    requires NamesFit(rooms)
    ensures NamesFit(AddRoom(rooms, name))
  {
  }

  lemma LeaveKeeps(r: Registry, c: Socket, room: string)
    requires Integrity(r)
    ensures Integrity(Perform(r, c, Leave(room))) && Perform(r, c, Leave(room)).users == r.users
  {
    ApplyOne(r, OpDropMember(c, room));
    DropMemberKeeps(r.rooms, Sockets(r.users), c, room);
  }

  /** A login changes no room and no socket. */
  lemma LoginKeeps(r: Registry, c: Socket, name: string)
    requires Integrity(r)
    ensures var r' := Perform(r, c, Login(name));
      Integrity(r') && r'.rooms == r.rooms && SameUsers(r.users, r'.users) && Sockets(r'.users) == Sockets(r.users)
  {
    ApplyOne(r, OpRename(c, name));
    RenameKeeps(r.users, c, name);
    SameUsersSockets(r.users, Rename(r.users, c, name));
  }

  /** What connect does to the users when it finds its peer and is not connected to it yet. */
  lemma ConnectResult(r: Registry, c: Socket, name: string)
    requires Integrity(r) && c in Sockets(r.users)
    ensures var from, to := FindSocket(r.users, c), FindName(r.users, name);
      && from < |r.users|
      && Perform(r, c, Connect(name)) ==
         if to == |r.users| || r.users[to].socket in r.users[from].dm then r else r.(users := Peered(r.users, from, to))
  {
    SocketFound(r.users, c);
    var from, to := FindSocket(r.users, c), FindName(r.users, name);
    if to < |r.users| {
      SocketAt(r.users, to);
      ApplyTwo(r, OpAddPeer(from, r.users[to].socket), OpAddPeer(to, c));
    }
  }

  lemma DisconnectResult(r: Registry, c: Socket, name: string)
    requires Integrity(r) && c in Sockets(r.users)
    ensures var from, to := FindSocket(r.users, c), FindName(r.users, name);
      && from < |r.users|
      && Perform(r, c, Disconnect(name)) == if to == |r.users| then r else r.(users := Unpeered(r.users, from, to))
  {
    SocketFound(r.users, c);
    var from, to := FindSocket(r.users, c), FindName(r.users, name);
    if to < |r.users| {
      SocketAt(r.users, to);
      ApplyTwo(r, OpDropPeer(from, r.users[to].socket), OpDropPeer(to, c));
    }
  }

  lemma PeeringKeeps(r: Registry, c: Socket, cmd: Command)
    requires Integrity(r) && c in Sockets(r.users) && (cmd.Connect? || cmd.Disconnect?)
    ensures var r' := Perform(r, c, cmd);
      Integrity(r') && r'.rooms == r.rooms && SameUsers(r.users, r'.users) && Sockets(r'.users) == Sockets(r.users)
    ensures forall i | 0 <= i < |r.users| :: Perform(r, c, cmd).users[i].name == r.users[i].name
  {
    var from, to := FindSocket(r.users, c), FindName(r.users, cmd.name);
    if cmd.Connect? {
      ConnectResult(r, c, cmd.name);
      if to < |r.users| && r.users[to].socket !in r.users[from].dm {
        ConnectKeeps(r.users, from, to);
        SameUsersSockets(r.users, Peered(r.users, from, to));
      }
    } else {
      DisconnectResult(r, c, cmd.name);
      if to < |r.users| {
        DisconnectKeeps(r.users, from, to);
        SameUsersSockets(r.users, Unpeered(r.users, from, to));
      }
    }
  }

  /** Disconnecting right after connecting for the first time restores the registry, also for a user connected to itself. */
  lemma ConnectUndone(r: Registry, c: Socket, name: string)
    requires Integrity(r) && c in Sockets(r.users)
    requires var to := FindName(r.users, name); to < |r.users| ==> !IsPeer(r.users, c, r.users[to].socket)
    ensures Perform(Perform(r, c, Connect(name)), c, Disconnect(name)) == r
  {
    var from, to := FindSocket(r.users, c), FindName(r.users, name);
    ConnectResult(r, c, name);
    DisconnectResult(r, c, name);
    if to < |r.users| {
      var users' := Peered(r.users, from, to);
      var r1 := r.(users := users');
      ConnectKeeps(r.users, from, to);
      SameUsersSockets(r.users, users');
      DisconnectResult(r1, c, name);
      SameNames(r.users, users', name);
      SocketFound(r.users, c);
      SocketAt(users', from);
      RemovedAgain(r.users, from, to);
    }
  }

  lemma SameNames(users: seq<User>, users': seq<User>, name: string)
    requires |users'| == |users| && forall i | 0 <= i < |users| :: users'[i].name == users[i].name
    ensures FindName(users', name) == FindName(users, name)
  {
    FirstFinds(users, HasName(name));
    FirstUnique(users', HasName(name), FindName(users, name));
  }

  lemma RemovedAgain(users: seq<User>, from: nat, to: nat)
    requires from < |users| && to < |users|
    ensures Unpeered(Peered(users, from, to), from, to) == users
  {
    var f, t, d, e := users[from].socket, users[to].socket, users[from].dm, users[to].dm;
    var both := Peered(users, from, to);
    FrontRemoved(d, t);
    FrontRemoved(e, f);
    if from == to {
      FrontRemoved([t] + d, t);
      assert both[from] == users[from].(dm := [t] + ([t] + d));
      assert DropPeer(both, from, t)[from] == users[from].(dm := [t] + d);
    } else {
      assert both[from] == users[from].(dm := [t] + d) && both[to] == users[to].(dm := [f] + e);
      assert DropPeer(both, from, t)[from] == users[from] && DropPeer(both, from, t)[to] == both[to];
    }
  }

  lemma FrontRemoved(v: seq<Socket>, s: Socket)
    ensures RemoveFirst([s] + v, s) == v
  {
    FirstUnique([s] + v, Equals(s), 0);
  }

  // ---------------------------------------------------------------- coming and going

  lemma ArriveResult(r: Registry, c: Socket)
    ensures Perform(r, c, Arrive) ==
      Registry(AddUser(r.users, c, GuestName(c)), AddMember(AddRoom(AddRoom(r.rooms, DEFAULT_ROOM), DEFAULT_ROOM), c, DEFAULT_ROOM))
  {
    var a, b, m := OpAddUser(c, GuestName(c)), OpAddRoom(DEFAULT_ROOM), OpAddMember(c, DEFAULT_ROOM);
    assert Plan(r, c, Arrive) == [a, b] + [b, m];
    ApplyAllConcat(r, [a, b], [b, m]);
    ApplyTwo(r, a, b);
    ApplyTwo(Apply(Apply(r, a), b), b, m);
  }

  lemma DefaultRoomThere(rooms: seq<Room>, live: set<Socket>)
    requires RoomsOk(rooms, live)
    ensures var rooms' := AddRoom(AddRoom(rooms, DEFAULT_ROOM), DEFAULT_ROOM);
      RoomsOk(rooms', live) && FindRoom(rooms', DEFAULT_ROOM) < |rooms'|
  {
    AddRoomKeeps(rooms, live, DEFAULT_ROOM);
  }

  /** With its guest name free, a new client is added as a user without peers, and becomes a member of the default room. */
  lemma ArriveKeeps(r: Registry, c: Socket)
    requires Integrity(r) && c !in Sockets(r.users) && FindName(r.users, GuestName(c)) == |r.users|
    ensures var r' := Perform(r, c, Arrive);
      && Integrity(r') && r'.users == [User(GuestName(c), c, [])] + r.users
      && Sockets(r'.users) == Sockets(r.users) + {c}
  {
    ArriveResult(r, c);
    GuestNameFits(c);
    AddUserKeeps(r.users, c, GuestName(c));
    var live := Sockets(r.users) + {c};
    RoomsStayOk(r.rooms, Sockets(r.users), live);
    DefaultRoomThere(r.rooms, live);
    AddMemberKeeps(AddRoom(AddRoom(r.rooms, DEFAULT_ROOM), DEFAULT_ROOM), live, c, DEFAULT_ROOM);
  }

  lemma RoomsStayOk(rooms: seq<Room>, live: set<Socket>, live': set<Socket>)
    requires RoomsOk(rooms, live) && live <= live'
    ensures RoomsOk(rooms, live')
  {
    forall k ensures MembersOk(rooms, live', k) { assert MembersOk(rooms, live, k); }
  }

  /** An arrival leaves the registry in order exactly when the client's socket is in use if and only if its guest name
      is.  With only the name in use the client is not added as a user, but becomes a member of the default room all the
      same; with only the socket in use there are two users with one socket. */
  lemma ArriveKeepsExactly(r: Registry, c: Socket)
    requires Integrity(r)
    ensures Integrity(Perform(r, c, Arrive)) <==> (c in Sockets(r.users) <==> FindName(r.users, GuestName(c)) < |r.users|)
  {
    ArriveResult(r, c);
    var live := Sockets(r.users);
    DefaultRoomThere(r.rooms, live);
    var rooms := AddRoom(AddRoom(r.rooms, DEFAULT_ROOM), DEFAULT_ROOM);
    var k, rooms', users' := FindRoom(rooms, DEFAULT_ROOM), AddMember(rooms, c, DEFAULT_ROOM), Perform(r, c, Arrive).users;
    if FindName(r.users, GuestName(c)) < |r.users| {
      if c in live {
        AddMemberKeeps(rooms, live, c, DEFAULT_ROOM);
      } else {
        assert c in rooms'[k].members;
        assert !MembersOk(rooms', live, k);
      }
    } else if c !in live {
      ArriveKeeps(r, c);
    } else {
      SocketFound(r.users, c);
      assert users'[FindSocket(r.users, c) + 1] == r.users[FindSocket(r.users, c)];
      assert !DifferentSockets(users', 0, FindSocket(r.users, c) + 1);
    }
  }

  ghost predicate HonestAt(users: seq<User>, i: int, s: Socket) {
    0 <= i < |users| && users[i].name == GuestName(s) ==> users[i].socket == s
  }

  /** A user with a guest name has the socket that the name says. */
  ghost predicate GuestsHonest(users: seq<User>) {
    forall i, s :: HonestAt(users, i, s)
  }

  lemma GuestLookup(users: seq<User>, c: Socket)
    requires UniqueSockets(users) && GuestsHonest(users) && c in Sockets(users)
    ensures var k := FindSocket(users, c);
      k < |users| && FindName(users, GuestName(c)) == if users[k].name == GuestName(c) then k else |users|
  {
    SocketFound(users, c);
    NameFound(users, GuestName(c));
    var k, u := FindSocket(users, c), FindName(users, GuestName(c));
    if u < |users| {
      assert HonestAt(users, u, c);
      SocketAt(users, u);
    }
  }
}
