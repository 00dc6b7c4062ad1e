/**
 What chat commands mean: who is called what, who is a member of which room, and who is whose peer, afterwards
 and before.
 */
module ChatMeaning {
  import opened Sequences
  import opened ChatRegistry
  import opened ChatIntegrity
  import opened ChatRemoval
  import opened ChatCommands

  /** The user with socket s is called name. */
  predicate IsNamed(users: seq<User>, s: Socket, name: string) {
    var k := FindSocket(users, s);
    k < |users| && users[k].name == name
  }

  /** Socket t is a member of the room of that name. */
  predicate IsMember(rooms: seq<Room>, name: string, t: Socket) {
    var k := FindRoom(rooms, name);
    k < |rooms| && t in rooms[k].members
  }

  // ---------------------------------------------------------------- membership

  lemma FindRoomBehind(rooms: seq<Room>, r: Room, name: string)
    ensures FindRoom([r] + rooms, name) == if r.name == name then 0 else 1 + FindRoom(rooms, name)
  {
    assert ([r] + rooms)[1..] == rooms;
  }

  lemma AddRoomMembers(rooms: seq<Room>, name: string, n: string, t: Socket)
    requires |name| <= ROOMNAME_CHARS
    ensures IsMember(AddRoom(rooms, name), n, t) <==> IsMember(rooms, n, t)
  {
    FindRoomBehind(rooms, Room(name, []), n);
  }

  lemma SameRoomNames(rooms: seq<Room>, rooms': seq<Room>, n: string)
    requires |rooms'| == |rooms| && forall k | 0 <= k < |rooms| :: rooms'[k].name == rooms[k].name
    ensures FindRoom(rooms', n) == FindRoom(rooms, n)
  {
    FirstFinds(rooms, IsRoom(n));
    FirstUnique(rooms', IsRoom(n), FindRoom(rooms, n));
  }

  lemma AddMemberMembers(rooms: seq<Room>, s: Socket, name: string, n: string, t: Socket)
    ensures IsMember(AddMember(rooms, s, name), n, t) <==>
      IsMember(rooms, n, t) || (n == name && t == s && FindRoom(rooms, name) < |rooms|)
  {
    SameRoomNames(rooms, AddMember(rooms, s, name), n);
    RoomFound(rooms, name);
    RoomFound(rooms, n);
  }

  lemma RemovedOnce(v: seq<Socket>, s: Socket, t: Socket)
    requires multiset(v)[s] <= 1
    ensures t in RemoveFirst(v, s) <==> t in v && t != s
  {
    RemoveFirstCounts(v, s);
    assert t in v <==> t in multiset(v);
    assert t in RemoveFirst(v, s) <==> t in multiset(RemoveFirst(v, s));
  }

  lemma DropMemberMembers(rooms: seq<Room>, live: set<Socket>, s: Socket, name: string, n: string, t: Socket)
    requires RoomsOk(rooms, live)
    ensures IsMember(DropMember(rooms, s, name), n, t) <==> IsMember(rooms, n, t) && !(n == name && t == s)
  {
    SameRoomNames(rooms, DropMember(rooms, s, name), n);
    RoomFound(rooms, name);
    RoomFound(rooms, n);
    var k := FindRoom(rooms, name);
    if k < |rooms| {
      assert MembersOk(rooms, live, k);
      RemovedOnce(rooms[k].members, s, t);
    }
  }

  lemma ExitMembers(r: Registry, s: Socket, n: string, t: Socket)
    requires Integrity(r) && s in Sockets(r.users)
    ensures IsMember(Perform(r, s, Exit).rooms, n, t) <==> IsMember(r.rooms, n, t) && t != s
  {
    ExitResult(r, s);
    SameRoomNames(r.rooms, Cleared(r, s).rooms, n);
    var k := FindRoom(r.rooms, n);
    if k < |r.rooms| {
      ClearedMembers(r, s, k, t);
      assert t in r.rooms[k].members <==> t in multiset(r.rooms[k].members);
      assert t in Cleared(r, s).rooms[k].members <==> t in multiset(Cleared(r, s).rooms[k].members);
    }
  }

  lemma JoinMembers(r: Registry, c: Socket, room: string, n: string, t: Socket)
    requires Integrity(r) && |room| <= ROOMNAME_CHARS
    ensures IsMember(Perform(r, c, Join(room)).rooms, n, t) <==> IsMember(r.rooms, n, t) || (n == room && t == c)
  {
    ApplyTwo(r, OpAddRoom(room), OpAddMember(c, room));
    AddRoomMembers(r.rooms, room, n, t);
    AddRoomKeeps(r.rooms, Sockets(r.users), room);
    AddMemberMembers(AddRoom(r.rooms, room), c, room, n, t);
  }

  /** What the client's command does to membership: join adds the client to one room, leave takes it out of one, exit
      out of all, and nothing else changes who is where. */
  lemma MembershipAfter(r: Registry, c: Socket, cmd: Command, n: string, t: Socket)
    requires Integrity(r) && c in Sockets(r.users) && !cmd.Arrive? && !cmd.Drop?
    requires cmd.Create? || cmd.Join? ==> |cmd.room| <= ROOMNAME_CHARS
    ensures var before := IsMember(r.rooms, n, t);
      IsMember(Perform(r, c, cmd).rooms, n, t) <==>
        match cmd
        case Join(room) => before || (n == room && t == c)
        case Leave(room) => before && !(n == room && t == c)
        case Exit => before && t != c
        case _ => before
  {
    match cmd
    case Create(room) =>
      ApplyOne(r, OpAddRoom(room));
      AddRoomMembers(r.rooms, room, n, t);
    case Join(room) => JoinMembers(r, c, room, n, t);
    case Leave(room) =>
      ApplyOne(r, OpDropMember(c, room));
      DropMemberMembers(r.rooms, Sockets(r.users), c, room, n, t);
    case Connect(name) => PeeringKeeps(r, c, cmd);
    case Disconnect(name) => PeeringKeeps(r, c, cmd);
    case Login(name) => LoginKeeps(r, c, name);
    case Exit => ExitMembers(r, c, n, t);
    case _ =>
  }

  /** A new client becomes a member of the default room and of no other. */
  lemma MembershipAfterArrival(r: Registry, c: Socket, n: string, t: Socket)
    requires Integrity(r)
    ensures IsMember(Perform(r, c, Arrive).rooms, n, t) <==> IsMember(r.rooms, n, t) || (n == "Lobby" && t == c)
  {
    ArriveResult(r, c);
    DefaultRoomThere(r.rooms, Sockets(r.users));
    var one := AddRoom(r.rooms, DEFAULT_ROOM);
    AddRoomMembers(r.rooms, DEFAULT_ROOM, n, t);
    AddRoomMembers(one, DEFAULT_ROOM, n, t);
    AddMemberMembers(AddRoom(one, DEFAULT_ROOM), c, DEFAULT_ROOM, n, t);
  }

  // ---------------------------------------------------------------- peers

  lemma PeerByTimes(users: seq<User>, i: nat, b: Socket)
    requires UniqueSockets(users) && i < |users|
    ensures IsPeer(users, users[i].socket, b) <==> Times(users, i, b) > 0
  {
    SocketAt(users, i);
    assert b in users[i].dm <==> b in multiset(users[i].dm);
  }

  lemma PeeredTimes(users: seq<User>, from: nat, to: nat, i: nat, b: Socket)
    requires from < |users| && to < |users| && i < |users|
    ensures Times(Peered(users, from, to), i, b) ==
      Times(users, i, b) + (if i == from && b == users[to].socket then 1 else 0) + (if i == to && b == users[from].socket then 1 else 0)
  {
    AddPeerTimes(users, from, users[to].socket, i, b);
    AddPeerTimes(AddPeer(users, from, users[to].socket), to, users[from].socket, i, b);
  }

  lemma UnpeeredTimes(users: seq<User>, from: nat, to: nat, i: nat, b: Socket)
    requires UsersOk(users) && from < |users| && to < |users| && i < |users|
    ensures Times(Unpeered(users, from, to), i, b) ==
      if (i == from && b == users[to].socket) || (i == to && b == users[from].socket) then 0 else Times(users, i, b)
  {
    assert Mutual(users, from, to);
    assert DifferentSockets(users, from, to) && DifferentSockets(users, to, from);
    DropPeerTimes(users, from, users[to].socket, i, b);
    DropPeerTimes(DropPeer(users, from, users[to].socket), to, users[from].socket, i, b);
  }

  /** a and b are c and t, in one order or the other. */
  predicate ArePair(a: Socket, b: Socket, c: Socket, t: Socket) {
    (a == c && b == t) || (a == t && b == c)
  }

  lemma PeeringMeaning(r: Registry, c: Socket, cmd: Command, a: Socket, b: Socket)
    requires Integrity(r) && c in Sockets(r.users) && (cmd.Connect? || cmd.Disconnect?)
    ensures var u := FindName(r.users, cmd.name);
      IsPeer(Perform(r, c, cmd).users, a, b) <==>
        if u < |r.users| && ArePair(a, b, c, r.users[u].socket) then cmd.Connect? else IsPeer(r.users, a, b)
  {
    var from, to, i, users' := FindSocket(r.users, c), FindName(r.users, cmd.name), FindSocket(r.users, a), Perform(r, c, cmd).users;
    SocketFound(r.users, c);
    SocketFound(r.users, a);
    PeeringKeeps(r, c, cmd);
    SocketFound(users', a);
    if cmd.Connect? { ConnectResult(r, c, cmd.name); } else { DisconnectResult(r, c, cmd.name); }
    if to < |r.users| {
      SocketIn(r.users, to);
      if i < |r.users| {
        PeerByTimes(r.users, i, b);
        PeerByTimes(users', i, b);
        PeeredTimes(r.users, from, to, i, b);
        UnpeeredTimes(r.users, from, to, i, b);
        PairByPosition(r.users, from, to, i, b);
        AlreadyMutual(r.users, from, to);
      }
    }
  }

  lemma PairByPosition(users: seq<User>, from: nat, to: nat, i: nat, b: Socket)
    requires UniqueSockets(users) && from < |users| && to < |users| && i < |users|
    ensures ArePair(users[i].socket, b, users[from].socket, users[to].socket) <==>
      (i == from && b == users[to].socket) || (i == to && b == users[from].socket)
  {
    SocketAt(users, i);
    SocketAt(users, from);
    SocketAt(users, to);
  }

  lemma AlreadyMutual(users: seq<User>, from: nat, to: nat)
    requires UsersOk(users) && from < |users| && to < |users|
    ensures users[to].socket in users[from].dm ==> Times(users, from, users[to].socket) > 0 && Times(users, to, users[from].socket) > 0
    ensures users[to].socket !in users[from].dm ==> Times(users, from, users[to].socket) == 0
  {
    assert Mutual(users, from, to);
  }

  lemma ExitPeers(r: Registry, s: Socket, a: Socket, b: Socket)
    requires Integrity(r) && s in Sockets(r.users)
    ensures IsPeer(Perform(r, s, Exit).users, a, b) <==> IsPeer(r.users, a, b) && a != s && b != s
  {
    ExitKeeps(r, s);
    var users' := Perform(r, s, Exit).users;
    SocketFound(users', a);
    SocketFound(r.users, a);
    var i, j := FindSocket(r.users, a), FindSocket(users', a);
    if j < |users'| {
      if b != s { ExitSparesUsers(r, s, a, b); }
      PeerByTimes(r.users, i, b);
      PeerByTimes(users', j, b);
    }
  }

  /** What the client's command does to peers: connect makes the client and the user of that name each other's peers,
      disconnect undoes it, exit removes the client as a peer of anybody, and nothing else changes who is whose peer. */
  lemma PeersAfter(r: Registry, c: Socket, cmd: Command, a: Socket, b: Socket)
    requires Integrity(r) && c in Sockets(r.users) && !cmd.Arrive? && !cmd.Drop?
    ensures var before, users := IsPeer(r.users, a, b), r.users;
      IsPeer(Perform(r, c, cmd).users, a, b) <==>
        match cmd
        case Connect(name) => before || (FindName(users, name) < |users| && ArePair(a, b, c, users[FindName(users, name)].socket))
        case Disconnect(name) => before && !(FindName(users, name) < |users| && ArePair(a, b, c, users[FindName(users, name)].socket))
        case Exit => before && a != c && b != c
        case _ => before
  {
    match cmd
    case Create(room) => ApplyOne(r, OpAddRoom(room));
    case Join(room) => ApplyTwo(r, OpAddRoom(room), OpAddMember(c, room));
    case Leave(room) => ApplyOne(r, OpDropMember(c, room));
    case Connect(name) => PeeringMeaning(r, c, cmd, a, b);
    case Disconnect(name) => PeeringMeaning(r, c, cmd, a, b);
    case Login(name) =>
      ApplyOne(r, OpRename(c, name));
      SameSocketFound(r.users, Rename(r.users, c, name), a);
    case Exit => ExitPeers(r, c, a, b);
    case _ =>
  }

  lemma SameSocketFound(users: seq<User>, users': seq<User>, s: Socket)
    requires SameUsers(users, users')
    ensures FindSocket(users', s) == FindSocket(users, s)
  {
    FirstFinds(users, HasSocket(s));
    FirstUnique(users', HasSocket(s), FindSocket(users, s));
  }

  // ---------------------------------------------------------------- names

  /** A login gives the client the name, cut to 29 characters, and leaves every other user's name alone. */
  lemma NamesAfterLogin(r: Registry, c: Socket, login: string, s: Socket, name: string)
    requires c in Sockets(r.users)
    ensures IsNamed(Perform(r, c, Login(login)).users, s, name) <==>
      if s == c then name == (if |login| <= 29 then login else login[..29]) else IsNamed(r.users, s, name)
  {
    ApplyOne(r, OpRename(c, login));
    SocketFound(r.users, c);
    SocketFound(r.users, s);
    SameSocketFound(r.users, Rename(r.users, c, login), s);
  }

  lemma ExitNames(r: Registry, c: Socket, s: Socket, name: string)
    requires Integrity(r) && c in Sockets(r.users)
    ensures IsNamed(Perform(r, c, Exit).users, s, name) <==> IsNamed(r.users, s, name) && s != c
  {
    ExitKeeps(r, c);
    var users' := Perform(r, c, Exit).users;
    SocketFound(users', s);
    SocketFound(r.users, s);
    if s != c && s in Sockets(r.users) { ExitSparesUsers(r, c, s, s); }
  }

  /** What the client's command does to names: login gives the client the name, cut to 29 characters, exit takes the client
      away, and nothing else changes who is called what. */
  lemma NamesAfter(r: Registry, c: Socket, cmd: Command, s: Socket, name: string)
    requires Integrity(r) && c in Sockets(r.users) && !cmd.Arrive? && !cmd.Drop?
    ensures var before := IsNamed(r.users, s, name);
      IsNamed(Perform(r, c, cmd).users, s, name) <==>
        match cmd
        case Login(login) => if s == c then name == (if |login| <= 29 then login else login[..29]) else before
        case Exit => before && s != c
        case _ => before
  {
    match cmd
    case Create(room) => ApplyOne(r, OpAddRoom(room));
    case Join(room) => ApplyTwo(r, OpAddRoom(room), OpAddMember(c, room));
    case Leave(room) => ApplyOne(r, OpDropMember(c, room));
    case Connect(to) => PeeringNames(r, c, cmd, s);
    case Disconnect(to) => PeeringNames(r, c, cmd, s);
    case Login(login) => NamesAfterLogin(r, c, login, s, name);
    case Exit => ExitNames(r, c, s, name);
    case _ =>
  }

  lemma PeeringNames(r: Registry, c: Socket, cmd: Command, s: Socket)
    requires Integrity(r) && c in Sockets(r.users) && (cmd.Connect? || cmd.Disconnect?)
    ensures forall name :: IsNamed(Perform(r, c, cmd).users, s, name) <==> IsNamed(r.users, s, name)
  {
    PeeringKeeps(r, c, cmd);
    SameSocketFound(r.users, Perform(r, c, cmd).users, s);
  }

  /** A new client is called guest and its socket number, unless a user is; it has no peers; and for the others nothing
      changes. */
  lemma NamesAfterArrival(r: Registry, c: Socket, s: Socket, name: string, t: Socket)
    requires c !in Sockets(r.users)
    ensures var guest, users, users' := "guest" + Decimal(c), r.users, Perform(r, c, Arrive).users;
      if exists i :: 0 <= i < |users| && users[i].name == guest then users' == users
      else
        && (IsNamed(users', s, name) <==> if s == c then name == guest else IsNamed(users, s, name))
        && (IsPeer(users', s, t) <==> IsPeer(users, s, t))
  {
    var guest := "guest" + Decimal(c);
    ArriveResult(r, c);
    NameFound(r.users, guest);
    GuestNameFits(c);
    SocketFound(r.users, c);
    if FindName(r.users, guest) == |r.users| {
      assert ([User(guest, c, [])] + r.users)[1..] == r.users;
    }
  }
}
