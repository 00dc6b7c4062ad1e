/**
 The chat server's list operations and commands as they change the two global lists in memory, each tied to
 its effect on the registry.

 The lists are the linked ones of ChatLists: a list of users, each with a chain of peers, and a list of
 rooms, each with a chain of members.  What they hold is the registry.

 A list operation is tied to the function of the same purpose in ChatRegistry, and a command to Perform: the
 methods call the list operations in the order of the source, and ApplyAll runs the plan of the command, so
 that each command's method shows that the two come to the same.
 */
module ChatServer {
  import opened Sequences
  import opened ChatRegistry
  import opened ChatRemoval
  import opened ChatCommands
  import ChatIntegrity
  import ChatMeaning
  import opened ChatLists
  import ChatAnswers

  datatype UserKey = UserKey(name: string, socket: Socket)

  function Named(name: string): UserKey -> bool { (u: UserKey) => u.name == name }
  function At(s: Socket): UserKey -> bool { (u: UserKey) => u.socket == s }
  function Called(name: string): string -> bool { (n: string) => n == name }

  function ToUser(row: Row<UserKey>): User { User(row.key.name, row.key.socket, row.sockets) }
  function ToRoom(row: Row<string>): Room { Room(row.key, row.sockets) }

  function ToUsers(rows: seq<Row<UserKey>>): (r: seq<User>)
    ensures |r| == |rows| && forall i | 0 <= i < |r| :: r[i] == ToUser(rows[i])
  {
    seq(|rows|, i requires 0 <= i < |rows| => ToUser(rows[i]))
  }

  function ToRooms(rows: seq<Row<string>>): (r: seq<Room>)
    ensures |r| == |rows| && forall i | 0 <= i < |r| :: r[i] == ToRoom(rows[i])
  {
    seq(|rows|, i requires 0 <= i < |rows| => ToRoom(rows[i]))
  }

  lemma {:induction false} NameIndex(rows: seq<Row<UserKey>>, name: string)
    ensures First(rows, OnKey(Named(name))) == FindName(ToUsers(rows), name)
  {
    if rows != [] {
      NameIndex(rows[1..], name);
      assert ToUsers(rows)[1..] == ToUsers(rows[1..]);
    }
  }

  lemma {:induction false} SocketIndex(rows: seq<Row<UserKey>>, s: Socket)
    ensures First(rows, OnKey(At(s))) == FindSocket(ToUsers(rows), s)
  {
    if rows != [] {
      SocketIndex(rows[1..], s);
      assert ToUsers(rows)[1..] == ToUsers(rows[1..]);
    }
  }

  lemma {:induction false} RoomIndex(rows: seq<Row<string>>, name: string)
    ensures First(rows, OnKey(Called(name))) == ChatRegistry.FindRoom(ToRooms(rows), name)
  {
    if rows != [] {
      RoomIndex(rows[1..], name);
      assert ToRooms(rows)[1..] == ToRooms(rows[1..]);
    }
  }

  lemma ChangedUser(rows: seq<Row<UserKey>>, k: nat, row: Row<UserKey>)
    ensures k < |rows| ==> ToUsers(rows[k := row]) == ToUsers(rows)[k := ToUser(row)]
  {
  }

  lemma ChangedRoom(rows: seq<Row<string>>, k: nat, row: Row<string>)
    ensures k < |rows| ==> ToRooms(rows[k := row]) == ToRooms(rows)[k := ToRoom(row)]
  {
  }

  lemma WithoutUser(rows: seq<Row<UserKey>>, k: nat)
    ensures k < |rows| ==> ToUsers(RemoveAt(rows, k)) == RemoveAt(ToUsers(rows), k)
  {
  }

  predicate Houses(r: Room, a: Socket, b: Socket) { a in r.members && b in r.members }

  lemma HousedNowhere(rooms: seq<Room>, a: Socket, b: Socket)
    requires forall k | 0 <= k < |rooms| :: !Houses(rooms[k], a, b)
    ensures !ShareRoom(rooms, a, b)
  {
  }

  ghost predicate SameRoomNames(rooms: seq<Room>, were: seq<Room>) {
    |rooms| == |were| && forall k | 0 <= k < |rooms| :: rooms[k].name == were[k].name
  }

  /** Whether both a and b are in a chain of sockets, in one walk. */
  method HasBoth(chain: Chain<Socket>, a: Socket, b: Socket) returns (both: bool)
    requires chain.Valid()
    ensures both <==> a in chain.View() && b in chain.View()
  {
    var hasA, hasB := false, false;
    var cur := chain.head;
    ghost var v, k := chain.View(), 0;
    while cur != null
      invariant k <= |v| && cur == chain.LinkAt(k)
      invariant hasA <==> a in v[..k]
      invariant hasB <==> b in v[..k]
      decreases |v| - k
    {
      assert chain.LinkedAt(k) && cur.value == v[k] && v[..k + 1] == v[..k] + [v[k]];
      if cur.value == a { hasA := true; }
      if cur.value == b { hasB := true; }
      cur := cur.next;
      k := k + 1;
    }
    assert v[..k] == v;
    both := hasA && hasB;
  }

  lemma OneRoom()
    ensures AddRoom([], DEFAULT_ROOM) == STARTUP.rooms
  {
    assert Truncate(DEFAULT_ROOM, ROOMNAME_CHARS) == DEFAULT_ROOM;
  }

  class Server {
    const users: Table<UserKey>
    const rooms: Table<string>

    ghost function Users(): seq<User>
      reads users
    {
      ToUsers(users.rows)
    }

    ghost function Rooms(): seq<Room>
      reads rooms
    {
      ToRooms(rooms.rows)
    }

    ghost function Reg(): Registry
      reads users, rooms
    {
      Registry(Users(), Rooms())
    }

    ghost function Repr(): set<object>
      reads users, users.owners, rooms, rooms.owners
    {
      users.Repr() + rooms.Repr()
    }

    ghost predicate Valid()
      reads users, users.owners, users.Repr(), rooms, rooms.owners, rooms.Repr()
    {
      users.Valid() && rooms.Valid() && users.Repr() !! rooms.Repr()
    }

    /** The lists occupy only what they did before, and new memory. */
    twostate predicate Grown()
      reads users, users.owners, rooms, rooms.owners
    {
      && (forall x | x in users.Repr() :: x in old(users.Repr()) || fresh(x))
      && (forall x | x in rooms.Repr() :: x in old(rooms.Repr()) || fresh(x))
    }

    /** u is the node of user k. */
    ghost predicate IsUser(u: Owner<UserKey>, k: nat)
      requires Valid()
      reads users, users.owners, users.Repr(), rooms, rooms.owners, rooms.Repr(), u
    {
      users.IsAt(u, k) && u.key == UserKey(Users()[k].name, Users()[k].socket)
    }

    constructor ()
      ensures Valid() && fresh(Repr()) && Reg() == STARTUP && Users() == [] && Rooms() == [Room("Lobby", [])]
    {
      users := new Table<UserKey>();
      rooms := new Table<string>();
      new;
      CreateRoom(DEFAULT_ROOM);
      OneRoom();
    }

    // ---------------------------------------------------------------- users

    method FindU(name: string) returns (u: Owner?<UserKey>, ghost k: nat)
      requires Valid()
      ensures Valid() && k == FindName(Users(), name)
      ensures if u != null then IsUser(u, FindName(Users(), name)) else FindName(Users(), name) == |Users()|
    {
      u, k := users.Find(Named(name));
      NameIndex(users.rows, name);
    }

    method FindSocketNode(s: Socket) returns (u: Owner?<UserKey>, ghost k: nat)
      requires Valid()
      ensures Valid() && k == FindSocket(Users(), s)
      ensures if u != null then IsUser(u, FindSocket(Users(), s)) && u.key.socket == s else FindSocket(Users(), s) == |Users()|
    {
      u, k := users.Find(At(s));
      SocketIndex(users.rows, s);
      FirstFinds(Users(), HasSocket(s));
    }

    method InsertFirstU(s: Socket, name: string)
      requires Valid()
      modifies users.Repr()
      ensures Valid() && Grown() && Rooms() == old(Rooms())
      ensures Users() == AddUser(old(Users()), s, name)
    {
      var u, k := FindU(name);
      if u == null {
        users.AddFirst(UserKey(Truncate(name, USERNAME_CHARS), s));
        assert Users() == [User(Truncate(name, USERNAME_CHARS), s, [])] + old(Users());
      }
    }

    method RemoveUserBySocket(s: Socket)
      requires Valid()
      modifies users.Repr()
      ensures Valid() && Grown() && Rooms() == old(Rooms())
      ensures Users() == ChatRegistry.DropUser(old(Users()), s)
    {
      SocketIndex(users.rows, s);
      WithoutUser(users.rows, FindSocket(Users(), s));
      users.Unlink(At(s));
    }

    // ---------------------------------------------------------------- rooms

    method FindRoom(name: string) returns (r: Owner?<string>, ghost k: nat)
      requires Valid()
      ensures Valid() && k == ChatRegistry.FindRoom(Rooms(), name)
      ensures if r != null then rooms.IsAt(r, ChatRegistry.FindRoom(Rooms(), name)) else ChatRegistry.FindRoom(Rooms(), name) == |Rooms()|
    {
      r, k := rooms.Find(Called(name));
      RoomIndex(rooms.rows, name);
    }

    method CreateRoom(name: string)
      requires Valid()
      modifies rooms.Repr()
      ensures Valid() && Grown() && Users() == old(Users())
      ensures Rooms() == AddRoom(old(Rooms()), name)
    {
      var r, k := FindRoom(name);
      if r == null {
        rooms.AddFirst(Truncate(name, ROOMNAME_CHARS));
        assert Rooms() == [Room(Truncate(name, ROOMNAME_CHARS), [])] + old(Rooms());
      }
    }

    /** Puts s in front of the members of the room found, unless it is among them. */
    method AddTo(r: Owner<string>, s: Socket, ghost name: string, ghost k: nat)
      requires Valid() && rooms.IsAt(r, k) && k == ChatRegistry.FindRoom(Rooms(), name)
      modifies rooms.Repr()
      ensures Valid() && Grown() && Users() == old(Users())
      ensures Rooms() == AddMember(old(Rooms()), s, name)
    {
      var member := rooms.Has(r, s, k);
      if !member {
        ChangedRoom(rooms.rows, k, rooms.rows[k].(sockets := [s] + rooms.rows[k].sockets));
        rooms.Push(r, s, k);
      }
    }

    /** The room of that name, created if it is missing; null if it cannot be found even then. */
    method FindOrCreate(name: string) returns (r: Owner?<string>, ghost k: nat)
      requires Valid()
      modifies rooms.Repr()
      ensures Valid() && Grown() && Users() == old(Users())
      ensures Rooms() == AddRoom(old(Rooms()), name)
      ensures k == ChatRegistry.FindRoom(Rooms(), name) && if r != null then rooms.IsAt(r, k) else k == |Rooms()|
    {
      r, k := FindRoom(name);
      if r == null {
        CreateRoom(name);
        r, k := FindRoom(name);
      }
    }

    /** Creates the room if it is missing; fails only if it cannot be found even then. */
    method AddUserToRoom(s: Socket, name: string) returns (ok: bool)
      requires Valid()
      modifies rooms.Repr()
      ensures Valid() && Grown() && Users() == old(Users())
      ensures Rooms() == AddMember(AddRoom(old(Rooms()), name), s, name)
      ensures ok <==> ChatRegistry.FindRoom(AddRoom(old(Rooms()), name), name) < |AddRoom(old(Rooms()), name)|
    {
      var r, k := FindOrCreate(name);
      ok := r != null;
      if ok {
        AddTo(r, s, name, k);
      }
    }

    /** Says whether s was a member. */
    method RemoveUserFromRoom(s: Socket, name: string) returns (ok: bool)
      requires Valid()
      modifies rooms.Repr()
      ensures Valid() && Repr() == old(Repr()) && Users() == old(Users()) && rooms.SamePlaces()
      ensures Rooms() == DropMember(old(Rooms()), s, name)
      ensures ok <==> exists k :: k == ChatRegistry.FindRoom(old(Rooms()), name) < |old(Rooms())| && s in old(Rooms())[k].members
    {
      var r, k := FindRoom(name);
      if r == null {
        return false;
      }
      ChangedRoom(rooms.rows, k, rooms.rows[k].(sockets := RemoveFirst(rooms.rows[k].sockets, s)));
      ok := rooms.Pull(r, s, k);
    }

    /** One round of the loop below: removes s from the room at i, by name, and goes on to the next. */
    method ClearRoom(cur: Link<Owner<string>>, s: Socket, ghost reg: Registry, ghost i: nat) returns (next: Link?<Owner<string>>)
      requires Valid() && SameRoomNames(Rooms(), reg.rooms) && i < |Rooms()| == |rooms.owners.links| && cur == rooms.owners.links[i]
      requires ApplyAll(reg, MemberOps(reg, s, i)) == Reg()
      modifies rooms.Repr()
      ensures Valid() && Repr() == old(Repr()) && rooms.SamePlaces()
      ensures SameRoomNames(Rooms(), reg.rooms)
      ensures ApplyAll(reg, MemberOps(reg, s, i + 1)) == Reg() && next == rooms.owners.LinkAt(i + 1)
    {
      rooms.Place(i);
      OneMoreRoom(reg, s, i, Reg());
      var was := RemoveUserFromRoom(s, cur.value.key);
      rooms.Place(i);
      next := cur.next;
    }

    /** Walks over the rooms and removes s from each of them. */
    method RemoveUserFromAllRooms(s: Socket)
      requires Valid()
      modifies rooms.Repr()
      ensures Valid() && Repr() == old(Repr())
      ensures Reg() == ApplyAll(old(Reg()), MemberOps(old(Reg()), s, |old(Rooms())|))
    {
      ghost var reg, i := Reg(), 0;
      var cur := rooms.owners.head;
      rooms.Place(0);
      while cur != null
        invariant Valid() && Repr() == old(Repr()) && |rooms.owners.links| == |reg.rooms|
        invariant SameRoomNames(Rooms(), reg.rooms) && i <= |Rooms()| && cur == rooms.owners.LinkAt(i)
        invariant ApplyAll(reg, MemberOps(reg, s, i)) == Reg()
        decreases |reg.rooms| - i
      {
        cur := ClearRoom(cur, s, reg, i);
        i := i + 1;
      }
    }

    /** One round of the loop below: whether both are members of the room at k, and the way to the next. */
    method SharedAt(cur: Link<Owner<string>>, a: Socket, b: Socket, ghost k: nat) returns (both: bool, next: Link?<Owner<string>>)
      requires Valid() && k < |Rooms()| == |rooms.owners.links| && cur == rooms.owners.links[k]
      ensures Valid() && k < |Rooms()| && (both <==> Houses(Rooms()[k], a, b)) && next == rooms.owners.LinkAt(k + 1)
    {
      rooms.Place(k);
      both := HasBoth(cur.value.sockets, a, b);
      next := cur.next;
    }

    /** Whether the users with sockets a and b are members of one room. */
    method ShareRoomUsers(a: Socket, b: Socket) returns (share: bool)
      requires Valid()
      ensures Valid() && (share <==> ShareRoom(Rooms(), a, b))
    {
      share := false;
      var cur := rooms.owners.head;
      ghost var k := 0;
      rooms.Place(0);
      while cur != null && !share
        invariant Valid() && k <= |Rooms()| == |rooms.owners.links| && (!share ==> cur == rooms.owners.LinkAt(k))
        invariant if share then ShareRoom(Rooms(), a, b) else forall j | 0 <= j < k :: !Houses(Rooms()[j], a, b)
        decreases |Rooms()| - k, !share
      {
        share, cur := SharedAt(cur, a, b, k);
        if !share {
          k := k + 1;
        }
      }
      if !share { HousedNowhere(Rooms(), a, b); }
    }

    // ---------------------------------------------------------------- direct messages

    /** Puts an entry for s in front of the peers of a user. */
    method GivePeer(u: Owner<UserKey>, s: Socket, ghost k: nat)
      requires Valid() && IsUser(u, k)
      modifies users.Repr()
      ensures Valid() && Grown() && Rooms() == old(Rooms()) && users.SamePlaces()
      ensures Users() == ChatRegistry.AddPeer(old(Users()), k, s)
    {
      ChangedUser(users.rows, k, users.rows[k].(sockets := [s] + users.rows[k].sockets));
      users.Push(u, s, k);
    }

    /** Takes the first entry for s out of the peers of a user. */
    method RemovePeer(u: Owner<UserKey>, s: Socket, ghost k: nat)
      requires Valid() && IsUser(u, k)
      modifies users.Repr()
      ensures Valid() && Repr() == old(Repr()) && Rooms() == old(Rooms()) && users.SamePlaces()
      ensures Users() == ChatRegistry.DropPeer(old(Users()), k, s)
    {
      ChangedUser(users.rows, k, users.rows[k].(sockets := RemoveFirst(users.rows[k].sockets, s)));
      var was := users.Pull(u, s, k);
    }

    /** Makes the two users each other's peers, unless to is a peer of from already. */
    method AddDmConnection(from: Socket, to: Socket)
      requires Valid()
      modifies users.Repr()
      ensures Valid() && Grown() && Rooms() == old(Rooms())
      ensures Users() ==
        var i, j := FindSocket(old(Users()), from), FindSocket(old(Users()), to);
        if i == |old(Users())| || j == |old(Users())| || to in old(Users())[i].dm then old(Users())
        else ChatRegistry.AddPeer(ChatRegistry.AddPeer(old(Users()), i, to), j, from)
    {
      var u, i := FindSocketNode(from);
      var v, j := FindSocketNode(to);
      if u == null || v == null {
        return;
      }
      var peers := users.Has(u, to, i);
      if !peers {
        GiveBoth(u, v, from, to, i, j);
      }
    }

    method GiveBoth(u: Owner<UserKey>, v: Owner<UserKey>, from: Socket, to: Socket, ghost i: nat, ghost j: nat)
      requires Valid() && IsUser(u, i) && IsUser(v, j)
      modifies users.Repr()
      ensures Valid() && Grown() && Rooms() == old(Rooms())
      ensures Users() == ChatRegistry.AddPeer(ChatRegistry.AddPeer(old(Users()), i, to), j, from)
    {
      GivePeer(u, to, i);
      users.Place(j);
      GivePeer(v, from, j);
    }

    method RemoveDmConnection(from: Socket, to: Socket)
      requires Valid()
      modifies users.Repr()
      ensures Valid() && Grown() && Rooms() == old(Rooms())
      ensures Users() ==
        var i, j := FindSocket(old(Users()), from), FindSocket(old(Users()), to);
        if i == |old(Users())| || j == |old(Users())| then old(Users())
        else ChatRegistry.DropPeer(ChatRegistry.DropPeer(old(Users()), i, to), j, from)
    {
      var u, i := FindSocketNode(from);
      var v, j := FindSocketNode(to);
      if u != null && v != null {
        RemovePeer(u, to, i);
        users.Place(j);
        RemovePeer(v, from, j);
      }
    }

    method IsDmConnected(from: Socket, to: Socket) returns (b: bool)
      requires Valid()
      ensures Valid() && (b <==> IsPeer(Users(), from, to))
    {
      var u, i := FindSocketNode(from);
      b := false;
      if u != null {
        b := users.Has(u, to, i);
      }
    }

    /** One round of the loop below: removes s from the peers of the user at i, and goes on to the next. */
    method ClearPeer(cur: Link<Owner<UserKey>>, s: Socket, ghost reg: Registry, ghost i: nat) returns (next: Link?<Owner<UserKey>>)
      requires Valid() && i < |Users()| == |reg.users| == |users.owners.links| && cur == users.owners.links[i]
      requires ApplyAll(reg, PeerOps(s, i)) == Reg()
      modifies users.Repr()
      ensures Valid() && Repr() == old(Repr()) && users.SamePlaces() && |Users()| == |reg.users|
      ensures ApplyAll(reg, PeerOps(s, i + 1)) == Reg() && next == users.owners.LinkAt(i + 1)
    {
      users.Place(i);
      OneMoreUser(reg, s, i, Reg());
      RemovePeer(cur.value, s, i);
      users.Place(i);
      next := cur.next;
    }

    /** Walks over the users and removes s from the peers of each of them. */
    method RemoveAllDmsForUser(s: Socket)
      requires Valid()
      modifies users.Repr()
      ensures Valid() && Repr() == old(Repr())
      ensures Reg() == ApplyAll(old(Reg()), PeerOps(s, |old(Users())|))
    {
      ghost var reg, i := Reg(), 0;
      var cur := users.owners.head;
      users.Place(0);
      while cur != null
        invariant Valid() && Repr() == old(Repr()) && |users.owners.links| == |reg.users|
        invariant i <= |Users()| == |reg.users| && cur == users.owners.LinkAt(i)
        invariant ApplyAll(reg, PeerOps(s, i)) == Reg()
        decreases |reg.users| - i
      {
        cur := ClearPeer(cur, s, reg, i);
        i := i + 1;
      }
    }

    // ---------------------------------------------------------------- commands that write

    /** A new client: a user under its guest name, and a member of the default room. */
    method Arrive(c: Socket)
      requires Valid()
      modifies Repr()
      ensures Valid() && Grown() && Reg() == Perform(old(Reg()), c, Command.Arrive)
    {
      ArriveResult(Reg(), c);
      InsertFirstU(c, GuestName(c));
      CreateRoom(DEFAULT_ROOM);
      var ok := AddUserToRoom(c, DEFAULT_ROOM);
    }

    method Create(c: Socket, room: string)
      requires Valid()
      modifies Repr()
      ensures Valid() && Grown() && Reg() == Perform(old(Reg()), c, Command.Create(room))
    {
      ApplyOne(Reg(), OpAddRoom(room));
      CreateRoom(room);
    }

    method Join(c: Socket, room: string)
      requires Valid()
      modifies Repr()
      ensures Valid() && Grown() && Reg() == Perform(old(Reg()), c, Command.Join(room))
    {
      ApplyTwo(Reg(), OpAddRoom(room), OpAddMember(c, room));
      var ok := AddUserToRoom(c, room);
    }

    method Leave(c: Socket, room: string) returns (ok: bool)
      requires Valid()
      modifies Repr()
      ensures Valid() && Grown() && Reg() == Perform(old(Reg()), c, Command.Leave(room))
      ensures ok <==> exists k :: k == ChatRegistry.FindRoom(old(Rooms()), room) < |old(Rooms())| && c in old(Rooms())[k].members
    {
      ApplyOne(Reg(), OpDropMember(c, room));
      ok := RemoveUserFromRoom(c, room);
    }

    /** If the name is found, the client must be a user: its entry is read without a test. */
    method Connect(c: Socket, name: string) returns (found: bool)
      requires Valid() && (FindName(Users(), name) < |Users()| ==> FindSocket(Users(), c) < |Users()|)
      modifies Repr()
      ensures Valid() && Grown() && Reg() == Perform(old(Reg()), c, Command.Connect(name))
      ensures found <==> FindName(old(Users()), name) < |old(Users())|
    {
      var to, j := FindU(name);
      var from, i := FindSocketNode(c);
      found := to != null;
      ConnectEffect(Reg(), c, name);
      if found {
        AddDmConnection(from.key.socket, to.key.socket);
      }
    }

    method Disconnect(c: Socket, name: string) returns (found: bool)
      requires Valid() && (FindName(Users(), name) < |Users()| ==> FindSocket(Users(), c) < |Users()|)
      modifies Repr()
      ensures Valid() && Grown() && Reg() == Perform(old(Reg()), c, Command.Disconnect(name))
      ensures found <==> FindName(old(Users()), name) < |old(Users())|
    {
      var to, j := FindU(name);
      var from, i := FindSocketNode(c);
      found := to != null;
      DisconnectEffect(Reg(), c, name);
      if found {
        RemoveDmConnection(from.key.socket, to.key.socket);
      }
    }

    method Login(c: Socket, name: string)
      requires Valid()
      modifies Repr()
      ensures Valid() && Grown() && Reg() == Perform(old(Reg()), c, Command.Login(name))
    {
      ApplyOne(Reg(), OpRename(c, name));
      var u, k := FindSocketNode(c);
      if u != null {
        var key := UserKey(Truncate(name, USERNAME_CHARS), u.key.socket);
        ChangedUser(users.rows, k, users.rows[k].(key := key));
        users.SetKey(u, key, k);
      }
    }

    /** The part that exit and a lost connection have in common: u is the user whose traces are removed. */
    method CleanUp(c: Socket, u: Socket)
      requires Valid()
      modifies Repr()
      ensures Valid() && Grown() && Reg() == ApplyAll(old(Reg()), Removal(old(Reg()), u) + [OpDropUser(c)])
    {
      ghost var r := Reg();
      RemoveUserFromAllRooms(u);
      SameUserCount(r, u, |r.rooms|);
      RemoveAllDmsForUser(u);
      ghost var r2 := Reg();
      ApplyAllConcat(r, MemberOps(r, u, |r.rooms|), PeerOps(u, |r.users|));
      ApplyAllConcat(r, Removal(r, u), [OpDropUser(c)]);
      ApplyOne(r2, OpDropUser(c));
      RemoveUserBySocket(c);
    }

    method Exit(c: Socket)
      requires Valid()
      modifies Repr()
      ensures Valid() && Grown() && Reg() == Perform(old(Reg()), c, Command.Exit)
    {
      ExitPlan(Reg(), c);
      var u, k := FindSocketNode(c);
      if u != null {
        CleanUp(c, u.key.socket);
      }
    }

    /** A lost connection: the user is looked up by the guest name of the client. */
    method Drop(c: Socket)
      requires Valid()
      modifies Repr()
      ensures Valid() && Grown() && Reg() == Perform(old(Reg()), c, Command.Drop)
    {
      DropPlan(Reg(), c);
      var u, k := FindU(GuestName(c));
      if u != null {
        CleanUp(c, u.key.socket);
      }
    }

    // ---------------------------------------------------------------- commands that read

    method ListRooms(c: Socket) returns (out: seq<Line>)
      requires Valid()
      ensures out == Answer(Reg(), c, Command.Rooms)
      ensures |out| == |Rooms()| && forall k | 0 <= k < |out| :: out[k] == Line(c, Rooms()[k].name + "\n")
    {
      out := [];
      var cur := rooms.owners.head;
      ghost var k := 0;
      rooms.Place(0);
      while cur != null
        invariant k <= |Rooms()| == |rooms.owners.links| && cur == rooms.owners.LinkAt(k)
        invariant out == Partial(Reg(), c, Command.Rooms, k)
        decreases |Rooms()| - k
      {
        rooms.Place(k);
        out := out + [Line(c, cur.value.key + "\n")];
        cur := cur.next;
        k := k + 1;
      }
      ChatAnswers.RoomsAnswer(Reg(), c);
    }

    /** One round of the loop below: the line about the user at k, and the way to the next. */
    method ListNext(cur: Link<Owner<UserKey>>, c: Socket, before: seq<Line>, ghost k: nat)
      returns (out: seq<Line>, next: Link?<Owner<UserKey>>)
      requires Valid() && k < |Users()| == |users.owners.links| && cur == users.owners.links[k]
      requires before == Partial(Reg(), c, Command.Users, k)
      ensures Valid() && k < |Users()| && out == Partial(Reg(), c, Command.Users, k + 1) && next == users.owners.LinkAt(k + 1)
    {
      users.Place(k);
      assert Users()[k] == ToUser(users.rows[k]);
      out := before + [Line(c, cur.value.key.name + " (socket " + Decimal(cur.value.key.socket) + ")\n")];
      next := cur.next;
    }

    method ListUsers(c: Socket) returns (out: seq<Line>)
      requires Valid()
      ensures out == Answer(Reg(), c, Command.Users)
      ensures |out| == |Users()| && forall k | 0 <= k < |out| ::
        out[k] == Line(c, Users()[k].name + " (socket " + Decimal(Users()[k].socket) + ")\n")
    {
      out := [];
      var cur := users.owners.head;
      ghost var k := 0;
      users.Place(0);
      while cur != null
        invariant Valid() && k <= |Users()| == |users.owners.links| && cur == users.owners.LinkAt(k)
        invariant out == Partial(Reg(), c, Command.Users, k)
        decreases |Users()| - k
      {
        out, cur := ListNext(cur, c, out, k);
        k := k + 1;
      }
      ChatAnswers.UsersAnswer(Reg(), c);
    }

    /** Whether s is a peer of c, or, if c is a user, shares a room with it. */
    method Hears(c: Socket, isUser: bool, s: Socket) returns (b: bool)
      requires Valid()
      ensures Valid() && (b <==> IsPeer(Users(), c, s) || (isUser && ShareRoom(Rooms(), c, s)))
    {
      b := IsDmConnected(c, s);
      if !b && isUser {
        b := ShareRoomUsers(c, s);
      }
    }

    /** Sends the message to one user, unless it is the sender or does not hear it. */
    method Tell(c: Socket, isUser: bool, u: Owner<UserKey>, message: string, ghost text: string, ghost k: nat) returns (sent: seq<Line>)
      requires Valid() && users.IsAt(u, k)
      requires (isUser <==> FindSocket(Users(), c) < |Users()|) && message == Message(Reg(), c, text)
      ensures Valid() && k < |Users()| && sent == Visit(Reg(), c, Say(text), k)
    {
      sent := [];
      ghost var user := Users()[k];
      var s := u.key.socket;
      if s != c {
        var sendIt := Hears(c, isUser, s);
        if sendIt {
          sent := [Line(s, message)];
        }
      }
    }

    /** One round of the loop below: tells the user at k, and goes on to the next. */
    method TellNext(cur: Link<Owner<UserKey>>, c: Socket, isUser: bool, message: string, before: seq<Line>, ghost text: string, ghost k: nat)
      returns (sent: seq<Line>, next: Link?<Owner<UserKey>>)
      requires Valid() && k < |Users()| == |users.owners.links| && cur == users.owners.links[k]
      requires (isUser <==> FindSocket(Users(), c) < |Users()|) && message == Message(Reg(), c, text)
      requires before == Partial(Reg(), c, Say(text), k)
      ensures Valid() && k < |Users()| && sent == Partial(Reg(), c, Say(text), k + 1) && next == users.owners.LinkAt(k + 1)
    {
      users.Place(k);
      var lines := Tell(c, isUser, cur.value, message, text, k);
      sent := before + lines;
      next := cur.next;
    }

    method TellAll(c: Socket, isUser: bool, message: string, ghost text: string) returns (sent: seq<Line>)
      requires Valid() && (isUser <==> FindSocket(Users(), c) < |Users()|) && message == Message(Reg(), c, text)
      ensures Valid() && sent == Answer(Reg(), c, Say(text))
    {
      sent := [];
      var cur := users.owners.head;
      ghost var k := 0;
      users.Place(0);
      while cur != null
        invariant Valid() && k <= |Users()| == |users.owners.links| && cur == users.owners.LinkAt(k)
        invariant sent == Partial(Reg(), c, Say(text), k)
        decreases |Users()| - k
      {
        sent, cur := TellNext(cur, c, isUser, message, sent, text, k);
        k := k + 1;
      }
    }

    /** Sends a message to every other user that is a peer of the sender or in a room with it. */
    method Broadcast(c: Socket, text: string) returns (sent: seq<Line>)
      requires Valid()
      ensures Valid() && sent == Answer(Reg(), c, Say(text))
      ensures forall name | (if c in ChatIntegrity.Sockets(Users()) then ChatMeaning.IsNamed(Users(), c, name) else name == "guest" + Decimal(c)) ::
        forall l | l in sent :: l.text == "\n::" + name + "> " + text + "\nchat>"
    {
      var sender, i := FindSocketNode(c);
      var name := if sender != null then sender.key.name else GuestName(c);
      sent := TellAll(c, sender != null, "\n::" + name + "> " + text + "\nchat>", text);
      SenderIsNamed(Reg(), c, text);
    }
  }

  /** The plan of a connect looks up both entries by the sockets it reads from them. */
  lemma ConnectEffect(r: Registry, c: Socket, name: string)
    ensures var j, i := FindName(r.users, name), FindSocket(r.users, c);
      Perform(r, c, Command.Connect(name)) ==
        if j == |r.users| || i == |r.users| || r.users[j].socket in r.users[i].dm then r
        else r.(users := ChatRegistry.AddPeer(ChatRegistry.AddPeer(r.users, i, r.users[j].socket), FindSocket(r.users, r.users[j].socket), c))
    ensures FindName(r.users, name) < |r.users| ==> FindSocket(r.users, r.users[FindName(r.users, name)].socket) < |r.users|
  {
    var j, i := FindName(r.users, name), FindSocket(r.users, c);
    if j < |r.users| {
      var t := r.users[j].socket;
      FirstFinds(r.users, HasSocket(t));
      ApplyTwo(r, OpAddPeer(i, t), OpAddPeer(FindSocket(r.users, t), c));
    }
  }

  lemma DisconnectEffect(r: Registry, c: Socket, name: string)
    ensures var j, i := FindName(r.users, name), FindSocket(r.users, c);
      Perform(r, c, Command.Disconnect(name)) ==
        if j == |r.users| || i == |r.users| then r
        else r.(users := ChatRegistry.DropPeer(ChatRegistry.DropPeer(r.users, i, r.users[j].socket), FindSocket(r.users, r.users[j].socket), c))
    ensures FindName(r.users, name) < |r.users| ==> FindSocket(r.users, r.users[FindName(r.users, name)].socket) < |r.users|
  {
    var j, i := FindName(r.users, name), FindSocket(r.users, c);
    if j < |r.users| {
      var t := r.users[j].socket;
      FirstFinds(r.users, HasSocket(t));
      ApplyTwo(r, OpDropPeer(i, t), OpDropPeer(FindSocket(r.users, t), c));
    }
  }

  lemma ExitPlan(r: Registry, c: Socket)
    ensures Perform(r, c, Command.Exit) ==
      if FindSocket(r.users, c) == |r.users| then r else ApplyAll(r, Removal(r, c) + [OpDropUser(c)])
  {
  }

  lemma DropPlan(r: Registry, c: Socket)
    ensures Perform(r, c, Command.Drop) ==
      var k := FindName(r.users, GuestName(c));
      if k == |r.users| then r else ApplyAll(r, Removal(r, r.users[k].socket) + [OpDropUser(c)])
  {
  }

  lemma SenderIsNamed(r: Registry, c: Socket, text: string)
    ensures forall name | (if c in ChatIntegrity.Sockets(r.users) then ChatMeaning.IsNamed(r.users, c, name) else name == "guest" + Decimal(c)) ::
      forall l | l in Answer(r, c, Say(text)) :: l.text == "\n::" + name + "> " + text + "\nchat>"
  {
    forall name | (if c in ChatIntegrity.Sockets(r.users) then ChatMeaning.IsNamed(r.users, c, name) else name == "guest" + Decimal(c))
      ensures forall l | l in Answer(r, c, Say(text)) :: l.text == "\n::" + name + "> " + text + "\nchat>"
    {
      ChatAnswers.MessageText(r, c, text, name);
    }
  }

  lemma {:induction false} SameUserCount(r: Registry, s: Socket, n: nat)
    requires n <= |r.rooms|
    ensures ApplyAll(r, MemberOps(r, s, n)).users == r.users
  {
    if n > 0 {
      SameUserCount(r, s, n - 1);
      OneMoreRoom(r, s, n - 1, ApplyAll(r, MemberOps(r, s, n - 1)));
    }
  }
}
