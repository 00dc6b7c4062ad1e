/**
 What every run of chat commands keeps, as an invariant of the registry, and what the list operations do to it.

 The invariant has two parts.  Of the users: sockets are unique, every peer is a user, and peers list each
 other equally often.  Of the rooms: names are unique, and the members are users, none listed twice.

 Entries are counted with multisets, so that what an operation adds or takes away can be said exactly; each
 conjunct is about a pair of positions or about one, and is stated for all of them.
 */
module ChatIntegrity {
  import opened Sequences
  import opened ChatRegistry

  // ---------------------------------------------------------------- the invariant

  ghost function Sockets(users: seq<User>): set<Socket> {
    set k | 0 <= k < |users| :: users[k].socket
  }

  /** How often user i lists socket s as a peer. */
  ghost function Times(users: seq<User>, i: nat, s: Socket): nat
    requires i < |users|
  {
    multiset(users[i].dm)[s]
  }

  ghost predicate DifferentSockets(users: seq<User>, i: int, j: int) {
    0 <= i < j < |users| ==> users[i].socket != users[j].socket
  }

  ghost predicate DifferentNames(rooms: seq<Room>, i: int, j: int) {
    0 <= i < j < |rooms| ==> rooms[i].name != rooms[j].name
  }

  /** Peers list each other equally often: once at most, except that a user who is its own peer is so twice. */
  ghost predicate Mutual(users: seq<User>, i: int, j: int) {
    0 <= i < |users| && 0 <= j < |users| ==>
      && Times(users, i, users[j].socket) == Times(users, j, users[i].socket)
      && (if i == j then Times(users, i, users[i].socket) in {0, 2} else Times(users, i, users[j].socket) <= 1)
  }

  ghost predicate PeersLive(users: seq<User>, live: set<Socket>, i: int) {
    0 <= i < |users| ==> forall s | s in users[i].dm :: s in live
  }

  /** The members of room k are live users, none of them listed twice. */
  ghost predicate MembersOk(rooms: seq<Room>, live: set<Socket>, k: int) {
    0 <= k < |rooms| ==> forall s :: multiset(rooms[k].members)[s] <= if s in live then 1 else 0
  }

  ghost predicate UniqueSockets(users: seq<User>) {
    forall i, j :: DifferentSockets(users, i, j)
  }

  ghost predicate UniqueNames(rooms: seq<Room>) {
    forall i, j :: DifferentNames(rooms, i, j)
  }

  ghost predicate UsersOk(users: seq<User>) {
    && UniqueSockets(users)
    && (forall i :: PeersLive(users, Sockets(users), i))
    && (forall i, j :: Mutual(users, i, j))
  }

  ghost predicate RoomsOk(rooms: seq<Room>, live: set<Socket>) {
    UniqueNames(rooms) && forall k :: MembersOk(rooms, live, k)
  }

  ghost predicate Integrity(r: Registry) {
    UsersOk(r.users) && RoomsOk(r.rooms, Sockets(r.users))
  }

  /** Socket s occurs nowhere in the registry. */
  ghost predicate Nowhere(r: Registry, s: Socket) {
    && s !in Sockets(r.users)
    && (forall i | 0 <= i < |r.users| :: s !in r.users[i].dm)
    && (forall k | 0 <= k < |r.rooms| :: s !in r.rooms[k].members)
  }

  // ---------------------------------------------------------------- finding users and rooms

  lemma SocketAt(users: seq<User>, k: nat)
    requires UniqueSockets(users) && k < |users|
    ensures FindSocket(users, users[k].socket) == k
  {
    var p := HasSocket(users[k].socket);
    forall i | 0 <= i < k ensures !p(users[i]) {
      assert DifferentSockets(users, i, k);
    }
    FirstUnique(users, p, k);
  }

  lemma SocketFound(users: seq<User>, s: Socket)
    ensures var k := FindSocket(users, s); k < |users| ==> users[k].socket == s
    ensures s in Sockets(users) <==> FindSocket(users, s) < |users|
  {
    FirstFinds(users, HasSocket(s));
  }

  lemma NameFound(users: seq<User>, name: string)
    ensures var k := FindName(users, name); k < |users| ==> users[k].name == name
    ensures (exists i :: 0 <= i < |users| && users[i].name == name) <==> FindName(users, name) < |users|
  {
    FirstFinds(users, HasName(name));
  }

  lemma RoomFound(rooms: seq<Room>, name: string)
    ensures var k := FindRoom(rooms, name); k < |rooms| ==> rooms[k].name == name
    ensures (exists i :: 0 <= i < |rooms| && rooms[i].name == name) <==> FindRoom(rooms, name) < |rooms|
  {
    FirstFinds(rooms, IsRoom(name));
  }

  lemma RoomAt(rooms: seq<Room>, k: nat)
    requires UniqueNames(rooms) && k < |rooms|
    ensures FindRoom(rooms, rooms[k].name) == k
  {
    var p := IsRoom(rooms[k].name);
    forall i | 0 <= i < k ensures !p(rooms[i]) {
      assert DifferentNames(rooms, i, k);
    }
    FirstUnique(rooms, p, k);
  }

  // ---------------------------------------------------------------- rooms

  /** A new room keeps names apart exactly when its name fits, or its stored form is not in use. */
  lemma AddRoomUnique(rooms: seq<Room>, name: string)
    requires UniqueNames(rooms) && forall k | 0 <= k < |rooms| :: |rooms[k].name| <= ROOMNAME_CHARS
    ensures UniqueNames(AddRoom(rooms, name)) <==>
      |name| <= ROOMNAME_CHARS || FindRoom(rooms, Truncate(name, ROOMNAME_CHARS)) == |rooms|
  {
    var short, new' := Truncate(name, ROOMNAME_CHARS), AddRoom(rooms, name);
    RoomFound(rooms, name);
    RoomFound(rooms, short);
    if FindRoom(rooms, name) == |rooms| {
      var k := FindRoom(rooms, short);
      if k < |rooms| {
        assert !DifferentNames(new', 0, k + 1);
      } else {
        forall i, j ensures DifferentNames(new', i, j) {
          assert DifferentNames(rooms, i - 1, j - 1);
        }
      }
    }
  }

  lemma AddRoomKeeps(rooms: seq<Room>, live: set<Socket>, name: string)
    requires RoomsOk(rooms, live) && |name| <= ROOMNAME_CHARS
    ensures RoomsOk(AddRoom(rooms, name), live) && FindRoom(AddRoom(rooms, name), name) < |AddRoom(rooms, name)|
  {
    var new' := AddRoom(rooms, name);
    RoomFound(rooms, name);
    RoomFound(new', name);
    if FindRoom(rooms, name) == |rooms| {
      assert new'[0].name == name;
      forall i, j ensures DifferentNames(new', i, j) {
        assert DifferentNames(rooms, i - 1, j - 1);
      }
      forall k ensures MembersOk(new', live, k) {
        assert MembersOk(rooms, live, k - 1);
      }
    }
  }

  /** Replacing the members of one room by an acceptable list. */
  lemma MembersReplaced(rooms: seq<Room>, live: set<Socket>, k: nat, members: seq<Socket>)
    requires RoomsOk(rooms, live) && k < |rooms|
    requires forall s :: multiset(members)[s] <= if s in live then 1 else 0
    ensures RoomsOk(rooms[k := rooms[k].(members := members)], live)
  {
    var new' := rooms[k := rooms[k].(members := members)];
    forall i, j ensures DifferentNames(new', i, j) {
      assert DifferentNames(rooms, i, j);
    }
    forall i ensures MembersOk(new', live, i) {
      assert MembersOk(rooms, live, i);
    }
  }

  lemma AddMemberKeeps(rooms: seq<Room>, live: set<Socket>, s: Socket, name: string)
    requires RoomsOk(rooms, live) && s in live
    ensures RoomsOk(AddMember(rooms, s, name), live)
  {
    var k := FindRoom(rooms, name);
    if k < |rooms| && s !in rooms[k].members {
      assert MembersOk(rooms, live, k);
      MembersReplaced(rooms, live, k, [s] + rooms[k].members);
    }
  }

  lemma DropMemberKeeps(rooms: seq<Room>, live: set<Socket>, s: Socket, name: string)
    requires RoomsOk(rooms, live)
    ensures RoomsOk(DropMember(rooms, s, name), live)
  {
    var k := FindRoom(rooms, name);
    if k < |rooms| {
      assert MembersOk(rooms, live, k);
      RemoveFirstCounts(rooms[k].members, s);
      MembersReplaced(rooms, live, k, RemoveFirst(rooms[k].members, s));
    }
  }

  // ---------------------------------------------------------------- users

  /** The same users in the same places, possibly with other names and peers. */
  ghost predicate SameUsers(users: seq<User>, users': seq<User>) {
    |users'| == |users| && forall i | 0 <= i < |users| :: users'[i].socket == users[i].socket
  }

  lemma SameUsersSockets(users: seq<User>, users': seq<User>)
    requires SameUsers(users, users')
    ensures Sockets(users') == Sockets(users)
    ensures UniqueSockets(users) ==> UniqueSockets(users')
  {
    forall s ensures s in Sockets(users') <==> s in Sockets(users) {
      if k :| 0 <= k < |users| && users[k].socket == s {
        assert users'[k].socket == s;
      }
    }
    if UniqueSockets(users) {
      forall i, j ensures DifferentSockets(users', i, j) {
        assert DifferentSockets(users, i, j);
      }
    }
  }

  lemma PrependSockets(users: seq<User>, u: User)
    ensures Sockets([u] + users) == Sockets(users) + {u.socket}
  {
    var new' := [u] + users;
    forall s | s in Sockets(users) ensures s in Sockets(new') {
      var k :| 0 <= k < |users| && users[k].socket == s;
      assert new'[k + 1].socket == s;
    }
    assert new'[0].socket == u.socket;
    forall s | s in Sockets(new') ensures s in Sockets(users) + {u.socket} {
      var k :| 0 <= k < |new'| && new'[k].socket == s;
      if k > 0 { assert users[k - 1].socket == s; }
    }
  }

  lemma SocketIn(users: seq<User>, k: int)
    requires 0 <= k < |users|
    ensures users[k].socket in Sockets(users)
  {
  }

  /** Nobody lists a socket that is not live. */
  lemma StrangerHasNoPeers(users: seq<User>, c: Socket, i: int)
    requires UsersOk(users) && c !in Sockets(users) && 0 <= i < |users|
    ensures Times(users, i, c) == 0
  {
    assert PeersLive(users, Sockets(users), i);
  }

  lemma PrependMutual(users: seq<User>, u: User, i: int, j: int)
    requires UsersOk(users) && u.socket !in Sockets(users) && u.dm == []
    ensures Mutual([u] + users, i, j)
  {
    assert Mutual(users, i - 1, j - 1);
    if 0 < i <= |users| { StrangerHasNoPeers(users, u.socket, i - 1); }
    if 0 < j <= |users| { StrangerHasNoPeers(users, u.socket, j - 1); }
  }

  lemma AddUserKeeps(users: seq<User>, c: Socket, name: string)
    requires UsersOk(users) && c !in Sockets(users) && FindName(users, name) == |users|
    ensures UsersOk(AddUser(users, c, name)) && Sockets(AddUser(users, c, name)) == Sockets(users) + {c}
  {
    var u := User(Truncate(name, USERNAME_CHARS), c, []);
    var new' := [u] + users;
    PrependSockets(users, u);
    forall i, j ensures DifferentSockets(new', i, j) && Mutual(new', i, j) {
      assert DifferentSockets(users, i - 1, j - 1);
      if 0 < j <= |users| { SocketIn(users, j - 1); }
      PrependMutual(users, u, i, j);
    }
    forall i ensures PeersLive(new', Sockets(new'), i) {
      assert PeersLive(users, Sockets(users), i - 1);
    }
  }

  lemma RenameKeeps(users: seq<User>, c: Socket, name: string)
    requires UsersOk(users)
    ensures UsersOk(Rename(users, c, name)) && SameUsers(users, Rename(users, c, name))
  {
    var new' := Rename(users, c, name);
    SameUsersSockets(users, new');
    forall i ensures PeersLive(new', Sockets(new'), i) { assert PeersLive(users, Sockets(users), i); }
    forall i, j ensures Mutual(new', i, j) { assert Mutual(users, i, j); }
  }

  function Peered(users: seq<User>, from: nat, to: nat): seq<User>
    requires from < |users| && to < |users|
  {
    AddPeer(AddPeer(users, from, users[to].socket), to, users[from].socket)
  }

  function Unpeered(users: seq<User>, from: nat, to: nat): seq<User>
    requires from < |users| && to < |users|
  {
    DropPeer(DropPeer(users, from, users[to].socket), to, users[from].socket)
  }

  lemma AddPeerTimes(users: seq<User>, k: nat, s: Socket, i: nat, x: Socket)
    requires k < |users| && i < |users|
    ensures Times(AddPeer(users, k, s), i, x) == Times(users, i, x) + if i == k && x == s then 1 else 0
  {
    assert multiset([s] + users[k].dm) == multiset{s} + multiset(users[k].dm);
  }

  lemma DropPeerTimes(users: seq<User>, k: nat, s: Socket, i: nat, x: Socket)
    requires k < |users| && i < |users|
    ensures Times(DropPeer(users, k, s), i, x) ==
      if i == k && x == s && Times(users, i, x) > 0 then Times(users, i, x) - 1 else Times(users, i, x)
  {
    RemoveFirstCounts(users[k].dm, s);
  }

  /** How the number of entries changes: by one for each of the two directions. */
  lemma ConnectTimes(users: seq<User>, from: nat, to: nat, i: nat, j: nat)
    requires UniqueSockets(users) && from < |users| && to < |users| && i < |users| && j < |users|
    ensures Times(Peered(users, from, to), i, users[j].socket) ==
      Times(users, i, users[j].socket) + (if i == from && j == to then 1 else 0) + (if i == to && j == from then 1 else 0)
  {
    assert DifferentSockets(users, j, to) && DifferentSockets(users, to, j);
    assert DifferentSockets(users, j, from) && DifferentSockets(users, from, j);
    AddPeerTimes(users, from, users[to].socket, i, users[j].socket);
    AddPeerTimes(AddPeer(users, from, users[to].socket), to, users[from].socket, i, users[j].socket);
  }

  lemma DisconnectTimes(users: seq<User>, from: nat, to: nat, i: nat, j: nat)
    requires UsersOk(users) && from < |users| && to < |users| && i < |users| && j < |users|
    ensures Times(Unpeered(users, from, to), i, users[j].socket) ==
      if (i == from && j == to) || (i == to && j == from) then 0 else Times(users, i, users[j].socket)
  {
    assert DifferentSockets(users, j, to) && DifferentSockets(users, to, j);
    assert DifferentSockets(users, j, from) && DifferentSockets(users, from, j);
    assert Mutual(users, from, to);
    DropPeerTimes(users, from, users[to].socket, i, users[j].socket);
    DropPeerTimes(DropPeer(users, from, users[to].socket), to, users[from].socket, i, users[j].socket);
  }

  lemma ConnectKeeps(users: seq<User>, from: nat, to: nat)
    requires UsersOk(users) && from < |users| && to < |users| && users[to].socket !in users[from].dm
    ensures UsersOk(Peered(users, from, to)) && SameUsers(users, Peered(users, from, to))
  {
    var new' := Peered(users, from, to);
    SameUsersSockets(users, new');
    assert users[from].socket in Sockets(users) && users[to].socket in Sockets(users);
    forall i ensures PeersLive(new', Sockets(new'), i) { assert PeersLive(users, Sockets(users), i); }
    forall i, j ensures Mutual(new', i, j) {
      if 0 <= i < |users| && 0 <= j < |users| {
        assert Mutual(users, i, j) && Mutual(users, from, to);
        ConnectTimes(users, from, to, i, j);
        ConnectTimes(users, from, to, j, i);
      }
    }
  }

  lemma DisconnectKeeps(users: seq<User>, from: nat, to: nat)
    requires UsersOk(users) && from < |users| && to < |users|
    ensures UsersOk(Unpeered(users, from, to)) && SameUsers(users, Unpeered(users, from, to))
  {
    var new' := Unpeered(users, from, to);
    SameUsersSockets(users, new');
    forall i ensures PeersLive(new', Sockets(new'), i) {
      assert PeersLive(users, Sockets(users), i);
      if 0 <= i < |users| { PeersOnlyLeave(users, from, to, i); }
    }
    forall i, j ensures Mutual(new', i, j) {
      if 0 <= i < |users| && 0 <= j < |users| {
        assert Mutual(users, i, j) && Mutual(users, from, to);
        DisconnectTimes(users, from, to, i, j);
        DisconnectTimes(users, from, to, j, i);
      }
    }
  }

  lemma PeersOnlyLeave(users: seq<User>, from: nat, to: nat, i: nat)
    requires from < |users| && to < |users| && i < |users|
    ensures forall s | s in Unpeered(users, from, to)[i].dm :: s in users[i].dm
  {
    forall s | s in Unpeered(users, from, to)[i].dm ensures s in users[i].dm {
      DropPeerTimes(users, from, users[to].socket, i, s);
      DropPeerTimes(DropPeer(users, from, users[to].socket), to, users[from].socket, i, s);
    }
  }
}
