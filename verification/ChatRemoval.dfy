/**
 Exit and logout: the loops over rooms and users, one list operation at a time, remove the client from everywhere.

 A loop is a series of operations, and the lemmas go through it one operation at a time.  The loop over the rooms finds
 each room by its name, so that it clears them all because room names are unique; the loop over the users removes one
 entry from every list of peers, which is enough because a list holds a peer once, and the user's own list goes with it.
 */
module ChatRemoval {
  import opened Sequences
  import opened ChatRegistry
  import opened ChatIntegrity

  lemma {:induction false} ApplyAllConcat(r: Registry, a: seq<Op>, b: seq<Op>)
    ensures ApplyAll(r, a + b) == ApplyAll(ApplyAll(r, a), b)
    decreases |a|
  {
    if a == [] {
      assert a + b == b;
    } else {
      assert (a + b)[0] == a[0] && (a + b)[1..] == a[1..] + b;
      ApplyAllConcat(Apply(r, a[0]), a[1..], b);
    }
  }

  lemma ApplyOne(r: Registry, op: Op)
    ensures ApplyAll(r, [op]) == Apply(r, op)
  {
    assert ApplyAll(Apply(r, op), [op][1..]) == Apply(r, op);
  }

  lemma ApplyTwo(r: Registry, op: Op, op': Op)
    ensures ApplyAll(r, [op, op']) == Apply(Apply(r, op), op')
  {
    assert [op, op'] == [op] + [op'];
    ApplyAllConcat(r, [op], [op']);
    ApplyOne(r, op);
    ApplyOne(Apply(r, op), op');
  }

  /** The first n rooms without member s. */
  function WithoutMember(rooms: seq<Room>, s: Socket, n: nat): (r: seq<Room>)
    ensures |r| == |rooms|
  {
    seq(|rooms|, k requires 0 <= k < |rooms| =>
      if k < n then rooms[k].(members := RemoveFirst(rooms[k].members, s)) else rooms[k])
  }

  /** The first n users without peer s. */
  function WithoutPeer(users: seq<User>, s: Socket, n: nat): (r: seq<User>)
    ensures |r| == |users|
  {
    seq(|users|, k requires 0 <= k < |users| =>
      if k < n then users[k].(dm := RemoveFirst(users[k].dm, s)) else users[k])
  }

  lemma ApplyOneMore(r: Registry, ops: seq<Op>, op: Op, ops': seq<Op>, r': Registry)
    requires ops' == ops + [op] && ApplyAll(r, ops) == r'
    ensures ApplyAll(r, ops') == Apply(r', op)
  {
    ApplyAllConcat(r, ops, [op]);
    ApplyOne(r', op);
  }

  lemma MemberOpsGrow(r: Registry, s: Socket, n: nat)
    requires n < |r.rooms|
    ensures MemberOps(r, s, n + 1) == MemberOps(r, s, n) + [OpDropMember(s, r.rooms[n].name)]
  {
  }

  lemma PeerOpsGrow(s: Socket, n: nat)
    ensures PeerOps(s, n + 1) == PeerOps(s, n) + [OpDropPeer(n, s)]
  {
  }

  lemma OneMoreRoom(r: Registry, s: Socket, n: nat, r': Registry)
    requires n < |r.rooms| && ApplyAll(r, MemberOps(r, s, n)) == r'
    ensures ApplyAll(r, MemberOps(r, s, n + 1)) == Registry(r'.users, DropMember(r'.rooms, s, r.rooms[n].name))
  {
    MemberOpsGrow(r, s, n);
    ApplyOneMore(r, MemberOps(r, s, n), OpDropMember(s, r.rooms[n].name), MemberOps(r, s, n + 1), r');
  }

  lemma OneMoreUser(r: Registry, s: Socket, n: nat, r': Registry)
    requires n < |r.users| && ApplyAll(r, PeerOps(s, n)) == r'
    ensures ApplyAll(r, PeerOps(s, n + 1)) == Registry(DropPeer(r'.users, n, s), r'.rooms)
  {
    PeerOpsGrow(s, n);
    ApplyOneMore(r, PeerOps(s, n), OpDropPeer(n, s), PeerOps(s, n + 1), r');
  }

  /** The loop over the rooms finds each room by its name, which is why names must be unique. */
  lemma {:induction false} RoomLoop(r: Registry, s: Socket, n: nat)
    requires UniqueNames(r.rooms) && n <= |r.rooms|
    ensures ApplyAll(r, MemberOps(r, s, n)) == r.(rooms := WithoutMember(r.rooms, s, n))
  {
    if n == 0 {
      assert WithoutMember(r.rooms, s, 0) == r.rooms;
    } else {
      RoomLoop(r, s, n - 1);
      var before := WithoutMember(r.rooms, s, n - 1);
      OneMoreRoom(r, s, n - 1, r.(rooms := before));
      forall i, j ensures DifferentNames(before, i, j) { assert DifferentNames(r.rooms, i, j); }
      RoomAt(before, n - 1);
      assert DropMember(before, s, r.rooms[n - 1].name) == WithoutMember(r.rooms, s, n);
    }
  }

  lemma {:induction false} PeerLoop(r: Registry, s: Socket, n: nat)
    requires n <= |r.users|
    ensures ApplyAll(r, PeerOps(s, n)) == r.(users := WithoutPeer(r.users, s, n))
  {
    if n == 0 {
      assert WithoutPeer(r.users, s, 0) == r.users;
    } else {
      PeerLoop(r, s, n - 1);
      var before := WithoutPeer(r.users, s, n - 1);
      OneMoreUser(r, s, n - 1, r.(users := before));
      assert DropPeer(before, n - 1, s) == WithoutPeer(r.users, s, n);
    }
  }

  /** The registry once both loops have run. */
  function Cleared(r: Registry, s: Socket): Registry {
    Registry(WithoutPeer(r.users, s, |r.users|), WithoutMember(r.rooms, s, |r.rooms|))
  }

  lemma RemovalClears(r: Registry, s: Socket)
    requires UniqueNames(r.rooms)
    ensures ApplyAll(r, Removal(r, s)) == Cleared(r, s)
  {
    var n, m := |r.rooms|, |r.users|;
    ApplyAllConcat(r, MemberOps(r, s, n), PeerOps(s, m));
    RoomLoop(r, s, n);
    PeerLoop(r.(rooms := WithoutMember(r.rooms, s, n)), s, m);
  }

  lemma ExitResult(r: Registry, s: Socket)
    requires Integrity(r) && s in Sockets(r.users)
    ensures var k := FindSocket(r.users, s);
      && k < |r.users|
      && Perform(r, s, Exit) == Cleared(r, s).(users := RemoveAt(Cleared(r, s).users, k))
  {
    SocketFound(r.users, s);
    ApplyAllConcat(r, Removal(r, s), [OpDropUser(s)]);
    RemovalClears(r, s);
    ApplyOne(Cleared(r, s), OpDropUser(s));
    var users', k := Cleared(r, s).users, FindSocket(r.users, s);
    SameUsersSockets(r.users, users');
    SocketAt(users', k);
  }

  // ---------------------------------------------------------------- what is left

  lemma ClearedTimes(r: Registry, s: Socket, i: nat, x: Socket)
    requires Integrity(r) && i < |r.users| && s in Sockets(r.users) && r.users[i].socket != s
    ensures Times(Cleared(r, s).users, i, x) == if x == s then 0 else Times(r.users, i, x)
  {
    var k := FindSocket(r.users, s);
    SocketFound(r.users, s);
    assert Mutual(r.users, i, k);
    RemoveFirstCounts(r.users[i].dm, s);
  }

  lemma ClearedMembers(r: Registry, s: Socket, k: nat, x: Socket)
    requires Integrity(r) && k < |r.rooms|
    ensures multiset(Cleared(r, s).rooms[k].members)[x] == if x == s then 0 else multiset(r.rooms[k].members)[x]
  {
    assert MembersOk(r.rooms, Sockets(r.users), k);
    RemoveFirstCounts(r.rooms[k].members, s);
  }

  /** Where user i was before user k was removed. */
  function Shift(i: int, k: nat): int { if i < k then i else i + 1 }

  lemma RemovedSockets(users: seq<User>, k: nat)
    requires UniqueSockets(users) && k < |users|
    ensures Sockets(RemoveAt(users, k)) == Sockets(users) - {users[k].socket} && UniqueSockets(RemoveAt(users, k))
  {
    var rest := RemoveAt(users, k);
    forall i, j ensures DifferentSockets(rest, i, j) {
      assert DifferentSockets(users, Shift(i, k), Shift(j, k));
    }
    forall s | s in Sockets(users) && s != users[k].socket ensures s in Sockets(rest) {
      var i :| 0 <= i < |users| && users[i].socket == s;
      assert rest[if i < k then i else i - 1].socket == s;
    }
    forall s | s in Sockets(rest) ensures s in Sockets(users) && s != users[k].socket {
      var i :| 0 <= i < |rest| && rest[i].socket == s;
      assert users[Shift(i, k)].socket == s;
      assert DifferentSockets(users, Shift(i, k), k) && DifferentSockets(users, k, Shift(i, k));
    }
  }

  /** After exit or logout the socket occurs nowhere, and the registry is in order. */
  lemma ExitKeeps(r: Registry, s: Socket)
    requires Integrity(r) && s in Sockets(r.users)
    ensures Integrity(Perform(r, s, Exit)) && Nowhere(Perform(r, s, Exit), s)
    ensures Sockets(Perform(r, s, Exit).users) == Sockets(r.users) - {s}
  {
    ExitResult(r, s);
    SocketFound(r.users, s);
    var k, mid, end := FindSocket(r.users, s), Cleared(r, s), Perform(r, s, Exit);
    SameUsersSockets(r.users, mid.users);
    RemovedSockets(mid.users, k);
    forall i, j ensures Mutual(end.users, i, j) { ExitMutual(r, s, i, j); }
    forall i ensures PeersLive(end.users, Sockets(end.users), i) { ExitPeersLive(r, s, i); }
    forall i | 0 <= i < |end.users| ensures s !in end.users[i].dm { ExitPeersLive(r, s, i); }
    forall i ensures MembersOk(end.rooms, Sockets(end.users), i) { ExitMembersOk(r, s, i); }
    forall i | 0 <= i < |end.rooms| ensures s !in end.rooms[i].members { ClearedMembers(r, s, i, s); }
    forall i, j ensures DifferentNames(end.rooms, i, j) { assert DifferentNames(r.rooms, i, j); }
  }

  lemma NotHere(users: seq<User>, k: nat, i: nat)
    requires UniqueSockets(users) && k < |users| && i < |users| - 1
    ensures RemoveAt(users, k)[i] == users[Shift(i, k)] && users[Shift(i, k)].socket != users[k].socket
  {
    assert DifferentSockets(users, Shift(i, k), k) && DifferentSockets(users, k, Shift(i, k));
  }

  lemma ClearedMutual(r: Registry, s: Socket, i: nat, j: nat)
    requires Integrity(r) && s in Sockets(r.users) && i < |r.users| && j < |r.users|
    requires r.users[i].socket != s && r.users[j].socket != s
    ensures Mutual(Cleared(r, s).users, i, j)
  {
    assert Mutual(r.users, i, j);
    ClearedTimes(r, s, i, r.users[j].socket);
    ClearedTimes(r, s, j, r.users[i].socket);
  }

  lemma ExitMutual(r: Registry, s: Socket, i: int, j: int)
    requires Integrity(r) && s in Sockets(r.users)
    ensures Mutual(Perform(r, s, Exit).users, i, j)
  {
    ExitResult(r, s);
    SocketFound(r.users, s);
    var k, mid, end := FindSocket(r.users, s), Cleared(r, s).users, Perform(r, s, Exit).users;
    SameUsersSockets(r.users, mid);
    if 0 <= i < |end| && 0 <= j < |end| {
      NotHere(mid, k, i);
      NotHere(mid, k, j);
      ClearedMutual(r, s, Shift(i, k), Shift(j, k));
      assert i == j <==> Shift(i, k) == Shift(j, k);
    }
  }

  lemma ClearedPeersLive(r: Registry, s: Socket, i: nat)
    requires Integrity(r) && s in Sockets(r.users) && i < |r.users| && r.users[i].socket != s
    ensures forall x | x in Cleared(r, s).users[i].dm :: x in Sockets(r.users) - {s}
  {
    assert PeersLive(r.users, Sockets(r.users), i);
    forall x | x in Cleared(r, s).users[i].dm ensures x in Sockets(r.users) - {s} {
      ClearedTimes(r, s, i, x);
      assert x in multiset(Cleared(r, s).users[i].dm) && x in multiset(r.users[i].dm);
    }
  }

  lemma ExitPeersLive(r: Registry, s: Socket, i: int)
    requires Integrity(r) && s in Sockets(r.users)
    ensures var end := Perform(r, s, Exit);
      PeersLive(end.users, Sockets(r.users) - {s}, i) && (0 <= i < |end.users| ==> s !in end.users[i].dm)
  {
    ExitResult(r, s);
    SocketFound(r.users, s);
    var k, mid := FindSocket(r.users, s), Cleared(r, s).users;
    SameUsersSockets(r.users, mid);
    if 0 <= i < |mid| - 1 {
      NotHere(mid, k, i);
      ClearedPeersLive(r, s, Shift(i, k));
    }
  }

  lemma ExitMembersOk(r: Registry, s: Socket, k: int)
    requires Integrity(r) && s in Sockets(r.users)
    ensures MembersOk(Perform(r, s, Exit).rooms, Sockets(r.users) - {s}, k)
  {
    ExitResult(r, s);
    if 0 <= k < |r.rooms| {
      assert MembersOk(r.rooms, Sockets(r.users), k);
      forall x: Socket ensures multiset(Cleared(r, s).rooms[k].members)[x] <= if x in Sockets(r.users) - {s} then 1 else 0 {
        ClearedMembers(r, s, k, x);
      }
    }
  }

  /** A user that is not removed can still be found. */
  lemma StillFound(users: seq<User>, k: nat, i: nat)
    requires UniqueSockets(users) && k < |users| && i < |users| && i != k
    ensures var rest := RemoveAt(users, k);
      var j := FindSocket(rest, users[i].socket);
      j < |rest| && rest[j] == users[i]
  {
    var j := if i < k then i else i - 1;
    RemovedSockets(users, k);
    assert RemoveAt(users, k)[j] == users[i];
    SocketAt(RemoveAt(users, k), j);
  }

  /** The other users keep their names and all their other peers. */
  lemma ExitSparesUsers(r: Registry, s: Socket, t: Socket, x: Socket)
    requires Integrity(r) && s in Sockets(r.users) && t in Sockets(r.users) && t != s && x != s
    ensures var users, users' := r.users, Perform(r, s, Exit).users;
      var i, j := FindSocket(users, t), FindSocket(users', t);
      i < |users| && j < |users'| && users'[j].name == users[i].name && Times(users', j, x) == Times(users, i, x)
  {
    ExitResult(r, s);
    SocketFound(r.users, s);
    SocketFound(r.users, t);
    var mid, i := Cleared(r, s).users, FindSocket(r.users, t);
    SameUsersSockets(r.users, mid);
    StillFound(mid, FindSocket(r.users, s), i);
    ClearedTimes(r, s, i, x);
  }

  /** The rooms keep their names and all their other members. */
  lemma ExitSparesRooms(r: Registry, s: Socket, t: Socket, k: nat)
    requires Integrity(r) && s in Sockets(r.users) && t != s && k < |r.rooms|
    ensures var rooms' := Perform(r, s, Exit).rooms;
      && |rooms'| == |r.rooms| && rooms'[k].name == r.rooms[k].name
      && multiset(rooms'[k].members)[t] == multiset(r.rooms[k].members)[t]
  {
    ExitResult(r, s);
    ClearedMembers(r, s, k, t);
  }
}
