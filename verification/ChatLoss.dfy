/**
 The clean-up after a lost connection looks the client up by its guest name.  It does what an exit does if that finds
 the client, nothing if it finds nobody, and if it finds somebody else, it strips that user and drops the client.
 */
module ChatLoss {
  import opened Sequences
  import opened ChatRegistry
  import opened ChatIntegrity
  import opened ChatRemoval
  import opened ChatCommands
  import opened ChatMeaning

  /** The user with socket d is out of every room and list, and the user with socket c is dropped. */
  function Stripped(r: Registry, d: Socket, c: Socket): Registry {
    Cleared(r, d).(users := DropUser(Cleared(r, d).users, c))
  }

  /** Nobody else has c in a list, and c is a member nowhere. */
  ghost predicate Unnoticed(r: Registry, c: Socket) {
    && (forall k | 0 <= k < |r.rooms| :: c !in r.rooms[k].members)
    && (forall i | 0 <= i < |r.users| :: r.users[i].socket != c ==> c !in r.users[i].dm)
  }

  lemma DropResult(r: Registry, c: Socket)
    requires UniqueNames(r.rooms)
    ensures var u := FindName(r.users, GuestName(c));
      && (u == |r.users| ==> Perform(r, c, Drop) == r)
      && (u < |r.users| ==> Perform(r, c, Drop) == Stripped(r, r.users[u].socket, c))
      && (u == FindSocket(r.users, c) ==> Perform(r, c, Drop) == Perform(r, c, Exit))
  {
    var u := FindName(r.users, GuestName(c));
    SocketFound(r.users, c);
    if u < |r.users| {
      var d := r.users[u].socket;
      ApplyAllConcat(r, Removal(r, d), [OpDropUser(c)]);
      RemovalClears(r, d);
      ApplyOne(Cleared(r, d), OpDropUser(c));
    }
  }

  // ---------------------------------------------------------------- who is left

  lemma DroppedSockets(users: seq<User>, c: Socket)
    requires UniqueSockets(users)
    ensures UniqueSockets(DropUser(users, c)) && Sockets(DropUser(users, c)) == Sockets(users) - {c}
  {
    SocketFound(users, c);
    var k := FindSocket(users, c);
    if k < |users| { RemovedSockets(users, k); }
  }

  /** A user other than c is still there. */
  lemma StillThere(users: seq<User>, c: Socket, i: nat) returns (j: nat)
    requires UniqueSockets(users) && i < |users| && users[i].socket != c
    ensures j < |DropUser(users, c)| && DropUser(users, c)[j] == users[i]
  {
    SocketFound(users, c);
    var k := FindSocket(users, c);
    j := i;
    if k < |users| {
      StillFound(users, k, i);
      j := FindSocket(RemoveAt(users, k), users[i].socket);
    }
  }

  /** Whoever is there was there before, and is not c. */
  lemma WasThere(users: seq<User>, c: Socket, j: nat) returns (i: nat)
    requires UniqueSockets(users) && j < |DropUser(users, c)|
    ensures i < |users| && users[i].socket != c && DropUser(users, c)[j] == users[i]
  {
    SocketFound(users, c);
    var k := FindSocket(users, c);
    i := j;
    if k < |users| {
      NotHere(users, k, j);
      i := Shift(j, k);
    } else {
      SocketIn(users, j);
    }
  }

  lemma StrippedTimes(r: Registry, d: Socket, i: nat, x: Socket)
    requires Integrity(r) && d in Sockets(r.users) && i < |r.users|
    ensures r.users[i].socket != d ==> Times(Cleared(r, d).users, i, x) == if x == d then 0 else Times(r.users, i, x)
    ensures r.users[i].socket == d ==>
      Times(Cleared(r, d).users, i, x) == if x == d && Times(r.users, i, d) > 0 then Times(r.users, i, d) - 1 else Times(r.users, i, x)
  {
    if r.users[i].socket != d { ClearedTimes(r, d, i, x); }
    RemoveFirstCounts(r.users[i].dm, d);
  }

  /** Lists other than that of d lose d and nothing else; so c stays in them. */
  lemma StillListed(r: Registry, d: Socket, c: Socket, i: nat)
    requires Integrity(r) && d in Sockets(r.users) && c != d && i < |r.users|
    ensures c in Cleared(r, d).users[i].dm <==> c in r.users[i].dm
  {
    StrippedTimes(r, d, i, c);
    assert c in r.users[i].dm <==> c in multiset(r.users[i].dm);
    assert c in Cleared(r, d).users[i].dm <==> c in multiset(Cleared(r, d).users[i].dm);
  }

  lemma StillMember(r: Registry, d: Socket, c: Socket, k: nat)
    requires Integrity(r) && c != d && k < |r.rooms|
    ensures c in Cleared(r, d).rooms[k].members <==> c in r.rooms[k].members
  {
    ClearedMembers(r, d, k, c);
    assert c in r.rooms[k].members <==> c in multiset(r.rooms[k].members);
    assert c in Cleared(r, d).rooms[k].members <==> c in multiset(Cleared(r, d).rooms[k].members);
  }

  // ---------------------------------------------------------------- when the client is gone

  lemma StrippedNowhere(r: Registry, d: Socket, c: Socket)
    requires Integrity(r) && d in Sockets(r.users) && c != d
    ensures Nowhere(Stripped(r, d, c), c) <==> Unnoticed(r, c)
  {
    var mid, end := Cleared(r, d), Stripped(r, d, c);
    SameUsersSockets(r.users, mid.users);
    DroppedSockets(mid.users, c);
    forall k | 0 <= k < |r.rooms| ensures c in end.rooms[k].members <==> c in r.rooms[k].members {
      StillMember(r, d, c, k);
    }
    if Unnoticed(r, c) {
      forall j | 0 <= j < |end.users| ensures c !in end.users[j].dm {
        var i := WasThere(mid.users, c, j);
        StillListed(r, d, c, i);
      }
    }
    if Nowhere(end, c) {
      forall i | 0 <= i < |r.users| && r.users[i].socket != c ensures c !in r.users[i].dm {
        var j := StillThere(mid.users, c, i);
        StillListed(r, d, c, i);
      }
    }
  }

  // ---------------------------------------------------------------- when the registry is in order

  lemma StrippedMutual(r: Registry, d: Socket, c: Socket, a: int, b: int)
    requires Integrity(r) && d in Sockets(r.users) && c != d
    requires forall i | 0 <= i < |r.users| && r.users[i].socket == d :: r.users[i].dm == []
    ensures Mutual(Stripped(r, d, c).users, a, b)
  {
    var mid, end := Cleared(r, d).users, Stripped(r, d, c).users;
    SameUsersSockets(r.users, mid);
    DroppedSockets(mid, c);
    if 0 <= a < |end| && 0 <= b < |end| {
      var i := WasThere(mid, c, a);
      var j := WasThere(mid, c, b);
      assert DifferentSockets(end, a, b) && DifferentSockets(end, b, a);
      assert DifferentSockets(mid, i, j) && DifferentSockets(mid, j, i);
      StrippedTimes(r, d, i, r.users[j].socket);
      StrippedTimes(r, d, j, r.users[i].socket);
      assert Mutual(r.users, i, j);
    }
  }

  lemma StrippedPeersLive(r: Registry, d: Socket, c: Socket, j: int)
    requires Integrity(r) && d in Sockets(r.users) && c != d && Unnoticed(r, c)
    ensures PeersLive(Stripped(r, d, c).users, Sockets(r.users) - {c}, j)
  {
    var mid, end := Cleared(r, d).users, Stripped(r, d, c).users;
    SameUsersSockets(r.users, mid);
    if 0 <= j < |end| {
      var i := WasThere(mid, c, j);
      assert PeersLive(r.users, Sockets(r.users), i);
      forall x | x in end[j].dm ensures x in Sockets(r.users) - {c} {
        assert x in multiset(mid[i].dm);
        StrippedTimes(r, d, i, x);
        assert x in multiset(r.users[i].dm);
      }
    }
  }

  lemma StrippedMembersOk(r: Registry, d: Socket, c: Socket, k: int)
    requires Integrity(r) && c != d && Unnoticed(r, c)
    ensures MembersOk(Stripped(r, d, c).rooms, Sockets(r.users) - {c}, k)
  {
    if 0 <= k < |r.rooms| {
      assert MembersOk(r.rooms, Sockets(r.users), k);
      forall x: Socket ensures multiset(Cleared(r, d).rooms[k].members)[x] <= if x in Sockets(r.users) - {c} then 1 else 0 {
        ClearedMembers(r, d, k, x);
        assert c !in multiset(r.rooms[k].members);
      }
    }
  }

  lemma StrippedInOrder(r: Registry, u: nat, c: Socket)
    requires Integrity(r) && u < |r.users| && r.users[u].socket != c && r.users[u].dm == [] && Unnoticed(r, c)
    ensures Integrity(Stripped(r, r.users[u].socket, c))
  {
    var d := r.users[u].socket;
    var mid, end := Cleared(r, d), Stripped(r, d, c);
    SocketIn(r.users, u);
    SameUsersSockets(r.users, mid.users);
    DroppedSockets(mid.users, c);
    forall i | 0 <= i < |r.users| && r.users[i].socket == d ensures r.users[i].dm == [] {
      assert DifferentSockets(r.users, i, u) && DifferentSockets(r.users, u, i);
    }
    forall a, b ensures Mutual(end.users, a, b) { StrippedMutual(r, d, c, a, b); }
    forall j ensures PeersLive(end.users, Sockets(end.users), j) { StrippedPeersLive(r, d, c, j); }
    forall k ensures MembersOk(end.rooms, Sockets(end.users), k) { StrippedMembersOk(r, d, c, k); }
    forall i, j ensures DifferentNames(end.rooms, i, j) { assert DifferentNames(r.rooms, i, j); }
  }

  /** If the registry is in order although c is dropped, nobody noticed c. */
  lemma InOrderUnnoticed(r: Registry, d: Socket, c: Socket)
    requires Integrity(r) && d in Sockets(r.users) && c != d && Integrity(Stripped(r, d, c))
    ensures Unnoticed(r, c)
  {
    var mid, end := Cleared(r, d), Stripped(r, d, c);
    SameUsersSockets(r.users, mid.users);
    DroppedSockets(mid.users, c);
    forall k | 0 <= k < |r.rooms| ensures c !in r.rooms[k].members {
      StillMember(r, d, c, k);
      assert MembersOk(end.rooms, Sockets(end.users), k);
      assert multiset(end.rooms[k].members)[c] == 0;
    }
    forall i | 0 <= i < |r.users| && r.users[i].socket != c ensures c !in r.users[i].dm {
      var j := StillThere(mid.users, c, i);
      StillListed(r, d, c, i);
      assert PeersLive(end.users, Sockets(end.users), j);
    }
  }

  /** If it is, the user that was stripped had no peers: the others have dropped it, but not it the others. */
  lemma InOrderNoPeers(r: Registry, u: nat, c: Socket, x: Socket)
    requires Integrity(r) && u < |r.users| && r.users[u].socket != c && Integrity(Stripped(r, r.users[u].socket, c))
    ensures Times(r.users, u, x) == 0
  {
    var d, mid := r.users[u].socket, Cleared(r, r.users[u].socket).users;
    var end := Stripped(r, d, c).users;
    SocketIn(r.users, u);
    InOrderUnnoticed(r, d, c);
    SameUsersSockets(r.users, mid);
    assert PeersLive(r.users, Sockets(r.users), u) && Mutual(r.users, u, u);
    var a := StillThere(mid, c, u);
    StrippedTimes(r, d, u, x);
    if x == d {
      assert Mutual(end, a, a);
    } else if x in Sockets(r.users) && x != c {
      SocketFound(r.users, x);
      var i := FindSocket(r.users, x);
      var b := StillThere(mid, c, i);
      StrippedTimes(r, d, i, d);
      assert Mutual(end, a, b);
    } else {
      assert x !in r.users[u].dm;
    }
  }

  lemma FirstCounts(v: seq<Socket>)
    ensures v != [] ==> multiset(v)[v[0]] > 0
  {
    assert v != [] ==> v[0] in multiset(v);
  }

  // ---------------------------------------------------------------- the exact conditions

  /** What the clean-up of a lost connection does, when it removes the client altogether, and when it leaves the registry
      in order: by whether the guest name of the client finds nobody, the client, or somebody else. */
  lemma DropCleansExactly(r: Registry, c: Socket)
    requires Integrity(r)
    ensures var u, k, r' := FindName(r.users, GuestName(c)), FindSocket(r.users, c), Perform(r, c, Drop);
      if u == |r.users| then
        r' == r && (Nowhere(r', c) <==> k == |r.users|)
      else if u == k then
        r' == Perform(r, c, Exit) && Nowhere(r', c) && Integrity(r')
      else
        && r' == Stripped(r, r.users[u].socket, c)
        && (Nowhere(r', c) <==> Unnoticed(r, c))
        && (Integrity(r') <==> r.users[u].dm == [] && Unnoticed(r, c))
  {
    var u, k := FindName(r.users, GuestName(c)), FindSocket(r.users, c);
    DropResult(r, c);
    SocketFound(r.users, c);
    if u == |r.users| {
      StrangerIsNowhere(r, c);
    } else if u == k {
      ExitKeeps(r, c);
    } else {
      var d := r.users[u].socket;
      SocketIn(r.users, u);
      SocketAt(r.users, u);
      StrippedNowhere(r, d, c);
      if Integrity(Stripped(r, d, c)) {
        InOrderUnnoticed(r, d, c);
        forall x ensures multiset(r.users[u].dm)[x] == 0 { InOrderNoPeers(r, u, c, x); }
        FirstCounts(r.users[u].dm);
      }
      if r.users[u].dm == [] && Unnoticed(r, c) { StrippedInOrder(r, u, c); }
    }
  }

  /** Who is where and who is there after a lost connection: whoever has the guest name of the client is out of every room,
      the client is no user any more, and nothing else changes; and if nobody has that name nothing does. */
  lemma MembershipAfterLoss(r: Registry, c: Socket, n: string, t: Socket)
    requires Integrity(r)
    ensures var u, r' := FindName(r.users, "guest" + Decimal(c)), Perform(r, c, Drop);
      if u == |r.users| then r' == r
      else
        && (IsMember(r'.rooms, n, t) <==> IsMember(r.rooms, n, t) && t != r.users[u].socket)
        && (t in Sockets(r'.users) <==> t in Sockets(r.users) && t != c)
  {
    var u, r' := FindName(r.users, "guest" + Decimal(c)), Perform(r, c, Drop);
    DropResult(r, c);
    if u < |r.users| {
      var d := r.users[u].socket;
      SocketIn(r.users, u);
      ClearedMembership(r, d, n, t);
      SameUsersSockets(r.users, Cleared(r, d).users);
      DroppedSockets(Cleared(r, d).users, c);
    }
  }

  lemma ClearedMembership(r: Registry, d: Socket, n: string, t: Socket)
    requires Integrity(r)
    ensures IsMember(Cleared(r, d).rooms, n, t) <==> IsMember(r.rooms, n, t) && t != d
  {
    SameRoomNames(r.rooms, Cleared(r, d).rooms, n);
    var k := FindRoom(r.rooms, n);
    if k < |r.rooms| {
      ClearedMembers(r, d, k, t);
      assert t in r.rooms[k].members <==> t in multiset(r.rooms[k].members);
      assert t in Cleared(r, d).rooms[k].members <==> t in multiset(Cleared(r, d).rooms[k].members);
    }
  }

  /** In a registry that is in order, a socket of no user occurs nowhere. */
  lemma StrangerIsNowhere(r: Registry, s: Socket)
    requires Integrity(r)
    ensures s !in Sockets(r.users) <==> Nowhere(r, s)
  {
    if s !in Sockets(r.users) {
      forall i | 0 <= i < |r.users| ensures s !in r.users[i].dm {
        assert PeersLive(r.users, Sockets(r.users), i);
      }
      forall k | 0 <= k < |r.rooms| ensures s !in r.rooms[k].members {
        assert MembersOk(r.rooms, Sockets(r.users), k);
        assert multiset(r.rooms[k].members)[s] == 0;
      }
    }
  }
}
