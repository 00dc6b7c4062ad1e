/** What clients get to read: the lines of the listings, the text of a message, and the names that are stored. */
module ChatAnswers {
  import opened Sequences
  import opened ChatRegistry
  import opened ChatIntegrity
  import opened ChatRemoval
  import opened ChatCommands
  import opened ChatMeaning
  import opened ChatRuns

  // ---------------------------------------------------------------- numbers

  predicate IsDigit(c: char) { '0' <= c <= '9' }

  predicate AreDigits(text: string) {
    forall i | 0 <= i < |text| :: IsDigit(text[i])
  }

  /** The number that a series of digits stands for. */
  function Number(text: string): nat
    requires AreDigits(text)
  {
    if text == [] then 0 else 10 * Number(text[..|text| - 1]) + (text[|text| - 1] as int - '0' as int)
  }

  lemma OneMoreDigit(text: string, d: nat)
    requires AreDigits(text) && d < 10
    ensures AreDigits(text + [Digit(d)]) && Number(text + [Digit(d)]) == 10 * Number(text) + d
  {
    var longer := text + [Digit(d)];
    assert longer[..|longer| - 1] == text;
  }

  /** A number is printed as its decimal digits, without leading zeros. */
  lemma {:induction false} DecimalReads(n: nat)
    ensures var text := Decimal(n);
      && |text| >= 1 && AreDigits(text) && Number(text) == n && (text[0] == '0' ==> n == 0)
  {
    if n < 10 {
      OneMoreDigit([], n);
      assert [] + [Digit(n)] == [Digit(n)];
    } else {
      DecimalReads(n / 10);
      OneMoreDigit(Decimal(n / 10), n % 10);
    }
  }

  // ---------------------------------------------------------------- listings

  /** The line about a user. */
  function UserLine(c: Socket, u: User): Line { Line(c, u.name + " (socket " + Decimal(u.socket) + ")\n") }

  lemma {:induction false} UsersSoFar(r: Registry, c: Socket, n: nat)
    requires n <= |r.users|
    ensures var out := Partial(r, c, Users, n);
      |out| == n && forall k | 0 <= k < n :: out[k] == UserLine(c, r.users[k])
  {
    if n > 0 { UsersSoFar(r, c, n - 1); }
  }

  /** The answer to users: one line to the client for each user in order, with the name and socket of that user. */
  lemma UsersAnswer(r: Registry, c: Socket)
    ensures var out := Answer(r, c, Users);
      && |out| == |r.users|
      && forall k | 0 <= k < |out| ::
           out[k] == Line(c, r.users[k].name + " (socket " + Decimal(r.users[k].socket) + ")\n")
  {
    UsersSoFar(r, c, |r.users|);
  }

  lemma {:induction false} RoomsSoFar(r: Registry, c: Socket, n: nat)
    requires n <= |r.rooms|
    ensures var out := Partial(r, c, Rooms, n);
      |out| == n && forall k | 0 <= k < n :: out[k] == Line(c, r.rooms[k].name + "\n")
  {
    if n > 0 { RoomsSoFar(r, c, n - 1); }
  }

  /** The answer to rooms: one line to the client for each room in order, with the name of that room. */
  lemma RoomsAnswer(r: Registry, c: Socket)
    ensures var out := Answer(r, c, Rooms);
      |out| == |r.rooms| && forall k | 0 <= k < |out| :: out[k] == Line(c, r.rooms[k].name + "\n")
  {
    RoomsSoFar(r, c, |r.rooms|);
  }

  /** Lines about users with different sockets differ, whatever the names. */
  lemma LineTellsSocket(m: string, s: Socket, n: string, t: Socket)
    requires m + " (socket " + Decimal(s) + ")\n" == n + " (socket " + Decimal(t) + ")\n"
    ensures s == t
  {
    var a, b := m + " (socket ", n + " (socket ";
    var x, y := a + Decimal(s), b + Decimal(t);
    assert x + ")\n" == m + " (socket " + Decimal(s) + ")\n" && y + ")\n" == n + " (socket " + Decimal(t) + ")\n";
    assert x == (x + ")\n")[..|x|] == (y + ")\n")[..|y|] == y;
    SpaceBefore(a, s, b, t);
    SpaceBefore(b, t, a, s);
    assert Decimal(s) == x[|a|..] == y[|b|..] == Decimal(t);
    DecimalInjective(s, t);
  }

  /** The last space of a text that ends in a number is before the number. */
  lemma SpaceBefore(a: string, s: Socket, b: string, t: Socket)
    requires a != [] && a[|a| - 1] == ' ' && a + Decimal(s) == b + Decimal(t)
    ensures |a| <= |b|
  {
    var x := b + Decimal(t);
    DecimalReads(t);
    forall i | |b| <= i < |x| ensures IsDigit(x[i]) {
      assert x[i] == Decimal(t)[i - |b|];
    }
    assert (a + Decimal(s))[|a| - 1] == ' ';
  }

  /** Some line of a listing is about the user with socket t. */
  ghost predicate Lists(out: seq<Line>, c: Socket, t: Socket) {
    exists k, name: string :: 0 <= k < |out| && out[k] == Line(c, name + " (socket " + Decimal(t) + ")\n")
  }

  /** After every orderly log, users lists exactly the open connections, and each of them once. */
  lemma UsersListsConnected(log: seq<Entry>, c: Socket, t: Socket)
    requires Orderly(log)
    ensures |Answer(Replay(log), c, Users)| == |Connected(log)|
    ensures Lists(Answer(Replay(log), c, Users), c, t) <==> t in Connected(log)
  {
    RunKeeps(log);
    var r := Replay(log);
    var out := Answer(r, c, Users);
    UsersAnswer(r, c);
    SocketCount(r.users);
    SocketFound(r.users, t);
    if t in Connected(log) {
      var k := FindSocket(r.users, t);
      assert out[k] == Line(c, r.users[k].name + " (socket " + Decimal(t) + ")\n");
    }
    if Lists(out, c, t) {
      var k, name: string :| 0 <= k < |out| && out[k] == Line(c, name + " (socket " + Decimal(t) + ")\n");
      LineTellsSocket(name, t, r.users[k].name, r.users[k].socket);
      SocketIn(r.users, k);
    }
  }

  lemma {:induction false} SocketCount(users: seq<User>)
    requires UniqueSockets(users)
    ensures |Sockets(users)| == |users|
  {
    if users == [] {
      assert Sockets(users) == {};
    } else {
      var n := |users| - 1;
      var d := users[..n];
      forall i, j ensures DifferentSockets(d, i, j) { assert DifferentSockets(users, i, j); }
      SocketCount(d);
      assert users[n].socket !in Sockets(d) by {
        forall i | 0 <= i < n ensures d[i].socket != users[n].socket { assert DifferentSockets(users, i, n); }
      }
      assert Sockets(users) == Sockets(d) + {users[n].socket};
    }
  }

  // ---------------------------------------------------------------- messages

  /** What a user says reaches the others under its name; what somebody says who is no user, under its guest name. */
  lemma MessageText(r: Registry, c: Socket, text: string, name: string)
    requires if c in Sockets(r.users) then IsNamed(r.users, c, name) else name == "guest" + Decimal(c)
    ensures forall l | l in Answer(r, c, Say(text)) :: l.text == "\n::" + name + "> " + text + "\nchat>"
  {
    SocketFound(r.users, c);
    PartialText(r, c, text, |r.users|);
  }

  /** Right after a login, what the client says carries the name it logged in under, cut to 29 characters. */
  lemma MessageAfterLogin(r: Registry, c: Socket, login: string, text: string)
    requires c in Sockets(r.users)
    ensures var name := if |login| <= 29 then login else login[..29];
      forall l | l in Answer(Perform(r, c, Login(login)), c, Say(text)) :: l.text == "\n::" + name + "> " + text + "\nchat>"
  {
    var r', name := Perform(r, c, Login(login)), if |login| <= 29 then login else login[..29];
    NamesAfterLogin(r, c, login, c, name);
    SocketFound(r'.users, c);
    MessageText(r', c, text, name);
  }

  // ---------------------------------------------------------------- how the writing commands change the listings

  lemma SameUsersSameAnswer(r: Registry, r': Registry, a: Socket)
    requires r'.users == r.users
    ensures Answer(r', a, Users) == Answer(r, a, Users)
  {
    UsersAnswer(r, a);
    UsersAnswer(r', a);
  }

  lemma UserInFront(r: Registry, r': Registry, u: User, a: Socket)
    requires r'.users == [u] + r.users
    ensures Answer(r', a, Users) == [UserLine(a, u)] + Answer(r, a, Users)
  {
    UsersAnswer(r, a);
    UsersAnswer(r', a);
    var out, all := Answer(r, a, Users), Answer(r', a, Users);
    forall k | 0 <= k < |all| ensures all[k] == ([UserLine(a, u)] + out)[k] {
      if k > 0 { assert r'.users[k] == r.users[k - 1]; }
    }
  }

  /** The client that arrives comes first among the users, as guest and its socket number, unless that name is taken. */
  lemma UsersAfterArrival(r: Registry, c: Socket, a: Socket)
    ensures var guest := "guest" + Decimal(c);
      Answer(Perform(r, c, Arrive), a, Users) ==
        if exists i :: 0 <= i < |r.users| && r.users[i].name == guest then Answer(r, a, Users)
        else [Line(a, guest + " (socket " + Decimal(c) + ")\n")] + Answer(r, a, Users)
  {
    var r', guest := Perform(r, c, Arrive), "guest" + Decimal(c);
    ArriveResult(r, c);
    NameFound(r.users, guest);
    GuestNameFits(c);
    if FindName(r.users, guest) < |r.users| {
      SameUsersSameAnswer(r, r', a);
    } else {
      UserInFront(r, r', User(guest, c, []), a);
    }
  }

  /** The user at j of r' is called like that of r, when the one at k is not there any more. */
  ghost predicate SameBut(users: seq<User>, users': seq<User>, k: nat, j: int) {
    var i := if j < k then j else j + 1;
    0 <= j < |users'| && i < |users| && users'[j].name == users[i].name && users'[j].socket == users[i].socket
  }

  lemma UserTakenOut(r: Registry, r': Registry, k: nat, a: Socket)
    requires k < |r.users| && |r'.users| == |r.users| - 1
    requires forall j | 0 <= j < |r'.users| :: SameBut(r.users, r'.users, k, j)
    ensures |Answer(r, a, Users)| == |r.users| && Answer(r', a, Users) == RemoveAt(Answer(r, a, Users), k)
  {
    UsersAnswer(r, a);
    UsersAnswer(r', a);
    var out, rest := Answer(r, a, Users), Answer(r', a, Users);
    forall j | 0 <= j < |rest| ensures rest[j] == RemoveAt(out, k)[j] {
      assert SameBut(r.users, r'.users, k, j);
    }
  }

  /** A client that exits is no longer listed; the other lines and their order stay. */
  lemma UsersAfterExit(r: Registry, c: Socket, a: Socket) returns (k: nat)
    requires Integrity(r) && c in Sockets(r.users)
    ensures k < |r.users| == |Answer(r, a, Users)| && r.users[k].socket == c
    ensures Answer(Perform(r, c, Exit), a, Users) == Answer(r, a, Users)[..k] + Answer(r, a, Users)[k + 1..]
  {
    k := FindSocket(r.users, c);
    var r' := Perform(r, c, Exit);
    SocketFound(r.users, c);
    ExitResult(r, c);
    forall j | 0 <= j < |r'.users| ensures SameBut(r.users, r'.users, k, j) {
      assert r'.users[j] == Cleared(r, c).users[if j < k then j else j + 1];
    }
    UserTakenOut(r, r', k, a);
  }

  lemma RoomInFront(r: Registry, r': Registry, room: Room, a: Socket)
    requires r'.rooms == [room] + r.rooms
    ensures Answer(r', a, Rooms) == [Line(a, room.name + "\n")] + Answer(r, a, Rooms)
  {
    RoomsAnswer(r, a);
    RoomsAnswer(r', a);
    var out, all := Answer(r, a, Rooms), Answer(r', a, Rooms);
    forall k | 0 <= k < |all| ensures all[k] == ([Line(a, room.name + "\n")] + out)[k] {
      if k > 0 { assert r'.rooms[k] == r.rooms[k - 1]; }
    }
  }

  /** A room that is created comes first among the rooms, its name cut to 49 characters, unless there is one of that name. */
  lemma RoomsAfterCreate(r: Registry, c: Socket, room: string, a: Socket)
    ensures var name := if |room| <= 49 then room else room[..49];
      Answer(Perform(r, c, Create(room)), a, Rooms) ==
        if exists k :: 0 <= k < |r.rooms| && r.rooms[k].name == room then Answer(r, a, Rooms)
        else [Line(a, name + "\n")] + Answer(r, a, Rooms)
  {
    var r' := Perform(r, c, Create(room));
    ApplyOne(r, OpAddRoom(room));
    RoomFound(r.rooms, room);
    if FindRoom(r.rooms, room) < |r.rooms| {
      assert r' == r;
    } else {
      RoomInFront(r, r', Room(if |room| <= 49 then room else room[..49], []), a);
    }
  }
}
