/**
 Runs of chat commands: what every orderly run keeps, and whom a message reaches.
 */
module ChatRuns {
  import opened Sequences
  import opened ChatRegistry
  import opened ChatIntegrity
  import opened ChatCommands
  import opened ChatLoss
  import opened ChatMeaning
  import opened ChatRemoval

  // ---------------------------------------------------------------- orderly runs

  /** The sockets of the connections that are open after the log. */
  function Connected(log: seq<Entry>): set<Socket> {
    if log == [] then {}
    else
      var before, e := Connected(log[..|log| - 1]), log[|log| - 1];
      if e.cmd.Arrive? then before + {e.client} else if e.cmd.Exit? || e.cmd.Drop? then before - {e.client} else before
  }

  /** Those of them that have used login. */
  function LoggedIn(log: seq<Entry>): set<Socket> {
    if log == [] then {}
    else
      var before, e := LoggedIn(log[..|log| - 1]), log[|log| - 1];
      if e.cmd.Login? then before + {e.client}
      else if e.cmd.Arrive? || e.cmd.Exit? || e.cmd.Drop? then before - {e.client} else before
  }

  /** The next command of a log is orderly: open connections have different sockets, room names fit, nobody logs in
      under a guest name, and a connection that has used login is not lost. */
  ghost predicate OrderlyNext(log: seq<Entry>, e: Entry) {
    && (e.cmd.Arrive? <==> e.client !in Connected(log))
    && (e.cmd.Create? || e.cmd.Join? ==> |e.cmd.room| <= ROOMNAME_CHARS)
    && (e.cmd.Login? ==> !GuestLike(Truncate(e.cmd.name, USERNAME_CHARS)))
    && (e.cmd.Drop? ==> e.client !in LoggedIn(log))
  }

  ghost predicate Orderly(log: seq<Entry>) {
    log == [] || (Orderly(log[..|log| - 1]) && OrderlyNext(log[..|log| - 1], log[|log| - 1]))
  }

  ghost predicate GuestAt(users: seq<User>, loggedIn: set<Socket>, i: int) {
    0 <= i < |users| && users[i].socket !in loggedIn ==> users[i].name == GuestName(users[i].socket)
  }

  /** Who has not logged in still has a guest name. */
  ghost predicate StillGuests(users: seq<User>, loggedIn: set<Socket>) {
    forall i :: GuestAt(users, loggedIn, i)
  }

  ghost predicate RunInv(connected: set<Socket>, loggedIn: set<Socket>, r: Registry) {
    Integrity(r) && Sockets(r.users) == connected && GuestsHonest(r.users) && StillGuests(r.users, loggedIn)
  }

  /** Users with the same sockets and names. */
  lemma NamesKept(users: seq<User>, users': seq<User>, loggedIn: set<Socket>)
    requires SameUsers(users, users') && forall i | 0 <= i < |users| :: users'[i].name == users[i].name
    requires GuestsHonest(users) && StillGuests(users, loggedIn)
    ensures GuestsHonest(users') && StillGuests(users', loggedIn)
  {
    forall i, s ensures HonestAt(users', i, s) { assert HonestAt(users, i, s); }
    forall i ensures GuestAt(users', loggedIn, i) { assert GuestAt(users, loggedIn, i); }
  }

  /** Only the user with socket c can have the guest name of c. */
  lemma GuestNameTaken(users: seq<User>, c: Socket)
    requires GuestsHonest(users)
    ensures FindName(users, GuestName(c)) < |users| ==> c in Sockets(users)
  {
    NameFound(users, GuestName(c));
    assert HonestAt(users, FindName(users, GuestName(c)), c);
  }

  lemma ArriveStep(connected: set<Socket>, loggedIn: set<Socket>, r: Registry, c: Socket)
    requires RunInv(connected, loggedIn, r) && c !in connected
    ensures RunInv(connected + {c}, loggedIn - {c}, Perform(r, c, Arrive))
  {
    GuestNameTaken(r.users, c);
    ArriveKeeps(r, c);
    var users' := [User(GuestName(c), c, [])] + r.users;
    forall i, s ensures HonestAt(users', i, s) {
      assert HonestAt(r.users, i - 1, s);
      GuestNameInjective(c, s);
    }
    forall i ensures GuestAt(users', loggedIn - {c}, i) {
      assert GuestAt(r.users, loggedIn, i - 1);
      if 0 < i <= |r.users| { SocketIn(r.users, i - 1); }
    }
  }

  lemma LoginStep(connected: set<Socket>, loggedIn: set<Socket>, r: Registry, c: Socket, name: string)
    requires RunInv(connected, loggedIn, r) && c in connected && !GuestLike(Truncate(name, USERNAME_CHARS))
    ensures RunInv(connected, loggedIn + {c}, Perform(r, c, Login(name)))
  {
    LoginKeeps(r, c, name);
    ApplyOne(r, OpRename(c, name));
    SocketFound(r.users, c);
    var users' := Rename(r.users, c, name);
    forall i, s ensures HonestAt(users', i, s) { assert HonestAt(r.users, i, s); }
    forall i ensures GuestAt(users', loggedIn + {c}, i) { assert GuestAt(r.users, loggedIn, i); }
  }

  lemma RemovedNames(users: seq<User>, k: nat, loggedIn: set<Socket>)
    requires UniqueSockets(users) && k < |users| && GuestsHonest(users) && StillGuests(users, loggedIn)
    ensures GuestsHonest(RemoveAt(users, k)) && StillGuests(RemoveAt(users, k), loggedIn - {users[k].socket})
  {
    var rest := RemoveAt(users, k);
    forall i, s ensures HonestAt(rest, i, s) { assert HonestAt(users, Shift(i, k), s); }
    forall i ensures GuestAt(rest, loggedIn - {users[k].socket}, i) {
      assert GuestAt(users, loggedIn, Shift(i, k));
      if 0 <= i < |rest| { NotHere(users, k, i); }
    }
  }

  lemma ExitStep(connected: set<Socket>, loggedIn: set<Socket>, r: Registry, c: Socket)
    requires RunInv(connected, loggedIn, r) && c in connected
    ensures RunInv(connected - {c}, loggedIn - {c}, Perform(r, c, Exit))
  {
    ExitKeeps(r, c);
    ExitResult(r, c);
    SocketFound(r.users, c);
    var mid := Cleared(r, c).users;
    NamesKept(r.users, mid, loggedIn);
    SameUsersSockets(r.users, mid);
    RemovedNames(mid, FindSocket(r.users, c), loggedIn);
  }

  lemma DropStep(connected: set<Socket>, loggedIn: set<Socket>, r: Registry, c: Socket)
    requires RunInv(connected, loggedIn, r) && c in connected && c !in loggedIn
    ensures RunInv(connected - {c}, loggedIn - {c}, Perform(r, c, Drop))
  {
    SocketFound(r.users, c);
    assert GuestAt(r.users, loggedIn, FindSocket(r.users, c));
    GuestLookup(r.users, c);
    DropResult(r, c);
    ExitStep(connected, loggedIn, r, c);
  }

  /** The commands that neither open nor close a connection nor change a name. */
  lemma OtherStep(connected: set<Socket>, loggedIn: set<Socket>, r: Registry, c: Socket, cmd: Command)
    requires RunInv(connected, loggedIn, r) && c in connected
    requires !cmd.Arrive? && !cmd.Login? && !cmd.Exit? && !cmd.Drop?
    requires cmd.Create? || cmd.Join? ==> |cmd.room| <= ROOMNAME_CHARS
    ensures RunInv(connected, loggedIn, Perform(r, c, cmd))
  {
    match cmd
    case Create(room) => CreateKeeps(r, c, room);
    case Join(room) => JoinKeeps(r, c, room);
    case Leave(room) => LeaveKeeps(r, c, room);
    case Connect(name) => PeeringKeeps(r, c, cmd); NamesKept(r.users, Perform(r, c, cmd).users, loggedIn);
    case Disconnect(name) => PeeringKeeps(r, c, cmd); NamesKept(r.users, Perform(r, c, cmd).users, loggedIn);
    case _ =>
  }

  lemma StartupInv()
    ensures RunInv({}, {}, STARTUP)
  {
    assert Sockets([]) == {};
  }

  /** Over every orderly run: sockets are unique and are those of the open connections, every member and every peer is
      a live user, no room lists a member twice, and peers are mutual. */
  lemma {:induction false} RunKeeps(log: seq<Entry>)
    requires Orderly(log)
    ensures RunInv(Connected(log), LoggedIn(log), Replay(log))
  {
    if log == [] {
      StartupInv();
    } else {
      var before, e := log[..|log| - 1], log[|log| - 1];
      RunKeeps(before);
      var connected, loggedIn, r := Connected(before), LoggedIn(before), Replay(before);
      match e.cmd
      case Arrive => ArriveStep(connected, loggedIn, r, e.client);
      case Login(name) => LoginStep(connected, loggedIn, r, e.client, name);
      case Exit => ExitStep(connected, loggedIn, r, e.client);
      case Drop => DropStep(connected, loggedIn, r, e.client);
      case _ => OtherStep(connected, loggedIn, r, e.client, e.cmd);
    }
  }

  /** Once a connection is closed its socket occurs nowhere, until it is used again. */
  lemma GoneIsNowhere(log: seq<Entry>, s: Socket)
    requires Orderly(log) && s !in Connected(log)
    ensures Nowhere(Replay(log), s)
  {
    RunKeeps(log);
    StrangerIsNowhere(Replay(log), s);
  }

  // ---------------------------------------------------------------- room names

  lemma ApplyNamesFit(r: Registry, op: Op)
    requires NamesFit(r.rooms)
    ensures NamesFit(Apply(r, op).rooms)
  {
  }

  lemma {:induction false} ApplyAllNamesFit(r: Registry, ops: seq<Op>)
    requires NamesFit(r.rooms)
    ensures NamesFit(ApplyAll(r, ops).rooms)
    decreases |ops|
  {
    if ops != [] {
      ApplyNamesFit(r, ops[0]);
      ApplyAllNamesFit(Apply(r, ops[0]), ops[1..]);
    }
  }

  /** After every log at all, orderly or not, room names as stored fit their buffer. */
  lemma {:induction false} NamesAlwaysFit(log: seq<Entry>)
    ensures NamesFit(Replay(log).rooms)
  {
    if log != [] {
      var before, e := log[..|log| - 1], log[|log| - 1];
      NamesAlwaysFit(before);
      ApplyAllNamesFit(Replay(before), Plan(Replay(before), e.client, e.cmd));
    }
  }

  // ---------------------------------------------------------------- without the conditions

  lemma ReplayStep(log: seq<Entry>, e: Entry)
    ensures Replay(log + [e]) == Perform(Replay(log), e.client, e.cmd)
  {
    assert (log + [e])[..|log|] == log;
  }

  /** After client c has arrived first and has logged in under any name. */
  lemma ArrivedAndLoggedIn(c: Socket, name: string) returns (r: Registry)
    ensures r == Replay([Entry(c, Arrive), Entry(c, Login(name))])
    ensures Integrity(r) && |r.users| == 1 && r.users[0].socket == c && r.users[0].name == Truncate(name, USERNAME_CHARS)
  {
    StartupInv();
    var a, l := Entry(c, Arrive), Entry(c, Login(name));
    ReplayStep([], a);
    ReplayStep([a], l);
    assert [] + [a] == [a] && [a] + [l] == [a, l];
    ArriveKeeps(STARTUP, c);
    var r1 := Perform(STARTUP, c, Arrive);
    LoginKeeps(r1, c, name);
    ApplyOne(r1, OpRename(c, name));
    SocketAt(r1.users, 0);
    r := Perform(r1, c, Login(name));
  }

  /** If somebody logs in under the guest name of a client that is yet to come, the arrival of that client leaves a
      room member that is no user. */
  lemma GuestNameStolen(c: Socket, d: Socket)
    requires c != d
    ensures !Integrity(Replay([Entry(c, Arrive), Entry(c, Login(GuestName(d))), Entry(d, Arrive)]))
  {
    var r := ArrivedAndLoggedIn(c, GuestName(d));
    var log, e := [Entry(c, Arrive), Entry(c, Login(GuestName(d)))], Entry(d, Arrive);
    ReplayStep(log, e);
    assert log + [e] == [Entry(c, Arrive), Entry(c, Login(GuestName(d))), e];
    GuestNameFits(d);
    NameFound(r.users, GuestName(d));
    ArriveKeepsExactly(r, d);
  }

  /** If a client logs in under a name that is no guest name and its connection is lost, it stays a user. */
  lemma LostAfterLogin(c: Socket, name: string) returns (r: Registry)
    requires !GuestLike(Truncate(name, USERNAME_CHARS))
    ensures r == Replay([Entry(c, Arrive), Entry(c, Login(name)), Entry(c, Drop)])
    ensures Integrity(r) && c in Sockets(r.users) && FindName(r.users, GuestName(c)) == |r.users|
  {
    r := ArrivedAndLoggedIn(c, name);
    var log, e := [Entry(c, Arrive), Entry(c, Login(name))], Entry(c, Drop);
    ReplayStep(log, e);
    assert log + [e] == [Entry(c, Arrive), Entry(c, Login(name)), e];
    NameFound(r.users, GuestName(c));
    SocketIn(r.users, 0);
    DropCleansExactly(r, c);
  }

  /** The socket of that client is free again for the next connection, which makes a second user with the same socket. */
  lemma SocketReused(c: Socket, name: string)
    requires !GuestLike(Truncate(name, USERNAME_CHARS))
    ensures var r := Replay([Entry(c, Arrive), Entry(c, Login(name)), Entry(c, Drop), Entry(c, Arrive)]);
      !Integrity(r) && |r.users| >= 2 && exists k :: 0 < k < |r.users| && r.users[0].socket == r.users[k].socket == c
  {
    var r := LostAfterLogin(c, name);
    var log, e := [Entry(c, Arrive), Entry(c, Login(name)), Entry(c, Drop)], Entry(c, Arrive);
    ReplayStep(log, e);
    assert log + [e] == [Entry(c, Arrive), Entry(c, Login(name)), Entry(c, Drop), e];
    ArriveKeepsExactly(r, c);
    ArriveResult(r, c);
    SocketFound(r.users, c);
    var k, users' := FindSocket(r.users, c), Perform(r, c, Arrive).users;
    assert users'[k + 1] == r.users[k];
  }

  /** Clients c and d have arrived. */
  lemma TwoArrived(c: Socket, d: Socket) returns (r: Registry)
    requires c != d
    ensures r == Replay([Entry(c, Arrive), Entry(d, Arrive)])
    ensures Integrity(r) && r.users == [User(GuestName(d), d, []), User(GuestName(c), c, [])]
    ensures IsMember(r.rooms, DEFAULT_ROOM, c)
  {
    StartupInv();
    var a, b := Entry(c, Arrive), Entry(d, Arrive);
    ReplayStep([], a);
    ReplayStep([a], b);
    assert [] + [a] == [a] && [a] + [b] == [a, b];
    ArriveKeeps(STARTUP, c);
    MembershipAfterArrival(STARTUP, c, DEFAULT_ROOM, c);
    var r1 := Perform(STARTUP, c, Arrive);
    GuestNameInjective(c, d);
    NameFound(r1.users, GuestName(d));
    ArriveKeeps(r1, d);
    MembershipAfterArrival(r1, d, DEFAULT_ROOM, c);
    r := Perform(r1, d, Arrive);
  }

  /** After that, d has logged in under the guest name of c. */
  lemma GuestNameTakenOver(c: Socket, d: Socket) returns (r: Registry)
    requires c != d
    ensures r == Replay([Entry(c, Arrive), Entry(d, Arrive), Entry(d, Login(GuestName(c)))])
    ensures Integrity(r) && r.users == [User(GuestName(c), d, []), User(GuestName(c), c, [])]
    ensures IsMember(r.rooms, DEFAULT_ROOM, c)
  {
    var r2 := TwoArrived(c, d);
    var log, l := [Entry(c, Arrive), Entry(d, Arrive)], Entry(d, Login(GuestName(c)));
    ReplayStep(log, l);
    assert log + [l] == [Entry(c, Arrive), Entry(d, Arrive), l];
    SocketIn(r2.users, 0);
    SocketAt(r2.users, 0);
    LoginKeeps(r2, d, GuestName(c));
    ApplyOne(r2, OpRename(d, GuestName(c)));
    GuestNameFits(c);
    r := Perform(r2, d, Login(GuestName(c)));
  }

  /** If then the connection of c is lost, which has never used login, the clean-up strips d and drops c, which stays a
      member of the default room. */
  lemma WrongUserStripped(c: Socket, d: Socket)
    requires c != d
    ensures var r' := Replay([Entry(c, Arrive), Entry(d, Arrive), Entry(d, Login(GuestName(c))), Entry(c, Drop)]);
      !Integrity(r') && !Nowhere(r', c) && c !in Sockets(r'.users) && IsMember(r'.rooms, DEFAULT_ROOM, c) && !IsMember(r'.rooms, DEFAULT_ROOM, d)
  {
    var r := GuestNameTakenOver(c, d);
    var log, e := [Entry(c, Arrive), Entry(d, Arrive), Entry(d, Login(GuestName(c)))], Entry(c, Drop);
    ReplayStep(log, e);
    assert log + [e] == [Entry(c, Arrive), Entry(d, Arrive), Entry(d, Login(GuestName(c))), e];
    FirstUnique(r.users, HasName(GuestName(c)), 0);
    FirstUnique(r.users, HasSocket(c), 1);
    DropCleansExactly(r, c);
    var k, r' := FindRoom(r.rooms, DEFAULT_ROOM), Perform(r, c, Drop);
    assert c in r.rooms[k].members;
    SocketIn(r.users, 0);
    SameRoomNames(r.rooms, r'.rooms, DEFAULT_ROOM);
    StillMember(r, d, c, k);
    ClearedMembers(r, d, k, d);
    assert d in r'.rooms[k].members <==> d in multiset(r'.rooms[k].members);
    SameUsersSockets(r.users, Cleared(r, d).users);
    DroppedSockets(Cleared(r, d).users, c);
  }

  /** Creating a room with an overlong name twice makes two rooms of the same name. */
  lemma OverlongNameTwice(c: Socket, name: string)
    requires |name| > ROOMNAME_CHARS
    ensures Integrity(Perform(STARTUP, c, Create(name)))
    ensures !Integrity(Perform(Perform(STARTUP, c, Create(name)), c, Create(name)))
  {
    StartupInv();
    RoomFound(STARTUP.rooms, Truncate(name, ROOMNAME_CHARS));
    RoomFound(STARTUP.rooms, name);
    CreateKeepsExactly(STARTUP, c, name);
    ApplyOne(STARTUP, OpAddRoom(name));
    var r := Perform(STARTUP, c, Create(name));
    RoomFound(r.rooms, Truncate(name, ROOMNAME_CHARS));
    CreateKeepsExactly(r, c, name);
  }

  // ---------------------------------------------------------------- whom a message reaches

  /** How many lines go to socket t. */
  function LinesTo(lines: seq<Line>, t: Socket): nat {
    if lines == [] then 0 else LinesTo(lines[..|lines| - 1], t) + if lines[|lines| - 1].to == t then 1 else 0
  }

  lemma {:induction false} LinesToConcat(a: seq<Line>, b: seq<Line>, t: Socket)
    ensures LinesTo(a + b, t) == LinesTo(a, t) + LinesTo(b, t)
  {
    if b == [] {
      assert a + b == a;
    } else {
      var b' := b[..|b| - 1];
      LinesToConcat(a, b', t);
      assert (a + b)[..|a + b| - 1] == a + b';
    }
  }

  /** Whether what c says is to reach t: they are different live users, peers or together in some room. */
  ghost predicate Heard(r: Registry, c: Socket, t: Socket) {
    && c != t && c in Sockets(r.users) && t in Sockets(r.users)
    && (IsPeer(r.users, c, t) || ShareRoom(r.rooms, c, t))
  }

  lemma ReachesWhoHears(r: Registry, c: Socket, k: nat)
    requires k < |r.users|
    ensures Reaches(r, c, r.users[k]) <==> Heard(r, c, r.users[k].socket)
  {
    SocketFound(r.users, c);
    SocketIn(r.users, k);
  }

  /** The visit of user k sends h lines to t if t is that user, and none otherwise. */
  ghost predicate SendsAt(r: Registry, c: Socket, text: string, t: Socket, h: nat, k: int) {
    0 <= k < |r.users| ==> LinesTo(Visit(r, c, Say(text), k), t) == if r.users[k].socket == t then h else 0
  }

  lemma VisitSends(r: Registry, c: Socket, text: string, t: Socket, k: int)
    ensures SendsAt(r, c, text, t, if Heard(r, c, t) then 1 else 0, k)
  {
    if 0 <= k < |r.users| {
      var line := Line(r.users[k].socket, Message(r, c, text));
      ReachesWhoHears(r, c, k);
      assert LinesTo([line], t) == LinesTo([line][..0], t) + if line.to == t then 1 else 0;
    }
  }

  lemma {:induction false} PartialSends(r: Registry, c: Socket, text: string, n: nat, t: Socket, h: nat)
    requires UniqueSockets(r.users) && n <= |r.users| && forall k :: SendsAt(r, c, text, t, h, k)
    ensures LinesTo(Partial(r, c, Say(text), n), t) == if FindSocket(r.users, t) < n then h else 0
  {
    if n > 0 {
      PartialSends(r, c, text, n - 1, t, h);
      assert SendsAt(r, c, text, t, h, n - 1);
      LinesToConcat(Partial(r, c, Say(text), n - 1), Visit(r, c, Say(text), n - 1), t);
      SocketAt(r.users, n - 1);
      SocketFound(r.users, t);
    }
  }

  lemma {:induction false} PartialText(r: Registry, c: Socket, text: string, n: nat)
    requires n <= |r.users|
    ensures forall l | l in Partial(r, c, Say(text), n) :: l.text == Message(r, c, text)
  {
    if n > 0 { PartialText(r, c, text, n - 1); }
  }

  /** A message reaches exactly the other users that are peers of the sender or share a room with it, each once,
      and all of them get the same text. */
  lemma BroadcastReaches(r: Registry, c: Socket, text: string, t: Socket)
    requires Integrity(r)
    ensures LinesTo(Answer(r, c, Say(text)), t) == if Heard(r, c, t) then 1 else 0
    ensures forall l | l in Answer(r, c, Say(text)) :: l.text == Message(r, c, text)
  {
    var h := if Heard(r, c, t) then 1 else 0;
    forall k ensures SendsAt(r, c, text, t, h, k) {
      VisitSends(r, c, text, t, k);
    }
    PartialSends(r, c, text, |r.users|, t, h);
    PartialText(r, c, text, |r.users|);
    SocketFound(r.users, t);
  }

  /** In any one state, a's message reaches b exactly when b's would reach a. */
  lemma BroadcastSymmetric(r: Registry, a: Socket, b: Socket, text: string)
    requires Integrity(r)
    ensures LinesTo(Answer(r, a, Say(text)), b) == LinesTo(Answer(r, b, Say(text)), a)
  {
    BroadcastReaches(r, a, text, b);
    BroadcastReaches(r, b, text, a);
    SocketFound(r.users, a);
    SocketFound(r.users, b);
    var i, j := FindSocket(r.users, a), FindSocket(r.users, b);
    assert Mutual(r.users, i, j);
    if k :| 0 <= k < |r.rooms| && a in r.rooms[k].members && b in r.rooms[k].members {
      assert ShareRoom(r.rooms, a, b) && ShareRoom(r.rooms, b, a);
    } else {
      assert !ShareRoom(r.rooms, a, b) && !ShareRoom(r.rooms, b, a);
    }
  }
}
