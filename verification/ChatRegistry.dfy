/**
 The chat server's registry: the users with their direct-message peers, and the rooms with their members.

 A command is a plan, made by looking at the registry, and a series of small list operations that carry it
 out.  Lists are in the order of the server's linked lists: new elements come first.
 */
module ChatRegistry {
  import opened Sequences

  /** What accept returns and int can hold. */
  type Socket = s: int | 0 <= s < 0x8000_0000

  datatype User = User(name: string, socket: Socket, dm: seq<Socket>)
  datatype Room = Room(name: string, members: seq<Socket>)
  datatype Registry = Registry(users: seq<User>, rooms: seq<Room>)

  const USERNAME_CHARS := 29
  const ROOMNAME_CHARS := 49
  const DEFAULT_ROOM := "Lobby"

  /** At startup there is nobody, and the default room. */
  const STARTUP := Registry([], [Room(DEFAULT_ROOM, [])])

  function Truncate(name: string, n: nat): string { if |name| <= n then name else name[..n] }

  function Decimal(n: nat): (r: string) {
    if n < 10 then [Digit(n)] else Decimal(n / 10) + [Digit(n % 10)]
  }

  function Digit(d: nat): char
    requires d < 10
  {
    '0' + d as char
  }

  function GuestName(s: Socket): string { "guest" + Decimal(s) }

  // ---------------------------------------------------------------- looking things up

  function HasSocket(s: Socket): User -> bool { (u: User) => u.socket == s }
  function HasName(name: string): User -> bool { (u: User) => u.name == name }
  function IsRoom(name: string): Room -> bool { (r: Room) => r.name == name }

  function FindSocket(users: seq<User>, s: Socket): (k: nat)
    ensures k <= |users|
  {
    First(users, HasSocket(s))
  }

  function FindName(users: seq<User>, name: string): (k: nat)
    ensures k <= |users|
  {
    First(users, HasName(name))
  }

  function FindRoom(rooms: seq<Room>, name: string): (k: nat)
    ensures k <= |rooms|
  {
    First(rooms, IsRoom(name))
  }

  // ---------------------------------------------------------------- list operations

  function AddUser(users: seq<User>, s: Socket, name: string): seq<User> {
    if FindName(users, name) < |users| then users else [User(Truncate(name, USERNAME_CHARS), s, [])] + users
  }

  function DropUser(users: seq<User>, s: Socket): seq<User> {
    var k := FindSocket(users, s);
    if k < |users| then RemoveAt(users, k) else users
  }

  function Rename(users: seq<User>, s: Socket, name: string): seq<User> {
    var k := FindSocket(users, s);
    if k < |users| then users[k := users[k].(name := Truncate(name, USERNAME_CHARS))] else users
  }

  /** Puts s in front of the peers of user k. */
  function AddPeer(users: seq<User>, k: nat, s: Socket): (r: seq<User>)
    ensures |r| == |users|
  {
    if k < |users| then users[k := users[k].(dm := [s] + users[k].dm)] else users
  }

  /** Takes the first s out of the peers of user k. */
  function DropPeer(users: seq<User>, k: nat, s: Socket): (r: seq<User>)
    ensures |r| == |users|
  {
    if k < |users| then users[k := users[k].(dm := RemoveFirst(users[k].dm, s))] else users
  }

  function AddRoom(rooms: seq<Room>, name: string): seq<Room> {
    if FindRoom(rooms, name) < |rooms| then rooms else [Room(Truncate(name, ROOMNAME_CHARS), [])] + rooms
  }

  function AddMember(rooms: seq<Room>, s: Socket, name: string): seq<Room> {
    var k := FindRoom(rooms, name);
    if k < |rooms| && s !in rooms[k].members then rooms[k := rooms[k].(members := [s] + rooms[k].members)] else rooms
  }

  function DropMember(rooms: seq<Room>, s: Socket, name: string): (r: seq<Room>)
    ensures |r| == |rooms|
  {
    var k := FindRoom(rooms, name);
    if k < |rooms| then rooms[k := rooms[k].(members := RemoveFirst(rooms[k].members, s))] else rooms
  }

  // ---------------------------------------------------------------- commands that write

  datatype Op =
    | OpAddUser(s: Socket, name: string)
    | OpDropUser(s: Socket)
    | OpRename(s: Socket, name: string)
    | OpAddPeer(k: nat, s: Socket)
    | OpDropPeer(k: nat, s: Socket)
    | OpAddRoom(name: string)
    | OpAddMember(s: Socket, name: string)
    | OpDropMember(s: Socket, name: string)

  function Apply(r: Registry, op: Op): Registry {
    match op
    case OpAddUser(s, name) => r.(users := AddUser(r.users, s, name))
    case OpDropUser(s) => r.(users := DropUser(r.users, s))
    case OpRename(s, name) => r.(users := Rename(r.users, s, name))
    case OpAddPeer(k, s) => r.(users := AddPeer(r.users, k, s))
    case OpDropPeer(k, s) => r.(users := DropPeer(r.users, k, s))
    case OpAddRoom(name) => r.(rooms := AddRoom(r.rooms, name))
    case OpAddMember(s, name) => r.(rooms := AddMember(r.rooms, s, name))
    case OpDropMember(s, name) => r.(rooms := DropMember(r.rooms, s, name))
  }

  function ApplyAll(r: Registry, ops: seq<Op>): Registry
    decreases |ops|
  {
    if ops == [] then r else ApplyAll(Apply(r, ops[0]), ops[1..])
  }

  datatype Command =
    | Arrive                    // the first thing a client's thread does
    | Create(room: string)
    | Join(room: string)
    | Leave(room: string)
    | Connect(name: string)
    | Disconnect(name: string)
    | Login(name: string)
    | Exit                      // exit or logout
    | Drop                      // the connection is lost
    | Rooms
    | Users
    | Say(text: string)         // anything else: a message to be broadcast

  predicate Reads(cmd: Command) { cmd.Rooms? || cmd.Users? || cmd.Say? }

  function MemberOps(r: Registry, s: Socket, n: nat): seq<Op>
    requires n <= |r.rooms|
  {
    seq(n, i requires 0 <= i < n => OpDropMember(s, r.rooms[i].name))
  }

  function PeerOps(s: Socket, n: nat): seq<Op> {
    seq(n, k requires 0 <= k < n => OpDropPeer(k, s))
  }

  /** Remove s from every room, and its entries from every peer list. */
  function Removal(r: Registry, s: Socket): seq<Op> {
    MemberOps(r, s, |r.rooms|) + PeerOps(s, |r.users|)
  }

  /** What client c's command does to registry r, step by step. */
  function Plan(r: Registry, c: Socket, cmd: Command): seq<Op> {
    match cmd
    case Arrive => [OpAddUser(c, GuestName(c)), OpAddRoom(DEFAULT_ROOM), OpAddRoom(DEFAULT_ROOM), OpAddMember(c, DEFAULT_ROOM)]
    case Create(room) => [OpAddRoom(room)]
    case Join(room) => [OpAddRoom(room), OpAddMember(c, room)]
    case Leave(room) => [OpDropMember(c, room)]
    case Connect(name) =>
      var to, from := FindName(r.users, name), FindSocket(r.users, c);
      if to == |r.users| || from == |r.users| then []
      else PlanConnect(r.users, from, FindSocket(r.users, r.users[to].socket), c, r.users[to].socket)
    case Disconnect(name) =>
      var to, from := FindName(r.users, name), FindSocket(r.users, c);
      if to == |r.users| || from == |r.users| then []
      else [OpDropPeer(from, r.users[to].socket), OpDropPeer(FindSocket(r.users, r.users[to].socket), c)]
    case Login(name) => [OpRename(c, name)]
    case Exit => if FindSocket(r.users, c) == |r.users| then [] else Removal(r, c) + [OpDropUser(c)]
    case Drop =>
      var u := FindName(r.users, GuestName(c));
      if u == |r.users| then [] else Removal(r, r.users[u].socket) + [OpDropUser(c)]
    case _ => []
  }

  function PlanConnect(users: seq<User>, from: nat, to: nat, fromSock: Socket, toSock: Socket): seq<Op>
    requires from < |users|
  {
    if toSock in users[from].dm then [] else [OpAddPeer(from, toSock), OpAddPeer(to, fromSock)]
  }

  function Perform(r: Registry, c: Socket, cmd: Command): Registry {
    ApplyAll(r, Plan(r, c, cmd))
  }

  // ---------------------------------------------------------------- commands that read

  /** One line sent to one socket. */
  datatype Line = Line(to: Socket, text: string)

  /** Users a and b are in some room together. */
  predicate ShareRoom(rooms: seq<Room>, a: Socket, b: Socket) {
    exists k :: 0 <= k < |rooms| && a in rooms[k].members && b in rooms[k].members
  }

  predicate IsPeer(users: seq<User>, a: Socket, b: Socket) {
    var k := FindSocket(users, a);
    k < |users| && b in users[k].dm
  }

  /** What c says reaches user u. */
  predicate Reaches(r: Registry, c: Socket, u: User) {
    u.socket != c && (IsPeer(r.users, c, u.socket) || (FindSocket(r.users, c) < |r.users| && ShareRoom(r.rooms, c, u.socket)))
  }

  function Sender(r: Registry, c: Socket): string {
    var k := FindSocket(r.users, c);
    if k < |r.users| then r.users[k].name else GuestName(c)
  }

  function Message(r: Registry, c: Socket, text: string): string {
    "\n::" + Sender(r, c) + "> " + text + "\nchat>"
  }

  /** How many list elements a reading command visits. */
  function Visits(r: Registry, cmd: Command): nat {
    if cmd.Rooms? then |r.rooms| else |r.users|
  }

  /** What the visit of element k contributes. */
  function Visit(r: Registry, c: Socket, cmd: Command, k: nat): seq<Line>
    requires k < Visits(r, cmd)
  {
    match cmd
    case Rooms => [Line(c, r.rooms[k].name + "\n")]
    case Users => [Line(c, r.users[k].name + " (socket " + Decimal(r.users[k].socket) + ")\n")]
    case Say(text) => if Reaches(r, c, r.users[k]) then [Line(r.users[k].socket, Message(r, c, text))] else []
    case _ => []
  }

  /** What a reading command has sent after visiting k elements. */
  function Partial(r: Registry, c: Socket, cmd: Command, k: nat): seq<Line>
    requires k <= Visits(r, cmd)
  {
    if k == 0 then [] else Partial(r, c, cmd, k - 1) + Visit(r, c, cmd, k - 1)
  }

  /** What a command sends to clients; nothing unless it is a reading one. */
  function Answer(r: Registry, c: Socket, cmd: Command): seq<Line> {
    Partial(r, c, cmd, Visits(r, cmd))
  }

  // ---------------------------------------------------------------- runs

  datatype Entry = Entry(client: Socket, cmd: Command)

  /** The registry after the commands of a log, one at a time. */
  function Replay(log: seq<Entry>): Registry {
    if log == [] then STARTUP
    else
      var last := log[|log| - 1];
      Perform(Replay(log[..|log| - 1]), last.client, last.cmd)
  }
}
