/**
 The chat server's threads as a state machine: every client's thread reads under a shared lock and writes under
 an exclusive one, both made from mutex, rw_lock and the count of readers.

 A step is one thread's move from one lock operation, update of the count, list operation or visit of a list
 element to the next.  rw_lock is a binary semaphore: the last reader releases it, whoever acquired it.
 */
module ChatLock {
  import opened ChatRegistry

  /** Thread i serves the client on socket sockets[i]. */
  datatype Config = Config(sockets: seq<Socket>)

  /** Where a thread is: R for the reading commands, W for the writing ones. */
  datatype Pc =
    | TNew
    | TIdle               // waiting for the next command
    | TGone
    | RLock(cmd: Command) // about to lock mutex in start_read
    | RCount(cmd: Command) // holds mutex, about to count itself
    | RFirst(cmd: Command) // holds mutex, has counted itself, at the test for the first reader
    | RUnlock(cmd: Command) // holds mutex, about to release it
    | RVisit(cmd: Command, k: nat, lines: seq<Line>) // reading, has visited k list elements
    | RLockAgain          // about to lock mutex in end_read
    | RUncount            // holds mutex, about to uncount itself
    | RLast               // holds mutex, at the test for the last reader
    | RUnlockAgain        // holds mutex, about to release it
    | WLock(cmd: Command) // about to lock rw_lock in start_write
    | WPlan(cmd: Command) // holds rw_lock, has not looked yet
    | WApply(todo: seq<Op>, last: bool) // holds rw_lock, operations still to do; last if the thread ends afterwards

  /** A reading command that has been answered: what was sent, and how many writes the log had. */
  datatype Reply = Reply(client: Socket, cmd: Command, at: nat, lines: seq<Line>)

  const FREE := -1

  /** The registry, the locks, the threads, and two histories: the writing commands in the order in which they
      acquired rw_lock, and the answers to the reading ones. */
  datatype State = State(
    reg: Registry, readers: int, mutex: int, rw: bool, threads: seq<Pc>, log: seq<Entry>, answers: seq<Reply>)

  function Started(c: Config): State {
    State(STARTUP, 0, FREE, false, seq(|c.sockets|, _ => TNew), [], [])
  }

  predicate HoldsMutex(pc: Pc) {
    pc.RCount? || pc.RFirst? || pc.RUnlock? || pc.RUncount? || pc.RLast? || pc.RUnlockAgain?
  }

  predicate IsWriter(pc: Pc) { pc.WPlan? || pc.WApply? }

  /** Between the increment and the decrement of the count of readers. */
  predicate IsCounted(pc: Pc) {
    pc.RFirst? || pc.RUnlock? || pc.RVisit? || pc.RLockAgain? || pc.RUncount?
  }

  /** In the critical section of the readers. */
  predicate IsReader(pc: Pc) { pc.RUnlock? || pc.RVisit? || pc.RLockAgain? || pc.RUncount? }

  predicate IsBusy(pc: Pc) { !pc.TNew? && !pc.TIdle? && !pc.TGone? }

  // ---------------------------------------------------------------- steps

  /** What an idle thread may do next; a new one announces its client. */
  predicate MayStart(pc: Pc, cmd: Command) {
    (pc.TNew? && cmd.Arrive?) || (pc.TIdle? && !cmd.Arrive?)
  }

  predicate CanMove(s: State, i: int) {
    0 <= i < |s.threads| &&
    match s.threads[i]
    case RLock(_) => s.mutex == FREE
    case RLockAgain => s.mutex == FREE
    case RFirst(_) => s.readers == 1 ==> !s.rw
    case WLock(_) => !s.rw
    case pc => IsBusy(pc)
  }

  function NextPc(c: Config, s: State, i: int): Pc
    requires 0 <= i < |s.threads| == |c.sockets|
  {
    match s.threads[i]
    case RLock(cmd) => RCount(cmd)
    case RCount(cmd) => RFirst(cmd)
    case RFirst(cmd) => RUnlock(cmd)
    case RUnlock(cmd) => RVisit(cmd, 0, [])
    case RVisit(cmd, k, lines) =>
      if k < Visits(s.reg, cmd) then RVisit(cmd, k + 1, lines + Visit(s.reg, c.sockets[i], cmd, k)) else RLockAgain
    case RLockAgain => RUncount
    case RUncount => RLast
    case RLast => RUnlockAgain
    case RUnlockAgain => TIdle
    case WLock(cmd) => WPlan(cmd)
    case WPlan(cmd) => WApply(Plan(s.reg, c.sockets[i], cmd), cmd.Exit? || cmd.Drop?)
    case WApply(todo, last) => if todo != [] then WApply(todo[1..], last) else if last then TGone else TIdle
    case pc => pc
  }

  function NextMutex(s: State, i: int): int
    requires 0 <= i < |s.threads|
  {
    var pc := s.threads[i];
    if pc.RLock? || pc.RLockAgain? then i else if pc.RUnlock? || pc.RUnlockAgain? then FREE else s.mutex
  }

  function NextRw(s: State, i: int): bool
    requires 0 <= i < |s.threads|
  {
    var pc := s.threads[i];
    if (pc.RFirst? && s.readers == 1) || pc.WLock? then true
    else if (pc.RLast? && s.readers == 0) || (pc.WApply? && pc.todo == []) then false
    else s.rw
  }

  function NextReaders(s: State, i: int): int
    requires 0 <= i < |s.threads|
  {
    if s.threads[i].RCount? then s.readers + 1 else if s.threads[i].RUncount? then s.readers - 1 else s.readers
  }

  function NextReg(s: State, i: int): Registry
    requires 0 <= i < |s.threads|
  {
    if s.threads[i].WApply? && s.threads[i].todo != [] then Apply(s.reg, s.threads[i].todo[0]) else s.reg
  }

  function NextLog(c: Config, s: State, i: int): seq<Entry>
    requires 0 <= i < |s.threads| == |c.sockets|
  {
    if s.threads[i].WLock? then s.log + [Entry(c.sockets[i], s.threads[i].cmd)] else s.log
  }

  function NextAnswers(c: Config, s: State, i: int): seq<Reply>
    requires 0 <= i < |s.threads| == |c.sockets|
  {
    match s.threads[i]
    case RVisit(cmd, k, lines) =>
      if k < Visits(s.reg, cmd) then s.answers else s.answers + [Reply(c.sockets[i], cmd, |s.log|, lines)]
    case _ => s.answers
  }

  function After(c: Config, s: State, i: int): State
    requires 0 <= i < |s.threads| == |c.sockets|
  {
    State(NextReg(s, i), NextReaders(s, i), NextMutex(s, i), NextRw(s, i), s.threads[i := NextPc(c, s, i)],
          NextLog(c, s, i), NextAnswers(c, s, i))
  }

  /** Reading threads have reading commands, writing threads writing ones. */
  predicate TypedAt(s: State, i: int) {
    0 <= i < |s.threads| ==>
      match s.threads[i]
      case RLock(cmd) => Reads(cmd)
      case RCount(cmd) => Reads(cmd)
      case RFirst(cmd) => Reads(cmd)
      case RUnlock(cmd) => Reads(cmd)
      case RVisit(cmd, k, lines) => Reads(cmd) && k <= Visits(s.reg, cmd)
      case WLock(cmd) => !Reads(cmd)
      case WPlan(cmd) => !Reads(cmd)
      case _ => true
  }

  /** A step of a thread that is carrying out a command. */
  ghost predicate InnerStep(c: Config, s: State, i: int, s': State) {
    CanMove(s, i) && |s.threads| == |c.sockets| && s' == After(c, s, i)
  }

  /** A thread turns to its next command. */
  ghost predicate StartStep(s: State, i: int, cmd: Command, s': State) {
    && 0 <= i < |s.threads| && MayStart(s.threads[i], cmd)
    && s' == s.(threads := s.threads[i := if Reads(cmd) then RLock(cmd) else WLock(cmd)])
  }

  ghost predicate Step(c: Config, s: State, s': State) {
    (exists i :: InnerStep(c, s, i, s')) || exists i, cmd :: StartStep(s, i, cmd, s')
  }
}
