/**
 The threads of the chat server keep their sessions in order: whatever the interleaving, a client's first command in
 the log is its arrival, and none comes after its exit or the loss of its connection.
 */
module ChatSessions {
  import opened ChatRegistry
  import opened ChatIntegrity
  import opened ChatCommands
  import opened ChatRuns
  import opened ChatLock
  import opened ChatAtomicity
  import opened ChatAnswers

  /** The thread has accepted its connection and has not closed it. */
  predicate IsOpen(pc: Pc) { !pc.TNew? && !pc.TGone? }

  /** The arrival of the thread's client is in the log, and its departure is not. */
  predicate IsPresent(pc: Pc) {
    match pc
    case TNew => false
    case TGone => false
    case WLock(cmd) => !cmd.Arrive?
    case WPlan(cmd) => !cmd.Exit? && !cmd.Drop?
    case WApply(_, last) => !last
    case _ => true
  }

  ghost predicate DistinctAt(c: Config, s: State, i: int, j: int) {
    0 <= i < |s.threads| == |c.sockets| && 0 <= j < |s.threads| && i != j && c.sockets[i] == c.sockets[j] ==>
      !(IsOpen(s.threads[i]) && IsOpen(s.threads[j]))
  }

  /** Connections that are open at the same time have different sockets; a socket can be used again once it is closed. */
  ghost predicate DistinctOpen(c: Config, s: State) {
    forall i, j :: DistinctAt(c, s, i, j)
  }

  ghost predicate PresentAt(c: Config, s: State, t: Socket, i: int) {
    0 <= i < |s.threads| == |c.sockets| && c.sockets[i] == t && IsPresent(s.threads[i])
  }

  /** Socket t is connected according to the log exactly when it is the socket of a thread that is present. */
  ghost predicate SessionAt(c: Config, s: State, t: Socket) {
    t in Connected(s.log) <==> exists i :: PresentAt(c, s, t, i)
  }

  ghost predicate SessionsOk(c: Config, s: State) {
    forall t :: SessionAt(c, s, t)
  }

  /** What is asked of entry e of the log after log: room names fit, nobody logs in under a guest name, and a client that
      has used login is not lost.  Each client can see to that by itself. */
  ghost predicate DecentNext(log: seq<Entry>, e: Entry) {
    && (e.cmd.Create? || e.cmd.Join? ==> |e.cmd.room| <= ROOMNAME_CHARS)
    && (e.cmd.Login? ==> !GuestLike(Truncate(e.cmd.name, USERNAME_CHARS)))
    && (e.cmd.Drop? ==> e.client !in LoggedIn(log))
  }

  ghost predicate Decent(log: seq<Entry>) {
    log == [] || (Decent(log[..|log| - 1]) && DecentNext(log[..|log| - 1], log[|log| - 1]))
  }

  /** Only thread i of the open ones has its socket. */
  lemma OnlyOneOpen(c: Config, s: State, i: int, j: int)
    requires DistinctOpen(c, s) && 0 <= i < |s.threads| == |c.sockets| && IsOpen(s.threads[i]) && i != j
    ensures !PresentAt(c, s, c.sockets[i], j)
  {
    assert DistinctAt(c, s, i, j);
  }

  lemma ConnectedNext(log: seq<Entry>, e: Entry)
    ensures Connected(log + [e]) ==
      if e.cmd.Arrive? then Connected(log) + {e.client}
      else if e.cmd.Exit? || e.cmd.Drop? then Connected(log) - {e.client} else Connected(log)
  {
    assert (log + [e])[..|log|] == log;
  }

  /** A step that logs nothing changes no thread's presence. */
  lemma PresenceStays(c: Config, s: State, i: int, s': State, t: Socket, j: int)
    requires InnerStep(c, s, i, s') && !s.threads[i].WLock?
    ensures PresentAt(c, s', t, j) <==> PresentAt(c, s, t, j)
  {
  }

  /** The step with which a thread acquires rw_lock to write. */
  lemma SessionLogged(c: Config, s: State, i: int, s': State, t: Socket)
    requires SessionsOk(c, s) && DistinctOpen(c, s) && InnerStep(c, s, i, s') && s.threads[i].WLock?
    ensures SessionAt(c, s', t)
  {
    var cmd, me := s.threads[i].cmd, c.sockets[i];
    ConnectedNext(s.log, Entry(me, cmd));
    assert SessionAt(c, s, t);
    forall j | j != i ensures PresentAt(c, s', t, j) <==> PresentAt(c, s, t, j) {}
    assert PresentAt(c, s', me, i) <==> !cmd.Exit? && !cmd.Drop?;
    assert PresentAt(c, s, me, i) <==> !cmd.Arrive?;
    if t == me {
      forall j | j != i ensures !PresentAt(c, s, me, j) { OnlyOneOpen(c, s, i, j); }
    } else {
      assert !PresentAt(c, s, t, i) && !PresentAt(c, s', t, i);
    }
    assert (exists j :: PresentAt(c, s', t, j)) <==> if t == me then !cmd.Exit? && !cmd.Drop? else exists j :: PresentAt(c, s, t, j);
  }

  lemma SessionInner(c: Config, s: State, i: int, s': State, t: Socket)
    requires SessionsOk(c, s) && DistinctOpen(c, s) && InnerStep(c, s, i, s')
    ensures SessionAt(c, s', t)
  {
    if s.threads[i].WLock? {
      SessionLogged(c, s, i, s', t);
    } else {
      assert SessionAt(c, s, t);
      forall j ensures PresentAt(c, s', t, j) <==> PresentAt(c, s, t, j) { PresenceStays(c, s, i, s', t, j); }
    }
  }

  lemma SessionStart(c: Config, s: State, i: int, cmd: Command, s': State, t: Socket)
    requires SessionsOk(c, s) && StartStep(s, i, cmd, s')
    ensures SessionAt(c, s', t)
  {
    assert SessionAt(c, s, t);
    forall j ensures PresentAt(c, s', t, j) <==> PresentAt(c, s, t, j) {}
  }

  /** The entry that a step adds to the log is orderly. */
  lemma LoggedInOrder(c: Config, s: State, i: int, s': State)
    requires SessionsOk(c, s) && DistinctOpen(c, s) && InnerStep(c, s, i, s')
    requires Orderly(s.log) && Decent(s'.log)
    ensures Orderly(s'.log)
  {
    if s.threads[i].WLock? {
      var me := c.sockets[i];
      assert s'.log[..|s'.log| - 1] == s.log;
      assert SessionAt(c, s, me);
      assert PresentAt(c, s, me, i) <==> !s.threads[i].cmd.Arrive?;
      forall j | j != i ensures !PresentAt(c, s, me, j) { OnlyOneOpen(c, s, i, j); }
    }
  }

  lemma {:induction false} DecentPrefix(log: seq<Entry>, n: nat)
    requires Decent(log) && n <= |log|
    ensures Decent(log[..n])
    decreases |log|
  {
    if n == |log| {
      assert log[..n] == log;
    } else {
      DecentPrefix(log[..|log| - 1], n);
      assert log[..|log| - 1][..n] == log[..n];
    }
  }

  /** However the threads interleave: if open connections have different sockets and every client's commands are decent,
      the log is orderly, and the sockets connected according to it are those of the threads that are present. */
  lemma {:induction false} SessionsInOrder(c: Config, run: seq<State>, k: nat)
    requires Run(c, run) && k < |run| && Decent(run[k].log)
    requires forall j | 0 <= j <= k :: DistinctOpen(c, run[j])
    ensures Orderly(run[k].log) && SessionsOk(c, run[k])
  {
    if k == 0 {
      forall t ensures SessionAt(c, run[0], t) {
        assert forall i :: !PresentAt(c, run[0], t, i);
      }
    } else {
      var j := k - 1;
      assert Step(c, run[j], run[j + 1]);
      StepGrows(c, run[j], run[k]);
      DecentPrefix(run[k].log, |run[j].log|);
      SessionsInOrder(c, run, j);
      if i :| InnerStep(c, run[j], i, run[k]) {
        forall t ensures SessionAt(c, run[k], t) { SessionInner(c, run[j], i, run[k], t); }
        LoggedInOrder(c, run[j], i, run[k]);
      } else {
        var i, cmd :| StartStep(run[j], i, cmd, run[k]);
        forall t ensures SessionAt(c, run[k], t) { SessionStart(c, run[j], i, cmd, run[k], t); }
      }
    }
  }

  lemma {:induction false} OrderlyPrefix(log: seq<Entry>, n: nat)
    requires Orderly(log) && n <= |log|
    ensures Orderly(log[..n])
    decreases |log|
  {
    if n == |log| {
      assert log[..n] == log;
    } else {
      OrderlyPrefix(log[..|log| - 1], n);
      assert log[..|log| - 1][..n] == log[..n];
    }
  }

  /** However the threads interleave, with such connections and commands the registry is in order whenever nobody writes,
      and its users are the clients of the threads that are present. */
  lemma InterleavedIntegrity(c: Config, run: seq<State>, k: nat, t: Socket)
    requires Run(c, run) && k < |run| && Decent(run[k].log) && forall j | 0 <= j <= k :: DistinctOpen(c, run[j])
    requires forall i :: !WriterAt(run[k], i)
    ensures Integrity(run[k].reg)
    ensures t in Sockets(run[k].reg.users) <==> exists i :: PresentAt(c, run[k], t, i)
  {
    Atomicity(c, run, k, 0);
    SessionsInOrder(c, run, k);
    RunKeeps(run[k].log);
    assert SessionAt(c, run[k], t);
  }

  /** However the threads interleave, a message that was sent after state j is sent to exactly those who are to hear it in
      one state of the log, which is no older than state j. */
  lemma InterleavedBroadcast(c: Config, run: seq<State>, j: nat, k: nat, a: nat, t: Socket)
    requires Run(c, run) && j <= k < |run| && Decent(run[k].log) && forall i | 0 <= i <= k :: DistinctOpen(c, run[i])
    requires |run[j].answers| <= a < |run[k].answers| && run[k].answers[a].cmd.Say?
    ensures var s, reply := run[k], run[k].answers[a];
      && |run[j].log| <= reply.at <= |s.log|
      && LinesTo(reply.lines, t) == if Heard(Replay(s.log[..reply.at]), reply.client, t) then 1 else 0
  {
    Atomicity(c, run, k, a);
    Freshness(c, run, j, k);
    SessionsInOrder(c, run, k);
    var s, reply := run[k], run[k].answers[a];
    OrderlyPrefix(s.log, reply.at);
    RunKeeps(s.log[..reply.at]);
    BroadcastReaches(Replay(s.log[..reply.at]), reply.client, reply.cmd.text, t);
  }

  /** However the threads interleave, an answer to users that was given after state j lists exactly the clients that are
      connected in one state of the log, which is no older than state j. */
  lemma InterleavedListing(c: Config, run: seq<State>, j: nat, k: nat, a: nat, t: Socket)
    requires Run(c, run) && j <= k < |run| && Decent(run[k].log) && forall i | 0 <= i <= k :: DistinctOpen(c, run[i])
    requires |run[j].answers| <= a < |run[k].answers| && run[k].answers[a].cmd.Users?
    ensures var s, reply := run[k], run[k].answers[a];
      && |run[j].log| <= reply.at <= |s.log| && |reply.lines| == |Connected(s.log[..reply.at])|
      && (Lists(reply.lines, reply.client, t) <==> t in Connected(s.log[..reply.at]))
  {
    Atomicity(c, run, k, a);
    Freshness(c, run, j, k);
    SessionsInOrder(c, run, k);
    var s, reply := run[k], run[k].answers[a];
    OrderlyPrefix(s.log, reply.at);
    UsersListsConnected(s.log[..reply.at], reply.client, t);
  }

  /** A client whose thread is about to look at the registry for a command other than its arrival is a user: the entries
      that connect and disconnect read without a test are there. */
  lemma ClientIsUser(c: Config, run: seq<State>, k: nat, i: nat)
    requires Run(c, run) && k < |run| && Decent(run[k].log) && forall j | 0 <= j <= k :: DistinctOpen(c, run[j])
    requires i < |run[k].threads| == |c.sockets| && run[k].threads[i].WPlan? && !run[k].threads[i].cmd.Arrive?
    ensures c.sockets[i] in Sockets(run[k].reg.users)
  {
    Atomicity(c, run, k, 0);
    assert WriteAt(c, run[k], i);
    SessionsInOrder(c, run, k);
    var log := run[k].log;
    RunKeeps(log[..|log| - 1]);
  }
}
