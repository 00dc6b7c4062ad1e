/**
 The readers-writer lock keeps writers apart from readers and from each other, and so commands are atomic:
 the registry is what the logged writes make one at a time, and every answer is that of one state in between.
 */
module ChatAtomicity {
  import opened ChatRegistry
  import opened ChatLock

  // ---------------------------------------------------------------- the invariants

  ghost predicate TypedOk(c: Config, s: State) {
    |s.threads| == |c.sockets| && forall i :: TypedAt(s, i)
  }

  ghost predicate MutexAt(s: State, i: int) {
    0 <= i < |s.threads| ==> (HoldsMutex(s.threads[i]) <==> s.mutex == i)
  }

  ghost predicate MutexOk(s: State) {
    FREE <= s.mutex < |s.threads| && forall i :: MutexAt(s, i)
  }

  /** The threads between the increment and the decrement of the count. */
  ghost function Counted(s: State): set<int> {
    set i | 0 <= i < |s.threads| && IsCounted(s.threads[i])
  }

  ghost predicate CountOk(s: State) {
    s.readers == |Counted(s)|
  }

  /** Some reader has acquired rw_lock and none has released it. */
  ghost predicate ReadersHold(s: State) {
    if 0 <= s.mutex < |s.threads| && s.threads[s.mutex].RFirst? then s.readers >= 2
    else if 0 <= s.mutex < |s.threads| && s.threads[s.mutex].RLast? then true
    else s.readers >= 1
  }

  ghost predicate WriterAt(s: State, i: int) {
    0 <= i < |s.threads| && IsWriter(s.threads[i])
  }

  ghost predicate WriterHolds(s: State, i: int) {
    WriterAt(s, i) ==> s.rw && !ReadersHold(s)
  }

  ghost predicate OneWriter(s: State, i: int, j: int) {
    WriterAt(s, i) && WriterAt(s, j) ==> i == j
  }

  /** rw_lock is locked exactly while readers or a writer hold it, and never both. */
  ghost predicate RwOk(s: State) {
    && (forall i :: WriterHolds(s, i))
    && (forall i, j :: OneWriter(s, i, j))
    && (ReadersHold(s) ==> s.rw)
    && (s.rw && !ReadersHold(s) ==> exists i :: WriterAt(s, i))
  }

  /** What the writer has done so far, plus what it still has to do, is what its command does. */
  ghost predicate WriteAt(c: Config, s: State, i: int) {
    0 <= i < |s.threads| == |c.sockets| ==>
      match s.threads[i]
      case WPlan(cmd) =>
        && s.log != [] && s.log[|s.log| - 1] == Entry(c.sockets[i], cmd)
        && s.reg == Replay(s.log[..|s.log| - 1])
      case WApply(todo, _) => ApplyAll(s.reg, todo) == Replay(s.log)
      case _ => true
  }

  ghost predicate RegOk(c: Config, s: State) {
    && (forall i :: WriteAt(c, s, i))
    && ((forall i :: !WriterAt(s, i)) ==> s.reg == Replay(s.log))
  }

  /** What a reader has collected so far is what the registry as it is now says. */
  ghost predicate ReadAt(c: Config, s: State, i: int) {
    0 <= i < |s.threads| == |c.sockets| && TypedAt(s, i) && s.threads[i].RVisit? ==>
      s.threads[i].lines == Partial(s.reg, c.sockets[i], s.threads[i].cmd, s.threads[i].k)
  }

  ghost predicate AnswerAt(log: seq<Entry>, answers: seq<Reply>, k: int) {
    0 <= k < |answers| ==>
      && answers[k].at <= |log| && Reads(answers[k].cmd)
      && answers[k].lines == Answer(Replay(log[..answers[k].at]), answers[k].client, answers[k].cmd)
  }

  ghost predicate ReadsOk(c: Config, s: State) {
    (forall i :: ReadAt(c, s, i)) && forall k :: AnswerAt(s.log, s.answers, k)
  }

  ghost predicate Inv(c: Config, s: State) {
    TypedOk(c, s) && MutexOk(s) && CountOk(s) && RwOk(s) && RegOk(c, s) && ReadsOk(c, s)
  }

  // ---------------------------------------------------------------- consequences

  lemma TwoCounted(s: State, i: int, j: int)
    requires CountOk(s) && i in Counted(s) && j in Counted(s) && i != j
    ensures s.readers >= 2
  {
    var rest := Counted(s) - {i};
    assert Counted(s) == rest + {i} && j in rest;
    assert |rest| >= 1 by {
      assert rest == (rest - {j}) + {j};
    }
  }

  lemma OneCounted(s: State, i: int)
    requires CountOk(s) && i in Counted(s)
    ensures s.readers >= 1
  {
    assert Counted(s) == (Counted(s) - {i}) + {i};
  }

  /** While somebody reads, readers hold rw_lock. */
  lemma ReaderHolds(s: State, i: int)
    requires MutexOk(s) && CountOk(s) && 0 <= i < |s.threads| && IsReader(s.threads[i])
    ensures ReadersHold(s)
  {
    OneCounted(s, i);
    var h := s.mutex;
    if 0 <= h < |s.threads| && s.threads[h].RFirst? {
      TwoCounted(s, h, i);
    }
  }

  /** There is never a writer together with a reader or with another writer. */
  lemma MutualExclusion(c: Config, s: State, i: int, j: int)
    requires Inv(c, s) && WriterAt(s, i) && 0 <= j < |s.threads| && j != i
    ensures !IsReader(s.threads[j]) && !WriterAt(s, j)
  {
    assert WriterHolds(s, i) && OneWriter(s, i, j);
    if IsReader(s.threads[j]) { ReaderHolds(s, j); }
  }

  // ---------------------------------------------------------------- the locks

  lemma MutexAfter(c: Config, s: State, i: int, s': State)
    requires MutexOk(s) && InnerStep(c, s, i, s')
    ensures MutexOk(s')
  {
    assert MutexAt(s, i);
    forall j ensures MutexAt(s', j) { assert MutexAt(s, j); }
  }

  lemma CountedIn(s: State, j: int)
    ensures j in Counted(s) <==> 0 <= j < |s.threads| && IsCounted(s.threads[j])
  {
  }

  /** The step of thread i changes whether i is counted, and nothing else. */
  lemma CountedAfter(c: Config, s: State, i: int, s': State)
    requires InnerStep(c, s, i, s')
    ensures Counted(s') - {i} == Counted(s) - {i}
  {
    forall j ensures j in Counted(s') - {i} <==> j in Counted(s) - {i} {
      CountedIn(s, j);
      CountedIn(s', j);
      assert j != i && 0 <= j < |s.threads| ==> s'.threads[j] == s.threads[j];
    }
  }

  /** Sets that agree but for i differ in size by whether they have i. */
  lemma SizesDiffer(a: set<int>, b: set<int>, i: int)
    requires a - {i} == b - {i}
    ensures |a| - (if i in a then 1 else 0) == |b| - (if i in b then 1 else 0)
  {
    assert a == (a - {i}) + if i in a then {i} else {};
    assert b == (b - {i}) + if i in b then {i} else {};
  }

  lemma CountAfter(c: Config, s: State, i: int, s': State)
    requires CountOk(s) && InnerStep(c, s, i, s')
    ensures CountOk(s')
  {
    CountedAfter(c, s, i, s');
    CountedIn(s, i);
    CountedIn(s', i);
    SizesDiffer(Counted(s), Counted(s'), i);
  }

  /** Only the first reader's and the last reader's test change whether readers hold rw_lock. */
  lemma HoldAfter(c: Config, s: State, i: int, s': State)
    requires MutexOk(s) && CountOk(s) && InnerStep(c, s, i, s')
    ensures var pc := s.threads[i];
      ReadersHold(s') ==
        if pc.RFirst? && s.readers == 1 then true
        else if pc.RLast? && s.readers == 0 then false else ReadersHold(s)
    ensures s.threads[i].RFirst? && s.readers == 1 ==> !ReadersHold(s)
    ensures s.threads[i].RLast? ==> ReadersHold(s)
  {
    var pc := s.threads[i];
    assert MutexAt(s, i);
    if IsCounted(pc) {
      assert i in Counted(s);
      OneCounted(s, i);
    }
    if 0 <= s.mutex < |s.threads| && s.mutex != i {
      assert MutexAt(s, s.mutex) && s'.threads[s.mutex] == s.threads[s.mutex];
    }
    assert Counted(s) >= {};
  }

  lemma RwAfter(c: Config, s: State, i: int, s': State)
    requires MutexOk(s) && CountOk(s) && RwOk(s) && InnerStep(c, s, i, s')
    ensures RwOk(s')
  {
    HoldAfter(c, s, i, s');
    assert WriterHolds(s, i);
    forall j ensures WriterHolds(s', j) {
      assert WriterHolds(s, j) && OneWriter(s, i, j);
    }
    forall j, k ensures OneWriter(s', j, k) {
      assert OneWriter(s, j, k) && WriterHolds(s, j) && WriterHolds(s, k);
    }
    if s'.rw && !ReadersHold(s') {
      if IsWriter(s'.threads[i]) {
        assert WriterAt(s', i);
      } else {
        var j :| WriterAt(s, j);
        assert OneWriter(s, i, j) && WriterAt(s', j);
      }
    }
  }

  // ---------------------------------------------------------------- the registry and the log

  lemma NobodyElseWrites(s: State, i: int, j: int)
    requires RwOk(s) && WriterAt(s, i) && WriterAt(s, j)
    ensures i == j
  {
    assert OneWriter(s, i, j);
  }

  /** Taking rw_lock to write starts from a registry that shows the whole log. */
  lemma FreeMeansShown(c: Config, s: State)
    requires RwOk(s) && RegOk(c, s) && !s.rw
    ensures s.reg == Replay(s.log)
  {
    forall i ensures !WriterAt(s, i) { assert WriterHolds(s, i); }
  }

  lemma RegAfter(c: Config, s: State, i: int, s': State)
    requires RwOk(s) && RwOk(s') && RegOk(c, s) && InnerStep(c, s, i, s')
    ensures RegOk(c, s')
  {
    assert WriteAt(c, s, i);
    if s.threads[i].WLock? {
      FreeMeansShown(c, s);
      assert s'.log[..|s'.log| - 1] == s.log;
    }
    forall j ensures WriteAt(c, s', j) {
      assert WriteAt(c, s, j) && WriterHolds(s, j);
      if WriterAt(s', j) && WriterAt(s', i) { NobodyElseWrites(s', i, j); }
      if WriterAt(s, j) && WriterAt(s, i) { NobodyElseWrites(s, i, j); }
    }
    if forall j :: !WriterAt(s', j) {
      assert !WriterAt(s', i);
      if WriterAt(s, i) {
        assert s.threads[i].WApply? && s.threads[i].todo == [];
      } else {
        forall j ensures !WriterAt(s, j) { assert !WriterAt(s', j); }
      }
    }
  }

  /** While somebody reads, nobody writes, and the registry shows the whole log. */
  lemma ReaderSeesLog(c: Config, s: State, i: int)
    requires Inv(c, s) && 0 <= i < |s.threads| && IsReader(s.threads[i])
    ensures s.reg == Replay(s.log) && forall j :: !WriterAt(s, j)
  {
    ReaderHolds(s, i);
    forall j ensures !WriterAt(s, j) { assert WriterHolds(s, j); }
  }

  lemma ReadAfter(c: Config, s: State, i: int, s': State, j: int)
    requires Inv(c, s) && InnerStep(c, s, i, s')
    ensures TypedAt(s', j) && ReadAt(c, s', j)
  {
    assert TypedAt(s, j) && ReadAt(c, s, j);
    if 0 <= j < |s.threads| && j != i && s.threads[j].RVisit? {
      ReaderSeesLog(c, s, j);
      assert !WriterAt(s, i);
    }
  }

  lemma AnswersAfter(c: Config, s: State, i: int, s': State)
    requires Inv(c, s) && InnerStep(c, s, i, s')
    ensures forall k :: AnswerAt(s'.log, s'.answers, k)
  {
    assert TypedAt(s, i) && ReadAt(c, s, i);
    if IsReader(s.threads[i]) { ReaderSeesLog(c, s, i); }
    forall k ensures AnswerAt(s'.log, s'.answers, k) {
      assert AnswerAt(s.log, s.answers, k);
      if 0 <= k < |s.answers| {
        assert s'.log[..s.answers[k].at] == s.log[..s.answers[k].at];
      } else if k == |s.answers| {
        assert s.log[..|s.log|] == s.log;
      }
    }
  }

  // ---------------------------------------------------------------- every run

  lemma InnerKeeps(c: Config, s: State, i: int, s': State)
    requires Inv(c, s) && InnerStep(c, s, i, s')
    ensures Inv(c, s')
  {
    MutexAfter(c, s, i, s');
    CountAfter(c, s, i, s');
    RwAfter(c, s, i, s');
    RegAfter(c, s, i, s');
    forall j ensures TypedAt(s', j) && ReadAt(c, s', j) { ReadAfter(c, s, i, s', j); }
    AnswersAfter(c, s, i, s');
  }

  lemma StartKeeps(c: Config, s: State, i: int, cmd: Command, s': State)
    requires Inv(c, s) && StartStep(s, i, cmd, s')
    ensures Inv(c, s')
  {
    assert MutexAt(s, i);
    assert Counted(s') == Counted(s);
    assert ReadersHold(s') == ReadersHold(s) by {
      assert s.mutex != i;
    }
    forall j ensures TypedAt(s', j) && MutexAt(s', j) && WriterHolds(s', j) && WriteAt(c, s', j) && ReadAt(c, s', j) {
      assert TypedAt(s, j) && MutexAt(s, j) && WriterHolds(s, j) && WriteAt(c, s, j) && ReadAt(c, s, j);
    }
    forall j, k ensures OneWriter(s', j, k) { assert OneWriter(s, j, k); }
    if j :| WriterAt(s, j) { assert WriterAt(s', j); }
    if forall j :: !WriterAt(s', j) {
      forall j ensures !WriterAt(s, j) { assert !WriterAt(s', j); }
    }
  }

  lemma StartedInv(c: Config)
    ensures Inv(c, Started(c))
  {
    assert Counted(Started(c)) == {};
  }

  ghost predicate Run(c: Config, run: seq<State>) {
    run != [] && run[0] == Started(c) && forall k | 0 <= k < |run| - 1 :: Step(c, run[k], run[k + 1])
  }

  lemma {:induction false} Safety(c: Config, run: seq<State>, k: nat)
    requires Run(c, run) && k < |run|
    ensures Inv(c, run[k])
  {
    if k == 0 {
      StartedInv(c);
    } else {
      var j := k - 1;
      Safety(c, run, j);
      assert Step(c, run[j], run[j + 1]);
      if i :| InnerStep(c, run[j], i, run[k]) {
        InnerKeeps(c, run[j], i, run[k]);
      } else {
        var i, cmd :| StartStep(run[j], i, cmd, run[k]);
        StartKeeps(c, run[j], i, cmd, run[k]);
      }
    }
  }

  /** Commands are atomic.  In every state of every run: unless a writer is at work the registry is what the logged
      commands make one at a time in the order in which they acquired rw_lock; with a writer at work it becomes that
      when the writer is done; and every answer is the answer in the state after some number of logged commands. */
  lemma Atomicity(c: Config, run: seq<State>, k: nat, a: nat)
    requires Run(c, run) && k < |run|
    ensures var s := run[k];
      && ((forall i :: !WriterAt(s, i)) ==> s.reg == Replay(s.log))
      && (forall i :: WriteAt(c, s, i))
      && (a < |s.answers| ==>
            && s.answers[a].at <= |s.log| && Reads(s.answers[a].cmd)
            && s.answers[a].lines == Answer(Replay(s.log[..s.answers[a].at]), s.answers[a].client, s.answers[a].cmd))
  {
    Safety(c, run, k);
    assert AnswerAt(run[k].log, run[k].answers, a);
  }

  // ---------------------------------------------------------------- answers are fresh

  /** From one state to a later one the log and the answers only grow, and new answers are as recent as the log was. */
  ghost predicate GrewTo(s: State, s': State) {
    && |s.log| <= |s'.log| && s'.log[..|s.log|] == s.log
    && |s.answers| <= |s'.answers| && s'.answers[..|s.answers|] == s.answers
    && forall a | |s.answers| <= a < |s'.answers| :: s'.answers[a].at >= |s.log|
  }

  lemma StepGrows(c: Config, s: State, s': State)
    requires Step(c, s, s')
    ensures GrewTo(s, s')
  {
    if i :| InnerStep(c, s, i, s') {
    } else {
      var i, cmd :| StartStep(s, i, cmd, s');
    }
  }

  lemma GrewFurther(s: State, s': State, s'': State)
    requires GrewTo(s, s') && GrewTo(s', s'')
    ensures GrewTo(s, s'')
  {
    assert s''.log[..|s.log|] == s''.log[..|s'.log|][..|s.log|];
    assert s''.answers[..|s.answers|] == s''.answers[..|s'.answers|][..|s.answers|];
    forall a | |s.answers| <= a < |s''.answers| ensures s''.answers[a].at >= |s.log| {
      if a < |s'.answers| { assert s''.answers[a] == s''.answers[..|s'.answers|][a]; }
    }
  }

  /** Every answer that is given after some state is computed from that state's log or a longer one: a reading command
      sees every write that was logged before it was given, in particular all those logged before it was started. */
  lemma {:induction false} Freshness(c: Config, run: seq<State>, j: nat, k: nat)
    requires Run(c, run) && j <= k < |run|
    ensures GrewTo(run[j], run[k])
    decreases k
  {
    if j < k {
      var m := k - 1;
      Freshness(c, run, j, m);
      assert Step(c, run[m], run[m + 1]);
      StepGrows(c, run[m], run[k]);
      GrewFurther(run[j], run[m], run[k]);
    }
  }
}
