/**
 The chat server never gets stuck: whenever some thread is carrying out a command, one of those threads can go
 on, and without new commands all of them finish.
 */
module ChatProgress {
  import opened Sums
  import opened ChatRegistry
  import opened ChatLock
  import opened ChatAtomicity

  ghost predicate CanGoOn(c: Config, s: State, i: int) {
    CanMove(s, i) && |s.threads| == |c.sockets| && InnerStep(c, s, i, After(c, s, i))
  }

  // ---------------------------------------------------------------- no deadlock

  /** Whoever holds mutex can go on, also a first reader that needs rw_lock: if it is locked, a writer holds it. */
  lemma HolderGoesOn(c: Config, s: State)
    requires Inv(c, s) && s.mutex != FREE && forall i :: !WriterAt(s, i)
    ensures CanGoOn(c, s, s.mutex)
  {
    assert MutexAt(s, s.mutex) && TypedAt(s, s.mutex);
  }

  lemma WriterGoesOn(c: Config, s: State, i: int)
    requires Inv(c, s) && WriterAt(s, i)
    ensures CanGoOn(c, s, i)
  {
    assert TypedAt(s, i);
  }

  /** With mutex free, one of the counted readers can go on. */
  lemma ReaderGoesOn(c: Config, s: State) returns (i: int)
    requires Inv(c, s) && s.mutex == FREE && s.readers >= 1
    ensures CanGoOn(c, s, i)
  {
    assert Counted(s) != {};
    i :| i in Counted(s);
    assert MutexAt(s, i) && TypedAt(s, i);
  }

  /** In every reachable state in which some command is being carried out, some command can go on. */
  lemma Progress(c: Config, s: State, i: int) returns (j: int)
    requires Inv(c, s) && 0 <= i < |s.threads| && IsBusy(s.threads[i])
    ensures CanGoOn(c, s, j)
  {
    if j' :| WriterAt(s, j') {
      WriterGoesOn(c, s, j');
      j := j';
    } else if s.mutex != FREE {
      HolderGoesOn(c, s);
      j := s.mutex;
    } else if s.threads[i].WLock? && s.rw {
      j := ReaderGoesOn(c, s);
    } else {
      assert MutexAt(s, i) && TypedAt(s, i);
      j := i;
    }
  }

  // ---------------------------------------------------------------- commands finish

  /** How many lock operations and the like a thread still has before it. */
  function Stage(pc: Pc): nat {
    match pc
    case RLock(_) => 9
    case RCount(_) => 8
    case RFirst(_) => 7
    case RUnlock(_) => 6
    case RVisit(_, _, _) => 5
    case RLockAgain => 4
    case RUncount => 3
    case RLast => 2
    case RUnlockAgain => 1
    case WLock(_) => 3
    case WPlan(_) => 2
    case WApply(_, _) => 1
    case _ => 0
  }

  /** How many visits or operations a thread still has before it in its critical section. */
  function Rest(s: State, i: int): nat
    requires 0 <= i < |s.threads| && TypedAt(s, i)
  {
    match s.threads[i]
    case RVisit(cmd, k, _) => Visits(s.reg, cmd) - k
    case WApply(todo, _) => |todo|
    case _ => 0
  }

  ghost function StageAt(s: State, i: int): int {
    if 0 <= i < |s.threads| then Stage(s.threads[i]) else 0
  }

  ghost function RestAt(s: State, i: int): int {
    if 0 <= i < |s.threads| && TypedAt(s, i) then Rest(s, i) else 0
  }

  ghost function Stages(s: State): (n: nat) {
    NonNegative(|s.threads|, i => StageAt(s, i));
    Sum(|s.threads|, i => StageAt(s, i))
  }

  ghost function Rests(s: State): (n: nat) {
    NonNegative(|s.threads|, i => RestAt(s, i));
    Sum(|s.threads|, i => RestAt(s, i))
  }

  lemma NonNegative(n: nat, f: int -> int)
    requires forall i | 0 <= i < n :: f(i) >= 0
    ensures Sum(n, f) >= 0
  {
    SumZero(n, f);
  }

  /** The move of a thread within its loop. */
  predicate Loops(s: State, i: int)
    requires 0 <= i < |s.threads| && TypedAt(s, i)
  {
    Rest(s, i) > 0
  }

  lemma StagesAfter(c: Config, s: State, i: int, s': State)
    requires InnerStep(c, s, i, s') && TypedAt(s, i)
    ensures if Loops(s, i) then Stages(s') == Stages(s) else Stages(s') < Stages(s)
  {
    SumExceptAt(|s.threads|, k => StageAt(s', k), k => StageAt(s, k), i);
  }

  lemma RestStays(c: Config, s: State, i: int, s': State, j: int)
    requires Inv(c, s) && InnerStep(c, s, i, s') && TypedAt(s, i) && Loops(s, i) && j != i
    ensures RestAt(s', j) == RestAt(s, j)
  {
    assert TypedAt(s, j);
    if 0 <= j < |s.threads| && s.threads[j].RVisit? {
      ReaderSeesLog(c, s, j);
      assert !WriterAt(s, i);
    }
  }

  lemma RestsAfter(c: Config, s: State, i: int, s': State)
    requires Inv(c, s) && InnerStep(c, s, i, s') && TypedAt(s, i) && Loops(s, i)
    ensures Rests(s') < Rests(s)
  {
    forall j | j != i ensures RestAt(s', j) == RestAt(s, j) { RestStays(c, s, i, s', j); }
    SumExceptAt(|s.threads|, k => RestAt(s', k), k => RestAt(s, k), i);
  }

  /** Every step of a command lowers the rank: fewer stages, or as many stages and less left in the loops. */
  lemma StepLowersRank(c: Config, s: State, i: int, s': State)
    requires Inv(c, s) && InnerStep(c, s, i, s')
    ensures Stages(s') < Stages(s) || (Stages(s') == Stages(s) && Rests(s') < Rests(s))
  {
    assert TypedAt(s, i);
    StagesAfter(c, s, i, s');
    if Loops(s, i) { RestsAfter(c, s, i, s'); }
  }

  /** Nobody is carrying out a command. */
  ghost predicate Quiet(s: State) {
    forall i | 0 <= i < |s.threads| :: !IsBusy(s.threads[i])
  }

  ghost predicate Moves(c: Config, s: State, s': State) {
    exists i :: InnerStep(c, s, i, s')
  }

  /** A run without new commands: it goes on as long as it can. */
  ghost predicate RunsOn(c: Config, run: nat -> State, k: nat) {
    Moves(c, run(k), run(k + 1)) || forall i :: !CanGoOn(c, run(k), i)
  }

  /** Without new commands, every run that goes on as long as it can comes to a state in which all commands are done. */
  lemma Settles(c: Config, run: nat -> State, k: nat) returns (n: nat)
    requires Inv(c, run(k)) && forall j: nat :: RunsOn(c, run, j)
    ensures n >= k && Quiet(run(n)) && Inv(c, run(n))
    decreases Stages(run(k)), Rests(run(k))
  {
    assert RunsOn(c, run, k);
    var s, s' := run(k), run(k + 1);
    if i :| InnerStep(c, s, i, s') {
      InnerKeeps(c, s, i, s');
      StepLowersRank(c, s, i, s');
      n := Settles(c, run, k + 1);
    } else {
      n := k;
      forall i | 0 <= i < |run(k).threads| ensures !IsBusy(run(k).threads[i]) {
        if IsBusy(run(k).threads[i]) {
          var j := Progress(c, run(k), i);
        }
      }
    }
  }

  /** When all commands are done, both locks are free, nobody is counted, and the registry shows the whole log. */
  lemma QuietIsClean(c: Config, s: State)
    requires Inv(c, s) && Quiet(s)
    ensures s.mutex == FREE && s.readers == 0 && !s.rw && s.reg == Replay(s.log)
  {
    assert MutexAt(s, s.mutex);
    assert Counted(s) == {};
    forall i ensures !WriterAt(s, i) {}
  }
}
