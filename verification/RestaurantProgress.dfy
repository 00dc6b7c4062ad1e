/**
 The restaurant never deadlocks, every run without spurious wakeups is finite, and a run that cannot go on
 has served every order and closed.
 */
module RestaurantProgress {
  import opened Sums
  import opened Restaurant
  import opened RestaurantSafety

  // ---------------------------------------------------------------- no deadlock

  /** Whoever holds the mutex can take a step. */
  lemma HolderMoves(s: State)
    requires MutexOk(s) && !s.main.MTest? && s.mutex != FREE
    ensures CanMove(s, s.mutex)
  {
    assert HolderAt(s, s.mutex);
  }

  /** A positive sum over threads has a positive term. */
  lemma PositiveTerm(threads: seq<Pc>, f: Pc -> int) returns (k: int)
    requires Over(threads, f) >= 1
    ensures 0 <= k < |threads| && f(threads[k]) >= 1
  {
    if forall i | 0 <= i < |threads| :: f(threads[i]) <= 0 {
      SumLe(|threads|, i => At(threads, f, i), i => 0);
      SumConst(|threads|, i => 0);
    }
    k :| 0 <= k < |threads| && f(threads[k]) >= 1;
  }

  /** A thread that is neither new, asleep nor finished can move when the mutex is free. */
  lemma AwakeMoves(s: State, k: int)
    requires s.main.MJoin? && s.mutex == FREE && 0 <= k < |s.threads|
    requires NewFrom(s.threads, |s.threads|, k) && !s.threads[k].CWait? && !s.threads[k].KWait? && !Finished(s.threads[k])
    ensures CanMove(s, k)
  {
  }

  /** A sleeping customer has somebody awake: a free slot or a queued order is on its way to being used. */
  lemma CustomerHasHelp(c: Config, s: State, j: int) returns (i: int)
    requires Inv(c, s) && s.main.MJoin? && s.mutex == FREE && CustomerWaits(s, j)
    ensures CanMove(s, i)
  {
    assert CustomerAsleep(s);
    if s.size < c.maxSize {
      i := PositiveTerm(s.threads, AddCredit);
    } else if CookWaits(s, 0) {
      assert CookAsleep(s);
      i := PositiveTerm(s.threads, GetCredit);
    } else {
      i := 0;
      assert TypedAt(c, s.threads, 0);
      assert s.threads[0].KDone? ==> CookQuits(s, 0);
    }
    assert NewFrom(s.threads, |s.threads|, i);
    AwakeMoves(s, i);
  }

  /** A sleeping cook has somebody awake: an order is queued, or still to be placed, or another cook is active. */
  lemma CookHasHelp(c: Config, s: State, j: int) returns (i: int)
    requires Inv(c, s) && s.main.MJoin? && s.mutex == FREE && CookWaits(s, j)
    ensures CanMove(s, i)
  {
    assert MakeUp(s, c.Expected());
    assert CookAsleep(s);
    if s.queue != [] {
      i := PositiveTerm(s.threads, GetCredit);
    } else if s.next - 1 >= c.Expected() {
      i :| IsActive(s, i);
    } else {
      i := PositiveTerm(s.threads, Left);
      assert TypedAt(c, s.threads, i);
      if CustomerWaits(s, i) {
        i := CustomerHasHelp(c, s, i);
        return;
      }
    }
    assert NewFrom(s.threads, |s.threads|, i);
    AwakeMoves(s, i);
  }

  /** While a thread has not finished, some thread can move. */
  lemma UnfinishedHasMover(c: Config, s: State, j: int) returns (i: int)
    requires Inv(c, s) && s.main.MJoin? && 0 <= j < |s.threads| && !Finished(s.threads[j])
    ensures CanMove(s, i)
  {
    if s.mutex != FREE {
      HolderMoves(s);
      i := s.mutex;
    } else if CookWaits(s, j) {
      i := CookHasHelp(c, s, j);
    } else if CustomerWaits(s, j) {
      i := CustomerHasHelp(c, s, j);
    } else {
      assert NewFrom(s.threads, |s.threads|, j);
      AwakeMoves(s, j);
      i := j;
    }
  }

  lemma FinishedHoldNothing(s: State)
    requires MutexOk(s) && AllFinished(s) && !s.main.MTest?
    ensures s.mutex == FREE
  {
    if s.mutex != FREE { FinishedIsNotHolder(s, s.mutex); }
  }

  lemma FinishedIsNotHolder(s: State, k: int)
    requires MutexOk(s) && AllFinished(s) && 0 <= k < |s.threads|
    ensures s.mutex != k
  {
    assert HolderAt(s, k) && FinishedAt(s.threads, k);
  }

  lemma ThreadProgress(c: Config, s: State, i: int)
    requires CanMove(s, i)
    ensures exists s' :: Step(c, s, s')
  {
    var w := SomeWake(c, s, i);
    assert ThreadStep(c, s, i, w, After(c, s, i, w));
    assert Step(c, s, After(c, s, i, w));
  }

  /** No deadlock: until main has closed the restaurant, somebody can take a step without a spurious wakeup. */
  lemma Progress(c: Config, s: State)
    requires Inv(c, s) && !s.main.MClosed?
    ensures exists s' :: Step(c, s, s')
  {
    if s.main.MJoin? && s.main.j < c.Threads() && !Finished(s.threads[JoinOrder(c, s.main.j)]) {
      var i := UnfinishedHasMover(c, s, JoinOrder(c, s.main.j));
      ThreadProgress(c, s, i);
    } else {
      if s.main.MLock? {
        FinishedHoldNothing(s);
      }
      assert MainStep(c, s, AfterMain(c, s));
      assert Step(c, s, AfterMain(c, s));
    }
  }

  lemma SomeWake(c: Config, s: State, i: int) returns (w: set<int>)
    requires 0 <= i < |s.threads|
    ensures MayWake(c, s, i, w)
  {
    w := {};
    match s.threads[i] {
      case CAdded(_) => w := Getters(s);
      case KSignal(_) => w := Adders(s);
      case KTest => w := if s.queue == [] && s.next - 1 >= c.Expected() then Getters(s) else {};
      case KNotify => w := if s.handled >= c.Expected() then Getters(s) + Adders(s) else Adders(s);
      case _ =>
    }
  }

  /** When main has closed, every cook is out, every order was handled once, and nothing was left to free. */
  lemma ClosedProperly(c: Config, s: State)
    requires Inv(c, s) && s.main.MClosed?
    ensures s.main.leftover == 0 && s.queue == []
    ensures forall i | 0 <= i < |s.threads| :: if i < c.cooks then s.threads[i] == KDone else s.threads[i] == CIdle(0)
    ensures s.handled == c.Expected() && multiset(s.served) == multiset(s.taken)
    ensures |s.taken| == c.Expected() && forall k | 0 <= k < |s.taken| :: s.taken[k].number == k + 1
  {
    AllHandled(c, s);
    forall i | 0 <= i < |s.threads| ensures if i < c.cooks then s.threads[i] == KDone else s.threads[i] == CIdle(0) {
      assert TypedAt(c, s.threads, i) && FinishedAt(s.threads, i);
    }
  }

  // ---------------------------------------------------------------- every run is finite

  /** The signals and broadcasts still to come on account of a thread. */
  function Events(pc: Pc): int {
    if IsCook(pc) then
      if pc.KTook? || pc.KSignal? then 3
      else if pc.KCook? || pc.KInc? || pc.KNotify? then 2
      else if pc.KQuit? || pc.KDone? then 0
      else 1
    else
      3 * pc.left + if pc.CAdded? then 1 else 0
  }

  /** How far a thread is from its next wait, signal or broadcast. */
  function Local(pc: Pc): int {
    if pc.CNew? || pc.KNew? || pc.KRelease? then 4
    else if pc.CUnlock? || pc.KIdle? || pc.KWoken? then 3
    else if pc.CIdle? || pc.CWoken? || pc.KTest? || pc.KCook? then 2
    else if pc.CTest? || pc.KTook? || pc.KInc? || pc.KQuit? then 1
    else 0
  }

  function MainLocal(n: nat, m: Main): int {
    match m
    case MCreate(k) => n - k + n + 6
    case MJoin(j) => n - j + 5
    case MLock => 3
    case MTest => 2
    case MWait => 0
    case MWoken => 3
    case MFree => 1
    case MClosed(_) => 0
  }

  ghost function EventsLeft(s: State): int {
    Over(s.threads, Events) + 2 * |s.queue|
  }

  ghost function LocalLeft(s: State): int {
    Over(s.threads, Local) + MainLocal(|s.threads|, s.main)
  }

  function Big(n: nat): nat { 3 * n + 8 }

  /** A bound on the number of steps that remain. */
  ghost function Rank(s: State): int {
    Big(|s.threads|) * EventsLeft(s) + LocalLeft(s)
  }

  lemma RankNonNegative(c: Config, s: State)
    requires Typed(c, s) && MainOk(c, s)
    ensures Rank(s) >= 0
  {
    forall i | 0 <= i < |s.threads| ensures At(s.threads, Events, i) >= 0 {
      assert TypedAt(c, s.threads, i);
    }
    SumZero(|s.threads|, i => At(s.threads, Events, i));
    OverNonNegative(s.threads, Local);
    NonNegativeProduct(Big(|s.threads|), EventsLeft(s));
  }

  lemma NonNegativeProduct(a: int, b: int)
    requires a >= 0 && b >= 0
    ensures a * b >= 0
  {
  }

  predicate IsEvent(c: Config, s: State, i: int)
    requires 0 <= i < |s.threads|
  {
    s.threads[i].CAdded? || s.threads[i].KSignal? || s.threads[i].KNotify? || NextPc(c, s, i).KQuit?
  }

  lemma EventsOfPc(c: Config, s: State, i: int)
    requires Typed(c, s) && CanMove(s, i)
    ensures Events(NextPc(c, s, i)) == Events(s.threads[i])
      - (if IsEvent(c, s, i) then 1 else 0) - (if Places(c, s, i) then 2 else 0) + (if Takes(s, i) then 2 else 0)
  {
    assert TypedAt(c, s.threads, i);
  }

  lemma EventsAfter(c: Config, s: State, i: int, w: set<int>)
    requires Typed(c, s) && CanMove(s, i)
    ensures EventsLeft(After(c, s, i, w)) == EventsLeft(s) - if IsEvent(c, s, i) then 1 else 0
  {
    StepOver(c, s, i, w, Events);
    EventsOfPc(c, s, i);
  }

  lemma LocalOfPc(c: Config, s: State, i: int, w: set<int>)
    requires CanMove(s, i) && MayWake(c, s, i, w)
    ensures !IsEvent(c, s, i) ==> w == {} && Local(NextPc(c, s, i)) < Local(s.threads[i])
    ensures Local(NextPc(c, s, i)) <= Local(s.threads[i]) + 4
  {
  }

  lemma WakeMainLocal(n: nat, m: Main, woken: bool)
    ensures MainLocal(n, WakeMain(m, woken)) <= MainLocal(n, m) + 3
    ensures MainLocal(n, WakeMain(m, false)) == MainLocal(n, m)
  {
  }

  lemma WakeLocal(threads: seq<Pc>, w: set<int>)
    ensures Over(Wake(threads, w), Local) <= Over(threads, Local) + 3 * |threads|
    ensures w == {} ==> Wake(threads, w) == threads
  {
    OverWakeBound(|threads|, k => At(threads, Local, k), k => At(Wake(threads, w), Local, k), 3);
  }

  /** An event unblocks at most all threads; any other step brings its thread closer to an event or a wait. */
  lemma LocalAfter(c: Config, s: State, i: int, w: set<int>)
    requires CanMove(s, i) && MayWake(c, s, i, w)
    ensures LocalLeft(After(c, s, i, w)) <= LocalLeft(s) + Big(|s.threads|) - 1
    ensures !IsEvent(c, s, i) ==> LocalLeft(After(c, s, i, w)) <= LocalLeft(s) - 1
  {
    OverUpdate(s.threads, Local, i, NextPc(c, s, i));
    WakeLocal(s.threads[i := NextPc(c, s, i)], w);
    LocalOfPc(c, s, i, w);
    WakeMainLocal(|s.threads|, s.main, |s.threads| in w);
  }

  lemma RankArithmetic(b: int, e: int, e': int, l: int, l': int)
    requires b >= 0
    requires if e' == e then l' <= l - 1 else e' == e - 1 && l' <= l + b - 1
    ensures b * e' + l' < b * e + l
  {
    if e' != e { assert b * (e - 1) == b * e - b; }
  }

  lemma ThreadLowersRank(c: Config, s: State, i: int, w: set<int>)
    requires Typed(c, s) && CanMove(s, i) && MayWake(c, s, i, w)
    ensures Rank(After(c, s, i, w)) < Rank(s)
  {
    var s' := After(c, s, i, w);
    EventsAfter(c, s, i, w);
    LocalAfter(c, s, i, w);
    RankArithmetic(Big(|s.threads|), EventsLeft(s), EventsLeft(s'), LocalLeft(s), LocalLeft(s'));
  }

  /** Every step without a spurious wakeup lowers the rank. */
  lemma StepLowersRank(c: Config, s: State, s': State)
    requires Inv(c, s) && Step(c, s, s')
    ensures Rank(s') < Rank(s)
  {
    if i, w :| ThreadStep(c, s, i, w, s') {
      ThreadLowersRank(c, s, i, w);
    } else {
      MainLowersRank(c, s, s');
    }
  }

  lemma MainLowersRank(c: Config, s: State, s': State)
    requires Inv(c, s) && MainStep(c, s, s')
    ensures Rank(s') < Rank(s)
  {
    if s.main.MCreate? && s.main.k < c.Threads() {
      var k := s.main.k;
      var pc := s.threads[k];
      OverUpdate(s.threads, Events, k, Born(pc));
      OverUpdate(s.threads, Local, k, Born(pc));
      assert Events(Born(pc)) == Events(pc) && Local(Born(pc)) <= Local(pc);
    } else if s.main.MTest? {
      AllHandled(c, s);
    }
  }

  /** A run without spurious wakeups. */
  ghost predicate QuietRun(c: Config, run: seq<State>) {
    run != [] && run[0] == Opened(c) && forall k | 0 <= k < |run| - 1 :: Step(c, run[k], run[k + 1])
  }

  lemma QuietRunIsRun(c: Config, run: seq<State>)
    requires QuietRun(c, run)
    ensures Run(c, run)
  {
    forall k | 0 <= k < |run| - 1 ensures AnyStep(c, run[k], run[k + 1]) {
      assert Step(c, run[k], run[k + 1]);
    }
  }

  /** After k steps the rank has dropped by at least k. */
  lemma {:induction false} RankDrops(c: Config, run: seq<State>, k: nat)
    requires c.Valid() && QuietRun(c, run) && k < |run|
    ensures Rank(run[k]) <= Rank(run[0]) - k
  {
    if k > 0 {
      var j := k - 1;
      RankDrops(c, run, j);
      QuietRunIsRun(c, run);
      Safety(c, run, j);
      assert Step(c, run[j], run[j + 1]);
      StepLowersRank(c, run[j], run[k]);
    }
  }

  lemma {:induction false} InitialEvents(c: Config, threads: seq<Pc>, n: nat)
    requires threads == Opened(c).threads && n <= |threads|
    ensures Sum(n, i => At(threads, Events, i)) == if n <= c.cooks then n else c.cooks + 3 * ((n - c.cooks) * c.perCustomer)
  {
    if n > 0 {
      InitialEvents(c, threads, n - 1);
      assert (n - 1 - c.cooks) * c.perCustomer == (n - c.cooks) * c.perCustomer - c.perCustomer;
    }
  }

  lemma {:induction false} InitialLocal(c: Config, threads: seq<Pc>, n: nat)
    requires threads == Opened(c).threads && n <= |threads|
    ensures Sum(n, i => At(threads, Local, i)) == 4 * n
  {
    if n > 0 { InitialLocal(c, threads, n - 1); }
  }

  lemma OpenedRank(c: Config)
    ensures Rank(Opened(c)) == Big(c.Threads()) * (3 * c.Expected() + c.cooks) + 6 * c.Threads() + 6
  {
    InitialEvents(c, Opened(c).threads, c.Threads());
    InitialLocal(c, Opened(c).threads, c.Threads());
    assert EventsLeft(Opened(c)) == 3 * c.Expected() + c.cooks;
  }

  /** Every run without spurious wakeups is finite, and no longer than the configuration allows. */
  lemma RunsAreFinite(c: Config, run: seq<State>)
    requires c.Valid() && QuietRun(c, run)
    ensures |run| - 1 <= Big(c.Threads()) * (3 * c.Expected() + c.cooks) + 6 * c.Threads() + 6
  {
    OpenedRank(c);
    RankDrops(c, run, |run| - 1);
    QuietRunIsRun(c, run);
    Safety(c, run, |run| - 1);
    RankNonNegative(c, run[|run| - 1]);
  }

  ghost predicate CannotGoOn(c: Config, s: State) {
    forall s' :: !Step(c, s, s')
  }

  /** A run that cannot be continued has closed the restaurant, served every order, and never made main wait. */
  lemma MaximalRunsClose(c: Config, run: seq<State>)
    requires c.Valid() && QuietRun(c, run) && CannotGoOn(c, run[|run| - 1])
    ensures var last := run[|run| - 1];
      && last.main == MClosed(0) && last.queue == [] && last.handled == c.Expected()
      && c.cooks <= |last.threads| && (forall i | 0 <= i < c.cooks :: last.threads[i] == KDone)
    ensures forall k | 0 <= k < |run| :: !run[k].main.MWait?
  {
    QuietRunIsRun(c, run);
    var last := run[|run| - 1];
    Safety(c, run, |run| - 1);
    if !last.main.MClosed? {
      Progress(c, last);
      assert false;
    }
    ClosedProperly(c, last);
    forall k | 0 <= k < |run| ensures !run[k].main.MWait? {
      Safety(c, run, k);
    }
  }
}
