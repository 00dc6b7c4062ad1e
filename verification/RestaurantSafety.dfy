/**
 What every step of the restaurant keeps: who holds the mutex, where every order is, that no wakeup is
 lost, and that some cook stays awake to tell the others when all orders are in.
 */
module RestaurantSafety {
  import opened Sums
  import opened Restaurant

  predicate IsCook(pc: Pc) {
    pc.KNew? || pc.KIdle? || pc.KTest? || pc.KWait? || pc.KWoken? || pc.KTook? || pc.KSignal? || pc.KCook?
    || pc.KInc? || pc.KNotify? || pc.KRelease? || pc.KQuit? || pc.KDone?
  }

  predicate HasLeft(pc: Pc) {
    if pc.CTest? || pc.CWait? || pc.CWoken? then pc.left >= 1 else !IsCook(pc) && pc.left >= 0
  }

  ghost predicate TypedAt(c: Config, threads: seq<Pc>, i: int) {
    0 <= i < |threads| && if i < c.cooks then IsCook(threads[i]) else HasLeft(threads[i])
  }

  ghost predicate Typed(c: Config, s: State) {
    |s.threads| == c.Threads() && forall i | 0 <= i < |s.threads| :: TypedAt(c, s.threads, i)
  }

  ghost predicate HolderAt(s: State, i: int) {
    0 <= i < |s.threads| && (Holds(s.threads[i]) <==> s.mutex == i)
  }

  /** The mutex records who is inside a critical section, and nobody else is. */
  ghost predicate MutexOk(s: State) {
    && FREE <= s.mutex <= |s.threads|
    && (forall i | 0 <= i < |s.threads| :: HolderAt(s, i))
    && (s.main.MTest? <==> s.mutex == |s.threads|)
  }

  predicate Joined(c: Config, j: int, i: int) {
    if i >= c.cooks then i - c.cooks < j else i + c.customers < j
  }

  ghost predicate NewFrom(threads: seq<Pc>, k: int, i: int) {
    0 <= i < |threads| && (threads[i].CNew? || threads[i].KNew? <==> i >= k)
  }

  ghost predicate FinishedAt(threads: seq<Pc>, i: int) {
    0 <= i < |threads| && Finished(threads[i])
  }

  ghost predicate AllFinished(s: State) {
    forall i | 0 <= i < |s.threads| :: FinishedAt(s.threads, i)
  }

  /** Main's progress; once everybody is joined it never has to wait and leaves nothing in the queue. */
  ghost predicate MainOk(c: Config, s: State) {
    match s.main
    case MCreate(k) => k <= |s.threads| && forall i | 0 <= i < |s.threads| :: NewFrom(s.threads, k, i)
    case MJoin(j) =>
      && j <= |s.threads|
      && (forall i | 0 <= i < |s.threads| :: NewFrom(s.threads, |s.threads|, i))
      && (forall i | 0 <= i < |s.threads| && Joined(c, j, i) :: FinishedAt(s.threads, i))
    case MWait => false
    case MWoken => false
    case MClosed(n) => n == 0 && AllFinished(s)
    case _ => AllFinished(s)
  }

  /** The orders a thread still has to place. */
  function Left(pc: Pc): int {
    if IsCook(pc) then 0 else pc.left
  }

  /** Whether a cook holds order o and has not yet counted it as handled. */
  function Holding(pc: Pc, o: Order): int {
    if (pc.KTook? || pc.KSignal? || pc.KCook? || pc.KInc?) && pc.order == o then 1 else 0
  }

  function HoldsOrder(o: Order): Pc -> int {
    pc => Holding(pc, o)
  }

  ghost predicate Numbered(orders: seq<Order>, first: int) {
    forall k | 0 <= k < |orders| :: orders[k].number == first + k
  }

  /** Orders are numbered in the order in which they are queued and dequeued. */
  ghost predicate QueueOk(c: Config, s: State) {
    && s.size == |s.queue| <= c.maxSize
    && s.next - 1 == |s.taken| + |s.queue|
    && Numbered(s.taken, 1) && Numbered(s.queue, |s.taken| + 1)
    && s.handled == |s.served|
  }

  ghost predicate InOnePlace(s: State, o: Order) {
    multiset(s.taken)[o] == multiset(s.served)[o] + Over(s.threads, HoldsOrder(o))
  }

  /** Every dequeued order is either handled or held by one cook. */
  ghost predicate PlacesOk(s: State) {
    forall o :: InOnePlace(s, o)
  }

  /** Orders received and orders still to be placed make up the total. */
  ghost predicate MakeUp(s: State, total: int) {
    s.next - 1 + Over(s.threads, Left) == total
  }

  ghost predicate LeftOk(c: Config, s: State) {
    forall total | total == c.Expected() :: MakeUp(s, total)
  }

  ghost predicate OrdersOk(c: Config, s: State) {
    QueueOk(c, s) && PlacesOk(s) && LeftOk(c, s)
  }

  ghost predicate CustomerWaits(s: State, i: int) { 0 <= i < |s.threads| && s.threads[i].CWait? }
  ghost predicate CookWaits(s: State, i: int) { 0 <= i < |s.threads| && s.threads[i].KWait? }
  ghost predicate CookQuits(s: State, i: int) { 0 <= i < |s.threads| && (s.threads[i].KQuit? || s.threads[i].KDone?) }
  ghost predicate IsActive(s: State, i: int) { 0 <= i < |s.threads| && Active(s.threads[i]) }

  ghost predicate CustomerAsleep(s: State) { exists i :: CustomerWaits(s, i) }
  ghost predicate CookAsleep(s: State) { exists i :: CookWaits(s, i) }

  /** A cook quits only when all orders have been received and the queue is empty, and leaves nobody asleep. */
  ghost predicate QuitOk(c: Config, s: State) {
    forall i :: CookQuits(s, i) ==> s.queue == [] && s.next - 1 >= c.Expected() && !CookAsleep(s)
  }

  /** Threads that will signal can_add_orders, or that have been unblocked from it and will use a free slot. */
  function AddCredit(pc: Pc): int {
    if pc.KTook? || pc.KSignal? || pc.CWoken? || pc.CTest? then 1 else 0
  }

  /** Threads that will signal can_get_orders, or that have been unblocked from it and will take an order. */
  function GetCredit(pc: Pc): int {
    if pc.CAdded? || pc.KWoken? || pc.KTest? then 1 else 0
  }

  /** While a customer sleeps there are no more free slots than threads about to use them or to signal them. */
  ghost predicate NoLostSlot(c: Config, s: State) {
    CustomerAsleep(s) ==> c.maxSize - s.size <= Over(s.threads, AddCredit)
  }

  /** While a cook sleeps there are no more queued orders than threads about to take them or to signal them. */
  ghost predicate NoLostOrder(s: State) {
    CookAsleep(s) ==> |s.queue| <= Over(s.threads, GetCredit)
  }

  predicate Active(pc: Pc) {
    pc.CAdded? || (IsCook(pc) && !pc.KWait? && !pc.KQuit? && !pc.KDone?)
  }

  /** Once all orders are received a sleeping cook has somebody awake who will wake it. */
  ghost predicate SomebodyAwake(c: Config, s: State) {
    CookAsleep(s) && s.next - 1 >= c.Expected() ==> exists i :: IsActive(s, i)
  }

  ghost predicate Inv(c: Config, s: State) {
    && c.Valid() && Typed(c, s) && MutexOk(s) && MainOk(c, s) && OrdersOk(c, s) && QuitOk(c, s)
    && NoLostSlot(c, s) && NoLostOrder(s) && SomebodyAwake(c, s)
  }

  // ---------------------------------------------------------------- thread steps

  lemma StepTyped(c: Config, s: State, i: int, w: set<int>)
    requires Typed(c, s) && CanMove(s, i)
    ensures Typed(c, After(c, s, i, w))
  {
    var s' := After(c, s, i, w);
    assert TypedAt(c, s.threads, i);
    forall k | 0 <= k < |s'.threads| ensures TypedAt(c, s'.threads, k) {
      assert TypedAt(c, s.threads, k);
    }
  }

  lemma StepMutex(c: Config, s: State, i: int, w: set<int>)
    requires MutexOk(s) && CanMove(s, i)
    ensures MutexOk(After(c, s, i, w))
  {
    var s' := After(c, s, i, w);
    assert HolderAt(s, i);
    forall k | 0 <= k < |s'.threads| ensures HolderAt(s', k) {
      assert HolderAt(s, k);
    }
  }

  lemma StepMain(c: Config, s: State, i: int, w: set<int>)
    requires MainOk(c, s) && CanMove(s, i)
    ensures MainOk(c, After(c, s, i, w))
  {
    var s' := After(c, s, i, w);
    forall k, j | 0 <= k < |s.threads| && NewFrom(s.threads, j, k) ensures NewFrom(s'.threads, j, k) {}
    forall k | FinishedAt(s.threads, k) ensures FinishedAt(s'.threads, k) {}
  }

  /** A sum over threads whose terms do not change by waking changes only by the thread that moves. */
  lemma StepOver(c: Config, s: State, i: int, w: set<int>, f: Pc -> int)
    requires 0 <= i < |s.threads| && forall pc :: f(Woken(pc)) == f(pc)
    ensures Over(After(c, s, i, w).threads, f) == Over(s.threads, f) - f(s.threads[i]) + f(NextPc(c, s, i))
  {
    var pc := NextPc(c, s, i);
    OverUpdate(s.threads, f, i, pc);
    OverWakeEqual(s.threads[i := pc], f, w);
  }

  /** A sum over threads whose terms grow by waking. */
  lemma StepCredit(c: Config, s: State, i: int, w: set<int>, f: Pc -> int)
    requires 0 <= i < |s.threads| && forall pc :: f(Woken(pc)) >= f(pc) >= 0
    ensures Over(After(c, s, i, w).threads, f) >= Over(s.threads, f) - f(s.threads[i]) + f(NextPc(c, s, i))
    ensures Over(After(c, s, i, w).threads, f) >= 0
  {
    var r := s.threads[i := NextPc(c, s, i)];
    OverUpdate(s.threads, f, i, NextPc(c, s, i));
    OverWakeMore(r, f, w);
    OverNonNegative(Wake(r, w), f);
  }

  /** It grows by one more if the term of some thread k does. */
  lemma StepCreditWake(c: Config, s: State, i: int, w: set<int>, f: Pc -> int, k: int)
    requires 0 <= i < |s.threads| && forall pc :: f(Woken(pc)) >= f(pc) >= 0
    requires k in w && k != i && 0 <= k < |s.threads| && f(Woken(s.threads[k])) > f(s.threads[k])
    ensures Over(After(c, s, i, w).threads, f) >= Over(s.threads, f) - f(s.threads[i]) + f(NextPc(c, s, i)) + 1
  {
    var r := s.threads[i := NextPc(c, s, i)];
    OverUpdate(s.threads, f, i, NextPc(c, s, i));
    OverWakeOne(r, f, w, k);
  }

  lemma StepQueue(c: Config, s: State, i: int, w: set<int>)
    requires QueueOk(c, s) && CanMove(s, i)
    ensures QueueOk(c, After(c, s, i, w))
  {
    var s' := After(c, s, i, w);
    if s.threads[i].KTest? && s.queue != [] {
      assert s'.taken[|s.taken|] == s.queue[0];
    }
  }

  lemma StepPlaces(c: Config, s: State, i: int, w: set<int>)
    requires PlacesOk(s) && CanMove(s, i)
    ensures PlacesOk(After(c, s, i, w))
  {
    forall o ensures InOnePlace(After(c, s, i, w), o) {
      StepPlace(c, s, i, w, o);
    }
  }

  lemma StepPlace(c: Config, s: State, i: int, w: set<int>, o: Order)
    requires InOnePlace(s, o) && CanMove(s, i)
    ensures InOnePlace(After(c, s, i, w), o)
  {
    HoldingDelta(c, s, i, o);
    HistoryDelta(c, s, i, w, o);
    StepOver(c, s, i, w, HoldsOrder(o));
  }

  /** How many times the step of thread i takes order o from the queue, and how often it counts it as handled. */
  function Took(s: State, i: int, o: Order): int
    requires 0 <= i < |s.threads|
  {
    if Takes(s, i) && s.queue[0] == o then 1 else 0
  }

  function Counted(s: State, i: int, o: Order): int
    requires 0 <= i < |s.threads|
  {
    if s.threads[i].KInc? && s.threads[i].order == o then 1 else 0
  }

  lemma HoldingDelta(c: Config, s: State, i: int, o: Order)
    requires 0 <= i < |s.threads|
    ensures Holding(NextPc(c, s, i), o) - Holding(s.threads[i], o) == Took(s, i, o) - Counted(s, i, o)
  {
  }

  lemma HistoryDelta(c: Config, s: State, i: int, w: set<int>, o: Order)
    requires 0 <= i < |s.threads|
    ensures multiset(After(c, s, i, w).taken)[o] == multiset(s.taken)[o] + Took(s, i, o)
    ensures multiset(After(c, s, i, w).served)[o] == multiset(s.served)[o] + Counted(s, i, o)
  {
  }

  /** Whoever places an order has one less left. */
  lemma LeftChange(c: Config, s: State, i: int, w: set<int>)
    requires CanMove(s, i)
    ensures var s' := After(c, s, i, w); s'.next + Over(s'.threads, Left) == s.next + Over(s.threads, Left)
  {
    StepOver(c, s, i, w, Left);
  }

  lemma StepLeft(c: Config, s: State, i: int, w: set<int>)
    requires LeftOk(c, s) && CanMove(s, i)
    ensures LeftOk(c, After(c, s, i, w))
  {
    LeftChange(c, s, i, w);
    assert MakeUp(s, c.Expected());
  }

  lemma LeftBelow(c: Config, s: State, i: int)
    requires Typed(c, s) && 0 <= i < |s.threads|
    ensures 0 <= Left(s.threads[i]) <= Over(s.threads, Left)
  {
    forall k | 0 <= k < |s.threads| ensures At(s.threads, Left, k) >= 0 {
      assert TypedAt(c, s.threads, k);
    }
    SumTerm(|s.threads|, k => At(s.threads, Left, k), i);
  }

  /** What the step of thread i does to the waits of thread j. */
  lemma WaitsAfter(c: Config, s: State, i: int, w: set<int>, j: int)
    requires CanMove(s, i)
    ensures CookWaits(After(c, s, i, w), j) <==>
      if j == i then s.threads[i].KTest? && NextPc(c, s, i).KWait? && i !in w else CookWaits(s, j) && j !in w
    ensures CustomerWaits(After(c, s, i, w), j) <==>
      if j == i then s.threads[i].CTest? && NextPc(c, s, i).CWait? && i !in w else CustomerWaits(s, j) && j !in w
  {
  }

  lemma WakesOthers(c: Config, s: State, i: int, w: set<int>)
    requires CanMove(s, i) && MayWake(c, s, i, w)
    ensures i !in w
  {
  }

  lemma StepQuit(c: Config, s: State, i: int, w: set<int>)
    requires Typed(c, s) && LeftOk(c, s) && QuitOk(c, s) && CanMove(s, i) && MayWake(c, s, i, w)
    ensures QuitOk(c, After(c, s, i, w))
  {
    assert MakeUp(s, c.Expected());
    var s' := After(c, s, i, w);
    LeftBelow(c, s, i);
    assert TypedAt(c, s.threads, i);
    forall k | CookQuits(s', k) ensures s'.queue == [] && s'.next - 1 >= c.Expected() && !CookAsleep(s') {
      if !CookQuits(s, k) {
        assert k == i && s.threads[i].KTest?;
        forall j ensures !CookWaits(s', j) {
          WaitsAfter(c, s, i, w, j);
          if CookWaits(s, j) { assert j in Getters(s); }
        }
      } else {
        forall j ensures !CookWaits(s', j) {
          WaitsAfter(c, s, i, w, j);
          assert !CookWaits(s, j);
        }
      }
    }
  }

  /** A cook's signal passes its credit to a customer. */
  lemma SignalReachesCustomer(c: Config, s: State, i: int, w: set<int>, j: int)
    requires CustomerWaits(s, j) && CanMove(s, i) && s.threads[i].KSignal? && MayWake(c, s, i, w)
    ensures Over(After(c, s, i, w).threads, AddCredit) >= Over(s.threads, AddCredit)
  {
    assert j in Adders(s);
    var k :| k in w;
    assert k in Adders(s) && s.threads[k].CWait?;
    StepCreditWake(c, s, i, w, AddCredit, k);
  }

  lemma StepSlot(c: Config, s: State, i: int, w: set<int>)
    requires NoLostSlot(c, s) && CanMove(s, i) && MayWake(c, s, i, w)
    ensures NoLostSlot(c, After(c, s, i, w))
  {
    WakesOthers(c, s, i, w);
    StepCredit(c, s, i, w, AddCredit);
    if j :| CustomerWaits(After(c, s, i, w), j) && j != i {
      WaitsAfter(c, s, i, w, j);
      assert CustomerWaits(s, j);
      if s.threads[i].KSignal? {
        SignalReachesCustomer(c, s, i, w, j);
      }
    }
  }

  /** A customer's signal passes its credit to a cook. */
  lemma SignalReachesCook(c: Config, s: State, i: int, w: set<int>, j: int)
    requires CookWaits(s, j) && !s.main.MWait? && CanMove(s, i) && s.threads[i].CAdded? && MayWake(c, s, i, w)
    ensures Over(After(c, s, i, w).threads, GetCredit) >= Over(s.threads, GetCredit)
  {
    assert j in Getters(s);
    var k :| k in w;
    assert k in Getters(s) && s.threads[k].KWait?;
    StepCreditWake(c, s, i, w, GetCredit, k);
  }

  lemma StepOrder(c: Config, s: State, i: int, w: set<int>)
    requires NoLostOrder(s) && !s.main.MWait? && CanMove(s, i) && MayWake(c, s, i, w)
    ensures NoLostOrder(After(c, s, i, w))
  {
    WakesOthers(c, s, i, w);
    StepCredit(c, s, i, w, GetCredit);
    if j :| CookWaits(After(c, s, i, w), j) && j != i {
      WaitsAfter(c, s, i, w, j);
      assert CookWaits(s, j);
      if s.threads[i].CAdded? {
        SignalReachesCook(c, s, i, w, j);
      }
    }
  }

  /** Only a cook that goes to sleep or quits, and a customer that has signalled, stop being active. */
  lemma StaysActive(c: Config, s: State, i: int, w: set<int>, k: int)
    requires CanMove(s, i) && IsActive(s, k) && !s.threads[i].CAdded?
    requires !NextPc(c, s, i).KWait? && !NextPc(c, s, i).KQuit?
    ensures IsActive(After(c, s, i, w), k) || CookQuits(s, k)
  {
  }

  lemma StepAwake(c: Config, s: State, i: int, w: set<int>)
    requires SomebodyAwake(c, s) && QuitOk(c, s) && !s.main.MWait? && CanMove(s, i) && MayWake(c, s, i, w)
    ensures SomebodyAwake(c, After(c, s, i, w))
  {
    var s' := After(c, s, i, w);
    if j :| CookWaits(s', j) && s'.next - 1 >= c.Expected() {
      WaitsAfter(c, s, i, w, j);
      if Active(NextPc(c, s, i)) {
        assert IsActive(s', i);
      } else {
        assert CookWaits(s, j) && j in Getters(s);
        if s.threads[i].CAdded? {
          var k :| k in w;
          assert IsActive(s', k);
        } else {
          var k :| IsActive(s, k);
          StaysActive(c, s, i, w, k);
          assert !CookQuits(s, k);
        }
      }
    }
  }

  // ---------------------------------------------------------------- main's steps

  lemma MainKeeps(c: Config, s: State, s': State)
    requires Inv(c, s) && MainStep(c, s, s')
    ensures Inv(c, s')
  {
    match s.main {
      case MCreate(k) =>
        if k < c.Threads() {
          MainCreates(c, s, k);
        } else {
          MainOtherwise(c, s, s');
        }
      case MJoin(j) =>
        if j < c.Threads() {
          forall i | 0 <= i < |s.threads| && Joined(c, j + 1, i) ensures FinishedAt(s.threads, i) {
            assert Joined(c, j, i) || i == JoinOrder(c, j);
          }
        } else {
          assert forall i | 0 <= i < |s.threads| :: Joined(c, j, i);
        }
        MainOtherwise(c, s, s');
      case MTest =>
        AllHandled(c, s);
        MainOtherwise(c, s, s');
      case MFree =>
        AllHandled(c, s);
        MainOtherwise(c, s, s');
      case _ =>
        MainOtherwise(c, s, s');
    }
  }

  /** A step of main that changes no thread. */
  lemma MainOtherwise(c: Config, s: State, s': State)
    requires Inv(c, s) && MainOk(c, s')
    requires s' == s.(mutex := s'.mutex, main := s'.main)
    requires s'.mutex == s.mutex || {s.mutex, s'.mutex} == {FREE, |s.threads|}
    requires s'.main.MTest? <==> s'.mutex == |s.threads|
    ensures Inv(c, s')
  {
    assert LeftOk(c, s) && MakeUp(s, c.Expected());
    forall k | 0 <= k < |s'.threads| ensures HolderAt(s', k) {
      assert HolderAt(s, k);
    }
    forall o ensures InOnePlace(s', o) {
      assert InOnePlace(s, o);
    }
    SameThreads(c, s, s');
  }

  /** The remaining invariants do not depend on main. */
  lemma SameThreads(c: Config, s: State, s': State)
    requires QuitOk(c, s) && NoLostSlot(c, s) && NoLostOrder(s) && SomebodyAwake(c, s)
    requires s' == s.(mutex := s'.mutex, main := s'.main)
    ensures QuitOk(c, s') && NoLostSlot(c, s') && NoLostOrder(s') && SomebodyAwake(c, s')
  {
    forall k ensures CookWaits(s', k) <==> CookWaits(s, k) {}
    forall k ensures CookQuits(s', k) <==> CookQuits(s, k) {}
    forall k ensures CustomerWaits(s', k) <==> CustomerWaits(s, k) {}
    forall k ensures IsActive(s', k) <==> IsActive(s, k) {}
  }

  lemma MainCreates(c: Config, s: State, k: nat)
    requires Inv(c, s) && s.main == MCreate(k) && k < c.Threads()
    ensures Inv(c, AfterMain(c, s))
  {
    assert LeftOk(c, s) && MakeUp(s, c.Expected());
    var s', pc, m := AfterMain(c, s), Born(s.threads[k]), k + 1;
    OverUpdate(s.threads, Left, k, pc);
    OverUpdate(s.threads, AddCredit, k, pc);
    OverUpdate(s.threads, GetCredit, k, pc);
    forall o ensures InOnePlace(s', o) {
      assert InOnePlace(s, o);
      OverUpdate(s.threads, HoldsOrder(o), k, pc);
    }
    forall i | 0 <= i < |s.threads|
      ensures TypedAt(c, s'.threads, i) && HolderAt(s', i) && NewFrom(s'.threads, m, i)
    {
      assert TypedAt(c, s.threads, i) && HolderAt(s, i) && NewFrom(s.threads, k, i);
    }
    MoreAwake(c, s, s');
  }

  /** The remaining invariants survive a change of threads that puts nobody to sleep and lets no cook quit. */
  lemma MoreAwake(c: Config, s: State, s': State)
    requires QuitOk(c, s) && NoLostSlot(c, s) && NoLostOrder(s) && SomebodyAwake(c, s)
    requires s'.queue == s.queue && s'.next == s.next && s'.size == s.size && |s'.threads| == |s.threads|
    requires Over(s'.threads, AddCredit) >= Over(s.threads, AddCredit)
    requires Over(s'.threads, GetCredit) >= Over(s.threads, GetCredit)
    requires forall i | 0 <= i < |s.threads| :: var a, b := s.threads[i], s'.threads[i];
      && (b.KWait? ==> a.KWait?) && (b.CWait? ==> a.CWait?) && (Active(a) ==> Active(b))
      && (b.KQuit? || b.KDone? ==> a == b)
    ensures QuitOk(c, s') && NoLostSlot(c, s') && NoLostOrder(s') && SomebodyAwake(c, s')
  {
    forall k ensures CookWaits(s', k) ==> CookWaits(s, k) {}
    forall k ensures CookQuits(s', k) ==> CookQuits(s, k) {}
    forall k ensures CustomerWaits(s', k) ==> CustomerWaits(s, k) {}
    forall k ensures IsActive(s, k) ==> IsActive(s', k) {}
  }

  /** When every thread has finished, every expected order has been received and handled. */
  lemma AllHandled(c: Config, s: State)
    requires c.Valid() && Typed(c, s) && OrdersOk(c, s) && QuitOk(c, s) && AllFinished(s)
    ensures s.queue == [] && s.handled == c.Expected() == s.next - 1
    ensures multiset(s.served) == multiset(s.taken)
  {
    assert MakeUp(s, c.Expected());
    assert TypedAt(c, s.threads, 0) && FinishedAt(s.threads, 0);
    assert CookQuits(s, 0);
    forall i | 0 <= i < |s.threads| ensures At(s.threads, Left, i) == 0 {
      assert TypedAt(c, s.threads, i) && FinishedAt(s.threads, i);
    }
    SumConst(|s.threads|, i => At(s.threads, Left, i));
    forall o ensures multiset(s.taken)[o] == multiset(s.served)[o] {
      assert InOnePlace(s, o);
      forall i | 0 <= i < |s.threads| ensures At(s.threads, HoldsOrder(o), i) == 0 {
        assert FinishedAt(s.threads, i);
      }
      SumConst(|s.threads|, i => At(s.threads, HoldsOrder(o), i));
    }
    assert multiset(s.served) == multiset(s.taken);
    assert |multiset(s.taken)| == |multiset(s.served)|;
  }

  // ---------------------------------------------------------------- spurious wakeups and whole runs

  lemma SpuriousCredit(s: State, i: int, s': State)
    requires SpuriousWakeup(s, i, s')
    ensures Over(s'.threads, AddCredit) >= Over(s.threads, AddCredit)
    ensures Over(s'.threads, GetCredit) >= Over(s.threads, GetCredit)
  {
    OverWakeMore(s.threads, AddCredit, {i});
    OverWakeMore(s.threads, GetCredit, {i});
  }

  lemma SpuriousKeeps(c: Config, s: State, i: int, s': State)
    requires Inv(c, s) && SpuriousWakeup(s, i, s')
    ensures Inv(c, s')
  {
    SpuriousOrders(c, s, i, s');
    SpuriousTyped(c, s, i, s');
    SpuriousMain(c, s, i, s');
    SpuriousCredit(s, i, s');
    MoreAwake(c, s, s');
  }

  lemma SpuriousOver(s: State, i: int, s': State, f: Pc -> int)
    requires SpuriousWakeup(s, i, s') && forall pc :: f(Woken(pc)) == f(pc)
    ensures Over(s'.threads, f) == Over(s.threads, f)
  {
    OverWakeEqual(s.threads, f, {i});
  }

  lemma SpuriousOrders(c: Config, s: State, i: int, s': State)
    requires OrdersOk(c, s) && SpuriousWakeup(s, i, s')
    ensures OrdersOk(c, s')
  {
    assert MakeUp(s, c.Expected());
    SpuriousOver(s, i, s', Left);
    forall o ensures InOnePlace(s', o) {
      assert InOnePlace(s, o);
      SpuriousOver(s, i, s', HoldsOrder(o));
    }
  }

  lemma SpuriousTyped(c: Config, s: State, i: int, s': State)
    requires Typed(c, s) && MutexOk(s) && SpuriousWakeup(s, i, s')
    ensures Typed(c, s') && MutexOk(s')
  {
    forall k | 0 <= k < |s.threads| ensures TypedAt(c, s'.threads, k) && HolderAt(s', k) {
      assert TypedAt(c, s.threads, k) && HolderAt(s, k);
    }
  }

  lemma SpuriousMain(c: Config, s: State, i: int, s': State)
    requires MainOk(c, s) && SpuriousWakeup(s, i, s')
    ensures MainOk(c, s')
  {
    forall k, j | 0 <= k < |s.threads| && NewFrom(s.threads, j, k) ensures NewFrom(s'.threads, j, k) {}
    forall k | FinishedAt(s.threads, k) ensures FinishedAt(s'.threads, k) {}
  }

  lemma StepKeeps(c: Config, s: State, s': State)
    requires Inv(c, s) && AnyStep(c, s, s')
    ensures Inv(c, s')
  {
    if MainStep(c, s, s') {
      MainKeeps(c, s, s');
    } else if i, w :| ThreadStep(c, s, i, w, s') {
      StepTyped(c, s, i, w);
      StepMutex(c, s, i, w);
      StepMain(c, s, i, w);
      StepQueue(c, s, i, w);
      StepPlaces(c, s, i, w);
      StepLeft(c, s, i, w);
      StepQuit(c, s, i, w);
      StepSlot(c, s, i, w);
      StepOrder(c, s, i, w);
      StepAwake(c, s, i, w);
    } else {
      var i :| SpuriousWakeup(s, i, s');
      SpuriousKeeps(c, s, i, s');
    }
  }

  lemma InitialInv(c: Config)
    requires c.Valid()
    ensures Inv(c, Opened(c))
  {
    var s := Opened(c);
    InitialLeft(c, s.threads, |s.threads|);
    forall o ensures InOnePlace(s, o) {
      SumConst(|s.threads|, i => At(s.threads, HoldsOrder(o), i));
    }
    forall i | 0 <= i < |s.threads| ensures TypedAt(c, s.threads, i) && HolderAt(s, i) && NewFrom(s.threads, 0, i) {}
    forall i ensures !CookWaits(s, i) && !CustomerWaits(s, i) && !CookQuits(s, i) {}
  }

  lemma {:induction false} InitialLeft(c: Config, threads: seq<Pc>, n: nat)
    requires threads == Opened(c).threads && n <= |threads|
    ensures Sum(n, i => At(threads, Left, i)) == if n <= c.cooks then 0 else (n - c.cooks) * c.perCustomer
  {
    if n > 0 { InitialLeft(c, threads, n - 1); }
  }

  /** A run of the restaurant, possibly with spurious wakeups. */
  ghost predicate Run(c: Config, run: seq<State>) {
    && run != [] && run[0] == Opened(c)
    && forall k | 0 <= k < |run| - 1 :: AnyStep(c, run[k], run[k + 1])
  }

  /** Every state of every run satisfies the invariants. */
  lemma {:induction false} Safety(c: Config, run: seq<State>, k: nat)
    requires c.Valid() && Run(c, run) && k < |run|
    ensures Inv(c, run[k])
  {
    if k == 0 {
      InitialInv(c);
    } else {
      Safety(c, run, k - 1);
      var j := k - 1;
      assert AnyStep(c, run[j], run[j + 1]);
      StepKeeps(c, run[j], run[k]);
    }
  }
}
