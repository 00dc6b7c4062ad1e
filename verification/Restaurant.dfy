/**
 The restaurant monitor as a state machine: customers and cooks share one mutex and two condition variables,
 and main creates them, joins them and closes the restaurant.  A step is one thread's move from one lock
 operation, wait, signal or update of the shared record to the next.  Waiting and signalling follow IEEE Std
 1003.1-2017, System Interfaces, pthread_cond_wait and pthread_cond_signal: a wait releases the mutex and must
 reacquire it to return, and a signal unblocks at least one waiting thread if there is any.
 */
module Restaurant {
  import opened Sums

  /** Threads 0 to cooks - 1 are the cooks, the next ones the customers; main comes after them. */
  datatype Config = Config(cooks: nat, customers: nat, perCustomer: nat, maxSize: nat) {
    function Threads(): nat { cooks + customers }
    function Expected(): nat { customers * perCustomer }
    predicate Valid() { cooks >= 1 && maxSize >= 1 }
  }

  datatype Order = Order(number: int, customer: int)

  /** Where a thread is; left counts the orders a customer still has to place. */
  datatype Pc =
    | CNew(left: int)
    | CIdle(left: int)      // outside AddOrder; finished when nothing is left
    | CTest(left: int)      // holds the mutex, at the test for a full queue
    | CWait(left: int)      // blocked on can_add_orders
    | CWoken(left: int)     // unblocked, must reacquire the mutex
    | CAdded(left: int)     // holds the mutex, has queued its order, about to signal can_get_orders
    | CUnlock(left: int)    // holds the mutex, about to release it
    | KNew
    | KIdle                 // about to lock in GetOrder
    | KTest                 // holds the mutex, at the test for an empty queue
    | KWait                 // blocked on can_get_orders
    | KWoken
    | KTook(order: Order)   // holds the mutex, has dequeued an order
    | KSignal(order: Order) // has released the mutex, about to signal can_add_orders
    | KCook(order: Order)   // preparing the order
    | KInc(order: Order)    // holds the mutex, about to count the order as handled
    | KNotify               // holds the mutex, has counted, about to signal or broadcast
    | KRelease              // holds the mutex, about to release it
    | KQuit                 // holds the mutex, has found that no more orders come
    | KDone

  datatype Main =
    | MCreate(k: nat)
    | MJoin(j: nat)
    | MLock | MTest | MWait | MWoken | MFree
    | MClosed(leftover: nat)

  const FREE := -1

  /** The shared record, the thread states, and two histories: orders dequeued and orders handled. */
  datatype State = State(
    queue: seq<Order>, size: int, next: int, handled: int, mutex: int,
    threads: seq<Pc>, main: Main, taken: seq<Order>, served: seq<Order>)

  function Opened(c: Config): State {
    State([], 0, 1, 0, FREE,
          seq(c.Threads(), i => if i < c.cooks then KNew else CNew(c.perCustomer)), MCreate(0), [], [])
  }

  // ---------------------------------------------------------------- waking

  function Woken(pc: Pc): Pc {
    match pc
    case CWait(l) => CWoken(l)
    case KWait => KWoken
    case _ => pc
  }

  function Wake(threads: seq<Pc>, w: set<int>): (r: seq<Pc>)
    ensures |r| == |threads|
    ensures forall i | 0 <= i < |r| :: r[i] == if i in w then Woken(threads[i]) else threads[i]
  {
    seq(|threads|, i requires 0 <= i < |threads| => if i in w then Woken(threads[i]) else threads[i])
  }

  function WakeMain(m: Main, woken: bool): Main {
    if woken && m.MWait? then MWoken else m
  }

  /** The threads blocked on can_get_orders and on can_add_orders. */
  ghost function Getters(s: State): set<int> {
    (set i | 0 <= i < |s.threads| && s.threads[i].KWait?) + if s.main.MWait? then {|s.threads|} else {}
  }

  ghost function Adders(s: State): set<int> {
    set i | 0 <= i < |s.threads| && s.threads[i].CWait?
  }

  /** A signal unblocks at least one of the waiting threads. */
  ghost predicate Signals(w: set<int>, waiting: set<int>) {
    w <= waiting && (waiting != {} ==> w != {})
  }

  // ---------------------------------------------------------------- steps of customers and cooks

  predicate NeedsMutex(pc: Pc) {
    pc.CIdle? || pc.CWoken? || pc.KIdle? || pc.KWoken? || pc.KCook?
  }

  predicate Blocked(pc: Pc) {
    pc.CNew? || pc.KNew? || pc.CWait? || pc.KWait? || pc.KDone? || (pc.CIdle? && pc.left <= 0)
  }

  predicate Finished(pc: Pc) {
    pc.KDone? || (pc.CIdle? && pc.left <= 0)
  }

  predicate CanMove(s: State, i: int) {
    0 <= i < |s.threads| && !Blocked(s.threads[i]) && (NeedsMutex(s.threads[i]) ==> s.mutex == FREE)
  }

  /** Which threads the step of thread i may unblock. */
  ghost predicate MayWake(c: Config, s: State, i: int, w: set<int>)
    requires 0 <= i < |s.threads|
  {
    match s.threads[i]
    case CAdded(_) => Signals(w, Getters(s))
    case KSignal(_) => Signals(w, Adders(s))
    case KTest => w == if s.queue == [] && s.next - 1 >= c.Expected() then Getters(s) else {}
    case KNotify => if s.handled >= c.Expected() then w == Getters(s) + Adders(s) else Signals(w, Adders(s))
    case _ => w == {}
  }

  /** Thread i is at line 115 of BENSCHILLIBOWL.c: it places its order. */
  predicate Places(c: Config, s: State, i: int)
    requires 0 <= i < |s.threads|
  {
    s.threads[i].CTest? && s.size < c.maxSize
  }

  /** Thread i is at line 151 of BENSCHILLIBOWL.c: it takes the first order. */
  predicate Takes(s: State, i: int)
    requires 0 <= i < |s.threads|
  {
    s.threads[i].KTest? && s.queue != []
  }

  /** The state of thread i after its step. */
  function NextPc(c: Config, s: State, i: int): Pc
    requires 0 <= i < |s.threads|
  {
    match s.threads[i]
    case CIdle(l) => CTest(l)
    case CTest(l) => if Places(c, s, i) then CAdded(l - 1) else CWait(l)
    case CWoken(l) => CTest(l)
    case CAdded(l) => CUnlock(l)
    case CUnlock(l) => CIdle(l)
    case KIdle => KTest
    case KTest =>
      if Takes(s, i) then KTook(s.queue[0])
      else if s.next - 1 >= c.Expected() then KQuit else KWait
    case KWoken => KTest
    case KTook(o) => KSignal(o)
    case KSignal(o) => KCook(o)
    case KCook(o) => KInc(o)
    case KInc(_) => KNotify
    case KNotify => KRelease
    case KRelease => KIdle
    case KQuit => KDone
    case pc => pc
  }

  /** Who holds the mutex after the step of thread i. */
  function NextMutex(c: Config, s: State, i: int): int
    requires 0 <= i < |s.threads|
  {
    var pc := s.threads[i];
    if NeedsMutex(pc) then i
    else if Holds(NextPc(c, s, i)) then s.mutex
    else if Holds(pc) then FREE else s.mutex
  }

  predicate Holds(pc: Pc) {
    pc.CTest? || pc.CAdded? || pc.CUnlock? || pc.KTest? || pc.KTook? || pc.KInc? || pc.KNotify? || pc.KRelease? || pc.KQuit?
  }

  function After(c: Config, s: State, i: int, w: set<int>): State
    requires 0 <= i < |s.threads|
  {
    var places, takes, counts := Places(c, s, i), Takes(s, i), s.threads[i].KInc?;
    State(
      if places then s.queue + [Order(s.next, i - c.cooks)] else if takes then s.queue[1..] else s.queue,
      if places then s.size + 1 else if takes then s.size - 1 else s.size,
      if places then s.next + 1 else s.next,
      if counts then s.handled + 1 else s.handled,
      NextMutex(c, s, i),
      Wake(s.threads[i := NextPc(c, s, i)], w),
      WakeMain(s.main, |s.threads| in w),
      if takes then s.taken + [s.queue[0]] else s.taken,
      if counts then s.served + [s.threads[i].order] else s.served)
  }

  ghost predicate ThreadStep(c: Config, s: State, i: int, w: set<int>, s': State) {
    CanMove(s, i) && MayWake(c, s, i, w) && s' == After(c, s, i, w)
  }

  // ---------------------------------------------------------------- steps of main

  function Born(pc: Pc): Pc {
    match pc
    case CNew(l) => CIdle(l)
    case KNew => KIdle
    case _ => pc
  }

  /** Customers are joined first, then the cooks. */
  function JoinOrder(c: Config, j: nat): int {
    if j < c.customers then c.cooks + j else j - c.customers
  }

  predicate MainCanMove(c: Config, s: State)
    requires |s.threads| == c.Threads()
  {
    match s.main
    case MJoin(j) => j < c.Threads() ==> Finished(s.threads[JoinOrder(c, j)])
    case MLock => s.mutex == FREE
    case MWoken => s.mutex == FREE
    case MWait => false
    case MClosed(_) => false
    case _ => true
  }

  function AfterMain(c: Config, s: State): State
    requires |s.threads| == c.Threads()
  {
    match s.main
    case MCreate(k) =>
      if k < c.Threads() then s.(threads := s.threads[k := Born(s.threads[k])], main := MCreate(k + 1))
      else s.(main := MJoin(0))
    case MJoin(j) => if j < c.Threads() then s.(main := MJoin(j + 1)) else s.(main := MLock)
    case MLock => s.(mutex := c.Threads(), main := MTest)
    case MWoken => s.(mutex := c.Threads(), main := MTest)
    case MTest => if s.handled < c.Expected() then s.(mutex := FREE, main := MWait) else s.(mutex := FREE, main := MFree)
    case MFree => s.(main := MClosed(|s.queue|))
    case _ => s
  }

  ghost predicate MainStep(c: Config, s: State, s': State) {
    |s.threads| == c.Threads() && MainCanMove(c, s) && s' == AfterMain(c, s)
  }

  /** A wait may also end although nobody signalled. */
  ghost predicate SpuriousWakeup(s: State, i: int, s': State) {
    && 0 <= i <= |s.threads|
    && s' == s.(threads := Wake(s.threads, {i}), main := WakeMain(s.main, i == |s.threads|))
    && s' != s
  }

  ghost predicate Step(c: Config, s: State, s': State) {
    MainStep(c, s, s') || exists i, w :: ThreadStep(c, s, i, w, s')
  }

  ghost predicate AnyStep(c: Config, s: State, s': State) {
    Step(c, s, s') || exists i :: SpuriousWakeup(s, i, s')
  }

  // ---------------------------------------------------------------- sums over threads

  ghost function At(threads: seq<Pc>, w: Pc -> int, i: int): int {
    if 0 <= i < |threads| then w(threads[i]) else 0
  }

  ghost function Over(threads: seq<Pc>, w: Pc -> int): int {
    Sum(|threads|, i => At(threads, w, i))
  }

  lemma OverUpdate(threads: seq<Pc>, w: Pc -> int, i: int, pc: Pc)
    requires 0 <= i < |threads|
    ensures Over(threads[i := pc], w) == Over(threads, w) - w(threads[i]) + w(pc)
  {
    SumExceptAt(|threads|, k => At(threads[i := pc], w, k), k => At(threads, w, k), i);
  }

  lemma OverWakeEqual(threads: seq<Pc>, w: Pc -> int, s: set<int>)
    requires forall pc :: w(Woken(pc)) == w(pc)
    ensures Over(Wake(threads, s), w) == Over(threads, w)
  {
    SumEq(|threads|, k => At(Wake(threads, s), w, k), k => At(threads, w, k));
  }

  lemma OverWakeMore(threads: seq<Pc>, w: Pc -> int, s: set<int>)
    requires forall pc :: w(Woken(pc)) >= w(pc)
    ensures Over(Wake(threads, s), w) >= Over(threads, w)
  {
    SumLe(|threads|, k => At(threads, w, k), k => At(Wake(threads, s), w, k));
  }

  lemma OverWakeOne(threads: seq<Pc>, w: Pc -> int, s: set<int>, i: int)
    requires forall pc :: w(Woken(pc)) >= w(pc)
    requires i in s && 0 <= i < |threads| && w(Woken(threads[i])) > w(threads[i])
    ensures Over(Wake(threads, s), w) > Over(threads, w)
  {
    OverWakeMore(threads[i := Woken(threads[i])], w, s);
    OverUpdate(threads, w, i, Woken(threads[i]));
    assert Wake(threads[i := Woken(threads[i])], s) == Wake(threads, s);
  }

  lemma {:induction false} OverWakeBound(n: nat, f: int -> int, g: int -> int, d: nat)
    requires forall i | 0 <= i < n :: g(i) <= f(i) + d
    ensures Sum(n, g) <= Sum(n, f) + d * n
  {
    if n > 0 { OverWakeBound(n - 1, f, g, d); }
  }

  lemma OverNonNegative(threads: seq<Pc>, w: Pc -> int)
    requires forall pc :: w(pc) >= 0
    ensures Over(threads, w) >= 0
    ensures forall i | 0 <= i < |threads| :: w(threads[i]) <= Over(threads, w)
  {
    var f := k => At(threads, w, k);
    SumZero(|threads|, f);
    forall i | 0 <= i < |threads| ensures w(threads[i]) <= Over(threads, w) {
      SumTerm(|threads|, f, i);
    }
  }
}
