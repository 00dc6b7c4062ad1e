/**
 The simulator's processes, and what a preemptive schedule of them is.

 A schedule is a sequence with one entry per unit of time: the index of the process that runs in that
 unit, or IDLE.  Waiting time, completion and feasibility are defined on schedules alone, without
 reference to any scheduling policy.
 */
module Schedules {
  import opened Sums

  datatype Process = Process(pid: int, bt: int, art: int, wt: int, tat: int, pri: int)

  const IDLE := -1
  const INT_MAX := 0x7fff_ffff

  /** Every burst is positive. */
  ghost predicate Admissible(ps: seq<Process>) {
    forall i | 0 <= i < |ps| :: ps[i].bt >= 1
  }

  ghost function Later(a: int, b: int): int { if a < b then b else a }

  /** The number of time units process i receives in s. */
  ghost function Served(s: seq<int>, i: int): nat {
    if s == [] then 0 else Served(s[..|s| - 1], i) + if s[|s| - 1] == i then 1 else 0
  }

  /** The end of the last time unit that process i receives in s. */
  ghost function Completion(s: seq<int>, i: int): nat {
    if s == [] then 0 else if s[|s| - 1] == i then |s| else Completion(s[..|s| - 1], i)
  }

  /** The burst of process i that is left after s; a burst that is not positive is none. */
  ghost function Rem(ps: seq<Process>, s: seq<int>, i: int): int {
    if 0 <= i < |ps| then Later(ps[i].bt, 0) - Served(s, i) else 0
  }

  /** Process i could run in the time unit that follows s. */
  ghost predicate Ready(ps: seq<Process>, s: seq<int>, i: int) {
    0 <= i < |ps| && ps[i].art <= |s| && Rem(ps, s, i) > 0
  }

  ghost predicate NoneReady(ps: seq<Process>, s: seq<int>) {
    forall i | 0 <= i < |ps| :: !Ready(ps, s, i)
  }

  ghost predicate AllDone(ps: seq<Process>, s: seq<int>) {
    forall i | 0 <= i < |ps| :: Rem(ps, s, i) == 0
  }

  /** A feasible preemptive schedule: nobody runs before arriving, and everybody gets exactly the burst asked for. */
  ghost predicate Feasible(ps: seq<Process>, s: seq<int>) {
    && (forall t | 0 <= t < |s| :: s[t] == IDLE || (0 <= s[t] < |ps| && ps[s[t]].art <= t))
    && AllDone(ps, s)
  }

  ghost function Waiting(ps: seq<Process>, s: seq<int>, i: int): int {
    if 0 <= i < |ps| then Completion(s, i) - ps[i].bt - ps[i].art else 0
  }

  ghost function TotalWaiting(ps: seq<Process>, s: seq<int>): int {
    Sum(|ps|, i => Waiting(ps, s, i))
  }

  ghost predicate LawfulAt(ps: seq<Process>, s: seq<int>, t: int) {
    0 <= t < |s| && (s[t] == IDLE || Ready(ps, s[..t], s[t]))
  }

  /** A schedule under construction: only ready processes have been run. */
  ghost predicate Lawful(ps: seq<Process>, s: seq<int>) {
    forall t | 0 <= t < |s| :: LawfulAt(ps, s, t)
  }

  ghost predicate ConservingAt(ps: seq<Process>, s: seq<int>, t: int) {
    0 <= t < |s| && (s[t] == IDLE ==> NoneReady(ps, s[..t]))
  }

  /** The processor idles only when no arrived process is unfinished. */
  ghost predicate WorkConserving(ps: seq<Process>, s: seq<int>) {
    forall t | 0 <= t < |s| :: ConservingAt(ps, s, t)
  }

  /** The schedule stops as soon as its last process does. */
  ghost predicate NoTrailingIdle(s: seq<int>) {
    s != [] ==> s[|s| - 1] != IDLE
  }

  // ---------------------------------------------------------------- basic facts

  lemma {:induction false} Extend(s: seq<int>, x: int)
    ensures forall i :: Served(s + [x], i) == Served(s, i) + if x == i then 1 else 0
    ensures forall i :: Completion(s + [x], i) == if x == i then |s| + 1 else Completion(s, i)
  {
    assert (s + [x])[..|s|] == s;
  }

  lemma {:induction false} ServedMonotone(s: seq<int>, t: nat, i: int)
    requires t <= |s|
    ensures Served(s[..t], i) <= Served(s, i)
    ensures t < Completion(s, i) <==> Served(s[..t], i) < Served(s, i)
    ensures Completion(s, i) <= |s|
    decreases |s|
  {
    if t == |s| {
      assert s[..t] == s;
      if s != [] { ServedMonotone(s[..|s| - 1], |s| - 1, i); }
    } else {
      var d := s[..|s| - 1];
      ServedMonotone(d, t, i);
      assert d[..t] == s[..t];
    }
  }

  lemma {:induction false} LawfulRem(ps: seq<Process>, s: seq<int>)
    requires Lawful(ps, s)
    ensures forall i :: Rem(ps, s, i) >= 0
    decreases |s|
  {
    if s != [] {
      var d := s[..|s| - 1];
      LawfulPrefix(ps, s, |s| - 1);
      LawfulRem(ps, d);
      forall i ensures Rem(ps, s, i) >= 0 {
        assert Rem(ps, d, i) >= 0;
      }
    } else {
      forall i ensures Rem(ps, s, i) >= 0 {}
    }
  }

  lemma LawfulPrefix(ps: seq<Process>, s: seq<int>, t: nat)
    requires Lawful(ps, s) && t <= |s|
    ensures Lawful(ps, s[..t])
    ensures t < |s| ==> s[t] == IDLE || Ready(ps, s[..t], s[t])
  {
    forall u | 0 <= u < t ensures LawfulAt(ps, s[..t], u) {
      assert LawfulAt(ps, s, u);
      assert s[..t][..u] == s[..u];
    }
    assert t < |s| ==> LawfulAt(ps, s, t);
  }

  lemma LawfulExtend(ps: seq<Process>, s: seq<int>, x: int)
    requires Lawful(ps, s)
    requires x == IDLE || Ready(ps, s, x)
    ensures Lawful(ps, s + [x])
  {
    forall u | 0 <= u < |s + [x]| ensures LawfulAt(ps, s + [x], u) {
      assert (s + [x])[..u] == s[..u];
      if u < |s| { assert LawfulAt(ps, s, u); } else { assert s[..u] == s; }
    }
  }

  lemma ConservingExtend(ps: seq<Process>, s: seq<int>, x: int)
    requires WorkConserving(ps, s)
    requires x == IDLE ==> NoneReady(ps, s)
    ensures WorkConserving(ps, s + [x])
  {
    forall u | 0 <= u < |s + [x]| ensures ConservingAt(ps, s + [x], u) {
      assert (s + [x])[..u] == s[..u];
      if u < |s| { assert ConservingAt(ps, s, u); } else { assert s[..u] == s; }
    }
  }

  lemma LawfulDoneIsFeasible(ps: seq<Process>, s: seq<int>)
    requires Lawful(ps, s) && AllDone(ps, s)
    ensures Feasible(ps, s)
  {
    forall t | 0 <= t < |s| ensures s[t] == IDLE || (0 <= s[t] < |ps| && ps[s[t]].art <= t) {
      LawfulPrefix(ps, s, t);
    }
  }

  lemma {:induction false} NotYetArrived(ps: seq<Process>, s: seq<int>, t: nat, i: int)
    requires Feasible(ps, s) && t <= |s|
    requires 0 <= i < |ps| && t <= ps[i].art
    ensures Served(s[..t], i) == 0
    decreases t
  {
    if t > 0 {
      NotYetArrived(ps, s, t - 1, i);
      assert s[..t][..t - 1] == s[..t - 1];
    }
  }

  /** A process with a burst is completed no earlier than its burst after its arrival, or after time zero if it arrived before. */
  lemma {:induction false} CompletionAfterArrival(ps: seq<Process>, s: seq<int>, i: int)
    requires Feasible(ps, s) && 0 <= i < |ps| && ps[i].bt >= 1
    ensures Later(ps[i].art, 0) + ps[i].bt <= Completion(s, i) <= |s|
  {
    ServedMonotone(s, 0, i);
    var c := Completion(s, i);
    ServedMonotone(s, c, i);
    assert Rem(ps, s, i) == 0;
    assert Served(s[..c], i) == Served(s, i) == ps[i].bt;
    var a := Later(ps[i].art, 0);
    if c <= a {
      ServedGap(s, 0, c, i);
      if c <= ps[i].art { NotYetArrived(ps, s, c, i); }
      assert false;
    }
    if a > 0 { NotYetArrived(ps, s, a, i); }
    ServedGap(s, a, c, i);
  }

  /** In d time units a process receives at most d units of service. */
  lemma {:induction false} ServedGap(s: seq<int>, t: nat, u: nat, i: int)
    requires t <= u <= |s|
    ensures Served(s[..u], i) - Served(s[..t], i) <= u - t
    decreases u
  {
    if t < u {
      ServedGap(s, t, u - 1, i);
      assert s[..u][..u - 1] == s[..u - 1];
    }
  }

  // ---------------------------------------------------------------- padding with idle time

  ghost function Idle(k: nat): seq<int> { seq(k, _ => IDLE) }

  lemma {:induction false} Padded(ps: seq<Process>, s: seq<int>, k: nat)
    requires Feasible(ps, s)
    ensures Feasible(ps, s + Idle(k))
    ensures TotalWaiting(ps, s + Idle(k)) == TotalWaiting(ps, s)
    decreases k
  {
    if k == 0 {
      assert s + Idle(0) == s;
    } else {
      var r := s + Idle(k - 1);
      Padded(ps, s, k - 1);
      assert s + Idle(k) == r + [IDLE];
      Extend(r, IDLE);
      forall i | 0 <= i < |ps| ensures Rem(ps, r + [IDLE], i) == 0 {
        assert Rem(ps, r, i) == 0;
      }
      SumEq(|ps|, i => Waiting(ps, r + [IDLE], i), i => Waiting(ps, r, i));
    }
  }

  // ---------------------------------------------------------------- waiting as a sum over time

  /** Process i has arrived by time t and is not finished then. */
  ghost predicate Pending(ps: seq<Process>, s: seq<int>, t: int, i: int) {
    0 <= i < |ps| && 0 <= t <= |s| && ps[i].art <= t && Rem(ps, s[..t], i) > 0
  }

  ghost function Flag(ps: seq<Process>, s: seq<int>, t: int, i: int): int {
    if Pending(ps, s, t, i) then 1 else 0
  }

  ghost function PendingAt(ps: seq<Process>, s: seq<int>, t: int): int {
    Sum(|ps|, i => Flag(ps, s, t, i))
  }

  ghost function PendingSet(ps: seq<Process>, s: seq<int>, t: int): set<int> {
    set i | 0 <= i < |ps| && Pending(ps, s, t, i)
  }

  lemma PendingCard(ps: seq<Process>, s: seq<int>, t: int)
    ensures PendingAt(ps, s, t) == |PendingSet(ps, s, t)|
  {
    SumCard(|ps|, i => Flag(ps, s, t, i), PendingSet(ps, s, t));
  }

  ghost function Burst(ps: seq<Process>, i: int): int {
    if 0 <= i < |ps| then ps[i].bt else 0
  }

  /** The time between an arrival before time zero and time zero. */
  ghost function Early(ps: seq<Process>, i: int): int {
    if 0 <= i < |ps| then Later(-ps[i].art, 0) else 0
  }

  lemma TurnaroundIsPendingTime(ps: seq<Process>, s: seq<int>, i: int)
    requires Feasible(ps, s) && Admissible(ps) && 0 <= i < |ps|
    ensures Waiting(ps, s, i) + Burst(ps, i) == Early(ps, i) + Sum(|s|, t => Flag(ps, s, t, i))
  {
    CompletionAfterArrival(ps, s, i);
    forall t | 0 <= t < |s| ensures Flag(ps, s, t, i) == if ps[i].art <= t < Completion(s, i) then 1 else 0 {
      ServedMonotone(s, t, i);
      assert Rem(ps, s, i) == 0;
    }
    SumInterval(|s|, t => Flag(ps, s, t, i), Later(ps[i].art, 0), Completion(s, i));
  }

  /** Total turnaround is the number of pending processes summed over time, plus the time waited before time zero. */
  lemma WaitingIsPendingTime(ps: seq<Process>, s: seq<int>)
    requires Feasible(ps, s) && Admissible(ps)
    ensures TotalWaiting(ps, s) + Sum(|ps|, i => Burst(ps, i))
         == Sum(|ps|, i => Early(ps, i)) + Sum(|s|, t => PendingAt(ps, s, t))
  {
    var flag := (i, t) => Flag(ps, s, t, i);
    var rows := i => Sum(|s|, t => flag(i, t));
    var wait, burst, early := i => Waiting(ps, s, i), i => Burst(ps, i), i => Early(ps, i);
    var around := i => Waiting(ps, s, i) + Burst(ps, i);
    forall i | 0 <= i < |ps| ensures around(i) == early(i) + rows(i) {
      TurnaroundIsPendingTime(ps, s, i);
      SumEq(|s|, t => Flag(ps, s, t, i), t => flag(i, t));
    }
    SumAdd(|ps|, wait, burst, around);
    SumAdd(|ps|, early, rows, around);
    SumSwap(|ps|, |s|, flag);
    var cols := t => Sum(|ps|, i => flag(i, t));
    forall t | 0 <= t < |s| ensures cols(t) == PendingAt(ps, s, t) {
      SumEq(|ps|, i => Flag(ps, s, t, i), i => flag(i, t));
    }
    SumEq(|s|, t => PendingAt(ps, s, t), cols);
  }
}
