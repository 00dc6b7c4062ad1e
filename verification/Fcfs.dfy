/**
 First come, first served in list order, and the priority policy, which is the same loop over a list
 sorted by priority and arrival.
 */
module Fcfs {
  import opened Sums
  import opened Schedules
  import opened Conserving

  /** The schedule of the first k processes: each starts when it has arrived and the previous one is finished. */
  ghost function FcfsRun(ps: seq<Process>, k: nat): seq<int>
    requires Admissible(ps) && k <= |ps|
  {
    if k == 0 then []
    else
      var s := FcfsRun(ps, k - 1);
      var p := ps[k - 1];
      s + Idle(Later(p.art - |s|, 0)) + Slice(k - 1, p.bt)
  }

  /** When the loop is done with the first i processes; it starts at time zero. */
  ghost function End(ps: seq<Process>, i: nat): int
    requires i <= |ps|
    decreases i, 0
  {
    if i == 0 then 0 else Start(ps, i - 1) + ps[i - 1].bt
  }

  /** When process i starts: it must have arrived, and the loop must be done with the one before it. */
  ghost function Start(ps: seq<Process>, i: nat): int
    requires i < |ps|
    decreases i, 1
  {
    Later(End(ps, i), ps[i].art)
  }

  lemma {:induction false} IdleExtend(ps: seq<Process>, s: seq<int>, k: nat)
    requires Lawful(ps, s)
    ensures Lawful(ps, s + Idle(k))
    ensures forall i :: i != IDLE ==> Served(s + Idle(k), i) == Served(s, i) && Completion(s + Idle(k), i) == Completion(s, i)
  {
    if k == 0 {
      assert s + Idle(0) == s;
    } else {
      IdleExtend(ps, s, k - 1);
      var r := s + Idle(k - 1);
      assert r + [IDLE] == s + Idle(k);
      LawfulExtend(ps, r, IDLE);
      Extend(r, IDLE);
    }
  }

  lemma FcfsStep(ps: seq<Process>, k: nat)
    requires Admissible(ps) && k < |ps|
    requires Lawful(ps, FcfsRun(ps, k)) && Served(FcfsRun(ps, k), k) == 0
    ensures var s, s' := FcfsRun(ps, k), FcfsRun(ps, k + 1);
      && Lawful(ps, s') && |s'| == Later(|s|, ps[k].art) + ps[k].bt
      && (forall i | i >= 0 :: Served(s', i) == Served(s, i) + if i == k then ps[k].bt else 0)
      && (forall i | i >= 0 :: Completion(s', i) == if i == k then |s'| else Completion(s, i))
  {
    var s, p := FcfsRun(ps, k), ps[k];
    var w := s + Idle(Later(p.art - |s|, 0));
    IdleExtend(ps, s, Later(p.art - |s|, 0));
    assert Ready(ps, w, k);
    RunSlice(ps, w, k, p.bt);
    assert FcfsRun(ps, k + 1) == w + Slice(k, p.bt);
  }

  lemma {:induction false} FcfsLawful(ps: seq<Process>, k: nat)
    requires Admissible(ps) && k <= |ps|
    ensures Lawful(ps, FcfsRun(ps, k))
    ensures forall i | i >= k :: Served(FcfsRun(ps, k), i) == 0
  {
    if k > 0 {
      FcfsLawful(ps, k - 1);
      FcfsStep(ps, k - 1);
    }
  }

  lemma {:induction false} FcfsEnd(ps: seq<Process>, k: nat)
    requires Admissible(ps) && k <= |ps|
    ensures |FcfsRun(ps, k)| == End(ps, k)
  {
    if k > 0 {
      FcfsEnd(ps, k - 1);
      FcfsLawful(ps, k - 1);
      FcfsStep(ps, k - 1);
    }
  }

  lemma {:induction false} FcfsServed(ps: seq<Process>, k: nat, i: nat)
    requires Admissible(ps) && i < k <= |ps|
    ensures Served(FcfsRun(ps, k), i) == ps[i].bt
    ensures Completion(FcfsRun(ps, k), i) == Start(ps, i) + ps[i].bt
    decreases k
  {
    FcfsLawful(ps, k - 1);
    FcfsStep(ps, k - 1);
    FcfsEnd(ps, k - 1);
    if i < k - 1 { FcfsServed(ps, k - 1, i); }
  }

  /** First come, first served produces a feasible schedule, whatever the order of the list. */
  lemma FcfsIsFeasible(ps: seq<Process>)
    requires Admissible(ps)
    ensures Feasible(ps, FcfsRun(ps, |ps|))
    ensures forall i | 0 <= i < |ps| :: Waiting(ps, FcfsRun(ps, |ps|), i) == Start(ps, i) - ps[i].art
  {
    FcfsLawful(ps, |ps|);
    forall i | 0 <= i < |ps|
      ensures Rem(ps, FcfsRun(ps, |ps|), i) == 0
      ensures Waiting(ps, FcfsRun(ps, |ps|), i) == Start(ps, i) - ps[i].art
    {
      FcfsServed(ps, |ps|, i);
    }
    LawfulDoneIsFeasible(ps, FcfsRun(ps, |ps|));
  }

  // ---------------------------------------------------------------- the closed form of the start times

  /** The bursts of processes j to i - 1. */
  ghost function BurstSum(ps: seq<Process>, j: nat, i: nat): int
    requires j <= i <= |ps|
    decreases i
  {
    if i == j then 0 else BurstSum(ps, j, i - 1) + ps[i - 1].bt
  }

  /** The earliest time at which the loop could turn to process k. */
  ghost function Available(ps: seq<Process>, k: nat): int
    requires k < |ps|
  {
    if k == 0 then Later(0, ps[0].art) else ps[k].art
  }

  /** On any list, process i starts at the largest of the times art_j + bt_j + ... + bt_(i-1), for j up to i. */
  lemma {:induction false} StartClosedForm(ps: seq<Process>, i: nat) returns (j: nat)
    requires i < |ps|
    ensures forall k: nat | k <= i :: Available(ps, k) + BurstSum(ps, k, i) <= Start(ps, i)
    ensures j <= i && Start(ps, i) == Available(ps, j) + BurstSum(ps, j, i)
  {
    if i == 0 {
      j := 0;
    } else {
      j := StartClosedForm(ps, i - 1);
      forall k: nat | k <= i ensures Available(ps, k) + BurstSum(ps, k, i) <= Start(ps, i) {
        if k < i { assert Available(ps, k) + BurstSum(ps, k, i - 1) <= Start(ps, i - 1); }
      }
      if Start(ps, i) == ps[i].art { j := i; }
    }
  }

  // ---------------------------------------------------------------- the largest turnaround

  ghost predicate SortedByArrival(ps: seq<Process>) {
    forall i, j | 0 <= i < j < |ps| :: ps[i].art <= ps[j].art
  }

  ghost function Turnaround(ps: seq<Process>, s: seq<int>, i: int): int {
    if 0 <= i < |ps| then Completion(s, i) - ps[i].art else 0
  }

  /** No turnaround in s exceeds m. */
  ghost predicate TurnaroundsAtMost(ps: seq<Process>, s: seq<int>, m: int) {
    forall i | 0 <= i < |ps| :: Turnaround(ps, s, i) <= m
  }

  ghost function ServedSum(s: seq<int>, j: nat, i: nat): int
    requires j <= i
    decreases i
  {
    if i == j then 0 else ServedSum(s, j, i - 1) + Served(s, i - 1)
  }

  lemma {:induction false} ServedSumExtend(s: seq<int>, x: int, j: nat, i: nat)
    requires j <= i
    ensures ServedSum(s + [x], j, i) == ServedSum(s, j, i) + if j <= x < i then 1 else 0
    decreases i
  {
    if j < i {
      ServedSumExtend(s, x, j, i - 1);
      Extend(s, x);
    }
  }

  /** Processes that arrive no earlier than process j share only the time after its arrival. */
  lemma {:induction false} SharedTime(ps: seq<Process>, o: seq<int>, t: nat, j: nat, i: nat)
    requires Admissible(ps) && SortedByArrival(ps) && Feasible(ps, o)
    requires t <= |o| && j < i <= |ps|
    ensures ServedSum(o[..t], j, i) <= Later(t - Later(ps[j].art, 0), 0)
    decreases t
  {
    if t == 0 {
      ServedSumEmpty(j, i);
      assert o[..t] == [];
    } else {
      SharedTime(ps, o, t - 1, j, i);
      assert o[..t] == o[..t - 1] + [o[t - 1]];
      ServedSumExtend(o[..t - 1], o[t - 1], j, i);
    }
  }

  lemma {:induction false} ServedSumEmpty(j: nat, i: nat)
    requires j <= i
    ensures ServedSum([], j, i) == 0
    decreases i
  {
    if j < i { ServedSumEmpty(j, i - 1); }
  }

  /** If each of the processes j to i - 1 is finished after s, they have had all their bursts. */
  lemma {:induction false} FinishedSum(ps: seq<Process>, o: seq<int>, t: nat, j: nat, i: nat)
    requires Admissible(ps) && Feasible(ps, o) && t <= |o| && j <= i <= |ps|
    requires forall k | j <= k < i :: Completion(o, k) <= t
    ensures ServedSum(o[..t], j, i) == BurstSum(ps, j, i)
    decreases i
  {
    if j < i {
      FinishedSum(ps, o, t, j, i - 1);
      ServedMonotone(o, t, i - 1);
      assert Rem(ps, o, i - 1) == 0;
    }
  }

  /** For a list sorted by arrival, some process in any other schedule turns around no faster than process i does here. */
  lemma SlowerSomewhere(ps: seq<Process>, o: seq<int>, i: nat) returns (k: nat)
    requires Admissible(ps) && SortedByArrival(ps) && Feasible(ps, o) && i < |ps|
    ensures k <= i && Turnaround(ps, o, k) >= Turnaround(ps, FcfsRun(ps, |ps|), i)
  {
    var j := StartClosedForm(ps, i);
    FcfsServed(ps, |ps|, i);
    var c := Later(ps[j].art, 0) + BurstSum(ps, j, i + 1);
    CompletionAfterArrival(ps, o, i);
    if forall l | j <= l < i + 1 :: Completion(o, l) < c {
      var t := if c - 1 <= |o| then c - 1 else |o|;
      forall l | j <= l < i + 1 ensures Completion(o, l) <= t {
        CompletionAfterArrival(ps, o, l);
      }
      FinishedSum(ps, o, t, j, i + 1);
      SharedTime(ps, o, t, j, i + 1);
      assert false;
    }
    k :| j <= k < i + 1 && Completion(o, k) >= c;
  }

  /** On a list sorted by arrival no feasible schedule has a smaller largest turnaround. */
  lemma FcfsMinimizesMaximum(ps: seq<Process>, o: seq<int>, m: int)
    requires Admissible(ps) && SortedByArrival(ps) && Feasible(ps, o)
    requires TurnaroundsAtMost(ps, o, m)
    ensures TurnaroundsAtMost(ps, FcfsRun(ps, |ps|), m)
  {
    forall i | 0 <= i < |ps| ensures Turnaround(ps, FcfsRun(ps, |ps|), i) <= m {
      var k := SlowerSomewhere(ps, o, i);
    }
  }

  // ---------------------------------------------------------------- the same processes in another order

  /** qs lists the processes of ps in the order p; v is the inverse of p. */
  ghost predicate Rearranges(ps: seq<Process>, qs: seq<Process>, p: seq<int>, v: seq<int>) {
    && |qs| == |ps| && Bijection(|ps|, p, v)
    && forall i | 0 <= i < |ps| :: qs[i] == ps[p[i]]
  }

  /** A schedule of qs, read as a schedule of ps. */
  ghost function Renamed(o: seq<int>, p: seq<int>): (r: seq<int>)
    ensures |r| == |o|
  {
    seq(|o|, t requires 0 <= t < |o| => if 0 <= o[t] < |p| then p[o[t]] else IDLE)
  }

  lemma {:induction false} RenamedServed(n: nat, o: seq<int>, p: seq<int>, v: seq<int>, i: int)
    requires Bijection(n, p, v) && 0 <= i < n
    ensures Served(Renamed(o, p), p[i]) == Served(o, i)
    ensures Completion(Renamed(o, p), p[i]) == Completion(o, i)
  {
    if o != [] {
      var d := o[..|o| - 1];
      RenamedServed(n, d, p, v, i);
      assert Renamed(o, p)[..|o| - 1] == Renamed(d, p);
    }
  }

  lemma RearrangedSchedule(ps: seq<Process>, qs: seq<Process>, p: seq<int>, v: seq<int>, o: seq<int>)
    requires Rearranges(ps, qs, p, v) && Feasible(qs, o)
    ensures Feasible(ps, Renamed(o, p))
    ensures TotalWaiting(ps, Renamed(o, p)) == TotalWaiting(qs, o)
  {
    var r := Renamed(o, p);
    forall j | 0 <= j < |ps| ensures Rem(ps, r, j) == 0 {
      RenamedServed(|ps|, o, p, v, v[j]);
      assert Rem(qs, o, v[j]) == 0;
    }
    var wait := j => Waiting(ps, r, j);
    SumRearranged(|ps|, wait, p, v);
    forall i | 0 <= i < |qs| ensures Waiting(qs, o, i) == wait(p[i]) {
      RenamedServed(|ps|, o, p, v, i);
    }
    SumEq(|qs|, i => Waiting(qs, o, i), i => if 0 <= i < |p| then wait(p[i]) else 0);
  }

  // ---------------------------------------------------------------- priority order

  /** The comparator: negative when a comes first, zero when neither does. */
  function Compare(a: Process, b: Process): int {
    if a.pri != b.pri then b.pri - a.pri else a.art - b.art
  }

  predicate SortedByPriority(ps: seq<Process>) {
    forall i, j | 0 <= i < j < |ps| :: Compare(ps[i], ps[j]) <= 0
  }

  /** Sorted by the comparator means: larger priority first, and among equal priorities earlier arrival first. */
  lemma ComparatorOrder(a: Process, b: Process, c: Process)
    ensures Compare(a, b) <= 0 <==> (a.pri > b.pri || (a.pri == b.pri && a.art <= b.art))
    ensures Compare(a, b) <= 0 && Compare(b, c) <= 0 ==> Compare(a, c) <= 0
    ensures Compare(a, b) <= 0 || Compare(b, a) <= 0
  {
  }
}
