/**
 Round Robin as cyclic dispatch: whoever is ready and comes first in cyclic order after the last process
 served gets up to one quantum; when nobody is ready one time unit passes and the order starts over.
 */
module RoundRobin {
  import opened Sums
  import opened Schedules
  import opened Conserving

  /** The first ready process at or after position pos, or the number of processes if there is none. */
  ghost function FirstReady(ps: seq<Process>, s: seq<int>, pos: nat): (i: int)
    requires pos <= |ps|
    ensures pos <= i <= |ps| && (i < |ps| ==> Ready(ps, s, i))
    ensures forall j | pos <= j < i :: !Ready(ps, s, j)
    decreases |ps| - pos
  {
    if pos == |ps| || Ready(ps, s, pos) then pos else FirstReady(ps, s, pos + 1)
  }

  ghost function CyclicNext(ps: seq<Process>, s: seq<int>, pos: nat): int
    requires pos <= |ps|
  {
    var i := FirstReady(ps, s, pos);
    if i < |ps| then i else FirstReady(ps, s, 0)
  }

  lemma NextIsReady(ps: seq<Process>, s: seq<int>, pos: nat)
    requires pos <= |ps| && !NoneReady(ps, s)
    ensures Ready(ps, s, CyclicNext(ps, s, pos))
  {
  }

  ghost function Share(ps: seq<Process>, q: int, s: seq<int>, i: int): (d: int)
    requires q >= 1 && Ready(ps, s, i)
    ensures 1 <= d <= Rem(ps, s, i) && d <= q
  {
    if Rem(ps, s, i) > q then q else Rem(ps, s, i)
  }

  /** The schedule that Round Robin reaches from s, when position pos is the next to be served. */
  ghost function RunFrom(ps: seq<Process>, q: int, s: seq<int>, pos: nat): seq<int>
    requires Lawful(ps, s) && q >= 1 && pos <= |ps|
    decreases Measure(ps, s)
  {
    if AllDone(ps, s) then s
    else if NoneReady(ps, s) then
      IdleTick(ps, s);
      RunFrom(ps, q, s + [IDLE], 0)
    else
      NextIsReady(ps, s, pos);
      var i := CyclicNext(ps, s, pos);
      var d := Share(ps, q, s, i);
      RunSlice(ps, s, i, d);
      RunFrom(ps, q, s + Slice(i, d), i + 1)
  }

  ghost function RoundRobinRun(ps: seq<Process>, q: int): seq<int>
    requires q >= 1
  {
    RunFrom(ps, q, [], 0)
  }

  lemma {:induction false} RunFromIsConserving(ps: seq<Process>, q: int, s: seq<int>, pos: nat)
    requires Lawful(ps, s) && q >= 1 && pos <= |ps|
    requires WorkConserving(ps, s) && (NoTrailingIdle(s) || !AllDone(ps, s))
    ensures var r := RunFrom(ps, q, s, pos);
      Lawful(ps, r) && AllDone(ps, r) && WorkConserving(ps, r) && NoTrailingIdle(r)
    decreases Measure(ps, s)
  {
    if AllDone(ps, s) {
    } else if NoneReady(ps, s) {
      IdleTick(ps, s);
      RunFromIsConserving(ps, q, s + [IDLE], 0);
    } else {
      NextIsReady(ps, s, pos);
      var i := CyclicNext(ps, s, pos);
      var d := Share(ps, q, s, i);
      RunSlice(ps, s, i, d);
      RunFromIsConserving(ps, q, s + Slice(i, d), i + 1);
    }
  }

  /** Round Robin produces a feasible, work-conserving schedule, whatever the quantum. */
  lemma RoundRobinIsConserving(ps: seq<Process>, q: int)
    requires q >= 1
    ensures var r := RoundRobinRun(ps, q);
      Feasible(ps, r) && Lawful(ps, r) && AllDone(ps, r) && WorkConserving(ps, r) && NoTrailingIdle(r)
  {
    RunFromIsConserving(ps, q, [], 0);
    LawfulDoneIsFeasible(ps, RoundRobinRun(ps, q));
  }

  // ---------------------------------------------------------------- the wait bound

  /** How many positions have been passed since position k was, when pos is next. */
  ghost function Gap(n: int, k: int, pos: int): int {
    if pos > k then pos - k - 1 else n - 1 - k + pos
  }

  ghost function CeilDiv(a: int, q: int): int
    requires q >= 1
  {
    (a + q - 1) / q
  }

  /** Process k, having had m full quanta, has waited no longer than its place in the cycle explains. */
  ghost predicate Bounded(ps: seq<Process>, q: int, s: seq<int>, pos: int, k: int, m: int)
    requires 0 <= k < |ps|
  {
    && m >= 0 && Served(s, k) == q * m
    && (ps[k].art <= |s| ==> |s| - Later(ps[k].art, 0) - Served(s, k) <= q * ((|ps| - 1) * m + Gap(|ps|, k, pos)))
  }

  ghost predicate FairTo(ps: seq<Process>, q: int, s: seq<int>, pos: int, k: int)
    requires q >= 1 && 0 <= k < |ps|
  {
    if ps[k].bt <= 0 then true
    else if Rem(ps, s, k) > 0 then exists m :: Bounded(ps, q, s, pos, k, m)
    else Waiting(ps, s, k) - Early(ps, k) <= q * ((|ps| - 1) * CeilDiv(ps[k].bt, q))
  }

  ghost predicate Fair(ps: seq<Process>, q: int, s: seq<int>, pos: int)
    requires q >= 1
  {
    forall k | 0 <= k < |ps| :: FairTo(ps, q, s, pos, k)
  }

  lemma MulLe(q: int, a: int, b: int)
    requires q >= 0 && a <= b
    ensures q * a <= q * b
  {
  }

  lemma MulUp(q: int, a: int, c: int)
    ensures q * (a + c) == q * a + q * c
  {
  }

  lemma CeilOfPartial(b: int, q: int, m: int)
    requires q >= 1 && q * m < b <= q * m + q
    ensures CeilDiv(b, q) == m + 1
  {
    var r := b + q - 1 - q * (m + 1);
    assert 0 <= r < q;
    assert b + q - 1 == q * (m + 1) + r;
    DivUnique(b + q - 1, q, m + 1, r);
  }

  lemma DivUnique(a: int, q: int, c: int, r: int)
    requires q >= 1 && a == q * c + r && 0 <= r < q
    ensures a / q == c
  {
    var d := a / q - c;
    assert a == q * (a / q) + a % q;
    assert q * d == r - a % q by { MulUp(q, c, d); }
    if d >= 1 { MulLe(q, 1, d); }
    if d <= -1 { MulLe(q, d, -1); }
  }

  /** Serving process i moves every other ready process one place up. */
  lemma GapGrows(ps: seq<Process>, s: seq<int>, pos: nat, k: int)
    requires pos <= |ps| && Ready(ps, s, k) && k != CyclicNext(ps, s, pos)
    ensures Gap(|ps|, k, CyclicNext(ps, s, pos) + 1) >= Gap(|ps|, k, pos) + 1
  {
  }

  /** A slice keeps the bound for the processes that are not running. */
  lemma SliceOthers(ps: seq<Process>, q: int, s: seq<int>, pos: nat, k: int, m: int)
    requires Lawful(ps, s) && q >= 1 && pos <= |ps| && !NoneReady(ps, s)
    requires 0 <= k < |ps| && k != CyclicNext(ps, s, pos) && Rem(ps, s, k) > 0
    requires Bounded(ps, q, s, pos, k, m)
    ensures var i := CyclicNext(ps, s, pos);
      Ready(ps, s, i) && Bounded(ps, q, s + Slice(i, Share(ps, q, s, i)), i + 1, k, m)
  {
    NextIsReady(ps, s, pos);
    var i := CyclicNext(ps, s, pos);
    var d := Share(ps, q, s, i);
    RunSlice(ps, s, i, d);
    var n, before, after := |ps|, Gap(|ps|, k, pos), Gap(|ps|, k, i + 1);
    if ps[k].art <= |s| {
      GapGrows(ps, s, pos, k);
      MulUp(q, (n - 1) * m + before, 1);
      MulLe(q, (n - 1) * m + before + 1, (n - 1) * m + after);
    } else {
      UnarrivedServed(ps, s, k);
      assert m == 0 by { if m >= 1 { MulLe(q, 1, m); } }
      assert (n - 1) * m == 0;
      MulLe(q, 1, after);
    }
  }

  /** A slice keeps the bound for the process that runs. */
  lemma SliceSelf(ps: seq<Process>, q: int, s: seq<int>, pos: nat, m: int)
    requires Lawful(ps, s) && q >= 1 && pos <= |ps| && !NoneReady(ps, s)
    requires Ready(ps, s, CyclicNext(ps, s, pos))
    requires Bounded(ps, q, s, pos, CyclicNext(ps, s, pos), m)
    ensures var i := CyclicNext(ps, s, pos);
      var s' := s + Slice(i, Share(ps, q, s, i));
      if Rem(ps, s', i) > 0 then Bounded(ps, q, s', i + 1, i, m + 1)
      else Rem(ps, s', i) == 0 && Waiting(ps, s', i) - Early(ps, i) <= q * ((|ps| - 1) * CeilDiv(ps[i].bt, q))
  {
    var i, n := CyclicNext(ps, s, pos), |ps|;
    var d := Share(ps, q, s, i);
    RunSlice(ps, s, i, d);
    MulUp(q, m, 1);
    MulUp(n - 1, m, 1);
    MulLe(q, (n - 1) * m + Gap(n, i, pos), (n - 1) * (m + 1));
    if Rem(ps, s, i) <= q {
      CeilOfPartial(ps[i].bt, q, m);
    }
  }

  lemma SliceIsFair(ps: seq<Process>, q: int, s: seq<int>, pos: nat)
    requires Lawful(ps, s) && q >= 1 && pos <= |ps| && !NoneReady(ps, s)
    requires Fair(ps, q, s, pos)
    ensures var i := CyclicNext(ps, s, pos);
      Ready(ps, s, i) && Fair(ps, q, s + Slice(i, Share(ps, q, s, i)), i + 1)
  {
    NextIsReady(ps, s, pos);
    var i := CyclicNext(ps, s, pos);
    var d := Share(ps, q, s, i);
    var s' := s + Slice(i, d);
    RunSlice(ps, s, i, d);
    var next := i + 1;
    forall k | 0 <= k < |ps| ensures FairTo(ps, q, s', next, k) {
      assert FairTo(ps, q, s, pos, k);
      if Rem(ps, s, k) > 0 {
        var m :| Bounded(ps, q, s, pos, k, m);
        if k == i { SliceSelf(ps, q, s, pos, m); } else { SliceOthers(ps, q, s, pos, k, m); }
      }
    }
  }

  lemma IdleIsFair(ps: seq<Process>, q: int, s: seq<int>, pos: nat)
    requires Lawful(ps, s) && q >= 1 && pos <= |ps| && NoneReady(ps, s)
    requires Fair(ps, q, s, pos)
    ensures Fair(ps, q, s + [IDLE], 0)
  {
    var s' := s + [IDLE];
    Extend(s, IDLE);
    forall k | 0 <= k < |ps| ensures FairTo(ps, q, s', 0, k) {
      assert FairTo(ps, q, s, pos, k);
      assert !Ready(ps, s, k);
      if Rem(ps, s, k) > 0 {
        UnarrivedServed(ps, s, k);
        MulLe(q, 0, Gap(|ps|, k, 0));
        assert (|ps| - 1) * 0 == 0;
        assert Bounded(ps, q, s', 0, k, 0);
      }
    }
  }

  lemma {:induction false} RunFromIsFair(ps: seq<Process>, q: int, s: seq<int>, pos: nat) returns (last: int)
    requires Lawful(ps, s) && q >= 1 && pos <= |ps|
    requires Fair(ps, q, s, pos)
    ensures Fair(ps, q, RunFrom(ps, q, s, pos), last)
    decreases Measure(ps, s)
  {
    if AllDone(ps, s) {
      last := pos;
    } else if NoneReady(ps, s) {
      IdleTick(ps, s);
      IdleIsFair(ps, q, s, pos);
      last := RunFromIsFair(ps, q, s + [IDLE], 0);
    } else {
      SliceIsFair(ps, q, s, pos);
      var i := CyclicNext(ps, s, pos);
      var d := Share(ps, q, s, i);
      RunSlice(ps, s, i, d);
      last := RunFromIsFair(ps, q, s + Slice(i, d), i + 1);
    }
  }

  lemma FairAtStart(ps: seq<Process>, q: int)
    requires q >= 1
    ensures Fair(ps, q, [], 0)
  {
    forall k | 0 <= k < |ps| ensures FairTo(ps, q, [], 0, k) {
      MulLe(q, 0, Gap(|ps|, k, 0));
      assert (|ps| - 1) * 0 == 0;
      assert Bounded(ps, q, [], 0, k, 0);
    }
  }

  /** With n processes and quantum q nobody who has a burst waits longer, from time zero on, than n - 1 quanta for each of its own slices. */
  lemma WaitBound(ps: seq<Process>, q: int, k: int)
    requires q >= 1 && 0 <= k < |ps| && ps[k].bt >= 1
    ensures 0 <= Waiting(ps, RoundRobinRun(ps, q), k) - Early(ps, k) <= q * ((|ps| - 1) * CeilDiv(ps[k].bt, q))
  {
    FairAtStart(ps, q);
    var last := RunFromIsFair(ps, q, [], 0);
    var s := RoundRobinRun(ps, q);
    assert FairTo(ps, q, s, last, k);
    RoundRobinIsConserving(ps, q);
    assert Rem(ps, s, k) == 0;
    CompletionAfterArrival(ps, s, k);
  }
}
