/**
 Work-conserving schedules.  Building blocks for schedules that grow one run at a time, the measure by
 which the simulator's loops terminate, and the theorem that every work-conserving schedule of the same
 processes finishes at the same time.
 */
module Conserving {
  import opened Sums
  import opened Schedules

  /** The burst that is left over all processes. */
  ghost function Work(ps: seq<Process>, s: seq<int>): int {
    Sum(|ps|, i => Rem(ps, s, i))
  }

  /** A time by which every process has arrived. */
  ghost function Horizon(ps: seq<Process>): (h: nat)
    ensures forall i | 0 <= i < |ps| :: ps[i].art <= h
  {
    if ps == [] then 0
    else
      var h := Horizon(ps[..|ps| - 1]);
      if ps[|ps| - 1].art > h then ps[|ps| - 1].art else h
  }

  /** Work left, plus time left until the last arrival. */
  ghost function Measure(ps: seq<Process>, s: seq<int>): nat
    requires Lawful(ps, s)
  {
    LawfulRem(ps, s);
    SumZero(|ps|, i => Rem(ps, s, i));
    Work(ps, s) + if |s| < Horizon(ps) then Horizon(ps) - |s| else 0
  }

  lemma WorkZero(ps: seq<Process>, s: seq<int>)
    requires Lawful(ps, s)
    ensures Work(ps, s) >= 0
    ensures Work(ps, s) == 0 <==> AllDone(ps, s)
  {
    LawfulRem(ps, s);
    var rem := i => Rem(ps, s, i);
    SumZero(|ps|, rem);
    if Work(ps, s) == 0 {
      forall i | 0 <= i < |ps| ensures Rem(ps, s, i) == 0 { assert rem(i) == 0; }
    }
    if AllDone(ps, s) {
      forall i | 0 <= i < |ps| ensures rem(i) == 0 {}
    }
  }

  lemma WorkExtend(ps: seq<Process>, s: seq<int>, x: int)
    ensures Work(ps, s + [x]) == Work(ps, s) - if 0 <= x < |ps| then 1 else 0
  {
    Extend(s, x);
    var before, after := i => Rem(ps, s, i), i => Rem(ps, s + [x], i);
    if 0 <= x < |ps| {
      SumExceptAt(|ps|, before, after, x);
    } else {
      SumEq(|ps|, before, after);
    }
  }

  /** An idle tick taken when nobody is ready brings the next arrival closer. */
  lemma IdleTick(ps: seq<Process>, s: seq<int>)
    requires Lawful(ps, s) && NoneReady(ps, s) && !AllDone(ps, s)
    ensures Lawful(ps, s + [IDLE]) && Measure(ps, s + [IDLE]) < Measure(ps, s)
    ensures WorkConserving(ps, s) ==> WorkConserving(ps, s + [IDLE])
    ensures !AllDone(ps, s + [IDLE])
  {
    LawfulExtend(ps, s, IDLE);
    LawfulRem(ps, s);
    WorkExtend(ps, s, IDLE);
    WorkZero(ps, s);
    WorkZero(ps, s + [IDLE]);
    var i :| 0 <= i < |ps| && Rem(ps, s, i) != 0;
    assert !Ready(ps, s, i);
    if WorkConserving(ps, s) { ConservingExtend(ps, s, IDLE); }
  }

  /** d consecutive time units of process i. */
  ghost function Slice(i: int, d: nat): seq<int> { seq(d, _ => i) }

  /** Running a ready process for up to its remaining burst. */
  lemma {:induction false} RunSlice(ps: seq<Process>, s: seq<int>, i: int, d: nat)
    requires Lawful(ps, s) && Ready(ps, s, i)
    requires 1 <= d <= Rem(ps, s, i)
    ensures Lawful(ps, s + Slice(i, d)) && Measure(ps, s + Slice(i, d)) < Measure(ps, s)
    ensures WorkConserving(ps, s) ==> WorkConserving(ps, s + Slice(i, d))
    ensures forall k :: Served(s + Slice(i, d), k) == Served(s, k) + if k == i then d else 0
    ensures forall k :: Completion(s + Slice(i, d), k) == if k == i then |s| + d else Completion(s, k)
    decreases d
  {
    var r := s + Slice(i, d - 1);
    assert r + [i] == s + Slice(i, d);
    if d == 1 {
      assert r == s;
    } else {
      RunSlice(ps, s, i, d - 1);
    }
    LawfulExtend(ps, r, i);
    Extend(r, i);
    WorkExtend(ps, r, i);
    if WorkConserving(ps, s) { ConservingExtend(ps, r, i); }
  }

  // ---------------------------------------------------------------- equal finishing times

  /** Work-conserving schedules have done the same amount of work at every time. */
  lemma {:induction false} SameWork(ps: seq<Process>, s: seq<int>, r: seq<int>, t: nat)
    requires Lawful(ps, s) && Lawful(ps, r) && WorkConserving(ps, s) && WorkConserving(ps, r)
    requires t <= |s| && t <= |r|
    ensures Work(ps, s[..t]) == Work(ps, r[..t])
  {
    if t > 0 {
      var a, b := s[..t - 1], r[..t - 1];
      SameWork(ps, s, r, t - 1);
      LawfulPrefix(ps, s, t - 1);
      LawfulPrefix(ps, r, t - 1);
      assert s[..t] == a + [s[t - 1]] && r[..t] == b + [r[t - 1]];
      WorkExtend(ps, a, s[t - 1]);
      WorkExtend(ps, b, r[t - 1]);
      assert ConservingAt(ps, s, t - 1) && ConservingAt(ps, r, t - 1);
      if s[t - 1] == IDLE { IdleTogether(ps, a, b); }
      if r[t - 1] == IDLE { IdleTogether(ps, b, a); }
    }
  }

  /** If nobody is ready after s, then nobody is ready after any schedule that is as long and has done as much. */
  lemma IdleTogether(ps: seq<Process>, s: seq<int>, r: seq<int>)
    requires Lawful(ps, s) && Lawful(ps, r)
    requires |s| == |r| && Work(ps, s) == Work(ps, r) && NoneReady(ps, s)
    ensures NoneReady(ps, r)
  {
    LawfulRem(ps, s);
    LawfulRem(ps, r);
    if i :| 0 <= i < |ps| && Ready(ps, r, i) {
      assert !Ready(ps, s, i);
      var mine, theirs := k => Rem(ps, s, k), k => Rem(ps, r, k);
      var masked := k => if k == i then 0 else Rem(ps, r, k);
      forall k | 0 <= k < |ps| ensures mine(k) <= masked(k) {
        assert !Ready(ps, s, k);
        if ps[k].art > |s| {
          UnarrivedServed(ps, r, k);
          UnarrivedServed(ps, s, k);
        }
      }
      SumLe(|ps|, mine, masked);
      SumExceptAt(|ps|, theirs, masked, i);
      assert false;
    }
  }

  lemma {:induction false} UnarrivedServed(ps: seq<Process>, s: seq<int>, i: int)
    requires Lawful(ps, s) && 0 <= i < |ps| && ps[i].art >= |s|
    ensures Served(s, i) == 0
  {
    if s != [] {
      LawfulPrefix(ps, s, |s| - 1);
      UnarrivedServed(ps, s[..|s| - 1], i);
    }
  }

  /** All work-conserving schedules finish their last process at the same time. */
  lemma SameFinish(ps: seq<Process>, s: seq<int>, r: seq<int>)
    requires Lawful(ps, s) && Lawful(ps, r) && WorkConserving(ps, s) && WorkConserving(ps, r)
    requires AllDone(ps, s) && AllDone(ps, r) && NoTrailingIdle(s) && NoTrailingIdle(r)
    ensures |s| == |r|
  {
    if |s| < |r| { FinishedFirst(ps, s, r); }
    if |r| < |s| { FinishedFirst(ps, r, s); }
  }

  lemma FinishedFirst(ps: seq<Process>, s: seq<int>, r: seq<int>)
    requires Lawful(ps, s) && Lawful(ps, r) && WorkConserving(ps, s) && WorkConserving(ps, r)
    requires AllDone(ps, s) && NoTrailingIdle(r)
    ensures |r| <= |s|
  {
    if |s| < |r| {
      SameWork(ps, s, r, |s|);
      assert s[..|s|] == s;
      LawfulPrefix(ps, r, |s|);
      WorkZero(ps, s);
      WorkZero(ps, r[..|s|]);
      var x := r[|r| - 1];
      assert r[..|r| - 1][..|s|] == r[..|s|];
      assert LawfulAt(ps, r, |r| - 1);
      assert Rem(ps, r[..|s|], x) == 0;
      ServedMonotone(r[..|r| - 1], |s|, x);
      assert false;
    }
  }
}
