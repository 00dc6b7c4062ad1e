/**
 Preemptive shortest-job-first (shortest remaining time first) is optimal: a schedule that follows the policy is compared
 with any feasible schedule, tick by tick.
 */
module Srtf {
  import opened Sums
  import opened Schedules

  /** x is what the policy runs after s: the first of the ready processes with the least burst left. */
  ghost predicate SrtfChoice(ps: seq<Process>, s: seq<int>, x: int) {
    if x == IDLE then
      NoneReady(ps, s)
    else
      && Ready(ps, s, x)
      && (forall j | 0 <= j < |ps| && Ready(ps, s, j) ::
            Rem(ps, s, x) < Rem(ps, s, j) || (Rem(ps, s, x) == Rem(ps, s, j) && x <= j))
  }

  ghost predicate SrtfAt(ps: seq<Process>, s: seq<int>, t: int) {
    0 <= t < |s| && SrtfChoice(ps, s[..t], s[t])
  }

  ghost predicate FollowsSrtf(ps: seq<Process>, s: seq<int>) {
    forall t | 0 <= t < |s| :: SrtfAt(ps, s, t)
  }

  /** The complete run of the policy: it stops when the last process does. */
  ghost predicate IsSrtf(ps: seq<Process>, s: seq<int>) {
    FollowsSrtf(ps, s) && AllDone(ps, s) && NoTrailingIdle(s)
  }

  lemma SrtfExtend(ps: seq<Process>, s: seq<int>, x: int)
    requires FollowsSrtf(ps, s) && SrtfChoice(ps, s, x)
    ensures FollowsSrtf(ps, s + [x])
  {
    forall u | 0 <= u < |s + [x]| ensures SrtfAt(ps, s + [x], u) {
      assert (s + [x])[..u] == s[..u];
      if u < |s| { assert SrtfAt(ps, s, u); } else { assert s[..u] == s; }
    }
  }

  /** The policy runs only ready processes, and idles only when there is none. */
  lemma SrtfIsLawful(ps: seq<Process>, s: seq<int>)
    requires FollowsSrtf(ps, s)
    ensures Lawful(ps, s) && WorkConserving(ps, s)
  {
    forall t | 0 <= t < |s| ensures LawfulAt(ps, s, t) && ConservingAt(ps, s, t) {
      assert SrtfAt(ps, s, t);
    }
  }

  /** The policy is deterministic: two runs agree for as long as both last. */
  lemma {:induction false} SrtfUnique(ps: seq<Process>, s: seq<int>, r: seq<int>, t: nat)
    requires FollowsSrtf(ps, s) && FollowsSrtf(ps, r)
    requires t <= |s| && t <= |r|
    ensures s[..t] == r[..t]
  {
    if t > 0 {
      SrtfUnique(ps, s, r, t - 1);
      assert SrtfAt(ps, s, t - 1) && SrtfAt(ps, r, t - 1);
      assert s[..t] == s[..t - 1] + [s[t - 1]];
    }
  }

  // ---------------------------------------------------------------- work left after setting processes aside
  //
  // The comparison: at every time, whatever set S of processes is set aside in the other schedule o, there is a set S' of no
  // more processes that, set aside in the policy's schedule s, leaves no more work than S leaves in o.

  ghost function LeftOf(ps: seq<Process>, s: seq<int>, now: int, S: set<int>, i: int): int {
    if 0 <= i < |ps| && ps[i].art <= now && i !in S then Rem(ps, s, i) else 0
  }

  /** The work left after s among the processes that have arrived by now, when those in S are set aside. */
  ghost function Left(ps: seq<Process>, s: seq<int>, now: int, S: set<int>): int {
    Sum(|ps|, i => LeftOf(ps, s, now, S, i))
  }

  /** One tick lowers the work left by at most one, in any schedule. */
  lemma LeftDropsAtMostOne(ps: seq<Process>, s: seq<int>, x: int, now: int, S: set<int>)
    ensures Left(ps, s + [x], now, S) >= Left(ps, s, now, S) - 1
  {
    Extend(s, x);
    var before, after := i => LeftOf(ps, s, now, S, i), i => LeftOf(ps, s + [x], now, S, i);
    if 0 <= x < |ps| {
      SumExceptAt(|ps|, before, after, x);
    } else {
      SumEq(|ps|, before, after);
    }
  }

  /** Setting aside j in place of x, which has no more work left, leaves no more work. */
  lemma Exchange(ps: seq<Process>, s: seq<int>, now: int, S: set<int>, x: int, j: int)
    requires 0 <= x < |ps| && 0 <= j < |ps| && x in S && j !in S
    requires ps[x].art <= now && ps[j].art <= now && Rem(ps, s, x) <= Rem(ps, s, j)
    ensures |S - {x} + {j}| == |S|
    ensures Left(ps, s, now, S - {x} + {j}) <= Left(ps, s, now, S)
  {
    var before := i => LeftOf(ps, s, now, S, i);
    var aside := i => LeftOf(ps, s, now, S - {x} + {j}, i);
    var without := i => LeftOf(ps, s, now, S + {j}, i);
    SumExceptAt(|ps|, before, without, j);
    SumExceptAt(|ps|, aside, without, x);
  }

  /** Running a process that is not set aside lowers the work left by one. */
  lemma LeftDrops(ps: seq<Process>, s: seq<int>, x: int, now: int, S: set<int>)
    requires 0 <= x < |ps| && ps[x].art <= now && x !in S
    ensures Left(ps, s + [x], now, S) == Left(ps, s, now, S) - 1
  {
    Extend(s, x);
    SumExceptAt(|ps|, i => LeftOf(ps, s, now, S, i), i => LeftOf(ps, s + [x], now, S, i), x);
  }

  /** If everything ready is set aside, nothing is left. */
  lemma NothingLeft(ps: seq<Process>, s: seq<int>, x: int, S: set<int>)
    requires Lawful(ps, s) && Admissible(ps)
    requires forall j | 0 <= j < |ps| && Ready(ps, s, j) :: j in S
    ensures Left(ps, s + [x], |s|, S) <= 0
  {
    LawfulRem(ps, s);
    Extend(s, x);
    forall i | 0 <= i < |ps| ensures LeftOf(ps, s + [x], |s|, S, i) <= 0 {
      assert !Ready(ps, s, i) || i in S;
    }
    SumLe(|ps|, i => LeftOf(ps, s + [x], |s|, S, i), i => 0);
    SumConst(|ps|, i => 0);
  }

  /** A tick of the policy, for a suitable choice of the set aside, lowers the work left by one unless it is zero. */
  lemma PolicyTick(ps: seq<Process>, s: seq<int>, x: int, S: set<int>) returns (S': set<int>)
    requires SrtfChoice(ps, s, x) && Lawful(ps, s) && Admissible(ps)
    ensures |S'| <= |S|
    ensures Left(ps, s + [x], |s|, S') <= Left(ps, s, |s|, S) - 1 || Left(ps, s + [x], |s|, S') <= 0
  {
    S' := S;
    if j :| 0 <= j < |ps| && Ready(ps, s, j) && j !in S {
      assert x != IDLE;
      if x in S {
        S' := S - {x} + {j};
        Exchange(ps, s, |s|, S, x, j);
      }
      LeftDrops(ps, s, x, |s|, S');
    } else {
      NothingLeft(ps, s, x, S);
    }
  }

  /** The arrivals of time t add the same work to both schedules. */
  lemma Arrivals(ps: seq<Process>, s: seq<int>, t: nat, S: set<int>, R: set<int>, B: set<int>)
    requires Admissible(ps) && Feasible(ps, s) && 0 < t <= |s|
    requires B == set i | 0 <= i < |ps| && ps[i].art == t
    requires forall i | 0 <= i < |ps| && i !in B :: i in R <==> i in S
    ensures Left(ps, s[..t], t, S)
         == Left(ps, s[..t], t - 1, R) + Sum(|ps|, i => if i in B && i !in S then Burst(ps, i) else 0)
  {
    var arriving := i => if i in B && i !in S then Burst(ps, i) else 0;
    var before := i => LeftOf(ps, s[..t], t - 1, R, i);
    var after := i => LeftOf(ps, s[..t], t, S, i);
    forall i | 0 <= i < |ps| ensures after(i) == before(i) + arriving(i) {
      if i in B { NotYetArrived(ps, s, t, i); }
    }
    SumAdd(|ps|, before, arriving, after);
  }

  /** At every time the policy is at least as far ahead as any other schedule. */
  lemma {:induction false} Dominance(ps: seq<Process>, s: seq<int>, o: seq<int>, t: nat, S: set<int>) returns (S': set<int>)
    requires Admissible(ps) && Feasible(ps, s) && Feasible(ps, o) && FollowsSrtf(ps, s)
    requires t <= |s| == |o|
    ensures |S'| <= |S|
    ensures Left(ps, s[..t], t, S') <= Left(ps, o[..t], t, S)
    decreases t
  {
    if t == 0 {
      S' := S;
    } else {
      var u := t - 1;
      var B := set i | 0 <= i < |ps| && ps[i].art == t;
      var R := S - B;
      var Q := Dominance(ps, s, o, u, R);
      assert s[..t] == s[..u] + [s[u]] && o[..t] == o[..u] + [o[u]];
      assert SrtfAt(ps, s, u);
      SrtfIsLawful(ps, s);
      LawfulPrefix(ps, s, u);
      var P := PolicyTick(ps, s[..u], s[u], Q);
      LeftDropsAtMostOne(ps, o[..u], o[u], u, R);
      FeasibleLeft(ps, o, t, u, R);
      assert Left(ps, s[..t], u, P) <= Left(ps, o[..t], u, R);
      S' := (P - B) + (S * B);
      assert |S'| <= |P - B| + |S * B| <= |P| + |S * B|;
      assert |R| + |S * B| == |S|;
      Arrivals(ps, s, t, S', P, B);
      Arrivals(ps, o, t, S, R, B);
      SumEq(|ps|, i => if i in B && i !in S' then Burst(ps, i) else 0,
                  i => if i in B && i !in S then Burst(ps, i) else 0);
    }
  }

  lemma FeasibleLeft(ps: seq<Process>, s: seq<int>, t: nat, now: int, S: set<int>)
    requires Feasible(ps, s) && t <= |s|
    ensures forall i :: LeftOf(ps, s[..t], now, S, i) >= 0
    ensures Left(ps, s[..t], now, S) >= 0
  {
    forall i ensures LeftOf(ps, s[..t], now, S, i) >= 0 {
      ServedMonotone(s, t, i);
      assert 0 <= i < |ps| ==> Rem(ps, s, i) == 0;
    }
    SumZero(|ps|, i => LeftOf(ps, s[..t], now, S, i));
  }

  /** At every time the policy has no more unfinished processes than any other schedule. */
  lemma FewestPending(ps: seq<Process>, s: seq<int>, o: seq<int>, t: nat)
    requires Admissible(ps) && Feasible(ps, s) && Feasible(ps, o) && FollowsSrtf(ps, s)
    requires t <= |s| == |o|
    ensures PendingAt(ps, s, t) <= PendingAt(ps, o, t)
  {
    var S := PendingSet(ps, o, t);
    var S' := Dominance(ps, s, o, t, S);
    PendingCard(ps, s, t);
    PendingCard(ps, o, t);
    FeasibleLeft(ps, s, t, t, S');
    FeasibleLeft(ps, o, t, t, S);
    var mine, theirs := i => LeftOf(ps, s[..t], t, S', i), i => LeftOf(ps, o[..t], t, S, i);
    SumZero(|ps|, theirs);
    assert forall i | 0 <= i < |ps| :: theirs(i) == 0;
    SumZero(|ps|, mine);
    forall i | i in PendingSet(ps, s, t) ensures i in S' {
      assert mine(i) == 0;
    }
    SubsetCard(PendingSet(ps, s, t), S');
  }

  lemma {:induction false} SubsetCard(A: set<int>, B: set<int>)
    requires A <= B
    ensures |A| <= |B|
  {
    assert B == A + (B - A);
  }

  lemma {:induction false} SrtfPadded(ps: seq<Process>, s: seq<int>, k: nat)
    requires FollowsSrtf(ps, s) && AllDone(ps, s)
    ensures FollowsSrtf(ps, s + Idle(k)) && AllDone(ps, s + Idle(k))
  {
    if k == 0 {
      assert s + Idle(0) == s;
    } else {
      var r := s + Idle(k - 1);
      SrtfPadded(ps, s, k - 1);
      Extend(r, IDLE);
      assert r + [IDLE] == s + Idle(k);
      SrtfExtend(ps, r, IDLE);
      forall i | 0 <= i < |ps| ensures Rem(ps, s + Idle(k), i) == 0 {
        assert Rem(ps, r, i) == 0;
      }
    }
  }

  /** The total waiting time under the policy is at most that of every feasible preemptive schedule. */
  lemma SrtfOptimal(ps: seq<Process>, s: seq<int>, o: seq<int>)
    requires Admissible(ps) && FollowsSrtf(ps, s) && AllDone(ps, s) && Feasible(ps, o)
    ensures TotalWaiting(ps, s) <= TotalWaiting(ps, o)
  {
    SrtfIsLawful(ps, s);
    LawfulDoneIsFeasible(ps, s);
    var s', o' := s + Idle(|o|), o + Idle(|s|);
    Padded(ps, s, |o|);
    Padded(ps, o, |s|);
    SrtfPadded(ps, s, |o|);
    WaitingIsPendingTime(ps, s');
    WaitingIsPendingTime(ps, o');
    forall t | 0 <= t < |s'| ensures PendingAt(ps, s', t) <= PendingAt(ps, o', t) {
      FewestPending(ps, s', o', t);
    }
    SumLe(|s'|, t => PendingAt(ps, s', t), t => PendingAt(ps, o', t));
  }
}
