/** The simulator's loops, over an array of process records that they update in place.  Each loop is proved to leave exactly
    the waiting times of the schedule its policy stands for; a comparison of the four policies follows. */
module SchedSim {
  import opened Sums
  import opened Schedules
  import opened Conserving
  import opened Srtf
  import opened SjfLoop
  import opened RoundRobin
  import opened Dispatch
  import opened Fcfs

  /** The records of ps with the waiting times of schedule s filled in; a process without a burst keeps what it has. */
  ghost predicate HasWaits(plist: seq<Process>, ps: seq<Process>, s: seq<int>) {
    && |plist| == |ps|
    && forall i | 0 <= i < |ps| :: plist[i] == if ps[i].bt <= 0 then ps[i] else ps[i].(wt := Waiting(ps, s, i))
  }

  /** While a loop runs: rem holds the burst left, only the waiting time has changed, and it is final once the process is finished. */
  ghost predicate SimulatesAt(plist: seq<Process>, rem: seq<int>, ps: seq<Process>, s: seq<int>, i: int) {
    && 0 <= i < |ps| == |rem| == |plist|
    && rem[i] == (if ps[i].bt < 0 then ps[i].bt else Rem(ps, s, i))
    && plist[i] == ps[i].(wt := plist[i].wt)
    && (rem[i] <= 0 ==> plist[i].wt == if ps[i].bt <= 0 then ps[i].wt else Waiting(ps, s, i))
  }

  /** The loop's variables describe the schedule s that it has produced so far. */
  ghost predicate Simulates(plist: seq<Process>, rem: seq<int>, t: int, ps: seq<Process>, s: seq<int>) {
    && Lawful(ps, s) && t == |s| && |rem| == |plist| == |ps|
    && forall i | 0 <= i < |ps| :: SimulatesAt(plist, rem, ps, s, i)
  }

  /** Running process i for d units: the updates of rem and, on completion, of its waiting time. */
  lemma SimulateSlice(plist: seq<Process>, rem: seq<int>, t: int, ps: seq<Process>, s: seq<int>, i: int, d: int)
    requires Simulates(plist, rem, t, ps, s)
    requires Ready(ps, s, i) && 1 <= d <= rem[i]
    ensures Rem(ps, s, i) == rem[i] && plist[i].bt == ps[i].bt && plist[i].art == ps[i].art
    ensures Lawful(ps, s + Slice(i, d)) && Measure(ps, s + Slice(i, d)) < Measure(ps, s)
    ensures var done := plist[i := plist[i].(wt := t + d - plist[i].bt - plist[i].art)];
      Simulates(if d < rem[i] then plist else done, rem[i := rem[i] - d], t + d, ps, s + Slice(i, d))
  {
    assert SimulatesAt(plist, rem, ps, s, i);
    RunSlice(ps, s, i, d);
    var plist' := if d < rem[i] then plist else plist[i := plist[i].(wt := t + d - plist[i].bt - plist[i].art)];
    var rem', s' := rem[i := rem[i] - d], s + Slice(i, d);
    forall k | 0 <= k < |ps| ensures SimulatesAt(plist', rem', ps, s', k) {
      assert SimulatesAt(plist, rem, ps, s, k);
    }
  }

  lemma SimulateIdle(plist: seq<Process>, rem: seq<int>, t: int, ps: seq<Process>, s: seq<int>)
    requires Simulates(plist, rem, t, ps, s)
    requires NoneReady(ps, s) && !AllDone(ps, s)
    ensures Simulates(plist, rem, t + 1, ps, s + [IDLE])
    ensures Measure(ps, s + [IDLE]) < Measure(ps, s)
  {
    IdleTick(ps, s);
    Extend(s, IDLE);
    var s' := s + [IDLE];
    forall k | 0 <= k < |ps| ensures SimulatesAt(plist, rem, ps, s', k) {
      assert SimulatesAt(plist, rem, ps, s, k);
    }
  }

  lemma SimulationStart(ps: seq<Process>, rem: seq<int>)
    requires |rem| == |ps| && forall i | 0 <= i < |ps| :: rem[i] == ps[i].bt
    ensures Simulates(ps, rem, 0, ps, [])
  {
  }

  lemma SimulationAt(plist: seq<Process>, rem: seq<int>, t: int, ps: seq<Process>, s: seq<int>, i: int)
    requires Simulates(plist, rem, t, ps, s) && 0 <= i < |ps|
    ensures plist[i].bt == ps[i].bt && plist[i].art == ps[i].art && Later(rem[i], 0) == Rem(ps, s, i)
    ensures ps[i].bt >= 0 ==> 0 <= rem[i] <= ps[i].bt
    ensures Ready(ps, s, i) <==> rem[i] > 0 && plist[i].art <= t
  {
    LawfulRem(ps, s);
    assert SimulatesAt(plist, rem, ps, s, i);
  }

  lemma SimulationDone(plist: seq<Process>, rem: seq<int>, t: int, ps: seq<Process>, s: seq<int>)
    requires Simulates(plist, rem, t, ps, s)
    ensures AllDone(ps, s) <==> forall i | 0 <= i < |ps| :: rem[i] <= 0
    ensures AllDone(ps, s) ==> HasWaits(plist, ps, s)
  {
    LawfulRem(ps, s);
    forall i | 0 <= i < |ps|
      ensures Later(rem[i], 0) == Rem(ps, s, i) && (rem[i] <= 0 ==> plist[i] == if ps[i].bt <= 0 then ps[i] else ps[i].(wt := Waiting(ps, s, i)))
    {
      assert SimulatesAt(plist, rem, ps, s, i);
    }
    if forall i | 0 <= i < |ps| :: rem[i] <= 0 {
      forall i | 0 <= i < |ps| ensures Rem(ps, s, i) == 0 { assert Later(rem[i], 0) == Rem(ps, s, i); }
    }
  }

  /** The loop with which both preemptive policies start. */
  method CopyBursts(plist: array<Process>) returns (rem: array<int>)
    ensures fresh(rem) && Simulates(plist[..], rem[..], 0, plist[..], [])
    ensures rem.Length == plist.Length && forall i | 0 <= i < rem.Length :: rem[i] == plist[i].bt
  {
    rem := new int[plist.Length];
    for i := 0 to plist.Length
      invariant forall k | 0 <= k < i :: rem[k] == plist[k].bt
    {
      rem[i] := plist[i].bt;
    }
    SimulationStart(plist[..], rem[..]);
  }

  /** Process i runs for d units; on completion its waiting time is written.  last tells whether it completed. */
  method RunFor(plist: array<Process>, rem: array<int>, t: int, i: int, d: int, ghost ps: seq<Process>, ghost s: seq<int>)
    returns (last: bool)
    requires Simulates(plist[..], rem[..], t, ps, s) && Ready(ps, s, i)
    requires 0 <= i < rem.Length && 1 <= d <= rem[i]
    modifies plist, rem
    ensures Simulates(plist[..], rem[..], t + d, ps, s + Slice(i, d))
    ensures Measure(ps, s + Slice(i, d)) < Measure(ps, s)
    ensures rem[..] == old(rem[..])[i := old(rem[i]) - d] && last == (old(rem[i]) == d)
  {
    ghost var before, left := plist[..], rem[..];
    SimulateSlice(before, left, t, ps, s, i, d);
    rem[i] := rem[i] - d;
    last := rem[i] == 0;
    if last {
      plist[i] := plist[i].(wt := t + d - plist[i].bt - plist[i].art);
    }
  }

  /** One pass over the list: everybody who is ready when visited gets up to a quantum. */
  method ServeRound(plist: array<Process>, rem: array<int>, quantum: int, now: int, ghost ps: seq<Process>, ghost start: seq<int>)
    returns (t: int, done: bool, ghost s: seq<int>)
    requires quantum >= 1 && plist.Length == rem.Length
    requires Simulates(plist[..], rem[..], now, ps, start)
    modifies plist, rem
    ensures Simulates(plist[..], rem[..], t, ps, s)
    ensures RunFrom(ps, quantum, s, 0) == RunFrom(ps, quantum, start, 0)
    ensures done <==> NoneReady(ps, start)
    ensures done ==> s == start && t == now && plist[..] == old(plist[..]) && rem[..] == old(rem[..])
    ensures !done ==> Measure(ps, s) < Measure(ps, start)
  {
    t, done, s := now, true, start;
    for i := 0 to plist.Length
      invariant Simulates(plist[..], rem[..], t, ps, s)
      invariant RunFrom(ps, quantum, s, i) == RunFrom(ps, quantum, start, 0)
      invariant done ==> s == start && t == now && plist[..] == old(plist[..]) && rem[..] == old(rem[..])
      invariant done ==> forall k | 0 <= k < i :: !Ready(ps, start, k)
      invariant !done ==> !NoneReady(ps, start) && Measure(ps, s) < Measure(ps, start)
    {
      SimulationAt(plist[..], rem[..], t, ps, s, i);
      if rem[i] > 0 && plist[i].art <= t {
        done := false;
        var d := if rem[i] > quantum then quantum else rem[i];
        ServeNext(ps, quantum, s, i);
        var last := RunFor(plist, rem, t, i, d, ps, s);
        s := s + Slice(i, d);
        t := t + d;
      } else {
        SkipUnready(ps, quantum, s, i);
      }
    }
    WrapAround(ps, quantum, s);
  }

  method FindWaitingTimeRR(plist: array<Process>, quantum: int)
    requires quantum >= 1
    modifies plist
    ensures HasWaits(plist[..], old(plist[..]), RoundRobinRun(old(plist[..]), quantum))
    ensures IsRr(old(plist[..]), quantum, RoundRobinRun(old(plist[..]), quantum))
  {
    ghost var ps := plist[..];
    ghost var s: seq<int> := [];
    var n := plist.Length;
    var rem := CopyBursts(plist);
    var t := 0;
    var done := false;
    while !done
      invariant Simulates(plist[..], rem[..], t, ps, s)
      invariant RunFrom(ps, quantum, s, 0) == RoundRobinRun(ps, quantum)
      invariant done ==> AllDone(ps, s)
      decreases Measure(ps, s), !done
    {
      t, done, s := ServeRound(plist, rem, quantum, t, ps, s);
      if done {
        SimulationDone(plist[..], rem[..], t, ps, s);
        var i := 0;
        while i < n && rem[i] <= 0
          invariant 0 <= i <= n
          invariant forall k | 0 <= k < i :: rem[k] <= 0
          modifies {}
        {
          i := i + 1;
        }
        if i < n {
          SimulateIdle(plist[..], rem[..], t, ps, s);
          s := s + [IDLE];
          t := t + 1;
          done := false;
        }
      }
    }
    SimulationDone(plist[..], rem[..], t, ps, s);
    RoundRobinIsRr(ps, quantum, s);
  }

  /** A ready process at the position that is next gets its share. */
  lemma ServeNext(ps: seq<Process>, q: int, s: seq<int>, i: nat)
    requires Lawful(ps, s) && q >= 1 && i < |ps| && Ready(ps, s, i)
    ensures var s' := s + Slice(i, Share(ps, q, s, i));
      Lawful(ps, s') && RunFrom(ps, q, s', i + 1) == RunFrom(ps, q, s, i)
  {
    assert CyclicNext(ps, s, i) == i;
    RunSlice(ps, s, i, Share(ps, q, s, i));
  }

  /** Passing over a process that is not ready does not change what Round Robin does next. */
  lemma SkipUnready(ps: seq<Process>, q: int, s: seq<int>, i: nat)
    requires Lawful(ps, s) && q >= 1 && i < |ps| && !Ready(ps, s, i)
    ensures RunFrom(ps, q, s, i) == RunFrom(ps, q, s, i + 1)
  {
    if !NoneReady(ps, s) {
      assert CyclicNext(ps, s, i) == CyclicNext(ps, s, i + 1);
    }
  }

  lemma WrapAround(ps: seq<Process>, q: int, s: seq<int>)
    requires Lawful(ps, s) && q >= 1
    ensures RunFrom(ps, q, s, |ps|) == RunFrom(ps, q, s, 0)
  {
    if !NoneReady(ps, s) {
      assert CyclicNext(ps, s, |ps|) == CyclicNext(ps, s, 0);
    }
  }

  /** The scan for the shortest remaining burst, from left to right and with a strict comparison; -1 if nobody is ready. */
  method FindShortest(plist: array<Process>, rem: array<int>, t: int, ghost ps: seq<Process>, ghost s: seq<int>)
    returns (minIndex: int)
    requires CountableList(ps) && Simulates(plist[..], rem[..], t, ps, s)
    ensures SrtfChoice(ps, s, minIndex) && minIndex == Shortest(ps, rem[..], t, |ps|)
  {
    var minBt := INT_MAX;
    minIndex := -1;
    for i := 0 to plist.Length
      invariant -1 <= minIndex < i && minIndex == Shortest(ps, rem[..], t, i)
      invariant minBt == if minIndex == -1 then INT_MAX else rem[minIndex]
      invariant minIndex == -1 ==> forall k | 0 <= k < i :: !Ready(ps, s, k)
      invariant minIndex != -1 ==> Ready(ps, s, minIndex) && minBt == Rem(ps, s, minIndex)
      invariant minIndex != -1 ==> forall k | 0 <= k < i && Ready(ps, s, k) ::
          minBt < Rem(ps, s, k) || (minBt == Rem(ps, s, k) && minIndex <= k)
    {
      SimulationAt(plist[..], rem[..], t, ps, s, i);
      if plist[i].art <= t && rem[i] > 0 && rem[i] < minBt {
        minBt := rem[i];
        minIndex := i;
      }
    }
  }

  /** The loop has followed the policy, one pass for each time unit of s, and has not ended before. */
  ghost predicate Follows(rem: seq<int>, t: int, complete: int, ps: seq<Process>, s: seq<int>) {
    && FollowsSrtf(ps, s) && (AllDone(ps, s) ==> NoTrailingIdle(s))
    && After(ps, |s|) == Loop(rem, t, complete) && forall j: nat | j < |s| :: After(ps, j).complete < |ps|
  }

  lemma PassIdles(plist: seq<Process>, rem: seq<int>, t: int, complete: int, ps: seq<Process>, s: seq<int>)
    requires CountableList(ps) && Simulates(plist, rem, t, ps, s) && Follows(rem, t, complete, ps, s)
    requires complete < |ps| && SrtfChoice(ps, s, IDLE) && Shortest(ps, rem, t, |ps|) == IDLE
    ensures Simulates(plist, rem, t + 1, ps, s + [IDLE]) && Follows(rem, t + 1, complete, ps, s + [IDLE])
    ensures Measure(ps, s + [IDLE]) < Measure(ps, s)
  {
    NotDoneYet(plist, rem, t, ps, s);
    SrtfExtend(ps, s, IDLE);
    SimulateIdle(plist, rem, t, ps, s);
    NotDoneYet(plist, rem, t + 1, ps, s + [IDLE]);
  }

  lemma PassServes(rem: seq<int>, t: int, complete: int, ps: seq<Process>, s: seq<int>, i: int)
    requires |rem| == |ps| && Follows(rem, t, complete, ps, s)
    requires complete < |ps| && 0 <= i < |ps| && SrtfChoice(ps, s, i) && Shortest(ps, rem, t, |ps|) == i
    ensures Follows(rem[i := rem[i] - 1], t + 1, complete + if rem[i] == 1 then 1 else 0, ps, s + [i])
  {
    SrtfExtend(ps, s, i);
  }

  /** The loop ends after as many passes as the schedule is long. */
  method FindWaitingTimeSJF(plist: array<Process>) returns (ghost s: seq<int>)
    requires CountableList(plist[..])
    modifies plist
    ensures IsSrtf(old(plist[..]), s) && EndsAfter(old(plist[..]), |s|)
    ensures HasWaits(plist[..], old(plist[..]), s)
    ensures forall o | Feasible(old(plist[..]), o) :: TotalWaiting(old(plist[..]), s) <= TotalWaiting(old(plist[..]), o)
  {
    ghost var ps := plist[..];
    s := [];
    var n := plist.Length;
    var complete, t := 0, 0;
    var rem := CopyBursts(plist);
    while complete < n
      invariant Simulates(plist[..], rem[..], t, ps, s) && Follows(rem[..], t, complete, ps, s)
      decreases Measure(ps, s)
    {
      ghost var before, left := plist[..], rem[..];
      var minIndex := FindShortest(plist, rem, t, ps, s);
      if minIndex == -1 {
        PassIdles(before, left, t, complete, ps, s);
        s := s + [IDLE];
        t := t + 1;
      } else {
        PassServes(left, t, complete, ps, s, minIndex);
        SimulationAt(before, left, t, ps, s, minIndex);
        var last := RunFor(plist, rem, t, minIndex, 1, ps, s);
        assert Slice(minIndex, 1) == [minIndex];
        s := s + [minIndex];
        t := t + 1;
        if last {
          complete := complete + 1;
        }
      }
    }
    EverybodyCounted(plist[..], rem[..], t, complete, ps, s);
    NobodyWaitsLess(ps, s);
  }

  lemma NobodyWaitsLess(ps: seq<Process>, s: seq<int>)
    requires Admissible(ps) && FollowsSrtf(ps, s) && AllDone(ps, s)
    ensures forall o | Feasible(ps, o) :: TotalWaiting(ps, s) <= TotalWaiting(ps, o)
  {
    forall o | Feasible(ps, o) ensures TotalWaiting(ps, s) <= TotalWaiting(ps, o) {
      SrtfOptimal(ps, s, o);
    }
  }

  /** While the count falls short of the number of processes, the schedule is not complete. */
  lemma NotDoneYet(plist: seq<Process>, rem: seq<int>, t: int, ps: seq<Process>, s: seq<int>)
    requires CountableList(ps) && Simulates(plist, rem, t, ps, s)
    requires After(ps, |s|).rem == rem && After(ps, |s|).complete < |ps|
    ensures !AllDone(ps, s)
  {
    AlwaysKept(ps, |s|);
    CountIsFull(ps, After(ps, |s|));
    var i :| 0 <= i < |ps| && rem[i] != 0;
    SimulationAt(plist, rem, t, ps, s, i);
  }

  lemma EverybodyCounted(plist: seq<Process>, rem: seq<int>, t: int, complete: int, ps: seq<Process>, s: seq<int>)
    requires CountableList(ps) && Simulates(plist, rem, t, ps, s)
    requires After(ps, |s|) == Loop(rem, t, complete) && complete >= |ps|
    ensures AllDone(ps, s) && HasWaits(plist, ps, s)
  {
    AlwaysKept(ps, |s|);
    CountIsFull(ps, After(ps, |s|));
    SimulationDone(plist, rem, t, ps, s);
  }

  /** The records of ps, each waiting from its arrival to its start in list order. */
  ghost function InListOrder(ps: seq<Process>): (r: seq<Process>)
    ensures |r| == |ps|
  {
    seq(|ps|, i requires 0 <= i < |ps| => ps[i].(wt := Start(ps, i) - ps[i].art))
  }

  /** The records of ps with their turnaround times filled in. */
  ghost function TurnedAround(ps: seq<Process>): (r: seq<Process>)
    ensures |r| == |ps|
  {
    seq(|ps|, i requires 0 <= i < |ps| => ps[i].(tat := ps[i].bt + ps[i].wt))
  }

  /** First come, first served, on any list.  With positive bursts these are the waiting times of the schedule in list order. */
  method FindWaitingTime(plist: array<Process>)
    modifies plist
    ensures plist[..] == InListOrder(old(plist[..]))
    ensures Admissible(old(plist[..])) ==> HasWaits(plist[..], old(plist[..]), FcfsRun(old(plist[..]), plist.Length))
  {
    ghost var ps := plist[..];
    var t := 0;
    for i := 0 to plist.Length
      invariant t == End(ps, i)
      invariant forall k | 0 <= k < i :: plist[k] == ps[k].(wt := Start(ps, k) - ps[k].art)
      invariant forall k | i <= k < plist.Length :: plist[k] == ps[k]
    {
      if t < plist[i].art {
        t := plist[i].art;
      }
      plist[i] := plist[i].(wt := t - plist[i].art);
      t := t + plist[i].bt;
    }
    ListOrderWaits(ps);
  }

  lemma ListOrderWaits(ps: seq<Process>)
    ensures Admissible(ps) ==> HasWaits(InListOrder(ps), ps, FcfsRun(ps, |ps|))
  {
    if Admissible(ps) { FcfsIsFeasible(ps); }
  }

  /** On any list, the waiting time filled in is the largest of art_j + bt_j + ... + bt_(i-1) for j up to i, less the arrival,
      and nothing else in the record changes. */
  lemma WaitClosedForm(ps: seq<Process>, i: nat) returns (j: nat)
    requires i < |ps|
    ensures InListOrder(ps)[i].(wt := ps[i].wt) == ps[i]
    ensures forall k: nat | k <= i :: Available(ps, k) + BurstSum(ps, k, i) - ps[i].art <= InListOrder(ps)[i].wt
    ensures j <= i && InListOrder(ps)[i].wt == Available(ps, j) + BurstSum(ps, j, i) - ps[i].art
  {
    j := StartClosedForm(ps, i);
  }

  method FindTurnAroundTime(plist: array<Process>)
    modifies plist
    ensures plist[..] == TurnedAround(old(plist[..]))
    ensures forall i | 0 <= i < plist.Length :: plist[i] == old(plist[i]).(tat := old(plist[i].bt) + old(plist[i].wt))
  {
    for i := 0 to plist.Length
      invariant forall k | 0 <= k < i :: plist[k] == old(plist[k]).(tat := old(plist[k].bt) + old(plist[k].wt))
      invariant forall k | i <= k < plist.Length :: plist[k] == old(plist[k])
    {
      plist[i] := plist[i].(tat := plist[i].bt + plist[i].wt);
    }
  }

  /** The records of ps with the times of schedule s filled in: how long each process waits, and how long it takes from its
      arrival to its completion.  A process without a burst keeps its waiting time. */
  ghost predicate HasTimes(plist: seq<Process>, ps: seq<Process>, s: seq<int>) {
    && |plist| == |ps|
    && forall i | 0 <= i < |ps| :: plist[i] ==
        if ps[i].bt <= 0 then ps[i].(tat := ps[i].bt + ps[i].wt) else ps[i].(wt := Waiting(ps, s, i), tat := Turnaround(ps, s, i))
  }

  /** Burst plus waiting time is the time from arrival to completion. */
  lemma TurnedAroundTimes(plist: seq<Process>, ps: seq<Process>, s: seq<int>)
    requires HasWaits(plist, ps, s)
    ensures HasTimes(TurnedAround(plist), ps, s)
  {
  }

  method FindAvgTimeFcfs(plist: array<Process>)
    modifies plist
    ensures plist[..] == TurnedAround(InListOrder(old(plist[..])))
    ensures Admissible(old(plist[..])) ==> HasTimes(plist[..], old(plist[..]), FcfsRun(old(plist[..]), plist.Length))
  {
    ghost var ps := plist[..];
    FindWaitingTime(plist);
    if Admissible(ps) { TurnedAroundTimes(plist[..], ps, FcfsRun(ps, |ps|)); }
    FindTurnAroundTime(plist);
  }

  method FindAvgTimeSjf(plist: array<Process>) returns (ghost s: seq<int>)
    requires CountableList(plist[..])
    modifies plist
    ensures IsSrtf(old(plist[..]), s) && HasTimes(plist[..], old(plist[..]), s)
  {
    ghost var ps := plist[..];
    s := FindWaitingTimeSJF(plist);
    TurnedAroundTimes(plist[..], ps, s);
    FindTurnAroundTime(plist);
  }

  method FindAvgTimeRR(plist: array<Process>, quantum: int) returns (ghost s: seq<int>)
    requires quantum >= 1
    modifies plist
    ensures IsRr(old(plist[..]), quantum, s) && HasTimes(plist[..], old(plist[..]), s)
  {
    ghost var ps := plist[..];
    s := RoundRobinRun(ps, quantum);
    FindWaitingTimeRR(plist, quantum);
    TurnedAroundTimes(plist[..], ps, s);
    FindTurnAroundTime(plist);
  }

  /** Exchanging two neighbours of a rearrangement. */
  lemma ExchangeNeighbours(ps: seq<Process>, qs: seq<Process>, p: seq<int>, v: seq<int>, j: nat)
    requires Rearranges(ps, qs, p, v) && 0 < j < |ps|
    ensures Rearranges(ps, qs[j - 1 := qs[j]][j := qs[j - 1]],
                       p[j - 1 := p[j]][j := p[j - 1]], v[p[j] := j - 1][p[j - 1] := j])
  {
  }

  /** All of the first m, except that the one at j may be too far back. */
  ghost predicate SortedBut(qs: seq<Process>, m: nat, j: int)
    requires m <= |qs|
  {
    forall a, b | 0 <= a < b < m && b != j :: Compare(qs[a], qs[b]) <= 0
  }

  lemma SinkOne(qs: seq<Process>, m: nat, j: nat)
    requires 0 < j < m <= |qs| && SortedBut(qs, m, j) && Compare(qs[j - 1], qs[j]) > 0
    ensures SortedBut(qs[j - 1 := qs[j]][j := qs[j - 1]], m, j - 1)
  {
    var r := qs[j - 1 := qs[j]][j := qs[j - 1]];
    forall a, b | 0 <= a < b < m && b != j - 1 ensures Compare(r[a], r[b]) <= 0 {
      if b == j && a < j - 1 { assert Compare(qs[a], qs[j - 1]) <= 0; }
    }
  }

  lemma SunkEnough(qs: seq<Process>, m: nat, j: nat)
    requires j < m <= |qs| && SortedBut(qs, m, j)
    requires j > 0 ==> Compare(qs[j - 1], qs[j]) <= 0
    ensures SortedBut(qs, m, -1)
  {
    forall a, b | 0 <= a < b < m ensures Compare(qs[a], qs[b]) <= 0 {
      if b == j && a < j - 1 { ComparatorOrder(qs[a], qs[j - 1], qs[j]); }
    }
  }

  /** Exchanges a record with the one before it. */
  method SinkAt(plist: array<Process>, j: nat, ghost ps: seq<Process>, ghost p: seq<int>, ghost v: seq<int>, ghost m: nat)
    returns (ghost p': seq<int>, ghost v': seq<int>)
    requires 0 < j < m <= plist.Length && Rearranges(ps, plist[..], p, v)
    requires SortedBut(plist[..], m, j) && Compare(plist[j - 1], plist[j]) > 0
    modifies plist
    ensures Rearranges(ps, plist[..], p', v') && SortedBut(plist[..], m, j - 1)
    ensures plist[..] == old(plist[..])[j - 1 := old(plist[j])][j := old(plist[j - 1])]
  {
    ghost var qs := plist[..];
    ExchangeNeighbours(ps, qs, p, v, j);
    SinkOne(qs, m, j);
    v' := v[p[j] := j - 1][p[j - 1] := j];
    p' := p[j - 1 := p[j]][j := p[j - 1]];
    plist[j - 1], plist[j] := plist[j], plist[j - 1];
    assert plist[..] == qs[j - 1 := qs[j]][j := qs[j - 1]];
  }

  /** Any sort by the comparator will do; only what a sort promises is used below. */
  method SortByPriority(plist: array<Process>) returns (ghost p: seq<int>, ghost v: seq<int>)
    modifies plist
    ensures SortedByPriority(plist[..])
    ensures Rearranges(old(plist[..]), plist[..], p, v)
  {
    ghost var ps := plist[..];
    p := seq(plist.Length, i => i);
    v := p;
    for i := 0 to plist.Length
      invariant Rearranges(ps, plist[..], p, v) && SortedBut(plist[..], i, -1)
    {
      var j := i;
      assert SortedBut(plist[..], i + 1, i);
      while j > 0 && Compare(plist[j - 1], plist[j]) > 0
        invariant 0 <= j <= i
        invariant Rearranges(ps, plist[..], p, v) && SortedBut(plist[..], i + 1, j)
      {
        p, v := SinkAt(plist, j, ps, p, v, i + 1);
        j := j - 1;
      }
      SunkEnough(plist[..], i + 1, j);
    }
  }

  /** The priority policy, on any list: the loop of first come, first served over the sorted list. */
  method FindAvgTimePriority(plist: array<Process>) returns (ghost p: seq<int>, ghost v: seq<int>, ghost sorted: seq<Process>)
    modifies plist
    ensures Rearranges(old(plist[..]), sorted, p, v) && SortedByPriority(sorted)
    ensures plist[..] == TurnedAround(InListOrder(sorted))
    ensures Admissible(sorted) ==> HasTimes(plist[..], sorted, FcfsRun(sorted, |sorted|))
  {
    p, v := SortByPriority(plist);
    sorted := plist[..];
    FindAvgTimeFcfs(plist);
  }

  // ---------------------------------------------------------------- the four policies compared

  /** On any process list SJF waits no longer in total than Round Robin, FCFS, or Priority, whichever way ties are sorted. */
  lemma SjfWaitsLeast(ps: seq<Process>, s: seq<int>, q: int, qs: seq<Process>, p: seq<int>, v: seq<int>)
    requires Admissible(ps) && IsSrtf(ps, s) && q >= 1
    requires Rearranges(ps, qs, p, v) && SortedByPriority(qs) && Admissible(qs)
    ensures TotalWaiting(ps, s) <= TotalWaiting(ps, RoundRobinRun(ps, q))
    ensures TotalWaiting(ps, s) <= TotalWaiting(ps, FcfsRun(ps, |ps|))
    ensures TotalWaiting(ps, s) <= TotalWaiting(qs, FcfsRun(qs, |qs|))
  {
    RoundRobinIsConserving(ps, q);
    SrtfOptimal(ps, s, RoundRobinRun(ps, q));
    FcfsIsFeasible(ps);
    SrtfOptimal(ps, s, FcfsRun(ps, |ps|));
    FcfsIsFeasible(qs);
    RearrangedSchedule(ps, qs, p, v, FcfsRun(qs, |qs|));
    SrtfOptimal(ps, s, Renamed(FcfsRun(qs, |qs|), p));
  }

  /** SJF and Round Robin, for every quantum, finish their last process at the same time, and so does Round Robin for any other quantum. */
  lemma PreemptivePoliciesFinishTogether(ps: seq<Process>, s: seq<int>, q: int, q': int)
    requires Admissible(ps) && IsSrtf(ps, s) && q >= 1 && q' >= 1
    ensures |s| == |RoundRobinRun(ps, q)| == |RoundRobinRun(ps, q')|
  {
    SrtfIsLawful(ps, s);
    RoundRobinIsConserving(ps, q);
    RoundRobinIsConserving(ps, q');
    SameFinish(ps, s, RoundRobinRun(ps, q));
    SameFinish(ps, s, RoundRobinRun(ps, q'));
  }

  /** When the list is sorted by arrival, no turnaround under FCFS exceeds the largest under SJF or under Round Robin. */
  lemma FcfsIsFairest(ps: seq<Process>, s: seq<int>, q: int, m: int)
    requires Admissible(ps) && SortedByArrival(ps) && IsSrtf(ps, s) && q >= 1
    requires TurnaroundsAtMost(ps, s, m) || TurnaroundsAtMost(ps, RoundRobinRun(ps, q), m)
    ensures TurnaroundsAtMost(ps, FcfsRun(ps, |ps|), m)
  {
    SrtfIsLawful(ps, s);
    LawfulDoneIsFeasible(ps, s);
    RoundRobinIsConserving(ps, q);
    if TurnaroundsAtMost(ps, s, m) {
      FcfsMinimizesMaximum(ps, s, m);
    } else {
      FcfsMinimizesMaximum(ps, RoundRobinRun(ps, q), m);
    }
  }

  ghost function Added(v: seq<int>): int {
    if v == [] then 0 else Added(v[..|v| - 1]) + v[|v| - 1]
  }

  function Waits(plist: seq<Process>): (v: seq<int>)
    ensures |v| == |plist|
  {
    seq(|plist|, i requires 0 <= i < |plist| => plist[i].wt)
  }

  function Turnarounds(plist: seq<Process>): (v: seq<int>)
    ensures |v| == |plist|
  {
    seq(|plist|, i requires 0 <= i < |plist| => plist[i].tat)
  }

  /** The totals of the waiting times and of the turnaround times in the list. */
  method Totals(plist: array<Process>) returns (wt: int, tat: int)
    ensures wt == Added(Waits(plist[..])) && tat == Added(Turnarounds(plist[..]))
  {
    wt, tat := 0, 0;
    for i := 0 to plist.Length
      invariant wt == Added(Waits(plist[..i])) && tat == Added(Turnarounds(plist[..i]))
    {
      assert Waits(plist[..i + 1])[..i] == Waits(plist[..i]);
      assert Turnarounds(plist[..i + 1])[..i] == Turnarounds(plist[..i]);
      wt := wt + plist[i].wt;
      tat := tat + plist[i].tat;
    }
    assert plist[..plist.Length] == plist[..];
  }

  lemma {:induction false} AddedIsSum(v: seq<int>, f: int -> int)
    requires forall i | 0 <= i < |v| :: v[i] == f(i)
    ensures Added(v) == Sum(|v|, f)
  {
    if v != [] { AddedIsSum(v[..|v| - 1], f); }
  }

  /** For a list filled in with the times of a schedule, they are the total waiting time of the schedule, and that plus the
      bursts. */
  lemma TotalOfTimes(plist: seq<Process>, ps: seq<Process>, s: seq<int>)
    requires Admissible(ps) && HasTimes(plist, ps, s)
    ensures Added(Waits(plist)) == TotalWaiting(ps, s)
    ensures Added(Turnarounds(plist)) == TotalWaiting(ps, s) + Sum(|ps|, i => Burst(ps, i))
  {
    var wait, burst, turn := i => Waiting(ps, s, i), i => Burst(ps, i), i => Turnaround(ps, s, i);
    AddedIsSum(Waits(plist), wait);
    AddedIsSum(Turnarounds(plist), turn);
    SumAdd(|ps|, wait, burst, turn);
    SumEq(|ps|, wait, i => Waiting(ps, s, i));
    SumEq(|ps|, burst, i => Burst(ps, i));
  }

  method Load(input: seq<Process>) returns (plist: array<Process>)
    ensures fresh(plist) && plist[..] == input
  {
    plist := new Process[|input|](i requires 0 <= i < |input| => input[i]);
  }

  method TotalFcfs(input: seq<Process>) returns (total: int)
    requires Admissible(input)
    ensures total == TotalWaiting(input, FcfsRun(input, |input|))
  {
    var plist := Load(input);
    FindAvgTimeFcfs(plist);
    TotalOfTimes(plist[..], input, FcfsRun(input, |input|));
    var tat;
    total, tat := Totals(plist);
  }

  method TotalSjf(input: seq<Process>) returns (total: int, ghost s: seq<int>)
    requires CountableList(input)
    ensures IsSrtf(input, s) && total == TotalWaiting(input, s)
  {
    var plist := Load(input);
    s := FindAvgTimeSjf(plist);
    TotalOfTimes(plist[..], input, s);
    var tat;
    total, tat := Totals(plist);
  }

  method TotalPriority(input: seq<Process>) returns (total: int, ghost sorted: seq<Process>, ghost p: seq<int>, ghost v: seq<int>)
    requires Admissible(input)
    ensures Rearranges(input, sorted, p, v) && SortedByPriority(sorted) && Admissible(sorted)
    ensures total == TotalWaiting(sorted, FcfsRun(sorted, |sorted|))
  {
    var plist := Load(input);
    p, v, sorted := FindAvgTimePriority(plist);
    TotalOfTimes(plist[..], sorted, FcfsRun(sorted, |sorted|));
    var tat;
    total, tat := Totals(plist);
  }

  method TotalRoundRobin(input: seq<Process>, quantum: int) returns (total: int)
    requires Admissible(input) && quantum >= 1
    ensures total == TotalWaiting(input, RoundRobinRun(input, quantum))
  {
    var plist := Load(input);
    ghost var s := FindAvgTimeRR(plist, quantum);
    RoundRobinIsRr(input, quantum, s);
    TotalOfTimes(plist[..], input, s);
    var tat;
    total, tat := Totals(plist);
  }

  /** The simulator's run: each policy on a freshly loaded list, and the total waiting time that results. */
  method ComparePolicies(input: seq<Process>, quantum: int)
    returns (fcfs: int, sjf: int, priority: int, rr: int, ghost s: seq<int>, ghost sorted: seq<Process>, ghost p: seq<int>, ghost v: seq<int>)
    requires CountableList(input) && quantum >= 1
    ensures fcfs == TotalWaiting(input, FcfsRun(input, |input|))
    ensures IsSrtf(input, s) && sjf == TotalWaiting(input, s)
    ensures SortedByPriority(sorted) && Admissible(sorted) && Rearranges(input, sorted, p, v)
    ensures priority == TotalWaiting(sorted, FcfsRun(sorted, |sorted|))
    ensures rr == TotalWaiting(input, RoundRobinRun(input, quantum))
    ensures sjf <= fcfs && sjf <= priority && sjf <= rr
    ensures forall o | Feasible(input, o) :: sjf <= TotalWaiting(input, o)
  {
    fcfs := TotalFcfs(input);
    sjf, s := TotalSjf(input);
    priority, sorted, p, v := TotalPriority(input);
    rr := TotalRoundRobin(input, quantum);
    SjfWaitsLeast(input, s, quantum, sorted, p, v);
    NobodyWaitsLess(input, s);
  }
}
