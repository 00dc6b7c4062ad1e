/** The loop of preemptive shortest-job-first, pass by pass: exactly when it ends. */
module SjfLoop {
  import opened Sums
  import opened Schedules
  import opened Conserving

  /** The variables of the loop: the bursts left, the time, and how many processes have been counted as complete. */
  datatype Loop = Loop(rem: seq<int>, t: int, complete: int)

  /** Process i has arrived, has burst left, and has less left than the value the search for a minimum starts from. */
  predicate Candidate(ps: seq<Process>, rem: seq<int>, t: int, i: int) {
    0 <= i < |ps| == |rem| && ps[i].art <= t && 0 < rem[i] < INT_MAX
  }

  /** The scan of the first n processes with a strict comparison; -1 if it finds nobody. */
  function Shortest(ps: seq<Process>, rem: seq<int>, t: int, n: nat): (m: int)
    requires n <= |ps| == |rem|
    ensures m == -1 || (m < n && Candidate(ps, rem, t, m))
    ensures m == -1 ==> forall i | 0 <= i < n :: !Candidate(ps, rem, t, i)
  {
    if n == 0 then -1
    else
      var m := Shortest(ps, rem, t, n - 1);
      var least := if m == -1 then INT_MAX else rem[m];
      if ps[n - 1].art <= t && 0 < rem[n - 1] < least then n - 1 else m
  }

  /** One pass through the body of the loop. */
  function Pass(ps: seq<Process>, l: Loop): (l': Loop)
    requires |l.rem| == |ps|
    ensures |l'.rem| == |ps|
  {
    var m := Shortest(ps, l.rem, l.t, |ps|);
    if m == -1 then l.(t := l.t + 1)
    else Loop(l.rem[m := l.rem[m] - 1], l.t + 1, l.complete + if l.rem[m] == 1 then 1 else 0)
  }

  /** The variables after k passes, whether or not the loop would have ended before. */
  function After(ps: seq<Process>, k: nat): (l: Loop)
    ensures |l.rem| == |ps|
  {
    if k == 0 then Loop(seq(|ps|, i requires 0 <= i < |ps| => ps[i].bt), 0, 0) else Pass(ps, After(ps, k - 1))
  }

  /** The loop ends after k passes: that is when its test fails for the first time. */
  predicate EndsAfter(ps: seq<Process>, k: nat) {
    After(ps, k).complete >= |ps| && forall j: nat | j < k :: After(ps, j).complete < |ps|
  }

  // ---------------------------------------------------------------- what every pass keeps

  /** The bursts the loop can serve to the end. */
  predicate Countable(p: Process) {
    1 <= p.bt < INT_MAX
  }

  predicate CountableList(ps: seq<Process>) {
    forall i | 0 <= i < |ps| :: Countable(ps[i])
  }

  ghost predicate KeptAt(ps: seq<Process>, rem: seq<int>, i: int) {
    && 0 <= i < |ps| == |rem|
    && if Countable(ps[i]) then 0 <= rem[i] <= ps[i].bt else rem[i] == ps[i].bt
  }

  ghost function CompleteSet(ps: seq<Process>, rem: seq<int>): set<int>
    requires |rem| == |ps|
  {
    set i | 0 <= i < |ps| && Countable(ps[i]) && rem[i] == 0
  }

  /** A burst that cannot be served is never touched, and the count is that of the finished others. */
  ghost predicate Kept(ps: seq<Process>, l: Loop) {
    && |l.rem| == |ps| && (forall i | 0 <= i < |ps| :: KeptAt(ps, l.rem, i))
    && l.complete == |CompleteSet(ps, l.rem)|
  }

  lemma CompleteSetGrows(ps: seq<Process>, rem: seq<int>, m: int)
    requires |rem| == |ps| && 0 <= m < |ps| && Countable(ps[m]) && rem[m] > 0
    ensures |CompleteSet(ps, rem[m := rem[m] - 1])| == |CompleteSet(ps, rem)| + if rem[m] == 1 then 1 else 0
  {
    var before, after := CompleteSet(ps, rem), CompleteSet(ps, rem[m := rem[m] - 1]);
    if rem[m] == 1 {
      assert after == before + {m};
    } else {
      assert after == before;
    }
  }

  lemma PassKeeps(ps: seq<Process>, l: Loop)
    requires Kept(ps, l)
    ensures Kept(ps, Pass(ps, l))
  {
    var l', m := Pass(ps, l), Shortest(ps, l.rem, l.t, |ps|);
    if m != -1 {
      assert KeptAt(ps, l.rem, m);
      forall i | 0 <= i < |ps| ensures KeptAt(ps, l'.rem, i) {
        assert KeptAt(ps, l.rem, i);
      }
      CompleteSetGrows(ps, l.rem, m);
    }
  }

  lemma {:induction false} AlwaysKept(ps: seq<Process>, k: nat)
    ensures Kept(ps, After(ps, k)) && After(ps, k).t == k
  {
    if k == 0 {
      var rem := After(ps, 0).rem;
      forall i | 0 <= i < |ps| ensures KeptAt(ps, rem, i) {}
      assert CompleteSet(ps, rem) == {};
    } else {
      AlwaysKept(ps, k - 1);
      PassKeeps(ps, After(ps, k - 1));
    }
  }

  // ---------------------------------------------------------------- the count against the number of processes

  ghost function Indices(n: nat): (r: set<int>)
    ensures forall i :: i in r <==> 0 <= i < n
  {
    if n == 0 then {} else Indices(n - 1) + {n - 1}
  }

  lemma {:induction false} IndicesCard(n: nat)
    ensures |Indices(n)| == n
  {
    if n > 0 {
      IndicesCard(n - 1);
    }
  }

  lemma FullSet(S: set<int>, n: nat)
    requires forall i | i in S :: 0 <= i < n
    ensures |S| >= n <==> forall i | 0 <= i < n :: i in S
  {
    var rest := Indices(n) - S;
    IndicesCard(n);
    assert Indices(n) == S + rest;
    assert n == |S| + |rest|;
    forall i | 0 <= i < n ensures i in S <==> i !in rest {}
    if rest != {} {
      var i :| i in rest;
      assert 0 <= i < n && i !in S;
    }
  }

  /** The test of the loop fails exactly when every process has been counted. */
  lemma CountIsFull(ps: seq<Process>, l: Loop)
    requires Kept(ps, l)
    ensures l.complete >= |ps| <==> forall i | 0 <= i < |ps| :: Countable(ps[i]) && l.rem[i] == 0
  {
    var done := CompleteSet(ps, l.rem);
    FullSet(done, |ps|);
    forall i | 0 <= i < |ps| ensures i in done <==> Countable(ps[i]) && l.rem[i] == 0 {}
  }

  // ---------------------------------------------------------------- the loop makes progress

  /** The work that is left, plus the time until the last arrival. */
  ghost function ToDo(ps: seq<Process>, l: Loop): int {
    Sum(|l.rem|, i => if 0 <= i < |l.rem| then l.rem[i] else 0) + Later(Horizon(ps) - l.t, 0)
  }

  lemma ToDoIsNatural(ps: seq<Process>, l: Loop)
    requires Kept(ps, l) && CountableList(ps)
    ensures ToDo(ps, l) >= 0
  {
    forall i | 0 <= i < |ps| ensures l.rem[i] >= 0 { assert KeptAt(ps, l.rem, i); }
    SumZero(|l.rem|, i => if 0 <= i < |l.rem| then l.rem[i] else 0);
  }

  /** While not everybody has been counted, a pass either serves somebody or brings the last arrival closer. */
  lemma PassLowersToDo(ps: seq<Process>, l: Loop)
    requires Kept(ps, l) && CountableList(ps) && l.complete < |ps|
    ensures ToDo(ps, Pass(ps, l)) < ToDo(ps, l)
  {
    var l', m := Pass(ps, l), Shortest(ps, l.rem, l.t, |ps|);
    if m == -1 {
      CountIsFull(ps, l);
      var i :| 0 <= i < |ps| && l.rem[i] != 0;
      assert KeptAt(ps, l.rem, i) && !Candidate(ps, l.rem, l.t, i);
    } else {
      SumExceptAt(|ps|, i => if 0 <= i < |l'.rem| then l'.rem[i] else 0, i => if 0 <= i < |l.rem| then l.rem[i] else 0, m);
    }
  }

  lemma {:induction false} EndIsReached(ps: seq<Process>, k: nat) returns (e: nat)
    requires CountableList(ps) && forall j: nat | j < k :: After(ps, j).complete < |ps|
    ensures EndsAfter(ps, e)
    decreases ToDo(ps, After(ps, k))
  {
    AlwaysKept(ps, k);
    if After(ps, k).complete >= |ps| {
      e := k;
    } else {
      PassLowersToDo(ps, After(ps, k));
      AlwaysKept(ps, k + 1);
      ToDoIsNatural(ps, After(ps, k + 1));
      e := EndIsReached(ps, k + 1);
    }
  }

  /** Whatever the arrivals, the loop ends if and only if every burst is positive and less than INT_MAX. */
  lemma EndsExactly(ps: seq<Process>)
    ensures (exists k: nat :: EndsAfter(ps, k)) <==> CountableList(ps)
  {
    if CountableList(ps) {
      var e := EndIsReached(ps, 0);
    }
    if k: nat :| EndsAfter(ps, k) {
      AlwaysKept(ps, k);
      CountIsFull(ps, After(ps, k));
    }
  }

  /** Two lists of one process, with a burst of 0 and with the largest int, on which the loop runs for ever. */
  lemma BurstsThatHang(k: nat)
    ensures After([Process(1, 0, 0, 0, 0, 0)], k).complete == 0
    ensures After([Process(1, INT_MAX, 0, 0, 0, 0)], k).complete == 0
  {
    var none, huge := [Process(1, 0, 0, 0, 0, 0)], [Process(1, INT_MAX, 0, 0, 0, 0)];
    AlwaysKept(none, k);
    AlwaysKept(huge, k);
    assert CompleteSet(none, After(none, k).rem) == {} && CompleteSet(huge, After(huge, k).rem) == {};
  }
}
