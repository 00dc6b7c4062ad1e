/** Round Robin as a rule about the schedule alone: whom every time unit belongs to, given the units before it. */
module Dispatch {
  import opened Schedules
  import opened Conserving
  import opened RoundRobin

  /** How many units the process that ran last has had in its current slice of at most q; 0 after an idle unit. */
  ghost function SliceSoFar(q: int, s: seq<int>): int {
    if s == [] || s[|s| - 1] == IDLE then 0
    else if |s| >= 2 && s[|s| - 2] == s[|s| - 1] && SliceSoFar(q, s[..|s| - 1]) < q then SliceSoFar(q, s[..|s| - 1]) + 1
    else 1
  }

  /** x is ready, and nobody before it on the list is. */
  ghost predicate FirstOfAll(ps: seq<Process>, s: seq<int>, x: int) {
    Ready(ps, s, x) && forall j | 0 <= j < x :: !Ready(ps, s, j)
  }

  /** x is ready, and going through the list from behind p, and from the start again up to p, nobody is who comes before x. */
  ghost predicate FirstAfter(ps: seq<Process>, s: seq<int>, p: int, x: int) {
    && Ready(ps, s, x)
    && forall j | Ready(ps, s, j) :: if p < x then j <= p || x <= j else j <= p && x <= j
  }

  /** The unit that follows s belongs to x: to nobody if nobody is ready; at the start and after an idle unit to the first
      who is ready; to the process that ran last until it is finished or its slice is over; and then to the next in turn. */
  ghost predicate RrChoice(ps: seq<Process>, q: int, s: seq<int>, x: int) {
    if x == IDLE then NoneReady(ps, s)
    else if s == [] || s[|s| - 1] == IDLE then FirstOfAll(ps, s, x)
    else if Rem(ps, s, s[|s| - 1]) > 0 && SliceSoFar(q, s) < q then x == s[|s| - 1] && Ready(ps, s, x)
    else FirstAfter(ps, s, s[|s| - 1], x)
  }

  ghost predicate RrAt(ps: seq<Process>, q: int, s: seq<int>, t: int) {
    0 <= t < |s| && RrChoice(ps, q, s[..t], s[t])
  }

  ghost predicate FollowsRr(ps: seq<Process>, q: int, s: seq<int>) {
    forall t | 0 <= t < |s| :: RrAt(ps, q, s, t)
  }

  /** The complete run of the rule: it stops when the last process does. */
  ghost predicate IsRr(ps: seq<Process>, q: int, s: seq<int>) {
    FollowsRr(ps, q, s) && AllDone(ps, s) && NoTrailingIdle(s)
  }

  lemma RrExtend(ps: seq<Process>, q: int, s: seq<int>, x: int)
    requires FollowsRr(ps, q, s) && RrChoice(ps, q, s, x)
    ensures FollowsRr(ps, q, s + [x])
  {
    forall u | 0 <= u < |s + [x]| ensures RrAt(ps, q, s + [x], u) {
      assert (s + [x])[..u] == s[..u];
      if u < |s| { assert RrAt(ps, q, s, u); } else { assert s[..u] == s; }
    }
  }

  /** The rule runs only ready processes, and idles only when there is none. */
  lemma RrIsLawful(ps: seq<Process>, q: int, s: seq<int>)
    requires FollowsRr(ps, q, s)
    ensures Lawful(ps, s) && WorkConserving(ps, s)
  {
    forall t | 0 <= t < |s| ensures LawfulAt(ps, s, t) && ConservingAt(ps, s, t) {
      assert RrAt(ps, q, s, t);
    }
  }

  /** The rule leaves no choice. */
  lemma ChoiceUnique(ps: seq<Process>, q: int, s: seq<int>, x: int, y: int)
    requires RrChoice(ps, q, s, x) && RrChoice(ps, q, s, y)
    ensures x == y
  {
    if x != IDLE { assert Ready(ps, s, x); }
    if y != IDLE { assert Ready(ps, s, y); }
  }

  lemma {:induction false} RrUnique(ps: seq<Process>, q: int, s: seq<int>, r: seq<int>, t: nat)
    requires FollowsRr(ps, q, s) && FollowsRr(ps, q, r)
    requires t <= |s| && t <= |r|
    ensures s[..t] == r[..t]
  {
    if t > 0 {
      RrUnique(ps, q, s, r, t - 1);
      assert RrAt(ps, q, s, t - 1) && RrAt(ps, q, r, t - 1);
      ChoiceUnique(ps, q, s[..t - 1], s[t - 1], r[t - 1]);
      assert s[..t] == s[..t - 1] + [s[t - 1]];
    }
  }

  // ---------------------------------------------------------------- the cyclic dispatch follows the rule

  /** Position pos is next, and no slice is under way. */
  ghost predicate Between(ps: seq<Process>, q: int, s: seq<int>, pos: nat) {
    if s == [] || s[|s| - 1] == IDLE then pos == 0
    else pos == s[|s| - 1] + 1 && (Rem(ps, s, s[|s| - 1]) <= 0 || SliceSoFar(q, s) >= q)
  }

  lemma NextInTurn(ps: seq<Process>, q: int, s: seq<int>, pos: nat)
    requires pos <= |ps| && Between(ps, q, s, pos) && !NoneReady(ps, s)
    ensures RrChoice(ps, q, s, CyclicNext(ps, s, pos))
  {
    NextIsReady(ps, s, pos);
  }

  /** The first d units of a slice, all of them by the rule. */
  lemma {:induction false} SliceByRule(ps: seq<Process>, q: int, s: seq<int>, pos: nat, i: int, d: nat)
    requires Lawful(ps, s) && q >= 1 && pos <= |ps| && Between(ps, q, s, pos) && !NoneReady(ps, s)
    requires i == CyclicNext(ps, s, pos) && Ready(ps, s, i) && 1 <= d <= Share(ps, q, s, i)
    requires FollowsRr(ps, q, s)
    ensures FollowsRr(ps, q, s + Slice(i, d)) && SliceSoFar(q, s + Slice(i, d)) == d
    decreases d
  {
    var r := s + Slice(i, d - 1);
    assert s + Slice(i, d) == r + [i] && (r + [i])[..|r|] == r;
    if d == 1 {
      assert r == s;
      NextInTurn(ps, q, s, pos);
    } else {
      SliceByRule(ps, q, s, pos, i, d - 1);
      RunSlice(ps, s, i, d - 1);
    }
    RrExtend(ps, q, r, i);
  }

  lemma {:induction false} RunFollowsRr(ps: seq<Process>, q: int, s: seq<int>, pos: nat)
    requires Lawful(ps, s) && q >= 1 && pos <= |ps| && Between(ps, q, s, pos) && FollowsRr(ps, q, s)
    ensures FollowsRr(ps, q, RunFrom(ps, q, s, pos))
    decreases Measure(ps, s)
  {
    if AllDone(ps, s) {
    } else if NoneReady(ps, s) {
      IdleTick(ps, s);
      RrExtend(ps, q, s, IDLE);
      RunFollowsRr(ps, q, s + [IDLE], 0);
    } else {
      NextIsReady(ps, s, pos);
      var i := CyclicNext(ps, s, pos);
      var d := Share(ps, q, s, i);
      RunSlice(ps, s, i, d);
      SliceByRule(ps, q, s, pos, i, d);
      RunFollowsRr(ps, q, s + Slice(i, d), i + 1);
    }
  }

  /** The schedule of the Round Robin loop is the one complete run of the rule, and there is no other. */
  lemma RoundRobinIsRr(ps: seq<Process>, q: int, r: seq<int>)
    requires q >= 1
    ensures IsRr(ps, q, r) <==> r == RoundRobinRun(ps, q)
  {
    var run := RoundRobinRun(ps, q);
    RunFollowsRr(ps, q, [], 0);
    RoundRobinIsConserving(ps, q);
    if IsRr(ps, q, r) {
      RrIsLawful(ps, q, r);
      SameFinish(ps, r, run);
      RrUnique(ps, q, r, run, |r|);
      assert r[..|r|] == r && run[..|run|] == run;
    }
  }
}
