/**
 The order in which each policy keeps the free list, on runs that do not coalesce, and the exact condition on the free
 list under which best and worst fit serve every request as they are meant to.
 */
module FitOrder {
  import opened Regions
  import opened Sequences

  /** A memory whose free blocks carry stamps: when each was put on the list.  First fit keeps the list by age; best fit
      ascending by size, and older blocks before newer ones of the same size; worst fit descending, newer before older. */
  datatype Stamped = Stamped(m: Memory, stamps: seq<int>, clock: int)

  function StampedAllocate(st: Stamped, pid: int, size: int, policy: int): Stamped
    requires |st.stamps| == |st.m.free|
  {
    var k, m' := First(st.m.free, Fits(size)), Allocate(st.m, pid, size, policy);
    if k == |st.m.free| then st
    else if size < Size(st.m.free[k]) then
      var pos := PolicyPosition(policy, RemoveAt(st.m.free, k), Fragment(st.m.free[k], size));
      Stamped(m', InsertAt(RemoveAt(st.stamps, k), pos, st.clock), st.clock + 1)
    else
      Stamped(m', RemoveAt(st.stamps, k), st.clock)
  }

  function StampedDeallocate(st: Stamped, pid: int, policy: int): Stamped
    requires |st.stamps| == |st.m.free|
  {
    var k, m' := First(st.m.alloc, BelongsTo(pid)), Deallocate(st.m, pid, policy);
    if k == |st.m.alloc| then st
    else Stamped(m', InsertAt(st.stamps, PolicyPosition(policy, st.m.free, st.m.alloc[k].(pid := 0)), st.clock), st.clock + 1)
  }

  predicate IsCoalesce(input: (int, int)) { input.0 == COALESCE || input.0 == 0 }

  predicate CoalesceFree(inputs: seq<(int, int)>) {
    forall i | 0 <= i < |inputs| :: !IsCoalesce(inputs[i])
  }

  /** The same run as Run, with the stamps kept alongside. */
  function StampedRun(partition: int, inputs: seq<(int, int)>, policy: int): (st: Stamped)
    requires CoalesceFree(inputs)
    ensures st.m == Run(Initial(partition), inputs, policy) && |st.stamps| == |st.m.free|
  {
    if inputs == [] then Stamped(Initial(partition), [0], 1)
    else
      var st, last := StampedRun(partition, inputs[..|inputs| - 1], policy), inputs[|inputs| - 1];
      if last.0 > 0 then StampedAllocate(st, last.0, last.1, policy)
      else StampedDeallocate(st, Abs(last.0), policy)
  }

  /** Block a with stamp s comes before block b with stamp t under the policy. */
  predicate Precedes(policy: int, a: Region, s: int, b: Region, t: int) {
    if policy == 1 then s < t
    else if policy == 2 then Size(a) < Size(b) || (Size(a) == Size(b) && s < t)
    else Size(a) > Size(b) || (Size(a) == Size(b) && s > t)
  }

  ghost predicate InOrder(policy: int, free: seq<Region>, stamps: seq<int>) {
    && |stamps| == |free|
    && forall i, j | 0 <= i < j < |free| :: Precedes(policy, free[i], stamps[i], free[j], stamps[j])
  }

  ghost predicate Older(stamps: seq<int>, clock: int) {
    forall i | 0 <= i < |stamps| :: stamps[i] < clock
  }

  lemma RemoveKeepsOrder(policy: int, free: seq<Region>, stamps: seq<int>, k: nat)
    requires InOrder(policy, free, stamps) && k < |free|
    ensures InOrder(policy, RemoveAt(free, k), RemoveAt(stamps, k))
  {
    var f, s := RemoveAt(free, k), RemoveAt(stamps, k);
    forall i, j | 0 <= i < j < |f| ensures Precedes(policy, f[i], s[i], f[j], s[j]) {
      var i', j' := if i < k then i else i + 1, if j < k then j else j + 1;
      assert Precedes(policy, free[i'], stamps[i'], free[j'], stamps[j']);
    }
  }

  lemma RemoveKeepsOlder(stamps: seq<int>, clock: int, k: nat)
    requires Older(stamps, clock) && k < |stamps|
    ensures Older(RemoveAt(stamps, k), clock)
  {
  }

  /** The position the policy picks for a new block is right for it. */
  lemma PositionFits(policy: int, free: seq<Region>, stamps: seq<int>, b: Region, clock: int, i: nat)
    requires InOrder(policy, free, stamps) && Older(stamps, clock) && i < |free|
    ensures if i < PolicyPosition(policy, free, b)
      then Precedes(policy, free[i], stamps[i], b, clock) else Precedes(policy, b, clock, free[i], stamps[i])
  {
    var k := PolicyPosition(policy, free, b);
    FirstFinds(free, if policy == 2 then IsLargerThan(b) else IsNoLargerThan(b));
    if k < i { assert Precedes(policy, free[k], stamps[k], free[i], stamps[i]); }
  }

  /** A new block, put where the policy says, is in its place. */
  lemma InsertKeepsOrder(policy: int, free: seq<Region>, stamps: seq<int>, b: Region, clock: int)
    requires InOrder(policy, free, stamps) && Older(stamps, clock)
    ensures var k := PolicyPosition(policy, free, b);
      InOrder(policy, InsertAt(free, k, b), InsertAt(stamps, k, clock)) && Older(InsertAt(stamps, k, clock), clock + 1)
  {
    var k := PolicyPosition(policy, free, b);
    var f, s := InsertAt(free, k, b), InsertAt(stamps, k, clock);
    forall i, j | 0 <= i < j < |f| ensures Precedes(policy, f[i], s[i], f[j], s[j]) {
      var i', j' := if i < k then i else i - 1, if j < k then j else j - 1;
      if j == k {
        PositionFits(policy, free, stamps, b, clock, i);
      } else if i == k {
        PositionFits(policy, free, stamps, b, clock, j');
      } else {
        assert Precedes(policy, free[i'], stamps[i'], free[j'], stamps[j']);
      }
    }
  }

  /** Every coalesce-free run keeps the free list in the order of its policy. */
  lemma {:induction false} RunKeepsOrder(partition: int, inputs: seq<(int, int)>, policy: int)
    requires CoalesceFree(inputs)
    ensures var st := StampedRun(partition, inputs, policy);
      InOrder(policy, st.m.free, st.stamps) && Older(st.stamps, st.clock)
  {
    if inputs != [] {
      var before, last := inputs[..|inputs| - 1], inputs[|inputs| - 1];
      RunKeepsOrder(partition, before, policy);
      var st := StampedRun(partition, before, policy);
      if last.0 > 0 {
        var k := First(st.m.free, Fits(last.1));
        if k < |st.m.free| {
          RemoveKeepsOrder(policy, st.m.free, st.stamps, k);
          RemoveKeepsOlder(st.stamps, st.clock, k);
          InsertKeepsOrder(policy, RemoveAt(st.m.free, k), RemoveAt(st.stamps, k), Fragment(st.m.free[k], last.1), st.clock);
        }
      } else {
        var k := First(st.m.alloc, BelongsTo(Abs(last.0)));
        if k < |st.m.alloc| {
          InsertKeepsOrder(policy, st.m.free, st.stamps, st.m.alloc[k].(pid := 0), st.clock);
        }
      }
    }
  }

  /** The first sufficient block is, in the order of the policy, no later than any other sufficient block. */
  lemma FirstSufficient(policy: int, free: seq<Region>, stamps: seq<int>, size: int, j: nat)
    requires InOrder(policy, free, stamps) && j < |free| && Size(free[j]) >= size
    ensures var k := First(free, Fits(size));
      k < |free| && Size(free[k]) >= size && (k == j || Precedes(policy, free[k], stamps[k], free[j], stamps[j]))
  {
    var k := First(free, Fits(size));
    FirstFinds(free, Fits(size));
    if k < j { assert Precedes(policy, free[k], stamps[k], free[j], stamps[j]); }
  }

  /** Best fit serves a request from a smallest sufficient block, the oldest among equals. */
  lemma BestFit(partition: int, inputs: seq<(int, int)>, size: int, j: nat)
    requires CoalesceFree(inputs)
    requires var free := Run(Initial(partition), inputs, 2).free; j < |free| && Size(free[j]) >= size
    ensures var st := StampedRun(partition, inputs, 2);
      var k := First(st.m.free, Fits(size));
      && k < |st.m.free| && Size(st.m.free[k]) >= size
      && (Size(st.m.free[k]) < Size(st.m.free[j]) || (Size(st.m.free[k]) == Size(st.m.free[j]) && st.stamps[k] <= st.stamps[j]))
  {
    RunKeepsOrder(partition, inputs, 2);
    var st := StampedRun(partition, inputs, 2);
    FirstSufficient(2, st.m.free, st.stamps, size, j);
  }

  /** First fit serves a request from the oldest sufficient block. */
  lemma FirstFit(partition: int, inputs: seq<(int, int)>, size: int, j: nat)
    requires CoalesceFree(inputs)
    requires var free := Run(Initial(partition), inputs, 1).free; j < |free| && Size(free[j]) >= size
    ensures var st := StampedRun(partition, inputs, 1);
      var k := First(st.m.free, Fits(size));
      k < |st.m.free| && Size(st.m.free[k]) >= size && st.stamps[k] <= st.stamps[j]
  {
    RunKeepsOrder(partition, inputs, 1);
    var st := StampedRun(partition, inputs, 1);
    FirstSufficient(1, st.m.free, st.stamps, size, j);
  }

  /** In a list kept by worst fit, whatever block is sufficient, the first one is, and is the largest. */
  lemma LargestFirst(policy: int, free: seq<Region>, stamps: seq<int>, j: nat)
    requires InOrder(policy, free, stamps) && policy != 1 && policy != 2 && j < |free|
    ensures Size(free[0]) > Size(free[j]) || (Size(free[0]) == Size(free[j]) && stamps[0] >= stamps[j])
  {
    if j > 0 { assert Precedes(policy, free[0], stamps[0], free[j], stamps[j]); }
  }

  /** Worst fit serves a request from a largest block, the newest among equals. */
  lemma WorstFit(partition: int, inputs: seq<(int, int)>, policy: int, size: int, j: nat)
    requires CoalesceFree(inputs) && policy != 1 && policy != 2
    requires var free := Run(Initial(partition), inputs, policy).free; j < |free| && First(free, Fits(size)) < |free|
    ensures var st := StampedRun(partition, inputs, policy);
      && First(st.m.free, Fits(size)) == 0
      && (Size(st.m.free[0]) > Size(st.m.free[j]) || (Size(st.m.free[0]) == Size(st.m.free[j]) && st.stamps[0] >= st.stamps[j]))
  {
    RunKeepsOrder(partition, inputs, policy);
    var st := StampedRun(partition, inputs, policy);
    FirstFinds(st.m.free, Fits(size));
    LargestFirst(policy, st.m.free, st.stamps, First(st.m.free, Fits(size)));
    LargestFirst(policy, st.m.free, st.stamps, j);
  }

  // ---------------------------------------------------------------- runs that coalesce

  /** If block j is sufficient for a request, the request takes a block that is no larger. */
  ghost predicate SmallestAt(free: seq<Region>, size: int, j: int) {
    0 <= j < |free| && Size(free[j]) >= size ==>
      var k := First(free, Fits(size)); k < |free| && Size(free[k]) <= Size(free[j])
  }

  /** Every request takes a smallest sufficient block. */
  ghost predicate TakesSmallest(free: seq<Region>) {
    forall size, j :: SmallestAt(free, size, j)
  }

  /** Whatever block there is, a request that can be served takes one that is no smaller. */
  ghost predicate TakesLargest(free: seq<Region>) {
    forall size, j | 0 <= j < |free| && First(free, Fits(size)) < |free| ::
      Size(free[First(free, Fits(size))]) >= Size(free[j])
  }

  /** There is a block of the same size as block j before position i. */
  ghost predicate EqualBefore(free: seq<Region>, i: int, j: int) {
    0 <= j < |free| && exists m :: 0 <= m < i && m < |free| && Size(free[m]) == Size(free[j])
  }

  /** If the larger block i comes before block j, a block of the size of j comes before both. */
  ghost predicate NoDetour(free: seq<Region>, i: int, j: int) {
    0 <= i < j < |free| && Size(free[i]) > Size(free[j]) ==> EqualBefore(free, i, j)
  }

  lemma NothingEqualBefore(free: seq<Region>, size: int, j: nat)
    requires j < |free| && Size(free[j]) >= size
    ensures var k := First(free, Fits(size)); k <= j && Size(free[k]) >= size && !EqualBefore(free, k, j)
  {
    FirstFinds(free, Fits(size));
    assert Fits(size)(free[j]);
    assert forall i | 0 <= i < First(free, Fits(size)) :: !Fits(size)(free[i]);
  }

  lemma DetourHurts(free: seq<Region>, i: int, j: int)
    requires TakesSmallest(free)
    ensures NoDetour(free, i, j)
  {
    if 0 <= i < j < |free| && Size(free[i]) > Size(free[j]) {
      assert SmallestAt(free, Size(free[j]), j);
      NothingEqualBefore(free, Size(free[j]), i);
      NothingEqualBefore(free, Size(free[j]), j);
    }
  }

  /** On any free list, every request takes a smallest sufficient block exactly when no block comes before a smaller
      one, unless a block of the smaller size comes before both. */
  lemma TakesSmallestExactly(free: seq<Region>)
    ensures TakesSmallest(free) <==> forall i, j :: NoDetour(free, i, j)
  {
    if TakesSmallest(free) {
      forall i, j ensures NoDetour(free, i, j) { DetourHurts(free, i, j); }
    }
    if forall i, j :: NoDetour(free, i, j) {
      forall size, j ensures SmallestAt(free, size, j) {
        if 0 <= j < |free| && Size(free[j]) >= size {
          NothingEqualBefore(free, size, j);
          assert NoDetour(free, First(free, Fits(size)), j);
        }
      }
    }
  }

  /** On any free list, every request that can be served takes a largest block exactly when the first block is one. */
  lemma TakesLargestExactly(free: seq<Region>)
    ensures TakesLargest(free) <==> forall j | 0 <= j < |free| :: Size(free[0]) >= Size(free[j])
  {
    if free != [] {
      var size := Size(free[0]);
      FirstFinds(free, Fits(size));
      assert Fits(size)(free[0]) && First(free, Fits(size)) == 0;
    }
    if forall j | 0 <= j < |free| :: Size(free[0]) >= Size(free[j]) {
      forall size, j | 0 <= j < |free| && First(free, Fits(size)) < |free|
        ensures Size(free[First(free, Fits(size))]) >= Size(free[j])
      {
        FirstFinds(free, Fits(size));
        assert Fits(size)(free[0]);
      }
    }
  }

  lemma RunOneMore(m: Memory, inputs: seq<(int, int)>, last: (int, int), policy: int, before: Memory, after: Memory)
    requires Run(m, inputs, policy) == before && Execute(before, last, policy) == after
    ensures Run(m, inputs + [last], policy) == after
  {
    assert (inputs + [last])[..|inputs|] == inputs;
  }

  /** Coalescing two regions that are listed in the wrong order and do not touch. */
  lemma CoalescePair(a: Region, b: Region)
    requires b.start < a.start && b.end + 1 != a.start
    ensures Coalesce([a, b]) == [b, a]
  {
    assert ByAddress([], a) == [a];
    assert ByAddress([a], b) == [b, a];
    assert [a, b][1..] == [b] && [b][1..] == [];
    assert SortInto([a, b], []) == SortInto([b], [a]) == SortInto([], [b, a]) == [b, a];
    assert Merge([b, a]) == [b] + Merge([b, a][1..]) == [b, a];
  }

  /** Taking n units off the one free block of a memory whose allocated blocks all start earlier. */
  lemma TakeFromOnly(free: Region, alloc: seq<Region>, pid: int, n: int, policy: int)
    requires pid > 0 && 1 <= n < Size(free) && |alloc| <= 1 && forall i | 0 <= i < |alloc| :: alloc[i].start < free.start
    ensures Execute(Memory([free], alloc), (pid, n), policy) ==
      Memory([Region(0, free.start + n, free.end)], alloc + [Region(pid, free.start, free.start + n - 1)])
  {
    var a, rest := Granted(free, pid, n), Fragment(free, n);
    FirstUnique([free], Fits(n), 0);
    assert RemoveAt([free], 0) == [] && ByPolicy(policy, [], rest) == [rest];
    FirstUnique(alloc, StartsNoEarlier(a), |alloc|);
    assert ByAddress(alloc, a) == alloc + [a];
  }

  /** Returning the first of two allocated blocks, which is put behind the one free block. */
  lemma ReturnBehind(free: Region, a: Region, b: Region, policy: int)
    requires a.pid == 1 && b.pid != 1 && PolicyPosition(policy, [free], a.(pid := 0)) == 1
    ensures Execute(Memory([free], [a, b]), (-1, 0), policy) == Memory([free, a.(pid := 0)], [b])
  {
    FirstUnique([a, b], BelongsTo(1), 0);
    assert RemoveAt([a, b], 0) == [b] && ByPolicy(policy, [free], a.(pid := 0)) == [free, a.(pid := 0)];
  }

  // Of 6 units process 1 takes the first n and process 2 the next one; process 1 returns its own; then coalesce.

  lemma FirstTakes(n: int, policy: int)
    requires n == 1 || n == 3
    ensures Run(Initial(6), [(1, n)], policy) == Memory([Region(0, n, 5)], [Region(1, 0, n - 1)])
  {
    var a, after := Region(1, 0, n - 1), Memory([Region(0, n, 5)], [Region(1, 0, n - 1)]);
    TakeFromOnly(Region(0, 0, 5), [], 1, n, policy);
    assert [] + [a] == [a] && [] + [(1, n)] == [(1, n)];
    RunOneMore(Initial(6), [], (1, n), policy, Initial(6), after);
  }

  lemma SecondTakes(n: int, policy: int)
    requires n == 1 || n == 3
    ensures Run(Initial(6), [(1, n), (2, 1)], policy) ==
      Memory([Region(0, n + 1, 5)], [Region(1, 0, n - 1), Region(2, n, n)])
  {
    var a, b := Region(1, 0, n - 1), Region(2, n, n);
    FirstTakes(n, policy);
    TakeFromOnly(Region(0, n, 5), [a], 2, 1, policy);
    assert [a] + [b] == [a, b] && [(1, n)] + [(2, 1)] == [(1, n), (2, 1)];
    RunOneMore(Initial(6), [(1, n)], (2, 1), policy, Memory([Region(0, n, 5)], [a]), Memory([Region(0, n + 1, 5)], [a, b]));
  }

  lemma FirstReturns(n: int, policy: int)
    requires (n == 3 && policy == 2) || (n == 1 && policy == 3)
    ensures Run(Initial(6), [(1, n), (2, 1), (-1, 0)], policy) ==
      Memory([Region(0, n + 1, 5), Region(0, 0, n - 1)], [Region(2, n, n)])
  {
    var left, a, b := Region(0, n + 1, 5), Region(1, 0, n - 1), Region(2, n, n);
    var f := Region(0, 0, n - 1);
    SecondTakes(n, policy);
    FirstUnique([left], if policy == 2 then IsLargerThan(f) else IsNoLargerThan(f), 1);
    ReturnBehind(left, a, b, policy);
    assert [(1, n), (2, 1)] + [(-1, 0)] == [(1, n), (2, 1), (-1, 0)];
    RunOneMore(Initial(6), [(1, n), (2, 1)], (-1, 0), policy, Memory([left], [a, b]), Memory([left, f], [b]));
  }

  lemma ThenCoalesced(n: int, policy: int)
    requires (n == 3 && policy == 2) || (n == 1 && policy == 3)
    ensures Run(Initial(6), [(1, n), (2, 1), (-1, 0), (0, 0)], policy) ==
      Memory([Region(0, 0, n - 1), Region(0, n + 1, 5)], [Region(2, n, n)])
  {
    var left, f, b := Region(0, n + 1, 5), Region(0, 0, n - 1), Region(2, n, n);
    FirstReturns(n, policy);
    CoalescePair(left, f);
    assert [(1, n), (2, 1), (-1, 0)] + [(0, 0)] == [(1, n), (2, 1), (-1, 0), (0, 0)];
    RunOneMore(Initial(6), [(1, n), (2, 1), (-1, 0)], (0, 0), policy, Memory([left, f], [b]), Memory([f, left], [b]));
  }

  /** Best fit after a coalesce: a run after which a request of 2 takes a block of 3 although there is one of 2. */
  lemma BestFitLost()
    ensures var free := Run(Initial(6), [(1, 3), (2, 1), (-1, 0), (0, 0)], 2).free;
      && free == [Region(0, 0, 2), Region(0, 4, 5)]
      && First(free, Fits(2)) == 0 && Size(free[0]) == 3 && Size(free[1]) == 2
      && !TakesSmallest(free)
  {
    ThenCoalesced(3, 2);
    var free := [Region(0, 0, 2), Region(0, 4, 5)];
    TakesSmallestExactly(free);
    assert !NoDetour(free, 0, 1);
  }

  /** Worst fit after a coalesce: a run after which a request of 1 takes a block of 1 although there is one of 4. */
  lemma WorstFitLost()
    ensures var free := Run(Initial(6), [(1, 1), (2, 1), (-1, 0), (0, 0)], 3).free;
      && free == [Region(0, 0, 0), Region(0, 2, 5)]
      && First(free, Fits(1)) == 0 && Size(free[0]) == 1 && Size(free[1]) == 4
      && !TakesLargest(free)
  {
    ThenCoalesced(1, 3);
    TakesLargestExactly([Region(0, 0, 0), Region(0, 2, 5)]);
  }
}
