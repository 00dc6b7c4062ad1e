/**
 The allocator's partition: how often each address is covered, what every command keeps, and the canonical
 form that coalescing computes.
 */
module Partition {
  import opened Regions
  import opened Sequences

  predicate Contains(r: Region, a: int) { r.start <= a <= r.end }

  /** How many regions of v contain address a. */
  function Cover(v: seq<Region>, a: int): nat {
    if v == [] then 0 else (if Contains(v[0], a) then 1 else 0) + Cover(v[1..], a)
  }

  lemma {:induction false} CoverConcat(u: seq<Region>, v: seq<Region>, a: int)
    ensures Cover(u + v, a) == Cover(u, a) + Cover(v, a)
  {
    if u == [] {
      assert u + v == v;
    } else {
      CoverConcat(u[1..], v, a);
      assert (u + v)[1..] == u[1..] + v;
    }
  }

  lemma CoverInsert(v: seq<Region>, k: nat, x: Region, a: int)
    requires k <= |v|
    ensures Cover(InsertAt(v, k, x), a) == Cover(v, a) + Cover([x], a)
  {
    CoverConcat(v[..k] + [x], v[k..], a);
    CoverConcat(v[..k], [x], a);
    CoverConcat(v[..k], v[k..], a);
    assert v == v[..k] + v[k..];
  }

  lemma CoverRemove(v: seq<Region>, k: nat, a: int)
    requires k < |v|
    ensures Cover(RemoveAt(v, k), a) == Cover(v, a) - Cover([v[k]], a)
  {
    CoverInsert(RemoveAt(v, k), k, v[k], a);
    assert InsertAt(RemoveAt(v, k), k, v[k]) == v;
  }

  lemma CoverTerm(v: seq<Region>, i: nat, a: int)
    requires i < |v| && Contains(v[i], a)
    ensures Cover(v, a) >= 1
  {
    CoverRemove(v, i, a);
  }

  lemma CoverTwo(v: seq<Region>, i: nat, j: nat, a: int)
    requires i < j < |v| && Contains(v[i], a) && Contains(v[j], a)
    ensures Cover(v, a) >= 2
  {
    CoverRemove(v, j, a);
    CoverTerm(RemoveAt(v, j), i, a);
  }

  lemma {:induction false} CoverWitness(v: seq<Region>, a: int) returns (i: nat)
    requires Cover(v, a) >= 1
    ensures i < |v| && Contains(v[i], a)
  {
    if Contains(v[0], a) {
      i := 0;
    } else {
      i := CoverWitness(v[1..], a);
      i := i + 1;
    }
  }

  lemma {:induction false} CoverNone(v: seq<Region>, a: int)
    requires forall i | 0 <= i < |v| :: !Contains(v[i], a)
    ensures Cover(v, a) == 0
  {
    if v != [] { CoverNone(v[1..], a); }
  }

  lemma CoverIn(v: seq<Region>, i: nat, a: int)
    requires i < |v|
    ensures Contains(v[i], a) ==> Cover(v, a) >= 1
  {
    if Contains(v[i], a) { CoverTerm(v, i, a); }
  }

  // ---------------------------------------------------------------- the invariant

  ghost predicate NonEmpty(v: seq<Region>) {
    forall i | 0 <= i < |v| :: v[i].start <= v[i].end
  }

  ghost predicate AllFree(v: seq<Region>) {
    forall i | 0 <= i < |v| :: v[i].pid == 0
  }

  ghost predicate AllOwned(v: seq<Region>) {
    forall i | 0 <= i < |v| :: v[i].pid > 0
  }

  ghost predicate SortedByAddress(v: seq<Region>) {
    forall i, j | 0 <= i < j < |v| :: v[i].start < v[j].start
  }

  ghost predicate CoveredOnce(partition: int, m: Memory, a: int) {
    Cover(m.free, a) + Cover(m.alloc, a) == if 0 <= a < partition then 1 else 0
  }

  /** Every address of the partition is in exactly one block, and no other address is in any. */
  ghost predicate Inv(partition: int, m: Memory) {
    && (forall a :: CoveredOnce(partition, m, a))
    && NonEmpty(m.free) && NonEmpty(m.alloc)
    && AllFree(m.free) && AllOwned(m.alloc) && SortedByAddress(m.alloc)
  }

  /** No address is in more than one region of v. */
  ghost predicate Disjoint(v: seq<Region>) {
    forall a :: Cover(v, a) <= 1
  }

  lemma InvDisjoint(partition: int, m: Memory)
    requires Inv(partition, m)
    ensures Disjoint(m.free) && Disjoint(m.alloc)
  {
    forall a ensures Cover(m.free, a) <= 1 && Cover(m.alloc, a) <= 1 {
      assert CoveredOnce(partition, m, a);
    }
  }

  /** The blocks are pairwise disjoint, also across the two lists, and lie inside the partition. */
  lemma PairwiseDisjoint(partition: int, m: Memory, i: nat, j: nat, a: int)
    requires Inv(partition, m) && i < j < |m.free + m.alloc|
    ensures !(Contains((m.free + m.alloc)[i], a) && Contains((m.free + m.alloc)[j], a))
    ensures Contains((m.free + m.alloc)[i], a) ==> 0 <= a < partition
  {
    var all := m.free + m.alloc;
    CoverConcat(m.free, m.alloc, a);
    assert CoveredOnce(partition, m, a);
    if Contains(all[i], a) {
      CoverTerm(all, i, a);
      if Contains(all[j], a) { CoverTwo(all, i, j, a); }
    }
  }

  /** Inserting by address a region that overlaps none keeps the order strict. */
  lemma SortedInsert(v: seq<Region>, b: Region)
    requires SortedByAddress(v) && NonEmpty(v) && b.start <= b.end
    requires Cover(v, b.start) == 0
    ensures SortedByAddress(ByAddress(v, b)) && NonEmpty(ByAddress(v, b))
  {
    var k, r := First(v, StartsNoEarlier(b)), ByAddress(v, b);
    FirstFinds(v, StartsNoEarlier(b));
    if k < |v| { CoverIn(v, k, b.start); }
    assert k < |v| ==> b.start < v[k].start;
    forall i, j | 0 <= i < j < |r| ensures r[i].start < r[j].start {
      if j > k { assert v[k].start <= v[j - 1].start || j == k + 1; }
    }
  }

  lemma FreeAfterCover(free: seq<Region>, k: nat, size: int, policy: int, x: int)
    requires k < |free|
    ensures Cover(FreeAfter(free, k, size, policy), x) == Cover(free, x) - Cover([free[k]], x) + Cover([Fragment(free[k], size)], x)
  {
    CoverRemove(free, k, x);
    var rest, f := RemoveAt(free, k), Fragment(free[k], size);
    CoverInsert(rest, PolicyPosition(policy, rest, f), f, x);
  }

  /** The cut of a free block into the part granted and the part left covers the same addresses. */
  lemma AllocateCovers(partition: int, m: Memory, pid: int, size: int, policy: int, x: int)
    requires CoveredOnce(partition, m, x) && size >= 1
    ensures CoveredOnce(partition, Allocate(m, pid, size, policy), x)
  {
    var k := First(m.free, Fits(size));
    if k < |m.free| {
      var b := m.free[k];
      var a := Granted(b, pid, size);
      FreeAfterCover(m.free, k, size, policy, x);
      CoverInsert(m.alloc, First(m.alloc, StartsNoEarlier(a)), a, x);
      FirstFinds(m.free, Fits(size));
      assert Cover([b], x) == Cover([a], x) + Cover([Fragment(b, size)], x);
    }
  }

  lemma FreeListKept(v: seq<Region>, k: nat)
    requires NonEmpty(v) && AllFree(v) && k < |v|
    ensures NonEmpty(RemoveAt(v, k)) && AllFree(RemoveAt(v, k))
  {
  }

  lemma FreeListGrows(v: seq<Region>, k: nat, b: Region)
    requires NonEmpty(v) && AllFree(v) && k <= |v| && b.pid == 0 && b.start <= b.end
    ensures NonEmpty(InsertAt(v, k, b)) && AllFree(InsertAt(v, k, b))
  {
  }

  lemma FreeAfterKept(free: seq<Region>, k: nat, size: int, policy: int)
    requires NonEmpty(free) && AllFree(free) && k < |free|
    ensures NonEmpty(FreeAfter(free, k, size, policy)) && AllFree(FreeAfter(free, k, size, policy))
  {
    FreeListKept(free, k);
    var rest, f := RemoveAt(free, k), Fragment(free[k], size);
    if size < Size(free[k]) { FreeListGrows(rest, PolicyPosition(policy, rest, f), f); }
  }

  lemma AllocGrows(partition: int, m: Memory, k: nat, pid: int, size: int)
    requires Inv(partition, m) && k < |m.free| && pid > 0 && size >= 1
    ensures var r := ByAddress(m.alloc, Granted(m.free[k], pid, size));
      NonEmpty(r) && AllOwned(r) && SortedByAddress(r)
  {
    var b := m.free[k];
    assert CoveredOnce(partition, m, b.start);
    CoverIn(m.free, k, b.start);
    SortedInsert(m.alloc, Granted(b, pid, size));
  }

  lemma AllocateKeeps(partition: int, m: Memory, pid: int, size: int, policy: int)
    requires Inv(partition, m) && pid > 0 && size >= 1
    ensures Inv(partition, Allocate(m, pid, size, policy))
  {
    forall x ensures CoveredOnce(partition, Allocate(m, pid, size, policy), x) {
      assert CoveredOnce(partition, m, x);
      AllocateCovers(partition, m, pid, size, policy, x);
    }
    var k := First(m.free, Fits(size));
    if k < |m.free| {
      FreeAfterKept(m.free, k, size, policy);
      AllocGrows(partition, m, k, pid, size);
    }
  }

  lemma DeallocateKeeps(partition: int, m: Memory, pid: int, policy: int)
    requires Inv(partition, m)
    ensures Inv(partition, Deallocate(m, pid, policy))
  {
    var k, m' := First(m.alloc, BelongsTo(pid)), Deallocate(m, pid, policy);
    if k < |m.alloc| {
      var f := m.alloc[k].(pid := 0);
      forall x ensures CoveredOnce(partition, m', x) {
        assert CoveredOnce(partition, m, x);
        CoverRemove(m.alloc, k, x);
        CoverInsert(m.free, PolicyPosition(policy, m.free, f), f, x);
        assert Cover([f], x) == Cover([m.alloc[k]], x);
      }
      FreeListGrows(m.free, PolicyPosition(policy, m.free, f), f);
    }
  }

  // ---------------------------------------------------------------- coalescing

  /** Sorted by address with a gap between neighbours. */
  ghost predicate Canonical(v: seq<Region>) {
    && NonEmpty(v) && AllFree(v)
    && forall i, j | 0 <= i < j < |v| :: v[i].end + 1 < v[j].start
  }

  /** Sorted by address without overlap. */
  ghost predicate Ordered(v: seq<Region>) {
    NonEmpty(v) && AllFree(v) && forall i, j | 0 <= i < j < |v| :: v[i].end < v[j].start
  }

  lemma SortedIsOrdered(v: seq<Region>)
    requires SortedByAddress(v) && NonEmpty(v) && AllFree(v) && Disjoint(v)
    ensures Ordered(v)
  {
    forall i, j | 0 <= i < j < |v| ensures v[i].end < v[j].start {
      if v[j].start <= v[i].end { CoverTwo(v, i, j, v[j].start); }
    }
  }

  lemma {:induction false} SortIntoCover(v: seq<Region>, s: seq<Region>, a: int)
    ensures Cover(SortInto(v, s), a) == Cover(v, a) + Cover(s, a)
  {
    if v != [] {
      SortIntoCover(v[1..], ByAddress(s, v[0]), a);
      CoverInsert(s, First(s, StartsNoEarlier(v[0])), v[0], a);
    }
  }

  lemma {:induction false} SortIntoSorted(v: seq<Region>, s: seq<Region>)
    requires SortedByAddress(s) && NonEmpty(s) && AllFree(s) && NonEmpty(v) && AllFree(v)
    requires forall a :: Cover(v, a) + Cover(s, a) <= 1
    ensures var r := SortInto(v, s); SortedByAddress(r) && NonEmpty(r) && AllFree(r)
    decreases |v|
  {
    if v != [] {
      var b, s' := v[0], ByAddress(s, v[0]);
      assert Cover(v, b.start) >= 1 && Cover(v, b.start) + Cover(s, b.start) <= 1;
      SortedInsert(s, b);
      forall a ensures Cover(v[1..], a) + Cover(s', a) <= 1 {
        CoverInsert(s, First(s, StartsNoEarlier(b)), b, a);
        assert Cover(v, a) + Cover(s, a) <= 1;
      }
      SortIntoSorted(v[1..], s');
    }
  }

  lemma {:induction false} MergeCover(v: seq<Region>, a: int)
    requires Ordered(v)
    ensures Cover(Merge(v), a) == Cover(v, a)
    decreases |v|
  {
    if |v| >= 2 {
      var joined := v[0].(end := v[1].end);
      if v[0].end + 1 == v[1].start {
        JoinIsOrdered(v);
        MergeCover([joined] + v[2..], a);
        assert ([joined] + v[2..])[1..] == v[2..] == v[1..][1..];
      } else {
        MergeCover(v[1..], a);
      }
    }
  }

  lemma JoinIsOrdered(v: seq<Region>)
    requires Ordered(v) && |v| >= 2 && v[0].end + 1 == v[1].start
    ensures Ordered([v[0].(end := v[1].end)] + v[2..])
  {
    var r := [v[0].(end := v[1].end)] + v[2..];
    forall i, j | 0 <= i < j < |r| ensures r[i].end < r[j].start {
      assert v[i + 1].end < v[j + 1].start;
    }
  }

  /** Merging keeps the first start, and leaves a gap after every block. */
  lemma {:induction false} MergeCanonical(v: seq<Region>)
    requires Ordered(v)
    ensures Canonical(Merge(v))
    ensures v != [] ==> Merge(v) != [] && Merge(v)[0].start == v[0].start
    decreases |v|
  {
    if |v| >= 2 {
      if v[0].end + 1 == v[1].start {
        JoinIsOrdered(v);
        MergeCanonical([v[0].(end := v[1].end)] + v[2..]);
      } else {
        MergeCanonical(v[1..]);
        var r := Merge(v[1..]);
        assert v[0].end + 1 < r[0].start;
        forall j | 0 <= j < |r| ensures v[0].end + 1 < r[j].start {
          if j > 0 { assert r[0].end + 1 < r[j].start; }
        }
      }
    }
  }

  /** Coalescing covers the same addresses, sorted and with gaps. */
  lemma CoalesceIsCanonical(v: seq<Region>)
    requires NonEmpty(v) && AllFree(v) && Disjoint(v)
    ensures Canonical(Coalesce(v))
    ensures forall a :: Cover(Coalesce(v), a) == Cover(v, a)
  {
    SortIntoSorted(v, []);
    var s := SortInto(v, []);
    forall a ensures Cover(s, a) == Cover(v, a) { SortIntoCover(v, [], a); }
    SortedIsOrdered(s);
    MergeCanonical(s);
    forall a ensures Cover(Coalesce(v), a) == Cover(v, a) { MergeCover(s, a); }
  }

  ghost predicate SameAddresses(u: seq<Region>, v: seq<Region>) {
    forall a :: Cover(u, a) > 0 <==> Cover(v, a) > 0
  }

  /** Nothing before the first block, and nothing right after it. */
  lemma CanonicalNotBefore(v: seq<Region>, a: int)
    requires Canonical(v) && v != []
    ensures a < v[0].start || a == v[0].end + 1 ==> Cover(v, a) == 0
  {
    if a < v[0].start || a == v[0].end + 1 {
      forall i | 0 <= i < |v| ensures !Contains(v[i], a) {
        assert i > 0 ==> v[0].end + 1 < v[i].start;
      }
      CoverNone(v, a);
    }
  }

  lemma FirstBlockAgrees(u: seq<Region>, v: seq<Region>)
    requires Canonical(u) && Canonical(v) && SameAddresses(u, v) && u != [] && v != []
    ensures u[0] == v[0]
  {
    CoverIn(u, 0, u[0].start);
    CoverIn(v, 0, v[0].start);
    CanonicalNotBefore(v, u[0].start);
    CanonicalNotBefore(u, v[0].start);
    CanonicalNotBefore(u, u[0].end + 1);
    CanonicalNotBefore(v, v[0].end + 1);
    CoverIn(v, 0, u[0].end + 1);
    CoverIn(u, 0, v[0].end + 1);
  }

  lemma CoversSomething(v: seq<Region>)
    requires NonEmpty(v)
    ensures v != [] ==> Cover(v, v[0].start) >= 1
  {
    if v != [] { CoverIn(v, 0, v[0].start); }
  }

  /** Two canonical lists of the same addresses are equal. */
  lemma {:induction false} CanonicalUnique(u: seq<Region>, v: seq<Region>)
    requires Canonical(u) && Canonical(v) && SameAddresses(u, v)
    ensures u == v
    decreases |u|
  {
    CoversSomething(u);
    CoversSomething(v);
    if u != [] {
      FirstBlockAgrees(u, v);
      forall a ensures Cover(u[1..], a) > 0 <==> Cover(v[1..], a) > 0 {
        assert Cover(u, a) > 0 <==> Cover(v, a) > 0;
        if Contains(u[0], a) {
          TailMisses(u, a);
          TailMisses(v, a);
        }
      }
      CanonicalUnique(u[1..], v[1..]);
    }
  }

  lemma TailMisses(v: seq<Region>, a: int)
    requires Canonical(v) && v != [] && Contains(v[0], a)
    ensures Cover(v[1..], a) == 0
  {
    forall i | 0 <= i < |v[1..]| ensures !Contains(v[1..][i], a) {
      assert v[0].end + 1 < v[i + 1].start;
    }
    CoverNone(v[1..], a);
  }

  /** The result of coalescing depends on the set of free addresses only: not on order, on splits, or on the policy. */
  lemma CoalesceDependsOnAddresses(u: seq<Region>, v: seq<Region>)
    requires NonEmpty(u) && AllFree(u) && Disjoint(u) && NonEmpty(v) && AllFree(v) && Disjoint(v)
    ensures SameAddresses(u, v) <==> Coalesce(u) == Coalesce(v)
  {
    CoalesceIsCanonical(u);
    CoalesceIsCanonical(v);
    if SameAddresses(u, v) {
      forall a ensures Cover(Coalesce(u), a) > 0 <==> Cover(Coalesce(v), a) > 0 {
        assert Cover(u, a) > 0 <==> Cover(v, a) > 0;
      }
      CanonicalUnique(Coalesce(u), Coalesce(v));
    }
    if Coalesce(u) == Coalesce(v) {
      forall a ensures Cover(u, a) > 0 <==> Cover(v, a) > 0 {
        assert Cover(Coalesce(u), a) == Cover(u, a) && Cover(Coalesce(v), a) == Cover(v, a);
      }
    }
  }

  /** Coalescing a second time changes nothing. */
  lemma CoalesceIdempotent(v: seq<Region>)
    requires NonEmpty(v) && AllFree(v) && Disjoint(v)
    ensures Coalesce(Coalesce(v)) == Coalesce(v)
  {
    CoalesceIsCanonical(v);
    forall a ensures Cover(Coalesce(v), a) <= 1 { assert Cover(v, a) <= 1; }
    CoalesceDependsOnAddresses(Coalesce(v), v);
  }

  /** In a canonical list, consecutive covered addresses are in one block. */
  lemma {:induction false} SameBlock(v: seq<Region>, i: nat, x: int, n: nat)
    requires Canonical(v) && i < |v| && Contains(v[i], x)
    requires forall a | x <= a < x + n :: Cover(v, a) >= 1
    ensures n >= 1 ==> Contains(v[i], x + n - 1)
  {
    if n >= 2 {
      SameBlock(v, i, x, n - 1);
      var a := x + n - 1;
      assert Cover(v, a) >= 1;
      var j := CoverWitness(v, a);
      assert i == j;
    }
  }

  /** Whenever n consecutive addresses are free, coalescing yields a block of at least that size. */
  lemma CoalesceFindsRoom(v: seq<Region>, x: int, n: nat) returns (i: nat)
    requires NonEmpty(v) && AllFree(v) && Disjoint(v) && n >= 1
    requires forall a | x <= a < x + n :: Cover(v, a) >= 1
    ensures i < |Coalesce(v)| && Size(Coalesce(v)[i]) >= n
  {
    CoalesceIsCanonical(v);
    var r := Coalesce(v);
    forall a | x <= a < x + n ensures Cover(r, a) >= 1 { assert Cover(v, a) >= 1; }
    i := CoverWitness(r, x);
    SameBlock(r, i, x, n);
  }

  lemma CoalesceKeeps(partition: int, m: Memory)
    requires Inv(partition, m)
    ensures Inv(partition, Memory(Coalesce(m.free), m.alloc))
  {
    InvDisjoint(partition, m);
    CoalesceIsCanonical(m.free);
    var m' := Memory(Coalesce(m.free), m.alloc);
    forall a ensures CoveredOnce(partition, m', a) {
      assert CoveredOnce(partition, m, a);
    }
  }

  lemma InitialInv(partition: int)
    requires partition >= 1
    ensures Inv(partition, Initial(partition))
  {
    forall a ensures CoveredOnce(partition, Initial(partition), a) {
      assert Cover([], a) == 0;
    }
  }

  /** Every run, under every policy, keeps the partition. */
  lemma {:induction false} RunKeeps(partition: int, inputs: seq<(int, int)>, policy: int)
    requires partition >= 1 && Requests(inputs)
    ensures Inv(partition, Run(Initial(partition), inputs, policy))
  {
    if inputs == [] {
      InitialInv(partition);
    } else {
      var before, last := inputs[..|inputs| - 1], inputs[|inputs| - 1];
      RunKeeps(partition, before, policy);
      var m := Run(Initial(partition), before, policy);
      if last.0 != COALESCE && last.0 > 0 {
        AllocateKeeps(partition, m, last.0, last.1, policy);
      } else if last.0 != COALESCE && last.0 < 0 {
        DeallocateKeeps(partition, m, Abs(last.0), policy);
      } else {
        CoalesceKeeps(partition, m);
      }
    }
  }

  // ---------------------------------------------------------------- requests that fail, and requests undone

  /** A request fails exactly when no free block is big enough, and then changes nothing. */
  lemma FailsWhenTooBig(partition: int, m: Memory, pid: int, size: int, policy: int)
    requires Inv(partition, m) && pid > 0 && size >= 1
    ensures Allocate(m, pid, size, policy) == m <==> forall i | 0 <= i < |m.free| :: Size(m.free[i]) < size
    ensures Allocate(m, pid, size, policy) != m ==> |Allocate(m, pid, size, policy).alloc| == |m.alloc| + 1
  {
    FirstFinds(m.free, Fits(size));
  }

  /** For a pid that holds nothing, allocating and then deallocating restores the allocated list,
      and coalescing afterwards gives the same free list as coalescing without them. */
  lemma AllocateUndone(partition: int, m: Memory, pid: int, size: int, policy: int)
    requires Inv(partition, m) && pid > 0 && size >= 1
    requires forall i | 0 <= i < |m.alloc| :: m.alloc[i].pid != pid
    requires Allocate(m, pid, size, policy) != m
    ensures var m' := Deallocate(Allocate(m, pid, size, policy), pid, policy);
      m'.alloc == m.alloc && Coalesce(m'.free) == Coalesce(m.free)
  {
    var m1 := Allocate(m, pid, size, policy);
    var m2 := Deallocate(m1, pid, policy);
    AllocateKeeps(partition, m, pid, size, policy);
    DeallocateKeeps(partition, m1, pid, policy);
    InsertedThenRemoved(m.alloc, Granted(m.free[First(m.free, Fits(size))], pid, size));
    SameFreeAddresses(partition, m, m2);
  }

  lemma InsertedThenRemoved(v: seq<Region>, a: Region)
    requires forall i | 0 <= i < |v| :: v[i].pid != a.pid
    ensures var r := ByAddress(v, a);
      var k := First(r, BelongsTo(a.pid));
      k < |r| && RemoveAt(r, k) == v
  {
    var k := First(v, StartsNoEarlier(a));
    FirstUnique(ByAddress(v, a), BelongsTo(a.pid), k);
  }

  /** The addresses that are not allocated determine the coalesced free list. */
  lemma SameFreeAddresses(partition: int, m: Memory, m': Memory)
    requires Inv(partition, m) && Inv(partition, m') && m'.alloc == m.alloc
    ensures Coalesce(m'.free) == Coalesce(m.free)
  {
    InvDisjoint(partition, m);
    InvDisjoint(partition, m');
    forall x ensures Cover(m'.free, x) > 0 <==> Cover(m.free, x) > 0 {
      assert CoveredOnce(partition, m, x) && CoveredOnce(partition, m', x);
    }
    CoalesceDependsOnAddresses(m'.free, m.free);
  }

  /** Once nothing is allocated, coalescing leaves the one block that the partition started with. */
  lemma AllFreedIsWhole(partition: int, m: Memory)
    requires partition >= 1 && Inv(partition, m) && m.alloc == []
    ensures Memory(Coalesce(m.free), m.alloc) == Initial(partition)
  {
    var whole := Initial(partition);
    InitialInv(partition);
    InvDisjoint(partition, m);
    CoalesceIsCanonical(m.free);
    forall a ensures Cover(Coalesce(m.free), a) > 0 <==> Cover(whole.free, a) > 0 {
      assert CoveredOnce(partition, m, a) && CoveredOnce(partition, whole, a);
    }
    CanonicalUnique(Coalesce(m.free), whole.free);
  }
}
