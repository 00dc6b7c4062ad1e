/** What the lines of the allocator's input mean: which block serves a request, which block a return frees, and where blocks go. */
module MemoryMeaning {
  import opened Regions
  import opened Sequences
  import opened Partition

  /** r is v with b put in at position j. */
  ghost predicate PutIn(v: seq<Region>, b: Region, j: nat, r: seq<Region>) {
    j <= |v| && r == v[..j] + [b] + v[j..]
  }

  /** r is v with b put in before the first region that does not start earlier. */
  ghost predicate PutByAddress(v: seq<Region>, b: Region, j: nat, r: seq<Region>) {
    && PutIn(v, b, j, r)
    && (forall i | 0 <= i < j :: v[i].start < b.start)
    && (j < |v| ==> v[j].start >= b.start)
  }

  /** r is v with b put in as the policy keeps the free list: 1 at the end, 2 before the first larger region, anything else
      before the first that is no larger. */
  ghost predicate PutByPolicy(policy: int, v: seq<Region>, b: Region, j: nat, r: seq<Region>) {
    && PutIn(v, b, j, r)
    && if policy == 1 then j == |v|
       else if policy == 2 then
         (forall i | 0 <= i < j :: v[i].end - v[i].start <= b.end - b.start) && (j < |v| ==> v[j].end - v[j].start > b.end - b.start)
       else
         (forall i | 0 <= i < j :: v[i].end - v[i].start > b.end - b.start) && (j < |v| ==> v[j].end - v[j].start <= b.end - b.start)
  }

  lemma PlacedByAddress(v: seq<Region>, b: Region) returns (j: nat)
    ensures PutByAddress(v, b, j, ByAddress(v, b))
  {
    j := First(v, StartsNoEarlier(b));
    FirstFinds(v, StartsNoEarlier(b));
  }

  lemma PlacedByPolicy(policy: int, v: seq<Region>, b: Region) returns (j: nat)
    ensures PutByPolicy(policy, v, b, j, ByPolicy(policy, v, b))
  {
    j := PolicyPosition(policy, v, b);
    FirstFinds(v, IsLargerThan(b));
    FirstFinds(v, IsNoLargerThan(b));
  }

  /** A request for size units by pid: block k of the free list has them, and none before it has. */
  ghost predicate ServesFirst(free: seq<Region>, size: int, k: nat) {
    k < |free| && free[k].end - free[k].start + 1 >= size && forall i | 0 <= i < k :: free[i].end - free[i].start + 1 < size
  }

  /** A request, on any lists: if no free block is big enough nothing changes.  Otherwise the first that is big enough leaves
      the free list; its lower end, of the requested size, goes to its place by address among the allocated blocks; and the
      rest of it, if there is any, goes back to the free list by policy. */
  lemma RequestMeaning(m: Memory, pid: int, size: int, policy: int) returns (k: nat, i: nat, j: nat)
    ensures var m' := Allocate(m, pid, size, policy);
      if forall l | 0 <= l < |m.free| :: m.free[l].end - m.free[l].start + 1 < size then m' == m
      else
        && ServesFirst(m.free, size, k)
        && var b, rest := m.free[k], m.free[..k] + m.free[k + 1..];
        && PutByAddress(m.alloc, Region(pid, b.start, b.start + size - 1), i, m'.alloc)
        && if b.end - b.start + 1 == size then m'.free == rest
           else PutByPolicy(policy, rest, Region(0, b.start + size, b.end), j, m'.free)
  {
    k, i, j := First(m.free, Fits(size)), 0, 0;
    FirstFinds(m.free, Fits(size));
    if k < |m.free| {
      i := PlacedByAddress(m.alloc, Granted(m.free[k], pid, size));
      j := PlacedByPolicy(policy, RemoveAt(m.free, k), Fragment(m.free[k], size));
    }
  }

  /** A return, on any lists: if no allocated block belongs to pid nothing changes.  Otherwise the first that does leaves the
      allocated blocks, and goes to the free list by policy as nobody's; every address of it is free once more often. */
  lemma ReturnMeaning(m: Memory, pid: int, policy: int) returns (k: nat, j: nat)
    ensures var m' := Deallocate(m, pid, policy);
      if forall l | 0 <= l < |m.alloc| :: m.alloc[l].pid != pid then m' == m
      else
        && k < |m.alloc| && m.alloc[k].pid == pid && (forall l | 0 <= l < k :: m.alloc[l].pid != pid)
        && (SortedByAddress(m.alloc) ==> forall l | 0 <= l < |m.alloc| && m.alloc[l].pid == pid :: m.alloc[k].start <= m.alloc[l].start)
        && m'.alloc == m.alloc[..k] + m.alloc[k + 1..]
        && PutByPolicy(policy, m.free, Region(0, m.alloc[k].start, m.alloc[k].end), j, m'.free)
        && forall a :: Cover(m'.free, a) == Cover(m.free, a) + if m.alloc[k].start <= a <= m.alloc[k].end then 1 else 0
  {
    k, j := First(m.alloc, BelongsTo(pid)), 0;
    FirstFinds(m.alloc, BelongsTo(pid));
    if k < |m.alloc| {
      var b := m.alloc[k].(pid := 0);
      j := PlacedByPolicy(policy, m.free, b);
      forall a ensures Cover(Deallocate(m, pid, policy).free, a) == Cover(m.free, a) + if m.alloc[k].start <= a <= m.alloc[k].end then 1 else 0 {
        CoverInsert(m.free, PolicyPosition(policy, m.free, b), b, a);
      }
    }
  }

  /** Which command a line is: a positive number asks for memory for that process, a negative one returns that of the process
      of the opposite number, and 0 and -99999 coalesce the free list, so that process 99999 cannot return its memory. */
  lemma LineMeaning(partition: int, m: Memory, x: int, y: int, policy: int)
    requires Inv(partition, m)
    ensures var m' := Execute(m, (x, y), policy);
      if x > 0 then m' == Allocate(m, x, y, policy)
      else if x == 0 || x == -99999 then m'.alloc == m.alloc && Canonical(m'.free) && SameAddresses(m'.free, m.free)
      else m' == Deallocate(m, -x, policy)
  {
    InvDisjoint(partition, m);
    CoalesceIsCanonical(m.free);
  }
}
