/**
 Address ranges, sequences of them, and what the allocator's list operations do to such sequences.
 */
module Regions {
  import opened Sequences

  /** The addresses start to end, both included, and the process that holds them; 0 for nobody. */
  datatype Region = Region(pid: int, start: int, end: int)

  function Size(r: Region): int { r.end - r.start + 1 }

  // ---------------------------------------------------------------- where the list operations look

  function StartsNoEarlier(b: Region): Region -> bool { (r: Region) => b.start <= r.start }
  function IsLargerThan(b: Region): Region -> bool { (r: Region) => Size(b) < Size(r) }
  function IsNoLargerThan(b: Region): Region -> bool { (r: Region) => Size(b) >= Size(r) }
  function Fits(size: int): Region -> bool { (r: Region) => size <= Size(r) }
  function BelongsTo(pid: int): Region -> bool { (r: Region) => pid == r.pid }

  function ByAddress(v: seq<Region>, b: Region): seq<Region> {
    InsertAt(v, First(v, StartsNoEarlier(b)), b)
  }

  /** The three ways of keeping the free list: 1 first fit, 2 best fit, anything else worst fit. */
  function PolicyPosition(policy: int, v: seq<Region>, b: Region): (k: nat)
    ensures k <= |v|
  {
    if policy == 1 then |v|
    else if policy == 2 then First(v, IsLargerThan(b))
    else First(v, IsNoLargerThan(b))
  }

  function ByPolicy(policy: int, v: seq<Region>, b: Region): seq<Region> {
    InsertAt(v, PolicyPosition(policy, v, b), b)
  }

  // ---------------------------------------------------------------- coalescing

  /** Insert the regions of v one by one, by address. */
  function SortInto(v: seq<Region>, sorted: seq<Region>): seq<Region> {
    if v == [] then sorted else SortInto(v[1..], ByAddress(sorted, v[0]))
  }

  /** Join neighbours that touch, from left to right. */
  function Merge(v: seq<Region>): seq<Region>
    decreases |v|
  {
    if |v| <= 1 then v
    else if v[0].end + 1 == v[1].start then Merge([v[0].(end := v[1].end)] + v[2..])
    else [v[0]] + Merge(v[1..])
  }

  function Coalesce(v: seq<Region>): seq<Region> {
    Merge(SortInto(v, []))
  }

  // ---------------------------------------------------------------- the allocator's state

  datatype Memory = Memory(free: seq<Region>, alloc: seq<Region>)

  function Initial(partition: int): Memory {
    Memory([Region(0, 0, partition - 1)], [])
  }

  /** The part of free block b that a request of the given size gets, and the part that is left. */
  function Granted(b: Region, pid: int, size: int): Region { Region(pid, b.start, b.start + size - 1) }
  function Fragment(b: Region, size: int): Region { Region(0, b.start + size, b.end) }

  /** The free list after block k has served a request. */
  function FreeAfter(free: seq<Region>, k: nat, size: int, policy: int): seq<Region>
    requires k < |free|
  {
    if size < Size(free[k]) then ByPolicy(policy, RemoveAt(free, k), Fragment(free[k], size)) else RemoveAt(free, k)
  }

  function Allocate(m: Memory, pid: int, size: int, policy: int): Memory {
    var k := First(m.free, Fits(size));
    if k == |m.free| then m
    else Memory(FreeAfter(m.free, k, size, policy), ByAddress(m.alloc, Granted(m.free[k], pid, size)))
  }

  function Deallocate(m: Memory, pid: int, policy: int): Memory {
    var k := First(m.alloc, BelongsTo(pid));
    if k == |m.alloc| then m
    else Memory(ByPolicy(policy, m.free, m.alloc[k].(pid := 0)), RemoveAt(m.alloc, k))
  }

  const COALESCE := -99999

  function Abs(x: int): int { if x < 0 then -x else x }

  /** One line of input: a positive pid asks for memory, a negative one returns it, anything else coalesces. */
  function Execute(m: Memory, input: (int, int), policy: int): Memory {
    if input.0 != COALESCE && input.0 > 0 then Allocate(m, input.0, input.1, policy)
    else if input.0 != COALESCE && input.0 < 0 then Deallocate(m, Abs(input.0), policy)
    else Memory(Coalesce(m.free), m.alloc)
  }

  function Run(m: Memory, inputs: seq<(int, int)>, policy: int): Memory {
    if inputs == [] then m else Execute(Run(m, inputs[..|inputs| - 1], policy), inputs[|inputs| - 1], policy)
  }

  /** What the allocator expects of its input: a request is for at least one unit. */
  predicate Requests(inputs: seq<(int, int)>) {
    forall i | 0 <= i < |inputs| :: inputs[i].0 > 0 ==> inputs[i].1 >= 1
  }
}
