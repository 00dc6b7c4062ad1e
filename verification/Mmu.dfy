/**
 The allocator: a free list and an allocated list over the same blocks, and the command loop.  Every command
 is tied to its effect on the pair of region sequences.

 The two lists are separate: they share no nodes and no blocks.  A block that changes hands is taken out of
 one list, belongs to neither while its fields change, and is put into the other, which brings in only a new
 node.  Deposit, PutBack, TakeFirst and TakeAt are these moves, each with what it leaves alone.

 The footprint of the two lists is everything they consist of.  Each command changes nothing outside it, and
 all that is in it afterwards was in it before or is new, so that over the whole run nothing else is touched.
 */
module Mmu {
  import opened Regions
  import opened Sequences
  import opened MmuList
  import Partition

  /** The two lists share no nodes and no blocks. */
  ghost predicate Separate(l: List, r: List)
    reads l, r
  {
    l != r && l.NodeSet() !! r.NodeSet() && l.BlockSet() !! r.BlockSet()
  }

  /** Everything the two lists consist of. */
  ghost function Footprint(free: List, alloc: List): set<object>
    reads free, alloc
  {
    {free, alloc} + free.NodeSet() + alloc.NodeSet() + free.BlockSet() + alloc.BlockSet()
  }

  lemma InFootprint(free: List, alloc: List, o: object)
    ensures o in Footprint(free, alloc) <==>
      o == free || o == alloc || o in free.NodeSet() || o in alloc.NodeSet() || o in free.BlockSet() || o in alloc.BlockSet()
  {
  }

  lemma Members(l: List)
    ensures forall i | 0 <= i < |l.nodes| :: l.nodes[i] in l.NodeSet()
    ensures forall i | 0 <= i < |l.blocks| :: l.blocks[i] in l.BlockSet()
  {
  }

  lemma NothingShared(l: List, r: List)
    requires Separate(l, r)
    ensures forall n | n in l.nodes :: n !in r.nodes
    ensures forall b | b in l.blocks :: b !in r.blocks
  {
    assert forall n | n in l.nodes :: n in l.NodeSet();
    assert forall n | n in r.nodes :: n in r.NodeSet();
    assert forall b | b in l.blocks :: b in l.BlockSet();
    assert forall b | b in r.blocks :: b in r.BlockSet();
  }

  /** A list whose nodes are left alone stays valid. */
  twostate lemma StillValid(l: List)
    requires old(l.Valid()) && unchanged(l) && forall n | n in l.nodes :: unchanged(n)
    ensures l.Valid()
  {
    forall i | 0 <= i < |l.nodes| ensures l.LinkedAt(i) {
      assert old(l.LinkedAt(i));
      assert l.nodes[i] in l.nodes;
      assert unchanged(l.nodes[i]);
    }
  }

  /** A list whose blocks are left alone shows the same regions. */
  twostate lemma SameView(l: List)
    requires old(l.Valid()) && unchanged(l) && forall b | b in l.blocks :: unchanged(b)
    ensures l.View() == old(l.View())
  {
    forall i | 0 <= i < |l.blocks| ensures l.blocks[i].Value() == old(l.blocks[i].Value()) {
      assert l.blocks[i] in l.blocks;
      assert unchanged(l.blocks[i]);
    }
  }

  /** Adds blk to temp by address; the separate list is left alone. */
  method Deposit(temp: List, blk: Block, list: List)
    requires list.Valid() && temp.Valid() && Separate(list, temp) && blk !in list.BlockSet() + temp.BlockSet()
    modifies temp, temp.NodeSet()
    ensures unchanged(list) && list.Valid() && temp.Valid() && Separate(list, temp)
    ensures temp.View() == ByAddress(old(temp.View()), blk.Value())
    ensures temp.BlockSet() == old(temp.BlockSet()) + {blk}
    ensures (forall o | o in temp.NodeSet() :: o in old(temp.NodeSet()) || fresh(o))
    ensures list.View() == old(list.View())
  {
    NothingShared(list, temp);
    Members(temp);
    ghost var k := temp.AddAscendingByAddress(blk);
    StillValid(list);
  }

  /** Adds blk to temp where the policy says; the separate list is left alone. */
  method PutBack(temp: List, blk: Block, list: List, policy: int)
    requires list.Valid() && temp.Valid() && Separate(list, temp) && blk !in list.BlockSet() + temp.BlockSet()
    modifies temp, temp.NodeSet()
    ensures unchanged(list) && list.Valid() && temp.Valid() && Separate(list, temp)
    ensures temp.View() == ByPolicy(policy, old(temp.View()), blk.Value())
    ensures (forall o | o in temp.NodeSet() :: o in old(temp.NodeSet()) || fresh(o)) && temp.BlockSet() == old(temp.BlockSet()) + {blk}
    ensures list.View() == old(list.View())
  {
    Members(temp);
    NothingShared(list, temp);
    temp.AddByPolicy(blk, policy);
    StillValid(list);
  }

  /** Removes the first block of temp, if there is one; the separate list is left alone. */
  method TakeFirst(temp: List, list: List) returns (blk: Block?)
    requires list.Valid() && temp.Valid() && Separate(list, temp)
    modifies temp
    ensures list.Valid() && temp.Valid() && Separate(list, temp)
    ensures blk == null <==> old(temp.blocks) == []
    ensures blk == null ==> temp.blocks == []
    ensures blk != null ==> [blk.Value()] + temp.View() == old(temp.View()) && blk !in list.BlockSet() + temp.BlockSet()
    ensures blk != null ==> blk in old(temp.BlockSet()) && |temp.blocks| == |old(temp.blocks)| - 1
    ensures temp.NodeSet() <= old(temp.NodeSet()) && temp.BlockSet() == old(temp.BlockSet()) - {blk}
    ensures list.View() == old(list.View())
  {
    ghost var v := temp.View();
    blk := temp.RemoveFromFront();
    if blk != null {
      assert v == [v[0]] + v[1..];
      assert blk in old(temp.BlockSet());
    }
    StillValid(list);
  }

  /** Removes the block at an index of temp; the separate list is left alone. */
  method TakeAt(temp: List, index: nat, list: List) returns (blk: Block)
    requires list.Valid() && temp.Valid() && Separate(list, temp) && index < |temp.blocks|
    modifies temp, temp.NodeSet()
    ensures unchanged(list) && list.Valid() && temp.Valid() && Separate(list, temp)
    ensures blk == old(temp.blocks)[index] && temp.View() == RemoveAt(old(temp.View()), index)
    ensures blk !in list.BlockSet() + temp.BlockSet() && blk in old(temp.BlockSet())
    ensures temp.NodeSet() <= old(temp.NodeSet()) && temp.BlockSet() <= old(temp.BlockSet())
    ensures list.View() == old(list.View())
  {
    Members(temp);
    NothingShared(list, temp);
    var b := temp.RemoveAtIndex(index);
    assert b in old(temp.BlockSet());
    blk := b;
    StillValid(list);
  }

  /** Moves the first block of list, if there is one, to its place by address in temp. */
  method MoveFirst(list: List, temp: List) returns (moved: bool)
    requires list.Valid() && temp.Valid() && Separate(list, temp)
    modifies list, temp, temp.NodeSet()
    ensures list.Valid() && temp.Valid() && Separate(list, temp)
    ensures moved <==> old(list.blocks) != []
    ensures |old(list.blocks)| == |list.blocks| + if moved then 1 else 0
    ensures SortInto(list.View(), temp.View()) == SortInto(old(list.View()), old(temp.View()))
    ensures (forall o | o in temp.NodeSet() :: o in old(temp.NodeSet()) || fresh(o))
    ensures temp.BlockSet() + list.BlockSet() <= old(temp.BlockSet() + list.BlockSet())
  {
    ghost var v, w := list.View(), temp.View();
    var blk := TakeFirst(list, temp);
    moved := blk != null;
    if moved {
      ghost var rest := list.View();
      assert temp.View() == w && v == [blk.Value()] + rest;
      assert v[1..] == rest;
      Deposit(temp, blk, list);
      assert list.View() == rest;
    } else {
      assert |v| == 0;
    }
  }

  /** Moves all blocks of list to their places by address in an empty list. */
  method Drain(list: List, temp: List)
    requires list.Valid() && temp.Valid() && Separate(list, temp) && temp.nodes == [] && temp.blocks == []
    modifies list, temp
    ensures temp.Valid() && temp.View() == SortInto(old(list.View()), old(temp.View()))
    ensures fresh(temp.NodeSet())
    ensures temp.BlockSet() <= old(list.BlockSet())
  {
    ghost var target, all := SortInto(list.View(), temp.View()), list.BlockSet();
    var moved := true;
    while moved
      invariant list.Valid() && temp.Valid() && Separate(list, temp)
      invariant SortInto(list.View(), temp.View()) == target
      invariant !moved ==> list.blocks == []
      invariant fresh(temp.NodeSet())
      invariant temp.BlockSet() <= all && list.BlockSet() <= all
      decreases |list.blocks|, moved
    {
      moved := MoveFirst(list, temp);
    }
    assert list.View() == [];
  }

  /** Drains list into a new list by address and joins the blocks that touch. */
  method CoalesceMemory(list: List) returns (temp: List)
    requires list.Valid()
    modifies list, list.blocks
    ensures temp.Valid() && temp.View() == Coalesce(old(list.View()))
    ensures fresh(temp) && fresh(temp.NodeSet()) && temp.BlockSet() <= old(list.BlockSet())
  {
    temp := new List();
    assert temp.View() == [];
    Drain(list, temp);
    Members(temp);
    temp.CoalesceNodes();
  }

  /** Moves part of free block idx to the allocated list. */
  method Grant(free: List, alloc: List, idx: nat, pid: int, size: int) returns (blk: Block, originalEnd: int)
    requires free.Valid() && alloc.Valid() && Separate(free, alloc) && idx < |free.blocks|
    modifies free, free.NodeSet(), free.BlockSet(), alloc, alloc.NodeSet()
    ensures free.Valid() && alloc.Valid() && Separate(free, alloc)
    ensures var b := old(free.View())[idx];
      && originalEnd == b.end && blk.Value() == Granted(b, pid, size)
      && alloc.View() == ByAddress(old(alloc.View()), blk.Value())
    ensures free.View() == RemoveAt(old(free.View()), idx)
    ensures free.NodeSet() <= old(free.NodeSet()) && (forall o | o in alloc.NodeSet() :: o in old(alloc.NodeSet()) || fresh(o))
    ensures free.BlockSet() <= old(free.BlockSet()) && alloc.BlockSet() <= old(free.BlockSet() + alloc.BlockSet())
  {
    blk := TakeAt(free, idx, alloc);
    ghost var v, w := free.View(), alloc.View();
    originalEnd := blk.end;
    blk.pid := pid;
    blk.end := blk.start + size - 1;
    assert free.View() == v && alloc.View() == w;
    Deposit(alloc, blk, free);
  }

  /** Grants part of free block idx and puts what is left of it, if anything, back. */
  method Split(free: List, alloc: List, idx: nat, pid: int, size: int, policy: int)
    requires free.Valid() && alloc.Valid() && Separate(free, alloc) && idx < |free.blocks|
    modifies Footprint(free, alloc)
    ensures free.Valid() && alloc.Valid() && Separate(free, alloc)
    ensures free.View() == FreeAfter(old(free.View()), idx, size, policy)
    ensures alloc.View() == ByAddress(old(alloc.View()), Granted(old(free.View())[idx], pid, size))
    ensures forall o | o in Footprint(free, alloc) :: o in old(Footprint(free, alloc)) || fresh(o)
  {
    ghost var v := free.View();
    var blk, originalEnd := Grant(free, alloc, idx, pid, size);
    ghost var rest := free.View();
    if blk.end < originalEnd {
      var fragment := new Block(0, blk.end + 1, originalEnd);
      ghost var f := Fragment(v[idx], size);
      assert fragment.Value() == f && free.View() == rest;
      PutBack(free, fragment, alloc, policy);
      assert free.View() == ByPolicy(policy, rest, f);
    } else {
      assert size >= Size(v[idx]);
    }
    forall o | o in Footprint(free, alloc) ensures o in old(Footprint(free, alloc)) || fresh(o) {
      InFootprint(free, alloc, o);
    }
  }

  /** Serves a request from the first free block that is big enough; the rest of that block stays free. */
  method AllocateMemory(free: List, alloc: List, pid: int, size: int, policy: int) returns (ok: bool)
    requires free.Valid() && alloc.Valid() && Separate(free, alloc)
    modifies Footprint(free, alloc)
    ensures free.Valid() && alloc.Valid() && Separate(free, alloc)
    ensures Memory(free.View(), alloc.View()) == Allocate(Memory(old(free.View()), old(alloc.View())), pid, size, policy)
    ensures ok <==> exists b :: b in old(free.View()) && b.end - b.start + 1 >= size
    ensures !ok ==> free.View() == old(free.View()) && alloc.View() == old(alloc.View())
    ensures forall o | o in Footprint(free, alloc) :: o in old(Footprint(free, alloc)) || fresh(o)
  {
    ghost var v := free.View();
    FirstFinds(v, Fits(size));
    ok := free.IsInBySize(size);
    if ok {
      var idx := free.IndexBySize(size);
      Split(free, alloc, idx, pid, size, policy);
      assert idx == First(v, Fits(size)) < |v|;
      assert v[idx] in v && v[idx].end - v[idx].start + 1 >= size;
    } else {
      assert First(v, Fits(size)) == |v|;
    }
  }

  /** Moves allocated block idx to the free list. */
  method Release(alloc: List, free: List, idx: nat, policy: int)
    requires free.Valid() && alloc.Valid() && Separate(free, alloc) && idx < |alloc.blocks|
    modifies Footprint(free, alloc)
    ensures free.Valid() && alloc.Valid() && Separate(free, alloc)
    ensures free.View() == ByPolicy(policy, old(free.View()), old(alloc.View())[idx].(pid := 0))
    ensures alloc.View() == RemoveAt(old(alloc.View()), idx)
    ensures forall o | o in Footprint(free, alloc) :: o in old(Footprint(free, alloc)) || fresh(o)
  {
    ghost var v, w := free.View(), alloc.View();
    var blk := TakeAt(alloc, idx, free);
    ghost var rest := alloc.View();
    blk.pid := 0;
    assert blk.Value() == w[idx].(pid := 0) && free.View() == v && alloc.View() == rest;
    PutBack(free, blk, alloc, policy);
  }

  /** Returns the block of a process, if it holds one, to the free list. */
  method DeallocateMemory(alloc: List, free: List, pid: int, policy: int) returns (ok: bool)
    requires free.Valid() && alloc.Valid() && Separate(free, alloc)
    modifies Footprint(free, alloc)
    ensures free.Valid() && alloc.Valid() && Separate(free, alloc)
    ensures Memory(free.View(), alloc.View()) == Deallocate(Memory(old(free.View()), old(alloc.View())), pid, policy)
    ensures ok <==> exists b :: b in old(alloc.View()) && b.pid == pid
    ensures !ok ==> free.View() == old(free.View()) && alloc.View() == old(alloc.View())
    ensures forall o | o in Footprint(free, alloc) :: o in old(Footprint(free, alloc)) || fresh(o)
  {
    ghost var w := alloc.View();
    FirstFinds(w, BelongsTo(pid));
    ok := alloc.IsInByPid(pid);
    if ok {
      var idx := alloc.IndexByPid(pid);
      assert idx == First(w, BelongsTo(pid)) < |w| && w[idx] in w && w[idx].pid == pid;
      Release(alloc, free, idx, policy);
    }
  }

  /** One line of input: the free list is replaced when the line asks for coalescing. */
  method Perform(freeList: List, alloc: List, input: (int, int), policy: int) returns (free: List)
    requires freeList.Valid() && alloc.Valid() && Separate(freeList, alloc)
    modifies Footprint(freeList, alloc)
    ensures free.Valid() && alloc.Valid() && Separate(free, alloc)
    ensures Memory(free.View(), alloc.View()) == Execute(Memory(old(freeList.View()), old(alloc.View())), input, policy)
    ensures forall o | o in Footprint(free, alloc) :: o in old(Footprint(freeList, alloc)) || fresh(o)
  {
    free := freeList;
    if input.0 != COALESCE && input.0 > 0 {
      var ok := AllocateMemory(free, alloc, input.0, input.1, policy);
    } else if input.0 != COALESCE && input.0 < 0 {
      var ok := DeallocateMemory(alloc, free, Abs(input.0), policy);
    } else {
      NothingShared(alloc, free);
      free := CoalesceMemory(free);
      StillValid(alloc);
      SameView(alloc);
    }
  }

  /** One free block, as large as the partition, and nothing allocated. */
  method Boot(partition: int) returns (free: List, alloc: List)
    ensures free.Valid() && alloc.Valid() && Separate(free, alloc) && fresh(Footprint(free, alloc))
    ensures Memory(free.View(), alloc.View()) == Initial(partition)
  {
    free := new List();
    alloc := new List();
    var block := new Block(0, 0, partition - 1);
    free.AddToFront(block);
    forall o | o in Footprint(free, alloc) ensures fresh(o) {
      InFootprint(free, alloc, o);
    }
    assert free.View() == [Region(0, 0, partition - 1)] && alloc.View() == [];
  }

  /** The whole simulation: every line of input in turn. */
  method Simulate(inputs: seq<(int, int)>, partition: int, policy: int) returns (free: List, alloc: List)
    ensures free.Valid() && alloc.Valid() && Separate(free, alloc)
    ensures Memory(free.View(), alloc.View()) == Run(Initial(partition), inputs, policy)
    ensures partition >= 1 && Requests(inputs) ==> Partition.Inv(partition, Memory(free.View(), alloc.View()))
  {
    free, alloc := Boot(partition);
    for i := 0 to |inputs|
      invariant free.Valid() && alloc.Valid() && Separate(free, alloc) && fresh(Footprint(free, alloc))
      invariant Memory(free.View(), alloc.View()) == Run(Initial(partition), inputs[..i], policy)
    {
      assert inputs[..i + 1][..i] == inputs[..i];
      free := Perform(free, alloc, inputs[i], policy);
    }
    assert inputs[..|inputs|] == inputs;
    if partition >= 1 && Requests(inputs) {
      Partition.RunKeeps(partition, inputs, policy);
    }
  }
}
