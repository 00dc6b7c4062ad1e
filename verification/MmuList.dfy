/**
 The allocator's linked list: nodes that point to blocks and to the next node, updated in place by loops
 over a previous and a current pointer.  Each operation is tied to its effect on the sequence of regions.

 Two ghost sequences say which nodes and blocks the list consists of, in order.  The list is valid if the
 nodes are linked in that order, the last one to null, carry the blocks, and none occurs twice.  The view
 is the sequence of what the blocks hold.

 A search keeps its place in the sequence along with its pointers; what it has passed does not satisfy
 what it looks for, and so the place where it stops is the first that does.  The insertions and removals
 end in Link and Unlink, which relink one node.  NodeSet and BlockSet are what the list consists of as sets,
 for telling two lists apart.
 */
module MmuList {
  import opened Regions
  import opened Sequences

  class Block {
    var pid: int
    var start: int
    var end: int

    constructor (pid: int, start: int, end: int)
      ensures this.pid == pid && this.start == start && this.end == end
    {
      this.pid, this.start, this.end := pid, start, end;
    }

    function Value(): Region
      reads this
    {
      Region(pid, start, end)
    }
  }

  class Node {
    var blk: Block
    var next: Node?

    constructor (blk: Block)
      ensures this.blk == blk && next == null
    {
      this.blk, next := blk, null;
    }
  }

  lemma InsertIndex<T>(s: seq<T>, k: nat, x: T, i: nat)
    requires k <= |s| && i <= |s|
    ensures InsertAt(s, k, x)[i] == if i < k then s[i] else if i == k then x else s[i - 1]
  {
  }

  ghost function Elements<T>(s: seq<T>): set<T> { set x | x in s }

  lemma ElementsInsert<T>(s: seq<T>, k: nat, x: T)
    requires k <= |s|
    ensures Elements(InsertAt(s, k, x)) == Elements(s) + {x}
  {
    var r := InsertAt(s, k, x);
    forall y | y in Elements(s) ensures y in r {
      var i :| 0 <= i < |s| && s[i] == y;
      assert r[if i < k then i else i + 1] == y;
    }
    assert r[k] == x;
  }

  lemma ElementsRemove<T>(s: seq<T>, k: nat)
    requires Distinct(s) && k < |s|
    ensures Elements(RemoveAt(s, k)) == Elements(s) - {s[k]}
  {
    var r := RemoveAt(s, k);
    forall y | y in Elements(s) && y != s[k] ensures y in r {
      var i :| 0 <= i < |s| && s[i] == y;
      assert r[if i < k then i else i - 1] == y;
    }
  }

  ghost function Values(blocks: seq<Block>): (v: seq<Region>)
    reads blocks
    ensures |v| == |blocks| && forall i | 0 <= i < |v| :: v[i] == blocks[i].Value()
  {
    seq(|blocks|, i requires 0 <= i < |blocks| reads blocks => blocks[i].Value())
  }

  lemma ValuesInsert(blocks: seq<Block>, k: nat, b: Block)
    requires k <= |blocks|
    ensures Values(InsertAt(blocks, k, b)) == InsertAt(Values(blocks), k, b.Value())
  {
  }

  lemma ValuesRemove(blocks: seq<Block>, k: nat)
    requires k < |blocks|
    ensures Values(RemoveAt(blocks, k)) == RemoveAt(Values(blocks), k)
  {
  }

  class List {
    var head: Node?
    ghost var nodes: seq<Node>
    ghost var blocks: seq<Block>

    ghost function NodeAt(k: nat): Node?
      reads this
    {
      if k < |nodes| then nodes[k] else null
    }

    ghost predicate LinkedAt(i: int)
      reads this, nodes
    {
      0 <= i < |nodes| == |blocks| && nodes[i].next == NodeAt(i + 1) && nodes[i].blk == blocks[i]
    }

    /** The nodes are linked in order, end in null, and carry the blocks; none occurs twice. */
    ghost predicate Valid()
      reads this, nodes
    {
      && |blocks| == |nodes| && head == NodeAt(0)
      && (forall i | 0 <= i < |nodes| :: LinkedAt(i))
      && Distinct(nodes) && Distinct(blocks)
    }

    ghost function NodeSet(): set<Node>
      reads this
    {
      Elements(nodes)
    }

    ghost function BlockSet(): set<Block>
      reads this
    {
      Elements(blocks)
    }

    ghost function View(): seq<Region>
      reads this, blocks
    {
      Values(blocks)
    }

    constructor ()
      ensures Valid() && nodes == [] && blocks == []
    {
      head, nodes, blocks := null, [], [];
    }

    /** cur is the node at position k and prev the one before it; null where there is none. */
    ghost predicate AtCursor(prev: Node?, cur: Node?, k: nat)
      reads this, nodes
    {
      && k <= |nodes| && cur == NodeAt(k) && prev == (if k == 0 then null else nodes[k - 1])
      && (k < |nodes| ==> LinkedAt(k))
    }

    /** None of the first k regions satisfies p, so that the search for p goes on at k. */
    ghost predicate Passed(p: Region -> bool, k: nat)
      reads this, blocks
    {
      k <= |blocks| && forall i | 0 <= i < k :: !p(blocks[i].Value())
    }

    /** Links a new node between prev and cur, which are neighbours; the last step of every insertion. */
    method Link(prev: Node?, cur: Node?, newNode: Node, ghost k: nat)
      requires Valid() && AtCursor(prev, cur, k)
      requires newNode !in nodes && newNode.blk !in blocks
      modifies this, nodes, newNode`next
      ensures Valid() && nodes == InsertAt(old(nodes), k, newNode) && blocks == InsertAt(old(blocks), k, newNode.blk)
      ensures NodeSet() == old(NodeSet()) + {newNode} && BlockSet() == old(BlockSet()) + {newNode.blk}
    {
      ghost var before, blks := nodes, blocks;
      DistinctInsert(nodes, k, newNode);
      DistinctInsert(blocks, k, newNode.blk);
      ElementsInsert(nodes, k, newNode);
      ElementsInsert(blocks, k, newNode.blk);
      assert forall i | 0 <= i < |before| :: LinkedAt(i);
      if prev == null {
        newNode.next := head;
        head := newNode;
      } else {
        prev.next := newNode;
        newNode.next := cur;
      }
      nodes := InsertAt(nodes, k, newNode);
      blocks := InsertAt(blocks, k, newNode.blk);
      forall i | 0 <= i < |nodes| ensures LinkedAt(i) {
        InsertIndex(before, k, newNode, i);
        InsertIndex(blks, k, newNode.blk, i);
        if i + 1 < |nodes| { InsertIndex(before, k, newNode, i + 1); }
        if i < k {
          assert old(LinkedAt(i));
        } else if i > k {
          assert old(LinkedAt(i - 1));
        }
      }
    }

    lemma PassedIsFirst(p: Region -> bool, k: nat)
      requires Passed(p, k) && (k < |blocks| ==> p(blocks[k].Value()))
      ensures First(View(), p) == k
    {
      FirstUnique(View(), p, k);
    }

    /** Puts a block where the search for p has stopped. */
    method Place(prev: Node?, cur: Node?, newBlk: Block, ghost k: nat, ghost p: Region -> bool)
      requires Valid() && newBlk !in blocks && AtCursor(prev, cur, k) && Passed(p, k)
      requires k < |blocks| ==> p(blocks[k].Value())
      modifies this, nodes
      ensures Valid() && blocks == InsertAt(old(blocks), k, newBlk)
      ensures k == First(old(View()), p) && View() == InsertAt(old(View()), k, newBlk.Value())
      ensures (forall n | n in NodeSet() :: n in old(NodeSet()) || fresh(n)) && BlockSet() == old(BlockSet()) + {newBlk}
    {
      var newNode := new Node(newBlk);
      PassedIsFirst(p, k);
      ghost var blks, v := blocks, View();
      Link(prev, cur, newNode, k);
      ValuesInsert(blks, k, newBlk);
      assert Values(blks) == v;
    }

    method AddToBack(blk: Block)
      requires Valid() && blk !in blocks
      modifies this, nodes
      ensures Valid() && blocks == InsertAt(old(blocks), |old(blocks)|, blk)
      ensures View() == InsertAt(old(View()), |old(View())|, blk.Value())
      ensures (forall n | n in NodeSet() :: n in old(NodeSet()) || fresh(n)) && BlockSet() == old(BlockSet()) + {blk}
    {
      var newNode := new Node(blk);
      if head == null {
        head := newNode;
      } else {
        var cur := head;
        ghost var k := 0;
        while cur.next != null
          invariant k < |nodes| && cur == nodes[k] && LinkedAt(k)
          decreases |nodes| - k
        {
          assert LinkedAt(k + 1);
          cur := cur.next;
          k := k + 1;
        }
        cur.next := newNode;
      }
      nodes := nodes + [newNode];
      blocks := blocks + [blk];
      forall i | 0 <= i < |nodes| ensures LinkedAt(i) {
        if i < |nodes| - 1 { assert old(LinkedAt(i)); }
      }
      ElementsInsert(old(nodes), |old(nodes)|, newNode);
      ElementsInsert(old(blocks), |old(blocks)|, blk);
      ValuesInsert(old(blocks), |old(blocks)|, blk);
    }

    method AddToFront(blk: Block)
      requires Valid() && blk !in blocks
      modifies this, nodes
      ensures Valid() && blocks == InsertAt(old(blocks), 0, blk)
      ensures View() == InsertAt(old(View()), 0, blk.Value())
      ensures (forall n | n in NodeSet() :: n in old(NodeSet()) || fresh(n)) && BlockSet() == old(BlockSet()) + {blk}
    {
      var newNode := new Node(blk);
      newNode.next := head;
      head := newNode;
      nodes := [newNode] + nodes;
      blocks := [blk] + blocks;
      forall i | 0 <= i < |nodes| ensures LinkedAt(i) {
        if i > 0 { assert old(LinkedAt(i - 1)); }
      }
      ElementsInsert(old(nodes), 0, newNode);
      ElementsInsert(old(blocks), 0, blk);
      ValuesInsert(old(blocks), 0, blk);
    }

    /** Inserts before the first block that does not start earlier. */
    method AddAscendingByAddress(newBlk: Block) returns (ghost k: nat)
      requires Valid() && newBlk !in blocks
      modifies this, nodes
      ensures Valid() && View() == ByAddress(old(View()), newBlk.Value())
      ensures k <= |old(blocks)| && blocks == InsertAt(old(blocks), k, newBlk)
      ensures (forall n | n in NodeSet() :: n in old(NodeSet()) || fresh(n)) && BlockSet() == old(BlockSet()) + {newBlk}
    {
      var cur, prev: Node? := head, null;
      k := 0;
      assert head != null ==> LinkedAt(0);
      while cur != null && cur.blk.start < newBlk.start
        invariant AtCursor(prev, cur, k) && Passed(StartsNoEarlier(newBlk.Value()), k)
        decreases |nodes| - k
      {
        prev := cur;
        cur := cur.next;
        k := k + 1;
      }
      Place(prev, cur, newBlk, k, StartsNoEarlier(newBlk.Value()));
    }

    /** Inserts before the first block that is larger, and so after all blocks of the same size. */
    method AddAscendingByBlocksize(newBlk: Block) returns (ghost k: nat)
      requires Valid() && newBlk !in blocks
      modifies this, nodes
      ensures Valid() && View() == ByPolicy(2, old(View()), newBlk.Value())
      ensures k <= |old(blocks)| && blocks == InsertAt(old(blocks), k, newBlk)
      ensures (forall n | n in NodeSet() :: n in old(NodeSet()) || fresh(n)) && BlockSet() == old(BlockSet()) + {newBlk}
    {
      var newSize := (newBlk.end - newBlk.start) + 1;
      var cur, prev: Node? := head, null;
      k := 0;
      while cur != null
        invariant AtCursor(prev, cur, k) && Passed(IsLargerThan(newBlk.Value()), k)
        decreases |nodes| - k
      {
        var curSize := (cur.blk.end - cur.blk.start) + 1;
        if newSize < curSize { break; }
        prev := cur;
        cur := cur.next;
        k := k + 1;
      }
      Place(prev, cur, newBlk, k, IsLargerThan(newBlk.Value()));
    }

    /** Inserts before the first block that is no larger, and so before all blocks of the same size. */
    method AddDescendingByBlocksize(newBlk: Block) returns (ghost k: nat)
      requires Valid() && newBlk !in blocks
      modifies this, nodes
      ensures Valid() && View() == ByPolicy(3, old(View()), newBlk.Value())
      ensures k <= |old(blocks)| && blocks == InsertAt(old(blocks), k, newBlk)
      ensures (forall n | n in NodeSet() :: n in old(NodeSet()) || fresh(n)) && BlockSet() == old(BlockSet()) + {newBlk}
    {
      var newSize := (newBlk.end - newBlk.start) + 1;
      var cur, prev: Node? := head, null;
      k := 0;
      while cur != null
        invariant AtCursor(prev, cur, k) && Passed(IsNoLargerThan(newBlk.Value()), k)
        decreases |nodes| - k
      {
        var curSize := (cur.blk.end - cur.blk.start) + 1;
        if newSize >= curSize { break; }
        prev := cur;
        cur := cur.next;
        k := k + 1;
      }
      Place(prev, cur, newBlk, k, IsNoLargerThan(newBlk.Value()));
    }

    /** Adds a free block where the policy keeps it. */
    method AddByPolicy(blk: Block, policy: int)
      requires Valid() && blk !in blocks
      modifies this, nodes
      ensures Valid() && View() == ByPolicy(policy, old(View()), blk.Value())
      ensures (forall n | n in NodeSet() :: n in old(NodeSet()) || fresh(n)) && BlockSet() == old(BlockSet()) + {blk}
    {
      if policy == 1 {
        AddToBack(blk);
      } else if policy == 2 {
        ghost var k := AddAscendingByBlocksize(blk);
      } else {
        ghost var k := AddDescendingByBlocksize(blk);
      }
    }

    /** Takes node k out of the list; prev is the node before it, if any. */
    method Unlink(prev: Node?, cur: Node, ghost k: nat)
      requires Valid() && k < |nodes| && AtCursor(prev, cur, k)
      modifies this, if prev == null then {} else {prev}
      ensures Valid() && nodes == RemoveAt(old(nodes), k) && blocks == RemoveAt(old(blocks), k)
      ensures NodeSet() <= old(NodeSet()) && BlockSet() == old(BlockSet()) - {old(blocks)[k]}
    {
      ghost var before, blks := nodes, blocks;
      ElementsRemove(nodes, k);
      ElementsRemove(blocks, k);
      DistinctRemove(nodes, k);
      DistinctRemove(blocks, k);
      assert forall i | 0 <= i < |before| :: LinkedAt(i);
      if prev == null {
        head := cur.next;
      } else {
        prev.next := cur.next;
      }
      nodes := RemoveAt(nodes, k);
      blocks := RemoveAt(blocks, k);
      forall i | 0 <= i < |nodes| ensures LinkedAt(i) {
        assert old(LinkedAt(if i < k then i else i + 1));
      }
    }

    /** Removes the first node and returns its block, or null from an empty list. */
    method RemoveFromFront() returns (blk: Block?)
      requires Valid()
      modifies this
      ensures Valid() && (blk == null <==> old(blocks) == [])
      ensures blk == null ==> nodes == old(nodes) && blocks == old(blocks)
      ensures blk != null ==> blk == old(blocks)[0] && blocks == RemoveAt(old(blocks), 0) && View() == RemoveAt(old(View()), 0)
      ensures NodeSet() <= old(NodeSet()) && BlockSet() == old(BlockSet()) - {blk}
    {
      if head == null {
        return null;
      }
      assert LinkedAt(0);
      ghost var blks, v := blocks, View();
      blk := head.blk;
      Unlink(null, head, 0);
      ValuesRemove(blks, 0);
      assert Values(blks) == v;
    }

    /** Removes the node at an index and returns its block; null if there is none. */
    method RemoveAtIndex(index: int) returns (blk: Block?)
      requires Valid()
      modifies this, nodes
      ensures Valid()
      ensures var k := if index <= 0 then 0 else index;
        if k < |old(blocks)| then
          blk == old(blocks)[k] && blocks == RemoveAt(old(blocks), k) && View() == RemoveAt(old(View()), k)
        else
          blk == null && nodes == old(nodes) && blocks == old(blocks)
      ensures NodeSet() <= old(NodeSet()) && BlockSet() == old(BlockSet()) - {blk}
    {
      if head == null {
        return null;
      }
      if index <= 0 {
        blk := RemoveFromFront();
        return;
      }
      var cur, prev: Node? := head, null;
      var i := 0;
      assert LinkedAt(0);
      while cur != null && i < index
        invariant 0 <= i <= index && i <= |nodes| && AtCursor(prev, cur, i)
        decreases |nodes| - i
      {
        prev := cur;
        cur := cur.next;
        i := i + 1;
      }
      if cur == null {
        return null;
      }
      ghost var blks, v := blocks, View();
      blk := cur.blk;
      Unlink(prev, cur, i);
      ValuesRemove(blks, i);
      assert Values(blks) == v;
    }

    /** Whether some block is at least as big as asked. */
    method IsInBySize(size: int) returns (found: bool)
      requires Valid()
      ensures found <==> First(View(), Fits(size)) < |blocks|
    {
      var cur := head;
      ghost var k := 0;
      assert head != null ==> LinkedAt(0);
      while cur != null
        invariant k <= |nodes| && cur == NodeAt(k) && (k < |nodes| ==> LinkedAt(k)) && Passed(Fits(size), k)
        decreases |nodes| - k
      {
        if size <= (cur.blk.end - cur.blk.start) + 1 {
          PassedIsFirst(Fits(size), k);
          return true;
        }
        cur := cur.next;
        k := k + 1;
      }
      PassedIsFirst(Fits(size), k);
      return false;
    }

    /** The index of the first block at least as big as asked, or -1. */
    method IndexBySize(size: int) returns (i: int)
      requires Valid()
      ensures var k := First(View(), Fits(size)); i == if k < |blocks| then k else -1
    {
      var cur := head;
      i := 0;
      assert head != null ==> LinkedAt(0);
      while cur != null
        invariant 0 <= i <= |nodes| && cur == NodeAt(i) && (i < |nodes| ==> LinkedAt(i)) && Passed(Fits(size), i)
        decreases |nodes| - i
      {
        if size <= (cur.blk.end - cur.blk.start) + 1 {
          PassedIsFirst(Fits(size), i);
          return;
        }
        cur := cur.next;
        i := i + 1;
      }
      PassedIsFirst(Fits(size), i);
      i := -1;
    }

    /** Whether some block belongs to pid. */
    method IsInByPid(pid: int) returns (found: bool)
      requires Valid()
      ensures found <==> First(View(), BelongsTo(pid)) < |blocks|
    {
      var cur := head;
      ghost var k := 0;
      assert head != null ==> LinkedAt(0);
      while cur != null
        invariant k <= |nodes| && cur == NodeAt(k) && (k < |nodes| ==> LinkedAt(k)) && Passed(BelongsTo(pid), k)
        decreases |nodes| - k
      {
        if pid == cur.blk.pid {
          PassedIsFirst(BelongsTo(pid), k);
          return true;
        }
        cur := cur.next;
        k := k + 1;
      }
      PassedIsFirst(BelongsTo(pid), k);
      return false;
    }

    /** The index of the first block that belongs to pid, or -1. */
    method IndexByPid(pid: int) returns (i: int)
      requires Valid()
      ensures var k := First(View(), BelongsTo(pid)); i == if k < |blocks| then k else -1
    {
      var cur := head;
      i := 0;
      assert head != null ==> LinkedAt(0);
      while cur != null
        invariant 0 <= i <= |nodes| && cur == NodeAt(i) && (i < |nodes| ==> LinkedAt(i)) && Passed(BelongsTo(pid), i)
        decreases |nodes| - i
      {
        if pid == cur.blk.pid {
          PassedIsFirst(BelongsTo(pid), i);
          return;
        }
        cur := cur.next;
        i := i + 1;
      }
      PassedIsFirst(BelongsTo(pid), i);
      i := -1;
    }

    /** Joins neighbours whose blocks touch: the first takes over the end of the second, which is dropped. */
    method CoalesceNodes()
      requires Valid()
      modifies this, nodes, blocks
      ensures Valid() && View() == Merge(old(View()))
      ensures NodeSet() <= old(NodeSet()) && BlockSet() <= old(BlockSet())
    {
      if head == null {
        return;
      }
      ghost var target := Merge(View());
      var prev := head;
      assert LinkedAt(0);
      var cur := prev.next;
      ghost var k := 0;
      MergeNothing(View());
      while cur != null
        invariant Valid() && k < |nodes| && prev == nodes[k] && cur == NodeAt(k + 1)
        invariant MergedUpTo(View(), k, target)
        invariant NodeSet() <= old(NodeSet()) && BlockSet() <= old(BlockSet())
        decreases |nodes| - k
      {
        assert LinkedAt(k) && LinkedAt(k + 1);
        ghost var v := View();
        if prev.blk.end + 1 == cur.blk.start {
          MergeJoined(v, k, target);
          assert nodes[k] in NodeSet() && blocks[k] in BlockSet();
          Absorb(prev, cur, k);
          cur := prev.next;
          assert LinkedAt(k);
        } else {
          MergeApart(v, k, target);
          prev := cur;
          cur := cur.next;
          k := k + 1;
        }
      }
      MergedAll(View(), target);
    }

    /** The block of prev takes over the end of the next block, whose node is dropped. */
    method Absorb(prev: Node, cur: Node, ghost k: nat)
      requires Valid() && k + 1 < |nodes| && prev == nodes[k] && cur == nodes[k + 1] && prev.blk == blocks[k]
      modifies this, prev, prev.blk
      ensures Valid() && nodes == RemoveAt(old(nodes), k + 1) && blocks == RemoveAt(old(blocks), k + 1)
      ensures View() == Joined(old(View()), k)
      ensures NodeSet() <= old(NodeSet()) && BlockSet() <= old(BlockSet())
    {
      assert LinkedAt(k) && LinkedAt(k + 1);
      ghost var blks, v := blocks, View();
      prev.blk.end := cur.blk.end;
      assert forall i | 0 <= i < |nodes| :: old(LinkedAt(i)) ==> LinkedAt(i);
      Unlink(prev, cur, k + 1);
      ValuesRemove(blks, k + 1);
      assert Values(blks) == v[k := v[k].(end := v[k + 1].end)];
    }
  }

  /** Region k and its successor made one. */
  ghost function Joined(v: seq<Region>, k: nat): seq<Region>
    requires k + 1 < |v|
  {
    RemoveAt(v[k := v[k].(end := v[k + 1].end)], k + 1)
  }

  /** The first k regions are final, and merging the rest gives the target. */
  ghost predicate MergedUpTo(v: seq<Region>, k: nat, target: seq<Region>) {
    k <= |v| && v[..k] + Merge(v[k..]) == target
  }

  lemma MergeNothing(v: seq<Region>)
    ensures MergedUpTo(v, 0, Merge(v))
  {
    assert v[0..] == v;
  }

  lemma MergedAll(v: seq<Region>, target: seq<Region>)
    requires v != [] && MergedUpTo(v, |v| - 1, target)
    ensures v == target
  {
  }

  lemma MergeJoined(v: seq<Region>, k: nat, target: seq<Region>)
    requires k + 1 < |v| && v[k].end + 1 == v[k + 1].start && MergedUpTo(v, k, target)
    ensures MergedUpTo(Joined(v, k), k, target)
  {
    assert Joined(v, k)[..k] == v[..k];
    assert Joined(v, k)[k..] == [v[k].(end := v[k + 1].end)] + v[k..][2..];
  }

  lemma MergeApart(v: seq<Region>, k: nat, target: seq<Region>)
    requires k + 1 < |v| && v[k].end + 1 != v[k + 1].start && MergedUpTo(v, k, target)
    ensures MergedUpTo(v, k + 1, target)
  {
    assert v[k..][1..] == v[k + 1..];
    assert v[..k + 1] == v[..k] + [v[k]];
  }
}
