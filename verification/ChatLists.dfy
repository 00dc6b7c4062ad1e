/**
 The chat server's linked lists as they are in memory: nodes that are searched by a loop over a current
 pointer, put in front, and unlinked by a loop over a previous and a current pointer.

 Each operation is tied to the function on sequences that ChatServer uses for it.  A ghost sequence says
 which nodes a chain consists of, in order; the chain is valid if they are linked in that order, the last
 one to null, and none occurs twice.
 */
module ChatLists {
  import opened Sequences
  import opened ChatRegistry

  class Link<T> {
    var value: T
    var next: Link?<T>

    constructor (value: T, next: Link?<T>)
      ensures this.value == value && this.next == next
    {
      this.value, this.next := value, next;
    }
  }

  /** What the nodes hold. */
  ghost function Values<T>(links: seq<Link<T>>): (v: seq<T>)
    reads links
    ensures |v| == |links| && forall i | 0 <= i < |v| :: v[i] == links[i].value
  {
    seq(|links|, i requires 0 <= i < |links| reads links => links[i].value)
  }

  lemma ValuesAdd<T>(links: seq<Link<T>>, link: Link<T>)
    ensures Values([link] + links) == [link.value] + Values(links)
  {
  }

  lemma ValuesRemove<T>(links: seq<Link<T>>, k: nat)
    requires k < |links|
    ensures Values(RemoveAt(links, k)) == RemoveAt(Values(links), k)
  {
  }

  class Chain<T> {
    var head: Link?<T>
    ghost var links: seq<Link<T>>
    ghost var repr: set<object>

    ghost function LinkAt(k: nat): Link?<T>
      reads this`links
    {
      if k < |links| then links[k] else null
    }

    ghost predicate LinkedAt(i: int)
      reads this`links, links
    {
      0 <= i < |links| && links[i].next == LinkAt(i + 1)
    }

    ghost predicate Valid()
      reads this, repr
    {
      && this in repr && (forall i | 0 <= i < |links| :: links[i] in repr)
      && head == LinkAt(0)
      && (forall i | 0 <= i < |links| :: LinkedAt(i))
      && Distinct(links)
    }

    ghost function View(): (v: seq<T>)
      requires Valid()
      reads this, repr
      ensures |v| == |links|
    {
      Values(links)
    }

    constructor ()
      ensures Valid() && fresh(repr) && View() == []
    {
      head, links, repr := null, [], {this};
    }

    /** The first node whose value satisfies p; null if there is none. */
    method Find(p: T -> bool) returns (cur: Link?<T>, ghost k: nat)
      requires Valid()
      ensures k == First(View(), p) && cur == LinkAt(First(View(), p))
    {
      cur, k := head, 0;
      while cur != null && !p(cur.value)
        invariant k <= |links| && cur == LinkAt(k)
        invariant forall i | 0 <= i < k :: !p(View()[i])
        decreases |links| - k
      {
        assert LinkedAt(k);
        cur := cur.next;
        k := k + 1;
      }
      FirstUnique(View(), p, k);
    }

    method AddFirst(x: T)
      requires Valid()
      modifies this
      ensures Valid() && |links| == |old(links)| + 1 && fresh(links[0])
      ensures repr == old(repr) + {links[0]} && View() == [x] + old(View())
    {
      var link := new Link(x, head);
      head := link;
      links := [link] + links;
      repr := repr + {link};
      forall i | 0 <= i < |links| ensures LinkedAt(i) {
        if i > 0 { assert old(LinkedAt(i - 1)); }
      }
      ValuesAdd(old(links), link);
    }

    /** Links the node before cur, or the head, to the node behind it. */
    method Bypass(prev: Link?<T>, cur: Link<T>, ghost k: nat)
      requires Valid() && k < |links| && links[k] == cur && prev == if k == 0 then null else links[k - 1]
      modifies this, prev
      ensures Valid() && links == RemoveAt(old(links), k) && repr == old(repr)
      ensures View() == RemoveAt(old(View()), k)
    {
      assert LinkedAt(k);
      if prev != null {
        prev.next := cur.next;
      } else {
        head := cur.next;
      }
      DistinctRemove(links, k);
      links := RemoveAt(links, k);
      forall i | 0 <= i < |links| ensures LinkedAt(i) {
        assert old(LinkedAt(if i < k then i else i + 1));
      }
      ValuesRemove(old(links), k);
    }

    /** Takes out the first node whose value satisfies p, and says whether there was one. */
    method Unlink(p: T -> bool) returns (found: bool)
      requires Valid()
      modifies repr
      ensures Valid() && repr == old(repr) && (found <==> First(old(View()), p) < |old(View())|)
      ensures View() == if found then RemoveAt(old(View()), First(old(View()), p)) else old(View())
      ensures links == if found then RemoveAt(old(links), First(old(View()), p)) else old(links)
    {
      var cur: Link?<T>, prev: Link?<T> := head, null;
      ghost var k := 0;
      while cur != null && !p(cur.value)
        invariant k <= |links| && cur == LinkAt(k) && prev == if k == 0 then null else links[k - 1]
        invariant forall i | 0 <= i < k :: !p(View()[i])
        decreases |links| - k
      {
        assert LinkedAt(k);
        prev := cur;
        cur := cur.next;
        k := k + 1;
      }
      FirstUnique(View(), p, k);
      found := cur != null;
      if found {
        Bypass(prev, cur, k);
      }
    }
  }

  /** Whether a chain of sockets has an entry for s. */
  method HasEntry(chain: Chain<Socket>, s: Socket) returns (b: bool)
    requires chain.Valid()
    ensures b <==> s in chain.View()
  {
    ghost var v := chain.View();
    var cur, k := chain.Find(Equals<Socket>(s));
    FirstFinds(v, Equals<Socket>(s));
    assert k == First(v, Equals<Socket>(s));
    b := cur != null;
  }

  /** Takes the first entry for s out of a chain of sockets, and says whether there was one. */
  method RemoveEntry(chain: Chain<Socket>, s: Socket) returns (b: bool)
    requires chain.Valid()
    modifies chain.repr
    ensures chain.Valid() && chain.repr == old(chain.repr) && chain.View() == RemoveFirst(old(chain.View()), s)
    ensures b <==> s in old(chain.View())
  {
    ghost var v := chain.View();
    FirstFinds(v, Equals<Socket>(s));
    b := chain.Unlink(Equals<Socket>(s));
    assert b <==> First(v, Equals<Socket>(s)) < |v|;
  }

  // ---------------------------------------------------------------- chains of nodes that own a chain of sockets

  datatype Row<K> = Row(key: K, sockets: seq<Socket>)

  function OnKey<K>(p: K -> bool): Row<K> -> bool { (r: Row<K>) => p(r.key) }

  /** A user with its direct-message peers, or a room with its members. */
  class Owner<K> {
    var key: K
    const sockets: Chain<Socket>

    constructor (key: K, sockets: Chain<Socket>)
      ensures this.key == key && this.sockets == sockets
    {
      this.key, this.sockets := key, sockets;
    }

    /** The node and its chain lie in s and hold what r says. */
    ghost predicate Holds(s: set<object>, r: Row<K>)
      reads this, s
    {
      && this in s && sockets in s && sockets.repr <= s && this !in sockets.repr
      && sockets.Valid() && key == r.key && sockets.View() == r.sockets
    }
  }

  /** Node i, its part of all, and its row fit together. */
  ghost predicate FitsAt<K>(nodes: seq<Owner<K>>, parts: seq<set<object>>, rows: seq<Row<K>>, all: set<object>, i: int)
    reads all
  {
    && 0 <= i < |nodes| == |parts| == |rows|
    && parts[i] <= all && nodes[i] in parts[i] && nodes[i].Holds(parts[i], rows[i])
  }

  /** The nodes with what they own, in disjoint parts of all, hold the rows. */
  ghost predicate Fit<K>(nodes: seq<Owner<K>>, parts: seq<set<object>>, rows: seq<Row<K>>, all: set<object>)
    reads all
  {
    && |nodes| == |parts| == |rows|
    && (forall i | 0 <= i < |nodes| :: FitsAt(nodes, parts, rows, all, i))
    && (forall i, j | 0 <= i < j < |parts| :: parts[i] !! parts[j])
  }

  lemma FitAdd<K>(nodes: seq<Owner<K>>, parts: seq<set<object>>, rows: seq<Row<K>>, all: set<object>, o: Owner<K>, part: set<object>, row: Row<K>)
    requires Fit(nodes, parts, rows, all)
    requires part !! all && o in part && o.Holds(part, row)
    ensures Fit([o] + nodes, [part] + parts, [row] + rows, all + part)
  {
    forall i | 0 <= i < |nodes| + 1 ensures FitsAt([o] + nodes, [part] + parts, [row] + rows, all + part, i) {
      if i > 0 { assert FitsAt(nodes, parts, rows, all, i - 1); }
    }
    forall i | 0 <= i < |nodes| ensures part !! parts[i] {
      assert FitsAt(nodes, parts, rows, all, i);
    }
  }

  /** Node k holds something else now, possibly with some new objects; the others do not. */
  lemma FitTouch<K>(nodes: seq<Owner<K>>, parts: seq<set<object>>, rows: seq<Row<K>>, all: set<object>, k: nat, more: set<object>, row: Row<K>)
    requires k < |nodes| == |parts| == |rows| && more !! all && parts[k] <= all
    requires forall i | 0 <= i < |nodes| && i != k :: FitsAt(nodes, parts, rows, all, i)
    requires forall i, j | 0 <= i < j < |parts| :: parts[i] !! parts[j]
    requires nodes[k] in parts[k] && nodes[k].Holds(parts[k] + more, row)
    ensures Fit(nodes, parts[k := parts[k] + more], rows[k := row], all + more)
  {
    var parts', rows' := parts[k := parts[k] + more], rows[k := row];
    forall i | 0 <= i < |nodes| ensures FitsAt(nodes, parts', rows', all + more, i) {
      if i != k { assert FitsAt(nodes, parts, rows, all, i); }
    }
    forall i | 0 <= i < |nodes| ensures more !! parts[i] {
      if i != k { assert FitsAt(nodes, parts, rows, all, i); }
    }
  }

  lemma FitRemove<K>(nodes: seq<Owner<K>>, parts: seq<set<object>>, rows: seq<Row<K>>, all: set<object>, k: nat)
    requires Fit(nodes, parts, rows, all) && k < |nodes|
    ensures Fit(RemoveAt(nodes, k), RemoveAt(parts, k), RemoveAt(rows, k), all)
  {
    forall i | 0 <= i < |nodes| - 1 ensures FitsAt(RemoveAt(nodes, k), RemoveAt(parts, k), RemoveAt(rows, k), all, i) {
      assert FitsAt(nodes, parts, rows, all, if i < k then i else i + 1);
    }
  }

  /** A list of users, or a list of rooms. */
  class Table<K> {
    const owners: Chain<Owner<K>>
    ghost var own: set<object>
    ghost var parts: seq<set<object>>
    ghost var rows: seq<Row<K>>

    ghost function Repr(): set<object>
      reads this, owners
    {
      {this} + owners.repr + own
    }

    /** The list shares nothing with what its nodes own, and the nodes hold the rows. */
    ghost predicate Valid()
      reads this, owners, Repr()
    {
      && owners.Valid() && this !in owners.repr && this !in own && own !! owners.repr
      && Fit(owners.View(), parts, rows, own)
    }

    /** o is the node at position k. */
    ghost predicate IsAt(o: Owner<K>, k: nat)
      requires Valid()
      reads this, owners, Repr()
    {
      k < |rows| && o == owners.View()[k] && FitsAt(owners.View(), parts, rows, own, k)
    }

    constructor ()
      ensures Valid() && fresh(Repr()) && rows == []
    {
      owners := new Chain<Owner<K>>();
      own, parts, rows := {}, [], [];
    }

    /** The first node whose key satisfies p; null if there is none. */
    method Find(p: K -> bool) returns (o: Owner?<K>, ghost k: nat)
      requires Valid()
      ensures Valid() && k == First(rows, OnKey(p))
      ensures if o != null then IsAt(o, First(rows, OnKey(p))) else First(rows, OnKey(p)) == |rows|
    {
      var cur := owners.head;
      o, k := null, 0;
      assert |rows| > 0 ==> FitsAt(owners.View(), parts, rows, own, 0);
      while cur != null && !p(cur.value.key)
        invariant k <= |rows| && cur == owners.LinkAt(k)
        invariant cur != null ==> cur.value == owners.View()[k] && cur.value.key == rows[k].key
        invariant forall i | 0 <= i < k :: !p(rows[i].key)
        decreases |rows| - k
      {
        assert owners.LinkedAt(k);
        cur := cur.next;
        k := k + 1;
        assert k < |rows| ==> FitsAt(owners.View(), parts, rows, own, k);
      }
      if cur != null { o := cur.value; }
      FirstUnique(rows, OnKey(p), k);
    }

    /** What a walk over the list finds at position k: the node of row k, and the way to the next one. */
    lemma Place(k: nat)
      requires Valid()
      ensures |owners.links| == |rows|
      ensures k < |rows| ==> IsAt(owners.links[k].value, k) && owners.links[k].next == owners.LinkAt(k + 1)
    {
      if k < |rows| {
        assert owners.LinkedAt(k);
        assert FitsAt(owners.View(), parts, rows, own, k);
      }
    }

    /** Whether the chain of an owner has an entry for s. */
    method Has(o: Owner<K>, s: Socket, ghost k: nat) returns (b: bool)
      requires Valid() && IsAt(o, k)
      ensures Valid() && (b <==> s in rows[k].sockets)
    {
      b := HasEntry(o.sockets, s);
    }

    /** The nodes are those that were there before, in the same order. */
    twostate predicate SamePlaces()
      requires Valid() && old(Valid())
      reads this, owners, Repr()
    {
      owners.links == old(owners.links) && owners.View() == old(owners.View())
    }

    /** Puts an entry for s in front of the chain of an owner. */
    method Push(o: Owner<K>, s: Socket, ghost k: nat)
      requires Valid() && IsAt(o, k)
      modifies Repr()
      ensures Valid() && SamePlaces() && forall x | x in Repr() :: x in old(Repr()) || fresh(x)
      ensures rows == old(rows)[k := old(rows[k]).(sockets := [s] + old(rows[k]).sockets)]
    {
      o.sockets.AddFirst(s);
      ghost var more, row := {o.sockets.links[0]}, rows[k].(sockets := [s] + rows[k].sockets);
      forall i | 0 <= i < |rows| && i != k ensures FitsAt(owners.View(), parts, rows, own, i) {
        assert old(FitsAt(owners.View(), parts, rows, own, i));
      }
      FitTouch(owners.View(), parts, rows, own, k, more, row);
      own, parts, rows := own + more, parts[k := parts[k] + more], rows[k := row];
    }

    /** Takes the first entry for s out of the chain of an owner, and says whether there was one. */
    method Pull(o: Owner<K>, s: Socket, ghost k: nat) returns (b: bool)
      requires Valid() && IsAt(o, k)
      modifies Repr()
      ensures Valid() && SamePlaces() && Repr() == old(Repr())
      ensures rows == old(rows)[k := old(rows[k]).(sockets := RemoveFirst(old(rows[k]).sockets, s))]
      ensures b <==> s in old(rows[k]).sockets
    {
      b := RemoveEntry(o.sockets, s);
      rows := rows[k := rows[k].(sockets := RemoveFirst(rows[k].sockets, s))];
      forall i | 0 <= i < |rows| ensures FitsAt(owners.View(), parts, rows, own, i) {
        assert old(FitsAt(owners.View(), parts, rows, own, i));
      }
    }

    method SetKey(o: Owner<K>, key: K, ghost k: nat)
      requires Valid() && IsAt(o, k)
      modifies Repr()
      ensures Valid() && Repr() == old(Repr())
      ensures rows == old(rows)[k := old(rows[k]).(key := key)]
    {
      o.key := key;
      rows := rows[k := rows[k].(key := key)];
      forall i | 0 <= i < |rows| ensures FitsAt(owners.View(), parts, rows, own, i) {
        assert old(FitsAt(owners.View(), parts, rows, own, i));
      }
    }

    /** Puts a new node with an empty chain in front. */
    method AddFirst(key: K)
      requires Valid()
      modifies Repr()
      ensures Valid() && forall x | x in Repr() :: x in old(Repr()) || fresh(x)
      ensures rows == [Row(key, [])] + old(rows)
    {
      var sockets := new Chain<Socket>();
      var o := new Owner(key, sockets);
      AddOwner(o, sockets.repr + {o}, Row(key, []));
    }

    method AddOwner(o: Owner<K>, ghost part: set<object>, ghost row: Row<K>)
      requires Valid() && o in part && o.Holds(part, row) && part !! Repr()
      modifies this, owners
      ensures Valid() && (forall x | x in Repr() :: x in old(Repr()) + part || fresh(x)) && rows == [row] + old(rows)
    {
      FitAdd(owners.View(), parts, rows, own, o, part, row);
      owners.AddFirst(o);
      own, parts, rows := own + part, [part] + parts, [row] + rows;
    }

    /** Takes out the first node whose key satisfies p. */
    method Unlink(p: K -> bool)
      requires Valid()
      modifies Repr()
      ensures Valid() && Repr() == old(Repr())
      ensures rows == var k := First(old(rows), OnKey(p)); if k < |old(rows)| then RemoveAt(old(rows), k) else old(rows)
    {
      var cur: Link?<Owner<K>>, prev: Link?<Owner<K>> := owners.head, null;
      ghost var k := 0;
      assert |rows| > 0 ==> FitsAt(owners.View(), parts, rows, own, 0);
      while cur != null && !p(cur.value.key)
        invariant k <= |rows| && cur == owners.LinkAt(k) && prev == if k == 0 then null else owners.links[k - 1]
        invariant cur != null ==> cur.value == owners.View()[k] && cur.value.key == rows[k].key
        invariant forall i | 0 <= i < k :: !p(rows[i].key)
        decreases |rows| - k
      {
        assert owners.LinkedAt(k);
        prev := cur;
        cur := cur.next;
        k := k + 1;
        assert k < |rows| ==> FitsAt(owners.View(), parts, rows, own, k);
      }
      FirstUnique(rows, OnKey(p), k);
      if cur != null {
        BypassOwner(prev, cur, k);
      }
    }

    method BypassOwner(prev: Link?<Owner<K>>, cur: Link<Owner<K>>, ghost k: nat)
      requires Valid() && k < |owners.links| && owners.links[k] == cur && prev == if k == 0 then null else owners.links[k - 1]
      modifies Repr()
      ensures Valid() && Repr() == old(Repr()) && rows == RemoveAt(old(rows), k)
    {
      FitRemove(owners.View(), parts, rows, own, k);
      owners.Bypass(prev, cur, k);
      parts, rows := RemoveAt(parts, k), RemoveAt(rows, k);
    }
  }
}
