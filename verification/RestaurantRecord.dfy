/**
 The shared record of the restaurant: the linked queue of orders and its counters, updated in place.

 Each operation is the part of a thread's step that happens under the mutex, and refines that step of the
 state machine: if the record shows the shared part of a state, afterwards it shows that of the next state.
 The waiting, the signalling and the moves of the threads are in the state machine only.

 A ghost sequence of tickets says which objects the queue consists of, in order; the record is valid if
 they are linked in that order, the last one to null, and none occurs twice.
 */
module RestaurantRecord {
  import opened Restaurant

  class Ticket {
    var customer: int
    var number: int
    var next: Ticket?

    constructor (customer: int)
      ensures this.customer == customer && number == 0 && next == null
    {
      this.customer, number, next := customer, 0, null;
    }

    function Value(): Order
      reads this
    {
      Order(number, customer)
    }
  }

  ghost function Values(tickets: seq<Ticket>): (v: seq<Order>)
    reads tickets
    ensures |v| == |tickets|
  {
    seq(|tickets|, i requires 0 <= i < |tickets| reads tickets => tickets[i].Value())
  }

  /** What a customer's test for a full queue does to the shared part of the state. */
  lemma SharedAfterTest(c: Config, s: State, i: int, w: set<int>)
    requires 0 <= i < |s.threads| && s.threads[i].CTest?
    ensures var s' := After(c, s, i, w);
      && s'.handled == s.handled
      && if s.size < c.maxSize then
           s'.queue == s.queue + [Order(s.next, i - c.cooks)] && s'.size == s.size + 1 && s'.next == s.next + 1
         else
           s'.queue == s.queue && s'.size == s.size && s'.next == s.next
  {
  }

  class Record {
    var orders: Ticket?
    var currentSize: int
    var nextOrderNumber: int
    var ordersHandled: int
    const maxSize: int
    const expected: int
    ghost var tickets: seq<Ticket>

    ghost function TicketAt(k: nat): Ticket?
      reads this`tickets
    {
      if k < |tickets| then tickets[k] else null
    }

    ghost predicate LinkedAt(i: int)
      reads this`tickets, tickets
    {
      0 <= i < |tickets| && tickets[i].next == TicketAt(i + 1)
    }

    /** The tickets are linked in order, the last one to null, and none occurs twice. */
    ghost predicate Valid()
      reads this`orders, this`tickets, tickets
    {
      && orders == TicketAt(0)
      && (forall i | 0 <= i < |tickets| :: LinkedAt(i))
      && (forall i, j | 0 <= i < j < |tickets| :: tickets[i] != tickets[j])
    }

    ghost function View(): seq<Order>
      reads this`tickets, tickets
    {
      Values(tickets)
    }

    /** The record is what state s says it is. */
    ghost predicate Shows(c: Config, s: State)
      reads this, tickets
    {
      && Valid() && View() == s.queue
      && currentSize == s.size && nextOrderNumber == s.next && ordersHandled == s.handled
      && maxSize == c.maxSize && expected == c.Expected()
    }

    constructor (c: Config)
      ensures Shows(c, Opened(c)) && tickets == []
    {
      orders, currentSize, nextOrderNumber, ordersHandled := null, 0, 1, 0;
      maxSize, expected := c.maxSize, c.Expected();
      tickets := [];
    }

    method IsEmpty() returns (b: bool)
      requires Valid()
      ensures b <==> View() == []
    {
      b := orders == null;
      assert b <==> |View()| == 0;
    }

    method IsFull() returns (b: bool)
      ensures b <==> currentSize >= maxSize
    {
      b := currentSize >= maxSize;
    }

    /** Walks to the last ticket and links the new one behind it. */
    method AddOrderToBack(order: Ticket)
      requires Valid() && order !in tickets && order.next == null
      modifies this`orders, this`tickets, tickets
      ensures Valid() && tickets == old(tickets) + [order]
      ensures View() == old(View()) + [order.Value()] && order.Value() == old(order.Value())
      ensures currentSize == old(currentSize) && nextOrderNumber == old(nextOrderNumber) && ordersHandled == old(ordersHandled)
    {
      ghost var v := View();
      if orders == null {
        orders := order;
      } else {
        var cur := orders;
        ghost var k := 0;
        while cur.next != null
          invariant k < |tickets| && cur == tickets[k] && LinkedAt(k)
          decreases |tickets| - k
        {
          assert LinkedAt(k + 1);
          cur := cur.next;
          k := k + 1;
        }
        cur.next := order;
      }
      tickets := tickets + [order];
      forall i | 0 <= i < |tickets| ensures LinkedAt(i) {
        if i < |tickets| - 1 { assert old(LinkedAt(i)); }
      }
      assert forall i | 0 <= i < |tickets| :: tickets[i].Value() == (v + [order.Value()])[i];
    }

    /** Numbers an order and queues it. */
    method Enqueue(order: Ticket)
      requires Valid() && order !in tickets
      modifies this, tickets, order
      ensures Valid() && tickets == old(tickets) + [order]
      ensures View() == old(View()) + [Order(old(nextOrderNumber), old(order.customer))]
      ensures currentSize == old(currentSize) + 1 && nextOrderNumber == old(nextOrderNumber) + 1
      ensures ordersHandled == old(ordersHandled)
    {
      ghost var v, o := View(), Order(nextOrderNumber, order.customer);
      order.number := nextOrderNumber;
      nextOrderNumber := nextOrderNumber + 1;
      order.next := null;
      forall k | 0 <= k < |tickets| ensures LinkedAt(k) && tickets[k].Value() == old(tickets[k].Value()) {
        assert old(LinkedAt(k));
      }
      assert Valid() && View() == v && order.Value() == o;
      AddOrderToBack(order);
      currentSize := currentSize + 1;
    }

    /** The step of a customer that holds the mutex at the test for a full queue: it places its order or must wait. */
    method AddOrder(order: Ticket, ghost c: Config, ghost s: State, ghost i: int) returns (placed: bool)
      requires Shows(c, s) && order !in tickets
      requires 0 <= i < |s.threads| && s.threads[i].CTest? && order.customer == i - c.cooks
      modifies this, tickets, order
      ensures placed <==> Places(c, s, i)
      ensures forall w :: Shows(c, After(c, s, i, w))
      ensures tickets == if placed then old(tickets) + [order] else old(tickets)
    {
      var full := IsFull();
      placed := !full;
      if placed {
        Enqueue(order);
      }
      forall w ensures Shows(c, After(c, s, i, w)) {
        SharedAfterTest(c, s, i, w);
      }
    }

    /** The step of a cook that holds the mutex at the test for an empty queue: it takes the first order,
        finds that no more will come, or must wait. */
    method GetOrder(ghost c: Config, ghost s: State, ghost i: int) returns (order: Ticket?, last: bool)
      requires Shows(c, s) && 0 <= i < |s.threads| && s.threads[i].KTest?
      modifies this, tickets
      ensures order != null <==> Takes(s, i)
      ensures order != null ==> NextPc(c, s, i) == KTook(order.Value()) && [order] + tickets == old(tickets) && order.next == null
      ensures order == null ==> (last <==> NextPc(c, s, i) == KQuit) && tickets == old(tickets)
      ensures forall w :: Shows(c, After(c, s, i, w))
    {
      order := null;
      var empty := IsEmpty();
      last := empty && nextOrderNumber - 1 >= expected;
      if !empty {
        ghost var v := View();
        assert LinkedAt(0);
        order := orders;
        orders := order.next;
        tickets := tickets[1..];
        order.next := null;
        currentSize := currentSize - 1;
        forall k | 0 <= k < |tickets| ensures LinkedAt(k) {
          assert old(LinkedAt(k + 1));
        }
        assert View() == v[1..];
      }
    }

    /** The step of a cook that holds the mutex to count its order as handled. */
    method CountHandled(ghost c: Config, ghost s: State, ghost i: int) returns (all: bool)
      requires Shows(c, s) && 0 <= i < |s.threads| && s.threads[i].KInc?
      modifies this`ordersHandled
      ensures forall w :: Shows(c, After(c, s, i, w))
      ensures all <==> s.handled + 1 >= c.Expected()
    {
      ordersHandled := ordersHandled + 1;
      all := ordersHandled >= expected;
    }

    /** The leftover loop of CloseRestaurant visits every order that is still queued. */
    method FreeRemaining(ghost c: Config, ghost s: State) returns (ghost leftover: nat)
      requires Shows(c, s) && s.main.MFree? && |s.threads| == c.Threads()
      ensures AfterMain(c, s).main == MClosed(leftover)
    {
      leftover := 0;
      assert |View()| == |s.queue|;
      var cur := orders;
      while cur != null
        invariant leftover <= |tickets| && cur == TicketAt(leftover)
        decreases |tickets| - leftover
      {
        assert LinkedAt(leftover);
        cur := cur.next;
        leftover := leftover + 1;
      }
    }
  }
}
