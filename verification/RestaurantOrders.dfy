/** Whose orders they are: in every state of every run each customer's orders are those it has placed, and in the end they are all handled. */
module RestaurantOrders {
  import opened Restaurant
  import opened RestaurantSafety
  import opened RestaurantProgress

  /** How many of the orders are the customer's. */
  function OrdersOf(orders: seq<Order>, customer: int): nat {
    if orders == [] then 0
    else OrdersOf(orders[..|orders| - 1], customer) + if orders[|orders| - 1].customer == customer then 1 else 0
  }

  lemma {:induction false} OrdersOfBoth(a: seq<Order>, b: seq<Order>, customer: int)
    ensures OrdersOf(a + b, customer) == OrdersOf(a, customer) + OrdersOf(b, customer)
  {
    if b == [] {
      assert a + b == a;
    } else {
      OrdersOfBoth(a, b[..|b| - 1], customer);
      assert (a + b)[..|a + b| - 1] == a + b[..|b| - 1];
    }
  }

  lemma OrdersOfOne(o: Order, customer: int)
    ensures OrdersOf([o], customer) == if o.customer == customer then 1 else 0
  {
    assert [o][..0] == [];
  }

  lemma OneTakenOut(b: seq<Order>, i: nat, customer: int)
    requires i < |b|
    ensures multiset(b[..i] + b[i + 1..]) == multiset(b) - multiset{b[i]}
    ensures OrdersOf(b, customer) == OrdersOf(b[..i] + b[i + 1..], customer) + OrdersOf([b[i]], customer)
  {
    assert b == (b[..i] + [b[i]]) + b[i + 1..];
    OrdersOfBoth(b[..i] + [b[i]], b[i + 1..], customer);
    OrdersOfBoth(b[..i], [b[i]], customer);
    OrdersOfBoth(b[..i], b[i + 1..], customer);
  }

  /** The order in which they are listed does not matter. */
  lemma {:induction false} OrdersOfSame(a: seq<Order>, b: seq<Order>, customer: int)
    requires multiset(a) == multiset(b)
    ensures OrdersOf(a, customer) == OrdersOf(b, customer)
    decreases |a|
  {
    if a == [] {
      assert |multiset(b)| == 0;
    } else {
      var n := |a| - 1;
      assert a[n] in multiset(b);
      var i :| 0 <= i < |b| && b[i] == a[n];
      OneTakenOut(a, n, customer);
      OneTakenOut(b, i, customer);
      OrdersOfSame(a[..n] + a[n + 1..], b[..i] + b[i + 1..], customer);
    }
  }

  /** The customer's orders, queued or dequeued, and those it still has to place are as many as each customer has. */
  ghost predicate OwnOrders(c: Config, s: State, customer: int) {
    0 <= customer < c.customers ==>
      && c.cooks + customer < |s.threads|
      && OrdersOf(s.taken + s.queue, customer) + Left(s.threads[c.cooks + customer]) == c.perCustomer
  }

  lemma LeftOfThread(c: Config, s: State, i: int, w: set<int>, k: nat)
    requires Typed(c, s) && CanMove(s, i) && k < |s.threads|
    ensures |After(c, s, i, w).threads| == |s.threads|
    ensures Left(After(c, s, i, w).threads[k]) == Left(s.threads[k]) - if i == k && Places(c, s, i) then 1 else 0
  {
    assert TypedAt(c, s.threads, i) && TypedAt(c, s.threads, k);
  }

  /** What a step does to the orders that are queued and to those that have been dequeued, one behind the other. */
  lemma OrdersChange(c: Config, s: State, i: int, w: set<int>)
    requires CanMove(s, i)
    ensures var s' := After(c, s, i, w);
      s'.taken + s'.queue == s.taken + s.queue + if Places(c, s, i) then [Order(s.next, i - c.cooks)] else []
  {
    var s' := After(c, s, i, w);
    if Takes(s, i) {
      assert s.queue == [s.queue[0]] + s.queue[1..];
      assert s'.taken + s'.queue == s.taken + s.queue;
    }
  }

  /** A step adds an order exactly when a customer places one, and it is that customer's. */
  lemma OwnKept(c: Config, s: State, s': State, placed: seq<Order>, customer: nat)
    requires customer < c.customers && OwnOrders(c, s, customer) && |s'.threads| == |s.threads|
    requires s'.taken + s'.queue == s.taken + s.queue + placed
    requires Left(s'.threads[c.cooks + customer]) == Left(s.threads[c.cooks + customer]) - OrdersOf(placed, customer)
    ensures OwnOrders(c, s', customer)
  {
    OrdersOfBoth(s.taken + s.queue, placed, customer);
  }

  lemma ThreadKeepsOwn(c: Config, s: State, i: int, w: set<int>, s': State, customer: nat)
    requires Typed(c, s) && ThreadStep(c, s, i, w, s') && customer < c.customers && OwnOrders(c, s, customer)
    ensures OwnOrders(c, s', customer)
  {
    var placed := if Places(c, s, i) then [Order(s.next, i - c.cooks)] else [];
    LeftOfThread(c, s, i, w, c.cooks + customer);
    OrdersChange(c, s, i, w);
    OrdersOfOne(Order(s.next, i - c.cooks), customer);
    OwnKept(c, s, s', placed, customer);
  }

  lemma StepKeepsOwn(c: Config, s: State, s': State, customer: nat)
    requires Typed(c, s) && AnyStep(c, s, s') && customer < c.customers && OwnOrders(c, s, customer)
    ensures OwnOrders(c, s', customer)
  {
    if i, w :| ThreadStep(c, s, i, w, s') {
      ThreadKeepsOwn(c, s, i, w, s', customer);
    } else if i :| SpuriousWakeup(s, i, s') {
    } else {
      assert MainStep(c, s, s');
    }
  }

  /** In every state of every run, also with spurious wakeups, each customer's orders that were ever queued are as many as it
      has placed. */
  lemma {:induction false} PlacedByEach(c: Config, run: seq<State>, k: nat, customer: int)
    requires c.Valid() && Run(c, run) && k < |run|
    ensures OwnOrders(c, run[k], customer)
  {
    if k > 0 {
      var j := k - 1;
      PlacedByEach(c, run, j, customer);
      Safety(c, run, j);
      assert AnyStep(c, run[j], run[j + 1]);
      if 0 <= customer < c.customers { StepKeepsOwn(c, run[j], run[k], customer); }
    }
  }

  /** When the restaurant has closed, every customer's orders have been handled, all of them and no more. */
  lemma HandledForEach(c: Config, run: seq<State>, k: nat, customer: int)
    requires c.Valid() && Run(c, run) && k < |run| && run[k].main.MClosed? && 0 <= customer < c.customers
    ensures OrdersOf(run[k].served, customer) == c.perCustomer
  {
    var s := run[k];
    Safety(c, run, k);
    PlacedByEach(c, run, k, customer);
    ClosedProperly(c, s);
    assert s.taken + s.queue == s.taken;
    OrdersOfSame(s.served, s.taken, customer);
  }
}
