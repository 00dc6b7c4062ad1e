/**
 Finite sums of an integer-valued function over an initial segment of the indices.

 The scheduler adds up waiting times and remaining bursts over processes, and pending processes over time.
 The restaurant counts threads in a given position, and the chat server adds up what its threads have
 left to do.

 The lemmas are those that any finite sum obeys: equal and smaller terms, pointwise addition, one term
 changed, exchange of two summations, the size of a set, and rearrangement by a bijection.
 */
module Sums {

  ghost function Sum(n: nat, f: int -> int): int {
    if n == 0 then 0 else Sum(n - 1, f) + f(n - 1)
  }

  lemma {:induction false} SumEq(n: nat, f: int -> int, g: int -> int)
    requires forall i | 0 <= i < n :: f(i) == g(i)
    ensures Sum(n, f) == Sum(n, g)
  {
    if n > 0 { SumEq(n - 1, f, g); }
  }

  lemma {:induction false} SumLe(n: nat, f: int -> int, g: int -> int)
    requires forall i | 0 <= i < n :: f(i) <= g(i)
    ensures Sum(n, f) <= Sum(n, g)
  {
    if n > 0 { SumLe(n - 1, f, g); }
  }

  /** Pointwise addition. */
  lemma {:induction false} SumAdd(n: nat, f: int -> int, g: int -> int, h: int -> int)
    requires forall i | 0 <= i < n :: h(i) == f(i) + g(i)
    ensures Sum(n, h) == Sum(n, f) + Sum(n, g)
  {
    if n > 0 { SumAdd(n - 1, f, g, h); }
  }

  /** Two functions that agree everywhere but at j. */
  lemma {:induction false} SumExceptAt(n: nat, f: int -> int, g: int -> int, j: int)
    requires 0 <= j < n
    requires forall i | 0 <= i < n && i != j :: f(i) == g(i)
    ensures Sum(n, f) - f(j) == Sum(n, g) - g(j)
  {
    if j == n - 1 {
      SumEq(n - 1, f, g);
    } else {
      SumExceptAt(n - 1, f, g, j);
    }
  }

  /** A sum of non-negative terms is zero only if every term is. */
  lemma {:induction false} SumZero(n: nat, f: int -> int)
    requires forall i | 0 <= i < n :: f(i) >= 0
    ensures Sum(n, f) >= 0
    ensures Sum(n, f) == 0 <==> forall i | 0 <= i < n :: f(i) == 0
  {
    if n > 0 { SumZero(n - 1, f); }
  }

  /** Each term of a sum of non-negative terms is at most the sum. */
  lemma {:induction false} SumTerm(n: nat, f: int -> int, j: int)
    requires forall i | 0 <= i < n :: f(i) >= 0
    requires 0 <= j < n
    ensures f(j) <= Sum(n, f)
  {
    SumZero(n - 1, f);
    if j < n - 1 { SumTerm(n - 1, f, j); }
  }

  lemma {:induction false} SumConst(n: nat, f: int -> int)
    requires forall i | 0 <= i < n :: f(i) == 0
    ensures Sum(n, f) == 0
  {
    if n > 0 { SumConst(n - 1, f); }
  }

  /** The order of a double sum does not matter. */
  lemma {:induction false} SumSwap(n: nat, m: nat, f: (int, int) -> int)
    ensures Sum(n, i => Sum(m, t => f(i, t))) == Sum(m, t => Sum(n, i => f(i, t)))
  {
    if n == 0 {
      SumConst(m, t => Sum(n, i => f(i, t)));
    } else {
      var rows, cols := i => Sum(m, t => f(i, t)), t => Sum(n, i => f(i, t));
      var shorter := t => Sum(n - 1, i => f(i, t));
      SumSwap(n - 1, m, f);
      forall t ensures cols(t) == shorter(t) + f(n - 1, t) {}
      SumAdd(m, shorter, t => f(n - 1, t), cols);
    }
  }

  /** The indicator of the interval [a, c) sums to its length. */
  lemma {:induction false} SumInterval(m: nat, f: int -> int, a: int, c: int)
    requires 0 <= a <= c
    requires forall t | 0 <= t < m :: f(t) == if a <= t < c then 1 else 0
    ensures c <= m ==> Sum(m, f) == c - a
    ensures a <= m < c ==> Sum(m, f) == m - a
    ensures m < a ==> Sum(m, f) == 0
  {
    if m > 0 { SumInterval(m - 1, f, a, c); }
  }

  /** The indicator of a predicate sums to the number of indices that satisfy it. */
  lemma {:induction false} SumCard(n: nat, f: int -> int, S: set<int>)
    requires forall i | 0 <= i < n :: f(i) == if i in S then 1 else 0
    requires forall i | i in S :: 0 <= i < n
    ensures Sum(n, f) == |S|
  {
    if n == 0 {
      assert S == {};
    } else {
      SumCard(n - 1, f, S - {n - 1});
      if n - 1 in S { assert |S| == |S - {n - 1}| + 1; } else { assert S - {n - 1} == S; }
    }
  }

  /** p is a bijection of the first n indices, and v its inverse. */
  ghost predicate Bijection(n: nat, p: seq<int>, v: seq<int>) {
    && |p| == n && |v| == n
    && (forall i | 0 <= i < n :: 0 <= p[i] < n && v[p[i]] == i)
    && (forall j | 0 <= j < n :: 0 <= v[j] < n && p[v[j]] == j)
  }

  /** Rearranging the terms does not change a sum. */
  lemma {:induction false} SumRearranged(n: nat, f: int -> int, p: seq<int>, v: seq<int>)
    requires Bijection(n, p, v)
    ensures Sum(n, i => if 0 <= i < |p| then f(p[i]) else 0) == Sum(n, f)
  {
    if n > 0 {
      var m, i0, last := n - 1, v[n - 1], p[n - 1];
      var p', v' := p[i0 := last][..m], v[last := i0][..m];
      SumRearranged(m, f, p', v');
      var g := i => if 0 <= i < |p| then f(p[i]) else 0;
      var g' := i => if 0 <= i < |p'| then f(p'[i]) else 0;
      if i0 == m {
        SumEq(m, g, g');
      } else {
        SumExceptAt(m, g, g', i0);
      }
    }
  }
}
