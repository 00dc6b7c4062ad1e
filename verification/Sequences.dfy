/**
 Searching, inserting into and removing from sequences: what the linked lists of all parts do.

 A search yields the position of the first element that satisfies a condition, and the length of the
 sequence if there is none, as a pointer loop ends with null.

 What a search finds is stated in lemmas of its own, not in the contract, so that it is at hand only where
 it is needed.
 */
module Sequences {
  /** The index of the first element that satisfies p, or the length if there is none. */
  function First<T>(v: seq<T>, p: T -> bool): (k: nat)
    ensures k <= |v|
  {
    if v == [] then 0 else if p(v[0]) then 0 else 1 + First(v[1..], p)
  }

  /** The element found satisfies p, and none before it does. */
  lemma {:induction false} FirstFinds<T>(v: seq<T>, p: T -> bool)
    ensures var k := First(v, p); (k < |v| ==> p(v[k])) && forall i | 0 <= i < k :: !p(v[i])
  {
    if v != [] && !p(v[0]) {
      FirstFinds(v[1..], p);
      var k := First(v[1..], p);
      forall i | 0 <= i < k + 1 ensures !p(v[i]) {
        if i > 0 { assert !p(v[1..][i - 1]); }
      }
    }
  }

  lemma FirstUnique<T>(v: seq<T>, p: T -> bool, k: nat)
    requires k <= |v| && (k < |v| ==> p(v[k]))
    requires forall i | 0 <= i < k :: !p(v[i])
    ensures First(v, p) == k
  {
    FirstFinds(v, p);
  }

  function InsertAt<T>(v: seq<T>, k: nat, x: T): (r: seq<T>)
    requires k <= |v|
    ensures |r| == |v| + 1
  {
    v[..k] + [x] + v[k..]
  }

  function RemoveAt<T>(v: seq<T>, k: nat): (r: seq<T>)
    requires k < |v|
    ensures |r| == |v| - 1
  {
    v[..k] + v[k + 1..]
  }

  ghost predicate Distinct<T>(s: seq<T>) {
    forall i, j | 0 <= i < j < |s| :: s[i] != s[j]
  }

  lemma DistinctInsert<T>(s: seq<T>, k: nat, x: T)
    requires Distinct(s) && x !in s && k <= |s|
    ensures Distinct(InsertAt(s, k, x))
  {
  }

  lemma DistinctRemove<T>(s: seq<T>, k: nat)
    requires Distinct(s) && k < |s|
    ensures Distinct(RemoveAt(s, k)) && s[k] !in RemoveAt(s, k)
  {
  }

  function Equals<T(==)>(x: T): T -> bool { (y: T) => y == x }

  /** The sequence without the first x; unchanged if there is none. */
  function RemoveFirst<T(==)>(v: seq<T>, x: T): (r: seq<T>) {
    var k := First(v, Equals(x));
    if k < |v| then RemoveAt(v, k) else v
  }

  lemma RemoveFirstCounts<T>(v: seq<T>, x: T)
    ensures multiset(RemoveFirst(v, x)) == multiset(v) - multiset{x}
  {
    FirstFinds(v, Equals(x));
    var k := First(v, Equals(x));
    if k < |v| {
      assert v == v[..k] + [v[k]] + v[k + 1..];
    }
  }
}
