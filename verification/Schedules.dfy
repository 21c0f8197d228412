/**
 Adding up over journals: what a total comes to does not depend on the order in which the
 journals of a run get there.
 */
module Schedules {
  import opened Lru

  function SumInOrder(f: nat -> nat, order: seq<nat>): nat {
    if order == [] then 0 else SumInOrder(f, order[..|order| - 1]) + f(order[|order| - 1])
  }

  function SumBelow(f: nat -> nat, n: nat): nat {
    if n == 0 then 0 else SumBelow(f, n - 1) + f(n - 1)
  }

  lemma {:induction false} SumWithout(f: nat -> nat, order: seq<nat>, k: nat)
    requires k < |order|
    ensures SumInOrder(f, order) == SumInOrder(f, order[..k] + order[k + 1..]) + f(order[k])
    decreases |order|
  {
    var n := |order| - 1;
    var rest := order[..k] + order[k + 1..];
    if k == n {
      assert rest == order[..n];
    } else {
      SumWithout(f, order[..n], k);
      assert rest[..n - 1] == order[..n][..k] + order[..n][k + 1..];
      assert rest[n - 1] == order[n];
    }
  }

  /** A sum over all journals, taken in any order. */
  lemma {:induction false} SumAnyOrder(f: nat -> nat, order: seq<nat>, n: nat)
    requires Permutation(order, n)
    ensures SumInOrder(f, order) == SumBelow(f, n)
    decreases n
  {
    hide SumInOrder, Permutation, IndexOf;
    if n > 0 {
      PermutationComplete(order, n, n - 1);
      var k := IndexOf(order, n - 1);
      FewerAreLeft(order, n, k);
      SumWithout(f, order, k);
      SumAnyOrder(f, order[..k] + order[k + 1..], n - 1);
    } else {
      NothingToAdd(f, order);
    }
  }

  lemma NothingToAdd(f: nat -> nat, order: seq<nat>)
    requires Permutation(order, 0)
    ensures SumInOrder(f, order) == 0
  {}

  /** Without the largest number, the others are a permutation. */
  lemma FewerAreLeft(order: seq<nat>, n: nat, k: nat)
    requires n > 0 && Permutation(order, n) && k < |order| && order[k] == n - 1
    ensures Permutation(order[..k] + order[k + 1..], n - 1)
  {
    var rest := order[..k] + order[k + 1..];
    forall i | 0 <= i < n - 1 ensures rest[i] == order[if i < k then i else i + 1] {}
  }

  lemma {:induction false} SumZero(f: nat -> nat, n: nat)
    requires forall k: nat {:trigger f(k)} :: k < n ==> f(k) == 0
    ensures SumBelow(f, n) == 0
  {
    if n > 0 { SumZero(f, n - 1); }
  }

  lemma {:induction false} SumSame(f: nat -> nat, g: nat -> nat, n: nat)
    requires forall k: nat {:trigger f(k)} :: k < n ==> f(k) == g(k)
    ensures SumBelow(f, n) == SumBelow(g, n)
  {
    if n > 0 { SumSame(f, g, n - 1); }
  }

  /** One of the numbers below n has x more. */
  lemma {:induction false} SumOneMore(f: nat -> nat, g: nat -> nat, n: nat, i: nat, x: nat)
    requires forall k: nat {:trigger f(k)} :: k < n ==> f(k) == g(k) + if k == i then x else 0
    ensures SumBelow(f, n) == SumBelow(g, n) + if i < n then x else 0
  {
    if n > 0 { SumOneMore(f, g, n - 1, i, x); }
  }
}
