/**
 The order that buf_used (src/journals.c:75-94) keeps: least recently used first.
 A buffer is named by its index in the journal's array of buffers.
 */
module Lru {
  ghost predicate Distinct(s: seq<nat>) {
    forall i, j :: 0 <= i < j < |s| ==> s[i] != s[j]
  }

  /** Some order of the buffers 0..n-1, each once. */
  ghost predicate Permutation(order: seq<nat>, n: nat) {
    && |order| == n
    && Distinct(order)
    && (forall i :: 0 <= i < n ==> order[i] < n)
  }

  function IndexOf(s: seq<nat>, x: nat): (i: nat)
    requires x in s
    ensures i < |s| && s[i] == x
    ensures forall j :: 0 <= j < i ==> s[j] != x
  {
    if s[0] == x then 0 else 1 + IndexOf(s[1..], x)
  }

  /** The effect of one use: x leaves its place for the back, the others keep their order. */
  function MoveToBack(order: seq<nat>, x: nat): seq<nat>
    requires x in order
  {
    var k := IndexOf(order, x);
    order[..k] + order[k + 1..] + [x]
  }

  /** Who is where after a use. */
  lemma MovedAt(order: seq<nat>, x: nat, j: nat)
    requires x in order && j < |order|
    ensures |MoveToBack(order, x)| == |order|
    ensures
      var k := IndexOf(order, x);
      MoveToBack(order, x)[j] == if j < k then order[j] else if j < |order| - 1 then order[j + 1] else x
  {
    hide IndexOf;
  }

  lemma MoveKeepsPermutation(order: seq<nat>, n: nat, x: nat)
    requires Permutation(order, n) && x in order
    ensures Permutation(MoveToBack(order, x), n)
  {}

  /** The numbers below n. */
  ghost function Below(n: nat): (b: set<nat>)
    ensures forall x: nat :: x in b <==> x < n
    ensures |b| == n
  {
    if n == 0 then {}
    else
      var fewer := Below(n - 1);
      assert n - 1 !in fewer;
      fewer + {n - 1}
  }

  ghost function Elements(s: seq<nat>): (e: set<nat>)
    ensures forall x :: x in e <==> x in s
    ensures |e| <= |s|
    ensures Distinct(s) ==> |e| == |s|
  {
    if s == [] then {}
    else
      assert s == s[..|s| - 1] + [s[|s| - 1]];
      Elements(s[..|s| - 1]) + {s[|s| - 1]}
  }

  lemma {:induction false} SubsetCount(a: set<nat>, b: set<nat>)
    requires a <= b
    ensures |a| <= |b|
  {
    if a != {} {
      var x :| x in a;
      SubsetCount(a - {x}, b - {x});
    }
  }

  /** A permutation has room for every buffer. */
  lemma PermutationComplete(order: seq<nat>, n: nat, x: nat)
    requires Permutation(order, n) && x < n
    ensures x in order
  {
    if x !in order {
      SubsetCount(Elements(order), Below(n) - {x});
      assert false;
    }
  }

  // ----- Whole runs of uses -----

  /** Every use names one of the buffers in the order. */
  ghost predicate UsesOf(order: seq<nat>, uses: seq<nat>) {
    forall i :: 0 <= i < |uses| ==> uses[i] < |order|
  }

  function After(order: seq<nat>, uses: seq<nat>): (r: seq<nat>)
    requires Permutation(order, |order|) && UsesOf(order, uses)
    ensures Permutation(r, |order|)
  {
    if uses == [] then order
    else
      var before := After(order, uses[..|uses| - 1]);
      var x := uses[|uses| - 1];
      PermutationComplete(before, |order|, x);
      MoveKeepsPermutation(before, |order|, x);
      MoveToBack(before, x)
  }

  /** The time of the last use of x, or -1 if there was none. */
  function LastUse(uses: seq<nat>, x: nat): (t: int)
    ensures -1 <= t < |uses|
    ensures t >= 0 ==> uses[t] == x
    ensures forall i :: t < i < |uses| ==> uses[i] != x
  {
    if uses == [] then -1
    else if uses[|uses| - 1] == x then |uses| - 1
    else LastUse(uses[..|uses| - 1], x)
  }

  /** x was last used before y; of two buffers never used, the one that started in front is older. */
  ghost predicate Older(order: seq<nat>, uses: seq<nat>, x: nat, y: nat)
    requires x in order && y in order
  {
    || LastUse(uses, x) < LastUse(uses, y)
    || (LastUse(uses, x) == LastUse(uses, y) == -1 && IndexOf(order, x) < IndexOf(order, y))
  }

  /** Front to back is oldest to youngest. */
  ghost predicate ByAge(order: seq<nat>, uses: seq<nat>, r: seq<nat>) {
    && (forall i :: 0 <= i < |r| ==> r[i] in order)
    && (forall i, j :: 0 <= i < j < |r| ==> Older(order, uses, r[i], r[j]))
  }

  /** After any run of uses the order is exactly by age. */
  lemma {:induction false} OrderedByAge(order: seq<nat>, uses: seq<nat>)
    requires Permutation(order, |order|) && UsesOf(order, uses)
    ensures ByAge(order, uses, After(order, uses))
  {
    if uses == [] {
      forall i, j | 0 <= i < j < |order| ensures Older(order, uses, order[i], order[j]) {
        assert IndexOf(order, order[i]) == i && IndexOf(order, order[j]) == j;
      }
    } else {
      var earlier := uses[..|uses| - 1];
      OrderedByAge(order, earlier);
      PermutationComplete(After(order, earlier), |order|, uses[|uses| - 1]);
      MovedByAge(order, earlier, After(order, earlier), uses[|uses| - 1]);
      assert earlier + [uses[|uses| - 1]] == uses;
    }
  }

  lemma MovedByAge(order: seq<nat>, earlier: seq<nat>, before: seq<nat>, x: nat)
    requires Permutation(before, |order|) && x in before && ByAge(order, earlier, before)
    ensures ByAge(order, earlier + [x], MoveToBack(before, x))
  {
    var r := MoveToBack(before, x);
    forall i | 0 <= i < |r| ensures r[i] in order {
      assert r[i] in before;
    }
    forall i, j | 0 <= i < j < |r| ensures Older(order, earlier + [x], r[i], r[j]) {
      MovedOlder(order, earlier, before, x, i, j);
    }
  }

  /** One more use makes x the youngest and keeps the ages of the others. */
  lemma MovedOlder(order: seq<nat>, earlier: seq<nat>, before: seq<nat>, x: nat, i: nat, j: nat)
    requires Permutation(before, |order|) && x in before && i < j < |before|
    requires ByAge(order, earlier, before)
    ensures
      var r := MoveToBack(before, x);
      r[i] in order && r[j] in order && Older(order, earlier + [x], r[i], r[j])
  {
    hide IndexOf;
    var r := MoveToBack(before, x);
    var uses := earlier + [x];
    var k := IndexOf(before, x);
    assert uses[..|uses| - 1] == earlier;
    var i' := if i < k then i else i + 1;
    assert r[i] == before[i'] && before[i'] != x;
    assert LastUse(uses, r[i]) == LastUse(earlier, r[i]);
    if j < |before| - 1 {
      var j' := if j < k then j else j + 1;
      assert r[j] == before[j'] && before[j'] != x;
      assert LastUse(uses, r[j]) == LastUse(earlier, r[j]);
      assert Older(order, earlier, before[i'], before[j']);
    }
  }

  /** The buffer at the head, the next to be refilled, is the least recently used one, and only that one is. */
  lemma HeadIsOldest(order: seq<nat>, uses: seq<nat>, x: nat)
    requires Permutation(order, |order|) && UsesOf(order, uses) && x in order
    ensures x == After(order, uses)[0] <==> forall y :: y in order && y != x ==> Older(order, uses, x, y)
  {
    hide After, LastUse;
    var r := After(order, uses);
    OrderedByAge(order, uses);
    PermutationComplete(r, |order|, x);
    var k := IndexOf(r, x);
    if k == 0 {
      forall y | y in order && y != x ensures Older(order, uses, x, y) {
        PermutationComplete(r, |order|, y);
        assert r[0] != y && r[IndexOf(r, y)] == y;
        assert Older(order, uses, r[0], r[IndexOf(r, y)]);
      }
    } else {
      PermutationComplete(order, |order|, r[0]);
      assert Older(order, uses, r[0], r[k]);
    }
  }

  /** No buffer that has been used is at the head before every other one has been used after it. */
  lemma NotRecycledEarly(order: seq<nat>, uses: seq<nat>, x: nat)
    requires Permutation(order, |order|) && UsesOf(order, uses) && x in order
    requires LastUse(uses, x) >= 0
    ensures x == After(order, uses)[0] <==> forall y :: y in order && y != x ==> y in uses[LastUse(uses, x) + 1..]
  {
    hide After, LastUse, IndexOf, Permutation;
    HeadIsOldest(order, uses, x);
    forall y | y in order && y != x
      ensures Older(order, uses, x, y) <==> y in uses[LastUse(uses, x) + 1..]
    {
      var later := uses[LastUse(uses, x) + 1..];
      if LastUse(uses, y) > LastUse(uses, x) {
        assert later[LastUse(uses, y) - LastUse(uses, x) - 1] == y;
      }
      if y in later {
        var i :| 0 <= i < |later| && later[i] == y;
        assert uses[LastUse(uses, x) + 1 + i] == y;
      }
    }
  }

  /** In numbers: a used buffer is at the head exactly when n - 1 different buffers have been used since. */
  lemma SafeForAWhile(order: seq<nat>, uses: seq<nat>, x: nat)
    requires Permutation(order, |order|) && UsesOf(order, uses) && x in order && LastUse(uses, x) >= 0
    ensures
      var later := Elements(uses[LastUse(uses, x) + 1..]);
      |later| <= |order| - 1 && (x == After(order, uses)[0] <==> |later| == |order| - 1)
  {
    hide After, LastUse, Elements, IndexOf;
    var later, all := Elements(uses[LastUse(uses, x) + 1..]), Elements(order);
    NotRecycledEarly(order, uses, x);
    forall y | y in later ensures y in all - {x} { PermutationComplete(order, |order|, y); }
    SubsetCount(later, all - {x});
    if forall y :: y in all - {x} ==> y in later {
      SubsetCount(all - {x}, later);
    } else {
      var y :| y in all - {x} && y !in later;
      SubsetCount(later, all - {x} - {y});
    }
  }
}
