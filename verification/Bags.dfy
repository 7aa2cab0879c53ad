/** Sequences as bags: what reordering keeps. */
module Bags {

  /** Two places of `s`, one after the other, hold `x` and `y`. */
  lemma {:induction false} PairInBag<T>(s: seq<T>, i: nat, j: nat)
    requires i < j < |s|
    ensures multiset{s[i], s[j]} <= multiset(s)
  {
    assert s == s[..i] + [s[i]] + s[i + 1..j] + [s[j]] + s[j + 1..];
  }

  /** A pair below a bag comes from two different places. */
  lemma {:induction false} BagPair<T>(s: seq<T>, x: T, y: T) returns (i: nat, j: nat)
    requires multiset{x, y} <= multiset(s)
    ensures i < j < |s|
    ensures (s[i] == x && s[j] == y) || (s[i] == y && s[j] == x)
  {
    assert s == [s[0]] + s[1..];
    if s[0] == x || s[0] == y {
      var other := if s[0] == x then y else x;
      assert multiset{x, y} == multiset{s[0], other};
      assert multiset(s[1..]) == multiset(s) - multiset{s[0]};
      assert other in multiset(s[1..]);
      var k: nat :| k < |s[1..]| && s[1..][k] == other;
      i, j := 0, k + 1;
    } else {
      i, j := BagPair(s[1..], x, y);
      i, j := i + 1, j + 1;
    }
  }

  ghost predicate Distinct<T>(s: seq<T>) {
    forall i, j :: 0 <= i < j < |s| ==> s[i] != s[j]
  }

  lemma {:induction false} DistinctCount<T>(s: seq<T>, x: T)
    requires Distinct(s)
    ensures multiset(s)[x] == if x in s then 1 else 0
  {
    if multiset(s)[x] >= 2 {
      assert multiset{x, x} <= multiset(s);
      var i, j := BagPair(s, x, x);
      assert false;
    }
    assert x in s <==> x in multiset(s);
  }

  /** Repetition-free sequences with the same members are rearrangements of each other. */
  lemma {:induction false} SameMembers<T(!new)>(a: seq<T>, b: seq<T>)
    requires Distinct(a) && Distinct(b)
    requires forall x :: x in a <==> x in b
    ensures multiset(a) == multiset(b)
  {
    forall x
      ensures multiset(a)[x] == multiset(b)[x]
    {
      DistinctCount(a, x);
      DistinctCount(b, x);
    }
  }

  lemma {:induction false} SameBagMembers<T>(a: seq<T>, b: seq<T>)
    requires multiset(a) == multiset(b)
    ensures |a| == |b|
    ensures forall x :: x in a <==> x in b
  {
    assert |multiset(a)| == |a| && |multiset(b)| == |b|;
    assert forall x :: x in a <==> x in multiset(a);
    assert forall x :: x in b <==> x in multiset(b);
  }

  function ToFront<T>(s: seq<T>, i: nat): (r: seq<T>)
    requires i < |s|
    ensures r != [] && r[0] == s[i] && multiset(r) == multiset(s)
  {
    assert s == s[..i] + [s[i]] + s[i + 1..];
    [s[i]] + s[..i] + s[i + 1..]
  }

  function PairToFront<T>(s: seq<T>, i: nat, j: nat): (r: seq<T>)
    requires i < j < |s|
    ensures |r| >= 2 && r[0] == s[i] && r[1] == s[j] && multiset(r) == multiset(s)
  {
    var t := ToFront(s, j);
    assert t[i + 1] == s[i];
    ToFront(t, i + 1)
  }
}
