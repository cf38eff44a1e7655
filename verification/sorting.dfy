/** Python's ordering of `str` values (code point by code point, a proper
    prefix first) and `sorted` on lists of strings. */
module Sorting {
  import opened Seqs

  /** `a < b` on Python strings. */
  predicate Less(a: string, b: string)
    decreases |a|
  {
    if |a| == 0 then |b| > 0
    else if |b| == 0 then false
    else if a[0] != b[0] then a[0] < b[0]
    else Less(a[1..], b[1..])
  }

  lemma {:induction false} LessIrreflexive(a: string)
    ensures !Less(a, a)
    decreases |a|
  {
    if |a| > 0 {
      LessIrreflexive(a[1..]);
    }
  }

  lemma {:induction false} LessAsymmetric(a: string, b: string)
    ensures !(Less(a, b) && Less(b, a))
    decreases |a|
  {
    if |a| > 0 && |b| > 0 && a[0] == b[0] {
      LessAsymmetric(a[1..], b[1..]);
    }
  }

  lemma {:induction false} LessTransitive(a: string, b: string, c: string)
    requires Less(a, b) && Less(b, c)
    ensures Less(a, c)
    decreases |a|
  {
    if |a| > 0 && a[0] == b[0] && b[0] == c[0] {
      LessTransitive(a[1..], b[1..], c[1..]);
    }
  }

  /** Two different strings are ordered one way or the other. */
  lemma {:induction false} LessTotal(a: string, b: string)
    ensures a == b || Less(a, b) || Less(b, a)
    decreases |a|
  {
    if |a| > 0 && |b| > 0 && a[0] == b[0] {
      LessTotal(a[1..], b[1..]);
      assert a == [a[0]] + a[1..] && b == [b[0]] + b[1..];
    }
  }

  /** Non-decreasing. */
  predicate Sorted(xs: seq<string>)
  {
    forall i, j :: 0 <= i < j < |xs| ==> !Less(xs[j], xs[i])
  }

  /** Increasing, hence without repeats. */
  predicate StrictlySorted(xs: seq<string>)
  {
    forall i, j :: 0 <= i < j < |xs| ==> Less(xs[i], xs[j])
  }

  /** `x` may go in front of a sorted list whose head is not smaller. */
  lemma InsertFront(x: string, xs: seq<string>)
    requires Sorted(xs) && |xs| > 0 && !Less(xs[0], x)
    ensures Sorted([x] + xs)
  {
    forall j | 0 <= j < |xs|
      ensures !Less(xs[j], x)
    {
      if j > 0 {
        LessTotal(xs[0], x);
        LessAsymmetric(xs[j], xs[0]);
        if Less(xs[j], x) {
          LessTotal(xs[j], xs[0]);
          LessTransitive(xs[j], x, xs[0]);
        }
      }
    }
    var r := [x] + xs;
    assert forall k :: 1 <= k < |r| ==> r[k] == xs[k - 1];
  }

  /** The head smaller than `x` stays in front of the tail with `x` inserted. */
  lemma InsertBehind(x: string, xs: seq<string>, rest: seq<string>)
    requires Sorted(xs) && |xs| > 0 && Less(xs[0], x)
    requires Sorted(rest) && multiset(rest) == multiset(xs[1..]) + multiset{x}
    ensures Sorted([xs[0]] + rest)
    ensures multiset([xs[0]] + rest) == multiset(xs) + multiset{x}
  {
    assert xs == [xs[0]] + xs[1..];
    forall k | 0 <= k < |rest|
      ensures !Less(rest[k], xs[0])
    {
      assert rest[k] in multiset(rest);
      if rest[k] != x {
        assert rest[k] in multiset(xs[1..]);
        var j :| 0 <= j < |xs[1..]| && xs[1..][j] == rest[k];
        assert xs[j + 1] == rest[k];
      } else {
        LessAsymmetric(xs[0], x);
      }
    }
    var r := [xs[0]] + rest;
    assert forall k :: 1 <= k < |r| ==> r[k] == rest[k - 1];
  }

  /** Inserts `x` before the first element not smaller than it. */
  function Insert(x: string, xs: seq<string>): (r: seq<string>)
    requires Sorted(xs)
    ensures Sorted(r)
    ensures multiset(r) == multiset(xs) + multiset{x}
    decreases |xs|
  {
    if |xs| == 0 then [x]
    else if !Less(xs[0], x) then
      InsertFront(x, xs);
      [x] + xs
    else
      var rest := Insert(x, xs[1..]);
      InsertBehind(x, xs, rest);
      [xs[0]] + rest
  }

  /** `sorted(xs)`. */
  function Sort(xs: seq<string>): (r: seq<string>)
    ensures Sorted(r)
    ensures multiset(r) == multiset(xs)
    decreases |xs|
  {
    if |xs| == 0 then []
    else
      assert xs == [xs[0]] + xs[1..];
      Insert(xs[0], Sort(xs[1..]))
  }

  /** A sorted list without repeats is strictly increasing. */
  lemma SortedNoDupIsStrict(xs: seq<string>)
    requires Sorted(xs) && NoDup(xs)
    ensures StrictlySorted(xs)
  {
    forall i, j | 0 <= i < j < |xs|
      ensures Less(xs[i], xs[j])
    {
      LessTotal(xs[i], xs[j]);
    }
  }

  /** The head of a strictly increasing list does not recur in its tail. */
  lemma StrictHeadNotInTail(xs: seq<string>)
    requires |xs| > 0 && StrictlySorted(xs)
    ensures xs[0] !in xs[1..]
    ensures Elems(xs[1..]) == Elems(xs) - {xs[0]}
  {
    LessIrreflexive(xs[0]);
    assert forall k :: 1 <= k < |xs| ==> xs[k] != xs[0];
    assert xs == [xs[0]] + xs[1..];
    ElemsAppend([xs[0]], xs[1..]);
  }

  /** A set has exactly one strictly increasing listing. */
  lemma {:induction false} StrictlySortedUnique(a: seq<string>, b: seq<string>)
    requires StrictlySorted(a) && StrictlySorted(b)
    requires Elems(a) == Elems(b)
    ensures a == b
    decreases |a|
  {
    if |a| > 0 {
      assert a[0] in Elems(b);
      assert |b| > 0;
      assert b[0] in Elems(a);
      var i :| 0 <= i < |a| && a[i] == b[0];
      var j :| 0 <= j < |b| && b[j] == a[0];
      LessAsymmetric(a[0], b[0]);
      assert i == 0 || j == 0;
      StrictHeadNotInTail(a);
      StrictHeadNotInTail(b);
      StrictlySortedUnique(a[1..], b[1..]);
      assert a == [a[0]] + a[1..] && b == [b[0]] + b[1..];
    } else {
      assert forall y :: y !in Elems(a);
      forall y
        ensures multiset(b)[y] == 0
      {
        assert y !in Elems(b);
        assert y !in b;
        assert y !in multiset(b);
      }
      assert multiset(b) == multiset{};
    }
  }

  /** `sorted(list(set(xs)))` and `sorted(list(dict.fromkeys(xs)))`: the
      distinct elements of `xs` in increasing order, whatever order the set
      was listed in. */
  function SortedDistinct(xs: seq<string>): (r: seq<string>)
    ensures StrictlySorted(r)
    ensures Elems(r) == Elems(xs)
  {
    var d := Dedupe(xs);
    var r := Sort(d);
    assert forall y :: y in r <==> y in multiset(d);
    forall y
      ensures multiset(r)[y] <= 1
    {
      MultisetNoDup(d, y);
    }
    AtMostOnceNoDup(r);
    SortedNoDupIsStrict(r);
    r
  }

  /** No element of a list without repeats occurs more than once. */
  lemma {:induction false} MultisetNoDup(xs: seq<string>, y: string)
    requires NoDup(xs)
    ensures multiset(xs)[y] <= 1
    decreases |xs|
  {
    if |xs| > 0 {
      MultisetNoDup(xs[1..], y);
      assert xs == [xs[0]] + xs[1..];
      assert xs[0] !in xs[1..];
    }
  }

  /** A list in which nothing occurs twice has no repeats. */
  lemma {:induction false} AtMostOnceNoDup(xs: seq<string>)
    requires forall y :: multiset(xs)[y] <= 1
    ensures NoDup(xs)
    decreases |xs|
  {
    if |xs| > 0 {
      var t := xs[1..];
      assert xs == [xs[0]] + t;
      assert multiset(xs) == multiset{xs[0]} + multiset(t);
      assert forall y :: multiset(t)[y] <= multiset(xs)[y];
      AtMostOnceNoDup(t);
      assert multiset(t)[xs[0]] == 0;
      assert xs[0] !in t;
      assert forall j :: 1 <= j < |xs| ==> xs[j] == t[j - 1];
    }
  }
}
