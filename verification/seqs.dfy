/** Generic sequence helpers: the list idioms the extractor relies on
    (`x in list`, `list.index`, comprehensions with a filter,
    `list(dict.fromkeys(xs))` and iteration over a set). */
module Seqs {

  /** The set of elements of a sequence (`set(xs)`). */
  function Elems<T>(xs: seq<T>): set<T>
  {
    set x | x in xs
  }

  /** No element occurs twice. */
  predicate NoDup<T(==)>(xs: seq<T>)
  {
    forall i, j :: 0 <= i < j < |xs| ==> xs[i] != xs[j]
  }

  /** `xs.index(x)`: the position of the first occurrence of `x`. */
  function IndexOf<T(==)>(xs: seq<T>, x: T): (r: nat)
    requires x in xs
    ensures r < |xs| && xs[r] == x
    ensures forall k :: 0 <= k < r ==> xs[k] != x
  {
    if xs[0] == x then 0 else 1 + IndexOf(xs[1..], x)
  }

  /** The index of the first element satisfying `p`, or `|xs|` when none
      does: where a loop that stops at such an element stops. */
  function FirstIndex<T>(xs: seq<T>, p: T -> bool): (n: nat)
    ensures n <= |xs|
    ensures forall k :: 0 <= k < n ==> !p(xs[k])
    ensures n < |xs| ==> p(xs[n])
    decreases |xs|
  {
    if |xs| == 0 || p(xs[0]) then 0
    else
      var n := 1 + FirstIndex(xs[1..], p);
      assert forall k :: 1 <= k < n ==> xs[k] == xs[1..][k - 1];
      n
  }

  /** Past an element that does not stop the loop, the first stop is one
      further on in the tail. */
  lemma FirstIndexTail<T>(xs: seq<T>, p: T -> bool)
    requires |xs| > 0 && !p(xs[0])
    ensures FirstIndex(xs, p) == 1 + FirstIndex(xs[1..], p)
    ensures xs[..FirstIndex(xs, p)][1..] == xs[1..][..FirstIndex(xs[1..], p)]
  {
  }

  /** The pieces one after the other. */
  function Concat<T>(xss: seq<seq<T>>): seq<T>
    decreases |xss|
  {
    if |xss| == 0 then [] else Concat(xss[..|xss| - 1]) + xss[|xss| - 1]
  }

  /** One more piece goes at the end. */
  lemma ConcatSnoc<T>(xss: seq<seq<T>>, x: seq<T>)
    ensures Concat(xss + [x]) == Concat(xss) + x
  {
    assert (xss + [x])[..|xss|] == xss;
  }

  /** `a` is obtained from `b` by deleting elements (order is kept). */
  predicate IsSubsequence<T(==)>(a: seq<T>, b: seq<T>)
    decreases |b|
  {
    if |a| == 0 then true
    else if |b| == 0 then false
    else if a[0] == b[0] then IsSubsequence(a[1..], b[1..])
    else IsSubsequence(a, b[1..])
  }

  /** Prepending to the longer sequence keeps a subsequence a subsequence. */
  lemma {:induction false} SubsequenceCons<T>(a: seq<T>, x: T, b: seq<T>)
    requires IsSubsequence(a, b)
    ensures IsSubsequence(a, [x] + b)
    decreases |b|, 1
  {
    var xb := [x] + b;
    assert xb[1..] == b;
    if |a| > 0 && a[0] == x {
      SubsequenceTail(a, b);
    }
  }

  /** Dropping the head of a non-empty subsequence keeps it a subsequence. */
  lemma {:induction false} SubsequenceTail<T>(a: seq<T>, b: seq<T>)
    requires |a| > 0 && IsSubsequence(a, b)
    ensures IsSubsequence(a[1..], b)
    decreases |b|, 0
  {
    assert [b[0]] + b[1..] == b;
    if a[0] == b[0] {
      SubsequenceCons(a[1..], b[0], b[1..]);
    } else {
      SubsequenceTail(a, b[1..]);
      SubsequenceCons(a[1..], b[0], b[1..]);
    }
  }

  /** Every element of a subsequence is an element of the sequence. */
  lemma {:induction false} SubsequenceElems<T>(a: seq<T>, b: seq<T>)
    requires IsSubsequence(a, b)
    ensures forall y :: y in a ==> y in b
    decreases |b|
  {
    if |a| == 0 {
    } else if a[0] == b[0] {
      SubsequenceElems(a[1..], b[1..]);
      assert a == [a[0]] + a[1..];
      assert b == [b[0]] + b[1..];
    } else {
      SubsequenceElems(a, b[1..]);
      assert b == [b[0]] + b[1..];
    }
  }

  /** Elements of a concatenation. */
  lemma ElemsAppend<T>(a: seq<T>, b: seq<T>)
    ensures Elems(a + b) == Elems(a) + Elems(b)
  {
    assert forall y :: y in a + b <==> y in a || y in b;
  }

  /** Slicing a concatenation at the seam gives back its parts. */
  lemma AppendSlices<T>(a: seq<T>, b: seq<T>)
    ensures (a + b)[..|a|] == a && (a + b)[|a|..] == b
  {
  }

  /** Concatenation is associative. */
  lemma AppendAssoc<T>(a: seq<T>, b: seq<T>, c: seq<T>)
    ensures (a + b) + c == a + (b + c)
  {
  }

  /** Prefixes chain, and what the longest adds beyond the shortest is what
      the two steps add. */
  lemma PrefixChain<T>(a: seq<T>, b: seq<T>, c: seq<T>)
    requires |a| <= |b| <= |c| && b[..|a|] == a && c[..|b|] == b
    ensures c[..|a|] == a
    ensures Elems(c[|a|..]) == Elems(b[|a|..]) + Elems(c[|b|..])
  {
    assert c[|a|..] == b[|a|..] + c[|b|..];
    ElemsAppend(b[|a|..], c[|b|..]);
  }

  /** `[x for x in xs if p(x)]`. */
  function Filter<T(==,!new)>(xs: seq<T>, p: T -> bool): (r: seq<T>)
    ensures forall k :: 0 <= k < |r| ==> p(r[k])
    ensures forall x :: x in r <==> x in xs && p(x)
    ensures NoDup(xs) ==> NoDup(r)
    decreases |xs|
  {
    if |xs| == 0 then []
    else
      assert xs == [xs[0]] + xs[1..];
      var rest := Filter(xs[1..], p);
      if p(xs[0]) then [xs[0]] + rest else rest
  }

  /** Filtering keeps the order of the elements it selects. */
  lemma {:induction false} FilterIsSubsequence<T(!new)>(xs: seq<T>, p: T -> bool)
    ensures IsSubsequence(Filter(xs, p), xs)
    decreases |xs|
  {
    if |xs| > 0 {
      var rest := Filter(xs[1..], p);
      FilterIsSubsequence(xs[1..], p);
      if p(xs[0]) {
        assert Filter(xs, p) == [xs[0]] + rest;
        assert ([xs[0]] + rest)[1..] == rest;
      } else {
        SubsequenceCons(rest, xs[0], xs[1..]);
        assert [xs[0]] + xs[1..] == xs;
      }
    }
  }

  /** Filtering keeps every copy of each element it selects. */
  lemma {:induction false} FilterKeepsCounts<T(!new)>(xs: seq<T>, p: T -> bool)
    ensures forall x :: p(x) ==> multiset(Filter(xs, p))[x] == multiset(xs)[x]
    decreases |xs|
  {
    if |xs| > 0 {
      FilterKeepsCounts(xs[1..], p);
      assert xs == [xs[0]] + xs[1..];
      if p(xs[0]) {
        assert Filter(xs, p) == [xs[0]] + Filter(xs[1..], p);
      }
    }
  }

  /** Filtering distributes over concatenation. */
  lemma {:induction false} FilterAppend<T(!new)>(a: seq<T>, b: seq<T>, p: T -> bool)
    ensures Filter(a + b, p) == Filter(a, p) + Filter(b, p)
    decreases |a|
  {
    if |a| == 0 {
      assert a + b == b;
    } else {
      var ab := a + b;
      assert ab[0] == a[0];
      assert ab[1..] == a[1..] + b;
      FilterAppend(a[1..], b, p);
      if p(a[0]) {
        calc {
          Filter(ab, p);
          [a[0]] + Filter(a[1..] + b, p);
          [a[0]] + (Filter(a[1..], p) + Filter(b, p));
          ([a[0]] + Filter(a[1..], p)) + Filter(b, p);
        }
      } else {
        calc {
          Filter(ab, p);
          Filter(a[1..] + b, p);
        }
      }
    }
  }

  /** Filtering one more element appends it when it is selected. */
  lemma FilterSnoc<T(!new)>(xs: seq<T>, i: nat, p: T -> bool)
    requires i < |xs|
    ensures Filter(xs[..i + 1], p) == Filter(xs[..i], p) + (if p(xs[i]) then [xs[i]] else [])
  {
    assert xs[..i + 1] == xs[..i] + [xs[i]];
    FilterAppend(xs[..i], [xs[i]], p);
    assert [xs[i]][1..] == [];
    if !p(xs[i]) {
      assert Filter(xs[..i], p) + [] == Filter(xs[..i], p);
    }
  }

  /** The union of `f(x)` over the elements `x` of `xs`, built from the
      left. */
  function UnionMap<A, B>(xs: seq<A>, f: A -> set<B>): set<B>
    decreases |xs|
  {
    if |xs| == 0 then {} else UnionMap(xs[..|xs| - 1], f) + f(xs[|xs| - 1])
  }

  /** An element lies in the union exactly when one of the parts holds it. */
  lemma {:induction false} UnionMapMembers<A, B>(xs: seq<A>, f: A -> set<B>, y: B)
    ensures y in UnionMap(xs, f) <==> exists k :: 0 <= k < |xs| && y in f(xs[k])
    decreases |xs|
  {
    if |xs| > 0 {
      var n := |xs| - 1;
      var init := xs[..n];
      UnionMapMembers(init, f, y);
      if y in UnionMap(init, f) {
        var k :| 0 <= k < n && y in f(init[k]);
        assert init[k] == xs[k];
      }
      if exists k :: 0 <= k < |xs| && y in f(xs[k]) {
        var k :| 0 <= k < |xs| && y in f(xs[k]);
        if k < n {
          assert init[k] == xs[k];
        }
      }
    }
  }

  /** The union over a concatenation is the union of the two unions. */
  lemma {:induction false} UnionMapAppend<A, B>(a: seq<A>, b: seq<A>, f: A -> set<B>)
    ensures UnionMap(a + b, f) == UnionMap(a, f) + UnionMap(b, f)
    decreases |b|
  {
    if |b| == 0 {
      assert a + b == a;
    } else {
      var n := |b| - 1;
      assert (a + b)[..|a + b| - 1] == a + b[..n];
      UnionMapAppend(a, b[..n], f);
    }
  }

  /** Extending a prefix by one element adds that element's part. */
  lemma UnionMapSnoc<A, B>(xs: seq<A>, i: nat, f: A -> set<B>)
    requires i < |xs|
    ensures UnionMap(xs[..i + 1], f) == UnionMap(xs[..i], f) + f(xs[i])
  {
    assert xs[..i + 1][..i] == xs[..i];
  }

  /** `list(dict.fromkeys(xs))`: drops repeats, keeping first occurrences. */
  function Dedupe<T(==)>(xs: seq<T>): (r: seq<T>)
    ensures NoDup(r)
    ensures Elems(r) == Elems(xs)
    decreases |xs|
  {
    if |xs| == 0 then []
    else
      var n := |xs| - 1;
      var r := Dedupe(xs[..n]);
      assert xs == xs[..n] + [xs[n]];
      ElemsAppend(xs[..n], [xs[n]]);
      if xs[n] in r then r
      else
        ElemsAppend(r, [xs[n]]);
        r + [xs[n]]
  }

  /** The first occurrence of an element of a prefix lies in that prefix. */
  lemma IndexOfPrefix<T>(xs: seq<T>, n: nat, x: T)
    requires n <= |xs| && x in xs[..n]
    ensures IndexOf(xs, x) == IndexOf(xs[..n], x)
  {
    var i := IndexOf(xs[..n], x);
    assert forall k :: 0 <= k < i ==> xs[..n][k] == xs[k];
    assert xs[..n][i] == xs[i];
  }

  /** Dedupe lists the distinct elements in the order of their first
      occurrence; with NoDup and Elems this pins the result down. */
  lemma {:induction false} DedupeFirstOccurrenceOrder<T>(xs: seq<T>)
    ensures forall i, j :: 0 <= i < j < |Dedupe(xs)| ==>
      Dedupe(xs)[i] in xs && Dedupe(xs)[j] in xs &&
      IndexOf(xs, Dedupe(xs)[i]) < IndexOf(xs, Dedupe(xs)[j])
    decreases |xs|
  {
    if |xs| > 0 {
      var n := |xs| - 1;
      var p := xs[..n];
      DedupeFirstOccurrenceOrder(p);
      var r := Dedupe(p);
      var d := Dedupe(xs);
      assert xs == p + [xs[n]];
      forall y | y in r ensures y in p {
        assert y in Elems(r);
      }
      forall i, j | 0 <= i < j < |d|
        ensures d[i] in xs && d[j] in xs && IndexOf(xs, d[i]) < IndexOf(xs, d[j])
      {
        assert d[i] in r;
        assert d[i] in p;
        assert d[i] in xs;
        IndexOfPrefix(xs, n, d[i]);
        if j < |r| {
          assert d[j] in r;
          assert d[j] in p;
          IndexOfPrefix(xs, n, d[j]);
          assert d[i] == r[i] && d[j] == r[j];
        } else {
          assert xs[n] !in r && d == r + [xs[n]];
          assert xs[n] !in Elems(r);
          assert xs[n] !in p;
          assert IndexOf(xs, xs[n]) == n;
        }
      }
    } else {
      assert Dedupe(xs) == [];
    }
  }

  /** A list without repeats is left as it is. */
  lemma {:induction false} DedupeIdempotent<T>(xs: seq<T>)
    requires NoDup(xs)
    ensures Dedupe(xs) == xs
    decreases |xs|
  {
    if |xs| > 0 {
      var n := |xs| - 1;
      var p := xs[..n];
      assert NoDup(p) by {
        forall i, j | 0 <= i < j < |p| ensures p[i] != p[j] {
          assert p[i] == xs[i] && p[j] == xs[j];
        }
      }
      DedupeIdempotent(p);
      assert xs[n] !in p by {
        forall k | 0 <= k < |p| ensures p[k] != xs[n] {
          assert p[k] == xs[k];
        }
      }
      assert Dedupe(xs) == p + [xs[n]];
      assert p + [xs[n]] == xs;
    }
  }

  /** Lists the elements of a set in an order the caller cannot choose:
      the model of iterating over a Python `set`, whose order is unspecified. */
  method Enumerate<T(==)>(s: set<T>) returns (r: seq<T>)
    ensures NoDup(r)
    ensures Elems(r) == s
    ensures |r| == |s|
  {
    r := [];
    var rest := s;
    while rest != {}
      invariant NoDup(r)
      invariant Elems(r) !! rest
      invariant Elems(r) + rest == s
      invariant |r| + |rest| == |s|
      decreases rest
    {
      var x :| x in rest;
      r := r + [x];
      rest := rest - {x};
    }
  }
}
