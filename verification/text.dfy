/** String primitives with Python's meaning: `startswith` at an offset,
    the `in` substring test, `str.split`, `'|'.join`, `replace(' ', '')`. */
module Text {
  import opened Wrappers
  import opened Seqs

  /** `s.startswith(p, i)`. */
  predicate StartsAt(s: string, p: string, i: nat)
  {
    i + |p| <= |s| && s[i..i + |p|] == p
  }

  /** Python's `p in s` for strings. */
  predicate IsSubstring(p: string, s: string)
  {
    exists i :: 0 <= i <= |s| && StartsAt(s, p, i)
  }

  /** An occurrence inside a prefix is an occurrence in the whole string. */
  lemma StartsAtPrefix(s: string, n: nat, p: string, i: nat)
    requires n <= |s| && StartsAt(s[..n], p, i)
    ensures StartsAt(s, p, i)
  {
    assert s[..n][i..i + |p|] == s[i..i + |p|];
  }

  /** Every offset `j` in `[i, |s|)` at which `p` starts, in increasing
      order: `[j for j in range(i, len(s)) if s.startswith(p, j)]`. */
  function OccurrencesFrom(s: string, p: string, i: nat): (r: seq<nat>)
    requires i <= |s|
    ensures forall k :: 0 <= k < |r| ==> i <= r[k] < |s| && StartsAt(s, p, r[k])
    ensures forall j :: i <= j < |s| && StartsAt(s, p, j) ==> j in r
    ensures forall a, b :: 0 <= a < b < |r| ==> r[a] < r[b]
    decreases |s| - i
  {
    if i == |s| then []
    else (if StartsAt(s, p, i) then [i] else []) + OccurrencesFrom(s, p, i + 1)
  }

  /** The occurrence offsets of `p` in `s`, overlapping ones included. */
  function Occurrences(s: string, p: string): seq<nat>
  {
    OccurrencesFrom(s, p, 0)
  }

  /** The first offset at or after `i` where `p` starts, if any. */
  function FindFrom(s: string, p: string, i: nat): (r: Option<nat>)
    requires i <= |s|
    ensures r.Some? ==> i <= r.value <= |s| && StartsAt(s, p, r.value)
    ensures r.Some? ==> forall k :: i <= k < r.value ==> !StartsAt(s, p, k)
    ensures r.None? ==> forall k :: i <= k <= |s| ==> !StartsAt(s, p, k)
    decreases |s| - i
  {
    if StartsAt(s, p, i) then Some(i)
    else if i == |s| then None
    else FindFrom(s, p, i + 1)
  }

  /** `sep.join(xs)`. */
  function Join(xs: seq<string>, sep: string): string
  {
    if |xs| == 0 then ""
    else if |xs| == 1 then xs[0]
    else xs[0] + sep + Join(xs[1..], sep)
  }

  /** Joining one more piece adds the separator and the piece at the end. */
  lemma {:induction false} JoinSnoc(xs: seq<string>, x: string, sep: string)
    requires |xs| > 0
    ensures Join(xs + [x], sep) == Join(xs, sep) + sep + x
    decreases |xs|
  {
    var xx := xs + [x];
    if |xs| == 1 {
      assert xx[1..] == [x];
    } else {
      assert xx[1..] == xs[1..] + [x];
      JoinSnoc(xs[1..], x, sep);
    }
  }

  /** A joined list begins with its first piece and ends with its last:
      the separator never leads or trails. */
  lemma {:induction false} JoinEnds(xs: seq<string>, sep: string)
    requires |xs| > 0
    ensures xs[0] <= Join(xs, sep)
    ensures |xs[|xs| - 1]| <= |Join(xs, sep)|
    ensures Join(xs, sep)[|Join(xs, sep)| - |xs[|xs| - 1]|..] == xs[|xs| - 1]
    decreases |xs|
  {
    if |xs| > 1 {
      JoinEnds(xs[1..], sep);
      var rest := Join(xs[1..], sep);
      var j := xs[0] + sep + rest;
      assert j[|j| - |rest|..] == rest;
      assert rest[|rest| - |xs[|xs| - 1]|..] == j[|j| - |xs[|xs| - 1]|..];
    }
  }

  /** `s.split(sep)`: the pieces between the non-overlapping occurrences of
      `sep`, found from the left. */
  function Split(s: string, sep: string): (r: seq<string>)
    requires |sep| > 0
    ensures |r| > 0
    ensures forall k :: 0 <= k < |r| ==> !IsSubstring(sep, r[k])
    ensures Join(r, sep) == s
    decreases |s|
  {
    match FindFrom(s, sep, 0)
    case None => [s]
    case Some(j) =>
      var head := s[..j];
      var rest := Split(s[j + |sep|..], sep);
      assert !IsSubstring(sep, head) by {
        forall i | 0 <= i <= |head| && StartsAt(head, sep, i)
          ensures false
        {
          StartsAtPrefix(s, j, sep, i);
        }
      }
      assert ([head] + rest)[1..] == rest;
      assert s == head + sep + s[j + |sep|..];
      [head] + rest
  }

  /** A string without `c` is one piece when split on `c`. */
  lemma SplitNoSeparator(s: string, c: char)
    requires c !in s
    ensures Split(s, [c]) == [s]
  {
    forall k | 0 <= k <= |s|
      ensures !StartsAt(s, [c], k)
    {
      if k < |s| {
        assert s[k..k + 1][0] == s[k] != c;
      }
    }
  }

  /** Splitting a joined list on a one-character separator that none of its
      pieces contains gives the list back. */
  lemma {:induction false} SplitJoin(xs: seq<string>, c: char)
    requires |xs| > 0
    requires forall k :: 0 <= k < |xs| ==> c !in xs[k]
    ensures Split(Join(xs, [c]), [c]) == xs
    decreases |xs|
  {
    if |xs| == 1 {
      SplitNoSeparator(xs[0], c);
    } else {
      var s := Join(xs, [c]);
      var a := xs[0];
      assert s == a + [c] + Join(xs[1..], [c]);
      assert StartsAt(s, [c], |a|);
      forall k | 0 <= k < |a|
        ensures !StartsAt(s, [c], k)
      {
        assert s[k] == a[k];
      }
      assert FindFrom(s, [c], 0) == Some(|a|);
      assert s[|a| + 1..] == Join(xs[1..], [c]);
      SplitJoin(xs[1..], c);
      assert xs == [a] + xs[1..];
    }
  }

  /** `s.split(c, 1)[0]`: the part of `s` before the first `c`. */
  function BeforeFirst(s: string, c: char): (r: string)
    ensures c !in r
    ensures r <= s
    ensures |r| == |s| || s[|r|] == c
  {
    if |s| == 0 || s[0] == c then ""
    else [s[0]] + BeforeFirst(s[1..], c)
  }

  /** `s.replace(' ', '')`. */
  function RemoveSpaces(s: string): (r: string)
    ensures ' ' !in r
    ensures IsSubsequence(r, s)
    ensures forall c :: c != ' ' ==> multiset(r)[c] == multiset(s)[c]
  {
    FilterKeepsCounts(s, c => c != ' ');
    FilterIsSubsequence(s, c => c != ' ');
    Filter(s, c => c != ' ')
  }
}
