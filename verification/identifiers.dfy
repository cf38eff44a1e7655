/** The identifier scanner behind `re.findall('[a-zA-Z_:][a-zA-Z0-9_:]*', s)`.

    The regular-expression engine tries a match at each offset from the
    left; where the first character class matches it extends the match
    greedily over `[a-zA-Z0-9_:]` and resumes after it, otherwise it moves
    on by one character. Matches are modelled as spans of `s`, and the scan
    is shown to be the only span list that is well formed, ordered and
    covers every identifier-start character. */
module Identifiers {
  import opened Text

  /** `[a-zA-Z_:]` */
  predicate IsIdStart(c: char)
  {
    ('a' <= c <= 'z') || ('A' <= c <= 'Z') || c == '_' || c == ':'
  }

  predicate IsDigit(c: char)
  {
    '0' <= c <= '9'
  }

  /** `[a-zA-Z0-9_:]` */
  predicate IsIdChar(c: char)
  {
    IsIdStart(c) || IsDigit(c)
  }

  /** A string the whole pattern matches. */
  predicate IsIdentifier(t: string)
  {
    |t| > 0 && IsIdStart(t[0]) && forall k :: 0 <= k < |t| ==> IsIdChar(t[k])
  }

  /** Every character of `s[a..b]` is an identifier character. */
  predicate AllIdChars(s: string, a: nat, b: nat)
    requires a <= b <= |s|
  {
    forall t :: a <= t < b ==> IsIdChar(s[t])
  }

  /** A match occupies `s[start..end]`. */
  datatype Span = Span(start: nat, end: nat)

  /** `m` is a greedy match of the pattern: it starts on `[a-zA-Z_:]` and
      runs over identifier characters up to the first character that is not
      one (or the end of `s`). */
  predicate IsMatch(s: string, m: Span)
  {
    && m.start < m.end <= |s|
    && IsIdStart(s[m.start])
    && AllIdChars(s, m.start, m.end)
    && (m.end == |s| || !IsIdChar(s[m.end]))
  }

  /** Each span is a greedy match at or after offset `i`. */
  predicate AllMatchesFrom(s: string, i: nat, r: seq<Span>)
  {
    forall k :: 0 <= k < |r| ==> IsMatch(s, r[k]) && i <= r[k].start
  }

  /** The spans are strictly left to right and do not touch. */
  predicate Ordered(r: seq<Span>)
  {
    forall a, b :: 0 <= a < b < |r| ==> r[a].end < r[b].start
  }

  /** Position `p` lies inside one of the spans. */
  predicate Covered(r: seq<Span>, p: nat)
  {
    exists k :: 0 <= k < |r| && r[k].start <= p < r[k].end
  }

  /** Every identifier-start character at or after `i` lies in a span. */
  predicate CoversFrom(s: string, i: nat, r: seq<Span>)
  {
    forall p :: i <= p < |s| && IsIdStart(s[p]) ==> Covered(r, p)
  }

  /** `r` lists the matches of a scan started at offset `i`: each is a
      greedy match at or after `i`, they are strictly left to right, and
      every identifier-start character at or after `i` lies in one. */
  predicate IsScanFrom(s: string, i: nat, r: seq<Span>)
  {
    AllMatchesFrom(s, i, r) && Ordered(r) && CoversFrom(s, i, r)
  }

  /** The end of the run of identifier characters that begins at `j`. */
  function RunEnd(s: string, j: nat): (e: nat)
    requires j <= |s|
    ensures j <= e <= |s|
    ensures AllIdChars(s, j, e)
    ensures e == |s| || !IsIdChar(s[e])
    decreases |s| - j
  {
    if j == |s| || !IsIdChar(s[j]) then j else RunEnd(s, j + 1)
  }

  /** A maximal run end is unique. */
  lemma {:induction false} RunEndUnique(s: string, j: nat, e: nat)
    requires j <= e <= |s|
    requires AllIdChars(s, j, e)
    requires e == |s| || !IsIdChar(s[e])
    ensures e == RunEnd(s, j)
    decreases e - j
  {
    if j < e {
      assert IsIdChar(s[j]);
      RunEndUnique(s, j + 1, e);
    }
  }

  /** The scan performed by `re.findall`, from offset `i`: a match where
      the first character class matches, otherwise one step to the right. */
  function MatchesFrom(s: string, i: nat): seq<Span>
    requires i <= |s|
    decreases |s| - i
  {
    if i == |s| then []
    else if IsIdStart(s[i]) then [Span(i, RunEnd(s, i + 1))] + MatchesFrom(s, RunEnd(s, i + 1))
    else MatchesFrom(s, i + 1)
  }

  /** The scan finds greedy matches only, none before its start. */
  lemma {:induction false} MatchesAreMatches(s: string, i: nat)
    requires i <= |s|
    ensures AllMatchesFrom(s, i, MatchesFrom(s, i))
    decreases |s| - i
  {
    if i < |s| {
      if IsIdStart(s[i]) {
        var e := RunEnd(s, i + 1);
        MatchesAreMatches(s, e);
        var r := MatchesFrom(s, i);
        assert forall k :: 1 <= k < |r| ==> r[k] == MatchesFrom(s, e)[k - 1];
      } else {
        MatchesAreMatches(s, i + 1);
      }
    }
  }

  /** The scan's matches are strictly left to right. */
  lemma {:induction false} MatchesOrdered(s: string, i: nat)
    requires i <= |s|
    ensures Ordered(MatchesFrom(s, i))
    decreases |s| - i
  {
    if i < |s| {
      if IsIdStart(s[i]) {
        var e := RunEnd(s, i + 1);
        var rest := MatchesFrom(s, e);
        MatchesOrdered(s, e);
        MatchesAreMatches(s, e);
        var r := MatchesFrom(s, i);
        assert forall k :: 1 <= k < |r| ==> r[k] == rest[k - 1];
        forall b | 1 <= b < |r|
          ensures e < r[b].start
        {
          assert IsMatch(s, rest[b - 1]) && e <= rest[b - 1].start;
          assert IsIdStart(s[rest[b - 1].start]);
        }
      } else {
        MatchesOrdered(s, i + 1);
      }
    }
  }

  /** The scan misses no identifier-start character. */
  lemma {:induction false} MatchesCover(s: string, i: nat)
    requires i <= |s|
    ensures CoversFrom(s, i, MatchesFrom(s, i))
    decreases |s| - i
  {
    if i < |s| {
      var r := MatchesFrom(s, i);
      if IsIdStart(s[i]) {
        var e := RunEnd(s, i + 1);
        var rest := MatchesFrom(s, e);
        MatchesCover(s, e);
        forall p | i <= p < |s| && IsIdStart(s[p])
          ensures Covered(r, p)
        {
          if p < e {
            assert r[0].start <= p < r[0].end;
          } else {
            assert Covered(rest, p);
            var k :| 0 <= k < |rest| && rest[k].start <= p < rest[k].end;
            assert r[k + 1] == rest[k];
          }
        }
      } else {
        MatchesCover(s, i + 1);
      }
    }
  }

  /** The scan of `findall` satisfies the scan characterisation. */
  lemma MatchesIsScan(s: string, i: nat)
    requires i <= |s|
    ensures IsScanFrom(s, i, MatchesFrom(s, i))
  {
    MatchesAreMatches(s, i);
    MatchesOrdered(s, i);
    MatchesCover(s, i);
  }

  /** A scan from an identifier-start character begins with the match there. */
  lemma ScanHead(s: string, i: nat, r: seq<Span>)
    requires i < |s| && IsIdStart(s[i]) && IsScanFrom(s, i, r)
    ensures |r| > 0 && r[0] == Span(i, RunEnd(s, i + 1))
  {
    assert Covered(r, i);
    var k :| 0 <= k < |r| && r[k].start <= i < r[k].end;
    assert IsMatch(s, r[0]) && i <= r[0].start;
    assert k == 0;
    RunEndUnique(s, i + 1, r[0].end);
  }

  /** After the first match, the rest of a scan is a scan from its end. */
  lemma ScanTail(s: string, i: nat, r: seq<Span>)
    requires i <= |s| && IsScanFrom(s, i, r) && |r| > 0 && r[0].start == i
    ensures r[0].end <= |s| && IsScanFrom(s, r[0].end, r[1..])
  {
    var e := r[0].end;
    var rest := r[1..];
    assert IsMatch(s, r[0]);
    assert forall b :: 0 <= b < |rest| ==> rest[b] == r[b + 1];
    forall p | e <= p < |s| && IsIdStart(s[p])
      ensures Covered(rest, p)
    {
      assert Covered(r, p);
      var k :| 0 <= k < |r| && r[k].start <= p < r[k].end;
      assert k != 0;
      assert rest[k - 1] == r[k];
    }
  }

  /** A scan from a character that cannot start a match is a scan from the
      next offset. */
  lemma ScanSkip(s: string, i: nat, r: seq<Span>)
    requires i < |s| && !IsIdStart(s[i]) && IsScanFrom(s, i, r)
    ensures IsScanFrom(s, i + 1, r)
  {
    forall k | 0 <= k < |r|
      ensures i + 1 <= r[k].start
    {
      assert IsMatch(s, r[k]);
    }
  }

  /** The span list of a scan is determined by the string: any list that is
      a scan from `i` is the one `MatchesFrom` computes. */
  lemma {:induction false} ScanUnique(s: string, i: nat, r: seq<Span>)
    requires i <= |s| && IsScanFrom(s, i, r)
    ensures r == MatchesFrom(s, i)
    decreases |s| - i
  {
    if i < |s| {
      if IsIdStart(s[i]) {
        var e := RunEnd(s, i + 1);
        ScanHead(s, i, r);
        ScanTail(s, i, r);
        ScanUnique(s, e, r[1..]);
        assert MatchesFrom(s, i) == [Span(i, e)] + MatchesFrom(s, e);
        assert r == [r[0]] + r[1..];
      } else {
        ScanSkip(s, i, r);
        ScanUnique(s, i + 1, r);
      }
    }
  }

  /** The matches of the whole string. */
  function Matches(s: string): (r: seq<Span>)
    ensures IsScanFrom(s, 0, r)
  {
    MatchesIsScan(s, 0);
    MatchesFrom(s, 0)
  }

  /** Each match starts at the first identifier-start character of its run:
      everything between the run's beginning and the match is a digit, so
      the matches are the maximal runs of `[a-zA-Z0-9_:]` with leading
      digits stripped (runs of digits only give no match). */
  lemma MatchSkipsOnlyDigits(s: string, k: nat, q: nat)
    requires k < |Matches(s)|
    requires q < Matches(s)[k].start && AllIdChars(s, q, Matches(s)[k].start)
    ensures IsDigit(s[q])
  {
    var r := Matches(s);
    var m := r[k];
    assert IsMatch(s, m);
    assert IsIdStart(s[q]) ==> Covered(r, q);
  }

  /** `re.findall('[a-zA-Z_:][a-zA-Z0-9_:]*', s)`: the text of each match,
      left to right. */
  function FindAll(s: string): (r: seq<string>)
    ensures |r| == |Matches(s)|
    ensures forall k :: 0 <= k < |r| ==> r[k] == s[Matches(s)[k].start..Matches(s)[k].end]
    ensures forall k :: 0 <= k < |r| ==> IsIdentifier(r[k]) && IsSubstring(r[k], s)
  {
    var m := Matches(s);
    var r := seq(|m|, k requires 0 <= k < |m| => s[m[k].start..m[k].end]);
    forall k | 0 <= k < |r|
      ensures IsIdentifier(r[k]) && IsSubstring(r[k], s)
    {
      assert IsMatch(s, m[k]);
      assert StartsAt(s, r[k], m[k].start);
    }
    r
  }
}
