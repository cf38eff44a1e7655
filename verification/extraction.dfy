/** The metric-name extraction shared by both versions of the extractor:
    grouping offsets, rule names, the candidate filter over the lexer's
    output, and the per-target merge into a dashboard's metric list. The
    two versions differ only in the values gathered in `Config`. */
module Extraction {
  import opened Wrappers
  import opened Seqs
  import opened Text
  import opened Identifiers

  /** The constants one version of the extractor works with: the names the
      candidate filter drops as functions, the grouping markers, and the
      names never added as metrics. */
  datatype Config = Config(functions: seq<string>, markers: seq<string>, denylist: seq<string>)

  // ---------------------------------------------------------------------
  // Grouping offsets

  /** `g` is the offset just after an occurrence of one of the markers
      (occurrences are looked for at every offset of `q`). */
  predicate IsMarkerEnd(markers: seq<string>, q: string, g: int)
  {
    exists k, i :: 0 <= k < |markers| && 0 <= i < |q| && StartsAt(q, markers[k], i) && g == i + |markers[k]|
  }

  /** The end offset of every occurrence of one marker, left to right. */
  function EndOffsets(q: string, m: string): (r: seq<nat>)
    ensures forall g :: g in r <==> exists i :: 0 <= i < |q| && StartsAt(q, m, i) && g == i + |m|
  {
    var occ := Occurrences(q, m);
    var r := seq(|occ|, k requires 0 <= k < |occ| => occ[k] + |m|);
    assert forall k :: 0 <= k < |occ| ==> r[k] == occ[k] + |m|;
    forall g | (exists i :: 0 <= i < |q| && StartsAt(q, m, i) && g == i + |m|)
      ensures g in r
    {
      var i :| 0 <= i < |q| && StartsAt(q, m, i) && g == i + |m|;
      assert i in occ;
      var k :| 0 <= k < |occ| && occ[k] == i;
      assert r[k] == g;
    }
    r
  }

  /** `_find_grouping`: for each marker in turn, the end offsets of all its
      occurrences in `q`, overlapping occurrences included. */
  function GroupingOffsets(markers: seq<string>, q: string): (r: seq<nat>)
    ensures forall g :: g in r <==> IsMarkerEnd(markers, q, g)
    decreases |markers|
  {
    if |markers| == 0 then []
    else
      var n := |markers| - 1;
      var init := markers[..n];
      var r := GroupingOffsets(init, q) + EndOffsets(q, markers[n]);
      assert forall k :: 0 <= k < n ==> init[k] == markers[k];
      forall g | IsMarkerEnd(markers, q, g)
        ensures g in r
      {
        var k, i :| 0 <= k < |markers| && 0 <= i < |q| && StartsAt(q, markers[k], i) && g == i + |markers[k]|;
        if k < n {
          assert IsMarkerEnd(init, q, g);
        }
      }
      r
  }

  // ---------------------------------------------------------------------
  // Rules

  /** A rule name is recognised by its `:`. */
  predicate IsRuleName(t: string)
  {
    ':' in t
  }

  /** `_find_rules`: the identifiers of `expr` that contain `:`, left to
      right, repeats kept. */
  function FindRules(expr: string): (r: seq<string>)
    ensures forall k :: 0 <= k < |r| ==> IsIdentifier(r[k]) && ':' in r[k]
    ensures forall t :: t in r <==> t in FindAll(expr) && ':' in t
    ensures IsSubsequence(r, FindAll(expr))
    ensures forall t :: ':' in t ==> multiset(r)[t] == multiset(FindAll(expr))[t]
  {
    var names := FindAll(expr);
    var r := Filter(names, IsRuleName);
    FilterIsSubsequence(names, IsRuleName);
    FilterKeepsCounts(names, IsRuleName);
    forall k | 0 <= k < |r|
      ensures IsIdentifier(r[k]) && ':' in r[k]
    {
      assert IsRuleName(r[k]);
      var i :| 0 <= i < |names| && names[i] == r[k];
      assert IsIdentifier(names[i]);
    }
    r
  }

  // ---------------------------------------------------------------------
  // Candidates from the lexer's output

  /** The grouping markers of both versions: an identifier right after one
      of them is a label, not a metric. */
  const GroupingStatements: seq<string> := ["by(", "on(", ",", "group_right(", "group_left(", "sum_rate("]

  /** The markup that opens a name token in the highlighter's HTML. */
  const NvTag: string := "\"nv\">"

  /** The text after each `"nv">` tag up to the next `<` (the first piece,
      before any tag, is treated the same way, as the source does). */
  function Fragments(html: string): (r: seq<string>)
    ensures |r| == |Split(html, NvTag)|
    ensures forall k :: 0 <= k < |r| ==>
      var piece := Split(html, NvTag)[k];
      '<' !in r[k] && r[k] <= piece && (|r[k]| == |piece| || piece[|r[k]|] == '<')
  {
    var pieces := Split(html, NvTag);
    seq(|pieces|, k requires 0 <= k < |pieces| => BeforeFirst(pieces[k], '<'))
  }

  /** The candidate names: non-empty fragments that are not function names,
      each once, in order of first appearance. */
  function Candidates(html: string, functions: seq<string>): (r: seq<string>)
    ensures NoDup(r)
    ensures forall x :: x in r <==> x in Fragments(html) && x != "" && x !in functions
  {
    var kept := Filter(Fragments(html), f => f != "" && f !in functions);
    var r := Dedupe(kept);
    assert forall x :: x in r <==> x in Elems(kept);
    r
  }

  /** `name` occurs in `expr` at an offset that is a grouping offset. */
  predicate IsGroupingKey(expr: string, name: string, markers: seq<string>)
  {
    exists i :: 0 <= i < |expr| && StartsAt(expr, name, i) && IsMarkerEnd(markers, expr, i)
  }

  /** The names of the nested loop that collects grouping keys: those with
      an occurrence offset equal to one of `offsets`. */
  function GroupingNames(expr: string, names: seq<string>, offsets: seq<nat>): set<string>
  {
    set n | n in names && exists j :: j in Occurrences(expr, n) && j in offsets
  }

  /** What `_find_metrics_names` returns: the metric names, as the set the
      source builds, and the rules in order. */
  datatype Found = Found(metrics: set<string>, rules: seq<string>)

  /** A name `_find_metrics_names` reports as a metric of `expr`. */
  predicate IsMetricName(expr: string, html: string, cfg: Config, x: string)
  {
    x in Fragments(html) && x != "" && x !in cfg.functions && !IsGroupingKey(expr, x, cfg.markers)
  }

  /** `_find_metrics_names`, with the highlighter's output for `expr` given
      as `html`: the candidates minus those found at a grouping offset. */
  function FindMetricsNames(expr: string, html: string, cfg: Config): (r: Found)
    ensures r.rules == FindRules(expr)
    ensures forall x :: x in r.metrics <==> IsMetricName(expr, html, cfg, x)
  {
    var rules := FindRules(expr);
    var names := Candidates(html, cfg.functions);
    var offsets := GroupingOffsets(cfg.markers, expr);
    var grouping := if |offsets| > 0 then GroupingNames(expr, names, offsets) else {};
    forall x | x in names
      ensures x in grouping <==> IsGroupingKey(expr, x, cfg.markers)
    {
      if IsGroupingKey(expr, x, cfg.markers) {
        var i :| 0 <= i < |expr| && StartsAt(expr, x, i) && IsMarkerEnd(cfg.markers, expr, i);
        assert i in Occurrences(expr, x) && i in offsets;
      }
    }
    Found(Elems(names) - grouping, rules)
  }

  /** With no grouping marker anywhere in `expr`, every candidate is a
      metric. */
  lemma NoGroupingKeepsCandidates(expr: string, html: string, cfg: Config)
    requires forall k :: 0 <= k < |cfg.markers| ==> !IsSubstring(cfg.markers[k], expr)
    ensures FindMetricsNames(expr, html, cfg).metrics == Elems(Candidates(html, cfg.functions))
  {
    forall x | x in Candidates(html, cfg.functions)
      ensures !IsGroupingKey(expr, x, cfg.markers)
    {
      forall i | 0 <= i < |expr|
        ensures !IsMarkerEnd(cfg.markers, expr, i)
      {
        forall k, j | 0 <= k < |cfg.markers| && 0 <= j < |expr|
          ensures !StartsAt(expr, cfg.markers[k], j)
        {
          assert !IsSubstring(cfg.markers[k], expr);
        }
      }
    }
  }

  // ---------------------------------------------------------------------
  // Merging one target into a metric list

  /** A metric is added unless it is denylisted or lies inside a rule. */
  predicate Keep(metric: string, rules: seq<string>, denylist: seq<string>)
  {
    metric !in denylist && forall k :: 0 <= k < |rules| ==> !IsSubstring(metric, rules[k])
  }

  /** The rules of a target expression (after its spaces are removed). */
  function Rules(expr: string): seq<string>
  {
    FindRules(RemoveSpaces(expr))
  }

  /** The names reported as metrics for a target expression. */
  function Metrics(expr: string, lex: string -> string, cfg: Config): set<string>
  {
    var e := RemoveSpaces(expr);
    FindMetricsNames(e, lex(e), cfg).metrics
  }

  /** Everything one target adds to a metric list. */
  function TargetContribution(expr: string, lex: string -> string, cfg: Config): set<string>
  {
    Elems(Rules(expr)) + set m | m in Metrics(expr, lex, cfg) && Keep(m, Rules(expr), cfg.denylist)
  }

  /** `TargetContribution` as a function of the expression alone. */
  function TargetFn(lex: string -> string, cfg: Config): string -> set<string>
  {
    e => TargetContribution(e, lex, cfg)
  }

  /** Everything a sequence of targets adds. */
  function Contribution(exprs: seq<string>, lex: string -> string, cfg: Config): set<string>
  {
    UnionMap(exprs, TargetFn(lex, cfg))
  }

  /** A name is contributed by a sequence of targets exactly when one of the
      targets contributes it. */
  lemma ContributionMembers(exprs: seq<string>, lex: string -> string, cfg: Config, x: string)
    ensures x in Contribution(exprs, lex, cfg) <==>
      exists k :: 0 <= k < |exprs| && x in TargetContribution(exprs[k], lex, cfg)
  {
    UnionMapMembers(exprs, TargetFn(lex, cfg), x);
  }

  /** Contributions of concatenated target lists add up. */
  lemma ContributionAppend(a: seq<string>, b: seq<string>, lex: string -> string, cfg: Config)
    ensures Contribution(a + b, lex, cfg) == Contribution(a, lex, cfg) + Contribution(b, lex, cfg)
  {
    UnionMapAppend(a, b, TargetFn(lex, cfg));
  }

  /** A denylisted name is contributed only as one of the target's rules
      (so it holds `:`), and a kept metric never lies inside one of the
      target's rules. */
  lemma TargetContributionExcludes(expr: string, lex: string -> string, cfg: Config, x: string)
    requires x in TargetContribution(expr, lex, cfg)
    ensures x in cfg.denylist ==> x in Rules(expr) && ':' in x
    ensures x !in Rules(expr) ==> forall k :: 0 <= k < |Rules(expr)| ==> !IsSubstring(x, Rules(expr)[k])
  {
  }

  /** The filter applied to each reported metric. */
  function KeepFn(rules: seq<string>, denylist: seq<string>): string -> bool
  {
    m => Keep(m, rules, denylist)
  }

  /** The `name_in_rules` loop: whether `name` occurs inside some rule. */
  method InsideSomeRule(name: string, rules: seq<string>) returns (b: bool)
    ensures b <==> exists j :: 0 <= j < |rules| && IsSubstring(name, rules[j])
  {
    b := false;
    var k := 0;
    while k < |rules|
      invariant k <= |rules|
      invariant b <==> exists j :: 0 <= j < k && IsSubstring(name, rules[j])
    {
      if IsSubstring(name, rules[k]) {
        b := true;
      }
      k := k + 1;
    }
  }

  /** The loop over the reported metrics: each one that is neither
      denylisted nor inside a rule is appended, in the order given. */
  method KeepMetrics(ms: seq<string>, rules: seq<string>, denylist: seq<string>) returns (kept: seq<string>)
    ensures kept == Filter(ms, KeepFn(rules, denylist))
  {
    kept := [];
    var i := 0;
    while i < |ms|
      invariant i <= |ms|
      invariant kept == Filter(ms[..i], KeepFn(rules, denylist))
    {
      FilterSnoc(ms, i, KeepFn(rules, denylist));
      var nameInRules := InsideSomeRule(ms[i], rules);
      if ms[i] in denylist || nameInRules {
      } else {
        kept := kept + [ms[i]];
      }
      i := i + 1;
    }
    assert ms[..|ms|] == ms;
  }

  /** The metrics `_add_metrics` appends for one (space-free) expression
      `e` whose highlighted form is `html`: the reported metrics that are
      kept, each once, in the unspecified order of the source's set. */
  method KeptMetrics(e: string, html: string, cfg: Config) returns (kept: seq<string>)
    ensures NoDup(kept)
    ensures forall m :: m in kept <==> IsMetricName(e, html, cfg, m) && Keep(m, FindRules(e), cfg.denylist)
  {
    var found := FindMetricsNames(e, html, cfg);
    var ms := Enumerate(found.metrics);
    kept := KeepMetrics(ms, found.rules, cfg.denylist);
    forall m
      ensures m in kept <==> IsMetricName(e, html, cfg, m) && Keep(m, found.rules, cfg.denylist)
    {
      assert m in kept <==> m in ms && KeepFn(found.rules, cfg.denylist)(m);
      assert m in ms <==> m in found.metrics;
    }
  }

  /** `added` is what `_add_metrics` appends for target expression `expr`:
      the rules of its space-free form, in order, then each kept metric
      once; together, exactly the target's contribution. */
  ghost predicate IsTargetAddition(expr: string, lex: string -> string, cfg: Config, added: seq<string>)
  {
    && |Rules(expr)| <= |added| && added[..|Rules(expr)|] == Rules(expr)
    && NoDup(added[|Rules(expr)|..])
    && (forall m :: m in added[|Rules(expr)|..] <==>
          IsMetricName(RemoveSpaces(expr), lex(RemoveSpaces(expr)), cfg, m) && Keep(m, Rules(expr), cfg.denylist))
    && Elems(added) == TargetContribution(expr, lex, cfg)
  }

  /** What `_add_metrics` appends for one target: its rules, in order,
      then the kept metrics. */
  method TargetAdditions(expr: string, lex: string -> string, cfg: Config) returns (added: seq<string>)
    ensures |Rules(expr)| <= |added| && added[..|Rules(expr)|] == Rules(expr)
    ensures NoDup(added[|Rules(expr)|..])
    ensures forall m :: m in added[|Rules(expr)|..] <==>
      IsMetricName(RemoveSpaces(expr), lex(RemoveSpaces(expr)), cfg, m) && Keep(m, Rules(expr), cfg.denylist)
    ensures Elems(added) == TargetContribution(expr, lex, cfg)
  {
    var e := RemoveSpaces(expr);
    var rules := FindRules(e);
    var kept := KeptMetrics(e, lex(e), cfg);
    added := rules + kept;
    AppendSlices(rules, kept);
    ElemsAppend(rules, kept);
    assert Elems(kept) == set m | m in Metrics(expr, lex, cfg) && Keep(m, rules, cfg.denylist);
  }

  /** The additions of the first targets, extended by the next target's. */
  lemma AdditionsSnoc(exprs: seq<string>, lex: string -> string, cfg: Config, adds: seq<seq<string>>, added: seq<string>)
    requires |adds| < |exprs|
    requires forall k :: 0 <= k < |adds| ==> IsTargetAddition(exprs[k], lex, cfg, adds[k])
    requires IsTargetAddition(exprs[|adds|], lex, cfg, added)
    ensures forall k :: 0 <= k < |adds| + 1 ==> IsTargetAddition(exprs[k], lex, cfg, (adds + [added])[k])
  {
    forall k | 0 <= k < |adds| + 1
      ensures IsTargetAddition(exprs[k], lex, cfg, (adds + [added])[k])
    {
      if k < |adds| {
        assert (adds + [added])[k] == adds[k];
      } else {
        assert (adds + [added])[k] == added;
      }
    }
  }

  /** The source's loops over targets: the additions of each expression
      appended in turn to `acc`, target after target; `adds` records what
      each target appended. */
  method AppendTargets(acc: seq<string>, exprs: seq<string>, lex: string -> string, cfg: Config)
    returns (r: seq<string>, ghost adds: seq<seq<string>>)
    ensures |adds| == |exprs|
    ensures forall k :: 0 <= k < |exprs| ==> IsTargetAddition(exprs[k], lex, cfg, adds[k])
    ensures r == acc + Concat(adds)
    ensures |acc| <= |r| && r[..|acc|] == acc
    ensures Elems(r[|acc|..]) == Contribution(exprs, lex, cfg)
  {
    var grown: seq<string> := [];
    adds := [];
    var i := 0;
    while i < |exprs|
      invariant i <= |exprs|
      invariant |adds| == i
      invariant forall k :: 0 <= k < i ==> IsTargetAddition(exprs[k], lex, cfg, adds[k])
      invariant grown == Concat(adds)
      invariant Elems(grown) == Contribution(exprs[..i], lex, cfg)
    {
      UnionMapSnoc(exprs, i, TargetFn(lex, cfg));
      var added := TargetAdditions(exprs[i], lex, cfg);
      AdditionsSnoc(exprs, lex, cfg, adds, added);
      ElemsAppend(grown, added);
      ConcatSnoc(adds, added);
      grown := grown + added;
      adds := adds + [added];
      i := i + 1;
    }
    assert exprs[..|exprs|] == exprs;
    r := acc + grown;
    AppendSlices(acc, grown);
  }

  // ---------------------------------------------------------------------
  // The alternation pattern

  /** The pattern loop of `_to_regex` (both versions): the first metric
      as it is, every later one behind a `|`. */
  method RegexPattern(metrics: seq<string>) returns (pattern: string)
    ensures pattern == Join(metrics, "|")
  {
    pattern := "";
    var i := 0;
    while i < |metrics|
      invariant i <= |metrics|
      invariant pattern == Join(metrics[..i], "|")
    {
      assert metrics[..i + 1] == metrics[..i] + [metrics[i]];
      if i == 0 {
        pattern := metrics[i];
      } else {
        JoinSnoc(metrics[..i], metrics[i], "|");
        pattern := pattern + "|" + metrics[i];
      }
      i := i + 1;
    }
    assert metrics[..|metrics|] == metrics;
  }

  /** The alternation gives the metric list back when no metric holds `|`,
      starts with the first metric and ends with the last; an empty list
      gives the empty pattern. */
  lemma RegexRoundTrip(metrics: seq<string>)
    requires forall k :: 0 <= k < |metrics| ==> '|' !in metrics[k]
    ensures |metrics| == 0 ==> Join(metrics, "|") == ""
    ensures |metrics| > 0 ==> Split(Join(metrics, "|"), "|") == metrics
    ensures |metrics| > 0 ==> metrics[0] <= Join(metrics, "|")
    ensures |metrics| > 0 ==> var p := Join(metrics, "|"); var last := metrics[|metrics| - 1];
      |last| <= |p| && p[|p| - |last|..] == last
  {
    if |metrics| > 0 {
      SplitJoin(metrics, '|');
      JoinEnds(metrics, "|");
    }
  }
}
