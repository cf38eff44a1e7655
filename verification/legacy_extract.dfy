/** The first version of the extractor, a script: the same name extraction
    with an empty function list and one more denylisted name, a variable
    loop that skips what it cannot parse, and a panel walk that gives up at
    the first missing key. */
module LegacyExtract {
  import opened Wrappers
  import opened Seqs
  import opened Text
  import opened Identifiers
  import opened Dashboard
  import opened Extraction
  import opened Variables
  import DashboardExtractor

  /** The configuration of this version: no candidate is dropped as a
      function name, and `le` and `p8s_logzio_name` are never metrics. */
  const LegacyConfig: Config := Config([], GroupingStatements, ["le", "p8s_logzio_name"])

  /** With no function list, every non-empty fragment of the lexer's output
      that does not sit at a grouping offset is a metric, function names
      such as `sum` included. */
  lemma LegacyMetricNames(expr: string, html: string, x: string)
    ensures x in FindMetricsNames(expr, html, LegacyConfig).metrics <==>
      x in Fragments(html) && x != "" && !IsGroupingKey(expr, x, GroupingStatements)
  {
  }

  /** A reported metric is appended unless it is `le`, `p8s_logzio_name`,
      or text inside one of the rules. */
  lemma LegacyKeep(m: string, rules: seq<string>)
    ensures Keep(m, rules, LegacyConfig.denylist) <==>
      m != "le" && m != "p8s_logzio_name" && !exists k :: 0 <= k < |rules| && IsSubstring(m, rules[k])
  {
  }

  // ---------------------------------------------------------------------
  // Template variables

  /** The metric of a query whose first identifier is `label_values`: the
      second identifier; `None` where the subscript fails or the first
      identifier is another one. */
  function FirstLabelValues(q: string): (r: Option<string>)
    ensures r.Some? <==> |FindAll(q)| >= 2 && FindAll(q)[0] == "label_values"
    ensures r.Some? ==> IsIdentifier(r.value)
  {
    var names := FindAll(q);
    if |names| >= 2 && names[0] == "label_values" then Some(names[1]) else None
  }

  /** Where this version finds a metric, the current one finds the same. */
  lemma FirstLabelValuesAgrees(q: string)
    requires FirstLabelValues(q).Some?
    ensures DashboardExtractor.LabelValuesMetric(q) == FirstLabelValues(q)
  {
    assert DashboardExtractor.FirstLabelValuesAt(FindAll(q), 0);
  }

  /** `_get_varibles`: a metric per query variable that names one; a query
      it cannot parse is skipped; a variable without `type`, or a query
      variable without `query`, raises. Unless some variable raises, the
      result is the metric of every variable that names one, in order. */
  function GetVariables(vars: seq<Variable>): (r: Outcome<seq<string>>)
    ensures var n := FirstIndex(vars, Raises);
      && (r.KeyError? <==> n < |vars|)
      && (r.KeyError? ==> r.key == RaisedKey(vars[n]))
      && (r.Ok? ==> r.value == Picks(vars, FirstLabelValues))
    ensures r.Ok? ==> |r.value| <= |vars|
    ensures r.Ok? ==> forall k :: 0 <= k < |r.value| ==> YieldedBy(vars, FirstLabelValues, r.value[k])
    decreases |vars|
  {
    if |vars| == 0 then Ok([])
    else
      var v := vars[0];
      var rest := GetVariables(vars[1..]);
      if v.kind.None? then KeyError("type")
      else if v.query.None? && v.kind.value == "query" then KeyError("query")
      else
        FirstIndexTail(vars, Raises);
        if rest.KeyError? then rest
        else
          forall x | x in rest.value { YieldedByTail(vars, FirstLabelValues, x); }
          if v.kind.value != "query" then rest
          else match FirstLabelValues(v.query.value)
            case None => rest
            case Some(m) =>
              assert Yields(vars[0], FirstLabelValues, m);
              Ok([m] + rest.value)
  }

  /** The first `KeyError` of two runs in a row, or both results joined. */
  function Combine(a: Outcome<seq<string>>, b: Outcome<seq<string>>): Outcome<seq<string>>
  {
    if a.KeyError? then a else if b.KeyError? then b else Ok(a.value + b.value)
  }

  /** The variable loop over a concatenation is the two loops in a row. */
  lemma {:induction false} GetVariablesAppend(a: seq<Variable>, b: seq<Variable>)
    ensures GetVariables(a + b) == Combine(GetVariables(a), GetVariables(b))
    decreases |a|
  {
    if |a| == 0 {
      assert a + b == b;
      if GetVariables(b).Ok? {
        assert [] + GetVariables(b).value == GetVariables(b).value;
      }
    } else {
      var ab := a + b;
      assert ab[0] == a[0] && ab[1..] == a[1..] + b;
      GetVariablesAppend(a[1..], b);
      var v := a[0];
      var ra := GetVariables(a[1..]);
      var rb := GetVariables(b);
      if v.kind.None? || (v.kind.value == "query" && v.query.None?) || ra.KeyError? || rb.KeyError? {
      } else if v.kind.value == "query" && FirstLabelValues(v.query.value).Some? {
        var m := FirstLabelValues(v.query.value).value;
        AppendAssoc([m], ra.value, rb.value);
      }
    }
  }

  /** Unlike the current version, an unparsable query does not end the
      loop: it is skipped. */
  lemma UnparsableSkipped(a: seq<Variable>, v: Variable, b: seq<Variable>)
    requires v.kind == Some("query") && v.query.Some? && FirstLabelValues(v.query.value).None?
    ensures GetVariables(a + [v] + b) == GetVariables(a + b)
  {
    GetVariablesAppend(a + [v], b);
    GetVariablesAppend(a, [v]);
    GetVariablesAppend(a, b);
    assert [v][1..] == [];
    assert GetVariables([v]) == Ok([]);
    var ga := GetVariables(a);
    if ga.Ok? {
      assert ga.value + [] == ga.value;
    }
  }

  // ---------------------------------------------------------------------
  // The panel walk

  /** The target expressions a walk reached, and whether it got to the end
      without a `KeyError`. */
  datatype Walk = Walk(exprs: seq<string>, complete: bool)

  /** Two walks in a row: the second runs only if the first completed. */
  function Then(a: Walk, b: Walk): Walk
  {
    if a.complete then Walk(a.exprs + b.exprs, b.complete) else a
  }

  /** `w` reached a prefix of `full`, and all of it if it completed. */
  predicate Approx(w: Walk, full: seq<string>)
  {
    w.exprs <= full && (w.complete ==> w.exprs == full)
  }

  /** Walks in a row approximate the concatenation of what they approximate. */
  lemma ThenApprox(a: Walk, b: Walk, fa: seq<string>, fb: seq<string>)
    requires Approx(a, fa) && Approx(b, fb)
    ensures Approx(Then(a, b), fa + fb)
  {
    if a.complete {
      assert (fa + fb)[..|fa|] == fa;
      assert (a.exprs + b.exprs)[..|fa|] == fa;
      assert (fa + fb)[|fa|..] == fb;
      assert forall k :: |fa| <= k < |a.exprs + b.exprs| ==> (a.exprs + b.exprs)[k] == b.exprs[k - |fa|];
    } else {
      assert (fa + fb)[..|fa|] == fa;
    }
  }

  /** Every target of the list has an `expr`. */
  predicate AllExprs(ts: seq<Target>)
  {
    forall k :: 0 <= k < |ts| ==> ts[k].expr.Some?
  }

  /** A target whose `expr` lookup raises. */
  predicate MissingExpr(t: Target)
  {
    t.expr.None?
  }

  /** `_add_metrics`' loop over `panel['targets']`: exactly the expressions
      of the targets before the first one without `expr`, whose lookup
      raises. */
  function TargetsWalk(ts: seq<Target>): (w: Walk)
    ensures w.complete <==> AllExprs(ts)
    ensures w.exprs == PresentExprs(ts[..FirstIndex(ts, MissingExpr)])
    ensures Approx(w, PresentExprs(ts))
    decreases |ts|
  {
    if |ts| == 0 then Walk([], true)
    else
      assert forall k :: 1 <= k < |ts| ==> ts[1..][k - 1] == ts[k];
      match ts[0].expr
      case None =>
        assert ts[..0] == [];
        Walk([], false)
      case Some(e) =>
        var rest := TargetsWalk(ts[1..]);
        FirstIndexTail(ts, MissingExpr);
        var reached := ts[..FirstIndex(ts, MissingExpr)];
        assert reached[0] == ts[0];
        assert PresentExprs(reached) == [e] + PresentExprs(reached[1..]);
        ThenApprox(Walk([e], true), rest, [e], PresentExprs(ts[1..]));
        Then(Walk([e], true), rest)
  }

  /** A panel `_add_metrics` can finish: it has `targets`, each with an
      `expr`. */
  predicate Complete(p: Panel)
  {
    p.targets.Some? && AllExprs(p.targets.value)
  }

  /** `_add_metrics` on one panel: a missing `targets` raises at once. */
  function PanelWalk(p: Panel): (w: Walk)
    ensures w.complete <==> Complete(p)
    ensures p.targets.None? ==> w.exprs == []
    ensures p.targets.Some? ==>
      w.exprs == PresentExprs(p.targets.value[..FirstIndex(p.targets.value, MissingExpr)])
    ensures Approx(w, PanelExprs(p))
  {
    match p.targets
    case None => Walk([], false)
    case Some(ts) => TargetsWalk(ts)
  }

  /** The expressions of panels, from the front. */
  lemma {:induction false} PanelsExprsAppend(a: seq<Panel>, b: seq<Panel>)
    ensures PanelsExprs(a + b) == PanelsExprs(a) + PanelsExprs(b)
    decreases |b|
  {
    if |b| == 0 {
      assert a + b == a;
    } else {
      var n := |b| - 1;
      assert (a + b)[..|a + b| - 1] == a + b[..n];
      assert (a + b)[|a + b| - 1] == b[n];
      PanelsExprsAppend(a, b[..n]);
      AppendAssoc(PanelsExprs(a), PanelsExprs(b[..n]), PanelExprs(b[n]));
    }
  }

  /** `PanelsExprs` of a list with a head. */
  lemma PanelsExprsCons(p: Panel, ps: seq<Panel>)
    ensures PanelsExprs([p] + ps) == PanelExprs(p) + PanelsExprs(ps)
  {
    var single := [p];
    PanelsExprsAppend(single, ps);
    assert single[..|single| - 1] == [] && single[|single| - 1] == p;
    assert PanelsExprs(single) == PanelsExprs([]) + PanelExprs(p);
    assert [] + PanelExprs(p) == PanelExprs(p);
  }

  /** `PanelsExprs` of a non-empty list. */
  lemma PanelsExprsHead(ps: seq<Panel>)
    requires |ps| > 0
    ensures PanelsExprs(ps) == PanelExprs(ps[0]) + PanelsExprs(ps[1..])
  {
    assert ps == [ps[0]] + ps[1..];
    PanelsExprsCons(ps[0], ps[1..]);
  }

  /** A panel `_add_metrics` cannot finish. */
  predicate Incomplete(p: Panel)
  {
    !Complete(p)
  }

  /** What `_add_metrics` reaches over panels `hs` in turn when the first
      missing key ends it: all expressions of the panels before the first
      incomplete one, then what that panel's own walk reaches. */
  function Reached(hs: seq<Panel>): seq<string>
  {
    var m := FirstIndex(hs, Incomplete);
    PanelsExprs(hs[..m]) + (if m < |hs| then PanelWalk(hs[m]).exprs else [])
  }

  /** The loop over a row's `panels`: it reaches exactly `Reached(cs)`. */
  function ChildrenWalk(cs: seq<Panel>): (w: Walk)
    ensures w.complete <==> forall k :: 0 <= k < |cs| ==> Complete(cs[k])
    ensures w.exprs == Reached(cs)
    ensures Approx(w, PanelsExprs(cs))
    decreases |cs|
  {
    if |cs| == 0 then
      assert cs[..0] == [];
      Walk([], true)
    else
      var rest := ChildrenWalk(cs[1..]);
      ChildrenWalkHead(cs, rest);
      Then(PanelWalk(cs[0]), rest)
  }

  /** One step of `ChildrenWalk`: the first child's walk, then the rest's. */
  lemma ChildrenWalkHead(cs: seq<Panel>, rest: Walk)
    requires |cs| > 0
    requires rest.complete <==> forall k :: 0 <= k < |cs[1..]| ==> Complete(cs[1..][k])
    requires rest.exprs == Reached(cs[1..])
    requires Approx(rest, PanelsExprs(cs[1..]))
    ensures var w := Then(PanelWalk(cs[0]), rest);
      && (w.complete <==> forall k :: 0 <= k < |cs| ==> Complete(cs[k]))
      && w.exprs == Reached(cs)
      && Approx(w, PanelsExprs(cs))
  {
    var head := PanelWalk(cs[0]);
    var w := Then(head, rest);
    AllCompleteHead(cs);
    ReachedHead(cs);
    assert w.exprs == Reached(cs);
    PanelsExprsHead(cs);
    ThenApprox(head, rest, PanelExprs(cs[0]), PanelsExprs(cs[1..]));
  }

  /** All of a non-empty list is complete when its head and its tail are. */
  lemma AllCompleteHead(cs: seq<Panel>)
    requires |cs| > 0
    ensures (forall k :: 0 <= k < |cs| ==> Complete(cs[k])) <==>
      Complete(cs[0]) && forall k :: 0 <= k < |cs[1..]| ==> Complete(cs[1..][k])
  {
    assert forall k :: 1 <= k < |cs| ==> cs[1..][k - 1] == cs[k];
  }

  /** `Reached` of a non-empty list: the first panel's walk, and the rest's
      when that walk completes. */
  lemma ReachedHead(cs: seq<Panel>)
    requires |cs| > 0
    ensures Reached(cs) == if Complete(cs[0]) then PanelWalk(cs[0]).exprs + Reached(cs[1..]) else PanelWalk(cs[0]).exprs
  {
    if Complete(cs[0]) {
      FirstIndexTail(cs, Incomplete);
      var m := FirstIndex(cs, Incomplete);
      var m' := FirstIndex(cs[1..], Incomplete);
      PanelsExprsHead(cs[..m]);
      assert cs[..m][0] == cs[0];
      var tailPart := if m' < |cs[1..]| then PanelWalk(cs[1..][m']).exprs else [];
      assert (if m < |cs| then PanelWalk(cs[m]).exprs else []) == tailPart;
      AppendAssoc(PanelWalk(cs[0]).exprs, PanelsExprs(cs[1..][..m']), tailPart);
    } else {
      assert cs[..0] == [];
    }
  }

  /** A top-level panel whose walk raises. */
  predicate IllFormed(q: Panel)
  {
    !WellFormed(q)
  }

  /** A top-level panel the walk gets through: it has a `type`; a row has
      a `panels` list of complete panels; any other panel but text is
      complete. */
  predicate WellFormed(q: Panel)
  {
    && q.kind.Some?
    && (q.kind == Some("row") ==> q.children.Some? && forall k :: 0 <= k < |q.children.value| ==> Complete(q.children.value[k]))
    && (q.kind != Some("row") && q.kind != Some("text") ==> Complete(q))
  }

  /** The walk of one typed top-level panel: a row walks its `panels`
      (raising without them), text is skipped, any other panel goes to
      `_add_metrics`. */
  function HeadWalk(p: Panel): (w: Walk)
    requires p.kind.Some?
    ensures w.complete <==> WellFormed(p)
    ensures w.exprs == Reached(DashboardExtractor.Handed(p))
    ensures Approx(w, PanelsExprs(DashboardExtractor.Handed(p)))
  {
    if p.kind.value == "row" then
      if p.children.None? then Walk([], false) else ChildrenWalk(p.children.value)
    else if p.kind.value == "text" then Walk([], true)
    else
      PanelsExprsCons(p, []);
      assert [p] + [] == [p];
      ReachedHead([p]);
      assert [p][1..] == [] && [][..0] == [p][1..];
      PanelWalk(p)
  }

  /** What the script's panel loop reaches over `ps` when the first missing
      key ends it: the expressions of the panels handed over before the
      first ill-formed panel, then what that panel's walk reaches, if it
      has a `type`. */
  function PanelsReached(ps: seq<Panel>): seq<string>
  {
    var n := FirstIndex(ps, IllFormed);
    PanelsExprs(DashboardExtractor.VisitedPanels(ps[..n]))
      + (if n < |ps| && ps[n].kind.Some? then Reached(DashboardExtractor.Handed(ps[n])) else [])
  }

  /** The walk of the script's panel loop over `dashboard['panels']`: every
      lookup raises when its key is missing, and the one `except KeyError`
      around the loop ends the walk there. It reaches exactly
      `PanelsReached(ps)`: a prefix of what the current version's walk
      reaches, and all of it when no key is missing. */
  function PanelsWalk(ps: seq<Panel>): (w: Walk)
    ensures w.complete <==> forall k :: 0 <= k < |ps| ==> WellFormed(ps[k])
    ensures w.exprs == PanelsReached(ps)
    ensures Approx(w, PanelsExprs(DashboardExtractor.VisitedPanels(ps)))
    decreases |ps|
  {
    if |ps| == 0 then
      assert ps[..0] == [];
      Walk([], true)
    else if ps[0].kind.None? then
      assert ps[..0] == [];
      Walk([], false)
    else
      var rest := PanelsWalk(ps[1..]);
      PanelsWalkStep(ps, rest);
      Then(HeadWalk(ps[0]), rest)
  }

  /** One step of `PanelsWalk` over a list whose first panel has a `type`:
      that panel's walk, then the rest's. */
  lemma PanelsWalkStep(ps: seq<Panel>, rest: Walk)
    requires |ps| > 0 && ps[0].kind.Some?
    requires rest.complete <==> forall k :: 0 <= k < |ps[1..]| ==> WellFormed(ps[1..][k])
    requires rest.exprs == PanelsReached(ps[1..])
    requires Approx(rest, PanelsExprs(DashboardExtractor.VisitedPanels(ps[1..])))
    ensures var w := Then(HeadWalk(ps[0]), rest);
      && (w.complete <==> forall k :: 0 <= k < |ps| ==> WellFormed(ps[k]))
      && w.exprs == PanelsReached(ps)
      && Approx(w, PanelsExprs(DashboardExtractor.VisitedPanels(ps)))
  {
    var p := ps[0];
    AllWellFormedHead(ps);
    PanelsWalkHead(ps);
    var handed := DashboardExtractor.Handed(p);
    var visited := DashboardExtractor.VisitedPanels(ps[1..]);
    PanelsExprsAppend(handed, visited);
    ThenApprox(HeadWalk(p), rest, PanelsExprs(handed), PanelsExprs(visited));
  }

  /** All of a non-empty list is well formed when its head and its tail are. */
  lemma AllWellFormedHead(ps: seq<Panel>)
    requires |ps| > 0
    ensures (forall k :: 0 <= k < |ps| ==> WellFormed(ps[k])) <==>
      WellFormed(ps[0]) && forall k :: 0 <= k < |ps[1..]| ==> WellFormed(ps[1..][k])
  {
    assert forall k :: 1 <= k < |ps| ==> ps[1..][k - 1] == ps[k];
  }

  /** The reach of the panel loop over a list whose first panel has a
      `type`: that panel's walk, then the rest's when it is well formed. */
  lemma PanelsWalkHead(ps: seq<Panel>)
    requires |ps| > 0 && ps[0].kind.Some?
    ensures PanelsReached(ps) ==
      if WellFormed(ps[0]) then HeadWalk(ps[0]).exprs + PanelsReached(ps[1..]) else HeadWalk(ps[0]).exprs
  {
    var p := ps[0];
    if WellFormed(p) {
      FirstIndexTail(ps, IllFormed);
      var n := FirstIndex(ps, IllFormed);
      var tail := ps[1..];
      var n' := FirstIndex(tail, IllFormed);
      var prefix := ps[..n];
      assert prefix[0] == p;
      var handed := DashboardExtractor.Handed(p);
      var visited := DashboardExtractor.VisitedPanels(tail[..n']);
      assert DashboardExtractor.VisitedPanels(prefix) == handed + visited;
      PanelsExprsAppend(handed, visited);
      assert PanelsExprs(handed) == HeadWalk(p).exprs;
      var tailPart := if n' < |tail| && tail[n'].kind.Some? then Reached(DashboardExtractor.Handed(tail[n'])) else [];
      assert (if n < |ps| && ps[n].kind.Some? then Reached(DashboardExtractor.Handed(ps[n])) else []) == tailPart;
      AppendAssoc(PanelsExprs(handed), PanelsExprs(visited), tailPart);
    } else {
      assert ps[..0] == [];
    }
  }

  /** Where the two versions part: a target without `expr` ends this
      version's walk, while the current version skips it and goes on. */
  lemma MissingExprStopsWalk(kind: string, e: string)
    requires kind != "row" && kind != "text"
    ensures var p := Panel(Some(kind), Some([Target(None), Target(Some(e))]), None);
      && PanelsWalk([p]) == Walk([], false)
      && PanelsExprs(DashboardExtractor.VisitedPanels([p])) == [e]
  {
    var p := Panel(Some(kind), Some([Target(None), Target(Some(e))]), None);
    assert [p][1..] == [];
    assert DashboardExtractor.VisitedPanels([p]) == [p];
    assert [p][..0] == [];
    var ts := p.targets.value;
    assert ts[1..] == [Target(Some(e))];
    assert ts[1..][1..] == [];
  }

  // ---------------------------------------------------------------------
  // The script

  /** `_get_varibles(dashboard['templating']['list'])`: both lookups raise,
      and so does the first variable that `_get_varibles` cannot read. */
  function LegacyVariables(d: Dashboard): (r: Outcome<seq<string>>)
    ensures d.templating.None? ==> r == KeyError("templating")
    ensures d.templating.Some? && d.templating.value.list.None? ==> r == KeyError("list")
    ensures d.templating.Some? && d.templating.value.list.Some? ==>
      var vars := d.templating.value.list.value;
      var n := FirstIndex(vars, Raises);
      && (r.KeyError? <==> n < |vars|)
      && (r.KeyError? ==> r.key == RaisedKey(vars[n]))
      && (r.Ok? ==> r.value == Picks(vars, FirstLabelValues))
  {
    match d.templating
    case None => KeyError("templating")
    case Some(t) =>
      match t.list
      case None => KeyError("list")
      case Some(vars) => GetVariables(vars)
  }

  /** The target expressions the script's walk reaches in a dashboard; a
      missing `panels` key ends it before it starts. */
  function LegacyExprs(d: Dashboard): seq<string>
  {
    match d.panels
    case None => []
    case Some(ps) => PanelsWalk(ps).exprs
  }

  /** Every name a dashboard's entry ends up with. */
  function LegacyMetricsOf(d: Dashboard, lex: string -> string): set<string>
  {
    match LegacyVariables(d)
    case Ok(vs) => Elems(vs) + Contribution(LegacyExprs(d), lex, LegacyConfig)
    case KeyError(_) => {}
  }

  /** `LegacyMetricsOf` as a function of the dashboard alone. */
  function LegacyMetricsFn(lex: string -> string): Dashboard -> set<string>
  {
    d => LegacyMetricsOf(d, lex)
  }


  /** `entry` is dashboard `d`'s entry: its name, and the variable metrics
      followed, target after target of the walk, by each target's additions,
      with repeats dropped in first-occurrence order. */
  ghost predicate EntryOf(d: Dashboard, lex: string -> string, entry: Entry)
    requires LegacyVariables(d).Ok?
  {
    var vs := LegacyVariables(d).value;
    var exprs := LegacyExprs(d);
    && entry.name == d.title
    && entry.metrics.Some?
    && exists adds: seq<seq<string>> ::
         && |adds| == |exprs|
         && (forall k :: 0 <= k < |exprs| ==> IsTargetAddition(exprs[k], lex, LegacyConfig, adds[k]))
         && entry.metrics.value == Dedupe(vs + Concat(adds))
  }

  /** One pass of the script's dashboard loop followed by the
      `dict.fromkeys` of its entry. */
  method BuildEntry(d: Dashboard, lex: string -> string) returns (entry: Entry)
    requires LegacyVariables(d).Ok?
    ensures EntryOf(d, lex, entry)
    ensures Elems(entry.metrics.value) == LegacyMetricsOf(d, lex)
  {
    var vs := LegacyVariables(d).value;
    var raw;
    ghost var adds;
    raw, adds := AppendTargets(vs, LegacyExprs(d), lex, LegacyConfig);
    var ms := Dedupe(raw);
    entry := Entry(d.title, Some(ms));
    assert EntryOf(d, lex, entry);
    assert raw == raw[..|vs|] + raw[|vs|..];
    ElemsAppend(raw[..|vs|], raw[|vs|..]);
  }

  /** What the script writes: the dataset with the `all metrics` entry
      appended, the distinct metrics in the order the set gave them, and
      the alternation pattern it prints. */
  datatype Output = Output(dataset: seq<Entry>, all: seq<string>, pattern: string)

  /** `dataset` holds the entries of the first `n` dashboards, in order. */
  ghost predicate Listed(dashboards: seq<Dashboard>, n: nat, lex: string -> string, dataset: seq<Entry>)
    requires n <= |dashboards|
  {
    && |dataset| == n
    && forall j :: 0 <= j < n ==>
         LegacyVariables(dashboards[j]).Ok? && EntryOf(dashboards[j], lex, dataset[j])
  }

  /** The dashboards of a listed dataset all had their variables read. */
  lemma ListedOk(dashboards: seq<Dashboard>, n: nat, lex: string -> string, dataset: seq<Entry>)
    requires n <= |dashboards| && Listed(dashboards, n, lex, dataset)
    ensures forall j :: 0 <= j < n ==> LegacyVariables(dashboards[j]).Ok?
  {
  }

  /** A listed dataset extended by the next dashboard's entry. */
  lemma ListedSnoc(dashboards: seq<Dashboard>, i: nat, lex: string -> string, dataset: seq<Entry>, entry: Entry)
    requires i < |dashboards| && LegacyVariables(dashboards[i]).Ok?
    requires Listed(dashboards, i, lex, dataset)
    requires EntryOf(dashboards[i], lex, entry)
    ensures Listed(dashboards, i + 1, lex, dataset + [entry])
  {
    var next := dataset + [entry];
    forall j | 0 <= j < i + 1
      ensures LegacyVariables(dashboards[j]).Ok? && EntryOf(dashboards[j], lex, next[j])
    {
      if j < i {
        assert next[j] == dataset[j];
      } else {
        assert next[j] == entry;
      }
    }
  }

  /** One pass of the script's dashboard loop: the next dashboard's entry
      is listed, and its metrics gathered after those before it. */
  method ListNext(dashboards: seq<Dashboard>, i: nat, lex: string -> string, dataset: seq<Entry>, gathered: seq<string>)
    returns (listed: seq<Entry>, more: seq<string>)
    requires i < |dashboards| && LegacyVariables(dashboards[i]).Ok?
    requires Listed(dashboards, i, lex, dataset)
    requires Elems(gathered) == UnionMap(dashboards[..i], LegacyMetricsFn(lex))
    ensures Listed(dashboards, i + 1, lex, listed)
    ensures Elems(more) == UnionMap(dashboards[..i + 1], LegacyMetricsFn(lex))
  {
    var entry := BuildEntry(dashboards[i], lex);
    var ms := entry.metrics.value;
    UnionMapSnoc(dashboards, i, LegacyMetricsFn(lex));
    ElemsAppend(gathered, ms);
    ListedSnoc(dashboards, i, lex, dataset, entry);
    listed := dataset + [entry];
    more := gathered + ms;
  }

  /** The script's loop over dashboards: an entry per dashboard, and all
      their metric lists one after the other. */
  method Entries(dashboards: seq<Dashboard>, lex: string -> string) returns (r: Outcome<seq<Entry>>, gathered: seq<string>)
    ensures r.Ok? <==> forall j :: 0 <= j < |dashboards| ==> LegacyVariables(dashboards[j]).Ok?
    ensures r.KeyError? ==> exists j :: FirstFailure(dashboards, LegacyVariables, j, r.key)
    ensures r.Ok? ==> Listed(dashboards, |dashboards|, lex, r.value)
    ensures r.Ok? ==> Elems(gathered) == UnionMap(dashboards, LegacyMetricsFn(lex))
  {
    var dataset: seq<Entry> := [];
    gathered := [];
    var i := 0;
    while i < |dashboards|
      invariant i <= |dashboards|
      invariant Listed(dashboards, i, lex, dataset)
      invariant Elems(gathered) == UnionMap(dashboards[..i], LegacyMetricsFn(lex))
    {
      var d := dashboards[i];
      var vs := LegacyVariables(d);
      if vs.KeyError? {
        assert FirstFailure(dashboards, LegacyVariables, i, vs.key) by {
          ListedOk(dashboards, i, lex, dataset);
        }
        return KeyError(vs.key), gathered;
      }
      dataset, gathered := ListNext(dashboards, i, lex, dataset, gathered);
      i := i + 1;
    }
    assert dashboards[..|dashboards|] == dashboards;
    r := Ok(dataset);
  }

  /** The script after the dashboards are loaded. */
  method Run(dashboards: seq<Dashboard>, lex: string -> string) returns (r: Outcome<Output>)
    ensures r.Ok? <==> forall j :: 0 <= j < |dashboards| ==> LegacyVariables(dashboards[j]).Ok?
    ensures r.KeyError? ==> exists j :: FirstFailure(dashboards, LegacyVariables, j, r.key)
    ensures r.Ok? ==> |r.value.dataset| == |dashboards| + 1
    ensures r.Ok? ==> Listed(dashboards, |dashboards|, lex, r.value.dataset[..|dashboards|])
    ensures r.Ok? ==> r.value.dataset[|dashboards|] == Entry("all metrics", Some(r.value.all))
    ensures r.Ok? ==> NoDup(r.value.all)
    ensures r.Ok? ==> forall x :: x in r.value.all <==> exists j :: 0 <= j < |dashboards| && x in LegacyMetricsOf(dashboards[j], lex)
    ensures r.Ok? ==> r.value.pattern == Join(r.value.all, "|")
  {
    var entries, gathered := Entries(dashboards, lex);
    if entries.KeyError? {
      return KeyError(entries.key);
    }
    var dataset := entries.value;
    var all := Enumerate(Elems(gathered));
    forall x
      ensures x in all <==> exists j :: 0 <= j < |dashboards| && x in LegacyMetricsOf(dashboards[j], lex)
    {
      UnionMapMembers(dashboards, LegacyMetricsFn(lex), x);
    }
    var output := dataset + [Entry("all metrics", Some(all))];
    assert output[..|dashboards|] == dataset;
    var pattern := RegexPattern(all);
    r := Ok(Output(output, all, pattern));
  }
}
