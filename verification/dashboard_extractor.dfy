/** The current extractor: template variables, the panel walk, the per
    dashboard totals and the regular expressions built from them. */
module DashboardExtractor {
  import opened Wrappers
  import opened Seqs
  import opened Text
  import opened Identifiers
  import opened Sorting
  import opened Dashboard
  import opened Extraction
  import opened Variables

  /** Candidates dropped as function names (the highlighter marks them
      like names). */
  const PromqlFunctions: seq<string> := ["sum", "sumwithout", "sumby", "maxwithout", "maxby", "countwithout", "countby"]

  /** The configuration of this version: only `le` is never a metric. */
  const MetricsConfig: Config := Config(PromqlFunctions, GroupingStatements, ["le"])

  /** A non-empty fragment is a metric unless it is one of the function
      names or sits at a grouping offset. */
  lemma MetricNames(expr: string, html: string, x: string)
    ensures x in FindMetricsNames(expr, html, MetricsConfig).metrics <==>
      x in Fragments(html) && x != "" && x !in PromqlFunctions && !IsGroupingKey(expr, x, GroupingStatements)
  {
  }

  /** A reported metric is appended unless it is `le` or text inside one of
      the rules. */
  lemma MetricsKeep(m: string, rules: seq<string>)
    ensures Keep(m, rules, MetricsConfig.denylist) <==>
      m != "le" && !exists k :: 0 <= k < |rules| && IsSubstring(m, rules[k])
  {
  }

  // ---------------------------------------------------------------------
  // Template variables

  /** `names[i]` is the first `label_values` among `names`. */
  predicate FirstLabelValuesAt(names: seq<string>, i: int)
  {
    0 <= i < |names| && names[i] == "label_values" && forall j :: 0 <= j < i ==> names[j] != "label_values"
  }

  /** The metric of a `label_values(...)` query: the identifier after the
      first `label_values`; `None` where `index` or the subscript fails. */
  function LabelValuesMetric(q: string): (r: Option<string>)
    ensures r.Some? <==> exists i :: FirstLabelValuesAt(FindAll(q), i) && i + 1 < |FindAll(q)|
    ensures forall i :: FirstLabelValuesAt(FindAll(q), i) && i + 1 < |FindAll(q)| ==> r == Some(FindAll(q)[i + 1])
    ensures r.Some? ==> IsIdentifier(r.value)
  {
    var names := FindAll(q);
    if "label_values" !in names then None
    else
      var i := IndexOf(names, "label_values");
      assert FirstLabelValuesAt(names, i);
      forall j | FirstLabelValuesAt(names, j)
        ensures j == i
      {
      }
      if i + 1 < |names| then Some(names[i + 1]) else None
  }

  /** A query variable whose query cannot be parsed: the loop breaks there. */
  predicate Breaks(v: Variable)
  {
    v.kind == Some("query") && v.query.Some? && LabelValuesMetric(v.query.value).None?
  }

  /** The variable loop ends at `v`: it raises or it breaks. */
  predicate Halts(v: Variable)
  {
    Raises(v) || Breaks(v)
  }

  /** The loop of `_extract_metrics` over the variable list: a metric per
      query variable, stopping at the first query it cannot parse; a
      variable without `type`, or a query variable without `query`, raises.
      The result is decided by the first variable that halts the loop: the
      metrics of the variables before it, in order, unless it raises. */
  function VarMetrics(vars: seq<Variable>): (r: Outcome<seq<string>>)
    ensures var n := FirstIndex(vars, Halts);
      && (r.KeyError? <==> n < |vars| && Raises(vars[n]))
      && (r.KeyError? ==> r.key == RaisedKey(vars[n]))
      && (r.Ok? ==> r.value == Picks(vars[..n], LabelValuesMetric))
    ensures r.Ok? ==> |r.value| <= |vars|
    ensures r.Ok? ==> forall k :: 0 <= k < |r.value| ==> YieldedBy(vars, LabelValuesMetric, r.value[k])
    decreases |vars|
  {
    if |vars| == 0 then Ok([])
    else
      var v := vars[0];
      var rest := VarMetrics(vars[1..]);
      if v.kind.None? then KeyError("type")
      else if v.kind.value != "query" then
        FirstIndexTail(vars, Halts);
        if rest.KeyError? then rest
        else
          forall x | x in rest.value { YieldedByTail(vars, LabelValuesMetric, x); }
          rest
      else if v.query.None? then KeyError("query")
      else match LabelValuesMetric(v.query.value)
        case None => Ok([])
        case Some(m) =>
          FirstIndexTail(vars, Halts);
          if rest.KeyError? then rest
          else
            forall x | x in rest.value { YieldedByTail(vars, LabelValuesMetric, x); }
            assert Yields(vars[0], LabelValuesMetric, m);
            Ok([m] + rest.value)
  }

  /** A variable that is not a query variable changes nothing. */
  lemma {:induction false} NonQueryIgnored(a: seq<Variable>, v: Variable, b: seq<Variable>)
    requires v.kind.Some? && v.kind.value != "query"
    ensures VarMetrics(a + [v] + b) == VarMetrics(a + b)
    decreases |a|
  {
    if |a| == 0 {
      assert a + [v] + b == [v] + b;
      assert ([v] + b)[1..] == b;
      assert a + b == b;
    } else {
      assert (a + [v] + b)[1..] == a[1..] + [v] + b;
      assert (a + b)[1..] == a[1..] + b;
      NonQueryIgnored(a[1..], v, b);
    }
  }

  /** The loop breaks at an unparsable query: nothing after it counts, not
      even a variable that would raise. */
  lemma {:induction false} BreakDropsRest(a: seq<Variable>, v: Variable, b: seq<Variable>)
    requires Breaks(v)
    ensures VarMetrics(a + [v] + b) == VarMetrics(a)
    decreases |a|
  {
    if |a| == 0 {
      assert a + [v] + b == [v] + b;
    } else {
      assert (a + [v] + b)[1..] == a[1..] + [v] + b;
      BreakDropsRest(a[1..], v, b);
    }
  }

  /** `_extract_metrics`: no list (`None`) without templating; a `KeyError`
      when `list` is missing or a variable raises before the loop halts;
      otherwise the metrics of the query variables before the first one
      that halts the loop, in order. */
  function ExtractMetrics(d: Dashboard): (r: Outcome<Option<seq<string>>>)
    ensures d.templating.None? ==> r == Ok(None)
    ensures d.templating.Some? && d.templating.value.list.None? ==> r == KeyError("list")
    ensures d.templating.Some? && d.templating.value.list.Some? ==>
      var vars := d.templating.value.list.value;
      var n := FirstIndex(vars, Halts);
      && (r.KeyError? <==> n < |vars| && Raises(vars[n]))
      && (r.KeyError? ==> r.key == RaisedKey(vars[n]))
      && (r.Ok? ==> r.value == Some(Picks(vars[..n], LabelValuesMetric)))
    ensures r.Ok? && r.value.Some? ==>
      && d.templating.Some? && d.templating.value.list.Some?
      && forall k :: 0 <= k < |r.value.value| ==>
           YieldedBy(d.templating.value.list.value, LabelValuesMetric, r.value.value[k])
  {
    match d.templating
    case None => Ok(None)
    case Some(t) =>
      match t.list
      case None => KeyError("list")
      case Some(vars) =>
        match VarMetrics(vars)
        case KeyError(k) => KeyError(k)
        case Ok(ms) => Ok(Some(ms))
  }

  // ---------------------------------------------------------------------
  // The panel walk

  /** A top-level panel without a `type`: the walk's `KeyError` is raised
      and caught there, so the walk reaches the panels before the first
      one, `FirstIndex(panels, Untyped)`. */
  predicate Untyped(p: Panel)
  {
    p.kind.None?
  }

  /** Panel `q` of the top-level list hands `p` to `_add_metrics`: a row
      hands over its children, text hands over nothing, any other type
      hands over itself. */
  predicate HandsOver(q: Panel, p: Panel)
  {
    || (q.kind == Some("row") && q.children.Some? && p in q.children.value)
    || (q.kind.Some? && q.kind != Some("row") && q.kind != Some("text") && p == q)
  }

  /** The panels one typed top-level panel hands to `_add_metrics`. */
  function Handed(q: Panel): (r: seq<Panel>)
    requires q.kind.Some?
    ensures forall p :: p in r <==> HandsOver(q, p)
  {
    if q.kind.value == "row" then q.children.GetOr([])
    else if q.kind.value == "text" then []
    else [q]
  }

  /** The panels the walk hands to `_add_metrics`, in order. */
  function VisitedPanels(panels: seq<Panel>): (r: seq<Panel>)
    ensures forall p :: p in r ==> exists k :: 0 <= k < FirstIndex(panels, Untyped) && HandsOver(panels[k], p)
    decreases |panels|
  {
    if |panels| == 0 || panels[0].kind.None? then []
    else
      var tail := panels[1..];
      var rest := VisitedPanels(tail);
      FirstIndexTail(panels, Untyped);
      forall p | p in rest
        ensures exists k :: 0 <= k < FirstIndex(panels, Untyped) && HandsOver(panels[k], p)
      {
        var k :| 0 <= k < FirstIndex(tail, Untyped) && HandsOver(tail[k], p);
        assert tail[k] == panels[k + 1];
      }
      Handed(panels[0]) + rest
  }

  /** A panel is visited exactly when a panel before the first untyped one
      hands it over. */
  lemma {:induction false} VisitedMembers(panels: seq<Panel>, p: Panel)
    ensures p in VisitedPanels(panels) <==> exists k :: 0 <= k < FirstIndex(panels, Untyped) && HandsOver(panels[k], p)
    decreases |panels|
  {
    if |panels| > 0 && panels[0].kind.Some? {
      var tail := panels[1..];
      VisitedMembers(tail, p);
      FirstIndexTail(panels, Untyped);
      var n := FirstIndex(panels, Untyped);
      assert forall k :: 1 <= k < n ==> panels[k] == tail[k - 1];
      if exists k :: 0 <= k < n && HandsOver(panels[k], p) {
        var k :| 0 <= k < n && HandsOver(panels[k], p);
        if k > 0 {
          assert HandsOver(tail[k - 1], p);
        }
      }
      if p in VisitedPanels(tail) {
        var k :| 0 <= k < FirstIndex(tail, Untyped) && HandsOver(tail[k], p);
        assert HandsOver(panels[k + 1], p);
      }
    }
  }

  /** What `_add_metrics` does to the entry it is pointed at: when the panel
      has `targets` and the entry has a metric list, each target with an
      `expr` appends its rules and kept metrics; otherwise nothing changes. */
  method GrowEntry(panel: Panel, entry: Entry, lex: string -> string) returns (grown: Entry)
    ensures Grows(entry, grown, Contribution(PanelExprs(panel), lex, MetricsConfig))
    ensures panel.targets.None? || entry.metrics.None? ==> grown == entry
  {
    if panel.targets.Some? && entry.metrics.Some? {
      var ms;
      ghost var adds;
      ms, adds := AppendTargets(entry.metrics.value, PresentExprs(panel.targets.value), lex, MetricsConfig);
      grown := Entry(entry.name, Some(ms));
    } else {
      grown := entry;
      GrowsRefl(entry);
    }
  }

  /** `_add_metrics`: only the entry at `index` changes, and it grows by
      what the panel's targets contribute. */
  method AddMetrics(panel: Panel, dataset: seq<Entry>, index: nat, lex: string -> string) returns (r: seq<Entry>)
    requires index < |dataset|
    ensures |r| == |dataset|
    ensures forall j :: 0 <= j < |r| && j != index ==> r[j] == dataset[j]
    ensures Grows(dataset[index], r[index], Contribution(PanelExprs(panel), lex, MetricsConfig))
    ensures panel.targets.None? || dataset[index].metrics.None? ==> r == dataset
  {
    var grown := GrowEntry(panel, dataset[index], lex);
    r := dataset[index := grown];
  }

  /** Walking one more panel adds that panel's contribution. */
  lemma PanelsContributionSnoc(ps: seq<Panel>, i: nat, lex: string -> string, cfg: Config)
    requires i < |ps|
    ensures Contribution(PanelsExprs(ps[..i + 1]), lex, cfg) ==
      Contribution(PanelsExprs(ps[..i]), lex, cfg) + Contribution(PanelExprs(ps[i]), lex, cfg)
  {
    assert ps[..i + 1][..i] == ps[..i];
    ContributionAppend(PanelsExprs(ps[..i]), PanelExprs(ps[i]), lex, cfg);
  }

  /** The loop over a panel list: `_add_metrics` on every visited panel,
      each of which touches only the entry at `index`. */
  method WalkPanels(panels: seq<Panel>, dataset: seq<Entry>, index: nat, lex: string -> string) returns (r: seq<Entry>)
    requires index < |dataset|
    ensures |r| == |dataset|
    ensures forall j :: 0 <= j < |r| && j != index ==> r[j] == dataset[j]
    ensures Grows(dataset[index], r[index], Contribution(PanelsExprs(VisitedPanels(panels)), lex, MetricsConfig))
  {
    var visited := VisitedPanels(panels);
    var entry := dataset[index];
    GrowsRefl(entry);
    var i := 0;
    while i < |visited|
      invariant i <= |visited|
      invariant Grows(dataset[index], entry, Contribution(PanelsExprs(visited[..i]), lex, MetricsConfig))
    {
      var next := GrowEntry(visited[i], entry, lex);
      GrowsTrans(dataset[index], entry, next,
        Contribution(PanelsExprs(visited[..i]), lex, MetricsConfig), Contribution(PanelExprs(visited[i]), lex, MetricsConfig));
      PanelsContributionSnoc(visited, i, lex, MetricsConfig);
      entry := next;
      i := i + 1;
    }
    assert visited[..|visited|] == visited;
    r := dataset[index := entry];
  }

  /** The panel list `_add_panels_metrics` walks: `rows` when present and
      non-empty, otherwise `panels` (`None` when that key is missing, whose
      `KeyError` is caught). */
  function SelectPanels(d: Dashboard): (r: Option<seq<Panel>>)
    ensures d.rows.Some? && |d.rows.value| > 0 ==> r == d.rows
    ensures d.rows.None? || |d.rows.value| == 0 ==> r == d.panels
  {
    if d.rows.Some? && |d.rows.value| > 0 then d.rows else d.panels
  }

  /** The panel list a walk reads: `SelectPanels` in the API path, the
      `panels` key alone in `handle_dashboards`. */
  function PanelSource(d: Dashboard, rowsFirst: bool): Option<seq<Panel>>
  {
    if rowsFirst then SelectPanels(d) else d.panels
  }

  /** The target expressions a dashboard's walk reaches. */
  function DashboardExprs(d: Dashboard, rowsFirst: bool): seq<string>
  {
    match PanelSource(d, rowsFirst)
    case None => []
    case Some(ps) => PanelsExprs(VisitedPanels(ps))
  }

  /** `_add_panels_metrics` (`rowsFirst`) and the panel loop of
      `handle_dashboards` (not `rowsFirst`). */
  method AddPanelsMetrics(d: Dashboard, rowsFirst: bool, dataset: seq<Entry>, index: nat, lex: string -> string)
    returns (r: seq<Entry>)
    requires index < |dataset|
    ensures |r| == |dataset|
    ensures forall j :: 0 <= j < |r| && j != index ==> r[j] == dataset[j]
    ensures Grows(dataset[index], r[index], Contribution(DashboardExprs(d, rowsFirst), lex, MetricsConfig))
  {
    match PanelSource(d, rowsFirst)
    case None =>
      r := dataset;
      GrowsRefl(dataset[index]);
    case Some(ps) =>
      r := WalkPanels(ps, dataset, index, lex);
  }

  // ---------------------------------------------------------------------
  // Totals

  /** `after` is `before` with its metric list sorted and without repeats. */
  predicate SortedVersion(before: Entry, after: Entry)
  {
    && after.name == before.name
    && (before.metrics.None? ==> after.metrics.None?)
    && (before.metrics.Some? ==>
          after.metrics.Some? && StrictlySorted(after.metrics.value) && Elems(after.metrics.value) == Elems(before.metrics.value))
  }

  /** `sorted(list(dict.fromkeys(...)))` on an entry's list, if it has one. */
  function SortEntry(e: Entry): (r: Entry)
    ensures SortedVersion(e, r)
  {
    match e.metrics
    case None => e
    case Some(ms) => Entry(e.name, Some(SortedDistinct(ms)))
  }

  /** All metric lists of a dataset, one after the other. */
  function Gathered(dataset: seq<Entry>): (r: seq<string>)
    ensures forall x :: x in r <==> exists j :: 0 <= j < |dataset| && dataset[j].metrics.Some? && x in dataset[j].metrics.value
    decreases |dataset|
  {
    if |dataset| == 0 then []
    else
      var n := |dataset| - 1;
      var init := dataset[..n];
      var r := Gathered(init) + dataset[n].metrics.GetOr([]);
      assert forall j :: 0 <= j < n ==> init[j] == dataset[j];
      forall x | exists j :: 0 <= j < |dataset| && dataset[j].metrics.Some? && x in dataset[j].metrics.value
        ensures x in r
      {
        var j :| 0 <= j < |dataset| && dataset[j].metrics.Some? && x in dataset[j].metrics.value;
        if j < n {
          assert init[j].metrics.Some? && x in init[j].metrics.value;
        }
      }
      r
  }

  /** What `_count_total_metrics` computes: each entry sorted and without
      repeats, and the distinct metrics of all dashboards, sorted. */
  datatype Totals = Totals(dataset: seq<Entry>, all: seq<string>)

  /** `_count_total_metrics`. */
  function CountTotalMetrics(dataset: seq<Entry>): (r: Totals)
    ensures |r.dataset| == |dataset|
    ensures forall j :: 0 <= j < |dataset| ==> SortedVersion(dataset[j], r.dataset[j])
    ensures StrictlySorted(r.all)
    ensures forall x :: x in r.all <==>
      exists j :: 0 <= j < |dataset| && dataset[j].metrics.Some? && x in dataset[j].metrics.value
  {
    var sorted := seq(|dataset|, j requires 0 <= j < |dataset| => SortEntry(dataset[j]));
    var all := SortedDistinct(Gathered(sorted));
    forall x
      ensures x in all <==> exists j :: 0 <= j < |dataset| && dataset[j].metrics.Some? && x in dataset[j].metrics.value
    {
      assert x in all <==> x in Elems(Gathered(sorted));
      if x in all {
        var j :| 0 <= j < |sorted| && sorted[j].metrics.Some? && x in sorted[j].metrics.value;
        assert SortedVersion(dataset[j], sorted[j]);
        assert x in Elems(sorted[j].metrics.value);
      }
      if exists j :: 0 <= j < |dataset| && dataset[j].metrics.Some? && x in dataset[j].metrics.value {
        var j :| 0 <= j < |dataset| && dataset[j].metrics.Some? && x in dataset[j].metrics.value;
        assert SortedVersion(dataset[j], sorted[j]);
        assert x in Elems(dataset[j].metrics.value);
      }
    }
    Totals(sorted, all)
  }

  // ---------------------------------------------------------------------
  // The runs over all dashboards

  /** The entry a dashboard starts with, from `_extract_metrics`. */
  function StartEntry(d: Dashboard): Entry
    requires ExtractMetrics(d).Ok?
  {
    Entry(d.title, ExtractMetrics(d).value)
  }

  /** Every name a dashboard's entry ends up with: its variable metrics and
      what its panel walk adds; nothing when the entry has no list. */
  function MetricsOf(d: Dashboard, rowsFirst: bool, lex: string -> string): set<string>
  {
    match ExtractMetrics(d)
    case Ok(Some(ms)) => Elems(ms) + Contribution(DashboardExprs(d, rowsFirst), lex, MetricsConfig)
    case _ => {}
  }

  /** `dataset` holds an entry per dashboard, each grown from its start by
      its panel walk. */
  predicate Built(dashboards: seq<Dashboard>, rowsFirst: bool, lex: string -> string, dataset: seq<Entry>)
  {
    && |dataset| == |dashboards|
    && forall j :: 0 <= j < |dashboards| ==>
         && ExtractMetrics(dashboards[j]).Ok?
         && Grows(StartEntry(dashboards[j]), dataset[j], Contribution(DashboardExprs(dashboards[j], rowsFirst), lex, MetricsConfig))
  }


  /** A built dataset extended by the next dashboard's grown entry. */
  lemma BuiltSnoc(dashboards: seq<Dashboard>, i: nat, rowsFirst: bool, lex: string -> string,
                  dataset: seq<Entry>, next: seq<Entry>)
    requires i < |dashboards| && ExtractMetrics(dashboards[i]).Ok?
    requires Built(dashboards[..i], rowsFirst, lex, dataset)
    requires |next| == i + 1 && forall j :: 0 <= j < i ==> next[j] == dataset[j]
    requires Grows(StartEntry(dashboards[i]), next[i], Contribution(DashboardExprs(dashboards[i], rowsFirst), lex, MetricsConfig))
    ensures Built(dashboards[..i + 1], rowsFirst, lex, next)
  {
    forall j | 0 <= j < i + 1
      ensures ExtractMetrics(dashboards[..i + 1][j]).Ok?
      ensures Grows(StartEntry(dashboards[..i + 1][j]), next[j],
                    Contribution(DashboardExprs(dashboards[..i + 1][j], rowsFirst), lex, MetricsConfig))
    {
      assert dashboards[..i + 1][j] == dashboards[j];
      if j < i {
        assert dashboards[..i][j] == dashboards[j];
      }
    }
  }

  /** The loop over dashboards of both entry points: each dashboard's entry
      is started by `_extract_metrics` and filled by its panel walk; the
      first `KeyError` of `_extract_metrics` ends the run. */
  method BuildDataset(dashboards: seq<Dashboard>, rowsFirst: bool, lex: string -> string) returns (r: Outcome<seq<Entry>>)
    ensures r.Ok? <==> forall j :: 0 <= j < |dashboards| ==> ExtractMetrics(dashboards[j]).Ok?
    ensures r.KeyError? ==> exists j :: FirstFailure(dashboards, ExtractMetrics, j, r.key)
    ensures r.Ok? ==> Built(dashboards, rowsFirst, lex, r.value)
  {
    var dataset: seq<Entry> := [];
    var i := 0;
    while i < |dashboards|
      invariant i <= |dashboards|
      invariant Built(dashboards[..i], rowsFirst, lex, dataset)
    {
      var d := dashboards[i];
      var m := ExtractMetrics(d);
      if m.KeyError? {
        assert FirstFailure(dashboards, ExtractMetrics, i, m.key) by {
          forall j | 0 <= j < i
            ensures ExtractMetrics(dashboards[j]).Ok?
          {
            assert dashboards[..i][j] == dashboards[j];
          }
        }
        return KeyError(m.key);
      }
      var started := dataset + [StartEntry(d)];
      var grown := AddPanelsMetrics(d, rowsFirst, started, i, lex);
      assert started[i] == StartEntry(d);
      assert forall j :: 0 <= j < i ==> grown[j] == started[j] == dataset[j];
      BuiltSnoc(dashboards, i, rowsFirst, lex, dataset, grown);
      dataset := grown;
      i := i + 1;
    }
    assert dashboards[..|dashboards|] == dashboards;
    return Ok(dataset);
  }

  /** The names in a built dataset are the names of its dashboards. */
  lemma BuiltMembers(dashboards: seq<Dashboard>, rowsFirst: bool, lex: string -> string, dataset: seq<Entry>, x: string)
    requires Built(dashboards, rowsFirst, lex, dataset)
    ensures (exists j :: 0 <= j < |dataset| && dataset[j].metrics.Some? && x in dataset[j].metrics.value) <==>
      exists j :: 0 <= j < |dashboards| && x in MetricsOf(dashboards[j], rowsFirst, lex)
  {
    forall j | 0 <= j < |dashboards|
      ensures dataset[j].metrics.Some? == ExtractMetrics(dashboards[j]).value.Some?
      ensures dataset[j].metrics.Some? ==> (x in dataset[j].metrics.value <==> x in MetricsOf(dashboards[j], rowsFirst, lex))
      ensures dataset[j].metrics.None? ==> x !in MetricsOf(dashboards[j], rowsFirst, lex)
    {
      var s := StartEntry(dashboards[j]);
      if s.metrics.Some? {
        GrowsElems(s, dataset[j], Contribution(DashboardExprs(dashboards[j], rowsFirst), lex, MetricsConfig));
      }
    }
  }

  /** `_extract_dashboards_metrics` on the dashboards fetched from the API:
      the distinct metrics of all dashboards, sorted. */
  method ExtractDashboardsMetrics(dashboards: seq<Dashboard>, lex: string -> string) returns (r: Outcome<seq<string>>)
    ensures r.Ok? <==> forall j :: 0 <= j < |dashboards| ==> ExtractMetrics(dashboards[j]).Ok?
    ensures r.KeyError? ==> exists j :: FirstFailure(dashboards, ExtractMetrics, j, r.key)
    ensures r.Ok? ==> StrictlySorted(r.value)
    ensures r.Ok? ==> forall x :: x in r.value <==> exists j :: 0 <= j < |dashboards| && x in MetricsOf(dashboards[j], true, lex)
  {
    var built := BuildDataset(dashboards, true, lex);
    match built
    case KeyError(k) => r := KeyError(k);
    case Ok(dataset) =>
      var totals := CountTotalMetrics(dataset);
      forall x
        ensures x in totals.all <==> exists j :: 0 <= j < |dashboards| && x in MetricsOf(dashboards[j], true, lex)
      {
        BuiltMembers(dashboards, true, lex, dataset, x);
      }
      r := Ok(totals.all);
  }

  /** `handle_dashboards` without its printing: the dataset and totals
      `_count_total_metrics` reports, with each panel walk reading the
      `panels` key only. */
  method HandleDashboards(dashboards: seq<Dashboard>, lex: string -> string) returns (r: Outcome<Totals>)
    ensures r.Ok? <==> forall j :: 0 <= j < |dashboards| ==> ExtractMetrics(dashboards[j]).Ok?
    ensures r.KeyError? ==> exists j :: FirstFailure(dashboards, ExtractMetrics, j, r.key)
    ensures r.Ok? ==> |r.value.dataset| == |dashboards|
    ensures r.Ok? ==> forall j :: 0 <= j < |dashboards| ==>
      && r.value.dataset[j].name == dashboards[j].title
      && (r.value.dataset[j].metrics.Some? <==> ExtractMetrics(dashboards[j]).value.Some?)
      && (r.value.dataset[j].metrics.Some? ==>
            && StrictlySorted(r.value.dataset[j].metrics.value)
            && Elems(r.value.dataset[j].metrics.value) == MetricsOf(dashboards[j], false, lex))
    ensures r.Ok? ==> StrictlySorted(r.value.all)
    ensures r.Ok? ==> forall x :: x in r.value.all <==> exists j :: 0 <= j < |dashboards| && x in MetricsOf(dashboards[j], false, lex)
  {
    var built := BuildDataset(dashboards, false, lex);
    match built
    case KeyError(k) => r := KeyError(k);
    case Ok(dataset) =>
      var totals := CountTotalMetrics(dataset);
      forall x
        ensures x in totals.all <==> exists j :: 0 <= j < |dashboards| && x in MetricsOf(dashboards[j], false, lex)
      {
        BuiltMembers(dashboards, false, lex, dataset, x);
      }
      forall j | 0 <= j < |dashboards| && dataset[j].metrics.Some?
        ensures Elems(totals.dataset[j].metrics.value) == MetricsOf(dashboards[j], false, lex)
      {
        GrowsElems(StartEntry(dashboards[j]), dataset[j], Contribution(DashboardExprs(dashboards[j], false), lex, MetricsConfig));
      }
      r := Ok(totals);
  }

  // ---------------------------------------------------------------------
  // Regular expressions

  /** `metric` names Telegraf input `k` with field `v`: `k` is non-empty,
      has no `_`, and `metric` is `k + "_" + v`. */
  predicate SplitsAs(metric: string, k: string, v: string)
  {
    |k| > 0 && '_' !in k && metric == k + "_" + v
  }

  /** Field `v` is filed under input `k`. */
  predicate Filed(mapping: map<string, set<string>>, k: string, v: string)
  {
    k in mapping && v in mapping[k]
  }

  /** A split, when there is one, is at the first `_` of the metric. */
  lemma SplitsAtFirstUnderscore(metric: string, k: string, v: string)
    requires SplitsAs(metric, k, v)
    ensures '_' in metric && IndexOf(metric, '_') == |k|
    ensures k == metric[..|k|] && v == metric[|k| + 1..]
  {
    assert metric[|k|] == '_';
    assert forall j :: 0 <= j < |k| ==> metric[j] == k[j];
    var i := IndexOf(metric, '_');
    assert metric[i] == '_';
  }

  /** `check_metric_for_telegraf_input`: a metric whose first `_` is not at
      its start files its remainder under the part before the `_`; any other
      metric leaves the mapping as it is. */
  function CheckMetricForTelegrafInput(metric: string, mapping: map<string, set<string>>): (r: map<string, set<string>>)
    ensures forall k :: k in r <==> k in mapping || exists v :: SplitsAs(metric, k, v)
    ensures forall k, v :: Filed(r, k, v) <==> Filed(mapping, k, v) || SplitsAs(metric, k, v)
  {
    forall k, v | SplitsAs(metric, k, v)
      ensures '_' in metric && IndexOf(metric, '_') == |k| && k == metric[..|k|] && v == metric[|k| + 1..]
    {
      SplitsAtFirstUnderscore(metric, k, v);
    }
    if '_' !in metric then mapping
    else
      var i := IndexOf(metric, '_');
      if i == 0 then mapping
      else
        var name := metric[..i];
        var value := metric[i + 1..];
        assert metric == name + "_" + value;
        assert SplitsAs(metric, name, value);
        mapping[name := (if name in mapping then mapping[name] else {}) + {value}]
  }

  /** A metric without `_`, or with `_` in front, leaves the mapping as it
      is; any other metric files its remainder under its prefix and leaves
      every other input untouched. */
  lemma TelegrafInputCases(metric: string, mapping: map<string, set<string>>)
    ensures '_' !in metric || metric[0] == '_' ==> CheckMetricForTelegrafInput(metric, mapping) == mapping
    ensures '_' in metric && metric[0] != '_' ==>
      var i := IndexOf(metric, '_');
      var r := CheckMetricForTelegrafInput(metric, mapping);
      && metric[..i] in r
      && metric[i + 1..] in r[metric[..i]]
      && (forall k :: k in mapping && k != metric[..i] ==> k in r && r[k] == mapping[k])
      && (forall k :: k in r && k != metric[..i] ==> k in mapping)
  {
    var r := CheckMetricForTelegrafInput(metric, mapping);
    if '_' !in metric || metric[0] == '_' {
      forall k, v | SplitsAs(metric, k, v)
        ensures false
      {
        SplitsAtFirstUnderscore(metric, k, v);
      }
      assert r.Keys == mapping.Keys;
      forall k | k in r
        ensures r[k] == mapping[k]
      {
        assert forall v :: v in r[k] <==> v in mapping[k];
      }
    } else {
      var i := IndexOf(metric, '_');
      var name := metric[..i];
      assert metric == name + "_" + metric[i + 1..];
      assert SplitsAs(metric, name, metric[i + 1..]);
      forall k | k != name && (k in mapping || k in r)
        ensures k in mapping && k in r && r[k] == mapping[k]
      {
        forall v | SplitsAs(metric, k, v)
          ensures false
        {
          SplitsAtFirstUnderscore(metric, k, v);
        }
        assert forall v :: v in r[k] <==> v in mapping[k];
      }
    }
  }

  /** The Telegraf mapping `_to_regex` builds from a metric list. */
  function TelegrafMapping(metrics: seq<string>): (r: map<string, set<string>>)
    ensures forall k :: k in r <==> exists j, v :: 0 <= j < |metrics| && SplitsAs(metrics[j], k, v)
    decreases |metrics|
  {
    if |metrics| == 0 then map[]
    else
      var n := |metrics| - 1;
      var init := metrics[..n];
      assert forall j :: 0 <= j < n ==> init[j] == metrics[j];
      CheckMetricForTelegrafInput(metrics[n], TelegrafMapping(init))
  }

  /** Field `v` is filed under input `k` exactly when some metric of the
      list is `k + "_" + v` with `k` free of `_`. */
  lemma {:induction false} TelegrafMappingMembers(metrics: seq<string>, k: string, v: string)
    ensures Filed(TelegrafMapping(metrics), k, v) <==>
      exists j :: 0 <= j < |metrics| && SplitsAs(metrics[j], k, v)
    decreases |metrics|
  {
    if |metrics| > 0 {
      var n := |metrics| - 1;
      var init := metrics[..n];
      TelegrafMappingMembers(init, k, v);
      var before := TelegrafMapping(init);
      assert TelegrafMapping(metrics) == CheckMetricForTelegrafInput(metrics[n], before);
      if exists j :: 0 <= j < |metrics| && SplitsAs(metrics[j], k, v) {
        var j :| 0 <= j < |metrics| && SplitsAs(metrics[j], k, v);
        if j < n {
          assert init[j] == metrics[j];
        }
      }
      if Filed(before, k, v) {
        var j :| 0 <= j < n && SplitsAs(init[j], k, v);
        assert init[j] == metrics[j];
      }
    }
  }

  /** `_to_regex` without its printing: the alternation of all metrics and
      the Telegraf mapping. */
  method ToRegex(metrics: seq<string>) returns (pattern: string, mapping: map<string, set<string>>)
    ensures pattern == Join(metrics, "|")
    ensures forall k, v :: Filed(mapping, k, v) <==>
      exists j :: 0 <= j < |metrics| && SplitsAs(metrics[j], k, v)
    ensures forall k :: k in mapping <==> exists j, v :: 0 <= j < |metrics| && SplitsAs(metrics[j], k, v)
    ensures mapping == TelegrafMapping(metrics)
  {
    pattern := RegexPattern(metrics);
    mapping := map[];
    var i := 0;
    while i < |metrics|
      invariant i <= |metrics|
      invariant mapping == TelegrafMapping(metrics[..i])
    {
      assert metrics[..i + 1][..i] == metrics[..i];
      mapping := CheckMetricForTelegrafInput(metrics[i], mapping);
      i := i + 1;
    }
    assert metrics[..|metrics|] == metrics;
    assert mapping == TelegrafMapping(metrics);
    forall k, v
      ensures Filed(mapping, k, v) <==> exists j :: 0 <= j < |metrics| && SplitsAs(metrics[j], k, v)
    {
      TelegrafMappingMembers(metrics, k, v);
    }
  }

  /** `"field"`. */
  function Quote(f: string): string
  {
    "\"" + f + "\""
  }

  /** Each field quoted. */
  function Quoted(fields: seq<string>): seq<string>
  {
    seq(|fields|, k requires 0 <= k < |fields| => Quote(fields[k]))
  }

  /** `format_telegraf_fieldpass`: the quoted fields, comma separated, in
      brackets. */
  method FormatTelegrafFieldpass(fields: seq<string>) returns (pattern: string)
    ensures pattern == "[" + Join(Quoted(fields), ",") + "]"
  {
    var quoted := Quoted(fields);
    var inner := "";
    var i := 0;
    while i < |quoted|
      invariant i <= |quoted|
      invariant inner == Join(quoted[..i], ",")
    {
      if i == 0 {
        assert quoted[..1] == [quoted[0]];
        inner := quoted[0];
      } else {
        assert quoted[..i + 1] == quoted[..i] + [quoted[i]];
        JoinSnoc(quoted[..i], quoted[i], ",");
        inner := inner + "," + quoted[i];
      }
      i := i + 1;
    }
    assert quoted[..|quoted|] == quoted;
    pattern := "[" + inner + "]";
  }

  /** Inside the brackets, splitting on `,` gives the quoted fields back
      when no field holds a comma. */
  lemma FieldpassRoundTrip(fields: seq<string>)
    requires |fields| > 0
    requires forall k :: 0 <= k < |fields| ==> ',' !in fields[k]
    ensures Split(Join(Quoted(fields), ","), ",") == Quoted(fields)
  {
    var quoted := Quoted(fields);
    forall k | 0 <= k < |quoted|
      ensures ',' !in quoted[k]
    {
      assert quoted[k] == "\"" + fields[k] + "\"";
    }
    SplitJoin(quoted, ',');
  }
}
