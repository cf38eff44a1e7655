/** The parts of a Grafana dashboard document the extractor reads, and the
    records it produces. A JSON key that may be missing is an `Option`:
    absent, or holding a value of the expected type. */
module Dashboard {
  import opened Wrappers
  import opened Seqs

  /** One query of a panel: its `expr` key. */
  datatype Target = Target(expr: Option<string>)

  /** A panel: its `type` key, its `targets` list and, for a `row` panel,
      the nested `panels` list. Legacy `rows` entries are read as panels too. */
  datatype Panel = Panel(kind: Option<string>, targets: Option<seq<Target>>, children: Option<seq<Panel>>)

  /** A templating variable: its `type` key and its `query` value rendered as
      text (`str(var['query'])`). */
  datatype Variable = Variable(kind: Option<string>, query: Option<string>)

  /** The `templating` object with its `list` of variables. */
  datatype Templating = Templating(list: Option<seq<Variable>>)

  /** A dashboard: `title`, `templating`, legacy `rows`, and `panels`. */
  datatype Dashboard = Dashboard(
    title: string,
    templating: Option<Templating>,
    rows: Option<seq<Panel>>,
    panels: Option<seq<Panel>>)

  /** One record of the dataset: a dashboard title and its metric list,
      `None` when the list could not be started (no templating). */
  datatype Entry = Entry(name: string, metrics: Option<seq<string>>)

  /** A step either returns a value or ends the run with a `KeyError` that
      nothing catches, naming the missing key. */
  datatype Outcome<T> = Ok(value: T) | KeyError(key: string)

  /** `dashboards[j]` is the first dashboard whose `start` raises
      `KeyError(key)`: every dashboard before it starts. */
  predicate FirstFailure<T>(dashboards: seq<Dashboard>, start: Dashboard -> Outcome<T>, j: int, key: string)
  {
    && 0 <= j < |dashboards|
    && start(dashboards[j]) == KeyError(key)
    && forall i :: 0 <= i < j ==> start(dashboards[i]).Ok?
  }

  /** The expressions of the targets that have one, in order; a target
      without `expr` is skipped. */
  function PresentExprs(targets: seq<Target>): (r: seq<string>)
    ensures |r| <= |targets|
    ensures forall e :: e in r <==> Target(Some(e)) in targets
    decreases |targets|
  {
    if |targets| == 0 then []
    else
      assert targets == [targets[0]] + targets[1..];
      (if targets[0].expr.Some? then [targets[0].expr.value] else []) + PresentExprs(targets[1..])
  }

  /** The expressions of a panel's targets (none without a `targets` list). */
  function PanelExprs(p: Panel): seq<string>
  {
    if p.targets.Some? then PresentExprs(p.targets.value) else []
  }

  /** The expressions of several panels, panel after panel. */
  function PanelsExprs(ps: seq<Panel>): seq<string>
    decreases |ps|
  {
    if |ps| == 0 then [] else PanelsExprs(ps[..|ps| - 1]) + PanelExprs(ps[|ps| - 1])
  }

  /** `after` is `before` with names appended to its metric list, and those
      names are exactly `added`; an entry without a list stays without one. */
  predicate Grows(before: Entry, after: Entry, added: set<string>)
  {
    && after.name == before.name
    && (before.metrics.None? ==> after.metrics.None?)
    && (before.metrics.Some? ==>
          && after.metrics.Some?
          && |before.metrics.value| <= |after.metrics.value|
          && after.metrics.value[..|before.metrics.value|] == before.metrics.value
          && Elems(after.metrics.value[|before.metrics.value|..]) == added)
  }

  /** An entry grows into itself by nothing. */
  lemma GrowsRefl(e: Entry)
    ensures Grows(e, e, {})
  {
    if e.metrics.Some? {
      var ms := e.metrics.value;
      assert ms[|ms|..] == [];
    }
  }

  /** Two growth steps make one. */
  lemma GrowsTrans(a: Entry, b: Entry, c: Entry, x: set<string>, y: set<string>)
    requires Grows(a, b, x) && Grows(b, c, y)
    ensures Grows(a, c, x + y)
  {
    if a.metrics.Some? {
      PrefixChain(a.metrics.value, b.metrics.value, c.metrics.value);
    }
  }

  /** The names an entry holds after growing are those it held and those
      added. */
  lemma GrowsElems(before: Entry, after: Entry, added: set<string>)
    requires Grows(before, after, added) && before.metrics.Some?
    ensures Elems(after.metrics.value) == Elems(before.metrics.value) + added
  {
    var ms := after.metrics.value;
    var n := |before.metrics.value|;
    assert ms == ms[..n] + ms[n..];
    ElemsAppend(ms[..n], ms[n..]);
  }
}
