# Dashboard metric extractor — a Dafny model

This project models how the logz.io dashboard metrics extractor finds the
metric names used by Grafana dashboards. It covers the PromQL expression of
each panel target and the `label_values(...)` query of each templating
variable. From those names it builds a per-dashboard metric list, a global
list of distinct metrics, a `|`-alternation regular expression and a
Telegraf `fieldpass` grouping by input prefix.

The repository holds two versions of this pipeline:

- `metrics_dashboard_extractor.py` is the current module.
- `extract.py` is the earlier script.

Both versions share the scanning core in module `Extraction`. Apart from
the lexer (below), the differences in that core live in a `Config` value:

- the list of PromQL function names dropped from the candidates (empty in
  `extract.py`);
- the grouping markers (the same list in both);
- the names never appended as metrics (`le`, plus `p8s_logzio_name` in
  `extract.py`).

`_find_grouping` and `_find_rules` behave the same in the two files, so one
Dafny definition models both. They differ only in form: `extract.py` keeps
the grouping markers in a local list and inlines the identifier pattern,
where `metrics_dashboard_extractor.py` uses the module constants
`PROMQL_GROUPING_STATEMENTS` and `REGEX_FILTER`; and where the later file
logs a `ValueError` in `_find_grouping`, the earlier one passes.

Modules:

- `Wrappers`: `Option`.
- `Seqs`: element sets, no-duplicates, `list.index`, filtering,
  `dict.fromkeys` deduplication, subsequences, and iteration over a Python
  `set`.
- `Text`: `startswith` at an offset, the `in` substring test, occurrence
  offsets, `str.split`, `'|'.join`, `split('<', 1)[0]`, and
  `replace(' ', '')`.
- `Identifiers`: the scanner behind
  `re.findall('[a-zA-Z_:][a-zA-Z0-9_:]*', s)`. It is proved to be the only
  span list that is well formed, ordered and covers every identifier-start
  character.
- `Sorting`: Python string order and `sorted`.
- `Dashboard`: the JSON shapes that are read, the dataset entries, and the
  first dashboard of a list that raises.
- `Variables`: which templating variables raise a `KeyError`, and the
  metrics the variables yield, variable after variable, given a version's
  way of reading a metric out of a query.
- `Extraction`: grouping offsets, rules, lexer fragments, the candidate
  filter, the per-target merge, and the alternation pattern.
- `DashboardExtractor`: `metrics_dashboard_extractor.py`.
- `LegacyExtract`: `extract.py`.

Modelling choices:

- **Lexer.** The syntax highlighter (pygments with the PromQL lexer and the
  HTML formatter) is a foreign library. It is a parameter
  `lex: string -> string` that gives the HTML for a space-free expression.
  The model takes that HTML, splits it on `"nv">`, and cuts each piece at
  its first `<`. The two versions import different lexer packages:
  `extract.py` uses `pygments_promql.PromQLLexer`, and
  `metrics_dashboard_extractor.py` uses `pygments.lexers.promql.PromQLLexer`.
  Each entry point (`LegacyExtract.Run`, and the `DashboardExtractor`
  methods) therefore takes its own `lex`, and nothing in the model assumes
  that the two lexers produce the same HTML.
- **Set order.** Python gives no order for iterating over `set(...)`. Where
  the source iterates a set (`list(set(names) - set(grouping))`,
  `list(set(all_metrics))`), the model uses the method `Seqs.Enumerate`,
  whose order the caller cannot choose. The contracts of the methods above
  it therefore speak about element sets where the order is unspecified, and
  about exact sequences everywhere else.
- **Missing keys.** A JSON key that may be missing is an `Option`: the key
  is either absent or holds a value of the expected type. A JSON `null` is
  not represented; where the source treats `null` differently from a
  missing key, "## Left out" says so. A `KeyError` that the source catches
  ends that loop where the source ends it. A `KeyError` that nothing
  catches ends the run with `Outcome.KeyError`. Dashboard titles are
  assumed present.
- **Dataset updates.** The source updates the `dataset` list in place (a
  global in `extract.py`, passed as an argument in
  `metrics_dashboard_extractor.py`). The model returns a new dataset instead, and `Dashboard.Grows`
  states that the entry's list only grows at the end, by exactly the given
  names.

The model follows the code as written, including these behaviours:

- Rule names are a list in left-to-right order with repeats kept, not a set.
- In `metrics_dashboard_extractor.py`, the first templating query without
  `label_values` (or with nothing after it) ends the variable loop. It is
  `break`, not a skip.
- In `extract.py`, only queries whose first identifier is `label_values`
  count. Other queries are skipped.
- In `extract.py`, each dashboard's list is only deduplicated, not sorted,
  and the global list comes out in set order.
- A target without `expr`, or a panel without `targets`, ends the panel walk
  of `extract.py`, because the `KeyError` is caught outside the loop. In
  `metrics_dashboard_extractor.py` such a target is skipped.

## Model

| member | source | states |
|---|---|---|
| Extraction.GroupingOffsets | metrics_dashboard_extractor.py:20-30 | `g` is returned exactly when some grouping marker occurs at an offset `i` inside the expression with `g == i + |marker|`. Every occurrence contributes, overlapping ones included, so an expression without markers gives no offsets. |
| Extraction.EndOffsets | metrics_dashboard_extractor.py:24-26 | For one marker, the returned values are exactly the end offsets of its occurrences. |
| Extraction.FindRules | metrics_dashboard_extractor.py:33-39 | Every rule is an identifier token containing `:`. The rules are exactly the identifier tokens with `:`, in the scanner's left-to-right order, with each repeated as often as the scanner finds it. |
| Extraction.Fragments | metrics_dashboard_extractor.py:46-48 | One fragment per piece of the highlighter's HTML split on `"nv">`. Each fragment is the prefix of its piece up to (not including) the first `<`, and it holds no `<`. |
| Extraction.Candidates | metrics_dashboard_extractor.py:47-51 | Candidates have no repeats. A name is a candidate exactly when it is a non-empty fragment that is not a listed function name. |
| Extraction.FindMetricsNames | metrics_dashboard_extractor.py:42-60 | The rules are those of `FindRules`. A name is reported exactly when it is a candidate and none of its occurrence offsets is a grouping offset. |
| Extraction.NoGroupingKeepsCandidates | metrics_dashboard_extractor.py:52-53 | With no grouping marker in the expression, every candidate is reported. |
| Extraction.InsideSomeRule | metrics_dashboard_extractor.py:71-74 | The `name_in_rules` flag is true exactly when the name is a substring of some rule. |
| Extraction.KeepMetrics | metrics_dashboard_extractor.py:70-78 | The appended metrics are the given ones, in order, minus the denylisted ones and those inside a rule. |
| Extraction.KeptMetrics | metrics_dashboard_extractor.py:68-78 | The metrics appended for one expression have no repeats. A name is appended exactly when it is reported for the expression, is not denylisted, and lies inside no rule. |
| Extraction.TargetAdditions | metrics_dashboard_extractor.py:67-78 | One target appends all rules of its space-stripped expression first, unconditionally and in order. It then appends the kept metrics, each once. |
| Extraction.AppendTargets | metrics_dashboard_extractor.py:66-78 | The list is the old list followed by each target's additions, target after target. Each target's additions are its rules in order, then its kept metrics once each, and together exactly its contribution. The names gained are the union of the targets' contributions. |
| Extraction.TargetContributionExcludes | metrics_dashboard_extractor.py:75-78 | A contributed name that is denylisted must be a rule. A contributed non-rule lies inside none of the target's rules. |
| Extraction.ContributionMembers | metrics_dashboard_extractor.py:66-67 | A name is contributed by a target list exactly when some target contributes it. |
| Extraction.RegexPattern | metrics_dashboard_extractor.py:136-139 | The pattern loop builds the metrics joined by `|`. |
| Extraction.RegexRoundTrip | extract.py:70-74 | The empty list gives the empty pattern. When no metric holds `|`, splitting the pattern on `|` gives the list back, and the pattern begins with the first metric and ends with the last, so no separator leads or trails. |
| Identifiers.FindAll | metrics_dashboard_extractor.py:15 | There is one token per scanned match, in the same order, and token `k` is the text of match `k`. Each token is a non-empty `[a-zA-Z_:][a-zA-Z0-9_:]*` match and a substring of the input. |
| Identifiers.ScanUnique | metrics_dashboard_extractor.py:35 | Any ordered list of greedy matches that covers every identifier-start character is the scanner's list, so the scanner's result is determined by the string. |
| Identifiers.MatchSkipsOnlyDigits | metrics_dashboard_extractor.py:91 | Between the start of a run of identifier characters and the match inside it there are only digits. Matches are therefore the maximal runs with leading digits stripped. |
| Text.OccurrencesFrom | metrics_dashboard_extractor.py:55 | Exactly the offsets where the name starts, overlapping ones included, in increasing order. |
| Text.Split | metrics_dashboard_extractor.py:46 | `str.split`: no piece contains the separator, and joining the pieces with it gives the input back. |
| Text.BeforeFirst | metrics_dashboard_extractor.py:48-49 | `split('<', 1)[0]`: a prefix without `<`, ending at the first `<` or at the end. |
| Text.RemoveSpaces | metrics_dashboard_extractor.py:68 | `replace(' ', '')`: no space is left, the order is kept, and every other character keeps its count. |
| Seqs.Dedupe | metrics_dashboard_extractor.py:51 | `list(dict.fromkeys(xs))`: no repeats, and the same elements as the input. |
| Seqs.IndexOf | metrics_dashboard_extractor.py:92 | `list.index`: the position of the first occurrence; the element is there and not before it. |
| Seqs.FirstIndex | metrics_dashboard_extractor.py:151-152 | The position of the first element that passes the test, or the length when none does; every element before it fails the test. With the test "has no `type`", the panel walk reaches exactly the panels before that position, where the caught `KeyError` stops it. |
| Seqs.DedupeFirstOccurrenceOrder | extract.py:163 | Deduplication lists the elements in the order of their first occurrence. |
| Seqs.Enumerate | metrics_dashboard_extractor.py:60 | Iterating over a set yields each element exactly once. |
| Sorting.Sort | metrics_dashboard_extractor.py:202 | `sorted`: the result is non-decreasing in Python string order and is a permutation of the input. |
| Sorting.SortedDistinct | metrics_dashboard_extractor.py:211 | `sorted(list(set(xs)))`: strictly increasing, with exactly the elements of `xs`. |
| Sorting.StrictlySortedUnique | metrics_dashboard_extractor.py:202 | A set has exactly one strictly increasing listing, so sorting after deduplicating does not depend on the set's iteration order. |
| Dashboard.PresentExprs | metrics_dashboard_extractor.py:66-67 | The targets with an `expr` give their expressions, and the targets without one are skipped. |
| Dashboard.GrowsTrans | metrics_dashboard_extractor.py:69-78 | Two appends in a row are one append of both additions. |
| Variables.Picks | metrics_dashboard_extractor.py:88-93 | The reference for both variable loops: at most one metric per variable, each yielded by some query variable. |
| Variables.PicksMembers | extract.py:123-128 | A metric is picked exactly when some query variable yields it. |
| Variables.PicksAppend | metrics_dashboard_extractor.py:88 | Picking over two lists in a row is picking over each in turn, so the metrics come in the order of their variables. |
| DashboardExtractor.MetricNames | metrics_dashboard_extractor.py:13 | In this version, a non-empty fragment is a metric exactly when it is not one of the seven PromQL function names and is not at a grouping offset. |
| DashboardExtractor.MetricsKeep | metrics_dashboard_extractor.py:75 | In this version, a metric is appended exactly when it is not `le` and is inside no rule. |
| DashboardExtractor.LabelValuesMetric | metrics_dashboard_extractor.py:91-93 | A metric is found exactly when `label_values` is a token and some token follows its first occurrence. That following token is the metric, and it is an identifier. |
| DashboardExtractor.VarMetrics | metrics_dashboard_extractor.py:88-99 | The loop is decided by the first variable that raises or cannot be parsed. It raises exactly when that variable raises, naming `type` or `query` as the first failing lookup. Otherwise the result is the metric of every query variable before it, in order. |
| DashboardExtractor.NonQueryIgnored | metrics_dashboard_extractor.py:89 | A typed variable that is not a query changes nothing. |
| DashboardExtractor.BreakDropsRest | metrics_dashboard_extractor.py:94-99 | At the first query variable that cannot be parsed the loop stops, and nothing after it counts. |
| DashboardExtractor.ExtractMetrics | metrics_dashboard_extractor.py:81-100 | Without `templating` the result is `None`. A missing `list` raises. Otherwise it raises exactly when the first variable that halts the loop raises, and else it is the metrics of the query variables before that one, in order. |
| DashboardExtractor.SelectPanels | metrics_dashboard_extractor.py:148-150 | `rows` is chosen when present and non-empty; otherwise `panels`, present or not. |
| DashboardExtractor.Handed | metrics_dashboard_extractor.py:152-159 | A `row` panel hands over its nested panels, if any. A `text` panel hands over nothing. Any other panel hands over itself. |
| DashboardExtractor.VisitedPanels | metrics_dashboard_extractor.py:151-159 | Every panel the walk hands to `_add_metrics` is handed over by some typed panel before the first untyped one. |
| DashboardExtractor.VisitedMembers | metrics_dashboard_extractor.py:151-160 | A panel reaches `_add_metrics` exactly when some panel before the first untyped one hands it over. |
| DashboardExtractor.AddMetrics | metrics_dashboard_extractor.py:63-78 | Only the entry at `index` changes, and only by appending the panel's target contributions. With no `targets`, or no metric list, nothing changes. |
| DashboardExtractor.GrowEntry | metrics_dashboard_extractor.py:64-66 | The entry grows by the contributions of the panel's targets, or stays the same without `targets` or without a metric list. |
| DashboardExtractor.WalkPanels | metrics_dashboard_extractor.py:151-159 | Walking a panel list touches only the entry at `index`. It appends exactly the contributions of the visited panels. |
| DashboardExtractor.AddPanelsMetrics | metrics_dashboard_extractor.py:146-162 | `rows` is walked if it is non-empty, otherwise `panels`. A missing list contributes nothing. Only the entry at `index` changes. |
| DashboardExtractor.SortEntry | metrics_dashboard_extractor.py:200-202 | A `None` list stays `None`. Any other list becomes strictly increasing with the same elements. |
| DashboardExtractor.Gathered | metrics_dashboard_extractor.py:199-210 | The names gathered are exactly those in some entry's list. |
| DashboardExtractor.CountTotalMetrics | metrics_dashboard_extractor.py:198-218 | Each entry is sorted and deduplicated with the same element set, or stays `None`. The global list is strictly increasing and equals the union of the entries' lists. |
| DashboardExtractor.BuildDataset | metrics_dashboard_extractor.py:170-176 | One entry per dashboard, each grown from its variable metrics by its own panel walk. The run fails exactly when some dashboard's templating raises, and then with the first such key. |
| DashboardExtractor.ExtractDashboardsMetrics | metrics_dashboard_extractor.py:165-177 | The result is strictly increasing and holds exactly the names some dashboard yields, from its variables or its walk. |
| DashboardExtractor.HandleDashboards | metrics_dashboard_extractor.py:279-302 | Each entry keeps its dashboard's title. Its list is `None` exactly when templating is missing, and otherwise strictly increasing with exactly that dashboard's names. The global list is sorted and is their union. |
| DashboardExtractor.SplitsAtFirstUnderscore | metrics_dashboard_extractor.py:106-112 | A split into input and field is always at the metric's first `_`. |
| DashboardExtractor.CheckMetricForTelegrafInput | metrics_dashboard_extractor.py:103-115 | A key is present afterwards exactly when it was before or is the metric's input prefix. A field is filed exactly when it was before or the metric splits as `prefix_field`. |
| DashboardExtractor.TelegrafMapping | metrics_dashboard_extractor.py:137-140 | A key is in the mapping exactly when some metric of the list splits as `key_field`. |
| DashboardExtractor.TelegrafInputCases | metrics_dashboard_extractor.py:106-110 | With no `_`, or `_` at index 0, the mapping is unchanged. Otherwise the field is filed under the prefix, and every other key keeps its set. |
| DashboardExtractor.TelegrafMappingMembers | metrics_dashboard_extractor.py:137-140 | Over a metric list, field `v` is filed under `k` exactly when some metric is `k_v` with a non-empty, `_`-free `k`. |
| DashboardExtractor.ToRegex | metrics_dashboard_extractor.py:135-143 | The pattern is the metrics joined by `|`. The mapping is the one `TelegrafMapping` builds: its keys are exactly the input prefixes of the metrics, and it files exactly their `prefix_field` splits. |
| DashboardExtractor.FormatTelegrafFieldpass | metrics_dashboard_extractor.py:118-124 | The fields, each quoted, joined by `,`, in brackets. |
| DashboardExtractor.FieldpassRoundTrip | metrics_dashboard_extractor.py:121-123 | When no field holds a comma, splitting the bracket contents on `,` gives the quoted fields back. |
| LegacyExtract.LegacyMetricNames | extract.py:34-52 | With no function filter, every non-empty fragment not at a grouping offset is a metric, `sum` included. |
| LegacyExtract.LegacyKeep | extract.py:59-67 | A metric is appended exactly when it is not `le`, is not `p8s_logzio_name`, and is inside no rule. |
| LegacyExtract.FirstLabelValues | extract.py:126-128 | A metric is found exactly when there are at least two tokens and the first is `label_values`. The metric is then the second token. |
| LegacyExtract.FirstLabelValuesAgrees | extract.py:121-131 | Where this version finds a metric, the current version finds the same one. |
| LegacyExtract.GetVariables | extract.py:121-131 | It raises exactly when some variable lacks `type`, or is a query without `query`, and names the first such variable's missing key. Otherwise the result is the second token of every query variable whose first token is `label_values`, in order; other queries are skipped. |
| LegacyExtract.GetVariablesAppend | extract.py:123 | The loop over concatenated lists is the two loops in a row. |
| LegacyExtract.UnparsableSkipped | extract.py:125-130 | An unparsable query is skipped and the loop continues. |
| LegacyExtract.LegacyVariables | extract.py:145 | A missing `templating` raises on `templating`, a missing `list` on `list`. Otherwise the result is what `_get_varibles` gives for the list: the first raising variable's key, or the picked metrics in order. |
| LegacyExtract.TargetsWalk | extract.py:56-57 | It completes exactly when every target has `expr`. It reaches exactly the expressions of the targets before the first one without `expr`. |
| LegacyExtract.PanelWalk | extract.py:55-67 | It completes exactly when the panel has `targets`, all with `expr`. Without `targets` it reaches nothing; otherwise the expressions of the targets before the first one without `expr`. |
| LegacyExtract.ChildrenWalk | extract.py:153-154 | A row's children are walked in order. It reaches all expressions of the children before the first incomplete one, then what that child's own walk reaches. |
| LegacyExtract.ChildrenWalkHead | extract.py:153-154 | A row's loop over its children is the first child's walk, then the rest's when that child completes. |
| LegacyExtract.ReachedHead | extract.py:153-154 | What a walk over panels reaches is the first panel's walk, followed by the rest's only when that panel is complete. |
| LegacyExtract.HeadWalk | extract.py:152-158 | A row walks its `panels`, raising when they are missing. A text panel is skipped. Any other panel goes to `_add_metrics`. It reaches exactly what `_add_metrics` reaches over the panels handed over, up to the first missing key. |
| LegacyExtract.PanelsWalk | extract.py:150-160 | It completes exactly when every panel is well formed. It reaches exactly the expressions of the panels handed over before the first ill-formed panel, then what that panel's walk reaches, if it has a `type`. |
| LegacyExtract.PanelsWalkStep | extract.py:150-160 | The panel loop over a list with a typed first panel is that panel's walk, then the rest's when it completes; completion, reach and the prefix bound all carry over. |
| LegacyExtract.PanelsWalkHead | extract.py:150-160 | What the panel loop reaches over a list with a typed first panel is that panel's walk, followed by the rest's only when that panel is well formed. |
| LegacyExtract.MissingExprStopsWalk | extract.py:56-57 | A target without `expr` ends this version's walk, while the current version skips it and goes on. |
| LegacyExtract.BuildEntry | extract.py:144-163 | The entry's list is the variable metrics followed, target after target, by each reached target's rules and kept metrics, deduplicated in first-occurrence order. Its names are exactly the dashboard's names. |
| LegacyExtract.ListNext | extract.py:144-149 | One pass of the dashboard loop lists the next dashboard's entry after the earlier ones and gathers its names after theirs. |
| LegacyExtract.Entries | extract.py:143-169 | One entry per dashboard, each as `BuildEntry` states. The gathered names are the union over dashboards. The run fails exactly when some dashboard's variables raise, and then with the first such key. |
| LegacyExtract.Run | extract.py:143-183 | Per-dashboard entries as `BuildEntry` states, followed by an `all metrics` entry whose list has no repeats and holds exactly the union of the dashboards' names. The printed pattern is that list joined by `|`. The run fails with the first dashboard's raised key. |

## Left out

- The pygments highlighter is a foreign library whose output format the
  model cannot see, so it is the parameter `lex`. A lexer exception is not
  modelled either: `lex` is total.
- HTTP retrieval (`_init_dashboard_list`, `_extract_uid_from_response`,
  `get_total_metrics_count`, `_get_dashboards_logzio_api`) and
  `timeseries_extractor.py` are network plumbing. The model starts from the
  list of dashboards.
- `settings_reader.py`, the interactive `input()` menus, and region and
  API-token validation concern user input only.
- The model leaves out `print`, logging, JSON and YAML reading and writing,
  and `print_telegraf_regex`. `Run` returns the dataset that would be
  written.
- The retry loop over failed time-series queries appears in none of the
  modelled files.
- `str(var['query'])` on a non-string query is modelled as the query's
  text. Any Python value other than a string is not modelled.
- A JSON `null` is not represented: every key is absent or holds a value
  of the expected type. The places where the source treats `null` unlike a
  missing key, none of which the model covers:
  - a variable with `type: null` is skipped by both versions (it is not a
    query), where a missing `type` raises;
  - a query variable with `query: null` breaks the loop of
    `metrics_dashboard_extractor.py` (`str(None)` is `"None"`, which has no
    `label_values`) and makes `re.findall` raise a `TypeError` in
    `extract.py`, where a missing `query` raises a `KeyError`;
  - `list: null` makes both versions raise a `TypeError` when iterating;
    `templating: null` is like a missing `templating` in the current
    version and raises a `TypeError` in `extract.py`;
  - a panel with `type: null` goes to `_add_metrics` in both versions,
    where a missing `type` ends the walk;
  - `panels: null` raises an uncaught `TypeError` in both versions (in the
    current one when `rows` is absent or empty), where a missing `panels`
    contributes nothing;
  - in `extract.py`, `null` for a row's `panels`, a panel's `targets` or a
    target's `expr` raises an uncaught `TypeError` or `AttributeError`; the
    current version treats those three like missing keys.
- Extraction.FindMetricsNames: states the reported metrics as a set. Python
  iterates that set in an order it does not specify.
- Extraction.GroupingOffsets: states membership of offsets, not their
  multiplicity or the marker-by-marker order. Only membership is used
  downstream.
- DashboardExtractor.FormatTelegrafFieldpass: takes the fields as a
  sequence. The source passes a `set`, whose iteration order is
  unspecified.
- LegacyExtract.Run: the global list comes out in the order of a Python
  `set`, which is unspecified, so only its elements and the absence of
  repeats are stated.
- LegacyExtract.BuildEntry: states the kept metrics of each target as a
  set with no repeats, since the source appends them in the unspecified
  order of a Python `set`. The order of variables, targets and rules is
  stated exactly.
