/** Templating variables as both versions read them: which variables raise
    a `KeyError`, and the metric each query variable names, given the
    version's way of reading a metric out of a query. */
module Variables {
  import opened Wrappers
  import opened Seqs
  import opened Dashboard

  /** `var['type']` raises, or the variable is a query and `var['query']`
      raises. */
  predicate Raises(v: Variable)
  {
    v.kind.None? || (v.kind == Some("query") && v.query.None?)
  }

  /** The key whose lookup raises first for a variable. */
  function RaisedKey(v: Variable): string
  {
    if v.kind.None? then "type" else "query"
  }

  /** Variable `v` is a query variable whose query names metric `m`, when
      metrics are read from queries by `pick`. */
  predicate Yields(v: Variable, pick: string -> Option<string>, m: string)
  {
    v.kind == Some("query") && v.query.Some? && pick(v.query.value) == Some(m)
  }

  /** Some variable of `vars` yields `m`. */
  predicate YieldedBy(vars: seq<Variable>, pick: string -> Option<string>, m: string)
  {
    exists j :: 0 <= j < |vars| && Yields(vars[j], pick, m)
  }

  /** A metric yielded by a variable after the first is yielded by one of
      all the variables. */
  lemma YieldedByTail(vars: seq<Variable>, pick: string -> Option<string>, m: string)
    requires |vars| > 0 && YieldedBy(vars[1..], pick, m)
    ensures YieldedBy(vars, pick, m)
  {
    var j :| 0 <= j < |vars[1..]| && Yields(vars[1..][j], pick, m);
    assert vars[1..][j] == vars[j + 1];
  }

  /** The metric of a variable, if it yields one. */
  function Pick(v: Variable, pick: string -> Option<string>): seq<string>
  {
    if v.kind == Some("query") && v.query.Some? && pick(v.query.value).Some? then [pick(v.query.value).value] else []
  }

  /** The metrics the variables yield, variable after variable: the
      reference the variable loops are measured against. */
  function Picks(vars: seq<Variable>, pick: string -> Option<string>): (r: seq<string>)
    ensures |r| <= |vars|
    ensures forall k :: 0 <= k < |r| ==> YieldedBy(vars, pick, r[k])
    decreases |vars|
  {
    if |vars| == 0 then []
    else
      var rest := Picks(vars[1..], pick);
      forall x | x in rest { YieldedByTail(vars, pick, x); }
      Pick(vars[0], pick) + rest
  }

  /** Every metric a variable yields is picked. */
  lemma {:induction false} PicksMembers(vars: seq<Variable>, pick: string -> Option<string>, m: string)
    ensures m in Picks(vars, pick) <==> YieldedBy(vars, pick, m)
    decreases |vars|
  {
    if |vars| > 0 {
      PicksMembers(vars[1..], pick, m);
      if YieldedBy(vars, pick, m) {
        var j :| 0 <= j < |vars| && Yields(vars[j], pick, m);
        if j > 0 {
          assert Yields(vars[1..][j - 1], pick, m);
        }
      }
    }
  }

  /** Picking over a concatenation picks over each part in turn, so the
      metrics come in the order of their variables. */
  lemma {:induction false} PicksAppend(a: seq<Variable>, b: seq<Variable>, pick: string -> Option<string>)
    ensures Picks(a + b, pick) == Picks(a, pick) + Picks(b, pick)
    decreases |a|
  {
    if |a| == 0 {
      assert a + b == b;
    } else {
      assert (a + b)[0] == a[0] && (a + b)[1..] == a[1..] + b;
      PicksAppend(a[1..], b, pick);
    }
  }
}
