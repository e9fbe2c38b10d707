/** The sequential gate loop of scripts/run_gates.py and exactly when it agrees
    with the parallel one. */
module GateSequential {
  import opened Options
  import opened Graphs
  import opened GateModel
  import opened GateScheduler

  // The sequential loop also accepts a dependency whose runner was unavailable.
  // The strict rule, which does not, is the one of the parallel loop.
  predicate Acceptable<K>(tolerant: bool, status: Status<K>) {
    status == Pass || (tolerant && status == RunnerUnavailable)
  }

  predicate Unacceptable<K(==)>(tolerant: bool, results: map<K, Row<K>>, d: K) {
    d !in results || !Acceptable(tolerant, results[d].status)
  }

  function FirstUnacceptable<K(==)>(tolerant: bool, deps: seq<K>, results: map<K, Row<K>>): (r: Option<K>)
    ensures r.Some? ==> r.value in deps && Unacceptable(tolerant, results, r.value)
    ensures r.Some? ==>
              exists i | 0 <= i < |deps| :: deps[i] == r.value && forall j | 0 <= j < i :: !Unacceptable(tolerant, results, deps[j])
    ensures r.None? ==> forall d | d in deps :: !Unacceptable(tolerant, results, d)
  {
    if deps == [] then None
    else if Unacceptable(tolerant, results, deps[0]) then Some(deps[0])
    else FirstUnacceptable(tolerant, deps[1..], results)
  }

  // ----- What running in selection order means -----

  // At gate i a dependency counts against it when it stands later or ended
  // unacceptably.
  predicate Bars<K(==)>(tolerant: bool, sel: seq<Gate<K>>, results: map<K, Row<K>>, i: nat, d: K)
    requires i <= |sel|
  {
    !Earlier(sel, i, d) || Unacceptable(tolerant, results, d)
  }

  // Gate i is blocked by such a dependency, or reports its own outcome.
  predicate InOrderAt<K(==)>(tolerant: bool, sel: seq<Gate<K>>, outcomes: Outcomes<K>, results: map<K, Row<K>>, i: nat)
    requires i < |sel| && sel[i].key in results
  {
    var g := sel[i];
    var row := results[g.key];
    if exists d | d in Deps(sel, g) :: Bars(tolerant, sel, results, i, d)
    then row.status.Blocked? && row == Row(g.key, row.status, None)
         && row.status.dependency in Deps(sel, g) && Bars(tolerant, sel, results, i, row.status.dependency)
    else row == OwnRow(g, outcomes(g.key))
  }

  predicate HoldsAt<K(==)>(tolerant: bool, sel: seq<Gate<K>>, outcomes: Outcomes<K>, results: map<K, Row<K>>, i: nat)
    requires i < |sel|
  {
    sel[i].key in results && InOrderAt(tolerant, sel, outcomes, results, i)
  }

  // The results after the first n gates.
  ghost predicate InOrder<K(!new)>(tolerant: bool, sel: seq<Gate<K>>, outcomes: Outcomes<K>, n: nat, results: map<K, Row<K>>)
    requires n <= |sel|
  {
    && (forall k :: k in results <==> Earlier(sel, n, k))
    && forall i {:trigger HoldsAt(tolerant, sel, outcomes, results, i)} | 0 <= i < n :: HoldsAt(tolerant, sel, outcomes, results, i)
  }

  ghost predicate SequentialOutcome<K(!new)>(sel: seq<Gate<K>>, outcomes: Outcomes<K>, results: map<K, Row<K>>) {
    InOrder(true, sel, outcomes, |sel|, results)
  }

  lemma OwnRowPlain<K>(g: Gate<K>, res: RunResult)
    ensures OwnRow(g, res).status == RunnerUnavailable ==> g.allowSkipCode2
    ensures !OwnRow(g, res).status.Blocked?
    ensures OwnRow(g, res).key == g.key
  {
  }

  // Recording a later gate changes nothing for an earlier one.
  lemma EarlierUnaffected<K(!new)>(tolerant: bool, sel: seq<Gate<K>>, outcomes: Outcomes<K>, results: map<K, Row<K>>, i: nat, n: nat, row: Row<K>)
    requires UniqueKeys(sel) && i < n < |sel| && HoldsAt(tolerant, sel, outcomes, results, i)
    ensures HoldsAt(tolerant, sel, outcomes, results[sel[n].key := row], i)
  {
    var results' := results[sel[n].key := row];
    forall d ensures Bars(tolerant, sel, results, i, d) <==> Bars(tolerant, sel, results', i, d) {
      if Earlier(sel, i, d) {
        var j :| 0 <= j < i && sel[j].key == d;
        assert d != sel[n].key;
      }
    }
  }

  lemma InOrderExtends<K(!new)>(tolerant: bool, sel: seq<Gate<K>>, outcomes: Outcomes<K>, n: nat, results: map<K, Row<K>>, failed: Option<K>, row: Row<K>)
    requires UniqueKeys(sel) && n < |sel| && InOrder(tolerant, sel, outcomes, n, results)
    requires failed == FirstUnacceptable(tolerant, Deps(sel, sel[n]), results)
    requires row == if failed.Some? then Row(sel[n].key, Blocked(failed.value), None) else OwnRow(sel[n], outcomes(sel[n].key))
    ensures InOrder(tolerant, sel, outcomes, n + 1, results[sel[n].key := row])
  {
    var g := sel[n];
    var results' := results[g.key := row];
    forall k ensures k in results' <==> Earlier(sel, n + 1, k) {
      assert Earlier(sel, n, k) ==> Earlier(sel, n + 1, k);
    }
    forall d ensures Unacceptable(tolerant, results, d) <==> Bars(tolerant, sel, results', n, d) {
      if Earlier(sel, n, d) {
        var j :| 0 <= j < n && sel[j].key == d;
        assert d != g.key;
      }
    }
    forall i {:trigger HoldsAt(tolerant, sel, outcomes, results', i)} | 0 <= i < n + 1
      ensures HoldsAt(tolerant, sel, outcomes, results', i)
    {
      if i < n {
        assert HoldsAt(tolerant, sel, outcomes, results, i);
        EarlierUnaffected(tolerant, sel, outcomes, results, i, n, row);
      }
    }
  }

  // The gates started so far are those that were not blocked.
  predicate StartedUnblocked<K(==)>(sel: seq<Gate<K>>, n: nat, results: map<K, Row<K>>, started: seq<K>)
    requires n <= |sel|
  {
    && Distinct(started)
    && (forall k | k in started :: Earlier(sel, n, k))
    && forall i | 0 <= i < n ::
         sel[i].key in results && (sel[i].key in started <==> !results[sel[i].key].status.Blocked?)
  }

  lemma StartedStep<K(!new)>(sel: seq<Gate<K>>, i: nat, results: map<K, Row<K>>, started: seq<K>, row: Row<K>)
    requires UniqueKeys(sel) && i < |sel| && StartedUnblocked(sel, i, results, started)
    ensures StartedUnblocked(sel, i + 1, results[sel[i].key := row],
                             if row.status.Blocked? then started else started + [sel[i].key])
  {
    assert !Earlier(sel, i, sel[i].key);
    assert forall k | Earlier(sel, i, k) :: Earlier(sel, i + 1, k);
  }

  // Gate i in terms of the commands and the declared dependencies: it is skipped,
  // naming a selected dependency that stands later or neither passed nor lacked
  // its runner, exactly when it has one, and else its row reports its own command.
  predicate HoldsBack<K(==)>(sel: seq<Gate<K>>, results: map<K, Row<K>>, i: nat, d: K)
    requires i < |sel|
  {
    && d in sel[i].dependsOn && d in Keys(sel)
    && (!Earlier(sel, i, d) || d !in results || (results[d].status != Pass && results[d].status != RunnerUnavailable))
  }

  predicate ExplainedInOrder<K(==)>(sel: seq<Gate<K>>, outcomes: Outcomes<K>, results: map<K, Row<K>>, i: nat) {
    && i < |sel| && sel[i].key in results
    && var g, row := sel[i], results[sel[i].key];
       if exists d | d in g.dependsOn :: HoldsBack(sel, results, i, d)
       then row.key == g.key && row.exitCode == None && row.status.Blocked? && HoldsBack(sel, results, i, row.status.dependency)
       else RowReports(g, outcomes(g.key), row)
  }

  lemma ExplainedInOrderAt<K(!new)>(sel: seq<Gate<K>>, outcomes: Outcomes<K>, results: map<K, Row<K>>, i: nat)
    requires i < |sel|
    ensures HoldsAt(true, sel, outcomes, results, i) <==> ExplainedInOrder(sel, outcomes, results, i)
  {
    if sel[i].key in results {
      OwnRowReports(sel[i], outcomes(sel[i].key), results[sel[i].key]);
      assert forall d :: d in Deps(sel, sel[i]) && Bars(true, sel, results, i, d) <==> HoldsBack(sel, results, i, d);
    }
  }

  lemma SequentialExplained<K(!new)>(sel: seq<Gate<K>>, outcomes: Outcomes<K>, results: map<K, Row<K>>)
    ensures SequentialOutcome(sel, outcomes, results) <==>
            results.Keys == Keys(sel) && forall i | 0 <= i < |sel| :: ExplainedInOrder(sel, outcomes, results, i)
  {
    EarlierIsKey(sel);
    assert (forall k :: k in results <==> Earlier(sel, |sel|, k)) <==> results.Keys == Keys(sel);
    forall i | 0 <= i < |sel| ensures HoldsAt(true, sel, outcomes, results, i) <==> ExplainedInOrder(sel, outcomes, results, i) {
      ExplainedInOrderAt(sel, outcomes, results, i);
    }
  }

  method RunSequential<K(==,!new)>(sel: seq<Gate<K>>, outcomes: Outcomes<K>)
      returns (results: map<K, Row<K>>, started: seq<K>)
    requires UniqueKeys(sel)
    ensures SequentialOutcome(sel, outcomes, results)
    ensures results.Keys == Keys(sel) && forall i | 0 <= i < |sel| :: ExplainedInOrder(sel, outcomes, results, i)
    ensures StartedUnblocked(sel, |sel|, results, started)
  {
    results, started := map[], [];
    for i := 0 to |sel|
      invariant InOrder(true, sel, outcomes, i, results)
      invariant StartedUnblocked(sel, i, results, started)
    {
      var g := sel[i];
      var failed := FirstUnacceptable(true, Deps(sel, g), results);
      OwnRowPlain(g, outcomes(g.key));
      if failed.Some? {
        var row := Row(g.key, Blocked(failed.value), None);
        InOrderExtends(true, sel, outcomes, i, results, failed, row);
        StartedStep(sel, i, results, started, row);
        results := results[g.key := row];
        continue;
      }
      var row := OwnRow(g, outcomes(g.key));
      InOrderExtends(true, sel, outcomes, i, results, failed, row);
      StartedStep(sel, i, results, started, row);
      results := results[g.key := row];
      started := started + [g.key];
    }
    SequentialExplained(sel, outcomes, results);
  }

  lemma InOrderExists<K(!new)>(tolerant: bool, sel: seq<Gate<K>>, outcomes: Outcomes<K>) returns (results: map<K, Row<K>>)
    requires UniqueKeys(sel)
    ensures InOrder(tolerant, sel, outcomes, |sel|, results)
  {
    results := map[];
    for i := 0 to |sel|
      invariant InOrder(tolerant, sel, outcomes, i, results)
    {
      var failed := FirstUnacceptable(tolerant, Deps(sel, sel[i]), results);
      var row := if failed.Some? then Row(sel[i].key, Blocked(failed.value), None) else OwnRow(sel[i], outcomes(sel[i].key));
      InOrderExtends(tolerant, sel, outcomes, i, results, failed, row);
      results := results[sel[i].key := row];
    }
  }

  // ----- Agreement of the two branches -----

  lemma EarlierIsKey<K(!new)>(sel: seq<Gate<K>>)
    ensures forall k :: Earlier(sel, |sel|, k) <==> k in Keys(sel)
  {
    forall k | k in Keys(sel) ensures Earlier(sel, |sel|, k) {
      var g :| g in sel && g.key == k;
    }
    forall k | Earlier(sel, |sel|, k) ensures k in Keys(sel) {
      var j :| 0 <= j < |sel| && sel[j].key == k;
      assert sel[j] in sel;
    }
  }

  // Running in dependency order under the strict rule gives the parallel result.
  lemma StrictOrderIsParallel<K(!new)>(sel: seq<Gate<K>>, outcomes: Outcomes<K>, results: map<K, Row<K>>)
    requires DependencyOrdered(sel) && InOrder(false, sel, outcomes, |sel|, results)
    ensures ParallelOutcome(sel, outcomes, results)
  {
    EarlierIsKey(sel);
    assert results.Keys == Keys(sel);
    forall g {:trigger OutcomeAt(sel, outcomes, results, g)} | g in sel ensures OutcomeAt(sel, outcomes, results, g) {
      var i :| 0 <= i < |sel| && sel[i] == g;
      assert HoldsAt(false, sel, outcomes, results, i);
      forall d | d in Deps(sel, g) ensures HasFailed(results, d) <==> Bars(false, sel, results, i, d) {
        assert Earlier(sel, i, d);
      }
    }
  }

  lemma DependencyNotUnavailable<K(!new)>(sel: seq<Gate<K>>, outcomes: Outcomes<K>, results: map<K, Row<K>>, i: nat, d: K)
    requires NoSkippableDependency(sel) && SequentialOutcome(sel, outcomes, results)
    requires i < |sel| && d in Deps(sel, sel[i])
    ensures d in results ==> results[d].status != RunnerUnavailable
  {
    if d in results {
      var j :| 0 <= j < |sel| && sel[j].key == d;
      assert sel[j] in sel && sel[i] in sel && !sel[j].allowSkipCode2;
      assert HoldsAt(true, sel, outcomes, results, j);
      OwnRowPlain(sel[j], outcomes(d));
    }
  }

  // With nothing skippable depended upon, tolerance makes no difference.
  lemma ToleranceIdle<K(!new)>(sel: seq<Gate<K>>, outcomes: Outcomes<K>, results: map<K, Row<K>>)
    requires NoSkippableDependency(sel) && SequentialOutcome(sel, outcomes, results)
    ensures InOrder(false, sel, outcomes, |sel|, results)
  {
    forall i {:trigger HoldsAt(false, sel, outcomes, results, i)} | 0 <= i < |sel|
      ensures HoldsAt(false, sel, outcomes, results, i)
    {
      assert HoldsAt(true, sel, outcomes, results, i);
      forall d | d in Deps(sel, sel[i]) ensures Bars(true, sel, results, i, d) <==> Bars(false, sel, results, i, d) {
        DependencyNotUnavailable(sel, outcomes, results, i, d);
      }
    }
  }

  predicate SameClasses<K(==)>(r: map<K, Row<K>>, q: map<K, Row<K>>) {
    r.Keys == q.Keys && forall k | k in r :: SameClass(r[k], q[k])
  }

  // Whatever the two branches report, they report the same class for every gate.
  ghost predicate Agree<K(!new)>(sel: seq<Gate<K>>, outcomes: Outcomes<K>) {
    forall r, q :: ParallelOutcome(sel, outcomes, r) && SequentialOutcome(sel, outcomes, q) ==> SameClasses(r, q)
  }

  lemma OneDifferenceDisagrees<K(!new)>(sel: seq<Gate<K>>, outcomes: Outcomes<K>, r: map<K, Row<K>>, q: map<K, Row<K>>, k: K)
    requires ParallelOutcome(sel, outcomes, r) && SequentialOutcome(sel, outcomes, q)
    requires k in r && k in q && !SameClass(r[k], q[k])
    ensures !Agree(sel, outcomes)
  {
    assert !SameClasses(r, q);
  }

  // A parallel run in which everything passes.
  lemma AllPassOutcome<K(!new)>(sel: seq<Gate<K>>) returns (r: map<K, Row<K>>)
    ensures ParallelOutcome(sel, AllPass(), r)
    ensures forall k | k in Keys(sel) :: k in r && r[k].status == Pass
  {
    r := map k | k in Keys(sel) :: Row(k, Pass, Some(0));
    forall g {:trigger OutcomeAt(sel, AllPass(), r, g)} | g in sel ensures OutcomeAt(sel, AllPass(), r, g) {
    }
  }

  lemma OrderedBranchesAgree<K(!new)>(sel: seq<Gate<K>>, outcomes: Outcomes<K>)
    requires UniqueKeys(sel) && DependencyOrdered(sel) && NoSkippableDependency(sel)
    ensures Agree(sel, outcomes)
  {
    OrderedIsAcyclic(sel);
    forall r, q | ParallelOutcome(sel, outcomes, r) && SequentialOutcome(sel, outcomes, q) ensures SameClasses(r, q) {
      ToleranceIdle(sel, outcomes, q);
      StrictOrderIsParallel(sel, outcomes, q);
      OutcomeUnique(sel, outcomes, r, q);
    }
  }

  // Out of dependency order the sequential branch blocks a gate whose
  // dependencies all pass, which the parallel branch runs.
  lemma DisorderDisagrees<K(!new)>(sel: seq<Gate<K>>)
    requires UniqueKeys(sel) && !DependencyOrdered(sel)
    ensures !Agree(sel, AllPass())
  {
    var i, d :| 0 <= i < |sel| && d in Deps(sel, sel[i]) && !Earlier(sel, i, d);
    var r := AllPassOutcome(sel);
    var q := InOrderExists(true, sel, AllPass());
    assert HoldsAt(true, sel, AllPass(), q, i);
    assert Bars(true, sel, q, i, d);
    assert sel[i] in sel;
    OneDifferenceDisagrees(sel, AllPass(), r, q, sel[i].key);
  }

  function AllPassBut<K(==)>(unavailable: K): Outcomes<K> {
    k => if k == unavailable then RunResult(false, None, Some(2)) else RunResult(false, None, Some(0))
  }

  // Every gate passes except one whose runner is missing: run in order, the
  // sequential branch blocks nothing.
  lemma {:induction false} TolerantRunsAll<K(!new)>(sel: seq<Gate<K>>, m: nat, q: map<K, Row<K>>, n: nat)
    requires UniqueKeys(sel) && DependencyOrdered(sel) && m < |sel| && sel[m].allowSkipCode2 && n <= |sel|
    requires SequentialOutcome(sel, AllPassBut(sel[m].key), q)
    ensures forall i | 0 <= i < n :: sel[i].key in q && q[sel[i].key].status == if i == m then RunnerUnavailable else Pass
  {
    if n > 0 {
      TolerantRunsAll(sel, m, q, n - 1);
      assert HoldsAt(true, sel, AllPassBut(sel[m].key), q, n - 1);
      forall d | d in Deps(sel, sel[n - 1]) ensures Earlier(sel, n - 1, d) && !Unacceptable(true, q, d) {
        assert Earlier(sel, n - 1, d);
      }
    }
  }

  lemma MissingRunnerBlocks<K(!new)>(sel: seq<Gate<K>>, g: Gate<K>, h: Gate<K>, r: map<K, Row<K>>)
    requires g in sel && h in sel && h.key in Deps(sel, g) && h.allowSkipCode2
    requires ParallelOutcome(sel, AllPassBut(h.key), r)
    ensures g.key in r && r[g.key].status.Blocked?
  {
    var outcomes := AllPassBut(h.key);
    assert OutcomeAt(sel, outcomes, r, h);
    assert HasFailed(r, h.key);
    assert OutcomeAt(sel, outcomes, r, g);
  }

  lemma SkippableDependencyDisagrees<K(!new)>(sel: seq<Gate<K>>, m: nat, i: nat)
    requires UniqueKeys(sel) && DependencyOrdered(sel)
    requires m < |sel| && i < |sel| && i != m && sel[m].key in Deps(sel, sel[i]) && sel[m].allowSkipCode2
    ensures !Agree(sel, AllPassBut(sel[m].key))
  {
    var outcomes := AllPassBut(sel[m].key);
    var r := InOrderExists(false, sel, outcomes);
    StrictOrderIsParallel(sel, outcomes, r);
    MissingRunnerBlocks(sel, sel[i], sel[m], r);
    var q := InOrderExists(true, sel, outcomes);
    TolerantRunsAll(sel, m, q, |sel|);
    OneDifferenceDisagrees(sel, outcomes, r, q, sel[i].key);
  }

  lemma OrderedNoSelfDependency<K(!new)>(sel: seq<Gate<K>>, i: nat)
    requires UniqueKeys(sel) && DependencyOrdered(sel) && i < |sel|
    ensures sel[i].key !in Deps(sel, sel[i])
  {
    assert !Earlier(sel, i, sel[i].key);
  }

  // The two branches agree for every outcome exactly on dependency-ordered
  // selections in which nothing depends on a gate that may be skipped.
  lemma BranchesAgreeIff<K(!new)>(sel: seq<Gate<K>>)
    requires UniqueKeys(sel)
    ensures (forall outcomes: Outcomes<K> :: Agree(sel, outcomes)) <==> DependencyOrdered(sel) && NoSkippableDependency(sel)
  {
    if DependencyOrdered(sel) && NoSkippableDependency(sel) {
      forall outcomes: Outcomes<K> ensures Agree(sel, outcomes) {
        OrderedBranchesAgree(sel, outcomes);
      }
    } else if !DependencyOrdered(sel) {
      DisorderDisagrees(sel);
    } else {
      var g, h :| g in sel && h in sel && h.key in Deps(sel, g) && h.allowSkipCode2;
      var i :| 0 <= i < |sel| && sel[i] == g;
      var m :| 0 <= m < |sel| && sel[m] == h;
      OrderedNoSelfDependency(sel, i);
      SkippableDependencyDisagrees(sel, m, i);
    }
  }
}
