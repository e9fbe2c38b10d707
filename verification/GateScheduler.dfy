/** The parallel gate loop of scripts/run_gates.py as a step system, its
    invariants over every run, and the loop itself. */
module GateScheduler {
  import opened Options
  import opened Graphs
  import opened GateModel

  // What the runner announces as it goes.
  datatype Event<K> = Started(key: K) | Finished(row: Row<K>) | Skipped(key: K, dependency: K)

  datatype State<K> = State(
    pending: set<Gate<K>>,
    inFlight: set<Gate<K>>,
    results: map<K, Row<K>>,
    log: seq<Event<K>>)

  datatype Step<K> = SkipGate(g: Gate<K>, dependency: K) | StartGate(g: Gate<K>) | FinishGate(g: Gate<K>)

  function Init<K(==)>(sel: seq<Gate<K>>): State<K> {
    State(set g | g in sel, {}, map[], [])
  }

  predicate HasFailed<K(==)>(results: map<K, Row<K>>, d: K) {
    d in results && results[d].status != Pass
  }

  predicate HasPassed<K(==)>(results: map<K, Row<K>>, d: K) {
    d in results && results[d].status == Pass
  }

  predicate IsReady<K(==)>(sel: seq<Gate<K>>, results: map<K, Row<K>>, g: Gate<K>) {
    forall d | d in Deps(sel, g) :: HasPassed(results, d)
  }

  function FirstFailed<K(==)>(deps: seq<K>, results: map<K, Row<K>>): (r: Option<K>)
    ensures r.Some? ==> r.value in deps && HasFailed(results, r.value)
    ensures r.Some? ==> exists i | 0 <= i < |deps| :: deps[i] == r.value && forall j | 0 <= j < i :: !HasFailed(results, deps[j])
    ensures r.None? ==> forall d | d in deps :: !HasFailed(results, d)
  {
    if deps == [] then None
    else if HasFailed(results, deps[0]) then Some(deps[0])
    else FirstFailed(deps[1..], results)
  }

  predicate Enabled<K(==)>(sel: seq<Gate<K>>, s: State<K>, step: Step<K>) {
    match step
    case SkipGate(g, d) => g in s.pending && d in Deps(sel, g) && HasFailed(s.results, d)
    case StartGate(g) => g in s.pending && IsReady(sel, s.results, g)
    case FinishGate(g) => g in s.inFlight
  }

  function Apply<K(==)>(outcomes: Outcomes<K>, s: State<K>, step: Step<K>): State<K> {
    match step
    case SkipGate(g, d) =>
      State(s.pending - {g}, s.inFlight, s.results[g.key := Row(g.key, Blocked(d), None)], s.log + [Skipped(g.key, d)])
    case StartGate(g) =>
      State(s.pending - {g}, s.inFlight + {g}, s.results, s.log + [Started(g.key)])
    case FinishGate(g) =>
      var row := OwnRow(g, outcomes(g.key));
      State(s.pending, s.inFlight - {g}, s.results[g.key := row], s.log + [Finished(row)])
  }

  predicate IsFinal<K(==)>(s: State<K>) {
    s.pending == {} && s.inFlight == {}
  }

  // ----- Invariants of every reachable state -----

  // Pending, in-flight and recorded gates partition the selection.
  predicate Partition<K(==)>(sel: seq<Gate<K>>, s: State<K>) {
    && (forall g | g in s.pending :: g in sel && g !in s.inFlight && g.key !in s.results)
    && (forall g | g in s.inFlight :: g in sel && g.key !in s.results)
    && (forall k | k in s.results :: k in Keys(sel))
    && (forall g | g in sel :: g in s.pending || g in s.inFlight || g.key in s.results)
  }

  // A recorded row is the gate's own outcome, all its dependencies having
  // passed, or a skip that names a dependency recorded as not passed.
  predicate RowJustified<K(==)>(sel: seq<Gate<K>>, outcomes: Outcomes<K>, results: map<K, Row<K>>, g: Gate<K>)
    requires g.key in results
  {
    var row := results[g.key];
    || (row == OwnRow(g, outcomes(g.key)) && IsReady(sel, results, g))
    || (row.status.Blocked? && row == Row(g.key, row.status, None)
        && row.status.dependency in Deps(sel, g) && HasFailed(results, row.status.dependency))
  }

  predicate Justified<K(==)>(sel: seq<Gate<K>>, outcomes: Outcomes<K>, s: State<K>) {
    && (forall g | g in s.inFlight :: IsReady(sel, s.results, g))
    && (forall g | g in sel && g.key in s.results :: RowJustified(sel, outcomes, s.results, g))
  }

  predicate PassLogged<K(==)>(log: seq<Event<K>>, d: K) {
    exists e | e in log :: e.Finished? && e.row.key == d && e.row.status == Pass
  }

  // No gate starts twice, and a gate starts only after each of its selected
  // dependencies was announced as passed.
  predicate StartsInOrder<K(==)>(sel: seq<Gate<K>>, log: seq<Event<K>>) {
    && (forall i, j | 0 <= i < j < |log| && log[i].Started? && log[j].Started? :: log[i].key != log[j].key)
    && (forall i, g, d | 0 <= i < |log| && g in sel && log[i] == Started(g.key) && d in Deps(sel, g) ::
          PassLogged(log[..i], d))
  }

  // The announced ends are exactly the recorded rows.
  predicate EndsRecorded<K(==)>(results: map<K, Row<K>>, log: seq<Event<K>>) {
    RowsAnnounced(results, log) && EndsHaveRows(results, log)
  }

  predicate RowsAnnounced<K(==)>(results: map<K, Row<K>>, log: seq<Event<K>>) {
    && (forall k | k in results :: results[k].key == k)
    && (forall k | k in results ::
          if results[k].status.Blocked? then Skipped(k, results[k].status.dependency) in log
          else Finished(results[k]) in log)
  }

  predicate EndsHaveRows<K(==)>(results: map<K, Row<K>>, log: seq<Event<K>>) {
    && (forall e | e in log && e.Finished? :: e.row.key in results && results[e.row.key] == e.row)
    && (forall e | e in log && e.Skipped? :: e.key in results && results[e.key].status == Blocked(e.dependency))
  }

  predicate LogMatches<K(==)>(sel: seq<Gate<K>>, s: State<K>) {
    && (forall g | g in sel :: Started(g.key) in s.log <==>
          g in s.inFlight || (g.key in s.results && !s.results[g.key].status.Blocked?))
    && EndsRecorded(s.results, s.log)
  }

  predicate Inv<K(==)>(sel: seq<Gate<K>>, outcomes: Outcomes<K>, s: State<K>) {
    Partition(sel, s) && Justified(sel, outcomes, s) && StartsInOrder(sel, s.log) && LogMatches(sel, s)
  }

  lemma InitInv<K(!new)>(sel: seq<Gate<K>>, outcomes: Outcomes<K>)
    ensures Inv(sel, outcomes, Init(sel))
  {
  }

  lemma PartitionKept<K(!new)>(sel: seq<Gate<K>>, outcomes: Outcomes<K>, s: State<K>, step: Step<K>)
    requires UniqueKeys(sel) && Partition(sel, s) && Enabled(sel, s, step)
    ensures Partition(sel, Apply(outcomes, s, step))
  {
    var s' := Apply(outcomes, s, step);
    var g := step.g;
    assert g in sel;
    forall h | h in sel && h.key == g.key ensures h == g {
      SameKeySameGate(sel, g, h);
    }
    assert g.key in Keys(sel);
  }

  lemma ResultsExtend<K(!new)>(sel: seq<Gate<K>>, outcomes: Outcomes<K>, s: State<K>, step: Step<K>)
    requires Partition(sel, s) && Enabled(sel, s, step)
    ensures forall k | k in s.results :: k in Apply(outcomes, s, step).results && Apply(outcomes, s, step).results[k] == s.results[k]
  {
  }

  lemma JustifiedKept<K(!new)>(sel: seq<Gate<K>>, outcomes: Outcomes<K>, s: State<K>, step: Step<K>)
    requires UniqueKeys(sel) && Partition(sel, s) && Justified(sel, outcomes, s) && Enabled(sel, s, step)
    ensures Justified(sel, outcomes, Apply(outcomes, s, step))
  {
    var s' := Apply(outcomes, s, step);
    ResultsExtend(sel, outcomes, s, step);
    assert step.g in sel;
    forall h | h in s'.inFlight ensures IsReady(sel, s'.results, h) {
      assert IsReady(sel, s.results, h);
    }
    forall h | h in sel && h.key in s'.results ensures RowJustified(sel, outcomes, s'.results, h) {
      if h.key in s.results {
        assert RowJustified(sel, outcomes, s.results, h);
      } else {
        SameKeySameGate(sel, step.g, h);
      }
    }
  }

  lemma StartsInOrderKept<K(!new)>(sel: seq<Gate<K>>, outcomes: Outcomes<K>, s: State<K>, step: Step<K>)
    requires UniqueKeys(sel) && Inv(sel, outcomes, s) && Enabled(sel, s, step)
    ensures StartsInOrder(sel, Apply(outcomes, s, step).log)
  {
    var log := s.log;
    var log' := Apply(outcomes, s, step).log;
    assert step.g in sel;
    forall i, h, d | 0 <= i < |log'| && h in sel && log'[i] == Started(h.key) && d in Deps(sel, h)
      ensures PassLogged(log'[..i], d)
    {
      if i < |log| {
        assert log'[..i] == log[..i];
      } else {
        assert log'[..i] == log;
        SameKeySameGate(sel, step.g, h);
        assert HasPassed(s.results, d);
        assert Finished(s.results[d]) in log;
      }
    }
    if step.StartGate? {
      assert Started(step.g.key) !in log;
    }
  }

  lemma RowsAnnouncedKept<K(!new)>(sel: seq<Gate<K>>, outcomes: Outcomes<K>, s: State<K>, step: Step<K>)
    requires Partition(sel, s) && RowsAnnounced(s.results, s.log) && Enabled(sel, s, step)
    ensures RowsAnnounced(Apply(outcomes, s, step).results, Apply(outcomes, s, step).log)
  {
    var s' := Apply(outcomes, s, step);
    assert forall e | e in s.log :: e in s'.log;
    assert s'.log[|s.log|] in s'.log;
    assert step.g.key !in s.results;
  }

  lemma EndsHaveRowsKept<K(!new)>(sel: seq<Gate<K>>, outcomes: Outcomes<K>, s: State<K>, step: Step<K>)
    requires Partition(sel, s) && EndsHaveRows(s.results, s.log) && Enabled(sel, s, step)
    ensures EndsHaveRows(Apply(outcomes, s, step).results, Apply(outcomes, s, step).log)
  {
    var s' := Apply(outcomes, s, step);
    assert forall e | e in s'.log :: e in s.log || e == s'.log[|s.log|];
    assert step.g.key !in s.results;
  }

  lemma LogMatchesKept<K(!new)>(sel: seq<Gate<K>>, outcomes: Outcomes<K>, s: State<K>, step: Step<K>)
    requires UniqueKeys(sel) && Inv(sel, outcomes, s) && Enabled(sel, s, step)
    ensures LogMatches(sel, Apply(outcomes, s, step))
  {
    var s' := Apply(outcomes, s, step);
    assert step.g in sel;
    RowsAnnouncedKept(sel, outcomes, s, step);
    EndsHaveRowsKept(sel, outcomes, s, step);
    forall h | h in sel
      ensures Started(h.key) in s'.log <==>
              h in s'.inFlight || (h.key in s'.results && !s'.results[h.key].status.Blocked?)
    {
      if h.key == step.g.key {
        SameKeySameGate(sel, step.g, h);
      }
    }
  }

  lemma InvKept<K(!new)>(sel: seq<Gate<K>>, outcomes: Outcomes<K>, s: State<K>, step: Step<K>)
    requires UniqueKeys(sel) && Inv(sel, outcomes, s) && Enabled(sel, s, step)
    ensures Inv(sel, outcomes, Apply(outcomes, s, step))
  {
    PartitionKept(sel, outcomes, s, step);
    JustifiedKept(sel, outcomes, s, step);
    StartsInOrderKept(sel, outcomes, s, step);
    LogMatchesKept(sel, outcomes, s, step);
  }

  // ----- Runs -----

  // The state after a list of steps, if each was enabled in turn.
  predicate IsRun<K(==)>(sel: seq<Gate<K>>, outcomes: Outcomes<K>, s: State<K>, steps: seq<Step<K>>, s': State<K>)
    decreases |steps|
  {
    if steps == [] then s' == s
    else Enabled(sel, s, steps[0]) && IsRun(sel, outcomes, Apply(outcomes, s, steps[0]), steps[1..], s')
  }

  lemma {:induction false} RunKeepsInv<K(!new)>(sel: seq<Gate<K>>, outcomes: Outcomes<K>, s: State<K>, steps: seq<Step<K>>, s': State<K>)
    requires UniqueKeys(sel) && Inv(sel, outcomes, s) && IsRun(sel, outcomes, s, steps, s')
    ensures Inv(sel, outcomes, s')
    decreases |steps|
  {
    if steps != [] {
      InvKept(sel, outcomes, s, steps[0]);
      RunKeepsInv(sel, outcomes, Apply(outcomes, s, steps[0]), steps[1..], s');
    }
  }

  // Each step lowers 2 * |pending| + |inFlight| by at least one.
  function Remaining<K>(s: State<K>): nat {
    2 * |s.pending| + |s.inFlight|
  }

  lemma StepLowersRemaining<K(!new)>(sel: seq<Gate<K>>, outcomes: Outcomes<K>, s: State<K>, step: Step<K>)
    requires Partition(sel, s) && Enabled(sel, s, step)
    ensures Remaining(Apply(outcomes, s, step)) < Remaining(s)
  {
  }

  lemma {:induction false} RunsAreShort<K(!new)>(sel: seq<Gate<K>>, outcomes: Outcomes<K>, s: State<K>, steps: seq<Step<K>>, s': State<K>)
    requires UniqueKeys(sel) && Inv(sel, outcomes, s) && IsRun(sel, outcomes, s, steps, s')
    ensures |steps| + Remaining(s') <= Remaining(s)
    decreases |steps|
  {
    if steps != [] {
      StepLowersRemaining(sel, outcomes, s, steps[0]);
      InvKept(sel, outcomes, s, steps[0]);
      RunsAreShort(sel, outcomes, Apply(outcomes, s, steps[0]), steps[1..], s');
    }
  }

  // With acyclic dependencies a state that is not final always has a step.
  lemma Progress<K(!new)>(sel: seq<Gate<K>>, outcomes: Outcomes<K>, s: State<K>) returns (step: Step<K>)
    requires UniqueKeys(sel) && Acyclic(DepGraph(sel))
    requires Inv(sel, outcomes, s) && !IsFinal(s)
    ensures Enabled(sel, s, step)
  {
    if s.inFlight != {} {
      var g :| g in s.inFlight;
      step := FinishGate(g);
    } else {
      var g := UnblockedPending(sel, s);
      var failed := FirstFailed(Deps(sel, g), s.results);
      step := if failed.Some? then SkipGate(g, failed.value) else StartGate(g);
    }
  }

  // A pending gate none of whose dependencies is pending.
  lemma UnblockedPending<K(!new)>(sel: seq<Gate<K>>, s: State<K>) returns (g: Gate<K>)
    requires UniqueKeys(sel) && Acyclic(DepGraph(sel))
    requires Partition(sel, s) && s.inFlight == {} && s.pending != {}
    ensures g in s.pending && forall d | d in Deps(sel, g) :: d in s.results
  {
    var waiting := set h | h in s.pending :: h.key;
    var some :| some in s.pending;
    assert some.key in waiting;
    g := SinkGate(sel, waiting);
    assert g in s.pending by {
      var h :| h in s.pending && h.key == g.key;
      SameKeySameGate(sel, g, h);
    }
    forall d | d in Deps(sel, g) ensures d in s.results {
      var h :| h in sel && h.key == d;
      assert h in s.pending ==> d in waiting;
    }
  }

  // ----- The final results -----

  // Skipped when some selected dependency did not pass, otherwise its own row.
  ghost predicate OutcomeAt<K(!new)>(sel: seq<Gate<K>>, outcomes: Outcomes<K>, results: map<K, Row<K>>, g: Gate<K>)
    requires g.key in results
  {
    var row := results[g.key];
    if exists d :: d in Deps(sel, g) && HasFailed(results, d)
    then row.status.Blocked? && row == Row(g.key, row.status, None)
         && row.status.dependency in Deps(sel, g) && HasFailed(results, row.status.dependency)
    else row == OwnRow(g, outcomes(g.key))
  }

  ghost predicate ParallelOutcome<K(!new)>(sel: seq<Gate<K>>, outcomes: Outcomes<K>, results: map<K, Row<K>>) {
    results.Keys == Keys(sel) && forall g {:trigger OutcomeAt(sel, outcomes, results, g)} | g in sel :: OutcomeAt(sel, outcomes, results, g)
  }

  // The same in terms of the commands and the declared dependencies: a gate is
  // skipped, naming a selected dependency that did not pass, exactly when it has
  // one, and else its row reports its own command.
  predicate Explained<K(==)>(sel: seq<Gate<K>>, outcomes: Outcomes<K>, results: map<K, Row<K>>, g: Gate<K>) {
    && g.key in results
    && var row := results[g.key];
       if exists d | d in g.dependsOn && d in Keys(sel) :: d in results && results[d].status != Pass
       then row.key == g.key && row.exitCode == None && row.status.Blocked?
            && row.status.dependency in g.dependsOn && row.status.dependency in Keys(sel)
            && row.status.dependency in results && results[row.status.dependency].status != Pass
       else RowReports(g, outcomes(g.key), row)
  }

  lemma ExplainedAt<K(!new)>(sel: seq<Gate<K>>, outcomes: Outcomes<K>, results: map<K, Row<K>>, g: Gate<K>)
    requires g.key in results
    ensures OutcomeAt(sel, outcomes, results, g) <==> Explained(sel, outcomes, results, g)
  {
    OwnRowReports(g, outcomes(g.key), results[g.key]);
    if d :| d in g.dependsOn && d in Keys(sel) && d in results && results[d].status != Pass {
      assert d in Deps(sel, g) && HasFailed(results, d);
    }
  }

  lemma ParallelExplained<K(!new)>(sel: seq<Gate<K>>, outcomes: Outcomes<K>, results: map<K, Row<K>>)
    ensures ParallelOutcome(sel, outcomes, results) <==>
            results.Keys == Keys(sel) && forall g | g in sel :: Explained(sel, outcomes, results, g)
  {
    if results.Keys == Keys(sel) {
      forall g | g in sel ensures OutcomeAt(sel, outcomes, results, g) <==> Explained(sel, outcomes, results, g) {
        ExplainedAt(sel, outcomes, results, g);
      }
    }
  }

  // All the gates a gate depends on, directly or not, itself included, ran clean.
  ghost predicate ClosureClean<K(!new)>(sel: seq<Gate<K>>, outcomes: Outcomes<K>, g: Gate<K>) {
    forall h | h in sel && Reaches(DepGraph(sel), g.key, h.key) :: RanClean(outcomes(h.key))
  }

  lemma ClosureCleanBelow<K(!new)>(sel: seq<Gate<K>>, outcomes: Outcomes<K>, g: Gate<K>, h: Gate<K>)
    requires UniqueKeys(sel) && g in sel && h in sel && h.key in Deps(sel, g) && ClosureClean(sel, outcomes, g)
    ensures ClosureClean(sel, outcomes, h)
  {
    DepGraphEdges(sel, g);
    ReachesByEdge(DepGraph(sel), g.key, h.key);
    forall x | x in sel && Reaches(DepGraph(sel), h.key, x.key) ensures RanClean(outcomes(x.key)) {
      ReachesTransitive(DepGraph(sel), g.key, h.key, x.key);
    }
  }

  lemma {:induction false} PassAlong<K(!new)>(sel: seq<Gate<K>>, outcomes: Outcomes<K>, results: map<K, Row<K>>, p: seq<K>, h: Gate<K>)
    requires UniqueKeys(sel) && ParallelOutcome(sel, outcomes, results)
    requires IsPath(DepGraph(sel), p) && p[|p| - 1] == h.key && h in sel
    requires p[0] in results && results[p[0]].status == Pass
    ensures RanClean(outcomes(h.key))
    decreases |p|
  {
    ParallelExplained(sel, outcomes, results);
    var g :| g in sel && g.key == p[0];
    assert Explained(sel, outcomes, results, g);
    if |p| == 1 {
      SameKeySameGate(sel, g, h);
    } else {
      assert Edge(DepGraph(sel), p[0], p[1]);
      DepGraphEdges(sel, g);
      var q := p[1..];
      forall i | 0 <= i < |q| - 1 ensures Edge(DepGraph(sel), q[i], q[i + 1]) {
        assert Edge(DepGraph(sel), p[i + 1], p[i + 2]);
      }
      PassAlong(sel, outcomes, results, q, h);
    }
  }

  lemma CleanClosurePasses<K(!new)>(sel: seq<Gate<K>>, outcomes: Outcomes<K>, results: map<K, Row<K>>)
    requires UniqueKeys(sel) && Acyclic(DepGraph(sel)) && ParallelOutcome(sel, outcomes, results)
    ensures forall g | g in sel && ClosureClean(sel, outcomes, g) :: results[g.key].status == Pass
  {
    ParallelExplained(sel, outcomes, results);
    var wrong := set g | g in sel && ClosureClean(sel, outcomes, g) && results[g.key].status != Pass :: g.key;
    if wrong != {} {
      var g := SinkGate(sel, wrong);
      var w :| w in sel && ClosureClean(sel, outcomes, w) && results[w.key].status != Pass && w.key == g.key;
      SameKeySameGate(sel, g, w);
      ReachesSelf(DepGraph(sel), g.key);
      assert Explained(sel, outcomes, results, g);
      var h :| h in sel && h.key == results[g.key].status.dependency;
      ClosureCleanBelow(sel, outcomes, g, h);
      assert false;
    }
    forall g | g in sel && ClosureClean(sel, outcomes, g) ensures results[g.key].status == Pass {
      assert g.key !in wrong;
    }
  }

  lemma PassedIsClean<K(!new)>(sel: seq<Gate<K>>, outcomes: Outcomes<K>, results: map<K, Row<K>>, g: Gate<K>)
    requires UniqueKeys(sel) && ParallelOutcome(sel, outcomes, results) && g in sel && results[g.key].status == Pass
    ensures ClosureClean(sel, outcomes, g)
  {
    forall h | h in sel && Reaches(DepGraph(sel), g.key, h.key) ensures RanClean(outcomes(h.key)) {
      var p :| Connects(DepGraph(sel), p, g.key, h.key);
      PassAlong(sel, outcomes, results, p, h);
    }
  }

  lemma BlockedBySome<K(!new)>(sel: seq<Gate<K>>, outcomes: Outcomes<K>, results: map<K, Row<K>>, g: Gate<K>)
    requires results.Keys == Keys(sel) && g in sel && Explained(sel, outcomes, results, g)
    ensures results[g.key].status.Blocked? <==> exists h | h in sel && h.key in Deps(sel, g) :: results[h.key].status != Pass
  {
    if results[g.key].status.Blocked? {
      var h :| h in sel && h.key == results[g.key].status.dependency;
    }
    if h :| h in sel && h.key in Deps(sel, g) && results[h.key].status != Pass {
      assert h.key in g.dependsOn;
    }
  }

  // A gate ends as PASS exactly when its command and those of all gates it
  // depends on, directly or not, ran clean; and it is skipped exactly when one
  // it depends on did not.
  lemma PassIffClosureClean<K(!new)>(sel: seq<Gate<K>>, outcomes: Outcomes<K>, results: map<K, Row<K>>, g: Gate<K>)
    requires UniqueKeys(sel) && Acyclic(DepGraph(sel)) && ParallelOutcome(sel, outcomes, results) && g in sel
    ensures results[g.key].status == Pass <==> ClosureClean(sel, outcomes, g)
    ensures results[g.key].status.Blocked? <==> exists h | h in sel && h.key in Deps(sel, g) :: !ClosureClean(sel, outcomes, h)
  {
    forall h | h in sel ensures results[h.key].status == Pass <==> ClosureClean(sel, outcomes, h) {
      CleanClosurePasses(sel, outcomes, results);
      if results[h.key].status == Pass {
        PassedIsClean(sel, outcomes, results, h);
      }
    }
    ParallelExplained(sel, outcomes, results);
    BlockedBySome(sel, outcomes, results, g);
  }

  lemma FinalIsParallelOutcome<K(!new)>(sel: seq<Gate<K>>, outcomes: Outcomes<K>, s: State<K>)
    requires Inv(sel, outcomes, s) && IsFinal(s)
    ensures ParallelOutcome(sel, outcomes, s.results)
  {
    forall g | g in sel ensures g.key in s.results && RowJustified(sel, outcomes, s.results, g) {
      assert g !in s.pending && g !in s.inFlight;
    }
  }

  lemma SameBelowSameHere<K(!new)>(sel: seq<Gate<K>>, outcomes: Outcomes<K>, r1: map<K, Row<K>>, r2: map<K, Row<K>>, g: Gate<K>)
    requires g.key in r1 && g.key in r2
    requires OutcomeAt(sel, outcomes, r1, g) && OutcomeAt(sel, outcomes, r2, g)
    requires forall d | d in Deps(sel, g) :: HasFailed(r1, d) <==> HasFailed(r2, d)
    ensures SameClass(r1[g.key], r2[g.key])
  {
    if d :| d in Deps(sel, g) && HasFailed(r1, d) {
      assert HasFailed(r2, d);
    } else {
      assert forall d | d in Deps(sel, g) :: !HasFailed(r2, d);
    }
  }

  // Confluence: whatever order completions arrive in, each gate ends in the
  // same class with the same exit code.
  lemma OutcomeUnique<K(!new)>(sel: seq<Gate<K>>, outcomes: Outcomes<K>, r1: map<K, Row<K>>, r2: map<K, Row<K>>)
    requires UniqueKeys(sel) && Acyclic(DepGraph(sel))
    requires ParallelOutcome(sel, outcomes, r1) && ParallelOutcome(sel, outcomes, r2)
    ensures r1.Keys == r2.Keys && forall k | k in r1 :: SameClass(r1[k], r2[k])
  {
    var differ := set k | k in r1 && !SameClass(r1[k], r2[k]);
    if differ != {} {
      var g := SinkGate(sel, differ);
      forall d | d in Deps(sel, g) ensures HasFailed(r1, d) <==> HasFailed(r2, d) {
        assert d !in differ && d in Keys(sel);
      }
      assert OutcomeAt(sel, outcomes, r1, g) && OutcomeAt(sel, outcomes, r2, g);
      SameBelowSameHere(sel, outcomes, r1, r2, g);
      assert false;
    }
    forall k | k in r1 ensures SameClass(r1[k], r2[k]) {
      assert k !in differ;
    }
  }

  lemma RunsConfluent<K(!new)>(sel: seq<Gate<K>>, outcomes: Outcomes<K>, steps1: seq<Step<K>>, s1: State<K>,
                               steps2: seq<Step<K>>, s2: State<K>)
    requires UniqueKeys(sel) && Acyclic(DepGraph(sel))
    requires IsRun(sel, outcomes, Init(sel), steps1, s1) && IsFinal(s1)
    requires IsRun(sel, outcomes, Init(sel), steps2, s2) && IsFinal(s2)
    ensures s1.results.Keys == s2.results.Keys == Keys(sel)
    ensures forall k | k in s1.results :: SameClass(s1.results[k], s2.results[k])
  {
    InitInv(sel, outcomes);
    RunKeepsInv(sel, outcomes, Init(sel), steps1, s1);
    RunKeepsInv(sel, outcomes, Init(sel), steps2, s2);
    FinalIsParallelOutcome(sel, outcomes, s1);
    FinalIsParallelOutcome(sel, outcomes, s2);
    OutcomeUnique(sel, outcomes, s1.results, s2.results);
  }

  // ----- The loop ends exactly when dependencies are acyclic -----

  ghost predicate CanFinish<K(!new)>(sel: seq<Gate<K>>, outcomes: Outcomes<K>, s: State<K>) {
    exists steps, s' :: IsRun(sel, outcomes, s, steps, s') && IsFinal(s')
  }

  lemma RunCons<K(!new)>(sel: seq<Gate<K>>, outcomes: Outcomes<K>, s: State<K>, step: Step<K>, steps: seq<Step<K>>, s': State<K>)
    requires Enabled(sel, s, step) && IsRun(sel, outcomes, Apply(outcomes, s, step), steps, s')
    ensures IsRun(sel, outcomes, s, [step] + steps, s')
  {
    assert ([step] + steps)[1..] == steps;
  }

  lemma {:induction false} AcyclicFinishes<K(!new)>(sel: seq<Gate<K>>, outcomes: Outcomes<K>, s: State<K>)
      returns (steps: seq<Step<K>>, s': State<K>)
    requires UniqueKeys(sel) && Acyclic(DepGraph(sel)) && Inv(sel, outcomes, s)
    ensures IsRun(sel, outcomes, s, steps, s') && IsFinal(s')
    decreases Remaining(s)
  {
    if IsFinal(s) {
      steps, s' := [], s;
    } else {
      var step := Progress(sel, outcomes, s);
      StepLowersRemaining(sel, outcomes, s, step);
      InvKept(sel, outcomes, s, step);
      var rest;
      rest, s' := AcyclicFinishes(sel, outcomes, Apply(outcomes, s, step));
      RunCons(sel, outcomes, s, step, rest, s');
      steps := [step] + rest;
    }
  }

  function AllPass<K>(): Outcomes<K> {
    k => RunResult(false, None, Some(0))
  }

  lemma StuckNotReady<K(!new)>(sel: seq<Gate<K>>, stuck: set<K>, s: State<K>, g: Gate<K>)
    requires Partition(sel, s) && WaitOnEachOther(sel, stuck)
    requires forall h | h in sel && h.key in stuck :: h in s.pending
    requires g in sel && g.key in stuck
    ensures !IsReady(sel, s.results, g)
  {
    assert WaitsInside(sel, stuck, g);
    var d :| d in Deps(sel, g) && d in stuck;
    var h :| h in sel && h.key == d;
    assert h in s.pending && !HasPassed(s.results, d);
  }

  // When every gate would pass, the gates on a dependency cycle wait forever.
  lemma {:induction false} CycleWaits<K(!new)>(sel: seq<Gate<K>>, stuck: set<K>, s: State<K>, steps: seq<Step<K>>, s': State<K>)
    requires UniqueKeys(sel) && Inv(sel, AllPass(), s) && WaitOnEachOther(sel, stuck)
    requires forall g | g in sel && g.key in stuck :: g in s.pending
    requires forall k | k in s.results :: s.results[k].status == Pass
    requires IsRun(sel, AllPass(), s, steps, s')
    ensures forall g | g in sel && g.key in stuck :: g in s'.pending
    decreases |steps|
  {
    if steps != [] {
      InvKept(sel, AllPass(), s, steps[0]);
      if steps[0].StartGate? && steps[0].g.key in stuck {
        StuckNotReady(sel, stuck, s, steps[0].g);
        assert false;
      }
      CycleWaits(sel, stuck, Apply(AllPass(), s, steps[0]), steps[1..], s');
    }
  }

  lemma CyclicNeverFinishes<K(!new)>(sel: seq<Gate<K>>)
    requires UniqueKeys(sel) && !Acyclic(DepGraph(sel))
    ensures !CanFinish(sel, AllPass(), Init(sel))
  {
    var stuck, g := CyclicHasWaiters(sel);
    InitInv(sel, AllPass());
    forall steps, s' | IsRun(sel, AllPass(), Init(sel), steps, s') ensures !IsFinal(s') {
      CycleWaits(sel, stuck, Init(sel), steps, s');
      assert g in s'.pending;
    }
  }

  lemma FinishesIffAcyclic<K(!new)>(sel: seq<Gate<K>>)
    requires UniqueKeys(sel)
    ensures (forall outcomes: Outcomes<K> :: CanFinish(sel, outcomes, Init(sel))) <==> Acyclic(DepGraph(sel))
  {
    if Acyclic(DepGraph(sel)) {
      forall outcomes: Outcomes<K> ensures CanFinish(sel, outcomes, Init(sel)) {
        InitInv(sel, outcomes);
        var steps, s' := AcyclicFinishes(sel, outcomes, Init(sel));
      }
    } else {
      CyclicNeverFinishes(sel);
    }
  }

  // ----- The loop -----

  // What one completed run announced: starts in dependency order, each selected
  // gate started exactly when it was not skipped, and ends as recorded.
  predicate Announced<K(==)>(sel: seq<Gate<K>>, results: map<K, Row<K>>, log: seq<Event<K>>) {
    && StartsInOrder(sel, log)
    && EndsRecorded(results, log)
    && forall g | g in sel && g.key in results :: Started(g.key) in log <==> !results[g.key].status.Blocked?
  }

  predicate Extends<K(==)>(snapshot: map<K, Row<K>>, results: map<K, Row<K>>) {
    forall k | k in snapshot :: k in results && results[k] == snapshot[k]
  }

  // A scan has dealt with gate g: it is skipped, collected, or neither blocked
  // nor ready by the results at the start.
  predicate Scanned<K(==)>(sel: seq<Gate<K>>, results: map<K, Row<K>>, pending: set<Gate<K>>, ready: seq<Gate<K>>, g: Gate<K>) {
    g in pending && g !in ready ==> !IsReady(sel, results, g) && forall d | d in Deps(sel, g) :: !HasFailed(results, d)
  }

  // Skips the gate if a dependency failed and says whether to collect it otherwise.
  method ScanOne<K(==,!new)>(sel: seq<Gate<K>>, outcomes: Outcomes<K>, results: map<K, Row<K>>, before: State<K>, g: Gate<K>)
      returns (s: State<K>, collect: bool)
    requires UniqueKeys(sel) && Inv(sel, outcomes, before) && Extends(results, before.results)
    ensures Inv(sel, outcomes, s) && s.inFlight == before.inFlight && Extends(results, s.results)
    ensures s.pending == before.pending || s.pending == before.pending - {g}
    ensures collect ==> g in s.pending && IsReady(sel, results, g)
    ensures !collect ==> Scanned(sel, results, s.pending, [], g)
  {
    s, collect := before, false;
    if g in before.pending {
      var failed := FirstFailed(Deps(sel, g), results);
      if failed.Some? {
        var step := SkipGate(g, failed.value);
        InvKept(sel, outcomes, before, step);
        ResultsExtend(sel, outcomes, before, step);
        s := Apply(outcomes, before, step);
      } else {
        collect := IsReady(sel, results, g);
      }
    }
  }

  // The scan over pending gates: dependencies are looked up in the results as
  // they stood when the iteration began.
  method SkipBlockedAndCollectReady<K(==,!new)>(sel: seq<Gate<K>>, outcomes: Outcomes<K>, before: State<K>)
      returns (s: State<K>, ready: seq<Gate<K>>)
    requires UniqueKeys(sel) && Inv(sel, outcomes, before)
    ensures Inv(sel, outcomes, s) && s.inFlight == before.inFlight
    ensures s.pending <= before.pending && Extends(before.results, s.results)
    ensures Distinct(ready) && forall g | g in ready :: g in s.pending && IsReady(sel, before.results, g)
    ensures forall g | g in s.pending && g !in ready ::
              !IsReady(sel, before.results, g) && forall d | d in Deps(sel, g) :: !HasFailed(before.results, d)
  {
    s, ready := before, [];
    for i := 0 to |sel|
      invariant Inv(sel, outcomes, s) && s.inFlight == before.inFlight
      invariant s.pending <= before.pending && Extends(before.results, s.results)
      invariant Distinct(ready)
      invariant forall g | g in ready :: g in sel[..i] && g in s.pending && IsReady(sel, before.results, g)
      invariant forall g | g in sel[..i] :: Scanned(sel, before.results, s.pending, ready, g)
    {
      var g := sel[i];
      assert sel[..i + 1] == sel[..i] + [g];
      NotYetScanned(sel, i);
      var collect;
      s, collect := ScanOne(sel, outcomes, before.results, s, g);
      if collect {
        ready := ready + [g];
      }
    }
    assert sel[..|sel|] == sel;
    assert forall g | g in s.pending :: Scanned(sel, before.results, s.pending, ready, g);
  }

  lemma NotYetScanned<K(!new)>(sel: seq<Gate<K>>, i: nat)
    requires UniqueKeys(sel) && i < |sel|
    ensures sel[i] !in sel[..i]
  {
  }

  method StartReady<K(==,!new)>(sel: seq<Gate<K>>, outcomes: Outcomes<K>, before: State<K>, ready: seq<Gate<K>>)
      returns (s: State<K>)
    requires UniqueKeys(sel) && Inv(sel, outcomes, before) && Distinct(ready)
    requires forall g | g in ready :: g in before.pending && IsReady(sel, before.results, g)
    ensures Inv(sel, outcomes, s) && s.results == before.results
    ensures s.pending == before.pending - Elements(ready) && s.inFlight == before.inFlight + Elements(ready)
  {
    s := before;
    for i := 0 to |ready|
      invariant Inv(sel, outcomes, s) && s.results == before.results
      invariant s.pending == before.pending - Elements(ready[..i]) && s.inFlight == before.inFlight + Elements(ready[..i])
    {
      assert ready[..i + 1] == ready[..i] + [ready[i]];
      assert ready[i] !in ready[..i];
      InvKept(sel, outcomes, s, StartGate(ready[i]));
      s := Apply(outcomes, s, StartGate(ready[i]));
    }
    assert ready[..|ready|] == ready;
  }

  // Results keep what was recorded, and the finished gates got their own rows.
  predicate RecordsOwnRows<K(==)>(outcomes: Outcomes<K>, before: map<K, Row<K>>, finished: set<Gate<K>>, after: map<K, Row<K>>) {
    && Extends(before, after)
    && (forall g | g in finished :: g.key in after && RowReports(g, outcomes(g.key), after[g.key]))
    && (forall k | k in after :: k in before || exists g | g in finished :: g.key == k)
  }

  method FinishOne<K(==,!new)>(sel: seq<Gate<K>>, outcomes: Outcomes<K>, before: State<K>, g: Gate<K>) returns (s: State<K>)
    requires UniqueKeys(sel) && Inv(sel, outcomes, before) && g in before.inFlight
    ensures Inv(sel, outcomes, s)
    ensures s.pending == before.pending && s.inFlight == before.inFlight - {g}
    ensures s.results == before.results[g.key := OwnRow(g, outcomes(g.key))] && g.key !in before.results
  {
    InvKept(sel, outcomes, before, FinishGate(g));
    s := Apply(outcomes, before, FinishGate(g));
  }

  lemma OwnRowRecorded<K(!new)>(outcomes: Outcomes<K>, before: map<K, Row<K>>, finished: set<Gate<K>>, after: map<K, Row<K>>, g: Gate<K>)
    requires RecordsOwnRows(outcomes, before, finished, after) && g.key !in after
    ensures RecordsOwnRows(outcomes, before, finished + {g}, after[g.key := OwnRow(g, outcomes(g.key))])
  {
    OwnRowReports(g, outcomes(g.key), OwnRow(g, outcomes(g.key)));
    var longer := after[g.key := OwnRow(g, outcomes(g.key))];
    forall k | k in longer ensures k in before || exists h | h in finished + {g} :: h.key == k {
      if k == g.key {
        assert g in finished + {g};
      } else if k !in before {
        var h :| h in finished && h.key == k;
        assert h in finished + {g};
      }
    }
  }

  // Records the completed gates, in whatever order the pool reports them: each
  // gets its own row, no other row changes.
  method RecordDone<K(==,!new)>(sel: seq<Gate<K>>, outcomes: Outcomes<K>, before: State<K>, finished: set<Gate<K>>)
      returns (s: State<K>)
    requires UniqueKeys(sel) && Inv(sel, outcomes, before) && finished <= before.inFlight
    ensures Inv(sel, outcomes, s)
    ensures s.pending == before.pending && s.inFlight == before.inFlight - finished
    ensures RecordsOwnRows(outcomes, before.results, finished, s.results)
  {
    s := before;
    var todo := finished;
    while todo != {}
      invariant todo <= s.inFlight && todo <= finished && Inv(sel, outcomes, s)
      invariant s.pending == before.pending && s.inFlight - todo == before.inFlight - finished
      invariant RecordsOwnRows(outcomes, before.results, finished - todo, s.results)
      decreases todo
    {
      var g :| g in todo;
      OwnRowRecorded(outcomes, before.results, finished - todo, s.results, g);
      s := FinishOne(sel, outcomes, s, g);
      assert finished - (todo - {g}) == finished - todo + {g};
      todo := todo - {g};
    }
    assert finished - todo == finished;
  }

  method RunParallel<K(==,!new)>(sel: seq<Gate<K>>, outcomes: Outcomes<K>)
      returns (results: map<K, Row<K>>, log: seq<Event<K>>)
    requires UniqueKeys(sel) && Acyclic(DepGraph(sel))
    ensures ParallelOutcome(sel, outcomes, results)
    ensures results.Keys == Keys(sel) && forall g | g in sel :: Explained(sel, outcomes, results, g)
    ensures Announced(sel, results, log)
  {
    var s := Init(sel);
    InitInv(sel, outcomes);
    while s.pending != {} || s.inFlight != {}
      invariant Inv(sel, outcomes, s)
      decreases Remaining(s)
    {
      var scanned, ready := SkipBlockedAndCollectReady(sel, outcomes, s);
      var started := StartReady(sel, outcomes, scanned, ready);
      ScanMakesProgress(sel, s, scanned, ready, started);
      if started.inFlight != {} {
        var finished :| finished <= started.inFlight && finished != {};
        var recorded := RecordDone(sel, outcomes, started, finished);
        FewerInFlight(started.inFlight, finished);
        s := recorded;
      } else {
        s := started;
      }
    }
    FinalIsParallelOutcome(sel, outcomes, s);
    ParallelExplained(sel, outcomes, s.results);
    return s.results, s.log;
  }

  lemma FewerInFlight<K(!new)>(inFlight: set<Gate<K>>, finished: set<Gate<K>>)
    requires finished <= inFlight && finished != {}
    ensures |inFlight - finished| < |inFlight|
  {
    assert inFlight == (inFlight - finished) + finished;
  }

  // With nothing in flight, a scan that collects nothing skips something.
  lemma ScanNotIdle<K(!new)>(sel: seq<Gate<K>>, before: State<K>, left: set<Gate<K>>) returns (g: Gate<K>)
    requires UniqueKeys(sel) && Acyclic(DepGraph(sel))
    requires Partition(sel, before) && before.inFlight == {} && before.pending != {}
    requires forall h | h in left ::
               !IsReady(sel, before.results, h) && forall d | d in Deps(sel, h) :: !HasFailed(before.results, d)
    ensures g in before.pending && g !in left
  {
    g := UnblockedPending(sel, before);
    if g in left {
      assert false;
    }
  }

  // One scan starts or skips something unless a gate is still in flight.
  lemma ScanMakesProgress<K(!new)>(sel: seq<Gate<K>>, before: State<K>, scanned: State<K>, ready: seq<Gate<K>>, started: State<K>)
    requires UniqueKeys(sel) && Acyclic(DepGraph(sel))
    requires Partition(sel, before) && !IsFinal(before)
    requires scanned.inFlight == before.inFlight && scanned.pending <= before.pending
    requires forall g | g in ready :: g in scanned.pending
    requires forall g | g in scanned.pending && g !in ready ::
               !IsReady(sel, before.results, g) && forall d | d in Deps(sel, g) :: !HasFailed(before.results, d)
    requires started.pending == scanned.pending - Elements(ready)
    requires started.inFlight == scanned.inFlight + Elements(ready)
    ensures Remaining(started) <= Remaining(before)
    ensures started.inFlight == {} ==> Remaining(started) < Remaining(before)
  {
    MovedSizes(scanned.pending, scanned.inFlight, Elements(ready));
    SubsetSize(scanned.pending, before.pending);
    if started.inFlight == {} {
      CollectedElement(ready);
      var g := ScanNotIdle(sel, before, scanned.pending);
      SubsetSize(scanned.pending, before.pending - {g});
    }
  }

  lemma CollectedElement<T(!new)>(ready: seq<T>)
    ensures ready != [] ==> ready[0] in Elements(ready)
  {
  }

  lemma MovedSizes<T>(pending: set<T>, inFlight: set<T>, moved: set<T>)
    requires moved <= pending
    ensures |pending - moved| == |pending| - |moved|
    ensures |inFlight + moved| <= |inFlight| + |moved|
  {
    assert |pending - moved| + |moved| == |pending| by {
      assert pending == (pending - moved) + moved;
    }
  }

  lemma SubsetSize<T>(s: set<T>, t: set<T>)
    requires s <= t
    ensures |s| <= |t|
  {
    assert t == s + (t - s);
  }
}
