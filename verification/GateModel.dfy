/** Gates, their outcomes and the rows scripts/run_gates.py reports. */
module GateModel {
  import opened Options
  import opened Graphs

  datatype Gate<K> = Gate(
    key: K,
    group: string,
    slow: bool,
    tools: set<string>,
    dependsOn: seq<K>,
    allowSkipCode2: bool)

  // What running one gate's command reported.
  datatype RunResult = RunResult(timedOut: bool, launchError: Option<string>, exitCode: Option<int>)

  // Every gate has one fixed outcome, whenever it is run.
  type Outcomes<!K> = K -> RunResult

  datatype Status<K> =
    | Pass
    | Fail
    | Timeout
    | LaunchFailure(detail: string)
    | RunnerUnavailable
    | Blocked(dependency: K)

  datatype Row<K> = Row(key: K, status: Status<K>, exitCode: Option<int>)

  function OwnRow<K>(g: Gate<K>, res: RunResult): Row<K> {
    if res.timedOut then Row(g.key, Timeout, None)
    else if res.launchError.Some? then Row(g.key, LaunchFailure(res.launchError.value), None)
    else if res.exitCode == Some(0) then Row(g.key, Pass, Some(0))
    else if res.exitCode == Some(2) && g.allowSkipCode2 then Row(g.key, RunnerUnavailable, Some(2))
    else Row(g.key, Fail, res.exitCode)
  }

  predicate RanClean(res: RunResult) {
    !res.timedOut && res.launchError.None? && res.exitCode == Some(0)
  }

  // What the row of a gate that ran says of its command, status by status.
  predicate RowReports<K(==)>(g: Gate<K>, res: RunResult, row: Row<K>) {
    && row.key == g.key
    && !row.status.Blocked?
    && (row.status == Timeout <==> res.timedOut)
    && (row.status.LaunchFailure? <==> !res.timedOut && res.launchError.Some?)
    && (row.status.LaunchFailure? ==> res.launchError == Some(row.status.detail))
    && (row.status == Pass <==> !res.timedOut && res.launchError.None? && res.exitCode == Some(0))
    && (row.status == RunnerUnavailable <==>
          !res.timedOut && res.launchError.None? && res.exitCode == Some(2) && g.allowSkipCode2)
    && (row.status == Fail <==>
          !res.timedOut && res.launchError.None? && res.exitCode != Some(0)
          && (res.exitCode == Some(2) ==> !g.allowSkipCode2))
    && row.exitCode == if res.timedOut || res.launchError.Some? then None else res.exitCode
  }

  lemma OwnRowReports<K>(g: Gate<K>, res: RunResult, row: Row<K>)
    ensures row == OwnRow(g, res) <==> RowReports(g, res, row)
  {
    match row.status
    case Pass =>
    case Fail =>
    case Timeout =>
    case LaunchFailure(_) =>
    case RunnerUnavailable =>
    case Blocked(_) =>
  }

  // Rows agree up to which failed dependency a blocked gate names.
  predicate SameClass<K(==)>(a: Row<K>, b: Row<K>) {
    a == b || (a.key == b.key && a.status.Blocked? && b.status.Blocked? && a.exitCode == b.exitCode)
  }

  // ----- Selections -----

  predicate UniqueKeys<K(==)>(sel: seq<Gate<K>>) {
    forall i, j | 0 <= i < j < |sel| :: sel[i].key != sel[j].key
  }

  function Keys<K>(sel: seq<Gate<K>>): set<K> {
    set g | g in sel :: g.key
  }

  function Restrict<K(==)>(deps: seq<K>, keys: set<K>): (r: seq<K>)
    ensures forall d | d in r :: d in deps && d in keys
    ensures forall d | d in deps && d in keys :: d in r
  {
    if deps == [] then []
    else if deps[0] in keys then [deps[0]] + Restrict(deps[1..], keys)
    else Restrict(deps[1..], keys)
  }

  // The dependencies that count: those that are themselves selected.
  function Deps<K(==)>(sel: seq<Gate<K>>, g: Gate<K>): seq<K> {
    Restrict(g.dependsOn, Keys(sel))
  }

  lemma SameKeySameGate<K>(sel: seq<Gate<K>>, g: Gate<K>, h: Gate<K>)
    requires UniqueKeys(sel) && g in sel && h in sel && g.key == h.key
    ensures g == h
  {
    var i :| 0 <= i < |sel| && sel[i] == g;
    var j :| 0 <= j < |sel| && sel[j] == h;
  }

  function DepGraphOf<K(==)>(gates: seq<Gate<K>>, keys: set<K>): Graph<K> {
    if gates == [] then map[]
    else DepGraphOf(gates[1..], keys)[gates[0].key := Restrict(gates[0].dependsOn, keys)]
  }

  // The selected gates with their selected dependencies.
  function DepGraph<K(==)>(sel: seq<Gate<K>>): Graph<K> {
    DepGraphOf(sel, Keys(sel))
  }

  lemma KeysOfCons<K>(gates: seq<Gate<K>>)
    requires gates != []
    ensures Keys(gates) == {gates[0].key} + Keys(gates[1..])
  {
    assert gates == [gates[0]] + gates[1..];
  }

  lemma {:induction false} DepGraphKeys<K>(gates: seq<Gate<K>>, keys: set<K>)
    ensures DepGraphOf(gates, keys).Keys == Keys(gates)
  {
    if gates != [] {
      DepGraphKeys(gates[1..], keys);
      KeysOfCons(gates);
    }
  }

  lemma {:induction false} DepGraphEntry<K>(gates: seq<Gate<K>>, keys: set<K>, i: nat)
    requires UniqueKeys(gates) && i < |gates|
    ensures gates[i].key in DepGraphOf(gates, keys)
    ensures DepGraphOf(gates, keys)[gates[i].key] == Restrict(gates[i].dependsOn, keys)
  {
    if i > 0 {
      DepGraphEntry(gates[1..], keys, i - 1);
    }
  }

  lemma DepGraphEdges<K>(sel: seq<Gate<K>>, g: Gate<K>)
    requires UniqueKeys(sel) && g in sel
    ensures DepGraph(sel).Keys == Keys(sel)
    ensures DepGraph(sel)[g.key] == Deps(sel, g)
  {
    DepGraphKeys(sel, Keys(sel));
    var i :| 0 <= i < |sel| && sel[i] == g;
    DepGraphEntry(sel, Keys(sel), i);
  }

  // One of the first n gates has this key.
  predicate Earlier<K(==)>(sel: seq<Gate<K>>, n: nat, k: K)
    requires n <= |sel|
  {
    exists j | 0 <= j < n :: sel[j].key == k
  }

  // Every selected dependency stands earlier in the selection.
  predicate DependencyOrdered<K(==)>(sel: seq<Gate<K>>) {
    forall i, d | 0 <= i < |sel| && d in Deps(sel, sel[i]) :: Earlier(sel, i, d)
  }

  // No gate that may exit 2 for a missing runner is depended upon.
  predicate NoSkippableDependency<K(==)>(sel: seq<Gate<K>>) {
    forall g, h | g in sel && h in sel && h.key in Deps(sel, g) :: !h.allowSkipCode2
  }

  lemma OrderedIsAcyclic<K(!new)>(sel: seq<Gate<K>>)
    requires UniqueKeys(sel) && DependencyOrdered(sel)
    ensures Acyclic(DepGraph(sel))
  {
    var dg := DepGraph(sel);
    DepGraphKeys(sel, Keys(sel));
    var order := seq(|sel|, i requires 0 <= i < |sel| => sel[i].key);
    forall i, b | 0 <= i < |order| && b in dg && Edge(dg, order[i], b) ensures b in order[..i] {
      DepGraphEntry(sel, Keys(sel), i);
      assert b in Deps(sel, sel[i]);
      assert Earlier(sel, i, b);
      var j :| 0 <= j < i && sel[j].key == b;
      assert order[..i][j] == b;
    }
    forall a | a in dg ensures !OnCycle(dg, a) {
      var h :| h in sel && h.key == a;
      var j :| 0 <= j < |sel| && sel[j] == h;
      assert order[j] == a;
      OrderedNotOnCycle(dg, order, a);
    }
  }

  // In any non-empty set of selected keys some gate depends on none of them.
  lemma SinkGate<K(!new)>(sel: seq<Gate<K>>, keys: set<K>) returns (g: Gate<K>)
    requires UniqueKeys(sel) && Acyclic(DepGraph(sel))
    requires keys != {} && keys <= Keys(sel)
    ensures g in sel && g.key in keys && forall d | d in Deps(sel, g) :: d !in keys
  {
    var k := AcyclicHasSink(DepGraph(sel), keys);
    g :| g in sel && g.key == k;
    DepGraphEdges(sel, g);
    forall d | d in Deps(sel, g) ensures d !in keys {
      assert Edge(DepGraph(sel), k, d);
    }
  }

  predicate WaitsInside<K(==)>(sel: seq<Gate<K>>, keys: set<K>, g: Gate<K>) {
    exists d | d in Deps(sel, g) :: d in keys
  }

  // Each gate whose key is in the set depends on another gate of the set.
  predicate WaitOnEachOther<K(==)>(sel: seq<Gate<K>>, keys: set<K>) {
    forall g {:trigger WaitsInside(sel, keys, g)} | g in sel :: g.key in keys ==> WaitsInside(sel, keys, g)
  }

  lemma CyclicHasWaiters<K(!new)>(sel: seq<Gate<K>>) returns (keys: set<K>, g: Gate<K>)
    requires UniqueKeys(sel) && !Acyclic(DepGraph(sel))
    ensures keys <= Keys(sel) && WaitOnEachOther(sel, keys)
    ensures g in sel && g.key in keys
  {
    DepGraphKeys(sel, Keys(sel));
    var a :| OnCycle(DepGraph(sel), a);
    keys := CycleHasNoSink(DepGraph(sel), a);
    g :| g in sel && g.key == a;
    forall h | h in sel && h.key in keys ensures WaitsInside(sel, keys, h) {
      DepGraphEdges(sel, h);
      assert !IsSink(DepGraph(sel), keys, h.key);
      var d :| d in keys && Edge(DepGraph(sel), h.key, d);
    }
  }
}
