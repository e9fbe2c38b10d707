/** One invocation of scripts/run_gates.py: selection, prerequisite abort,
    optional clean, the gate run and the verdict. */
module GateRunner {
  import opened Options
  import opened Graphs
  import opened GateModel
  import opened GateScheduler
  import opened GateSequential
  import GateTable

  const EXIT_OK := 0
  const EXIT_GATE_FAILED := 1
  const EXIT_PASSED_PARTIAL := 2
  const EXIT_PREREQ_ABORT := 3

  // The value of --shard; Malformed is text that is not K/N.
  datatype Shard = NoShard | Malformed | Part(index: nat, total: nat)

  // Group aliases are already resolved; an empty set means the option is absent.
  datatype Args<K> = Args(
    quick: bool, clean: bool, groups: set<string>, gates: set<K>,
    shard: Shard, jobs: Option<int>, parallel: bool)

  datatype FinalStatus<K> =
    | Ran(status: Status<K>)
    | SkippedByGroup | SkippedByQuick | SkippedByGate | SkippedByShard | SkippedOtherwise
    | AbortedMissing(tools: set<string>)
    | NotRun
    | SkippedCleanFailed

  datatype FinalRow<K> = FinalRow(key: K, status: FinalStatus<K>, exitCode: Option<int>)

  datatype Report<K> = Report(exitCode: int, rows: seq<FinalRow<K>>, started: set<K>)

  // ----- Selection -----

  function Keep<T>(s: seq<T>, p: T -> bool): seq<T> {
    if s == [] then []
    else (if p(s[0]) then [s[0]] else []) + Keep(s[1..], p)
  }

  // The elements whose position, counting from `at`, is `index` modulo `total`.
  function EveryNth<T>(s: seq<T>, index: nat, total: nat, at: nat): seq<T>
    requires total > 0
  {
    if s == [] then []
    else (if at % total == index then [s[0]] else []) + EveryNth(s[1..], index, total, at + 1)
  }

  predicate InGroup<K>(args: Args<K>, g: Gate<K>) { args.groups == {} || g.group in args.groups }
  predicate InSpeed<K>(args: Args<K>, g: Gate<K>) { !args.quick || !g.slow }
  predicate InGates<K(==)>(args: Args<K>, g: Gate<K>) { args.gates == {} || g.key in args.gates }

  function Filtered<K(==)>(table: seq<Gate<K>>, args: Args<K>): seq<Gate<K>> {
    var byGroup := Keep(table, g => InGroup(args, g));
    var bySpeed := Keep(byGroup, g => InSpeed(args, g));
    Keep(bySpeed, g => InGates(args, g))
  }

  predicate ValidArgs<K>(table: seq<Gate<K>>, args: Args<K>) {
    && args.groups <= (set g | g in table :: g.group)
    && (args.shard == NoShard || (args.shard.Part? && 1 <= args.shard.index <= args.shard.total))
    && (args.jobs.Some? ==> args.jobs.value >= 1)
  }

  function Selected<K(==)>(table: seq<Gate<K>>, args: Args<K>): seq<Gate<K>>
    requires ValidArgs(table, args)
  {
    match args.shard
    case NoShard => Filtered(table, args)
    case Part(index, total) => EveryNth(Filtered(table, args), index - 1, total, 0)
  }

  // `sub` is `full` with some elements left out; `at` says where each one stood.
  predicate Embeds<T(==)>(sub: seq<T>, full: seq<T>, at: seq<nat>) {
    && |at| == |sub|
    && (forall i | 0 <= i < |sub| :: at[i] < |full| && sub[i] == full[at[i]])
    && (forall i, j | 0 <= i < j < |sub| :: at[i] < at[j])
  }

  function Shifted(at: seq<nat>, keep: bool): seq<nat> {
    (if keep then [0] else []) + seq(|at|, i requires 0 <= i < |at| => at[i] + 1)
  }

  lemma ShiftedPositions(at: seq<nat>, keep: bool)
    ensures forall p: nat :: p in Shifted(at, keep) <==> if p == 0 then keep else p - 1 in at
  {
    var shifted := seq(|at|, i requires 0 <= i < |at| => at[i] + 1);
    forall p: nat ensures p in shifted <==> p > 0 && p - 1 in at {
      if p > 0 && p - 1 in at {
        var i :| 0 <= i < |at| && at[i] == p - 1;
        assert shifted[i] == p;
      }
    }
  }

  lemma EmbedsPrepend<T>(sub: seq<T>, full: seq<T>, at: seq<nat>, keep: bool)
    requires full != [] && Embeds(sub, full[1..], at)
    ensures Embeds((if keep then [full[0]] else []) + sub, full, Shifted(at, keep))
  {
  }

  lemma {:induction false} KeepEmbeds<T>(s: seq<T>, p: T -> bool) returns (at: seq<nat>)
    ensures Embeds(Keep(s, p), s, at)
    ensures forall x | x in s :: x in Keep(s, p) <==> p(x)
  {
    if s == [] {
      at := [];
    } else {
      at := KeepEmbeds(s[1..], p);
      EmbedsPrepend(Keep(s[1..], p), s, at, p(s[0]));
      at := Shifted(at, p(s[0]));
      assert s == [s[0]] + s[1..];
    }
  }

  lemma {:induction false} EveryNthEmbeds<T>(s: seq<T>, index: nat, total: nat, from: nat) returns (at: seq<nat>)
    requires total > 0
    ensures Embeds(EveryNth(s, index, total, from), s, at)
    ensures forall p: nat :: p in at <==> p < |s| && (from + p) % total == index
    decreases |s|
  {
    if s == [] {
      at := [];
    } else {
      at := EveryNthEmbeds(s[1..], index, total, from + 1);
      EmbedsPrepend(EveryNth(s[1..], index, total, from + 1), s, at, from % total == index);
      ShiftedPositions(at, from % total == index);
      at := Shifted(at, from % total == index);
    }
  }

  lemma EmbedsTransitive<T>(a: seq<T>, b: seq<T>, c: seq<T>, ab: seq<nat>, bc: seq<nat>) returns (ac: seq<nat>)
    requires Embeds(a, b, ab) && Embeds(b, c, bc)
    ensures Embeds(a, c, ac)
  {
    ac := seq(|ab|, i requires 0 <= i < |ab| => bc[ab[i]]);
  }

  lemma FilteredEmbeds<K(!new)>(table: seq<Gate<K>>, args: Args<K>) returns (at: seq<nat>)
    ensures Embeds(Filtered(table, args), table, at)
    ensures forall g | g in table ::
              g in Filtered(table, args) <==> InGroup(args, g) && InSpeed(args, g) && InGates(args, g)
  {
    var byGroup := Keep(table, g => InGroup(args, g));
    var bySpeed := Keep(byGroup, g => InSpeed(args, g));
    var at1 := KeepEmbeds(table, g => InGroup(args, g));
    var at2 := KeepEmbeds(byGroup, g => InSpeed(args, g));
    var at3 := KeepEmbeds(bySpeed, g => InGates(args, g));
    at := EmbedsTransitive(bySpeed, byGroup, table, at2, at1);
    at := EmbedsTransitive(Filtered(table, args), bySpeed, table, at3, at);
  }

  lemma SelectedEmbeds<K(!new)>(table: seq<Gate<K>>, args: Args<K>) returns (at: seq<nat>)
    requires ValidArgs(table, args)
    ensures Embeds(Selected(table, args), table, at)
    ensures forall g | g in table ::
              g in Filtered(table, args) <==> InGroup(args, g) && InSpeed(args, g) && InGates(args, g)
  {
    at := FilteredEmbeds(table, args);
    if args.shard.Part? {
      var at4 := EveryNthEmbeds(Filtered(table, args), args.shard.index - 1, args.shard.total, 0);
      at := EmbedsTransitive(Selected(table, args), Filtered(table, args), table, at4, at);
    }
  }

  lemma {:induction false} KeepSame<T>(s: seq<T>, p: T -> bool, q: T -> bool)
    requires forall x | x in s :: p(x) <==> q(x)
    ensures Keep(s, p) == Keep(s, q)
  {
    if s != [] {
      KeepSame(s[1..], p, q);
    }
  }

  // The filters do not look at the shard.
  lemma FilteredSame<K(!new)>(table: seq<Gate<K>>, args: Args<K>, shard: Shard)
    ensures Filtered(table, args.(shard := shard)) == Filtered(table, args)
  {
    var other := args.(shard := shard);
    KeepSame(table, g => InGroup(args, g), g => InGroup(other, g));
    var byGroup := Keep(table, g => InGroup(args, g));
    KeepSame(byGroup, g => InSpeed(args, g), g => InSpeed(other, g));
    KeepSame(Keep(byGroup, g => InSpeed(args, g)), g => InGates(args, g), g => InGates(other, g));
  }

  // Without a shard exactly the gates that pass the three filters are selected.
  lemma FilteredMeans<K(!new)>(table: seq<Gate<K>>, args: Args<K>)
    requires ValidArgs(table, args)
    ensures Selected(table, args.(shard := NoShard)) == Filtered(table, args)
    ensures forall g | g in table :: g in Filtered(table, args) <==>
              && (args.groups == {} || g.group in args.groups)
              && (args.quick ==> !g.slow)
              && (args.gates == {} || g.key in args.gates)
  {
    FilteredSame(table, args, NoShard);
    var at := FilteredEmbeds(table, args);
  }

  // The positions of the filtered table a shard takes, in order.
  lemma ShardTakes<K(!new)>(table: seq<Gate<K>>, args: Args<K>, k: nat, total: nat) returns (at: seq<nat>)
    requires 1 <= k <= total && ValidArgs(table, args.(shard := Part(k, total)))
    ensures Embeds(Selected(table, args.(shard := Part(k, total))), Filtered(table, args), at)
    ensures forall p: nat :: p in at <==> p < |Filtered(table, args)| && p % total == k - 1
  {
    FilteredSame(table, args, Part(k, total));
    at := EveryNthEmbeds(Filtered(table, args), k - 1, total, 0);
  }

  // The shards K/N for K from 1 to N split the filtered table: each gate of it is
  // in exactly one of them, the one its position says.
  lemma ShardsPartition<K(!new)>(table: seq<Gate<K>>, args: Args<K>, total: nat, p: nat, k: nat)
    requires UniqueKeys(table) && 1 <= k <= total && ValidArgs(table, args.(shard := Part(k, total)))
    requires p < |Filtered(table, args)|
    ensures Filtered(table, args)[p] in Selected(table, args.(shard := Part(k, total))) <==> k == p % total + 1
  {
    var full, sub := Filtered(table, args), Selected(table, args.(shard := Part(k, total)));
    FilteredDistinct(table, args);
    var at := ShardTakes(table, args, k, total);
    if full[p] in sub {
      var i :| 0 <= i < |sub| && sub[i] == full[p];
      assert full[at[i]] == full[p] && at[i] in at;
    }
    if p % total == k - 1 {
      assert p in at;
      var i :| 0 <= i < |at| && at[i] == p;
      assert sub[i] in sub;
    }
  }

  lemma FilteredDistinct<K(!new)>(table: seq<Gate<K>>, args: Args<K>)
    requires UniqueKeys(table)
    ensures UniqueKeys(Filtered(table, args))
  {
    var at := FilteredEmbeds(table, args);
  }

  // ----- What the runner relies on survives every selection -----

  predicate WellOrdered<K(==)>(sel: seq<Gate<K>>) {
    UniqueKeys(sel) && DependencyOrdered(sel) && NoSkippableDependency(sel)
  }

  lemma SubDeps<K(!new)>(sub: seq<Gate<K>>, full: seq<Gate<K>>, g: Gate<K>)
    requires forall h | h in sub :: h in full
    ensures forall d | d in Deps(sub, g) :: d in Deps(full, g)
  {
    forall d | d in Deps(sub, g) ensures d in Keys(full) {
      var h :| h in sub && h.key == d;
    }
  }

  lemma WellOrderedSub<K(!new)>(sub: seq<Gate<K>>, full: seq<Gate<K>>, at: seq<nat>)
    requires WellOrdered(full) && Embeds(sub, full, at)
    ensures WellOrdered(sub)
  {
    forall h | h in sub ensures h in full {
      var i :| 0 <= i < |sub| && sub[i] == h;
      assert full[at[i]] == h;
    }
    forall i, d | 0 <= i < |sub| && d in Deps(sub, sub[i]) ensures Earlier(sub, i, d) {
      SubDeps(sub, full, sub[i]);
      assert Earlier(full, at[i], d);
      var m :| 0 <= m < at[i] && full[m].key == d;
      var h :| h in sub && h.key == d;
      var j :| 0 <= j < |sub| && sub[j] == h;
      assert at[j] == m;
      assert j < i;
    }
    forall g, h | g in sub && h in sub && h.key in Deps(sub, g) ensures !h.allowSkipCode2 {
      SubDeps(sub, full, g);
    }
  }

  lemma EverySelectionWellOrdered<K(!new)>(table: seq<Gate<K>>, args: Args<K>)
    requires WellOrdered(table) && ValidArgs(table, args)
    ensures WellOrdered(Selected(table, args)) && Acyclic(DepGraph(Selected(table, args)))
    ensures forall g | g in Selected(table, args) :: g in table
  {
    var sel := Selected(table, args);
    var at := SelectedEmbeds(table, args);
    WellOrderedSub(sel, table, at);
    OrderedIsAcyclic(sel);
    forall g | g in sel ensures g in table {
      var i :| 0 <= i < |sel| && sel[i] == g;
      assert table[at[i]] == g;
    }
  }

  // ----- Verdict -----

  // The gate's command ran and exited 0, or 2 where a missing runner may be skipped.
  predicate Good<K>(g: Gate<K>, outcomes: Outcomes<K>) {
    var res := outcomes(g.key);
    !res.timedOut && res.launchError.None? && (res.exitCode == Some(0) || (res.exitCode == Some(2) && g.allowSkipCode2))
  }

  lemma GoodRow<K>(g: Gate<K>, outcomes: Outcomes<K>)
    ensures Good(g, outcomes) <==> Acceptable(true, OwnRow(g, outcomes(g.key)).status)
  {
    OwnRowReports(g, outcomes(g.key), OwnRow(g, outcomes(g.key)));
  }

  predicate ToolsFound<K(==)>(sel: seq<Gate<K>>, found: set<string>) {
    forall g | g in sel :: g.tools <= found
  }

  // The exit code, from the inputs alone: it does not depend on the job count
  // or on the order in which gates complete.
  function Verdict<K(==)>(table: seq<Gate<K>>, args: Args<K>, found: set<string>, clean: RunResult, outcomes: Outcomes<K>): int {
    if !ValidArgs(table, args) then EXIT_PREREQ_ABORT
    else
      var sel := Selected(table, args);
      if !ToolsFound(sel, found) then EXIT_PREREQ_ABORT
      else if args.clean && clean.exitCode != Some(0) then EXIT_GATE_FAILED
      else if sel == [] || exists g | g in sel :: !Good(g, outcomes) then EXIT_GATE_FAILED
      else if args.quick then EXIT_PASSED_PARTIAL
      else EXIT_OK
  }

  // The options are usable.
  predicate Usable<K(==)>(table: seq<Gate<K>>, args: Args<K>) {
    && (forall group | group in args.groups :: exists g | g in table :: g.group == group)
    && !args.shard.Malformed?
    && (args.shard.Part? ==> 1 <= args.shard.index && args.shard.index <= args.shard.total)
    && (args.jobs.Some? ==> args.jobs.value > 0)
  }

  lemma UsableIffValid<K(!new)>(table: seq<Gate<K>>, args: Args<K>)
    ensures ValidArgs(table, args) <==> Usable(table, args)
  {
    var groups := set g | g in table :: g.group;
    if Usable(table, args) {
      forall group | group in args.groups ensures group in groups {
        var g :| g in table && g.group == group;
      }
    }
    if ValidArgs(table, args) {
      forall group | group in args.groups ensures exists g | g in table :: g.group == group {
        assert group in groups;
      }
    }
  }

  // Every selected gate was launched, finished in time and exited 0, or 2 where
  // that is allowed.
  predicate AllRanWell<K(==)>(sel: seq<Gate<K>>, outcomes: Outcomes<K>) {
    forall g | g in sel ::
      && !outcomes(g.key).timedOut
      && outcomes(g.key).launchError == None
      && (outcomes(g.key).exitCode == Some(0) || (g.allowSkipCode2 && outcomes(g.key).exitCode == Some(2)))
  }

  // The four exit codes, each with exactly the inputs that give it.
  predicate IsExitCode<K(==)>(table: seq<Gate<K>>, args: Args<K>, found: set<string>, clean: RunResult, outcomes: Outcomes<K>, code: int)
    requires ValidArgs(table, args) <==> Usable(table, args)
  {
    var startable := Usable(table, args) && forall g, tool | g in Selected(table, args) && tool in g.tools :: tool in found;
    var passes := startable && (args.clean ==> clean.exitCode == Some(0))
                  && Selected(table, args) != [] && AllRanWell(Selected(table, args), outcomes);
    && (code == 3 <==> !startable)
    && (code == 0 <==> passes && !args.quick)
    && (code == 2 <==> passes && args.quick)
    && (code == 1 <==> startable && !passes)
  }

  lemma VerdictMeans<K(!new)>(table: seq<Gate<K>>, args: Args<K>, found: set<string>, clean: RunResult, outcomes: Outcomes<K>)
    ensures ValidArgs(table, args) <==> Usable(table, args)
    ensures IsExitCode(table, args, found, clean, outcomes, Verdict(table, args, found, clean, outcomes))
  {
    UsableIffValid(table, args);
    if ValidArgs(table, args) {
      var sel := Selected(table, args);
      assert ToolsFound(sel, found) <==> forall g, tool | g in sel && tool in g.tools :: tool in found;
      assert AllRanWell(sel, outcomes) <==> forall g | g in sel :: Good(g, outcomes);
    }
  }

  // If every selected gate's own outcome is good, nothing is blocked.
  lemma GoodRunsAll<K(!new)>(sel: seq<Gate<K>>, outcomes: Outcomes<K>, results: map<K, Row<K>>)
    requires WellOrdered(sel) && ParallelOutcome(sel, outcomes, results)
    requires forall g | g in sel :: Good(g, outcomes)
    ensures forall g | g in sel :: results[g.key] == OwnRow(g, outcomes(g.key))
  {
    OrderedIsAcyclic(sel);
    var blocked := set k | k in results && results[k].status.Blocked?;
    if blocked != {} {
      var g := SinkGate(sel, blocked);
      assert OutcomeAt(sel, outcomes, results, g);
      OwnRowPlain(g, outcomes(g.key));
      var d := results[g.key].status.dependency;
      assert d in Deps(sel, g) && HasFailed(results, d) && d !in blocked;
      var h :| h in sel && h.key == d;
      assert OutcomeAt(sel, outcomes, results, h);
      OwnRowPlain(h, outcomes(h.key));
      assert false;
    }
    forall g | g in sel ensures results[g.key] == OwnRow(g, outcomes(g.key)) {
      assert g.key !in blocked;
      assert OutcomeAt(sel, outcomes, results, g);
    }
  }

  // The verdict over recorded rows is the verdict over own outcomes.
  lemma RowsDecide<K(!new)>(sel: seq<Gate<K>>, outcomes: Outcomes<K>, results: map<K, Row<K>>)
    requires WellOrdered(sel) && ParallelOutcome(sel, outcomes, results)
    ensures (forall g | g in sel :: Acceptable(true, results[g.key].status)) <==> (forall g | g in sel :: Good(g, outcomes))
    ensures (forall g | g in sel :: Good(g, outcomes)) ==> forall g | g in sel :: !results[g.key].status.Blocked?
  {
    forall g | g in sel ensures Acceptable(true, results[g.key].status) ==> Good(g, outcomes) {
      assert OutcomeAt(sel, outcomes, results, g);
    }
    if forall g | g in sel :: Good(g, outcomes) {
      GoodRunsAll(sel, outcomes, results);
    }
  }

  // ----- Rows -----

  function UnselectedStatus<K(==)>(args: Args<K>, g: Gate<K>): FinalStatus<K> {
    if !InGroup(args, g) then SkippedByGroup
    else if args.quick && g.slow then SkippedByQuick
    else if !InGates(args, g) then SkippedByGate
    else if args.shard != NoShard then SkippedByShard
    else SkippedOtherwise
  }

  function MissingTools<K(==)>(sel: seq<Gate<K>>, found: set<string>): set<string> {
    set g, t | g in sel && t in g.tools && t !in found :: t
  }

  // One row per table gate, in table order.
  predicate RowsFor<K(==)>(table: seq<Gate<K>>, rows: seq<FinalRow<K>>) {
    |rows| == |table| && forall i | 0 <= i < |table| :: rows[i].key == table[i].key
  }

  // The first filter, in the order they are applied, that drops the gate.
  predicate DroppedBy<K(==)>(args: Args<K>, g: Gate<K>, status: FinalStatus<K>) {
    var grouped := args.groups == {} || g.group in args.groups;
    var quick := args.quick && g.slow;
    var named := args.gates == {} || g.key in args.gates;
    && (status == SkippedByGroup <==> !grouped)
    && (status == SkippedByQuick <==> grouped && quick)
    && (status == SkippedByGate <==> grouped && !quick && !named)
    && (status == SkippedByShard <==> grouped && !quick && named)
  }

  // A gate left out of a run names the first filter that dropped it.
  predicate SkipsExplained<K(==)>(table: seq<Gate<K>>, args: Args<K>, sel: seq<Gate<K>>, rows: seq<FinalRow<K>>)
    requires RowsFor(table, rows)
  {
    forall i | 0 <= i < |table| && table[i] !in sel ::
      rows[i].exitCode == None && DroppedBy(args, table[i], rows[i].status)
  }

  predicate ResultsReported<K(==)>(table: seq<Gate<K>>, sel: seq<Gate<K>>, results: map<K, Row<K>>, rows: seq<FinalRow<K>>)
    requires RowsFor(table, rows)
  {
    forall i | 0 <= i < |table| && table[i] in sel ::
      table[i].key in results && rows[i] == FinalRow(table[i].key, Ran(results[table[i].key].status), results[table[i].key].exitCode)
  }

  // Nothing but a filter leaves a gate out, so a reason is always found.
  lemma AlwaysExplained<K(!new)>(table: seq<Gate<K>>, args: Args<K>, g: Gate<K>)
    requires ValidArgs(table, args) && g in table && g !in Selected(table, args)
    ensures DroppedBy(args, g, UnselectedStatus(args, g))
  {
    var at := SelectedEmbeds(table, args);
  }

  method FinalRows<K(==,!new)>(table: seq<Gate<K>>, args: Args<K>, sel: seq<Gate<K>>, results: map<K, Row<K>>)
      returns (rows: seq<FinalRow<K>>)
    requires UniqueKeys(table) && ValidArgs(table, args) && sel == Selected(table, args)
    requires results.Keys == Keys(sel) && forall g | g in sel :: g in table
    ensures RowsFor(table, rows) && SkipsExplained(table, args, sel, rows) && ResultsReported(table, sel, results, rows)
  {
    rows := [];
    for i := 0 to |table|
      invariant |rows| == i && forall j | 0 <= j < i :: rows[j].key == table[j].key
      invariant forall j | 0 <= j < i && table[j] !in sel ::
                  rows[j].exitCode == None && DroppedBy(args, table[j], rows[j].status)
      invariant forall j | 0 <= j < i && table[j] in sel ::
                  table[j].key in results && rows[j] == FinalRow(table[j].key, Ran(results[table[j].key].status), results[table[j].key].exitCode)
    {
      var g := table[i];
      if g.key in results {
        assert g in sel by {
          var h :| h in sel && h.key == g.key;
          SameKeySameGate(table, g, h);
        }
        rows := rows + [FinalRow(g.key, Ran(results[g.key].status), results[g.key].exitCode)];
      } else {
        assert g !in sel;
        AlwaysExplained(table, args, g);
        rows := rows + [FinalRow(g.key, UnselectedStatus(args, g), None)];
      }
    }
  }

  lemma MissingOfGate<K(!new)>(sel: seq<Gate<K>>, found: set<string>, g: Gate<K>)
    requires g in sel
    ensures g.tools * MissingTools(sel, found) == g.tools - found
    ensures g.tools - found == {} <==> g.tools <= found
  {
    forall t | t in g.tools - found ensures t in MissingTools(sel, found) {
    }
    if g.tools - found == {} {
      assert forall t | t in g.tools && t !in found :: t in g.tools - found;
    }
  }

  // On a prerequisite abort nothing ran and every selected gate says why.
  predicate AbortExplained<K(==)>(table: seq<Gate<K>>, args: Args<K>, sel: seq<Gate<K>>, found: set<string>, rows: seq<FinalRow<K>>)
    requires RowsFor(table, rows)
  {
    forall i | 0 <= i < |table| && table[i] in sel ::
      rows[i] == FinalRow(table[i].key,
                          if table[i].tools <= found then NotRun else AbortedMissing(table[i].tools - found), None)
  }

  method AbortRows<K(==,!new)>(table: seq<Gate<K>>, args: Args<K>, sel: seq<Gate<K>>, missing: set<string>, ghost found: set<string>)
      returns (rows: seq<FinalRow<K>>)
    requires UniqueKeys(table) && ValidArgs(table, args) && sel == Selected(table, args)
    requires missing == MissingTools(sel, found) && forall g | g in sel :: g in table
    ensures RowsFor(table, rows) && SkipsExplained(table, args, sel, rows) && AbortExplained(table, args, sel, found, rows)
  {
    rows := [];
    for i := 0 to |table|
      invariant |rows| == i && forall j | 0 <= j < i :: rows[j].key == table[j].key
      invariant forall j | 0 <= j < i && table[j] !in sel ::
                  rows[j].exitCode == None && DroppedBy(args, table[j], rows[j].status)
      invariant forall j | 0 <= j < i && table[j] in sel ::
                  rows[j] == FinalRow(table[j].key,
                                      if table[j].tools <= found then NotRun else AbortedMissing(table[j].tools - found), None)
    {
      var row := AbortRow(table, args, sel, missing, found, table[i]);
      rows := rows + [row];
    }
  }

  method AbortRow<K(==,!new)>(table: seq<Gate<K>>, args: Args<K>, sel: seq<Gate<K>>, missing: set<string>, ghost found: set<string>, g: Gate<K>)
      returns (row: FinalRow<K>)
    requires UniqueKeys(table) && ValidArgs(table, args) && sel == Selected(table, args)
    requires missing == MissingTools(sel, found) && (forall h | h in sel :: h in table) && g in table
    ensures row.key == g.key && row.exitCode == None
    ensures g !in sel ==> DroppedBy(args, g, row.status)
    ensures g in sel ==> row.status == if g.tools <= found then NotRun else AbortedMissing(g.tools - found)
  {
    var selectedKeys := set h | h in sel :: h.key;
    if g.key !in selectedKeys {
      assert g !in sel;
      AlwaysExplained(table, args, g);
      return FinalRow(g.key, UnselectedStatus(args, g), None);
    }
    assert g in sel by {
      var h :| h in sel && h.key == g.key;
      SameKeySameGate(table, g, h);
    }
    var needs := g.tools * missing;
    MissingOfGate(sel, found, g);
    return FinalRow(g.key, if needs != {} then AbortedMissing(needs) else NotRun, None);
  }

  // ----- The whole invocation -----

  function AutomaticJobs<K(==)>(sel: seq<Gate<K>>, cpus: nat): nat {
    if exists g | g in sel :: g.group == "proofs" then 1
    else if cpus <= 1 then 1 else 2
  }

  function Jobs<K(==)>(args: Args<K>, sel: seq<Gate<K>>, cpus: nat): int {
    if args.jobs.Some? then args.jobs.value
    else if args.parallel then AutomaticJobs(sel, cpus)
    else 1
  }

  function StartedKeys<K(==)>(log: seq<Event<K>>): set<K> {
    set e | e in log && e.Started? :: e.key
  }

  // Whichever branch runs, the results are those of the parallel loop.
  method RunSelected<K(==,!new)>(sel: seq<Gate<K>>, jobs: int, outcomes: Outcomes<K>)
      returns (results: map<K, Row<K>>, started: set<K>)
    requires WellOrdered(sel) && Acyclic(DepGraph(sel))
    ensures ParallelOutcome(sel, outcomes, results)
    ensures forall g | g in sel :: Explained(sel, outcomes, results, g)
    ensures started == set g | g in sel && !results[g.key].status.Blocked? :: g.key
  {
    if jobs > 1 {
      var log;
      results, log := RunParallel(sel, outcomes);
      StartedFromLog(sel, results, log);
      started := set g | g in sel && g.key in StartedKeys(log) :: g.key;
    } else {
      var order;
      results, order := RunSequential(sel, outcomes);
      ToleranceIdle(sel, outcomes, results);
      StrictOrderIsParallel(sel, outcomes, results);
      StartedInOrder(sel, results, order);
      started := set g | g in sel && g.key in order :: g.key;
    }
    ParallelExplained(sel, outcomes, results);
  }

  lemma StartedInOrder<K(!new)>(sel: seq<Gate<K>>, results: map<K, Row<K>>, order: seq<K>)
    requires StartedUnblocked(sel, |sel|, results, order)
    ensures forall g | g in sel :: g.key in results && (g.key in order <==> !results[g.key].status.Blocked?)
  {
    forall g | g in sel ensures g.key in results && (g.key in order <==> !results[g.key].status.Blocked?) {
      var i :| 0 <= i < |sel| && sel[i] == g;
    }
  }

  lemma StartedFromLog<K(!new)>(sel: seq<Gate<K>>, results: map<K, Row<K>>, log: seq<Event<K>>)
    requires Announced(sel, results, log)
    ensures forall g | g in sel && g.key in results :: g.key in StartedKeys(log) <==> !results[g.key].status.Blocked?
  {
    forall g | g in sel && g.key in results ensures g.key in StartedKeys(log) <==> Started(g.key) in log {
      if g.key in StartedKeys(log) {
        var e :| e in log && e.Started? && e.key == g.key;
        assert e == Started(g.key);
      }
    }
  }

  // The rows report exactly one parallel outcome of the selection.
  ghost predicate Reported<K(!new)>(table: seq<Gate<K>>, sel: seq<Gate<K>>, outcomes: Outcomes<K>, rows: seq<FinalRow<K>>) {
    RowsFor(table, rows) &&
    exists results: map<K, Row<K>> ::
      && results.Keys == Keys(sel) && (forall g | g in sel :: Explained(sel, outcomes, results, g))
      && ResultsReported(table, sel, results, rows)
  }

  lemma GoodMeansAllStarted<K(!new)>(sel: seq<Gate<K>>, outcomes: Outcomes<K>, results: map<K, Row<K>>, started: set<K>)
    requires WellOrdered(sel) && ParallelOutcome(sel, outcomes, results)
    requires started == set g | g in sel && !results[g.key].status.Blocked? :: g.key
    ensures (forall g | g in sel :: Acceptable(true, results[g.key].status)) <==> (forall g | g in sel :: Good(g, outcomes))
    ensures (forall g | g in sel :: Good(g, outcomes)) ==> started == Keys(sel)
  {
    RowsDecide(sel, outcomes, results);
  }

  lemma ReportedRows<K(!new)>(table: seq<Gate<K>>, sel: seq<Gate<K>>, outcomes: Outcomes<K>, results: map<K, Row<K>>, rows: seq<FinalRow<K>>)
    requires ParallelOutcome(sel, outcomes, results)
    requires RowsFor(table, rows) && ResultsReported(table, sel, results, rows)
    ensures Reported(table, sel, outcomes, rows)
  {
    ParallelExplained(sel, outcomes, results);
  }

  // Started are exactly the gates whose rows are not skips.
  predicate StartsReported<K(==)>(table: seq<Gate<K>>, rows: seq<FinalRow<K>>, started: set<K>)
    requires RowsFor(table, rows)
  {
    forall i | 0 <= i < |table| ::
      table[i].key in started <==> rows[i].status.Ran? && !rows[i].status.status.Blocked?
  }

  lemma StartedRows<K(!new)>(table: seq<Gate<K>>, args: Args<K>, sel: seq<Gate<K>>, results: map<K, Row<K>>, rows: seq<FinalRow<K>>, started: set<K>)
    requires UniqueKeys(table) && (forall g | g in sel :: g in table) && results.Keys == Keys(sel)
    requires started == set g | g in sel && !results[g.key].status.Blocked? :: g.key
    requires RowsFor(table, rows) && SkipsExplained(table, args, sel, rows) && ResultsReported(table, sel, results, rows)
    ensures StartsReported(table, rows, started)
  {
    forall i | 0 <= i < |table| ensures table[i].key in started <==> rows[i].status.Ran? && !rows[i].status.status.Blocked? {
      if table[i] !in sel {
        forall g | g in sel ensures g.key != table[i].key {
          if g.key == table[i].key {
            SameKeySameGate(table, g, table[i]);
          }
        }
      }
    }
  }

  // The run proper and its overall verdict.
  method Execute<K(==,!new)>(table: seq<Gate<K>>, args: Args<K>, sel: seq<Gate<K>>, jobs: int, outcomes: Outcomes<K>)
      returns (rows: seq<FinalRow<K>>, started: set<K>, pass: bool)
    requires WellOrdered(table) && ValidArgs(table, args) && sel == Selected(table, args)
    ensures RowsFor(table, rows) && SkipsExplained(table, args, sel, rows) && Reported(table, sel, outcomes, rows)
    ensures pass <==> sel != [] && forall g | g in sel :: Good(g, outcomes)
    ensures pass ==> started == Keys(sel)
    ensures StartsReported(table, rows, started)
  {
    EverySelectionWellOrdered(table, args);
    var results, ran := RunSelected(sel, jobs, outcomes);
    started := ran;
    GoodMeansAllStarted(sel, outcomes, results, started);
    rows := FinalRows(table, args, sel, results);
    ReportedRows(table, sel, outcomes, results, rows);
    StartedRows(table, args, sel, results, rows, started);
    pass := |sel| > 0 && forall g | g in sel :: Acceptable(true, results[g.key].status);
  }

  function NothingRan<K(==)>(code: int, rows: seq<FinalRow<K>>): Report<K> {
    Report(code, rows, {})
  }

  method Run<K(==,!new)>(table: seq<Gate<K>>, args: Args<K>, found: set<string>, cpus: nat, clean: RunResult, outcomes: Outcomes<K>)
      returns (report: Report<K>)
    requires WellOrdered(table)
    ensures report.exitCode == Verdict(table, args, found, clean, outcomes)
    ensures ValidArgs(table, args) ==> RowsFor(table, report.rows)
    // A success means every selected gate really ran, and there was one.
    ensures report.exitCode == EXIT_OK || report.exitCode == EXIT_PASSED_PARTIAL ==>
              && ValidArgs(table, args) && Selected(table, args) != []
              && report.started == Keys(Selected(table, args))
              && SkipsExplained(table, args, Selected(table, args), report.rows)
    // Once the run proper starts, the rows are one parallel outcome.
    ensures ValidArgs(table, args) && ToolsFound(Selected(table, args), found) && (args.clean ==> clean.exitCode == Some(0)) ==>
              Reported(table, Selected(table, args), outcomes, report.rows) && StartsReported(table, report.rows, report.started)
    // After a failed clean nothing is run.
    ensures ValidArgs(table, args) && ToolsFound(Selected(table, args), found) && args.clean && clean.exitCode != Some(0) ==>
              report.started == {} && forall i | 0 <= i < |table| :: report.rows[i] == FinalRow(table[i].key, SkippedCleanFailed, None)
    // An abort means nothing ran.
    ensures report.exitCode == EXIT_PREREQ_ABORT ==> report.started == {}
    ensures report.exitCode == EXIT_PREREQ_ABORT && ValidArgs(table, args) ==>
              AbortExplained(table, args, Selected(table, args), found, report.rows)
  {
    var groups := set g | g in table :: g.group;
    if !(args.groups <= groups) {
      return NothingRan(EXIT_PREREQ_ABORT, []);
    }
    if args.shard.Malformed? || (args.shard.Part? && !(1 <= args.shard.index <= args.shard.total)) {
      return NothingRan(EXIT_PREREQ_ABORT, []);
    }
    if args.jobs.Some? && args.jobs.value < 1 {
      return NothingRan(EXIT_PREREQ_ABORT, []);
    }
    var sel := Selected(table, args);
    var missing := MissingTools(sel, found);
    MissingMeansNotFound(sel, found);
    if missing != {} {
      EverySelectionWellOrdered(table, args);
      var rows := AbortRows(table, args, sel, missing, found);
      return NothingRan(EXIT_PREREQ_ABORT, rows);
    }
    if args.clean && clean.exitCode != Some(0) {
      var rows := seq(|table|, i requires 0 <= i < |table| => FinalRow(table[i].key, SkippedCleanFailed, None));
      return NothingRan(EXIT_GATE_FAILED, rows);
    }
    var rows, started, pass := Execute(table, args, sel, Jobs(args, sel, cpus), outcomes);
    if !pass {
      return Report(EXIT_GATE_FAILED, rows, started);
    }
    return Report(if args.quick then EXIT_PASSED_PARTIAL else EXIT_OK, rows, started);
  }

  lemma MissingMeansNotFound<K(!new)>(sel: seq<Gate<K>>, found: set<string>)
    ensures MissingTools(sel, found) == {} <==> ToolsFound(sel, found)
  {
    if !ToolsFound(sel, found) {
      var g :| g in sel && !(g.tools <= found);
      var t :| t in g.tools && t !in found;
      assert t in MissingTools(sel, found);
    }
  }

  // The shipped table: every selection of it, every outcome and every job count.
  method RunShipped(args: Args<GateTable.GateKey>, found: set<string>, cpus: nat, clean: RunResult, outcomes: Outcomes<GateTable.GateKey>)
      returns (report: Report<GateTable.GateKey>)
    ensures ValidArgs(GateTable.Table(), args) <==> Usable(GateTable.Table(), args)
    ensures IsExitCode(GateTable.Table(), args, found, clean, outcomes, report.exitCode)
    ensures report.exitCode == EXIT_OK ==>
              && Selected(GateTable.Table(), args) != []
              && AllRanWell(Selected(GateTable.Table(), args), outcomes)
              && report.started == Keys(Selected(GateTable.Table(), args))
  {
    GateTable.ShippedTableWellOrdered();
    VerdictMeans(GateTable.Table(), args, found, clean, outcomes);
    report := Run(GateTable.Table(), args, found, cpus, clean, outcomes);
  }

  // Gates run side by side only when asked to: by a job count, or by --parallel
  // on a machine of several processors with no proof gate selected.
  lemma JobsMean<K(!new)>(args: Args<K>, sel: seq<Gate<K>>, cpus: nat)
    ensures args.jobs.Some? ==> Jobs(args, sel, cpus) == args.jobs.value
    ensures args.jobs.None? ==>
              && Jobs(args, sel, cpus) in {1, 2}
              && (Jobs(args, sel, cpus) == 2 <==> args.parallel && cpus >= 2 && forall g | g in sel :: g.group != "proofs")
  {
  }
}
