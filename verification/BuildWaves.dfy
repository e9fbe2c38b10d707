/** The prebuild waves of scripts/build_full.py and the batched authority build
    of scripts/run_full_refs_coverage.py. */
module BuildWaves {
  import opened Graphs
  import opened ImportWalks

  const AUTHORITY_BUILD_BATCH_SIZE: nat := 32

  // The slices s[0:n], s[n:2n], ... of a list.
  function Slices<T>(s: seq<T>, n: nat): seq<seq<T>>
    requires n > 0
    decreases |s|
  {
    if s == [] then []
    else if |s| <= n then [s]
    else [s[..n]] + Slices(s[n..], n)
  }

  function Flatten<T>(ss: seq<seq<T>>): seq<T> {
    if ss == [] then [] else ss[0] + Flatten(ss[1..])
  }

  lemma {:induction false} SlicesFlatten<T>(s: seq<T>, n: nat)
    requires n > 0
    ensures Flatten(Slices(s, n)) == s
    decreases |s|
  {
    if s != [] {
      if |s| <= n {
        assert Flatten([s]) == s + Flatten<T>([]);
      } else {
        SlicesFlatten(s[n..], n);
        assert Slices(s, n)[1..] == Slices(s[n..], n);
      }
    }
  }

  lemma {:induction false} SliceSizes<T>(s: seq<T>, n: nat)
    requires n > 0
    ensures forall k :: 0 <= k < |Slices(s, n)| ==> 1 <= |Slices(s, n)[k]| <= n
    ensures forall k :: 0 <= k < |Slices(s, n)| - 1 ==> |Slices(s, n)[k]| == n
    decreases |s|
  {
    if |s| > n {
      SliceSizes(s[n..], n);
    }
  }

  lemma {:induction false} FlattenSplits<T>(ss: seq<seq<T>>, k: nat)
    requires k <= |ss|
    ensures Flatten(ss) == Flatten(ss[..k]) + Flatten(ss[k..])
  {
    if k == 0 {
      assert ss[..0] == [] && ss[0..] == ss;
    } else {
      FlattenSplits(ss[1..], k - 1);
      assert ss[..k][1..] == ss[1..][..k - 1];
      assert ss[1..][k - 1..] == ss[k..];
    }
  }

  lemma {:induction false} FlattenMembers<T>(ss: seq<seq<T>>, x: T)
    requires x in Flatten(ss)
    ensures exists k :: 0 <= k < |ss| && x in ss[k]
  {
    if x in ss[0] {
    } else {
      FlattenMembers(ss[1..], x);
      var k :| 0 <= k < |ss[1..]| && x in ss[1..][k];
      assert x in ss[k + 1];
    }
  }

  // Where the elements of one slice stand in the whole.
  lemma FlattenPosition<T>(ss: seq<seq<T>>, k: nat, j: nat)
    requires k < |ss| && j < |ss[k]|
    ensures Flatten(ss[..k + 1]) == Flatten(ss[..k]) + ss[k]
    ensures |Flatten(ss[..k])| + j < |Flatten(ss[..k + 1])| <= |Flatten(ss)|
    ensures Flatten(ss)[|Flatten(ss[..k])| + j] == ss[k][j]
    ensures Flatten(ss)[..|Flatten(ss[..k])| + j] <= Flatten(ss[..k + 1])
  {
    FlattenSplits(ss[..k + 1], k);
    assert ss[..k + 1][..k] == ss[..k];
    assert ss[..k + 1][k..] == [ss[k]];
    assert Flatten([ss[k]]) == ss[k] + Flatten<T>([]);
    FlattenSplits(ss, k + 1);
  }

  lemma FlattenPrefixShorter<T>(ss: seq<seq<T>>, k: nat, k': nat)
    requires k <= k' <= |ss|
    ensures |Flatten(ss[..k])| <= |Flatten(ss[..k'])|
  {
    FlattenSplits(ss[..k'], k);
    assert ss[..k'][..k] == ss[..k];
  }

  // ----- Waves -----

  // The plan builds exactly the closures, each module once, in waves of at most
  // `size` of which only the last may be shorter; and whenever m imports a local
  // module d, the wave of d is not later than the wave of m.
  ghost predicate IsWavePlan(g: Graph<Module>, targets: seq<Module>, size: nat, waves: seq<seq<Module>>) {
    && Distinct(Flatten(waves))
    && Elements(Flatten(waves)) == Closure(g, Elements(targets))
    && (forall k :: 0 <= k < |waves| ==> 1 <= |waves[k]| <= size)
    && (forall k :: 0 <= k < |waves| - 1 ==> |waves[k]| == size)
    && (forall k, m, d :: 0 <= k < |waves| && m in waves[k] && d in g && Edge(g, m, d) ==>
          exists k' :: 0 <= k' <= k && d in waves[k'])
    && (forall k, k', m :: 0 <= k < |waves| && 0 <= k' < |waves| && m in waves[k] && m in waves[k'] ==> k == k')
  }

  lemma SlicedOrderIsWavePlan(g: Graph<Module>, targets: seq<Module>, modules: seq<Module>, size: nat)
    requires size > 0
    requires Distinct(modules) && DependencyFirst(g, modules)
    requires Elements(modules) == Closure(g, Elements(targets))
    ensures IsWavePlan(g, targets, size, Slices(modules, size))
  {
    var waves := Slices(modules, size);
    SlicesFlatten(modules, size);
    SliceSizes(modules, size);
    forall k, m, d | 0 <= k < |waves| && m in waves[k] && d in g && Edge(g, m, d)
      ensures exists k' :: 0 <= k' <= k && d in waves[k']
    {
      ImportInEarlierWave(g, waves, k, m, d);
    }
    forall k, k', m | 0 <= k < |waves| && 0 <= k' < |waves| && m in waves[k] && m in waves[k'] ensures k == k' {
      if k < k' { SharedModuleRepeats(waves, k, k', m); }
      if k' < k { SharedModuleRepeats(waves, k', k, m); }
    }
  }

  lemma ImportInEarlierWave(g: Graph<Module>, waves: seq<seq<Module>>, k: nat, m: Module, d: Module)
    requires DependencyFirst(g, Flatten(waves))
    requires k < |waves| && m in waves[k] && d in g && Edge(g, m, d)
    ensures exists k' :: 0 <= k' <= k && d in waves[k']
  {
    var j :| 0 <= j < |waves[k]| && waves[k][j] == m;
    FlattenPosition(waves, k, j);
    var i := |Flatten(waves[..k])| + j;
    assert d in Flatten(waves)[..i];
    FlattenMembers(waves[..k + 1], d);
    var k' :| 0 <= k' < |waves[..k + 1]| && d in waves[..k + 1][k'];
    assert d in waves[k'];
  }

  lemma SharedModuleRepeats(waves: seq<seq<Module>>, k: nat, k': nat, m: Module)
    requires k < k' < |waves| && m in waves[k] && m in waves[k']
    ensures !Distinct(Flatten(waves))
  {
    var j :| 0 <= j < |waves[k]| && waves[k][j] == m;
    var j' :| 0 <= j' < |waves[k']| && waves[k'][j'] == m;
    FlattenPosition(waves, k, j);
    FlattenPosition(waves, k', j');
    FlattenPrefixShorter(waves, k + 1, k');
  }

  // Appends what is not scheduled yet.
  method Schedule(g: Graph<Module>, order: seq<Module>, modules: seq<Module>, scheduled: set<Module>)
      returns (modules': seq<Module>, scheduled': set<Module>)
    requires Settled(g, modules, scheduled) && DependencyFirst(g, order) && Elements(order) <= g.Keys
    ensures Settled(g, modules', scheduled') && scheduled' == scheduled + Elements(order)
  {
    modules', scheduled' := modules, scheduled;
    for i := 0 to |order|
      invariant Settled(g, modules', scheduled')
      invariant scheduled' == scheduled + Elements(order[..i])
    {
      var m := order[i];
      assert order[..i + 1] == order[..i] + [m];
      if m !in scheduled' {
        assert m in Elements(order);
        AppendKeepsSettled(g, modules', scheduled', order, i);
        modules' := modules' + [m];
        scheduled' := scheduled' + {m};
      }
    }
    assert order[..|order|] == order;
  }

  method NormalizationBatches(g: Graph<Module>, targets: seq<Module>, batchSize: nat)
      returns (r: Result<seq<seq<Module>>>)
    requires batchSize > 0
    ensures r.ImportCycle? <==> exists t :: t in targets && CycleReachable(g, t)
    ensures r.Ok? ==> IsWavePlan(g, targets, batchSize, r.value)
  {
    var modules: seq<Module> := [];
    var scheduled: set<Module> := {};
    for t := 0 to |targets|
      invariant Settled(g, modules, scheduled)
      invariant scheduled == Closure(g, Elements(targets[..t]))
      invariant forall u :: u in targets[..t] ==> !CycleReachable(g, u)
    {
      var order := LocalImportOrder(g, targets[t]);
      if order.ImportCycle? {
        assert targets[t] in targets && CycleReachable(g, targets[t]);
        return ImportCycle;
      }
      modules, scheduled := Schedule(g, order.value, modules, scheduled);
      assert targets[..t + 1] == targets[..t] + [targets[t]];
      assert Elements(targets[..t + 1]) == Elements(targets[..t]) + {targets[t]};
    }
    assert targets[..|targets|] == targets;
    assert Elements(modules) == scheduled;
    SlicedOrderIsWavePlan(g, targets, modules, batchSize);
    return Ok(Slices(modules, batchSize));
  }

  lemma AppendKeepsSettled(g: Graph<Module>, modules: seq<Module>, scheduled: set<Module>, order: seq<Module>, i: nat)
    requires Settled(g, modules, scheduled) && i < |order| && order[i] !in scheduled && order[i] in g
    requires DependencyFirst(g, order)
    requires Elements(order[..i]) <= scheduled
    ensures Settled(g, modules + [order[i]], scheduled + {order[i]})
  {
    var longer := modules + [order[i]];
    forall k, b | 0 <= k < |longer| && b in g && Edge(g, longer[k], b) ensures b in longer[..k] {
      if k < |modules| {
        assert longer[..k] == modules[..k];
      } else {
        assert longer[..k] == modules;
        assert b in order[..i] && b in Elements(order[..i]);
      }
    }
  }

  // The authority build passes every root once, in order, in bounded commands.
  function AuthorityBuildCommands(lake: string, roots: seq<Module>): seq<seq<string>> {
    var modules := seq(|roots|, i requires 0 <= i < |roots| => "+" + roots[i] + ":olean");
    var batches := Slices(modules, AUTHORITY_BUILD_BATCH_SIZE);
    seq(|batches|, k requires 0 <= k < |batches| => [lake, "-Kjobs=1", "build"] + batches[k])
  }

  function Targets(commands: seq<seq<string>>): seq<seq<string>>
    requires forall c :: c in commands ==> |c| >= 3
  {
    seq(|commands|, k requires 0 <= k < |commands| => assert commands[k] in commands; commands[k][3..])
  }

  lemma AuthorityBuildCoversRoots(lake: string, roots: seq<Module>)
    ensures var commands := AuthorityBuildCommands(lake, roots);
            && (forall c :: c in commands ==> 4 <= |c| <= 35 && c[..3] == [lake, "-Kjobs=1", "build"])
            && (forall k :: 0 <= k < |commands| - 1 ==> |commands[k]| == 35)
            && |Flatten(Targets(commands))| == |roots|
            && (forall i :: 0 <= i < |roots| ==> Flatten(Targets(commands))[i] == "+" + roots[i] + ":olean")
  {
    var modules := seq(|roots|, i requires 0 <= i < |roots| => "+" + roots[i] + ":olean");
    var batches := Slices(modules, AUTHORITY_BUILD_BATCH_SIZE);
    var commands := AuthorityBuildCommands(lake, roots);
    SlicesFlatten(modules, AUTHORITY_BUILD_BATCH_SIZE);
    SliceSizes(modules, AUTHORITY_BUILD_BATCH_SIZE);
    forall c | c in commands ensures 4 <= |c| <= 35 && c[..3] == [lake, "-Kjobs=1", "build"] {
      var k :| 0 <= k < |commands| && commands[k] == c;
    }
    assert Targets(commands) == batches;
  }
}
