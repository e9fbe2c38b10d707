/** The three walks over the Lean import graph: the depth-first dependency order
    of scripts/build_full.py, the level-by-level search of
    scripts/check_orphan_modules.py and the worklist of
    scripts/check_instructions_umbrella.py.  The graph maps every module that has
    a source file to the modules its import lines name, in file order. */
module ImportWalks {
  import opened Graphs

  type Module = string

  datatype Result<T> = Ok(value: T) | ImportCycle

  // Some module on an import cycle is reachable from the root.
  ghost predicate CycleReachable(g: Graph<Module>, root: Module) {
    exists m :: Reaches(g, root, m) && OnCycle(g, m)
  }

  // ----- Depth-first post-order -----

  class ImportWalk {
    const imports: Graph<Module>
    var ordered: seq<Module>
    var visited: set<Module>
    var visiting: set<Module>

    constructor (g: Graph<Module>)
      ensures Valid() && imports == g
      ensures ordered == [] && visited == {} && visiting == {}
    {
      imports := g;
      ordered, visited, visiting := [], {}, {};
    }

    ghost predicate Valid()
      reads this
    {
      && Settled(imports, ordered, visited)
      && visiting <= imports.Keys
      && visited !! visiting
    }

    // The modules being visited are the importers on the way to `m`.
    method Visit(m: Module) returns (ok: bool)
      requires Valid()
      requires LeadTo(imports, visiting, m)
      modifies this
      ensures ok ==> Valid() && visiting == old(visiting) && old(ordered) <= ordered
      ensures ok ==> visited == old(visited) + Closure(imports, {m})
      ensures !ok ==> CycleReachable(imports, m)
      decreases imports.Keys - visiting, 0
    {
      if m !in imports {
        ClosureLeast(imports, {m}, {});
        return true;
      }
      if m in visited {
        ClosureOfListed(imports, ordered, visited, m);
        return true;
      }
      if m in visiting {
        ReachesSelf(imports, m);
        return false;
      }
      PathsExtend(imports, visiting, m);
      visiting := visiting + {m};
      ok := VisitImports(m);
      if ok {
        FinishVisit(imports, ordered, visited, old(visited), m);
        AddThenRemove(old(visiting), m);
        visiting := visiting - {m};
        visited := visited + {m};
        ordered := ordered + [m];
      }
    }

    method VisitImports(m: Module) returns (ok: bool)
      requires Valid() && m in visiting && m in imports
      requires LeadToImports(imports, visiting, m)
      modifies this
      ensures ok ==> Valid() && visiting == old(visiting) && old(ordered) <= ordered
      ensures ok ==> ImportsDone(imports, m, |imports[m]|, old(visited), visited)
      ensures !ok ==> CycleReachable(imports, m)
      decreases imports.Keys - visiting, 1
    {
      var names := imports[m];
      for k := 0 to |names|
        invariant Valid() && visiting == old(visiting) && old(ordered) <= ordered
        invariant ImportsDone(imports, m, k, old(visited), visited)
      {
        assert Edge(imports, m, names[k]);
        ghost var sofar := visited;
        var seen := Visit(names[k]);
        if !seen {
          CycleThroughEdge(imports, m, names[k]);
          return false;
        }
        ImportDone(imports, m, k, old(visited), sofar, visited);
      }
      return true;
    }
  }

  // The modules listed so far, each once and after its local imports.
  ghost predicate Settled(g: Graph<Module>, ordered: seq<Module>, visited: set<Module>) {
    && (forall m :: m in visited <==> m in ordered)
    && Distinct(ordered)
    && DependencyFirst(g, ordered)
    && visited <= g.Keys
  }

  ghost predicate LeadTo(g: Graph<Module>, visiting: set<Module>, m: Module) {
    forall v :: v in visiting ==> exists n :: Edge(g, v, n) && Reaches(g, n, m)
  }

  lemma AddThenRemove(s: set<Module>, m: Module)
    requires m !in s
    ensures (s + {m}) - {m} == s
  {
  }

  ghost predicate LeadToImports(g: Graph<Module>, visiting: set<Module>, m: Module) {
    forall child | Edge(g, m, child) :: LeadTo(g, visiting, child)
  }

  // The first k imports of m are visited, and nothing outside its closure is new.
  ghost predicate ImportsDone(g: Graph<Module>, m: Module, k: nat, before: set<Module>, visited: set<Module>) {
    && m in g && k <= |g[m]|
    && before <= visited <= before + Closure(g, {m})
    && forall j | 0 <= j < k && g[m][j] in g :: g[m][j] in visited
  }

  lemma ImportDone(g: Graph<Module>, m: Module, k: nat, before: set<Module>, visited: set<Module>, after: set<Module>)
    requires ImportsDone(g, m, k, before, visited) && k < |g[m]|
    requires after == visited + Closure(g, {g[m][k]})
    ensures ImportsDone(g, m, k + 1, before, after)
  {
    assert Edge(g, m, g[m][k]);
    ClosureThroughEdge(g, m, g[m][k]);
    ClosureClosed(g, {g[m][k]});
  }

  lemma CycleThroughEdge(g: Graph<Module>, m: Module, child: Module)
    requires Edge(g, m, child) && CycleReachable(g, child)
    ensures CycleReachable(g, m)
  {
    var c :| Reaches(g, child, c) && OnCycle(g, c);
    ReachesByEdge(g, m, child);
    ReachesTransitive(g, m, child, c);
  }

  lemma FinishVisit(g: Graph<Module>, ordered: seq<Module>, visited: set<Module>, before: set<Module>, m: Module)
    requires Settled(g, ordered, visited) && m in g && m !in visited
    requires ImportsDone(g, m, |g[m]|, before, visited)
    ensures Settled(g, ordered + [m], visited + {m})
    ensures visited + {m} == before + Closure(g, {m})
  {
    var longer := ordered + [m];
    forall i, b | 0 <= i < |longer| && b in g && Edge(g, longer[i], b) ensures b in longer[..i] {
      if i < |ordered| {
        assert longer[..i] == ordered[..i];
      } else {
        assert longer[..i] == ordered;
      }
    }
    assert Settled(g, longer, visited + {m});
    assert longer[|longer| - 1] == m;
    ClosureOfListed(g, longer, visited + {m}, m);
    ClosureClosed(g, {m});
  }

  lemma PathsExtend(g: Graph<Module>, visiting: set<Module>, m: Module)
    requires LeadTo(g, visiting, m)
    ensures LeadToImports(g, visiting + {m}, m)
  {
    forall child, v | Edge(g, m, child) && v in visiting + {m} ensures exists n :: Edge(g, v, n) && Reaches(g, n, child) {
      ReachesSelf(g, child);
      if v != m {
        ReachesByEdge(g, m, child);
        var n :| Edge(g, v, n) && Reaches(g, n, m);
        ReachesTransitive(g, n, m, child);
      }
    }
  }

  lemma ClosureThroughEdge(g: Graph<Module>, a: Module, b: Module)
    requires Edge(g, a, b)
    ensures Closure(g, {b}) <= Closure(g, {a})
  {
    ReachesByEdge(g, a, b);
    forall m | m in Closure(g, {b}) ensures m in Closure(g, {a}) {
      ReachesTransitive(g, a, b, m);
    }
  }

  lemma ClosureOfListed(g: Graph<Module>, ordered: seq<Module>, visited: set<Module>, m: Module)
    requires Settled(g, ordered, visited) && m in visited
    ensures Closure(g, {m}) <= visited
  {
    forall a, b | a in visited && b in g && Edge(g, a, b) ensures b in visited {
      var i :| 0 <= i < |ordered| && ordered[i] == a;
      assert b in ordered[..i];
    }
    ClosureLeast(g, {m}, visited);
  }

  method LocalImportOrder(g: Graph<Module>, root: Module) returns (r: Result<seq<Module>>)
    ensures r.ImportCycle? <==> CycleReachable(g, root)
    ensures r.Ok? ==> Distinct(r.value) && DependencyFirst(g, r.value)
    ensures r.Ok? ==> Elements(r.value) == Closure(g, {root})
  {
    var walk := new ImportWalk(g);
    var ok := walk.Visit(root);
    if !ok {
      return ImportCycle;
    }
    assert !CycleReachable(g, root) by {
      if CycleReachable(g, root) {
        var m :| Reaches(g, root, m) && OnCycle(g, m);
        assert m in Closure(g, {root});
        OrderedNotOnCycle(g, walk.ordered, m);
      }
    }
    return Ok(walk.ordered);
  }

  // ----- Level-by-level search recording depths -----

  // A chain of k imports leads from some declared root to the module.
  predicate Chain(g: Graph<Module>, roots: seq<Module>, p: seq<Module>, m: Module, k: nat) {
    IsPath(g, p) && |p| == k + 1 && p[0] in roots && p[k] == m
  }

  ghost predicate HasChain(g: Graph<Module>, roots: seq<Module>, m: Module, k: nat) {
    exists p :: Chain(g, roots, p, m, k)
  }

  // Depths in which each edge to a local module costs at most one.
  predicate Relaxed(g: Graph<Module>, depth: map<Module, nat>, below: int) {
    forall a, b | a in depth && depth[a] < below && b in g && Edge(g, a, b) ::
      b in depth && depth[b] <= depth[a] + 1
  }

  lemma {:induction false} RelaxedBoundsChains(g: Graph<Module>, depth: map<Module, nat>, p: seq<Module>, below: int)
    requires IsPath(g, p) && p[|p| - 1] in g
    requires p[0] in depth
    requires forall a :: a in depth ==> depth[a] < below
    requires Relaxed(g, depth, below)
    ensures p[|p| - 1] in depth && depth[p[|p| - 1]] <= depth[p[0]] + |p| - 1
  {
    if |p| > 1 {
      assert Edge(g, p[0], p[1]);
      assert p[1] in g by {
        if |p| > 2 { assert Edge(g, p[1], p[2]); }
      }
      var q := p[1..];
      forall k | 0 <= k < |q| - 1 ensures Edge(g, q[k], q[k + 1]) {
        assert Edge(g, p[k + 1], p[k + 2]);
      }
      RelaxedBoundsChains(g, depth, q, below);
    }
  }

  lemma ChainExtends(g: Graph<Module>, roots: seq<Module>, a: Module, b: Module, k: nat)
    requires HasChain(g, roots, a, k) && Edge(g, a, b)
    ensures HasChain(g, roots, b, k + 1)
  {
    var p :| Chain(g, roots, p, a, k);
    assert Chain(g, roots, p + [b], b, k + 1);
  }

  // Every module of depth at most d is recorded; those of depth d are next.
  ghost predicate LevelRecorded(g: Graph<Module>, roots: seq<Module>, depth: map<Module, nat>,
                                frontier: seq<Module>, d: nat)
  {
    && depth.Keys <= g.Keys
    && (forall r :: r in roots && r in g ==> r in depth && depth[r] == 0)
    && (forall m :: m in depth ==> HasChain(g, roots, m, depth[m]))
    && (forall m :: m in depth ==> depth[m] <= d)
    && (forall m :: m in frontier <==> m in depth && depth[m] == d)
    && Relaxed(g, depth, d)
  }

  method LocalRoots(g: Graph<Module>, roots: seq<Module>) returns (frontier: seq<Module>, depth: map<Module, nat>)
    ensures LevelRecorded(g, roots, depth, frontier, 0)
  {
    frontier := [];
    for i := 0 to |roots|
      invariant forall x :: x in frontier <==> x in g && x in roots[..i]
    {
      if roots[i] in g {
        frontier := frontier + [roots[i]];
      }
    }
    assert roots[..|roots|] == roots;
    depth := map[];
    for i := 0 to |frontier|
      invariant forall x :: x in depth <==> x in frontier[..i]
      invariant forall x :: x in depth ==> depth[x] == 0
    {
      if frontier[i] !in depth {
        depth := depth[frontier[i] := 0];
      }
    }
    assert frontier[..|frontier|] == frontier;
    forall m | m in depth ensures HasChain(g, roots, m, 0) {
      assert Chain(g, roots, [m], m, 0);
    }
  }

  // What one pass over a frontier adds: modules of the next depth only.
  ghost predicate Added(g: Graph<Module>, roots: seq<Module>, before: map<Module, nat>,
                        depth: map<Module, nat>, nxt: seq<Module>, d: nat)
  {
    && before.Keys <= depth.Keys <= g.Keys
    && (forall m :: m in before ==> depth[m] == before[m])
    && (forall m :: m in nxt <==> m in depth && m !in before)
    && (forall m :: m in nxt ==> depth[m] == d + 1 && HasChain(g, roots, m, d + 1))
  }

  // The imports of one module of the frontier.
  method ExpandModule(g: Graph<Module>, roots: seq<Module>, m: Module, ghost before: map<Module, nat>,
                      nxt: seq<Module>, depth: map<Module, nat>, ghost d: nat)
      returns (nxt': seq<Module>, depth': map<Module, nat>)
    requires Added(g, roots, before, depth, nxt, d) && m in before && before[m] == d && HasChain(g, roots, m, d)
    ensures Added(g, roots, before, depth', nxt', d) && depth.Keys <= depth'.Keys
    ensures forall b :: b in g && Edge(g, m, b) ==> b in depth'
  {
    nxt', depth' := nxt, depth;
    var names := g[m];
    for k := 0 to |names|
      invariant Added(g, roots, before, depth', nxt', d) && depth.Keys <= depth'.Keys
      invariant forall j :: 0 <= j < k && names[j] in g ==> names[j] in depth'
    {
      if names[k] in g && names[k] !in depth' {
        ChainExtends(g, roots, m, names[k], d);
        depth' := depth'[names[k] := depth'[m] + 1];
        nxt' := nxt' + [names[k]];
      }
    }
  }

  method ExpandLevel(g: Graph<Module>, roots: seq<Module>, frontier: seq<Module>, before: map<Module, nat>, ghost d: nat)
      returns (nxt: seq<Module>, depth: map<Module, nat>)
    requires LevelRecorded(g, roots, before, frontier, d)
    ensures Added(g, roots, before, depth, nxt, d)
    ensures forall j, b :: 0 <= j < |frontier| && b in g && Edge(g, frontier[j], b) ==> b in depth
  {
    nxt, depth := [], before;
    for i := 0 to |frontier|
      invariant Added(g, roots, before, depth, nxt, d)
      invariant forall j, b :: 0 <= j < i && b in g && Edge(g, frontier[j], b) ==> b in depth
    {
      assert frontier[i] in frontier;
      nxt, depth := ExpandModule(g, roots, frontier[i], before, nxt, depth, d);
    }
  }

  lemma LevelAdvances(g: Graph<Module>, roots: seq<Module>, before: map<Module, nat>, frontier: seq<Module>,
                      depth: map<Module, nat>, nxt: seq<Module>, d: nat)
    requires LevelRecorded(g, roots, before, frontier, d)
    requires Added(g, roots, before, depth, nxt, d)
    requires forall j, b :: 0 <= j < |frontier| && b in g && Edge(g, frontier[j], b) ==> b in depth
    ensures LevelRecorded(g, roots, depth, nxt, d + 1)
    ensures nxt == [] || g.Keys - depth.Keys < g.Keys - before.Keys
    ensures nxt == [] ==> depth.Keys == before.Keys
  {
    forall a, b | a in depth && depth[a] < d + 1 && b in g && Edge(g, a, b)
      ensures b in depth && depth[b] <= depth[a] + 1
    {
      assert a in before;
      if depth[a] == d {
        assert a in frontier;
        var j :| 0 <= j < |frontier| && frontier[j] == a;
      } else {
        assert b in before;
      }
    }
    if nxt != [] {
      assert nxt[0] in nxt;
      assert nxt[0] in g.Keys - before.Keys && nxt[0] !in g.Keys - depth.Keys;
    } else {
      assert forall m :: m in depth && m !in before ==> m in nxt;
    }
  }

  method ComputeDepths(g: Graph<Module>, roots: seq<Module>) returns (depth: map<Module, nat>)
    ensures depth.Keys == Closure(g, Elements(roots))
    ensures forall m :: m in depth ==> HasChain(g, roots, m, depth[m])
    ensures forall m, k :: m in depth && HasChain(g, roots, m, k) ==> depth[m] <= k
  {
    var frontier;
    frontier, depth := LocalRoots(g, roots);
    ghost var d: nat := 0;
    while frontier != []
      invariant LevelRecorded(g, roots, depth, frontier, d)
      decreases g.Keys - depth.Keys, |frontier|
    {
      var nxt, deeper := ExpandLevel(g, roots, frontier, depth, d);
      LevelAdvances(g, roots, depth, frontier, deeper, nxt, d);
      frontier, depth := nxt, deeper;
      d := d + 1;
    }
    DepthsCharacterised(g, roots, depth, d);
  }

  lemma DepthsCharacterised(g: Graph<Module>, roots: seq<Module>, depth: map<Module, nat>, d: nat)
    requires depth.Keys <= g.Keys
    requires forall r :: r in roots && r in g ==> r in depth && depth[r] == 0
    requires forall m :: m in depth ==> HasChain(g, roots, m, depth[m])
    requires forall m :: m in depth ==> depth[m] < d
    requires Relaxed(g, depth, d)
    ensures depth.Keys == Closure(g, Elements(roots))
    ensures forall m, k :: m in depth && HasChain(g, roots, m, k) ==> depth[m] <= k
  {
    ClosureLeast(g, Elements(roots), depth.Keys);
    forall m | m in depth ensures m in Closure(g, Elements(roots)) {
      var p :| Chain(g, roots, p, m, depth[m]);
      assert Connects(g, p, p[0], m) && p[0] in Elements(roots);
    }
    forall m, k | m in depth && HasChain(g, roots, m, k) ensures depth[m] <= k {
      var p :| Chain(g, roots, p, m, k);
      if |p| > 1 { assert Edge(g, p[0], p[1]); }
      RelaxedBoundsChains(g, depth, p, d);
    }
  }

  // The tracked modules no declared root reaches, in the order they are tracked.
  method Orphans(g: Graph<Module>, tracked: seq<Module>, roots: seq<Module>) returns (orphans: seq<Module>)
    requires Elements(tracked) == g.Keys && Distinct(tracked)
    ensures Elements(orphans) == g.Keys - Closure(g, Elements(roots))
    ensures Distinct(orphans)
    ensures orphans == [] <==> forall m :: m in g ==> exists k :: HasChain(g, roots, m, k)
  {
    var depth := ComputeDepths(g, roots);
    orphans := [];
    for i := 0 to |tracked|
      invariant forall m :: m in orphans <==> m in tracked[..i] && m !in depth
      invariant Distinct(orphans)
    {
      assert tracked[i] !in tracked[..i];
      if tracked[i] !in depth {
        orphans := orphans + [tracked[i]];
      }
    }
    assert tracked[..|tracked|] == tracked;
    assert forall m :: m in tracked <==> m in Elements(tracked);
    assert Elements(orphans) == g.Keys - depth.Keys;
    forall m, k | m in g && HasChain(g, roots, m, k) ensures m in depth {
      var p :| Chain(g, roots, p, m, k);
      assert Connects(g, p, p[0], m) && p[0] in Elements(roots);
    }
    if orphans != [] {
      assert orphans[0] in orphans;
    } else {
      forall m | m in g ensures exists k :: HasChain(g, roots, m, k) {
        assert m in tracked && m in depth;
      }
    }
  }

  // ----- Worklist -----

  // Every module the umbrella names, directly or through listed imports,
  // including names with no file on disk.
  ghost predicate Named(g: Graph<Module>, roots: set<Module>, m: Module) {
    exists r :: r in roots && Reaches(g, r, m)
  }

  function Mentioned(g: Graph<Module>, roots: set<Module>): set<Module> {
    roots + set a, b | a in g && b in g[a] :: b
  }

  // What the worklist has found is named; it holds the roots and what any
  // module found names, up to what is still in the list.
  ghost predicate WorklistKeeps(g: Graph<Module>, roots: set<Module>, reachable: set<Module>, frontier: seq<Module>) {
    && (forall m :: m in reachable || m in frontier ==> Named(g, roots, m) && m in Mentioned(g, roots))
    && (forall r :: r in roots ==> r in reachable || r in frontier)
    && (forall a, b :: a in reachable && Edge(g, a, b) ==> b in reachable || b in frontier)
  }

  lemma WorklistStep(g: Graph<Module>, roots: set<Module>, reachable: set<Module>, rest: seq<Module>, m: Module)
    requires WorklistKeeps(g, roots, reachable, rest + [m])
    ensures m in reachable ==> WorklistKeeps(g, roots, reachable, rest)
    ensures WorklistKeeps(g, roots, reachable + {m}, rest + (if m in g then g[m] else []))
    ensures m in Mentioned(g, roots)
  {
    assert m in rest + [m];
    forall b | Edge(g, m, b) ensures Named(g, roots, b) && b in Mentioned(g, roots) {
      NamedByEdge(g, roots, m, b);
    }
  }

  lemma WorklistDone(g: Graph<Module>, roots: set<Module>, reachable: set<Module>)
    requires WorklistKeeps(g, roots, reachable, [])
    ensures forall m :: m in reachable <==> Named(g, roots, m)
    ensures reachable * g.Keys == Closure(g, roots)
  {
    forall m | Named(g, roots, m) ensures m in reachable {
      var r :| r in roots && Reaches(g, r, m);
      var p :| Connects(g, p, r, m);
      EdgeClosed(g, reachable, p);
    }
  }

  method Reachable(g: Graph<Module>, roots: seq<Module>) returns (reachable: set<Module>)
    ensures forall m :: m in reachable <==> Named(g, Elements(roots), m)
    ensures reachable * g.Keys == Closure(g, Elements(roots))
  {
    reachable := {};
    var frontier := roots;
    forall m | m in frontier ensures Named(g, Elements(roots), m) { ReachesSelf(g, m); }
    while frontier != []
      invariant reachable <= Mentioned(g, Elements(roots))
      invariant WorklistKeeps(g, Elements(roots), reachable, frontier)
      decreases Mentioned(g, Elements(roots)) - reachable, |frontier|
    {
      var m := frontier[|frontier| - 1];
      assert frontier == frontier[..|frontier| - 1] + [m];
      frontier := frontier[..|frontier| - 1];
      WorklistStep(g, Elements(roots), reachable, frontier, m);
      if m !in reachable {
        reachable := reachable + {m};
        frontier := frontier + if m in g then g[m] else [];
      }
    }
    WorklistDone(g, Elements(roots), reachable);
  }

  lemma NamedByEdge(g: Graph<Module>, roots: set<Module>, a: Module, b: Module)
    requires Named(g, roots, a) && Edge(g, a, b)
    ensures Named(g, roots, b)
  {
    var r :| r in roots && Reaches(g, r, a);
    ReachesByEdge(g, a, b);
    ReachesTransitive(g, r, a, b);
  }

  lemma {:induction false} EdgeClosed(g: Graph<Module>, s: set<Module>, p: seq<Module>)
    requires IsPath(g, p) && p[0] in s
    requires forall a, b :: a in s && Edge(g, a, b) ==> b in s
    ensures p[|p| - 1] in s
  {
    if |p| > 1 {
      assert Edge(g, p[0], p[1]);
      var q := p[1..];
      forall k | 0 <= k < |q| - 1 ensures Edge(g, q[k], q[k + 1]) {
        assert Edge(g, p[k + 1], p[k + 2]);
      }
      EdgeClosed(g, s, q);
    }
  }

  datatype UmbrellaReport = UmbrellaReport(missing: set<Module>, stale: set<Module>)

  // Following imports from any file or umbrella line never leaves the disk.
  ghost predicate StaysOnDisk(g: Graph<Module>, roots: set<Module>) {
    forall m :: Named(g, g.Keys + roots, m) ==> m in g
  }

  lemma StaleFree(g: Graph<Module>, roots: set<Module>)
    ensures Mentioned(g, roots) <= g.Keys <==> StaysOnDisk(g, roots)
  {
    if Mentioned(g, roots) <= g.Keys {
      forall m | Named(g, g.Keys + roots, m) ensures m in g {
        var r :| r in g.Keys + roots && Reaches(g, r, m);
        var p :| Connects(g, p, r, m);
        EdgeClosed(g, g.Keys, p);
      }
    }
    if StaysOnDisk(g, roots) {
      forall m | m in Mentioned(g, roots) ensures m in g {
        MentionedIsNamed(g, roots, m);
      }
    }
  }

  lemma MentionedIsNamed(g: Graph<Module>, roots: set<Module>, m: Module)
    requires m in Mentioned(g, roots)
    ensures Named(g, g.Keys + roots, m)
  {
    if m in roots {
      ReachesSelf(g, m);
    } else {
      var a, b :| a in g && b in g[a] && b == m;
      ReachesByEdge(g, a, b);
    }
  }

  // The umbrella and the disk agree: what the umbrella names, directly or
  // through listed imports, is exactly what is on disk.
  ghost predicate NamesExactlyTheDisk(g: Graph<Module>, roots: set<Module>) {
    forall m :: Named(g, roots, m) <==> m in g
  }

  lemma CleanUmbrella(g: Graph<Module>, roots: set<Module>)
    requires g.Keys <= Closure(g, roots) && StaysOnDisk(g, roots)
    ensures NamesExactlyTheDisk(g, roots)
  {
    forall m ensures Named(g, roots, m) <==> m in g {
      if Named(g, roots, m) {
        var r :| r in roots && Reaches(g, r, m);
        assert r in g.Keys + roots;
      }
    }
  }

  lemma EmptyDifference(s: set<Module>, t: set<Module>)
    ensures s - t == {} <==> s <= t
  {
    if s - t == {} {
      assert forall m :: m in s && m !in t ==> m in s - t;
    }
  }

  lemma ReportMeans(g: Graph<Module>, roots: set<Module>, reachable: set<Module>, report: UmbrellaReport)
    requires reachable * g.Keys == Closure(g, roots)
    requires report == UmbrellaReport(g.Keys - reachable, Mentioned(g, roots) - g.Keys)
    ensures report.missing == g.Keys - Closure(g, roots)
    ensures report.stale == {} <==> StaysOnDisk(g, roots)
    ensures report.missing == {} && report.stale == {} ==> NamesExactlyTheDisk(g, roots)
  {
    assert g.Keys - reachable == g.Keys - reachable * g.Keys;
    StaleFree(g, roots);
    EmptyDifference(Mentioned(g, roots), g.Keys);
    EmptyDifference(g.Keys, Closure(g, roots));
    if report.missing == {} && report.stale == {} {
      CleanUmbrella(g, roots);
    }
  }

  // The import half of the umbrella check: the keys of `imports` are the files
  // on disk.
  method CheckUmbrella(imports: Graph<Module>, umbrella: seq<Module>) returns (report: UmbrellaReport)
    ensures report.missing == imports.Keys - Closure(imports, Elements(umbrella))
    ensures report.stale == {} <==> StaysOnDisk(imports, Elements(umbrella))
    ensures report.missing == {} && report.stale == {} ==> NamesExactlyTheDisk(imports, Elements(umbrella))
  {
    var reachable := Reachable(imports, umbrella);
    report := UmbrellaReport(imports.Keys - reachable, Mentioned(imports, Elements(umbrella)) - imports.Keys);
    ReportMeans(imports, Elements(umbrella), reachable, report);
  }
}
