/** Finite directed graphs given by ordered successor lists: paths, reachability,
    cycles.  The import walks and the gate scheduler share these notions.
    A node is local when it is a key of the graph; an edge may lead to a node
    that is not. */
module Graphs {

  type Graph<N(==)> = map<N, seq<N>>

  predicate Edge<N(==)>(g: Graph<N>, a: N, b: N) {
    a in g && b in g[a]
  }

  predicate IsPath<N(==)>(g: Graph<N>, p: seq<N>) {
    p != [] && forall i | 0 <= i < |p| - 1 :: Edge(g, p[i], p[i + 1])
  }

  predicate Connects<N(==)>(g: Graph<N>, p: seq<N>, a: N, b: N) {
    IsPath(g, p) && p[0] == a && p[|p| - 1] == b
  }

  ghost predicate Reaches<N(!new)>(g: Graph<N>, a: N, b: N) {
    exists p :: Connects(g, p, a, b)
  }

  ghost predicate OnCycle<N(!new)>(g: Graph<N>, a: N) {
    exists b :: Edge(g, a, b) && Reaches(g, b, a)
  }

  ghost predicate Acyclic<N(!new)>(g: Graph<N>) {
    forall a :: !OnCycle(g, a)
  }

  // The local nodes some root reaches.
  ghost function Closure<N(!new)>(g: Graph<N>, roots: set<N>): set<N> {
    set m | m in g && exists r :: r in roots && Reaches(g, r, m)
  }

  lemma ReachesSelf<N(!new)>(g: Graph<N>, a: N)
    ensures Reaches(g, a, a)
  {
    assert Connects(g, [a], a, a);
  }

  lemma ReachesTransitive<N(!new)>(g: Graph<N>, a: N, b: N, c: N)
    requires Reaches(g, a, b) && Reaches(g, b, c)
    ensures Reaches(g, a, c)
  {
    var p :| Connects(g, p, a, b);
    var q :| Connects(g, q, b, c);
    assert Connects(g, p + q[1..], a, c);
  }

  lemma ReachesByEdge<N(!new)>(g: Graph<N>, a: N, b: N)
    requires Edge(g, a, b)
    ensures Reaches(g, a, b)
  {
    assert Connects(g, [a, b], a, b);
  }

  // A set of nodes closed under edges to local nodes holds everything local
  // that its members reach.
  lemma {:induction false} ClosedUnderEdges<N(!new)>(g: Graph<N>, s: set<N>, p: seq<N>)
    requires IsPath(g, p) && p[0] in s && p[|p| - 1] in g
    requires forall a, b :: a in s && b in g && Edge(g, a, b) ==> b in s
    ensures p[|p| - 1] in s
  {
    if |p| > 1 {
      assert Edge(g, p[0], p[1]);
      assert p[1] in g by {
        if |p| > 2 { assert Edge(g, p[1], p[2]); }
      }
      forall i | 0 <= i < |p[1..]| - 1 ensures Edge(g, p[1..][i], p[1..][i + 1]) {
        assert Edge(g, p[i + 1], p[i + 2]);
      }
      ClosedUnderEdges(g, s, p[1..]);
    }
  }

  lemma ClosureLeast<N(!new)>(g: Graph<N>, roots: set<N>, s: set<N>)
    requires forall r :: r in roots && r in g ==> r in s
    requires forall a, b :: a in s && b in g && Edge(g, a, b) ==> b in s
    ensures Closure(g, roots) <= s
  {
    forall m | m in Closure(g, roots) ensures m in s {
      var r :| r in roots && Reaches(g, r, m);
      var p :| Connects(g, p, r, m);
      if |p| > 1 { assert Edge(g, p[0], p[1]); }
      ClosedUnderEdges(g, s, p);
    }
  }

  lemma ClosureClosed<N(!new)>(g: Graph<N>, roots: set<N>)
    ensures forall r :: r in roots && r in g ==> r in Closure(g, roots)
    ensures forall a, b :: a in Closure(g, roots) && b in g && Edge(g, a, b) ==> b in Closure(g, roots)
  {
    forall r | r in roots && r in g ensures r in Closure(g, roots) {
      ReachesSelf(g, r);
    }
    forall a, b | a in Closure(g, roots) && b in g && Edge(g, a, b) ensures b in Closure(g, roots) {
      var r :| r in roots && Reaches(g, r, a);
      ReachesByEdge(g, a, b);
      ReachesTransitive(g, r, a, b);
    }
  }

  // ----- Acyclic means every non-empty set of nodes has a sink -----

  predicate IsSink<N(==)>(g: Graph<N>, s: set<N>, a: N) {
    a in s && forall b :: b in s ==> !Edge(g, a, b)
  }

  predicate Sinkless<N(==)>(g: Graph<N>, s: set<N>) {
    forall a {:trigger IsSink(g, s, a)} | a in s :: !IsSink(g, s, a)
  }

  lemma {:induction false} WalkInside<N(!new)>(g: Graph<N>, s: set<N>, start: N, steps: nat) returns (p: seq<N>)
    requires start in s
    requires Sinkless(g, s)
    ensures IsPath(g, p) && |p| == steps + 1 && forall a :: a in p ==> a in s
  {
    if steps == 0 {
      p := [start];
    } else {
      var q := WalkInside(g, s, start, steps - 1);
      var last := q[|q| - 1];
      assert last in q && !IsSink(g, s, last);
      var b :| b in s && Edge(g, last, b);
      p := q + [b];
      forall i | 0 <= i < |p| - 1 ensures Edge(g, p[i], p[i + 1]) {
        if i < |q| - 1 { assert Edge(g, q[i], q[i + 1]); }
      }
    }
  }

  lemma {:induction false} Pigeonhole<N>(p: seq<N>, s: set<N>)
    requires forall a :: a in p ==> a in s
    requires |p| > |s|
    ensures exists i, j :: 0 <= i < j < |p| && p[i] == p[j]
  {
    var last := p[|p| - 1];
    assert last in p;
    var rest := p[..|p| - 1];
    if last in rest {
      var i :| 0 <= i < |rest| && rest[i] == last;
      assert p[i] == p[|p| - 1];
    } else {
      assert forall a :: a in rest ==> a in p && a in s - {last};
      Pigeonhole(rest, s - {last});
      var i, j :| 0 <= i < j < |rest| && rest[i] == rest[j];
      assert p[i] == p[j];
    }
  }

  lemma RepeatIsCycle<N(!new)>(g: Graph<N>, p: seq<N>, i: nat, j: nat)
    requires IsPath(g, p) && i < j < |p| && p[i] == p[j]
    ensures OnCycle(g, p[i])
  {
    var tail := p[i + 1..j + 1];
    assert Edge(g, p[i], p[i + 1]);
    forall k | 0 <= k < |tail| - 1 ensures Edge(g, tail[k], tail[k + 1]) {
      assert Edge(g, p[i + 1 + k], p[i + 2 + k]);
    }
    assert Connects(g, tail, p[i + 1], p[i]);
  }

  lemma AcyclicHasSink<N(!new)>(g: Graph<N>, s: set<N>) returns (a: N)
    requires Acyclic(g) && s != {}
    ensures IsSink(g, s, a)
  {
    if Sinkless(g, s) {
      var start :| start in s;
      var p := WalkInside(g, s, start, |s|);
      Pigeonhole(p, s);
      var i, j :| 0 <= i < j < |p| && p[i] == p[j];
      RepeatIsCycle(g, p, i, j);
      assert false;
    }
    a :| a in s && IsSink(g, s, a);
  }

  // The nodes on one cycle form a set without a sink.
  lemma CycleHasNoSink<N(!new)>(g: Graph<N>, a: N) returns (s: set<N>)
    requires OnCycle(g, a)
    ensures a in s && s <= g.Keys
    ensures Sinkless(g, s)
  {
    var b :| Edge(g, a, b) && Reaches(g, b, a);
    var p :| Connects(g, p, b, a);
    s := set x | x in p;
    forall x | x in s ensures x in g && !IsSink(g, s, x) {
      var i :| 0 <= i < |p| && p[i] == x;
      if i == |p| - 1 {
        assert Edge(g, x, p[0]) && p[0] in s;
      } else {
        assert Edge(g, p[i], p[i + 1]) && p[i + 1] in s;
      }
    }
  }

  // ----- Dependency-first orders -----

  predicate Distinct<T(==)>(s: seq<T>) {
    forall i, j | 0 <= i < j < |s| :: s[i] != s[j]
  }

  function Elements<T>(s: seq<T>): set<T> {
    set x | x in s
  }

  // Every local successor of a listed node stands before it.
  predicate DependencyFirst<N(==)>(g: Graph<N>, order: seq<N>) {
    forall i, b | 0 <= i < |order| && b in g && Edge(g, order[i], b) :: b in order[..i]
  }

  lemma {:induction false} PathDescends<N(!new)>(g: Graph<N>, order: seq<N>, i: nat, p: seq<N>)
    requires DependencyFirst(g, order) && i < |order|
    requires IsPath(g, p) && p[0] == order[i] && p[|p| - 1] in g
    ensures |p| > 1 ==> p[|p| - 1] in order[..i]
    decreases |p|
  {
    if |p| > 1 {
      assert Edge(g, p[0], p[1]);
      assert p[1] in g by {
        if |p| > 2 { assert Edge(g, p[1], p[2]); }
      }
      assert p[1] in order[..i];
      var j :| 0 <= j < i && order[j] == p[1];
      var q := p[1..];
      forall k | 0 <= k < |q| - 1 ensures Edge(g, q[k], q[k + 1]) {
        assert Edge(g, p[k + 1], p[k + 2]);
      }
      PathDescends(g, order, j, q);
      if |q| > 1 {
        assert q[|q| - 1] in order[..j] && order[..j] <= order[..i];
      }
    }
  }

  lemma OrderedNotOnCycle<N(!new)>(g: Graph<N>, order: seq<N>, a: N)
    requires DependencyFirst(g, order) && Distinct(order) && a in order
    ensures !OnCycle(g, a)
  {
    if OnCycle(g, a) {
      var i :| 0 <= i < |order| && order[i] == a;
      var b :| Edge(g, a, b) && Reaches(g, b, a);
      var p :| Connects(g, p, b, a);
      var q := [a] + p;
      forall k | 0 <= k < |q| - 1 ensures Edge(g, q[k], q[k + 1]) {
        if k > 0 { assert Edge(g, p[k - 1], p[k]); }
      }
      PathDescends(g, order, i, q);
      assert false;
    }
  }
}
