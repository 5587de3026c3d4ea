/** The depth-first topological sorter that the history sort is built on.

    A graph lists, for each node, the nodes it depends on. A node is placed only after everything it depends
    on, so an edge `from -> to` puts `to` before `from`. */
module Sorter {
  type Graph = seq<seq<nat>>

  datatype Trip = Trip(sorted: seq<nat>, cyclic: bool)

  predicate WellFormed(g: Graph) {
    forall v, c :: 0 <= v < |g| && c in g[v] ==> c < |g|
  }

  /** Consecutive nodes of `path` are joined by edges. */
  predicate IsPath(g: Graph, path: seq<nat>) {
    && (forall k :: 0 <= k < |path| ==> path[k] < |g|)
    && (forall k :: 0 <= k < |path| - 1 ==> path[k + 1] in g[path[k]])
  }

  predicate IsLoop(g: Graph, path: seq<nat>) {
    && IsPath(g, path)
    && |path| >= 2
    && path[0] == path[|path| - 1]
  }

  ghost predicate HasLoop(g: Graph) {
    exists path :: IsLoop(g, path)
  }

  predicate NoDuplicates(s: seq<nat>) {
    forall i, j :: 0 <= i < j < |s| ==> s[i] != s[j]
  }

  /** Every node placed so far was placed once, and after everything it depends on. */
  predicate Placed(g: Graph, sorted: seq<nat>) {
    && NoDuplicates(sorted)
    && (forall k :: 0 <= k < |sorted| ==> sorted[k] < |g|)
    && (forall k, c :: 0 <= k < |sorted| && c in g[sorted[k]] ==> c in sorted[..k])
  }

  /** The first `n` nodes, in the order they were added. */
  function Roots(n: nat): (s: seq<nat>)
    ensures forall v: nat :: v in s <==> v < n
  {
    if n == 0 then [] else Roots(n - 1) + [n - 1]
  }

  ghost function Nodes(g: Graph): set<nat> {
    set v | v in Roots(|g|)
  }

  ghost predicate OnPath(visiting: set<nat>, path: seq<nat>) {
    forall v :: v in visiting <==> v in path
  }

  /** What one visit adds: `before` is kept as a prefix, and nothing that is still being visited is placed. */
  ghost predicate Extends(g: Graph, before: seq<nat>, visiting: set<nat>, t: Trip) {
    && before <= t.sorted
    && Placed(g, t.sorted)
    && (forall v :: v in visiting ==> v !in t.sorted)
    && (t.cyclic ==> HasLoop(g))
  }

  /** Visit one node; `path` leads from a root to the nodes being visited. */
  function Visit(g: Graph, v: nat, sorted: seq<nat>, visiting: set<nat>, ghost path: seq<nat>): (t: Trip)
    requires WellFormed(g) && Placed(g, sorted)
    requires IsPath(g, path + [v]) && OnPath(visiting, path)
    requires forall u :: u in visiting ==> u !in sorted
    ensures Extends(g, sorted, visiting, t)
    ensures !t.cyclic ==> v in t.sorted
    decreases Nodes(g) - visiting, 0
  {
    assert (path + [v])[|path|] == v;
    if v in sorted then Trip(sorted, false)
    else if v in visiting then
      assert HasLoop(g) by { ClosesLoop(g, path, v); }
      Trip(sorted, true)
    else
      assert v in Nodes(g) - visiting;
      var inner := VisitAll(g, g[v], sorted, visiting + {v}, path + [v]);
      if inner.cyclic then inner
      else
        assert Placed(g, inner.sorted + [v]) by { PlaceLast(g, inner.sorted, v); }
        Trip(inner.sorted + [v], false)
  }

  /** Visit a list of nodes in turn: the children of the last node of `path`, or all roots when it is empty. */
  function VisitAll(g: Graph, nodes: seq<nat>, sorted: seq<nat>, visiting: set<nat>, ghost path: seq<nat>): (t: Trip)
    requires WellFormed(g) && Placed(g, sorted)
    requires IsPath(g, path) && OnPath(visiting, path)
    requires forall c :: c in nodes ==> c < |g| && (path == [] || c in g[path[|path| - 1]])
    requires forall u :: u in visiting ==> u !in sorted
    ensures Extends(g, sorted, visiting, t)
    ensures !t.cyclic ==> forall c :: c in nodes ==> c in t.sorted
    decreases Nodes(g) - visiting, |nodes|
  {
    if nodes == [] then Trip(sorted, false)
    else
      assert nodes[0] in nodes && forall c :: c in nodes[1..] ==> c in nodes;
      assert IsPath(g, path + [nodes[0]]) by { LengthenPath(g, path, nodes[0]); }
      var first := Visit(g, nodes[0], sorted, visiting, path);
      if first.cyclic then first
      else VisitAll(g, nodes[1..], first.sorted, visiting, path)
  }

  lemma LengthenPath(g: Graph, path: seq<nat>, c: nat)
    requires IsPath(g, path) && c < |g| && (path == [] || c in g[path[|path| - 1]])
    ensures IsPath(g, path + [c])
  {
    var longer := path + [c];
    forall k | 0 <= k < |longer| - 1
      ensures longer[k + 1] in g[longer[k]]
    {
      if k + 1 < |path| {
        assert path[k + 1] in g[path[k]];
      }
    }
  }

  lemma PlaceLast(g: Graph, sorted: seq<nat>, v: nat)
    requires Placed(g, sorted) && v < |g| && v !in sorted
    requires forall c :: c in g[v] ==> c in sorted
    ensures Placed(g, sorted + [v])
  {
    var longer := sorted + [v];
    forall k, c | 0 <= k < |longer| && c in g[longer[k]]
      ensures c in longer[..k]
    {
      if k < |sorted| {
        assert c in sorted[..k] && longer[..k] == sorted[..k];
      } else {
        assert longer[..k] == sorted;
      }
    }
  }

  /** A node met again while it is still being visited closes a loop. */
  lemma ClosesLoop(g: Graph, path: seq<nat>, v: nat)
    requires IsPath(g, path + [v]) && v in path
    ensures HasLoop(g)
  {
    var k :| 0 <= k < |path| && path[k] == v;
    var loop := (path + [v])[k..];
    assert loop[0] == v && loop[|loop| - 1] == v;
    assert IsLoop(g, loop);
  }

  function Sort(g: Graph): (t: Trip)
    requires WellFormed(g)
    ensures t.cyclic <==> HasLoop(g)
    ensures !t.cyclic ==> Placed(g, t.sorted) && forall v: nat :: v in t.sorted <==> v < |g|
  {
    var t := VisitAll(g, Roots(|g|), [], {}, []);
    assert !t.cyclic ==> !HasLoop(g) by {
      if !t.cyclic && HasLoop(g) {
        var path :| IsLoop(g, path);
        assert path[0] in t.sorted;
        LoopsCannotBePlaced(g, t.sorted, path);
      }
    }
    t
  }

  /** In a placement, following an edge always moves towards the front. */
  lemma {:induction false} EdgesMoveForward(g: Graph, sorted: seq<nat>, path: seq<nat>, i: nat, j: nat)
    requires WellFormed(g) && Placed(g, sorted) && IsPath(g, path) && |path| >= 2
    requires i < |sorted| && j < |sorted| && sorted[i] == path[0] && sorted[j] == path[|path| - 1]
    ensures j < i
    decreases |path|
  {
    assert path[1] in g[path[0]];
    var k :| 0 <= k < i && sorted[k] == path[1];
    if |path| > 2 {
      assert forall m :: 0 <= m < |path| - 1 ==> path[1..][m] == path[m + 1];
      EdgesMoveForward(g, sorted, path[1..], k, j);
    }
  }

  lemma LoopsCannotBePlaced(g: Graph, sorted: seq<nat>, path: seq<nat>)
    requires WellFormed(g) && Placed(g, sorted) && IsPath(g, path) && |path| >= 2
    requires path[0] in sorted
    ensures path[0] != path[|path| - 1]
  {
    if path[0] == path[|path| - 1] {
      var i :| 0 <= i < |sorted| && sorted[i] == path[0];
      EdgesMoveForward(g, sorted, path, i, i);
    }
  }
}
