/** The order in which a history is kept: parents before children, and earlier dates before later ones. */
module Ordering {
  import opened Wrappers
  import opened Versions
  import Sorter

  /** The edges the sort works with: parent links, and a link from each version to every strictly later one. */
  predicate Precedes(a: Version, b: Version) {
    a.hash in b.parents || a.date < b.date
  }

  predicate IsLoop(loop: seq<Version>, vs: set<Version>) {
    && |loop| >= 2
    && loop[0] == loop[|loop| - 1]
    && (forall k :: 0 <= k < |loop| ==> loop[k] in vs)
    && (forall k :: 0 <= k < |loop| - 1 ==> Precedes(loop[k], loop[k + 1]))
  }

  ghost predicate Cyclic(vs: set<Version>) {
    exists loop :: IsLoop(loop, vs)
  }

  /** No version is followed by one that must come before it, or has to come before itself. */
  predicate Ordered(h: History) {
    forall a, b :: 0 <= a <= b < |h| ==> !Precedes(h[b], h[a])
  }

  predicate IsSortOf(h: History, sorted: History) {
    multiset(sorted) == multiset(h) && Ordered(sorted)
  }

  // ---------- When a cycle is reported ----------

  /** Some version has a present parent with a strictly later date. */
  ghost predicate HasLateParent(vs: set<Version>) {
    exists parent, child :: parent in vs && child in vs && parent.hash in child.parents && child.date < parent.date
  }

  /** A chain of parent links among versions of one date, leading back to where it started. */
  predicate IsSameDateLoop(loop: seq<Version>, vs: set<Version>) {
    && |loop| >= 2
    && loop[0] == loop[|loop| - 1]
    && (forall k :: 0 <= k < |loop| ==> loop[k] in vs && loop[k].date == loop[0].date)
    && (forall k :: 0 <= k < |loop| - 1 ==> loop[k].hash in loop[k + 1].parents)
  }

  lemma {:induction false} DatesAlongLoop(loop: seq<Version>, i: nat, j: nat)
    requires i <= j < |loop|
    requires forall k :: 0 <= k < |loop| - 1 ==> loop[k].date <= loop[k + 1].date
    ensures loop[i].date <= loop[j].date
    decreases j - i
  {
    if i < j {
      DatesAlongLoop(loop, i + 1, j);
    }
  }

  /** Parent and date edges together close a cycle in two ways only. */
  lemma CycleCauses(vs: set<Version>)
    ensures Cyclic(vs) <==> HasLateParent(vs) || exists loop :: IsSameDateLoop(loop, vs)
  {
    if HasLateParent(vs) {
      var parent, child :| parent in vs && child in vs && parent.hash in child.parents && child.date < parent.date;
      assert IsLoop([parent, child, parent], vs);
    }
    if loop :| IsSameDateLoop(loop, vs) {
      assert IsLoop(loop, vs);
    }
    if Cyclic(vs) && !HasLateParent(vs) {
      var loop: seq<Version> :| IsLoop(loop, vs);
      forall k | 0 <= k < |loop| - 1
        ensures loop[k].date <= loop[k + 1].date
      {
        assert Precedes(loop[k], loop[k + 1]) && loop[k] in vs && loop[k + 1] in vs;
      }
      forall k | 0 <= k < |loop|
        ensures loop[k].date == loop[0].date
      {
        DatesAlongLoop(loop, 0, k);
        DatesAlongLoop(loop, k, |loop| - 1);
      }
      assert forall k :: 0 <= k < |loop| - 1 ==> Precedes(loop[k], loop[k + 1]);
      assert IsSameDateLoop(loop, vs);
    }
  }

  lemma CyclesGrow(vs: set<Version>, more: set<Version>)
    requires vs <= more
    ensures Cyclic(vs) ==> Cyclic(more)
  {
    if Cyclic(vs) {
      var loop :| IsLoop(loop, vs);
      assert IsLoop(loop, more);
    }
  }

  // ---------- What an ordered history looks like ----------

  lemma {:induction false} LoopsCannotBeOrdered(h: History, path: seq<Version>, i: nat, j: nat)
    requires Ordered(h) && |path| >= 2
    requires forall k :: 0 <= k < |path| ==> path[k] in h
    requires forall k :: 0 <= k < |path| - 1 ==> Precedes(path[k], path[k + 1])
    requires i < |h| && j < |h| && h[i] == path[0] && h[j] == path[|path| - 1]
    ensures i < j
    decreases |path|
  {
    assert Precedes(path[0], path[1]) && path[1] in h;
    var m :| 0 <= m < |h| && h[m] == path[1];
    if |path| > 2 {
      assert forall k :: 0 <= k < |path| - 1 ==> path[1..][k] == path[k + 1];
      LoopsCannotBeOrdered(h, path[1..], m, j);
    }
  }

  lemma OrderedIsAcyclic(h: History)
    requires Ordered(h)
    ensures !Cyclic(Elements(h))
  {
    if Cyclic(Elements(h)) {
      var loop :| IsLoop(loop, Elements(h));
      var i :| 0 <= i < |h| && h[i] == loop[0];
      LoopsCannotBeOrdered(h, loop, i, i);
    }
  }

  /** A chain of present parents, oldest ancestor first. */
  predicate IsDescent(chain: seq<Version>, vs: set<Version>) {
    && |chain| >= 2
    && (forall k :: 0 <= k < |chain| ==> chain[k] in vs)
    && (forall k :: 0 <= k < |chain| - 1 ==> chain[k].hash in chain[k + 1].parents)
  }

  /** Every ancestor comes before its descendant, and dates never decrease. */
  lemma AncestorsComeFirst(h: History)
    requires Ordered(h)
    ensures forall chain, i, j ::
              (IsDescent(chain, Elements(h)) && 0 <= i < |h| && 0 <= j < |h|
               && h[i] == chain[0] && h[j] == chain[|chain| - 1]) ==> i < j
    ensures forall i, j :: 0 <= i <= j < |h| ==> h[i].date <= h[j].date
  {
    forall chain, i, j | IsDescent(chain, Elements(h)) && 0 <= i < |h| && 0 <= j < |h|
      && h[i] == chain[0] && h[j] == chain[|chain| - 1]
      ensures i < j
    {
      LoopsCannotBeOrdered(h, chain, i, j);
    }
    forall i, j | 0 <= i <= j < |h|
      ensures h[i].date <= h[j].date
    {
      assert !Precedes(h[j], h[i]);
    }
  }

  predicate DistinctDates(h: History) {
    forall i, j :: 0 <= i < j < |h| ==> h[i].date != h[j].date
  }

  lemma FirstIsEarliest(a: History, b: History)
    requires Ordered(a) && Ordered(b) && DistinctDates(a) && multiset(a) == multiset(b) && a != [] && b != []
    ensures a[0] == b[0]
  {
    AncestorsComeFirst(a);
    AncestorsComeFirst(b);
    assert a[0] in multiset(b) && b[0] in multiset(a);
    var i :| 0 <= i < |b| && b[i] == a[0];
    var j :| 0 <= j < |a| && a[j] == b[0];
    assert a[0].date <= a[j].date && b[0].date <= b[i].date;
  }

  lemma SameTails(a: History, b: History)
    requires a != [] && b != [] && a[0] == b[0] && multiset(a) == multiset(b)
    ensures multiset(a[1..]) == multiset(b[1..])
  {
    assert a == [a[0]] + a[1..] && b == [b[0]] + b[1..];
    assert multiset(a[1..]) == multiset(a) - multiset{a[0]};
    assert multiset(b[1..]) == multiset(b) - multiset{b[0]};
  }

  /** When dates are pairwise distinct there is one way only to sort a history. */
  lemma {:induction false} SortIsUnique(a: History, b: History)
    requires Ordered(a) && Ordered(b) && DistinctDates(a) && multiset(a) == multiset(b)
    ensures a == b
  {
    assert |a| == |multiset(a)| && |b| == |multiset(b)|;
    if a != [] {
      FirstIsEarliest(a, b);
      SameTails(a, b);
      SortIsUnique(a[1..], b[1..]);
      assert a == [a[0]] + a[1..] && b == [b[0]] + b[1..];
    }
  }

  // ---------- The sort ----------

  /** The sorter's graph over the positions of `h`: an edge leads from a parent or earlier version to a later one. */
  predicate GraphOf(h: History, g: Sorter.Graph) {
    && |g| == |h|
    && Sorter.WellFormed(g)
    && forall j: nat, i: nat :: j < |h| && i < |h| ==> (i in g[j] <==> Precedes(h[j], h[i]))
  }

  ghost function PositionOf(h: History, v: Version): (i: nat)
    requires v in h
    ensures i < |h| && h[i] == v
  {
    var i :| 0 <= i < |h| && h[i] == v; i
  }

  /** Loops between positions are loops between versions. */
  lemma LoopsOfPositions(h: History, g: Sorter.Graph)
    requires GraphOf(h, g)
    ensures Sorter.HasLoop(g) <==> Cyclic(Elements(h))
  {
    if Sorter.HasLoop(g) {
      var path :| Sorter.IsLoop(g, path);
      var loop := seq(|path|, k requires 0 <= k < |path| => h[path[k]]);
      forall k | 0 <= k < |loop| - 1
        ensures Precedes(loop[k], loop[k + 1])
      {
        assert path[k + 1] in g[path[k]];
      }
      assert IsLoop(loop, Elements(h));
    }
    if Cyclic(Elements(h)) {
      var loop :| IsLoop(loop, Elements(h));
      var path := seq(|loop|, k requires 0 <= k < |loop| => PositionOf(h, loop[k]));
      forall k | 0 <= k < |path| - 1
        ensures path[k + 1] in g[path[k]]
      {
        assert Precedes(loop[k], loop[k + 1]);
      }
      assert Sorter.IsLoop(g, path);
    }
  }

  /** The versions at the given positions, last position first. */
  function Reversed(h: History, positions: seq<nat>): (r: History)
    requires forall k :: 0 <= k < |positions| ==> positions[k] < |h|
    ensures |r| == |positions|
    ensures forall k :: 0 <= k < |r| ==> r[k] == h[positions[|positions| - 1 - k]]
  {
    seq(|positions|, k requires 0 <= k < |positions| => h[positions[|positions| - 1 - k]])
  }

  /** `positions` lists every position of a history of length `n` once. */
  ghost predicate Lists(positions: seq<nat>, n: nat) {
    && Sorter.NoDuplicates(positions)
    && forall v: nat :: v in positions <==> v < n
  }

  lemma DropLargest(positions: seq<nat>, n: nat, p: nat)
    requires Lists(positions, n + 1) && p < |positions| && positions[p] == n
    ensures Lists(positions[..p] + positions[p + 1..], n)
  {
    var rest := positions[..p] + positions[p + 1..];
    forall v: nat
      ensures v in rest <==> v < n
    {
      if v in rest {
        assert v in positions && v != n;
      }
      if v < n {
        assert v in positions;
        var k :| 0 <= k < |positions| && positions[k] == v;
        assert rest[if k < p then k else k - 1] == v;
      }
    }
  }

  lemma WithoutOne(h: History, q: nat)
    requires q < |h|
    ensures multiset(h) == multiset(h[..q] + h[q + 1..]) + multiset{h[q]}
  {
    assert h == h[..q] + [h[q]] + h[q + 1..];
  }

  lemma ReversedWithoutLargest(h: History, positions: seq<nat>, p: nat)
    requires forall k :: 0 <= k < |positions| ==> positions[k] < |h|
    requires |h| > 0 && p < |positions| && positions[p] == |h| - 1
    requires Lists(positions[..p] + positions[p + 1..], |h| - 1)
    ensures
      var rest, r, q := positions[..p] + positions[p + 1..], Reversed(h, positions), |positions| - 1 - p;
      && (forall k :: 0 <= k < |rest| ==> rest[k] < |h| - 1)
      && Reversed(h[..|h| - 1], rest) == r[..q] + r[q + 1..]
      && r[q] == h[|h| - 1]
  {
    var rest := positions[..p] + positions[p + 1..];
    assert forall k :: 0 <= k < |rest| ==> rest[k] in rest;
  }

  lemma {:induction false} ReversedIsPermutation(h: History, positions: seq<nat>)
    requires Lists(positions, |h|)
    requires forall k :: 0 <= k < |positions| ==> positions[k] < |h|
    ensures multiset(Reversed(h, positions)) == multiset(h)
    decreases |h|
  {
    if positions == [] {
      assert h == [] || 0 in positions;
    } else {
      assert positions[0] < |h|;
      var n := |h| - 1;
      assert n in positions;
      var p :| 0 <= p < |positions| && positions[p] == n;
      DropLargest(positions, n, p);
      ReversedWithoutLargest(h, positions, p);
      ReversedIsPermutation(h[..n], positions[..p] + positions[p + 1..]);
      PutBack(h, Reversed(h, positions), |positions| - 1 - p);
    }
  }

  lemma PutBack(h: History, r: History, q: nat)
    requires h != [] && q < |r| && r[q] == h[|h| - 1]
    requires multiset(r[..q] + r[q + 1..]) == multiset(h[..|h| - 1])
    ensures multiset(r) == multiset(h)
  {
    WithoutOne(r, q);
    assert h == h[..|h| - 1] + [h[|h| - 1]];
  }

  /** What the sorter's answer means for the history. */
  lemma SortedPositions(h: History, g: Sorter.Graph)
    requires GraphOf(h, g)
    ensures Sorter.Sort(g).cyclic <==> Cyclic(Elements(h))
    ensures forall k :: 0 <= k < |Sorter.Sort(g).sorted| && !Cyclic(Elements(h)) ==> Sorter.Sort(g).sorted[k] < |h|
    ensures !Cyclic(Elements(h)) ==> IsSortOf(h, Reversed(h, Sorter.Sort(g).sorted))
  {
    LoopsOfPositions(h, g);
    var t := Sorter.Sort(g);
    if !t.cyclic {
      var s := t.sorted;
      var r := Reversed(h, s);
      ReversedIsPermutation(h, s);
      forall a, b | 0 <= a <= b < |r|
        ensures !Precedes(r[b], r[a])
      {
        var from, to := |s| - 1 - b, |s| - 1 - a;
        assert s[to] in g[s[from]] ==> s[to] in s[..from];
      }
    }
  }

  /** The positions below `n` that must come after position `j`. */
  function Later(h: History, j: nat, n: nat): (s: seq<nat>)
    requires j < |h| && n <= |h|
    ensures forall i: nat :: i in s <==> i < n && Precedes(h[j], h[i])
  {
    if n == 0 then []
    else Later(h, j, n - 1) + if Precedes(h[j], h[n - 1]) then [n - 1] else []
  }

  /** Exactly the acyclic histories can be sorted. */
  lemma SortExists(h: History)
    ensures (exists sorted :: IsSortOf(h, sorted)) <==> !Cyclic(Elements(h))
  {
    if sorted :| IsSortOf(h, sorted) {
      OrderedIsAcyclic(sorted);
      ReorderingKeepsDistinct(h, sorted);
    }
    if !Cyclic(Elements(h)) {
      var g := seq(|h|, j requires 0 <= j < |h| => Later(h, j, |h|));
      assert GraphOf(h, g);
      SortedPositions(h, g);
    }
  }

  /** The parent edges of the first `i` versions have been added. */
  predicate HasParentEdges(h: History, g: Sorter.Graph, i: nat)
    requires |g| == |h|
  {
    forall a: nat, b: nat {:trigger b in g[a]} :: a < |h| && b < |h| ==>
      (b in g[a] <==> b < i && h[a].hash in h[b].parents)
  }

  /** All parent edges have been added, and the date edges up to position `j` of version `i`. */
  predicate HasDateEdges(h: History, g: Sorter.Graph, i: nat, j: nat)
    requires |g| == |h|
  {
    forall a: nat, b: nat {:trigger b in g[a]} :: a < |h| && b < |h| ==>
      (b in g[a] <==>
       (h[a].hash in h[b].parents || (h[a].date < h[b].date && (b < i || (b == i && a < j)))))
  }

  /** The sort of the code: add a node per position, the parent edges, the date edges, sort, and reverse. */
  method Toposort(versions: History) returns (r: Option<History>)
    ensures r.Some? <==> !Cyclic(Elements(versions))
    ensures r.Some? ==> IsSortOf(versions, r.value)
  {
    var n := |versions|;
    var g: Sorter.Graph := [];
    for i := 0 to n
      invariant |g| == i && forall j :: 0 <= j < i ==> g[j] == []
    {
      g := g + [[]];
    }
    for i := 0 to n
      invariant |g| == n && Sorter.WellFormed(g) && HasParentEdges(versions, g, i)
    {
      g := AddParents(versions, g, i);
    }
    for i := 0 to n
      invariant |g| == n && Sorter.WellFormed(g) && HasDateEdges(versions, g, i, 0)
    {
      for j := 0 to n
        invariant |g| == n && Sorter.WellFormed(g) && HasDateEdges(versions, g, i, j)
      {
        if versions[j].date < versions[i].date {
          g := AddEdge(g, j, i);
        }
      }
    }
    assert GraphOf(versions, g);
    SortedPositions(versions, g);
    var trip := Sorter.Sort(g);
    if trip.cyclic {
      return None;
    }
    var sorted := trip.sorted;
    var count := |sorted|;
    var out := new Version[count];
    var i := count - 1;
    while i >= 0
      invariant -1 <= i < count
      invariant forall k :: 0 <= k < count - 1 - i ==> out[k] == versions[sorted[count - 1 - k]]
    {
      out[count - 1 - i] := versions[sorted[i]];
      i := i - 1;
    }
    assert out[..] == Reversed(versions, sorted);
    r := Some(out[..]);
  }

  function AddEdge(g: Sorter.Graph, from: nat, to: nat): (more: Sorter.Graph)
    requires from < |g| && to < |g| && Sorter.WellFormed(g)
    ensures |more| == |g| && Sorter.WellFormed(more)
    ensures forall a: nat, b: nat :: a < |g| ==> (b in more[a] <==> b in g[a] || (a == from && b == to))
  {
    g[from := g[from] + [to]]
  }

  /** The parent edges of one version. */
  method AddParents(versions: History, g0: Sorter.Graph, i: nat) returns (g: Sorter.Graph)
    requires i < |versions| == |g0| && Sorter.WellFormed(g0)
    ensures |g| == |g0| && Sorter.WellFormed(g)
    ensures forall a: nat, b: nat :: a < |g| ==>
              (b in g[a] <==> b in g0[a] || (b == i && versions[a].hash in versions[i].parents))
  {
    g := g0;
    var parents := versions[i].parents;
    for j := 0 to |versions|
      invariant |g| == |g0| && Sorter.WellFormed(g)
      invariant forall a: nat, b: nat :: a < |g| ==>
                  (b in g[a] <==> b in g0[a] || (b == i && a < j && versions[a].hash in parents))
    {
      for k := 0 to |parents|
        invariant |g| == |g0| && Sorter.WellFormed(g)
        invariant forall a: nat, b: nat :: a < |g| ==>
                    (b in g[a] <==>
                     (b in g0[a]
                      || (b == i && a <= j && versions[a].hash in (if a == j then parents[..k] else parents))))
      {
        assert parents[..k + 1] == parents[..k] + [parents[k]];
        if versions[j].hash == parents[k] {
          g := AddEdge(g, j, i);
        }
      }
      assert parents[..|parents|] == parents;
    }
  }
}
