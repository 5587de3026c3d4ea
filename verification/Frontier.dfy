/** Parents, leaves, and the frontier a new version is committed to. */
module Frontier {
  import opened Versions
  import opened Ordering
  import opened Manifest
  import opened Filtering

  predicate Present(h: History, hash: Hash) {
    exists v :: v in h && v.hash == hash
  }

  predicate IsParent(h: History, hash: Hash) {
    exists v :: v in h && hash in v.parents
  }

  predicate ParentClosed(h: History) {
    forall v, p :: v in h && p in v.parents ==> Present(h, p)
  }

  function Unknown(h: History, commits: seq<Hash>): (u: seq<Hash>)
    ensures u == [] <==> forall c :: c in commits ==> Present(h, c)
  {
    if commits == [] then []
    else
      var n := |commits| - 1;
      assert commits == commits[..n] + [commits[n]];
      Unknown(h, commits[..n]) + if Present(h, commits[n]) then [] else [commits[n]]
  }

  ghost function IsUnknown(h: History): Hash -> bool {
    hash => !Present(h, hash)
  }

  ghost function IsLeaf(h: History): Version -> bool {
    (v: Version) => !IsParent(h, v.hash)
  }

  /** The hashes of the list that are unknown, in its order and as often as it has them. */
  lemma {:induction false} UnknownKeepsOrder(h: History, commits: seq<Hash>)
    ensures IsFiltered(commits, IsUnknown(h), Unknown(h, commits))
  {
    if commits == [] {
      FilteredNone(IsUnknown(h));
    } else {
      var n := |commits| - 1;
      UnknownKeepsOrder(h, commits[..n]);
      FilteredOneMore(commits, IsUnknown(h), Unknown(h, commits[..n]), Unknown(h, commits));
    }
  }

  /** The first `n` versions that no version of `h` names as a parent, in their order. */
  function LeavesUpTo(h: History, n: nat): History
    requires n <= |h|
  {
    if n == 0 then [] else LeavesUpTo(h, n - 1) + if IsParent(h, h[n - 1].hash) then [] else [h[n - 1]]
  }

  lemma {:induction false} LeavesUpToContents(h: History, n: nat)
    requires n <= |h|
    ensures forall v :: v in LeavesUpTo(h, n) <==> v in h[..n] && !IsParent(h, v.hash)
  {
    if n > 0 {
      LeavesUpToContents(h, n - 1);
      assert h[..n] == h[..n - 1] + [h[n - 1]];
    }
  }

  function Leaves(h: History): (leaves: History)
    ensures forall v :: v in leaves <==> v in h && !IsParent(h, v.hash)
  {
    LeavesUpToContents(h, |h|);
    assert h[..|h|] == h;
    LeavesUpTo(h, |h|)
  }

  method UnknownCommits(h: History, commits: seq<Hash>) returns (unknown: seq<Hash>)
    ensures unknown == Unknown(h, commits)
  {
    unknown := [];
    for i := 0 to |commits|
      invariant unknown == Unknown(h, commits[..i])
    {
      assert commits[..i + 1][..i] == commits[..i];
      var seen := false;
      for j := 0 to |h|
        invariant !seen && forall k :: 0 <= k < j ==> h[k].hash != commits[i]
      {
        if h[j].hash == commits[i] {
          seen := true;
          break;
        }
      }
      if !seen {
        unknown := unknown + [commits[i]];
      }
    }
    assert commits[..|commits|] == commits;
  }

  ghost function AsSet(hashes: seq<Hash>): set<Hash> {
    set hash | hash in hashes
  }

  /** Every hash that some version names as a parent. */
  ghost function ParentSet(h: History): (parents: set<Hash>)
    ensures forall hash :: hash in parents <==> IsParent(h, hash)
  {
    if h == [] then {}
    else
      var n := |h| - 1;
      assert h == h[..n] + [h[n]];
      ParentSet(h[..n]) + AsSet(h[n].parents)
  }

  lemma {:induction false} LeavesUpToKeepOrder(h: History, n: nat)
    requires n <= |h|
    ensures IsFiltered(h[..n], IsLeaf(h), LeavesUpTo(h, n))
  {
    if n == 0 {
      FilteredNone(IsLeaf(h));
    } else {
      assert h[..n][..n - 1] == h[..n - 1];
      LeavesUpToKeepOrder(h, n - 1);
      FilteredOneMore(h[..n], IsLeaf(h), LeavesUpTo(h, n - 1), LeavesUpTo(h, n));
    }
  }

  /** The versions that nobody names as a parent, in the order of the history. */
  lemma LeavesKeepOrder(h: History)
    ensures IsFiltered(h, IsLeaf(h), Leaves(h))
  {
    LeavesUpToKeepOrder(h, |h|);
    assert h[..|h|] == h;
  }

  lemma LeavesAreDistinct(h: History)
    requires Distinct(h)
    ensures Distinct(Leaves(h))
  {
    LeavesKeepOrder(h);
    var at: seq<nat> :| IsKeptAt(h, IsLeaf(h), Leaves(h), at);
  }

  /** The inner loop: mark the parents of one version. */
  method MarkParents(marked: map<Hash, bool>, parents: seq<Hash>) returns (isParent: map<Hash, bool>)
    ensures isParent.Keys == marked.Keys + AsSet(parents)
  {
    isParent := marked;
    for j := 0 to |parents|
      invariant isParent.Keys == marked.Keys + AsSet(parents[..j])
    {
      assert parents[..j + 1] == parents[..j] + [parents[j]];
      isParent := isParent[parents[j] := true];
    }
    assert parents[..|parents|] == parents;
  }

  method MarkAll(h: History) returns (isParent: map<Hash, bool>)
    ensures forall hash :: hash in isParent <==> IsParent(h, hash)
  {
    isParent := map[];
    for i := 0 to |h|
      invariant isParent.Keys == ParentSet(h[..i])
    {
      assert h[..i + 1][..i] == h[..i];
      isParent := MarkParents(isParent, h[i].parents);
    }
    assert h[..|h|] == h;
  }

  method LeafVersions(h: History) returns (leaves: History)
    ensures leaves == Leaves(h)
  {
    var isParent := MarkAll(h);
    leaves := [];
    for i := 0 to |h|
      invariant leaves == LeavesUpTo(h, i)
    {
      if h[i].hash !in isParent {
        leaves := leaves + [h[i]];
      }
    }
  }

  // ---------- Closure ----------

  lemma MergeKeepsPresent(rule: ParentRule, ours: History, theirs: History, out: History)
    requires IsMerge(rule, ours, theirs, out)
    ensures forall hash :: Present(out, hash) <==> Present(ours, hash) || Present(theirs, hash)
  {
    MergeContents(rule, ours, theirs, out);
    forall v | v in theirs
      ensures Present(out, v.hash)
    {
      if Known(rule, ours, v) {
        var o :| o in ours && Equal(rule, v, o);
        assert o in out;
      }
    }
  }

  /** Merging keeps every listed parent present, if the old history has this property and the parents listed by the
      added versions are found in either history. */
  lemma MergeKeepsClosed(rule: ParentRule, ours: History, theirs: History, out: History)
    requires IsMerge(rule, ours, theirs, out) && ParentClosed(ours)
    requires forall v, p :: v in theirs && p in v.parents ==> Present(ours, p) || Present(theirs, p)
    ensures ParentClosed(out)
  {
    MergeContents(rule, ours, theirs, out);
    MergeKeepsPresent(rule, ours, theirs, out);
  }

  /** A commit keeps it so exactly when none of the new version's parents is unknown, given that the version is new
      and comes out of the sort. */
  lemma CommitKeepsClosed(rule: ParentRule, h: History, v: Version, out: History)
    requires IsMerge(rule, h, [v], out) && ParentClosed(h) && !Present(h, v.hash)
    ensures ParentClosed(out) <==> Unknown(h, v.parents) == []
  {
    MergeContents(rule, h, [v], out);
    MergeKeepsPresent(rule, h, [v], out);
    assert v in [v] && v in out;
    NotOwnParent(out, v);
    if ParentClosed(out) {
      forall p | p in v.parents
        ensures Present(h, p)
      {
        assert Present(out, p);
      }
    }
  }

  lemma NotOwnParent(h: History, v: Version)
    requires Ordered(h) && v in h
    ensures v.hash !in v.parents
  {
    var i :| 0 <= i < |h| && h[i] == v;
    assert !Precedes(h[i], h[i]);
  }

  // ---------- The frontier ----------

  /** In a sorted history the last version is a leaf. */
  lemma LastIsLeaf(h: History)
    requires Ordered(h) && h != []
    ensures h[|h| - 1] in Leaves(h)
  {
    var last := h[|h| - 1];
    forall v | v in h
      ensures last.hash !in v.parents
    {
      var k :| 0 <= k < |h| && h[k] == v;
      assert !Precedes(last, h[k]);
    }
  }

  /** A chain of children, possibly empty, leads from `v` to a leaf. */
  ghost predicate ReachesLeaf(h: History, v: Version) {
    v in Leaves(h)
    || exists chain :: IsDescent(chain, Elements(h)) && chain[0] == v && chain[|chain| - 1] in Leaves(h)
  }

  lemma LongerDescent(v: Version, chain: seq<Version>, vs: set<Version>)
    requires IsDescent(chain, vs) && v in vs && v.hash in chain[0].parents
    ensures IsDescent([v] + chain, vs)
  {
    var longer := [v] + chain;
    assert forall k :: 1 <= k < |longer| ==> longer[k] == chain[k - 1];
  }

  lemma ReachesThroughChild(h: History, v: Version, child: Version)
    requires v in h && child in h && v.hash in child.parents && ReachesLeaf(h, child)
    ensures ReachesLeaf(h, v)
  {
    if child in Leaves(h) {
      assert IsDescent([v, child], Elements(h));
    } else {
      var chain :| IsDescent(chain, Elements(h)) && chain[0] == child && chain[|chain| - 1] in Leaves(h);
      LongerDescent(v, chain, Elements(h));
      var longer := [v] + chain;
      assert longer[|longer| - 1] == chain[|chain| - 1];
    }
  }

  /** Following children from any version ends at a leaf. */
  lemma {:induction false} EveryVersionReachesLeaf(h: History, i: nat)
    requires Ordered(h) && i < |h|
    ensures ReachesLeaf(h, h[i])
    decreases |h| - i
  {
    if h[i] !in Leaves(h) {
      var child :| child in h && h[i].hash in child.parents;
      var k :| 0 <= k < |h| && h[k] == child;
      assert Precedes(h[i], h[k]);
      EveryVersionReachesLeaf(h, k);
      ReachesThroughChild(h, h[i], child);
    }
  }

  /** Committing a fresh version takes its parents off the frontier and puts the version on it, unless an older
      version already names it as a parent. */
  lemma CommitMovesFrontier(rule: ParentRule, h: History, v: Version, out: History)
    requires IsMerge(rule, h, [v], out) && !Present(h, v.hash)
    ensures forall x :: x in Leaves(out) <==>
              (x == v && !IsParent(h, v.hash)) || (x in Leaves(h) && x.hash !in v.parents)
    ensures ParentClosed(h) ==> v in Leaves(out)
  {
    MergeContents(rule, h, [v], out);
    assert v in [v] && v in out;
    NotOwnParent(out, v);
    forall x | x in out
      ensures IsParent(out, x.hash) <==> IsParent(h, x.hash) || x.hash in v.parents
    {
      if IsParent(out, x.hash) {
        var c :| c in out && x.hash in c.parents;
      }
      if IsParent(h, x.hash) {
        var c :| c in h && x.hash in c.parents;
        assert c in out;
      }
    }
  }

  /** Taking the whole frontier as parents, and nothing less, leaves the new version as the only leaf. */
  lemma CommitOnFrontier(rule: ParentRule, h: History, v: Version, out: History)
    requires IsMerge(rule, h, [v], out) && ParentClosed(h) && !Present(h, v.hash)
    ensures Elements(Leaves(out)) == {v} <==> forall x :: x in Leaves(h) ==> x.hash in v.parents
  {
    CommitMovesFrontier(rule, h, v, out);
    assert v !in h;
    if Elements(Leaves(out)) == {v} {
      forall x | x in Leaves(h)
        ensures x.hash in v.parents
      {
        assert x !in Elements(Leaves(out));
      }
    }
  }

  // ---------- When a commit is refused ----------

  lemma FreshDelta(rule: ParentRule, h: History, v: Version)
    requires !Present(h, v.hash)
    ensures ConflictFree(rule, h, [v]) && Delta(rule, h, [v]) == [v]
  {
    assert [v][..0] == [];
    assert Delta(rule, h, []) == [];
  }

  /** A chain of parent links among versions of one date leads from `v` back to `v`. */
  ghost predicate LeadsBack(h: History, v: Version) {
    exists loop :: IsSameDateLoop(loop, Elements(h) + {v}) && loop[0] == v
  }

  /** A loop can be walked from any of its versions. */
  lemma RotateLoop(loop: seq<Version>, vs: set<Version>, k: nat)
    requires IsSameDateLoop(loop, vs) && k < |loop|
    ensures exists other :: IsSameDateLoop(other, vs) && other[0] == loop[k]
  {
    var n := |loop| - 1;
    if 0 < k < n {
      var other := loop[k..] + loop[1..k + 1];
      forall i | 0 <= i < |other| - 1
        ensures other[i].hash in other[i + 1].parents
      {
        if i < n - k {
          assert loop[k + i].hash in loop[k + i + 1].parents;
        } else {
          var j := i - (n - k);
          assert loop[j].hash in loop[j + 1].parents;
        }
      }
      assert IsSameDateLoop(other, vs) && other[0] == loop[k];
    }
  }

  /** A same-date loop that is not in `h` already passes through `v`. */
  lemma LoopThroughFresh(h: History, v: Version)
    requires !Cyclic(Elements(h))
    ensures (exists loop :: IsSameDateLoop(loop, Elements(h) + {v})) <==> LeadsBack(h, v)
  {
    CycleCauses(Elements(h));
    if loop :| IsSameDateLoop(loop, Elements(h) + {v}) {
      if k :| 0 <= k < |loop| && loop[k] == v {
        RotateLoop(loop, Elements(h) + {v}, k);
      } else {
        assert IsSameDateLoop(loop, Elements(h));
      }
    }
  }

  lemma LateParentOfFresh(h: History, v: Version)
    requires !HasLateParent(Elements(h))
    ensures HasLateParent(Elements(h) + {v}) <==>
      || (exists x :: x in h && x.hash in v.parents && v.date < x.date)
      || (exists x :: x in h && v.hash in x.parents && x.date < v.date)
  {
    var all := Elements(h) + {v};
    if x :| x in h && x.hash in v.parents && v.date < x.date {
      assert x in all && v in all;
    }
    if x :| x in h && v.hash in x.parents && x.date < v.date {
      assert x in all && v in all;
    }
    if HasLateParent(all) {
      var parent, child :| parent in all && child in all && parent.hash in child.parents && child.date < parent.date;
      assert child == v || parent == v;
    }
  }

  /** A version that is not present yet can be committed exactly when no present parent has a later date, as a clock
      that runs behind would produce, no version that already names it as a parent has an earlier date, and no chain
      of parent links within one date leads back to it. */
  lemma CommitSucceedsExactly(rule: ParentRule, h: History, v: Version)
    requires Ordered(h) && !Present(h, v.hash)
    ensures Mergeable(rule, h, [v]) <==>
      && (forall x :: x in h && x.hash in v.parents ==> x.date <= v.date)
      && (forall x :: x in h && v.hash in x.parents ==> v.date <= x.date)
      && !LeadsBack(h, v)
  {
    FreshDelta(rule, h, v);
    OrderedIsAcyclic(h);
    CycleCauses(Elements(h));
    LateParentOfFresh(h, v);
    LoopThroughFresh(h, v);
    CycleCauses(Elements(h) + {v});
    assert Elements(h + [v]) == Elements(h) + {v};
  }

  /** When no present version names the new one, a chain leads back to it only if it is its own parent. */
  lemma UnnamedLeadsBack(h: History, v: Version)
    requires !IsParent(h, v.hash)
    ensures LeadsBack(h, v) <==> v.hash in v.parents
  {
    if v.hash in v.parents {
      assert IsSameDateLoop([v, v], Elements(h) + {v});
    }
    if LeadsBack(h, v) {
      var loop: seq<Version> :| IsSameDateLoop(loop, Elements(h) + {v}) && loop[0] == v;
      assert loop[0].hash in loop[1].parents && loop[1] in Elements(h) + {v};
    }
  }
}
