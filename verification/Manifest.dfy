/** Comparing and merging two histories. */
module Manifest {
  import opened Wrappers
  import opened Versions
  import opened Ordering
  import opened Filtering

  datatype Conflict = Conflict(left: Version, right: Version)

  datatype MergeResult = Merged(versions: History) | Conflicting(conflicts: seq<Conflict>) | CycleDetected

  // ---------- Specifications ----------

  predicate Known(rule: ParentRule, ours: History, v: Version) {
    exists o :: o in ours && Equal(rule, v, o)
  }

  /** The versions of `theirs` that `ours` lacks, in their order. */
  function Delta(rule: ParentRule, ours: History, theirs: History): History {
    if theirs == [] then []
    else
      var last := theirs[|theirs| - 1];
      Delta(rule, ours, theirs[..|theirs| - 1]) + if Known(rule, ours, last) then [] else [last]
  }

  predicate InConflict(rule: ParentRule, left: Version, right: Version) {
    SameHash(right, left) && !Equal(rule, right, left)
  }

  predicate ConflictFree(rule: ParentRule, ours: History, theirs: History) {
    forall x, y :: x in ours && y in theirs ==> !InConflict(rule, x, y)
  }

  /** `out` is an outcome the merge may have: any sort of the old versions and the delta. */
  ghost predicate IsMerge(rule: ParentRule, ours: History, theirs: History, out: History) {
    ConflictFree(rule, ours, theirs) && IsSortOf(ours + Delta(rule, ours, theirs), out)
  }

  ghost predicate Mergeable(rule: ParentRule, ours: History, theirs: History) {
    ConflictFree(rule, ours, theirs) && !Cyclic(Elements(ours + Delta(rule, ours, theirs)))
  }

  /** `conflicts` names exactly the conflicting pairs, and none twice when no hash is repeated on either side. */
  ghost predicate ListsConflicts(conflicts: seq<Conflict>, ours: History, theirs: History) {
    && (forall c :: c in conflicts <==> c.left in ours && c.right in theirs && InConflict(AsWritten, c.left, c.right))
    && (Distinct(ours) && Distinct(theirs) ==> NoRepeats(conflicts))
  }

  ghost predicate NoRepeats(conflicts: seq<Conflict>) {
    forall i, j :: 0 <= i < j < |conflicts| ==> conflicts[i] != conflicts[j]
  }

  lemma NoneListed(ours: History, theirs: History)
    requires ConflictFree(AsWritten, ours, theirs)
    ensures ListsConflicts([], ours, theirs)
  {
  }

  // ---------- The code ----------

  /** All conflicting pairs; there is no conflict exactly when `ok`. */
  method Conflicts(ours: History, theirs: History) returns (conflicts: seq<Conflict>, ok: bool)
    ensures ListsConflicts(conflicts, ours, theirs)
    ensures ok <==> conflicts == []
    ensures ok <==> ConflictFree(AsWritten, ours, theirs)
  {
    conflicts := [];
    for j := 0 to |theirs|
      invariant forall c :: c in conflicts <==>
                  c.left in ours && c.right in theirs[..j] && InConflict(AsWritten, c.left, c.right)
      invariant Distinct(ours) && Distinct(theirs) ==> NoRepeats(conflicts)
    {
      assert theirs[..j + 1] == theirs[..j] + [theirs[j]];
      for i := 0 to |ours|
        invariant forall c :: c in conflicts <==>
                    && InConflict(AsWritten, c.left, c.right)
                    && ((c.left in ours && c.right in theirs[..j]) || (c.left in ours[..i] && c.right == theirs[j]))
        invariant Distinct(ours) && Distinct(theirs) ==> NoRepeats(conflicts)
      {
        assert ours[..i + 1] == ours[..i] + [ours[i]];
        var equal := VersionsEqual(theirs[j], ours[i]);
        if SameHash(theirs[j], ours[i]) && !equal {
          conflicts := conflicts + [Conflict(ours[i], theirs[j])];
        }
      }
      assert ours[..|ours|] == ours;
    }
    assert theirs[..|theirs|] == theirs;
    ok := |conflicts| == 0;
    if !ConflictFree(AsWritten, ours, theirs) {
      ghost var x, y :| x in ours && y in theirs && InConflict(AsWritten, x, y);
      assert Conflict(x, y) in conflicts;
    }
    if !ok {
      assert conflicts[0] in conflicts;
    }
  }

  /** Look for a version, as both loops below do. */
  method Find(ours: History, v: Version) returns (found: bool)
    ensures found <==> Known(AsWritten, ours, v)
  {
    found := false;
    for i := 0 to |ours|
      invariant !found && forall k :: 0 <= k < i ==> !Equal(AsWritten, v, ours[k])
    {
      var equal := VersionsEqual(v, ours[i]);
      if equal {
        return true;
      }
    }
  }

  method Diff(ours: History, theirs: History) returns (r: Option<History>)
    ensures r == if ConflictFree(AsWritten, ours, theirs) then Some(Delta(AsWritten, ours, theirs)) else None
  {
    var _, ok := Conflicts(ours, theirs);
    if !ok {
      return None;
    }
    var versions := [];
    for j := 0 to |theirs|
      invariant versions == Delta(AsWritten, ours, theirs[..j])
    {
      assert theirs[..j + 1][..j] == theirs[..j];
      var found := Find(ours, theirs[j]);
      if !found {
        versions := versions + [theirs[j]];
      }
    }
    assert theirs[..|theirs|] == theirs;
    r := Some(versions);
  }

  method Merge(ours: History, theirs: History) returns (r: MergeResult)
    ensures r.Merged? <==> Mergeable(AsWritten, ours, theirs)
    ensures r.Conflicting? <==> !ConflictFree(AsWritten, ours, theirs)
    ensures r.Merged? ==> IsMerge(AsWritten, ours, theirs, r.versions)
    ensures r.Conflicting? ==> r.conflicts != [] && ListsConflicts(r.conflicts, ours, theirs)
  {
    var conflicts, ok := Conflicts(ours, theirs);
    if !ok {
      return Conflicting(conflicts);
    }
    var updated := [];
    for i := 0 to |ours|
      invariant updated == ours[..i]
    {
      updated := updated + [ours[i]];
    }
    for j := 0 to |theirs|
      invariant updated == ours + Delta(AsWritten, ours, theirs[..j])
    {
      assert theirs[..j + 1][..j] == theirs[..j];
      var found := Find(ours, theirs[j]);
      if !found {
        updated := updated + [theirs[j]];
      }
    }
    assert theirs[..|theirs|] == theirs;
    var sorted := Toposort(updated);
    match sorted {
      case None => r := CycleDetected;
      case Some(versions) => r := Merged(versions);
    }
  }

  // ---------- What a merge contains ----------

  lemma {:induction false} DeltaElements(rule: ParentRule, ours: History, theirs: History)
    ensures forall v :: v in Delta(rule, ours, theirs) <==> v in theirs && !Known(rule, ours, v)
  {
    if theirs != [] {
      DeltaElements(rule, ours, theirs[..|theirs| - 1]);
      assert theirs == theirs[..|theirs| - 1] + [theirs[|theirs| - 1]];
    }
  }

  ghost function IsNew(rule: ParentRule, ours: History): Version -> bool {
    v => !Known(rule, ours, v)
  }

  /** The difference keeps the order and the repetitions of the new versions. */
  lemma {:induction false} DeltaKeepsOrder(rule: ParentRule, ours: History, theirs: History)
    ensures IsFiltered(theirs, IsNew(rule, ours), Delta(rule, ours, theirs))
  {
    if theirs == [] {
      FilteredNone(IsNew(rule, ours));
    } else {
      var n := |theirs| - 1;
      DeltaKeepsOrder(rule, ours, theirs[..n]);
      FilteredOneMore(theirs, IsNew(rule, ours), Delta(rule, ours, theirs[..n]), Delta(rule, ours, theirs));
    }
  }

  /** A merge keeps every old version, counted with its repetitions, and adds exactly the delta. */
  lemma MergeContents(rule: ParentRule, ours: History, theirs: History, out: History)
    requires IsMerge(rule, ours, theirs, out)
    ensures multiset(out) == multiset(ours) + multiset(Delta(rule, ours, theirs))
    ensures Ordered(out) && !Cyclic(Elements(out))
    ensures forall v :: v in out <==> v in ours || (v in theirs && !Known(rule, ours, v))
  {
    ReorderingKeepsDistinct(ours + Delta(rule, ours, theirs), out);
    DeltaElements(rule, ours, theirs);
    OrderedIsAcyclic(out);
    assert forall v :: v in Elements(out) <==> v in ours + Delta(rule, ours, theirs);
  }

  /** With exact equality a merge is a union. */
  lemma MergeIsUnion(rule: ParentRule, ours: History, theirs: History, out: History)
    requires IsMerge(rule, ours, theirs, out) && Coherent(rule, Elements(ours) + Elements(theirs))
    ensures Elements(out) == Elements(ours) + Elements(theirs)
  {
    MergeContents(rule, ours, theirs, out);
    forall v | v in theirs && Known(rule, ours, v)
      ensures v in ours
    {
      var o :| o in ours && Equal(rule, v, o);
      assert v in Elements(ours) + Elements(theirs) && o in Elements(ours) + Elements(theirs);
    }
  }

  /** The same for two histories taken from a coherent set of versions. */
  lemma MergeWithin(rule: ParentRule, vs: set<Version>, ours: History, theirs: History, out: History)
    requires Coherent(rule, vs) && Elements(ours) <= vs && Elements(theirs) <= vs
    requires IsMerge(rule, ours, theirs, out)
    ensures Elements(out) == Elements(ours) + Elements(theirs)
  {
    assert Coherent(rule, Elements(ours) + Elements(theirs)) by {
      assert Elements(ours) + Elements(theirs) <= vs;
    }
    MergeIsUnion(rule, ours, theirs, out);
  }

  /** A merge holds nothing that neither side held. */
  lemma MergeStaysWithin(rule: ParentRule, vs: set<Version>, ours: History, theirs: History, out: History)
    requires Elements(ours) <= vs && Elements(theirs) <= vs && IsMerge(rule, ours, theirs, out)
    ensures Elements(out) <= vs
  {
    MergeContents(rule, ours, theirs, out);
    assert forall v :: v in out ==> v in Elements(ours) || v in Elements(theirs);
  }

  /** Whether a merge succeeds depends on the union only. */
  lemma MergeableByUnion(rule: ParentRule, ours: History, theirs: History)
    requires Coherent(rule, Elements(ours) + Elements(theirs))
    ensures Mergeable(rule, ours, theirs) <==>
              ConflictFree(rule, ours, theirs) && !Cyclic(Elements(ours) + Elements(theirs))
    ensures Mergeable(rule, ours, theirs) <==> exists out :: IsMerge(rule, ours, theirs, out)
  {
    DeltaElements(rule, ours, theirs);
    var all := ours + Delta(rule, ours, theirs);
    SortExists(all);
    forall v | v in theirs && Known(rule, ours, v)
      ensures v in ours
    {
      var o :| o in ours && Equal(rule, v, o);
      assert v in Elements(ours) + Elements(theirs) && o in Elements(ours) + Elements(theirs);
    }
    assert Elements(all) == Elements(ours) + Elements(theirs);
    if Mergeable(rule, ours, theirs) {
      var out :| IsSortOf(all, out);
      assert IsMerge(rule, ours, theirs, out);
    }
    if out :| IsMerge(rule, ours, theirs, out) {
      assert IsSortOf(all, out);
    }
  }

  lemma {:induction false} DeltaIsDistinct(rule: ParentRule, ours: History, theirs: History)
    requires Distinct(ours) && Distinct(theirs) && ConflictFree(rule, ours, theirs)
    ensures Distinct(ours + Delta(rule, ours, theirs))
  {
    if theirs != [] {
      var n := |theirs| - 1;
      DeltaIsDistinct(rule, ours, theirs[..n]);
      DeltaElements(rule, ours, theirs[..n]);
      var shorter := ours + Delta(rule, ours, theirs[..n]);
      forall v | v in shorter && !Known(rule, ours, theirs[n])
        ensures v.hash != theirs[n].hash
      {
        if v in ours {
          assert !InConflict(rule, v, theirs[n]);
        } else {
          var i :| 0 <= i < n && theirs[i] == v;
        }
      }
      assert ours + Delta(rule, ours, theirs) ==
        shorter + if Known(rule, ours, theirs[n]) then [] else [theirs[n]];
    }
  }

  /** Pairwise distinct hashes are kept. */
  lemma MergeKeepsDistinct(rule: ParentRule, ours: History, theirs: History, out: History)
    requires IsMerge(rule, ours, theirs, out) && Distinct(ours) && Distinct(theirs)
    ensures Distinct(out)
  {
    DeltaIsDistinct(rule, ours, theirs);
    ReorderingKeepsDistinct(ours + Delta(rule, ours, theirs), out);
  }

  /** Whether two histories conflict does not depend on which one is the old one. */
  lemma ConflictsAreSymmetric(rule: ParentRule, a: History, b: History)
    ensures ConflictFree(rule, a, b) <==> ConflictFree(rule, b, a)
  {
    assert forall x, y :: InConflict(rule, x, y) <==> InConflict(rule, y, x);
  }

  lemma NoConflictAfterMerge(rule: ParentRule, ours: History, theirs: History, out: History)
    requires IsMerge(rule, ours, theirs, out) && Distinct(theirs)
    ensures ConflictFree(rule, out, theirs)
  {
    MergeContents(rule, ours, theirs, out);
    forall x, y | x in out && y in theirs
      ensures !InConflict(rule, x, y)
    {
      if x in ours {
        assert !InConflict(rule, x, y);
      } else if x.hash == y.hash {
        OneVersionPerHash(theirs, x, y);
      }
    }
  }

  lemma {:induction false} NothingMissing(rule: ParentRule, ours: History, theirs: History)
    requires forall y :: y in theirs ==> Known(rule, ours, y)
    ensures Delta(rule, ours, theirs) == []
  {
    if theirs != [] {
      NothingMissing(rule, ours, theirs[..|theirs| - 1]);
      assert theirs[|theirs| - 1] in theirs;
    }
  }

  lemma AllKnownAfterMerge(rule: ParentRule, ours: History, theirs: History, out: History)
    requires forall v :: v in out <==> v in ours || (v in theirs && !Known(rule, ours, v))
    ensures forall y :: y in theirs ==> Known(rule, out, y)
  {
    forall y | y in theirs
      ensures Known(rule, out, y)
    {
      if Known(rule, ours, y) {
        var o :| o in ours && Equal(rule, y, o);
        assert o in out;
      } else {
        assert y in out && Equal(rule, y, y);
      }
    }
  }

  /** A merge absorbs what it was given: looking at the other history again finds no conflict and nothing missing,
      and merging it again brings nothing. */
  lemma MergeAbsorbs(rule: ParentRule, ours: History, theirs: History, out: History)
    requires IsMerge(rule, ours, theirs, out) && Distinct(theirs)
    ensures ConflictFree(rule, out, theirs) && Delta(rule, out, theirs) == []
    ensures Mergeable(rule, out, theirs) && IsMerge(rule, out, theirs, out)
    ensures forall again :: IsMerge(rule, out, theirs, again) ==> multiset(again) == multiset(out)
  {
    NoConflictAfterMerge(rule, ours, theirs, out);
    MergeContents(rule, ours, theirs, out);
    AllKnownAfterMerge(rule, ours, theirs, out);
    NothingMissing(rule, out, theirs);
    OrderedIsAcyclic(out);
    assert out + [] == out;
  }

  // ---------- Order of merging two histories ----------

  /** No version of `a` passes for a different version of `b`. */
  ghost predicate ParentsAgree(a: History, b: History) {
    forall x, y :: x in a && y in b && x.hash == y.hash ==> x.parents == y.parents
  }

  /** The two orders of merging give the same versions exactly when versions of one hash list the same parents. */
  lemma MergeCommutes(rule: ParentRule, a: History, b: History, ab: History, ba: History)
    requires Distinct(a) && Distinct(b)
    requires IsMerge(rule, a, b, ab) && IsMerge(rule, b, a, ba)
    ensures Elements(ab) == Elements(ba) <==> ParentsAgree(a, b)
    ensures rule == AsMeant ==> Elements(ab) == Elements(ba)
  {
    MergeContents(rule, a, b, ab);
    MergeContents(rule, b, a, ba);
    forall x, y | x in a && y in b && x.hash == y.hash
      ensures Equal(rule, x, y) && Equal(rule, y, x)
      ensures Elements(ab) == Elements(ba) ==> x == y
      ensures rule == AsMeant ==> x == y
    {
      assert !InConflict(rule, x, y) && !InConflict(rule, y, x);
      assert Known(rule, a, y) && Known(rule, b, x);
      if Elements(ab) == Elements(ba) {
        assert x in Elements(ab);
        assert x in b;
        OneVersionPerHash(b, x, y);
      }
    }
    if ParentsAgree(a, b) {
      forall v
        ensures v in ab <==> v in ba
      {
        if v in b && Known(rule, a, v) {
          var x :| x in a && Equal(rule, v, x);
          assert x == v;
        }
        if v in a && Known(rule, b, v) {
          var y :| y in b && Equal(rule, v, y);
          assert y == v;
        }
      }
    }
  }

  /** As the code is written, the order can matter. */
  lemma MergeOrderCanMatter()
    ensures exists a, b, ab, ba ::
      && Distinct(a) && Distinct(b)
      && IsMerge(AsWritten, a, b, ab) && IsMerge(AsWritten, b, a, ba)
      && Elements(ab) != Elements(ba)
  {
    var v := Version("ann", 0, "m", "h", "FILE", ["p"]);
    var w := v.(parents := ["q"]);
    assert v.parents[0] != w.parents[0];
    MergeWithTwin(v, w);
    MergeWithTwin(w, v);
    assert v in Elements([v]) && v !in Elements([w]);
  }

  /** As the code is written, a version that differs from `v` in its parents only brings nothing to `v`. */
  lemma MergeWithTwin(v: Version, w: Version)
    requires Equal(AsWritten, w, v) && v.hash !in v.parents
    ensures IsMerge(AsWritten, [v], [w], [v])
  {
    assert v in [v];
    NothingMissing(AsWritten, [v], [w]);
    assert [v] + [] == [v];
  }

  // ---------- Pushing and merging back ----------

  /** A server holding `ours` has merged the pushed history `theirs` into `merged`. The client's own merge with
      `merged` never conflicts. It succeeds and leaves client and server with the same versions exactly when the
      two histories agree on the parents of the versions they share. */
  lemma RoundTrip(rule: ParentRule, ours: History, theirs: History, merged: History)
    requires Distinct(ours) && Distinct(theirs) && IsMerge(rule, ours, theirs, merged)
    ensures ConflictFree(rule, theirs, merged)
    ensures ParentsAgree(ours, theirs) <==>
      && Mergeable(rule, theirs, merged)
      && forall out :: IsMerge(rule, theirs, merged, out) ==> Elements(out) == Elements(merged)
    ensures rule == AsMeant ==> ParentsAgree(ours, theirs)
  {
    NoConflictAfterMerge(rule, ours, theirs, merged);
    ConflictsAreSymmetric(rule, theirs, merged);
    if ParentsAgree(ours, theirs) {
      RoundTripAgrees(rule, ours, theirs, merged);
    } else {
      var x, y :| x in ours && y in theirs && x.hash == y.hash && x.parents != y.parents;
      RoundTripDisagrees(rule, ours, theirs, merged, x, y);
    }
  }

  lemma RoundTripAgrees(rule: ParentRule, ours: History, theirs: History, merged: History)
    requires IsMerge(rule, ours, theirs, merged) && ParentsAgree(ours, theirs)
    requires ConflictFree(rule, theirs, merged)
    ensures Mergeable(rule, theirs, merged)
    ensures forall out :: IsMerge(rule, theirs, merged, out) ==> Elements(out) == Elements(merged)
  {
    MergeContents(rule, ours, theirs, merged);
    DeltaElements(rule, theirs, merged);
    forall y | y in theirs
      ensures y in merged
    {
      if Known(rule, ours, y) {
        var x :| x in ours && Equal(rule, y, x);
        assert x == y;
      }
    }
    forall x | x in merged && Known(rule, theirs, x)
      ensures x in theirs
    {
      var y :| y in theirs && Equal(rule, x, y);
      assert x in ours ==> x == y;
    }
    assert Elements(theirs + Delta(rule, theirs, merged)) == Elements(merged);
    forall out | IsMerge(rule, theirs, merged, out)
      ensures Elements(out) == Elements(merged)
    {
      MergeContents(rule, theirs, merged, out);
    }
  }

  lemma RoundTripDisagrees(
      rule: ParentRule, ours: History, theirs: History, merged: History, x: Version, y: Version)
    requires Distinct(ours) && IsMerge(rule, ours, theirs, merged)
    requires x in ours && y in theirs && x.hash == y.hash && x.parents != y.parents
    ensures rule == AsWritten
    ensures Mergeable(rule, theirs, merged) ==>
      exists out :: IsMerge(rule, theirs, merged, out) && Elements(out) != Elements(merged)
  {
    MergeContents(rule, ours, theirs, merged);
    assert !InConflict(rule, x, y) && Known(rule, ours, y);
    if y in ours {
      OneVersionPerHash(ours, x, y);
    }
    assert y !in merged;
    if Mergeable(rule, theirs, merged) {
      SortExists(theirs + Delta(rule, theirs, merged));
      var out :| IsSortOf(theirs + Delta(rule, theirs, merged), out);
      assert IsMerge(rule, theirs, merged, out);
      MergeContents(rule, theirs, merged, out);
      assert y in Elements(out) && y !in Elements(merged);
    }
  }

  /** As the code is written, a client can be unable to merge back what the server made of its own push. */
  lemma RoundTripCanClose()
    ensures exists ours, theirs, merged ::
      && Distinct(ours) && Distinct(theirs)
      && IsMerge(AsWritten, ours, theirs, merged)
      && !Mergeable(AsWritten, theirs, merged)
  {
    var pushed := Version("ann", 0, "m", "h", "FILE", ["k"]);
    var held := pushed.(parents := ["z"]);
    var child := Version("bob", 0, "n", "k", "FILE", ["h"]);
    var ours, theirs := [held, child], [pushed];
    assert "h" != "k" && "z" != "k" && "h" != "z";
    assert held in ours;
    NothingMissing(AsWritten, ours, theirs);
    assert ours + [] == ours;
    assert IsMerge(AsWritten, ours, theirs, ours);
    ClosesOnClient(pushed, held, child);
  }

  lemma ClosesOnClient(pushed: Version, held: Version, child: Version)
    requires child.hash in pushed.parents && pushed.hash in child.parents && child.hash != pushed.hash
    ensures !Mergeable(AsWritten, [pushed], [held, child])
  {
    var ours, theirs := [pushed], [held, child];
    DeltaElements(AsWritten, ours, theirs);
    assert child in theirs && !Known(AsWritten, ours, child);
    var all := ours + Delta(AsWritten, ours, theirs);
    assert pushed in ours && pushed in all && child in all;
    assert IsLoop([pushed, child, pushed], Elements(all));
  }
}
