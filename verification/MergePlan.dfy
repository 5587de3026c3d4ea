/** Merging a whole collection of histories, in any order and grouping. */
module MergePlan {
  import opened Versions
  import opened Ordering
  import opened Manifest

  datatype Plan = One(history: History) | Both(left: Plan, right: Plan)

  /** `out` is an outcome of carrying out the plan. */
  ghost predicate Yields(rule: ParentRule, p: Plan, out: History) {
    match p
    case One(h) => out == h
    case Both(l, r) => exists a, b :: Yields(rule, l, a) && Yields(rule, r, b) && IsMerge(rule, a, b, out)
  }

  ghost predicate Succeeds(rule: ParentRule, p: Plan) {
    exists out :: Yields(rule, p, out)
  }

  ghost function Leaves(p: Plan): set<History> {
    match p
    case One(h) => {h}
    case Both(l, r) => Leaves(l) + Leaves(r)
  }

  /** The versions that occur in any history of the plan. */
  ghost function Union(p: Plan): (u: set<Version>)
    ensures forall v :: v in u <==> exists h :: h in Leaves(p) && v in h
  {
    match p
    case One(h) => Elements(h)
    case Both(l, r) => Union(l) + Union(r)
  }

  ghost predicate DistinctLeaves(p: Plan) {
    forall h :: h in Leaves(p) ==> Distinct(h)
  }

  /** No two of the versions conflict. */
  ghost predicate Compatible(rule: ParentRule, vs: set<Version>) {
    forall x, y :: x in vs && y in vs ==> !InConflict(rule, x, y)
  }

  ghost predicate DatesDiffer(vs: set<Version>) {
    forall x, y :: x in vs && y in vs && x != y ==> x.date != y.date
  }

  lemma {:induction false} PlanKeepsDistinct(rule: ParentRule, p: Plan, out: History)
    requires DistinctLeaves(p) && Yields(rule, p, out)
    ensures Distinct(out)
    ensures p.Both? ==> Ordered(out)
  {
    match p
    case One(h) =>
    case Both(l, r) =>
      var a, b :| Yields(rule, l, a) && Yields(rule, r, b) && IsMerge(rule, a, b, out);
      PlanKeepsDistinct(rule, l, a);
      PlanKeepsDistinct(rule, r, b);
      MergeKeepsDistinct(rule, a, b, out);
  }

  lemma {:induction false} PlanYieldsUnion(rule: ParentRule, p: Plan, out: History)
    requires Coherent(rule, Union(p)) && Yields(rule, p, out)
    ensures Elements(out) == Union(p)
  {
    match p
    case One(h) =>
    case Both(l, r) =>
      var a, b :| Yields(rule, l, a) && Yields(rule, r, b) && IsMerge(rule, a, b, out);
      PlanYieldsUnion(rule, l, a);
      PlanYieldsUnion(rule, r, b);
      MergeIsUnion(rule, a, b, out);
  }

  /** An outcome holds all versions of the collection exactly when none of them passes for another; it never holds
      two versions of one hash. */
  lemma PlanIsUnionExactly(rule: ParentRule, p: Plan, out: History)
    requires DistinctLeaves(p) && Yields(rule, p, out)
    ensures Elements(out) == Union(p) <==> Coherent(rule, Union(p))
    ensures Distinct(out)
    ensures rule == AsMeant ==> Elements(out) == Union(p)
  {
    PlanKeepsDistinct(rule, p, out);
    EqualityIsExact(rule, Union(p));
    DistinctByCount(out);
    if Coherent(rule, Union(p)) {
      PlanYieldsUnion(rule, p, out);
    }
  }

  /** Two ordered histories of the same versions are the same sequence when no two versions share a date. */
  lemma SameSequence(a: History, b: History)
    requires Ordered(a) && Ordered(b) && Distinct(a) && Distinct(b)
    requires Elements(a) == Elements(b) && DatesDiffer(Elements(a))
    ensures a == b
  {
    DistinctByCount(a);
    DistinctByCount(b);
    assert forall v :: v in a <==> v in Elements(b);
    assert multiset(a) == multiset(b);
    assert forall i :: 0 <= i < |a| ==> a[i] in Elements(a);
    SortIsUnique(a, b);
  }

  /** However the same histories are ordered and grouped, the outcome holds the same versions, and it is the same
      sequence when no two versions share a date. */
  lemma AnyPlanSameOutcome(rule: ParentRule, p: Plan, q: Plan, out: History, out': History)
    requires p.Both? && q.Both? && Leaves(p) == Leaves(q)
    requires Coherent(rule, Union(p)) && DistinctLeaves(p)
    requires Yields(rule, p, out) && Yields(rule, q, out')
    ensures Elements(out) == Elements(out') == Union(p)
    ensures DatesDiffer(Union(p)) ==> out == out'
  {
    assert Union(p) == Union(q);
    PlanYieldsUnion(rule, p, out);
    PlanYieldsUnion(rule, q, out');
    PlanKeepsDistinct(rule, p, out);
    PlanKeepsDistinct(rule, q, out');
    if DatesDiffer(Union(p)) {
      SameSequence(out, out');
    }
  }

  lemma FreeByUnion(rule: ParentRule, a: History, b: History)
    requires Compatible(rule, Elements(a)) && Compatible(rule, Elements(b))
    ensures ConflictFree(rule, a, b) <==> Compatible(rule, Elements(a) + Elements(b))
  {
    ConflictsAreSymmetric(rule, a, b);
    if ConflictFree(rule, a, b) {
      forall x, y | x in Elements(a) + Elements(b) && y in Elements(a) + Elements(b)
        ensures !InConflict(rule, x, y)
      {
      }
    }
  }

  lemma LastMerge(rule: ParentRule, p: Plan, a: History, b: History)
    requires p.Both? && Coherent(rule, Union(p)) && DistinctLeaves(p)
    requires Yields(rule, p.left, a) && Yields(rule, p.right, b)
    requires Compatible(rule, Union(p.left)) && Compatible(rule, Union(p.right))
    ensures (exists out :: IsMerge(rule, a, b, out)) <==> Compatible(rule, Union(p)) && !Cyclic(Union(p))
  {
    PlanYieldsUnion(rule, p.left, a);
    PlanYieldsUnion(rule, p.right, b);
    assert Union(p) == Elements(a) + Elements(b);
    MergeableByUnion(rule, a, b);
    FreeByUnion(rule, a, b);
  }

  lemma BothSucceeds(rule: ParentRule, p: Plan)
    requires p.Both? && Coherent(rule, Union(p)) && DistinctLeaves(p)
    requires Succeeds(rule, p.left) ==> Compatible(rule, Union(p.left))
    requires Succeeds(rule, p.right) ==> Compatible(rule, Union(p.right))
    requires Compatible(rule, Union(p)) && !Cyclic(Union(p)) ==> Succeeds(rule, p.left) && Succeeds(rule, p.right)
    ensures Succeeds(rule, p) <==> Compatible(rule, Union(p)) && !Cyclic(Union(p))
  {
    if Compatible(rule, Union(p)) && !Cyclic(Union(p)) {
      var a :| Yields(rule, p.left, a);
      var b :| Yields(rule, p.right, b);
      LastMerge(rule, p, a, b);
      var out :| IsMerge(rule, a, b, out);
      assert Yields(rule, p, out);
    }
    if out :| Yields(rule, p, out) {
      var a, b :| Yields(rule, p.left, a) && Yields(rule, p.right, b) && IsMerge(rule, a, b, out);
      LastMerge(rule, p, a, b);
    }
  }

  /** A plan that merges anything can be carried out exactly when no two versions of the collection conflict and
      their union has no cycle. This speaks of the collection only, not of the order or the grouping, and it passes
      down to every part of the plan. */
  lemma {:induction false} PlanSucceeds(rule: ParentRule, p: Plan)
    requires Coherent(rule, Union(p)) && DistinctLeaves(p)
    ensures p.Both? ==> (Succeeds(rule, p) <==> Compatible(rule, Union(p)) && !Cyclic(Union(p)))
    ensures p.One? ==> Succeeds(rule, p) && Compatible(rule, Union(p))
    ensures p.Both? && Succeeds(rule, p) ==> Succeeds(rule, p.left) && Succeeds(rule, p.right)
  {
    match p
    case One(h) =>
      assert Yields(rule, p, h);
      DistinctByCount(h);
    case Both(l, r) =>
      PlanSucceeds(rule, l);
      PlanSucceeds(rule, r);
      CyclesGrow(Union(l), Union(p));
      CyclesGrow(Union(r), Union(p));
      BothSucceeds(rule, p);
  }

  /** If a collection can be merged in some order and grouping, any part of it can be, in every order and grouping. */
  lemma PartialPlansSucceed(rule: ParentRule, p: Plan, q: Plan)
    requires p.Both? && Coherent(rule, Union(p)) && DistinctLeaves(p)
    requires Leaves(q) <= Leaves(p) && Succeeds(rule, p)
    ensures Succeeds(rule, q)
  {
    assert Union(q) <= Union(p);
    PlanSucceeds(rule, p);
    PlanSucceeds(rule, q);
    CyclesGrow(Union(q), Union(p));
  }
}
