/** Sorting strings, and searching sorted lists of them. */
module SortedLists {
  /** The order of strings by character code. */
  predicate Less(a: string, b: string) {
    b != "" && (a == "" || a[0] < b[0] || (a[0] == b[0] && Less(a[1..], b[1..])))
  }

  lemma {:induction false} LessIsTotal(a: string, b: string)
    ensures if a == b then !Less(a, b) && !Less(b, a) else Less(a, b) != Less(b, a)
  {
    if a != "" && b != "" {
      LessIsTotal(a[1..], b[1..]);
      assert a == [a[0]] + a[1..] && b == [b[0]] + b[1..];
    }
  }

  lemma {:induction false} LessIsTransitive(a: string, b: string, c: string)
    requires Less(a, b) && Less(b, c)
    ensures Less(a, c)
  {
    if a != "" {
      if a[0] == b[0] == c[0] {
        LessIsTransitive(a[1..], b[1..], c[1..]);
      }
    }
  }

  lemma NotLessChains(a: string, b: string, c: string)
    requires !Less(b, a) && !Less(c, b)
    ensures !Less(c, a)
    ensures Less(a, b) || Less(b, c) ==> Less(a, c)
  {
    LessIsTotal(a, b);
    LessIsTotal(b, c);
    if Less(a, b) && Less(b, c) {
      LessIsTransitive(a, b, c);
    }
    LessIsTotal(a, c);
  }

  predicate Sorted(s: seq<string>) {
    forall i, j :: 0 <= i < j < |s| ==> !Less(s[j], s[i])
  }

  // ---------- Insertion sort ----------

  /** One round of the sort: shift larger elements up, from the end, until the place for `x` is free. */
  method Insert(sorted: seq<string>, x: string) returns (r: seq<string>)
    requires Sorted(sorted)
    ensures Sorted(r) && multiset(r) == multiset(sorted) + multiset{x}
  {
    r := sorted;
    var i := |sorted|;
    while i > 0 && !Less(sorted[i - 1], x)
      invariant 0 <= i <= |sorted|
      invariant i == |sorted| ==> r == sorted
      invariant i < |sorted| ==> |r| == |sorted| + 1 && r[..i] == sorted[..i] && r[i + 1..] == sorted[i..]
      invariant forall k :: i <= k < |sorted| ==> !Less(sorted[k], x)
    {
      r := if i == |r| then r + [sorted[i - 1]] else r[i := sorted[i - 1]];
      i := i - 1;
    }
    r := if i == |r| then r + [x] else r[i := x];
    assert r == sorted[..i] + [x] + sorted[i..];
    InsertedIsSorted(sorted, x, i);
    InsertedOnce(sorted, x, i);
  }

  lemma InsertedIsSorted(sorted: seq<string>, x: string, i: nat)
    requires Sorted(sorted) && i <= |sorted| && (i > 0 ==> Less(sorted[i - 1], x))
    requires forall k :: i <= k < |sorted| ==> !Less(sorted[k], x)
    ensures Sorted(sorted[..i] + [x] + sorted[i..])
  {
    forall k | 0 <= k < i
      ensures !Less(x, sorted[k])
    {
      LessIsTotal(sorted[i - 1], x);
      if k < i - 1 {
        NotLessChains(sorted[k], sorted[i - 1], x);
      }
    }
  }

  lemma InsertedOnce(sorted: seq<string>, x: string, i: nat)
    requires i <= |sorted|
    ensures multiset(sorted[..i] + [x] + sorted[i..]) == multiset(sorted) + multiset{x}
  {
    assert sorted == sorted[..i] + sorted[i..];
  }

  method Sort(values: seq<string>) returns (sorted: seq<string>)
    ensures Sorted(sorted) && multiset(sorted) == multiset(values)
  {
    sorted := [];
    for i := 0 to |values|
      invariant Sorted(sorted) && multiset(sorted) == multiset(values[..i])
    {
      assert values[..i + 1] == values[..i] + [values[i]];
      sorted := Insert(sorted, values[i]);
    }
    assert values[..|values|] == values;
  }

  // ---------- Searching with an index that only moves forward ----------

  /** The first position of `haystack` whose string is not below `n`. */
  function FirstFrom(haystack: seq<string>, n: string): (f: nat)
    ensures f <= |haystack|
    ensures forall k :: 0 <= k < f ==> Less(haystack[k], n)
    ensures f < |haystack| ==> !Less(haystack[f], n)
  {
    if haystack == [] || !Less(haystack[0], n) then 0 else 1 + FirstFrom(haystack[1..], n)
  }

  function Later(a: nat, b: nat): nat {
    if a < b then b else a
  }

  /** The inner loop of both searches: move on past everything below `n`. */
  method Advance(haystack: seq<string>, from: nat, n: string) returns (h: nat)
    requires Sorted(haystack) && from <= |haystack|
    ensures h == Later(from, FirstFrom(haystack, n))
  {
    h := from;
    while h < |haystack| && Less(haystack[h], n)
      invariant from <= h <= |haystack|
      invariant forall k :: from <= k < h ==> Less(haystack[k], n)
    {
      h := h + 1;
    }
    var f := FirstFrom(haystack, n);
    if f < h && from < h {
      assert Less(haystack[h - 1], n);
      if f < h - 1 {
        NotLessChains(haystack[f], haystack[h - 1], n) by { LessIsTotal(haystack[h - 1], n); }
      }
    }
  }

  lemma FirstFromIsMonotone(haystack: seq<string>, m: string, n: string)
    requires !Less(n, m)
    ensures FirstFrom(haystack, m) <= FirstFrom(haystack, n)
  {
    var f, g := FirstFrom(haystack, m), FirstFrom(haystack, n);
    if g < f {
      LessIsTotal(haystack[g], m);
      NotLessChains(haystack[g], m, n);
    }
  }

  /** After the index has been moved for `m` and then for `n`, it stands on `n` exactly when `n` occurs and is not
      below `m`. */
  lemma FoundAfter(haystack: seq<string>, m: string, n: string)
    requires Sorted(haystack)
    ensures var h := Later(FirstFrom(haystack, m), FirstFrom(haystack, n));
      (h < |haystack| && haystack[h] == n) <==> n in haystack && !Less(n, m)
  {
    var f := FirstFrom(haystack, n);
    LessIsTotal(m, n);
    if Less(n, m) {
      FirstFromIsMonotone(haystack, n, m);
    } else {
      FirstFromIsMonotone(haystack, m, n);
      if k :| 0 <= k < |haystack| && haystack[k] == n {
        LessIsTotal(n, n);
        assert f <= k;
        LessIsTotal(haystack[f], n);
      }
    }
  }

  /** Whether every value looked for is in the list; values that are asked for out of order are not found. */
  method AllIn(haystack: seq<string>, needles: seq<string>) returns (found: bool)
    requires Sorted(haystack)
    ensures found <==> Sorted(needles) && forall n :: n in needles ==> n in haystack
  {
    var h := 0;
    ghost var last := "";
    for i := 0 to |needles|
      invariant h == FirstFrom(haystack, last)
      invariant last == if i == 0 then "" else needles[i - 1]
      invariant Sorted(needles[..i]) && forall k :: 0 <= k < i ==> needles[k] in haystack
    {
      var n := needles[i];
      h := Advance(haystack, h, n);
      FoundAfter(haystack, last, n);
      assert n in needles;
      if h == |haystack| || haystack[h] != n {
        assert i > 0 && Less(n, last) ==> !Sorted(needles);
        return false;
      }
      FirstFromIsMonotone(haystack, last, n);
      ExtendSorted(needles, i);
      last := n;
    }
    assert needles[..|needles|] == needles;
    found := true;
  }

  lemma ExtendSorted(s: seq<string>, i: nat)
    requires i < |s| && Sorted(s[..i]) && (i > 0 ==> !Less(s[i], s[i - 1]))
    ensures Sorted(s[..i + 1])
  {
    forall k | 0 <= k < i
      ensures !Less(s[i], s[k])
    {
      if k < i - 1 {
        assert !Less(s[..i][i - 1], s[..i][k]);
        NotLessChains(s[k], s[i - 1], s[i]);
      }
    }
  }

  /** `needles[k]` is not below any value before it. */
  predicate IsRecord(needles: seq<string>, k: nat)
    requires k < |needles|
  {
    forall j :: 0 <= j < k ==> !Less(needles[k], needles[j])
  }

  predicate FindsRecord(haystack: seq<string>, needles: seq<string>) {
    exists k :: 0 <= k < |needles| && IsRecord(needles, k) && needles[k] in haystack
  }

  /** Whether any value looked for is in the list; a value is looked for in vain when a larger one came before it. */
  method AnyIn(haystack: seq<string>, needles: seq<string>) returns (found: bool)
    requires Sorted(haystack)
    ensures found <==> FindsRecord(haystack, needles)
  {
    var h := 0;
    ghost var largest := "";
    for i := 0 to |needles|
      invariant h == FirstFrom(haystack, largest)
      invariant largest == "" || exists k :: 0 <= k < i && needles[k] == largest
      invariant forall k :: 0 <= k < i ==> !Less(largest, needles[k])
      invariant forall k :: 0 <= k < i && IsRecord(needles, k) ==> needles[k] !in haystack
    {
      var n := needles[i];
      h := Advance(haystack, h, n);
      FoundAfter(haystack, largest, n);
      RecordIsLargest(needles, i, largest);
      if h < |haystack| && haystack[h] == n {
        return true;
      }
      LessIsTotal(largest, n);
      if Less(n, largest) {
        FirstFromIsMonotone(haystack, n, largest);
      } else {
        FirstFromIsMonotone(haystack, largest, n);
        forall k | 0 <= k < i
          ensures !Less(n, needles[k])
        {
        }
        largest := n;
        LessIsTotal(n, n);
      }
    }
    found := false;
  }

  lemma RecordIsLargest(needles: seq<string>, i: nat, largest: string)
    requires i < |needles|
    requires largest == "" || exists k :: 0 <= k < i && needles[k] == largest
    requires forall k :: 0 <= k < i ==> !Less(largest, needles[k])
    ensures IsRecord(needles, i) <==> !Less(needles[i], largest)
  {
    forall k | 0 <= k < i
      ensures Less(needles[i], needles[k]) ==> Less(needles[i], largest)
    {
      if Less(needles[i], needles[k]) {
        LessIsTotal(needles[i], needles[k]);
        NotLessChains(needles[i], needles[k], largest);
      }
    }
  }

  /** With the values in order, the second search is an intersection test. */
  lemma SortedNeedlesAreRecords(haystack: seq<string>, needles: seq<string>)
    requires Sorted(needles)
    ensures FindsRecord(haystack, needles) <==> exists n :: n in needles && n in haystack
  {
    if n :| n in needles && n in haystack {
      var k :| 0 <= k < |needles| && needles[k] == n;
      assert IsRecord(needles, k);
    }
  }
}
