/** What is left of a list when the elements that fail a test are dropped. */
module Filtering {
  ghost predicate Ascending(at: seq<nat>) {
    forall i, j :: 0 <= i < j < |at| ==> at[i] < at[j]
  }

  /** `at` lists, from left to right, the positions of `s` whose elements are kept, and `r` those elements. */
  ghost predicate IsKeptAt<T>(s: seq<T>, keep: T -> bool, r: seq<T>, at: seq<nat>) {
    && |at| == |r| && Ascending(at)
    && (forall i :: 0 <= i < |at| ==> at[i] < |s| && r[i] == s[at[i]] && keep(r[i]))
    && (forall k: nat :: k < |s| && keep(s[k]) ==> k in at)
  }

  /** `r` holds exactly the elements of `s` that pass the test, each as often as `s` does and in the same order. */
  ghost predicate IsFiltered<T>(s: seq<T>, keep: T -> bool, r: seq<T>) {
    exists at: seq<nat> :: IsKeptAt(s, keep, r, at)
  }

  lemma FilteredNone<T>(keep: T -> bool)
    ensures IsFiltered([], keep, [])
  {
    assert IsKeptAt([], keep, [], []);
  }

  lemma KeepLast<T>(s: seq<T>, keep: T -> bool, r: seq<T>, at: seq<nat>, x: T)
    requires IsKeptAt(s, keep, r, at) && keep(x)
    ensures IsKeptAt(s + [x], keep, r + [x], at + [|s|])
  {
    var s', at' := s + [x], at + [|s|];
    forall k: nat | k < |s'| && keep(s'[k])
      ensures k in at'
    {
      assert k < |s| ==> s'[k] == s[k] && k in at;
      assert at'[|at|] == |s|;
    }
  }

  lemma DropLast<T>(s: seq<T>, keep: T -> bool, r: seq<T>, at: seq<nat>, x: T)
    requires IsKeptAt(s, keep, r, at) && !keep(x)
    ensures IsKeptAt(s + [x], keep, r, at)
  {
    var s' := s + [x];
    forall k: nat | k < |s'| && keep(s'[k])
      ensures k in at
    {
      assert k < |s| ==> s'[k] == s[k];
    }
  }

  lemma FilteredOneMore<T>(s: seq<T>, keep: T -> bool, less: seq<T>, r: seq<T>)
    requires s != [] && IsFiltered(s[..|s| - 1], keep, less)
    requires r == less + if keep(s[|s| - 1]) then [s[|s| - 1]] else []
    ensures IsFiltered(s, keep, r)
  {
    var init, x := s[..|s| - 1], s[|s| - 1];
    assert s == init + [x];
    var at: seq<nat> :| IsKeptAt(init, keep, less, at);
    if keep(x) {
      KeepLast(init, keep, less, at, x);
    } else {
      assert r == less;
      DropLast(init, keep, less, at, x);
    }
  }
}
