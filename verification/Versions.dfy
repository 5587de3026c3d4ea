/** One entry of a dataset's history, and when two entries count as the same. */
module Versions {
  type Hash = string
  type History = seq<Version>

  /** Dates are instants, so that comparing them ignores time zones. */
  datatype Version = Version(
    author: string, date: int, message: string, hash: Hash, pathType: string, parents: seq<Hash>)

  /** How parent lists are compared: as the code is written, which looks at lengths only, or element by element
      as its name says. Everything built on `Equal` is stated for both rules. */
  datatype ParentRule = AsWritten | AsMeant

  predicate SameHash(v: Version, o: Version) {
    v.hash == o.hash
  }

  predicate ParentsMatch(rule: ParentRule, v: Version, o: Version) {
    match rule
    case AsWritten => |v.parents| == |o.parents|
    case AsMeant => v.parents == o.parents
  }

  predicate Equal(rule: ParentRule, v: Version, o: Version) {
    && SameHash(v, o)
    && v.author == o.author
    && v.date == o.date
    && v.message == o.message
    && v.pathType == o.pathType
    && ParentsMatch(rule, v, o)
  }

  /** The comparison loop of the code. `those` starts as a copy of `these`, so the loop compares a list with its
      own prefix and never finds a difference. */
  method SameParents(v: Version, o: Version) returns (same: bool)
    ensures same <==> ParentsMatch(AsWritten, v, o)
  {
    if |v.parents| != |o.parents| {
      return false;
    }
    var these := v.parents;
    var those := these + o.parents;
    for i := 0 to |these|
    {
      if these[i] != those[i] {
        return false;
      }
    }
    return true;
  }

  method VersionsEqual(v: Version, o: Version) returns (same: bool)
    ensures same <==> Equal(AsWritten, v, o)
  {
    var parents := SameParents(v, o);
    same := SameHash(v, o) && v.author == o.author && v.date == o.date && v.message == o.message
      && v.pathType == o.pathType && parents;
  }

  ghost function Elements(h: History): (s: set<Version>)
    ensures forall v :: v in s <==> v in h
  {
    set v | v in h
  }

  /** No two different entries pass for the same one. */
  ghost predicate Coherent(rule: ParentRule, vs: set<Version>) {
    forall x, y :: x in vs && y in vs && Equal(rule, x, y) ==> x == y
  }

  /** Comparing parents element by element would make equality exact on every set of entries; the comparison as
      written is exact precisely where entries that agree on everything else, and on the number of their parents,
      agree on the parents. */
  lemma EqualityIsExact(rule: ParentRule, vs: set<Version>)
    ensures Coherent(AsMeant, vs)
    ensures Coherent(rule, vs) <==>
      forall x, y :: x in vs && y in vs && Equal(rule, x, y) ==> x.parents == y.parents
  {
    forall x, y | x in vs && y in vs && Equal(rule, x, y) && x.parents == y.parents
      ensures x == y
    {
    }
  }

  /** The comparison as written takes two entries with different parents for the same one. */
  lemma SameParentsIgnoresTheParents()
    ensures exists v: Version, o: Version :: v.parents != o.parents && ParentsMatch(AsWritten, v, o)
  {
    var v := Version("a", 0, "m", "h", "FILE", ["p"]);
    var o := v.(parents := ["q"]);
    assert v.parents[0] == "p" && o.parents[0] == "q";
    assert v.parents != o.parents && ParentsMatch(AsWritten, v, o);
  }

  /** Whatever the parents are replaced by, the comparison as written looks at how many there are, and as meant at
      which ones. */
  lemma OnlyLengthsCount(v: Version, parents: seq<Hash>)
    ensures Equal(AsWritten, v, v.(parents := parents)) <==> |parents| == |v.parents|
    ensures Equal(AsMeant, v, v.(parents := parents)) <==> parents == v.parents
  {
  }

  /** Hashes are pairwise distinct within a history. */
  predicate Distinct(h: History) {
    forall i, j :: 0 <= i < j < |h| ==> h[i].hash != h[j].hash
  }

  lemma OneVersionPerHash(h: History, x: Version, y: Version)
    requires Distinct(h) && x in h && y in h && x.hash == y.hash
    ensures x == y
  {
    var i :| 0 <= i < |h| && h[i] == x;
    var j :| 0 <= j < |h| && h[j] == y;
  }

  lemma CountOfRepeated(h: History, i: nat, j: nat)
    requires i < j < |h| && h[i] == h[j]
    ensures multiset(h)[h[i]] >= 2
  {
    assert h == h[..j] + [h[j]] + h[j + 1..];
    assert h[i] in h[..j];
  }

  lemma CountOfSingle(h: History, i: nat)
    requires i < |h| && forall j :: 0 <= j < |h| && j != i ==> h[j] != h[i]
    ensures multiset(h)[h[i]] == 1
  {
    assert h == h[..i] + [h[i]] + h[i + 1..];
    assert h[i] !in h[..i] && h[i] !in h[i + 1..];
  }

  /** The same condition without positions, so that reordering keeps it. */
  lemma DistinctByCount(h: History)
    ensures Distinct(h) <==>
      && (forall v :: v in h ==> multiset(h)[v] == 1)
      && (forall x, y :: x in h && y in h && x.hash == y.hash ==> x == y)
  {
    if Distinct(h) {
      forall v | v in h
        ensures multiset(h)[v] == 1
      {
        var i :| 0 <= i < |h| && h[i] == v;
        CountOfSingle(h, i);
      }
    } else {
      var i, j :| 0 <= i < j < |h| && h[i].hash == h[j].hash;
      if h[i] == h[j] {
        CountOfRepeated(h, i, j);
      }
      assert h[i] in h && h[j] in h;
    }
  }

  lemma ReorderingKeepsDistinct(h: History, other: History)
    requires multiset(h) == multiset(other)
    ensures Distinct(h) <==> Distinct(other)
    ensures Elements(h) == Elements(other)
  {
    assert forall v :: v in h <==> v in multiset(h);
    assert forall v :: v in other <==> v in multiset(other);
    DistinctByCount(h);
    DistinctByCount(other);
  }
}
