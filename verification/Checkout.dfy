/** Finding a version by its hash or by an abbreviation of it. */
module Checkout {
  import opened Versions
  import opened Frontier

  datatype Resolution = Found(hash: Hash) | NotFound | Ambiguous

  /** The versions whose hash starts with `key`, in their order. */
  function Matches(h: History, key: Hash): (m: History)
    ensures forall v :: v in m <==> v in h && key <= v.hash
  {
    if h == [] then []
    else
      var n := |h| - 1;
      assert h == h[..n] + [h[n]];
      Matches(h[..n], key) + if key <= h[n].hash then [h[n]] else []
  }

  function Resolve(h: History, key: Hash): Resolution {
    if Present(h, key) then Found(key)
    else
      var m := Matches(h, key);
      if |m| == 0 then NotFound else if |m| == 1 then Found(m[0].hash) else Ambiguous
  }

  method Checkout(h: History, key: Hash) returns (r: Resolution)
    ensures r == Resolve(h, key)
  {
    for i := 0 to |h|
      invariant forall k :: 0 <= k < i ==> h[k].hash != key
    {
      if h[i].hash == key {
        return Found(key);
      }
    }
    var matches := [];
    for i := 0 to |h|
      invariant matches == Matches(h[..i], key)
    {
      assert h[..i + 1][..i] == h[..i];
      if key <= h[i].hash {
        matches := matches + [h[i]];
      }
    }
    assert h[..|h|] == h;
    if |matches| == 0 {
      r := NotFound;
    } else if |matches| == 1 {
      r := Found(matches[0].hash);
    } else {
      r := Ambiguous;
    }
  }

  lemma {:induction false} MatchesAreDistinct(h: History, key: Hash)
    requires Distinct(h)
    ensures Distinct(Matches(h, key))
  {
    if h != [] {
      var n := |h| - 1;
      MatchesAreDistinct(h[..n], key);
      forall v | v in Matches(h[..n], key)
        ensures v.hash != h[n].hash
      {
        var i :| 0 <= i < n && h[i] == v;
      }
    }
  }

  /** What a key resolves to: a present hash that starts with it, and that is either the key itself or the only
      present hash that starts with it. A key resolves to nothing exactly when no present hash starts with it. */
  lemma ResolvesTo(h: History, key: Hash)
    requires Distinct(h)
    ensures forall x :: Resolve(h, key) == Found(x) <==>
              && Present(h, x) && key <= x
              && (x == key || forall v :: v in h && key <= v.hash ==> v.hash == x)
    ensures Resolve(h, key) == NotFound <==> forall v :: v in h ==> !(key <= v.hash)
  {
    MatchesAreDistinct(h, key);
    var m := Matches(h, key);
    assert forall i :: 0 <= i < |m| ==> m[i] in m;
    if Present(h, key) {
      var v :| v in h && v.hash == key;
      assert key <= v.hash;
    } else {
      assert |m| >= 2 ==> m[0].hash != m[1].hash && m[0] in m && m[1] in m;
      forall x | Present(h, x) && key <= x
        ensures exists v :: v in m && v.hash == x
      {
        var v :| v in h && v.hash == x;
        assert v in m;
      }
    }
  }

  /** As a history grows, a full hash keeps its meaning. An abbreviation keeps it exactly while no other hash that
      starts with it is added; otherwise it becomes ambiguous or is itself a hash that was added. */
  lemma ResolutionUnderGrowth(h: History, more: History, key: Hash, x: Hash)
    requires Distinct(h) && Distinct(more) && Elements(h) <= Elements(more)
    requires Resolve(h, key) == Found(x)
    ensures x == key ==> Resolve(more, key) == Found(x)
    ensures x != key ==>
      (Resolve(more, key) == Found(x) <==> forall v :: v in more && key <= v.hash ==> v.hash == x)
    ensures Resolve(more, key) == Found(x) || Resolve(more, key) == Ambiguous
      || (Present(more, key) && !Present(h, key) && Resolve(more, key) == Found(key))
  {
    ResolvesTo(h, key);
    ResolvesTo(more, key);
    assert forall v :: v in h ==> v in Elements(more);
    var v :| v in h && v.hash == x;
    assert v in more;
  }

  /** Any longer abbreviation of the hash that was found finds it too. */
  lemma LongerKeysAgree(h: History, key: Hash, longer: Hash, x: Hash)
    requires Distinct(h) && Resolve(h, key) == Found(x) && key <= longer <= x
    ensures Resolve(h, longer) == Found(x)
  {
    ResolvesTo(h, key);
    ResolvesTo(h, longer);
  }
}
