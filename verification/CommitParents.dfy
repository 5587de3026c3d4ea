/** How the parents of a new version are chosen. */
module CommitParents {
  import opened Wrappers
  import opened Versions
  import opened Frontier
  import SortedLists

  /** One round of the dialogue: what the user picked, and the answer when nothing was picked. */
  datatype Round = Round(picked: seq<Hash>, goOn: bool)

  /** The outcome of the dialogue; without one it was broken off. */
  function Picked(rounds: seq<Round>): Option<seq<Hash>> {
    if rounds == [] then None
    else if rounds[0].picked != [] || rounds[0].goOn then Some(rounds[0].picked)
    else Picked(rounds[1..])
  }

  function Candidates(h: History, parents: seq<Hash>, pick: bool, rounds: seq<Round>): Option<seq<Hash>> {
    if h != [] && (pick || parents == []) then
      match Picked(rounds)
      case None => None
      case Some(p) => Some(parents + p)
    else Some(parents)
  }

  /** The dialogue ends in round `k`. */
  predicate Ends(rounds: seq<Round>, k: nat) {
    && k < |rounds| && (rounds[k].picked != [] || rounds[k].goOn)
    && forall j :: 0 <= j < k ==> rounds[j].picked == [] && !rounds[j].goOn
  }

  predicate IsAsked(h: History, parents: seq<Hash>, pick: bool) {
    h != [] && (pick || parents == [])
  }

  lemma {:induction false} PickedInLastRound(rounds: seq<Round>)
    ensures forall k: nat :: Ends(rounds, k) ==> Picked(rounds) == Some(rounds[k].picked)
    ensures Picked(rounds) == None <==> forall k: nat :: !Ends(rounds, k)
  {
    if rounds != [] {
      PickedInLastRound(rounds[1..]);
      if rounds[0].picked != [] || rounds[0].goOn {
        assert Ends(rounds, 0);
      } else {
        forall k: nat
          ensures Ends(rounds, k) <==> k > 0 && Ends(rounds[1..], k - 1)
        {
          EndsOneLater(rounds, k);
        }
        assert forall k: nat :: Ends(rounds[1..], k) ==> Ends(rounds, k + 1);
      }
    }
  }

  lemma EndsOneLater(rounds: seq<Round>, k: nat)
    requires rounds != [] && rounds[0].picked == [] && !rounds[0].goOn
    ensures Ends(rounds, k) <==> k > 0 && Ends(rounds[1..], k - 1)
  {
    if k > 0 && Ends(rounds[1..], k - 1) {
      forall j | 0 <= j < k
        ensures rounds[j].picked == [] && !rounds[j].goOn
      {
        assert j > 0 ==> rounds[j] == rounds[1..][j - 1];
      }
    }
    if Ends(rounds, k) {
      assert forall j :: 0 <= j < k - 1 ==> rounds[1..][j] == rounds[j + 1];
    }
  }

  /** Picked parents are added to those that were given. */
  lemma CandidatesAreGivenAndPicked(h: History, parents: seq<Hash>, pick: bool, rounds: seq<Round>)
    ensures !IsAsked(h, parents, pick) ==> Candidates(h, parents, pick, rounds) == Some(parents)
    ensures IsAsked(h, parents, pick) ==>
      && (forall k: nat :: Ends(rounds, k) ==> Candidates(h, parents, pick, rounds) == Some(parents + rounds[k].picked))
      && ((forall k: nat :: !Ends(rounds, k)) ==> Candidates(h, parents, pick, rounds) == None)
  {
    PickedInLastRound(rounds);
  }

  lemma UnknownOfSame(h: History, a: seq<Hash>, b: seq<Hash>)
    requires multiset(a) == multiset(b)
    ensures Unknown(h, a) == [] <==> Unknown(h, b) == []
  {
    assert forall c :: c in a <==> c in multiset(a);
    assert forall c :: c in b <==> c in multiset(b);
  }

  /** The dialogue opens with the frontier selected when that is a single version, or none. */
  function Preselected(h: History): History {
    if |Leaves(h)| > 1 then [] else Leaves(h)
  }

  /** What is selected when the dialogue opens is a leaf, and every leaf is it. */
  lemma PreselectedIsOnlyLeaf(h: History)
    requires Distinct(h)
    ensures forall v :: v in Preselected(h) <==> v in h && forall w :: w in h ==> (!IsParent(h, w.hash) <==> w == v)
    ensures |Preselected(h)| <= 1
  {
    LeavesAreDistinct(h);
    var leaves := Leaves(h);
    if |leaves| > 1 {
      assert leaves[0] in leaves && leaves[1] in leaves && leaves[0] != leaves[1];
    } else if |leaves| == 1 {
      assert leaves[0] in leaves;
    }
  }

  /** The dialogue: `selected` is what was selected when it last opened. */
  method Choose(h: History, rounds: seq<Round>) returns (picked: Option<seq<Hash>>, selected: History)
    ensures picked == Picked(rounds)
    ensures selected == if rounds == [] then [] else Preselected(h)
  {
    selected := [];
    for i := 0 to |rounds|
      invariant Picked(rounds[i..]) == Picked(rounds)
      invariant selected == if i == 0 then [] else Preselected(h)
    {
      selected := LeafVersions(h);
      if |selected| > 1 {
        selected := [];
      }
      if rounds[i].picked != [] || rounds[i].goOn {
        return Some(rounds[i].picked), selected;
      }
    }
    picked := None;
  }

  /** Without an explicit list of parents the user is asked. Unknown parents need consent and are then kept as given;
      parents that are all known are sorted. */
  method CheckParentage(h: History, parents: seq<Hash>, pick: bool, rounds: seq<Round>, accept: bool)
      returns (r: Option<seq<Hash>>)
    ensures var all := Candidates(h, parents, pick, rounds);
      && (r.None? <==> all.None? || (Unknown(h, all.value) != [] && !accept))
      && (r.Some? && Unknown(h, all.value) != [] ==> r == all)
      && (r.Some? && Unknown(h, all.value) == [] ==>
            multiset(r.value) == multiset(all.value) && SortedLists.Sorted(r.value))
    ensures r.Some? && !accept ==> forall p :: p in r.value ==> Present(h, p)
    ensures r.Some? ==> multiset(parents) <= multiset(r.value)
    ensures !IsAsked(h, parents, pick) ==>
      && (r.Some? ==> multiset(r.value) == multiset(parents))
      && (r.Some? <==> accept || forall p :: p in parents ==> Present(h, p))
    ensures IsAsked(h, parents, pick) ==> forall k: nat :: Ends(rounds, k) ==>
      && (r.Some? ==> multiset(r.value) == multiset(parents) + multiset(rounds[k].picked))
      && (r.Some? <==> accept || forall p :: p in parents + rounds[k].picked ==> Present(h, p))
    ensures IsAsked(h, parents, pick) && (forall k: nat :: !Ends(rounds, k)) ==> r == None
  {
    CandidatesAreGivenAndPicked(h, parents, pick, rounds);
    var all := parents;
    if |h| != 0 && (pick || |parents| == 0) {
      var picked, _ := Choose(h, rounds);
      if picked.None? {
        return None;
      }
      all := all + picked.value;
    }
    var unknown := UnknownCommits(h, all);
    if |unknown| != 0 {
      return if accept then Some(all) else None;
    }
    var sorted := SortedLists.Sort(all);
    UnknownOfSame(h, sorted, all);
    r := Some(sorted);
  }
}
