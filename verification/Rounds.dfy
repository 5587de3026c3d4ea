/** Rounds of pushes and fetches can always be carried out when nothing conflicts. */
module Rounds {
  import opened Wrappers
  import opened Versions
  import opened Ordering
  import opened Manifest
  import opened MergePlan
  import opened Nodes
  import opened Replicas
  import opened Runs
  import opened Convergence

  lemma {:induction false} AddressesAreShort(cids: set<Cid>) returns (n: nat)
    ensures forall c :: c in cids ==> |c| < n
    decreases |cids|
  {
    n := 0;
    if c :| c in cids {
      n := AddressesAreShort(cids - {c});
      n := if |c| < n then n else |c| + 1;
    }
  }

  /** A merge that is not refused can be saved, under an address of its own, and become the current manifest. */
  lemma UpdateIsPossible(rule: ParentRule, store: Store, n: Node, ours: History, theirs: History)
      returns (store': Store, n': Node)
    requires Mergeable(rule, ours, theirs)
    ensures Updates(rule, store, n, ours, theirs, store', n', true)
  {
    SortExists(ours + Delta(rule, ours, theirs));
    var out :| IsSortOf(ours + Delta(rule, ours, theirs), out);
    var length := AddressesAreShort(store.Keys);
    var cid: Cid := seq(length, _ => 'x');
    assert cid !in store.Keys;
    store' := store[cid := out];
    var mid := Node(n.head, n.pins + Hashes(Delta(rule, ours, theirs)) + {cid}, n.saved + {cid});
    n' := mid.(head := cid);
    assert IsMerge(rule, ours, theirs, store'[cid]);
    assert MergesAndCommits(rule, store, n, ours, theirs, store', mid, Some(cid));
  }

  ghost predicate Harmonious(rule: ParentRule, vs: set<Version>) {
    Coherent(rule, vs) && Compatible(rule, vs) && !Cyclic(vs)
  }

  lemma FetchIsPossible(rule: ParentRule, s: System, c: nat) returns (s': System)
    requires Inv(s) && Harmonious(rule, AllVersions(s)) && c < |s.clients|
    ensures Fetches(rule, s, c, s')
  {
    var n := s.clients[c];
    NoMergeIsRefused(rule, s, n.head, s.server.head);
    var store', n' := UpdateIsPossible(
      rule, s.store, n.(pins := n.pins + {}), s.store[n.head], s.store[s.server.head]);
    s' := s.(store := store', clients := s.clients[c := n']);
    assert ClientUpdates(rule, s, c, {}, s.store[s.server.head], true, s');
  }

  lemma ServerCanTake(rule: ParentRule, s: System, c: nat) returns (mid: System)
    requires Inv(s) && Harmonious(rule, AllVersions(s)) && c < |s.clients|
    ensures ServerTakes(rule, s, c, mid)
  {
    var base, sent := s.server.head, s.clients[c].head;
    NoMergeIsRefused(rule, s, base, sent);
    var store', n' := UpdateIsPossible(rule, s.store, s.server, s.store[base], s.store[sent]);
    mid := Posted(s, c).(store := store', server := n', rows := s.rows + {n'.head});
  }

  lemma PushIsPossible(rule: ParentRule, s: System, c: nat) returns (s': System)
    requires Inv(s) && Harmonious(rule, AllVersions(s)) && c < |s.clients|
    ensures Pushes(rule, s, c, s')
  {
    var mid := ServerCanTake(rule, s, c);
    PostAndReceiveIsUnion(rule, s, c, mid);
    s' := FetchIsPossible(rule, mid, c);
  }

  lemma ExtendChain(
      step: (System, nat, System) -> bool, states: seq<System>, order: seq<nat>, c: nat, last: System)
    requires Chain(step, states, order) && step(states[|order|], c, last)
    ensures Chain(step, states + [last], order + [c])
  {
    var states', order' := states + [last], order + [c];
    forall k | 0 <= k < |order'|
      ensures step(states'[k], order'[k], states'[k + 1])
    {
      assert k < |order| ==> step(states[k], order[k], states[k + 1]);
    }
  }

  lemma {:induction false} PushRoundIsPossible(rule: ParentRule, s: System, order: seq<nat>)
      returns (states: seq<System>)
    requires Inv(s) && Harmonious(rule, AllVersions(s))
    requires forall c :: c in order ==> c < |s.clients|
    ensures PushRound(rule, states, order) && states[0] == s
    ensures Inv(states[|order|]) && AllVersions(states[|order|]) == AllVersions(s)
    ensures |states[|order|].clients| == |s.clients|
    decreases |order|
  {
    if order == [] {
      states := [s];
    } else {
      var n := |order| - 1;
      assert order == order[..n] + [order[n]] && order[n] in order;
      assert forall c :: c in order[..n] ==> c in order;
      var before := PushRoundIsPossible(rule, s, order[..n]);
      var last := PushIsPossible(rule, before[n], order[n]);
      PushIsUnion(rule, before[n], order[n], last);
      ExtendChain(PushStep(rule), before, order[..n], order[n], last);
      states := before + [last];
    }
  }

  lemma {:induction false} FetchRoundIsPossible(rule: ParentRule, s: System, order: seq<nat>)
      returns (states: seq<System>)
    requires Inv(s) && Harmonious(rule, AllVersions(s))
    requires forall c :: c in order ==> c < |s.clients|
    ensures FetchRound(rule, states, order) && states[0] == s
    ensures Inv(states[|order|]) && AllVersions(states[|order|]) == AllVersions(s)
    ensures |states[|order|].clients| == |s.clients|
    decreases |order|
  {
    if order == [] {
      states := [s];
    } else {
      var n := |order| - 1;
      assert order == order[..n] + [order[n]] && order[n] in order;
      assert forall c :: c in order[..n] ==> c in order;
      var before := FetchRoundIsPossible(rule, s, order[..n]);
      var last := FetchIsPossible(rule, before[n], order[n]);
      AnswerIsUnion(rule, before[n], order[n], last);
      ExtendChain(FetchStep(rule), before, order[..n], order[n], last);
      states := before + [last];
    }
  }

  /** Whatever outcomes the steps have had so far, the next client can still push, or fetch. */
  lemma RoundsNeverStick(rule: ParentRule, states: seq<System>, order: seq<nat>, c: nat)
    requires PushRound(rule, states, order) || FetchRound(rule, states, order)
    requires Inv(states[0]) && Harmonious(rule, AllVersions(states[0])) && c < |states[0].clients|
    ensures exists next :: Pushes(rule, states[|order|], c, next)
    ensures exists next :: Fetches(rule, states[|order|], c, next)
  {
    var start := Stretch([states[0]], []);
    var g: Stretch;
    if PushRound(rule, states, order) {
      g := PushRoundAsStretch(rule, start, states, order);
    } else {
      g := FetchRoundAsStretch(rule, start, states, order);
    }
    StretchStaysHarmonious(rule, g);
    var pushed := PushIsPossible(rule, Last(g), c);
    var fetched := FetchIsPossible(rule, Last(g), c);
  }

  lemma StretchStaysHarmonious(rule: ParentRule, g: Stretch)
    requires IsStretch(rule, g) && Inv(First(g)) && Harmonious(rule, AllVersions(First(g)))
    ensures Inv(Last(g)) && Harmonious(rule, AllVersions(Last(g))) && AllVersions(Last(g)) == AllVersions(First(g))
    ensures |Last(g).clients| == |First(g).clients|
  {
    StretchKeepsVersions(rule, g, |g.events|);
    PathProgresses(rule, g.states, g.events, 0, |g.events|);
  }

  function Clients(n: nat): (s: seq<nat>)
    ensures forall c: nat :: c in s <==> c < n
  {
    if n == 0 then [] else Clients(n - 1) + [n - 1]
  }

  /** While the versions held at the beginning are in harmony, convergence stays within reach: however requests have
      interleaved or failed so far, and whatever order each sort has chosen, the stretch can go on to converge. */
  lemma CanAlwaysConverge(rule: ParentRule, g: Stretch) returns (g': Stretch, m: nat)
    requires IsStretch(rule, g) && Inv(First(g)) && Harmonious(rule, AllVersions(First(g)))
    ensures Continues(g, g') && Converging(rule, g', m)
  {
    StretchStaysHarmonious(rule, g);
    var order := Clients(|First(g).clients|);
    var pushes := PushRoundIsPossible(rule, Last(g), order);
    var fetches := FetchRoundIsPossible(rule, pushes[|order|], order);
    g', m := RoundsConverge(rule, g, pushes, order, fetches, order);
  }

  /** From a state with coherent versions some stretch converges exactly when no two of the versions conflict and they
      have no cycle together. */
  lemma ConvergesExactly(rule: ParentRule, s: System)
    requires Inv(s) && Coherent(rule, AllVersions(s))
    ensures (exists g: Stretch, m: nat :: g.states != [] && First(g) == s && Converging(rule, g, m)) <==>
              Compatible(rule, AllVersions(s)) && !Cyclic(AllVersions(s))
  {
    if Harmonious(rule, AllVersions(s)) {
      var start := Stretch([s], []);
      var g, m := CanAlwaysConverge(rule, start);
      assert First(g) == s;
    }
    if g: Stretch, m: nat :| g.states != [] && First(g) == s && Converging(rule, g, m) {
      EveryoneConverges(rule, g, m);
    }
  }

  ghost predicate CanConverge(rule: ParentRule, s: System, pushers: seq<nat>, fetchers: seq<nat>) {
    exists pushes, fetches ::
      && PushRound(rule, pushes, pushers) && FetchRound(rule, fetches, fetchers)
      && pushes[0] == s && fetches[0] == pushes[|pushers|]
  }

  /** In whatever orders all clients push and then fetch, they can do so without any merge being refused exactly when
      no two of all their versions conflict and the versions together have no cycle. */
  lemma ConvergenceIsPossibleExactly(rule: ParentRule, s: System, pushers: seq<nat>, fetchers: seq<nat>)
    requires Inv(s) && Coherent(rule, AllVersions(s))
    requires forall c: nat :: c < |s.clients| <==> c in pushers
    requires forall c: nat :: c < |s.clients| <==> c in fetchers
    ensures CanConverge(rule, s, pushers, fetchers) <==>
              Compatible(rule, AllVersions(s)) && !Cyclic(AllVersions(s))
  {
    if Harmonious(rule, AllVersions(s)) {
      var pushes := PushRoundIsPossible(rule, s, pushers);
      var fetches := FetchRoundIsPossible(rule, pushes[|pushers|], fetchers);
    }
    if CanConverge(rule, s, pushers, fetchers) {
      var pushes, fetches :|
        && PushRound(rule, pushes, pushers) && FetchRound(rule, fetches, fetchers)
        && pushes[0] == s && fetches[0] == pushes[|pushers|];
      SerialRoundsConverge(rule, pushes, pushers, fetches, fetchers);
    }
  }
}
