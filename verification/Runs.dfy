/** Properties of whole runs of the replicated system. */
module Runs {
  import opened Wrappers
  import opened Versions
  import opened Manifest
  import opened Frontier
  import opened Nodes
  import opened Replicas
  import opened Checkout

  datatype Event = Event(action: Action, ok: bool)

  ghost predicate IsStep(rule: ParentRule, states: seq<System>, events: seq<Event>, i: nat)
    requires i < |events| < |states|
  {
    Next(rule, states[i], events[i].action, events[i].ok, states[i + 1])
  }

  /** `states` lists the states and `events` the steps between them, failed ones included. */
  ghost predicate IsPath(rule: ParentRule, states: seq<System>, events: seq<Event>) {
    && |states| == |events| + 1
    && forall i :: 0 <= i < |events| ==> IsStep(rule, states, events, i)
  }

  ghost predicate IsRun(rule: ParentRule, run: seq<System>, events: seq<Event>) {
    IsPath(rule, run, events) && Init(run[0])
  }

  ghost predicate Passes(p: nat -> bool, k: nat) {
    p(k) ==> p(k + 1)
  }

  lemma {:induction false} PassesAlong(p: nat -> bool, n: nat)
    requires p(0) && forall k :: 0 <= k < n ==> Passes(p, k)
    ensures p(n)
  {
    if n > 0 {
      PassesAlong(p, n - 1);
      assert Passes(p, n - 1);
    }
  }

  lemma PathKeepsInv(rule: ParentRule, states: seq<System>, events: seq<Event>, i: nat)
    requires IsPath(rule, states, events) && Inv(states[0]) && i < |states|
    ensures Inv(states[i])
  {
    var p := (k: nat) => k < |states| && Inv(states[k]);
    forall k | 0 <= k < i
      ensures Passes(p, k)
    {
      StepKeepsInv(rule, states, events, k);
    }
    PassesAlong(p, i);
  }

  lemma StepKeepsInv(rule: ParentRule, states: seq<System>, events: seq<Event>, k: nat)
    requires IsPath(rule, states, events) && k < |events|
    ensures Inv(states[k]) ==> Inv(states[k + 1])
  {
    if Inv(states[k]) {
      assert IsStep(rule, states, events, k);
      NextKeeps(rule, states[k], events[k].action, events[k].ok, states[k + 1]);
    }
  }

  lemma RunKeepsInv(rule: ParentRule, run: seq<System>, events: seq<Event>, i: nat)
    requires IsRun(rule, run, events) && i < |run|
    ensures Inv(run[i])
  {
    InitInv(run[0]);
    PathKeepsInv(rule, run, events, i);
  }

  lemma StepOfPath(rule: ParentRule, states: seq<System>, events: seq<Event>, i: nat)
    requires IsPath(rule, states, events) && Inv(states[0]) && i < |events|
    ensures Progress(states[i], states[i + 1], Atomic(states, events))
  {
    PathKeepsInv(rule, states, events, i);
    assert IsStep(rule, states, events, i);
    NextKeeps(rule, states[i], events[i].action, events[i].ok, states[i + 1]);
    if Atomic(states, events) {
      NextKeepsServer(rule, states[i], events[i].action, events[i].ok, states[i + 1]);
    }
  }

  /** Nothing a client holds and nothing that was saved is gone, nor, if `server`, anything the server holds. */
  ghost predicate Progress(s: System, s': System, server: bool) {
    && ClientsGrow(s, s') && Grows(s.store, s'.store)
    && (server ==> Elements(ServerHistory(s)) <= Elements(ServerHistory(s')))
  }

  lemma ProgressChains(a: System, b: System, c: System, server: bool)
    requires Progress(a, b, server) && Progress(b, c, server)
    ensures Progress(a, c, server)
  {
  }

  lemma {:induction false} ProgressAlong(states: seq<System>, server: bool, i: nat, j: nat)
    requires i <= j < |states|
    requires forall k :: 0 <= k < |states| - 1 ==> Progress(states[k], states[k + 1], server)
    ensures Progress(states[i], states[j], server)
    decreases j
  {
    if i < j {
      ProgressAlong(states, server, i, j - 1);
      ProgressChains(states[i], states[j - 1], states[j], server);
    }
  }

  lemma PathProgresses(rule: ParentRule, states: seq<System>, events: seq<Event>, i: nat, j: nat)
    requires IsPath(rule, states, events) && Inv(states[0]) && i <= j < |states|
    ensures Progress(states[i], states[j], Atomic(states, events))
  {
    forall k | 0 <= k < |states| - 1
      ensures Progress(states[k], states[k + 1], Atomic(states, events))
    {
      StepOfPath(rule, states, events, k);
    }
    ProgressAlong(states, Atomic(states, events), i, j);
  }

  lemma RunProgresses(rule: ParentRule, run: seq<System>, events: seq<Event>, i: nat, j: nat)
    requires IsRun(rule, run, events) && i <= j < |run|
    ensures Progress(run[i], run[j], Atomic(run, events))
  {
    InitInv(run[0]);
    PathProgresses(rule, run, events, i, j);
  }

  /** At every point of every run, whatever requests interleave and whatever fails: no client has lost a version, no
      saved manifest has changed, every version on the server is held by some client, and every version of every
      manifest a node has saved is pinned there. */
  lemma RunIsSafe(rule: ParentRule, run: seq<System>, events: seq<Event>, i: nat, j: nat)
    requires IsRun(rule, run, events) && i <= j < |run|
    ensures ClientsGrow(run[i], run[j]) && Grows(run[i].store, run[j].store)
    ensures Elements(ServerHistory(run[j])) <= AllVersions(run[j])
    ensures Pinned(run[j].store, run[j].server)
    ensures forall c :: 0 <= c < |run[j].clients| ==> Pinned(run[j].store, run[j].clients[c])
    ensures Sound(run[j].store)
  {
    RunProgresses(rule, run, events, i, j);
    RunKeepsInv(rule, run, events, j);
    assert run[j].server.head in run[j].rows + run[j].posted;
  }

  /** What a key resolves to in a client's history, at any two points of a run. */
  lemma CheckoutDuringRun(
      rule: ParentRule, run: seq<System>, events: seq<Event>, i: nat, j: nat, c: nat, key: Hash, x: Hash)
    requires IsRun(rule, run, events) && i <= j < |run| && c < |run[i].clients|
    requires Resolve(ClientHistory(run[i], c), key) == Found(x)
    ensures |run[j].clients| == |run[i].clients|
    ensures var later := Resolve(ClientHistory(run[j], c), key);
      && (x == key ==> later == Found(x))
      && (later == Found(x) || later == Ambiguous || later == Found(key))
      && forall v :: v in ClientHistory(run[i], c) && v.hash == x ==> v in ClientHistory(run[j], c)
  {
    RunIsSafe(rule, run, events, i, i);
    RunIsSafe(rule, run, events, i, j);
    ResolutionUnderGrowth(ClientHistory(run[i], c), ClientHistory(run[j], c), key, x);
    assert forall v :: v in ClientHistory(run[i], c) ==> v in Elements(ClientHistory(run[j], c));
  }

  // ---------- The server's history ----------

  /** The server merges each pushed manifest into the row it has at that moment. */
  ghost predicate Atomic(run: seq<System>, events: seq<Event>)
    requires |run| == |events| + 1
  {
    forall i :: 0 <= i < |events| && events[i].action.Receive? ==> events[i].action.base == run[i].server.head
  }

  /** A save keeps the server's versions exactly when each of them is in the row that was read or in the delta of the
      pushed history. */
  lemma SaveKeepsServer(rule: ParentRule, s: System, base: Cid, sent: Cid, s': System)
    requires Inv(s) && Next(rule, s, Receive(base, sent), true, s')
    ensures Elements(ServerHistory(s)) <= Elements(ServerHistory(s')) <==>
              forall v :: v in ServerHistory(s) ==>
                v in s.store[base] || (v in s.store[sent] && !Known(rule, s.store[base], v))
    ensures base == s.server.head ==> Elements(ServerHistory(s)) <= Elements(ServerHistory(s'))
  {
    ReceiveKeeps(rule, s, base, sent, true, s');
    MergeContents(rule, s.store[base], s.store[sent], ServerHistory(s'));
    if Elements(ServerHistory(s)) <= Elements(ServerHistory(s')) {
      forall v | v in ServerHistory(s)
        ensures v in s.store[base] || (v in s.store[sent] && !Known(rule, s.store[base], v))
      {
        assert v in Elements(ServerHistory(s'));
      }
    }
  }

  lemma NextKeepsServer(rule: ParentRule, s: System, a: Action, ok: bool, s': System)
    requires Inv(s) && Next(rule, s, a, ok, s')
    requires a.Receive? ==> a.base == s.server.head
    ensures Elements(ServerHistory(s)) <= Elements(ServerHistory(s'))
  {
    match a
    case Commit(c, v, pin) =>
      ClientUpdateKeeps(rule, s, c, if pin then {v.hash} else {}, [v], ok, s');
    case Post(c) =>
    case Receive(base, sent) =>
      if ok {
        SaveKeepsServer(rule, s, base, sent, s');
      } else {
        ReceiveKeeps(rule, s, base, sent, ok, s');
      }
    case Answer(c, reply) =>
      ClientUpdateKeeps(rule, s, c, {}, s.store[reply], ok, s');
  }

  /** When requests are atomic the server's history only grows. */
  lemma AtomicRunsGrowServer(rule: ParentRule, run: seq<System>, events: seq<Event>, i: nat, j: nat)
    requires IsRun(rule, run, events) && Atomic(run, events) && i <= j < |run|
    ensures Elements(ServerHistory(run[i])) <= Elements(ServerHistory(run[j]))
  {
    RunProgresses(rule, run, events, i, j);
  }

  // ---------- An update that is lost ----------

  lemma FirstMerge(rule: ParentRule, v: Version)
    requires v.parents == []
    ensures Delta(rule, [], [v]) == [v] && IsMerge(rule, [], [v], [v])
  {
    FirstDelta(rule, v);
    assert [] + [v] == [v];
  }

  lemma FirstDelta(rule: ParentRule, v: Version)
    ensures Delta(rule, [], [v]) == [v]
  {
    assert [v][..0] == [];
    assert Delta(rule, [], []) == [];
  }

  lemma FirstUpdate(rule: ParentRule, store: Store, n: Node, v: Version, cid: Cid)
    requires v.parents == [] && (cid in store ==> store[cid] == [v])
    ensures Updates(rule, store, n, [], [v], store[cid := [v]],
                    Node(cid, n.pins + {v.hash} + {cid}, n.saved + {cid}), true)
  {
    FirstMerge(rule, v);
    var mid := Node(n.head, n.pins + {v.hash} + {cid}, n.saved + {cid});
    assert Hashes([v]) == {v.hash};
    assert MergesAndCommits(rule, store, n, [], [v], store[cid := [v]], mid, Some(cid));
  }

  lemma ExtendPath(rule: ParentRule, states: seq<System>, events: seq<Event>, e: Event, s: System)
    requires IsPath(rule, states, events) && Next(rule, states[|events|], e.action, e.ok, s)
    ensures IsPath(rule, states + [s], events + [e])
  {
    var states', events' := states + [s], events + [e];
    forall i | 0 <= i < |events'|
      ensures IsStep(rule, states', events', i)
    {
      assert i < |events| ==> IsStep(rule, states, events, i);
      assert i < |events| ==> states'[i + 1] == states[i + 1] && events'[i] == events[i];
      assert states'[i] == states[i];
    }
  }

  /** Extend a run by a client's commit of a parentless version to the empty history it holds. */
  lemma CommitFirst(
      rule: ParentRule, run: seq<System>, events: seq<Event>, c: nat, v: Version, pin: bool, cid: Cid)
      returns (run': seq<System>, events': seq<Event>)
    requires IsRun(rule, run, events) && v.parents == []
    requires var s := run[|run| - 1];
      && c < |s.clients| && s.clients[c].head in s.store && s.store[s.clients[c].head] == []
      && cid !in s.store
    ensures IsRun(rule, run', events') && |run'| == |run| + 1
    ensures events' == events + [Event(Commit(c, v, pin), true)] && run' == run + [run'[|run|]]
    ensures var s, s' := run[|run| - 1], run'[|run'| - 1];
      && |s'.clients| == |s.clients| && s'.clients[c].head == cid
      && s' == s.(store := s.store[cid := [v]], clients := s.clients[c := s'.clients[c]])
  {
    var s := run[|run| - 1];
    var pins := if pin then {v.hash} else {};
    var n := s.clients[c].(pins := s.clients[c].pins + pins);
    var n' := Node(cid, n.pins + {v.hash} + {cid}, n.saved + {cid});
    var s' := s.(store := s.store[cid := [v]], clients := s.clients[c := n']);
    FirstUpdate(rule, s.store, n, v, cid);
    assert ClientUpdates(rule, s, c, pins, [v], true, s');
    assert Next(rule, s, Commit(c, v, pin), true, s');
    ExtendPath(rule, run, events, Event(Commit(c, v, pin), true), s');
    run', events' := run + [s'], events + [Event(Commit(c, v, pin), true)];
  }

  /** A commit that asks not to pin, in a run, after which the version is pinned though it was not before. */
  lemma UnpinnedCommitIsPinned(rule: ParentRule)
    ensures exists run: seq<System>, events, v ::
      && IsRun(rule, run, events) && events == [Event(Commit(0, v, false), true)]
      && |run[0].clients| == |run[1].clients| == 1
      && v.hash !in run[0].clients[0].pins && v.hash in run[1].clients[0].pins
  {
    var v := Version("ann", 1, "m", "x", "FILE", []);
    var idle := Node("e", {"e"}, {"e"});
    var s := System(map["e" := []], idle, [idle], {}, {"e"});
    assert Init(s);
    assert IsRun(rule, [s], []);
    var run, events := CommitFirst(rule, [s], [], 0, v, false, "a");
    RunKeepsInv(rule, run, events, 0);
    assert IsStep(rule, run, events, 0);
    CommitAlwaysPins(rule, run[0], 0, v, false, run[1]);
    assert "x" !in {"e"};
    assert run[0] == s;
  }

  /** Extend a run by a client's post and the server's merge of it into a row that was empty when it was read. */
  lemma PushOntoEmpty(rule: ParentRule, run: seq<System>, events: seq<Event>, c: nat, v: Version, base: Cid)
      returns (run': seq<System>, events': seq<Event>)
    requires IsRun(rule, run, events) && v.parents == []
    requires var s := run[|run| - 1];
      && c < |s.clients| && s.clients[c].head in s.store && s.store[s.clients[c].head] == [v]
      && base in s.rows && base in s.store && s.store[base] == []
    ensures IsRun(rule, run', events') && |run'| == |run| + 2
    ensures var s, s' := run[|run| - 1], run'[|run'| - 1];
      && s'.store == s.store && s'.clients == s.clients && s.rows <= s'.rows && ServerHistory(s') == [v]
    ensures ServerHistory(run'[|run'| - 2]) == ServerHistory(run[|run| - 1])
  {
    var s := run[|run| - 1];
    var cid := s.clients[c].head;
    var mid := s.(posted := s.posted + {cid});
    var n' := Node(cid, s.server.pins + {v.hash} + {cid}, s.server.saved + {cid});
    var s' := mid.(server := n', rows := mid.rows + {cid});
    ExtendPath(rule, run, events, Event(Post(c), true), mid);
    FirstUpdate(rule, s.store, s.server, v, cid);
    assert s.store[cid := [v]] == s.store;
    assert Next(rule, mid, Receive(base, cid), true, s');
    ExtendPath(rule, run + [mid], events + [Event(Post(c), true)], Event(Receive(base, cid), true), s');
    run' := run + [mid] + [s'];
    events' := events + [Event(Post(c), true)] + [Event(Receive(base, cid), true)];
  }

  /** Two clients push, and both requests read the server's row before either is saved: the version that was saved
      first is gone from the server. */
  lemma UpdatesCanBeLost(rule: ParentRule)
    ensures exists run, events, i, v ::
      && IsRun(rule, run, events) && 0 <= i < |events|
      && v in ServerHistory(run[i]) && v !in ServerHistory(run[i + 1])
  {
    var v := Version("ann", 1, "m", "x", "FILE", []);
    var w := Version("bob", 2, "n", "y", "FILE", []);
    var idle := Node("e", {"e"}, {"e"});
    var s := System(map["e" := []], idle, [idle, idle], {}, {"e"});
    var run, events := [s], [];
    assert Init(s);
    assert IsRun(rule, run, events);
    run, events := CommitFirst(rule, run, events, 0, v, true, "a");
    run, events := CommitFirst(rule, run, events, 1, w, true, "b");
    run, events := PushOntoEmpty(rule, run, events, 0, v, "e");
    run, events := PushOntoEmpty(rule, run, events, 1, w, "e");
    var i := |events| - 1;
    assert v in ServerHistory(run[i]) && v !in ServerHistory(run[i + 1]);
  }

  // ---------- Parents ----------

  ghost predicate AllClosed(store: Store) {
    forall cid :: cid in store ==> ParentClosed(store[cid])
  }

  /** The parents of a committed version are all in the history it is committed to. */
  ghost predicate ParentsKnown(s: System, a: Action) {
    a.Commit? && a.client < |s.clients| ==> Unknown(ClientHistory(s, a.client), a.version.parents) == []
  }

  lemma UpdateKeepsClosed(
      rule: ParentRule, store: Store, n: Node, ours: History, theirs: History, store': Store, n': Node, ok: bool)
    requires Updates(rule, store, n, ours, theirs, store', n', ok) && AllClosed(store) && ParentClosed(ours)
    requires forall v, p :: v in theirs && p in v.parents ==> Present(ours, p) || Present(theirs, p)
    ensures AllClosed(store')
  {
    UpdateSavesMerges(rule, store, n, ours, theirs, store', n', ok);
    forall c | c in store' && IsMerge(rule, ours, theirs, store'[c])
      ensures ParentClosed(store'[c])
    {
      MergeKeepsClosed(rule, ours, theirs, store'[c]);
    }
  }

  lemma NextKeepsClosed(rule: ParentRule, s: System, a: Action, ok: bool, s': System)
    requires Next(rule, s, a, ok, s') && AllClosed(s.store) && ParentsKnown(s, a)
    ensures AllClosed(s'.store)
  {
    match a
    case Commit(c, v, pin) =>
      var n := s.clients[c];
      var pins := if pin then {v.hash} else {};
      UpdateKeepsClosed(rule, s.store, n.(pins := n.pins + pins), s.store[n.head], [v], s'.store, s'.clients[c], ok);
    case Post(c) =>
    case Receive(base, sent) =>
      UpdateKeepsClosed(rule, s.store, s.server, s.store[base], s.store[sent], s'.store, s'.server, ok);
    case Answer(c, reply) =>
      var n := s.clients[c];
      UpdateKeepsClosed(
        rule, s.store, n.(pins := n.pins + {}), s.store[n.head], s.store[reply], s'.store, s'.clients[c], ok);
  }

  /** In a run in which no commit lists an unknown parent, every parent listed in any saved manifest is present in
      that manifest. */
  lemma {:induction false} RunKeepsClosed(rule: ParentRule, run: seq<System>, events: seq<Event>, i: nat)
    requires IsRun(rule, run, events) && i < |run|
    requires forall k :: 0 <= k < |events| ==> ParentsKnown(run[k], events[k].action)
    ensures AllClosed(run[i].store)
  {
    if i > 0 {
      RunKeepsClosed(rule, run, events, i - 1);
      assert IsStep(rule, run, events, i - 1);
      NextKeepsClosed(rule, run[i - 1], events[i - 1].action, events[i - 1].ok, run[i]);
    }
  }
}
