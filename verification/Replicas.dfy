/** Clients that commit, push and fetch, and a server that merges what is pushed, as a state machine. */
module Replicas {
  import opened Versions
  import opened Manifest
  import opened Nodes

  /** `posted` holds the manifests clients have sent so far and `rows` the values the server's row has had. A
      request that is being served has read one of these rows at some time, and a client that waits for an answer
      receives one of them, so every interleaving, loss, repetition and delay of requests is covered. */
  datatype System = System(store: Store, server: Node, clients: seq<Node>, posted: set<Cid>, rows: set<Cid>)

  datatype Action =
    | Commit(client: nat, version: Version, pin: bool)
    | Post(client: nat)
    | Receive(base: Cid, sent: Cid)
    | Answer(client: nat, reply: Cid)

  function Lookup(store: Store, cid: Cid): History {
    if cid in store then store[cid] else []
  }

  function ClientHistory(s: System, c: nat): History
    requires c < |s.clients|
  {
    Lookup(s.store, s.clients[c].head)
  }

  function ServerHistory(s: System): History {
    Lookup(s.store, s.server.head)
  }

  ghost predicate Init(s: System) {
    exists cid: Cid ::
      && s.store == map[cid := []]
      && s.server == Node(cid, {cid}, {cid})
      && (forall c :: 0 <= c < |s.clients| ==> s.clients[c] == Node(cid, {cid}, {cid}))
      && s.posted == {} && s.rows == {cid}
  }

  /** One client merges `theirs` into its own history. */
  ghost predicate ClientUpdates(
      rule: ParentRule, s: System, c: nat, pins: set<Hash>, theirs: History, ok: bool, s': System)
  {
    && c < |s.clients| == |s'.clients|
    && s' == s.(store := s'.store, clients := s.clients[c := s'.clients[c]])
    && var n := s.clients[c];
       n.head in s.store
       && Updates(rule, s.store, n.(pins := n.pins + pins), s.store[n.head], theirs, s'.store, s'.clients[c], ok)
  }

  ghost predicate Next(rule: ParentRule, s: System, a: Action, ok: bool, s': System) {
    match a
    case Commit(c, v, pin) =>
      ClientUpdates(rule, s, c, if pin then {v.hash} else {}, [v], ok, s')
    case Post(c) =>
      c < |s.clients| && s' == s.(posted := s.posted + {s.clients[c].head})
    case Receive(base, sent) =>
      && base in s.rows && base in s.store && sent in s.posted && sent in s.store
      && Updates(rule, s.store, s.server, s.store[base], s.store[sent], s'.store, s'.server, ok)
      && s' == s.(store := s'.store, server := s'.server, rows := s.rows + if ok then {s'.server.head} else {})
    case Answer(c, reply) =>
      && reply in s.rows && reply in s.store
      && ClientUpdates(rule, s, c, {}, s.store[reply], ok, s')
  }

  // ---------- What every step keeps ----------

  /** The versions some client holds. */
  ghost function AllVersions(s: System): (vs: set<Version>)
    ensures forall v :: v in vs <==> exists c :: 0 <= c < |s.clients| && v in ClientHistory(s, c)
  {
    set c, v | 0 <= c < |s.clients| && v in ClientHistory(s, c) :: v
  }

  ghost predicate Inv(s: System) {
    && Sound(s.store)
    && Pinned(s.store, s.server)
    && (forall c :: 0 <= c < |s.clients| ==> Pinned(s.store, s.clients[c]))
    && s.server.head in s.rows && s.rows <= s.server.saved
    && (forall cid :: cid in s.posted ==> cid in s.store)
    && (forall cid :: cid in s.rows + s.posted ==> Elements(Lookup(s.store, cid)) <= AllVersions(s))
  }

  ghost predicate ClientsGrow(s: System, s': System) {
    && |s.clients| == |s'.clients|
    && forall c :: 0 <= c < |s.clients| ==> Elements(ClientHistory(s, c)) <= Elements(ClientHistory(s', c))
  }

  lemma InitInv(s: System)
    requires Init(s)
    ensures Inv(s)
  {
  }

  lemma AllVersionsGrow(s: System, s': System)
    requires ClientsGrow(s, s')
    ensures AllVersions(s) <= AllVersions(s')
  {
    forall v | v in AllVersions(s)
      ensures v in AllVersions(s')
    {
      var c :| 0 <= c < |s.clients| && v in ClientHistory(s, c);
      assert v in Elements(ClientHistory(s', c));
    }
  }

  /** Saving more manifests changes no history that a node already has. */
  lemma GrowingKeepsPinned(store: Store, n: Node, store': Store)
    requires Pinned(store, n) && Grows(store, store')
    ensures Pinned(store', n) && Lookup(store', n.head) == Lookup(store, n.head)
  {
  }

  lemma ClientUpdateKeeps(
      rule: ParentRule, s: System, c: nat, pins: set<Hash>, theirs: History, ok: bool, s': System)
    requires Inv(s) && Distinct(theirs) && ClientUpdates(rule, s, c, pins, theirs, ok, s')
    ensures Inv(s') && ClientsGrow(s, s') && Grows(s.store, s'.store)
    ensures ServerHistory(s') == ServerHistory(s)
    ensures forall d :: 0 <= d < |s.clients| && d != c ==> ClientHistory(s', d) == ClientHistory(s, d)
    ensures if ok then IsMerge(rule, ClientHistory(s, c), theirs, ClientHistory(s', c))
            else ClientHistory(s', c) == ClientHistory(s, c)
  {
    var n := s.clients[c];
    var n0 := n.(pins := n.pins + pins);
    assert Pinned(s.store, n0);
    UpdateIsSafe(rule, s.store, n0, n.head, theirs, s'.store, s'.clients[c], ok);
    GrowingKeepsPinned(s.store, s.server, s'.store);
    forall d | 0 <= d < |s.clients|
      ensures Pinned(s'.store, s'.clients[d])
      ensures d != c ==> ClientHistory(s', d) == ClientHistory(s, d)
    {
      if d != c {
        GrowingKeepsPinned(s.store, s.clients[d], s'.store);
      }
    }
    if ok {
      MergeContents(rule, ClientHistory(s, c), theirs, ClientHistory(s', c));
    }
    AllVersionsGrow(s, s');
    HeldStays(s, s');
  }

  lemma HeldStays(s: System, s': System)
    requires Inv(s) && Grows(s.store, s'.store) && AllVersions(s) <= AllVersions(s')
    ensures forall cid :: cid in s.rows + s.posted ==> Elements(Lookup(s'.store, cid)) <= AllVersions(s')
  {
    forall cid | cid in s.rows + s.posted
      ensures Elements(Lookup(s'.store, cid)) <= AllVersions(s')
    {
      assert cid in s.store;
    }
  }

  lemma PostKeeps(s: System, c: nat, s': System)
    requires Inv(s) && c < |s.clients| && s' == s.(posted := s.posted + {s.clients[c].head})
    ensures Inv(s') && AllVersions(s') == AllVersions(s)
    ensures forall d :: 0 <= d < |s.clients| ==> ClientHistory(s', d) == ClientHistory(s, d)
  {
    assert forall d :: 0 <= d < |s.clients| ==> ClientHistory(s', d) == ClientHistory(s, d);
    assert Elements(ClientHistory(s, c)) <= AllVersions(s);
  }

  lemma ReceiveKeeps(rule: ParentRule, s: System, base: Cid, sent: Cid, ok: bool, s': System)
    requires Inv(s) && Next(rule, s, Receive(base, sent), ok, s')
    ensures Inv(s') && Grows(s.store, s'.store)
    ensures forall d :: 0 <= d < |s.clients| ==> ClientHistory(s', d) == ClientHistory(s, d)
    ensures if ok then IsMerge(rule, s.store[base], s.store[sent], ServerHistory(s'))
            else ServerHistory(s') == ServerHistory(s)
  {
    UpdateIsSafe(rule, s.store, s.server, base, s.store[sent], s'.store, s'.server, ok);
    forall d | 0 <= d < |s.clients|
      ensures Pinned(s'.store, s'.clients[d]) && ClientHistory(s', d) == ClientHistory(s, d)
    {
      GrowingKeepsPinned(s.store, s.clients[d], s'.store);
    }
    AllVersionsGrow(s, s');
    HeldStays(s, s');
    if ok {
      assert base in s.rows + s.posted && sent in s.rows + s.posted;
      MergeStaysWithin(rule, AllVersions(s), s.store[base], s.store[sent], ServerHistory(s'));
    }
  }

  /** Every step, successful or not, keeps the invariant, and no client ever loses a version. */
  lemma NextKeeps(rule: ParentRule, s: System, a: Action, ok: bool, s': System)
    requires Inv(s) && Next(rule, s, a, ok, s')
    ensures Inv(s') && ClientsGrow(s, s') && Grows(s.store, s'.store)
  {
    match a
    case Commit(c, v, pin) =>
      ClientUpdateKeeps(rule, s, c, if pin then {v.hash} else {}, [v], ok, s');
    case Post(c) =>
      PostKeeps(s, c, s');
    case Receive(base, sent) =>
      ReceiveKeeps(rule, s, base, sent, ok, s');
    case Answer(c, reply) =>
      ClientUpdateKeeps(rule, s, c, {}, s.store[reply], ok, s');
  }

  /** A committed version is pinned on the client whether or not pinning was asked for. */
  lemma CommitAlwaysPins(rule: ParentRule, s: System, c: nat, v: Version, pin: bool, s': System)
    requires Inv(s) && Next(rule, s, Commit(c, v, pin), true, s')
    ensures c < |s'.clients| && v.hash in s'.clients[c].pins
  {
    ClientUpdateKeeps(rule, s, c, if pin then {v.hash} else {}, [v], true, s');
    MergeHashes(rule, ClientHistory(s, c), [v], ClientHistory(s', c));
    assert v in [v];
  }
}
