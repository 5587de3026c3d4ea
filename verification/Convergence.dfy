/** When everyone has pushed and then fetched, everyone holds the same history. */
module Convergence {
  import opened Versions
  import opened Ordering
  import opened Manifest
  import opened MergePlan
  import opened Nodes
  import opened Replicas
  import opened Runs

  /** A whole push: the client sends its manifest, the server merges it into the row it has and saves, and the client
      merges the answer. */
  ghost predicate Pushes(rule: ParentRule, s: System, c: nat, s': System) {
    && c < |s.clients|
    && exists mid: System ::
         ServerTakes(rule, s, c, mid) && Fetches(rule, mid, c, s')
  }

  ghost predicate ServerTakes(rule: ParentRule, s: System, c: nat, mid: System) {
    && c < |s.clients|
    && Next(rule, Posted(s, c), Receive(s.server.head, s.clients[c].head), true, mid)
  }

  function Posted(s: System, c: nat): System
    requires c < |s.clients|
  {
    s.(posted := s.posted + {s.clients[c].head})
  }

  ghost predicate Fetches(rule: ParentRule, s: System, c: nat, s': System) {
    Next(rule, s, Answer(c, s.server.head), true, s')
  }

  lemma ServerWithinClients(s: System)
    requires Inv(s)
    ensures Elements(ServerHistory(s)) <= AllVersions(s)
    ensures forall c :: 0 <= c < |s.clients| ==> Elements(ClientHistory(s, c)) <= AllVersions(s)
  {
    assert s.server.head in s.rows + s.posted;
  }

  /** A successful answer to a client whose system holds coherent versions is a union. */
  lemma AnswerIsUnion(rule: ParentRule, s: System, c: nat, s': System)
    requires Inv(s) && Coherent(rule, AllVersions(s)) && Fetches(rule, s, c, s')
    ensures Inv(s') && ClientsGrow(s, s') && ServerHistory(s') == ServerHistory(s)
    ensures Elements(ClientHistory(s', c)) == Elements(ClientHistory(s, c)) + Elements(ServerHistory(s))
    ensures AllVersions(s') == AllVersions(s)
  {
    ServerWithinClients(s);
    ClientUpdateKeeps(rule, s, c, {}, ServerHistory(s), true, s');
    MergeWithin(rule, AllVersions(s), ClientHistory(s, c), ServerHistory(s), ClientHistory(s', c));
    AllVersionsGrow(s, s');
    forall v | v in AllVersions(s')
      ensures v in AllVersions(s)
    {
      var d :| 0 <= d < |s'.clients| && v in ClientHistory(s', d);
      assert d != c ==> v in ClientHistory(s, d);
    }
  }

  lemma SameClientsSameVersions(s: System, s': System)
    requires |s.clients| == |s'.clients|
    requires forall d :: 0 <= d < |s.clients| ==> ClientHistory(s', d) == ClientHistory(s, d)
    ensures ClientsGrow(s, s') && AllVersions(s') == AllVersions(s)
  {
  }

  lemma PostAndReceiveIsMerge(rule: ParentRule, s: System, c: nat, mid: System)
    requires Inv(s) && ServerTakes(rule, s, c, mid)
    ensures Inv(mid) && |mid.clients| == |s.clients|
    ensures forall d :: 0 <= d < |s.clients| ==> ClientHistory(mid, d) == ClientHistory(s, d)
    ensures IsMerge(rule, ServerHistory(s), ClientHistory(s, c), ServerHistory(mid))
  {
    PostKeeps(s, c, Posted(s, c));
    ReceiveKeeps(rule, Posted(s, c), s.server.head, s.clients[c].head, true, mid);
  }

  lemma PostAndReceiveIsUnion(rule: ParentRule, s: System, c: nat, mid: System)
    requires Inv(s) && Coherent(rule, AllVersions(s)) && ServerTakes(rule, s, c, mid)
    ensures Inv(mid) && ClientsGrow(s, mid) && AllVersions(mid) == AllVersions(s)
    ensures ClientHistory(mid, c) == ClientHistory(s, c)
    ensures Elements(ServerHistory(mid)) == Elements(ServerHistory(s)) + Elements(ClientHistory(s, c))
  {
    ServerWithinClients(s);
    PostAndReceiveIsMerge(rule, s, c, mid);
    SameClientsSameVersions(s, mid);
    MergeWithin(rule, AllVersions(s), ServerHistory(s), ClientHistory(s, c), ServerHistory(mid));
  }

  /** A push adds the client's versions to the server's, and leaves both with the same. */
  lemma PushIsUnion(rule: ParentRule, s: System, c: nat, s': System)
    requires Inv(s) && Coherent(rule, AllVersions(s)) && Pushes(rule, s, c, s')
    ensures Inv(s') && ClientsGrow(s, s') && AllVersions(s') == AllVersions(s)
    ensures Elements(ServerHistory(s')) == Elements(ServerHistory(s)) + Elements(ClientHistory(s, c))
    ensures Elements(ClientHistory(s', c)) == Elements(ServerHistory(s'))
  {
    var mid: System :| ServerTakes(rule, s, c, mid) && Fetches(rule, mid, c, s');
    PostAndReceiveIsUnion(rule, s, c, mid);
    UnionThenAnswer(rule, s, c, mid, s');
  }

  lemma UnionThenAnswer(rule: ParentRule, s: System, c: nat, mid: System, s': System)
    requires Inv(mid) && Coherent(rule, AllVersions(mid)) && Fetches(rule, mid, c, s')
    requires ClientsGrow(s, mid) && AllVersions(mid) == AllVersions(s) && c < |s.clients|
    requires ClientHistory(mid, c) == ClientHistory(s, c)
    requires Elements(ServerHistory(mid)) == Elements(ServerHistory(s)) + Elements(ClientHistory(s, c))
    ensures Inv(s') && ClientsGrow(s, s') && AllVersions(s') == AllVersions(s)
    ensures Elements(ServerHistory(s')) == Elements(ServerHistory(s)) + Elements(ClientHistory(s, c))
    ensures Elements(ClientHistory(s', c)) == Elements(ServerHistory(s'))
  {
    AnswerIsUnion(rule, mid, c, s');
    GrowthChains(s, mid, s');
  }

  lemma GrowthChains(a: System, b: System, c: System)
    requires ClientsGrow(a, b) && ClientsGrow(b, c)
    ensures ClientsGrow(a, c)
  {
  }

  /** Every replica holds exactly the versions `vs`. */
  ghost predicate Agreed(s: System, vs: set<Version>) {
    && Elements(ServerHistory(s)) == vs
    && forall c :: 0 <= c < |s.clients| ==> Elements(ClientHistory(s, c)) == vs
  }

  lemma CollectedAll(start: System, middle: System)
    requires Inv(middle) && AllVersions(middle) == AllVersions(start)
    requires forall c :: 0 <= c < |start.clients| ==>
               Elements(ClientHistory(start, c)) <= Elements(ServerHistory(middle))
    ensures Elements(ServerHistory(middle)) == AllVersions(start)
  {
    ServerWithinClients(middle);
    forall v | v in AllVersions(start)
      ensures v in ServerHistory(middle)
    {
      var c :| 0 <= c < |start.clients| && v in ClientHistory(start, c);
      assert v in Elements(ClientHistory(start, c));
    }
  }

  lemma AgreedSequences(s: System, vs: set<Version>)
    requires Inv(s) && Agreed(s, vs) && DatesDiffer(vs)
    ensures forall c :: 0 <= c < |s.clients| ==> ClientHistory(s, c) == ServerHistory(s)
  {
    forall c | 0 <= c < |s.clients|
      ensures ClientHistory(s, c) == ServerHistory(s)
    {
      SameSequence(ClientHistory(s, c), ServerHistory(s));
    }
  }

  lemma HistoriesAreCompatible(rule: ParentRule, h: History)
    requires Distinct(h) && Ordered(h)
    ensures Compatible(rule, Elements(h)) && !Cyclic(Elements(h))
  {
    OrderedIsAcyclic(h);
    DistinctByCount(h);
  }

  /** Conversely, as long as the versions of all clients are free of conflicts and cycles, no merge that any push or
      fetch asks for is refused. */
  lemma NoMergeIsRefused(rule: ParentRule, s: System, a: Cid, b: Cid)
    requires Inv(s) && Coherent(rule, AllVersions(s)) && Compatible(rule, AllVersions(s)) && !Cyclic(AllVersions(s))
    requires (a in s.rows + s.posted || exists c :: 0 <= c < |s.clients| && a == s.clients[c].head)
    requires (b in s.rows + s.posted || exists c :: 0 <= c < |s.clients| && b == s.clients[c].head)
    ensures Mergeable(rule, Lookup(s.store, a), Lookup(s.store, b))
  {
    var ha, hb := Lookup(s.store, a), Lookup(s.store, b);
    ServerWithinClients(s);
    if a !in s.rows + s.posted {
      var c :| 0 <= c < |s.clients| && a == s.clients[c].head;
      assert Elements(ClientHistory(s, c)) <= AllVersions(s);
    }
    if b !in s.rows + s.posted {
      var c :| 0 <= c < |s.clients| && b == s.clients[c].head;
      assert Elements(ClientHistory(s, c)) <= AllVersions(s);
    }
    CyclesGrow(Elements(ha) + Elements(hb), AllVersions(s));
    MergeableByUnion(rule, ha, hb);
    forall x, y | x in ha && y in hb
      ensures !InConflict(rule, x, y)
    {
      assert x in Elements(ha) && y in Elements(hb);
    }
  }

  // ---------- Stretches of a run without commits ----------

  /** A stretch of a run: any interleaving of posts, server merges and answers, failed ones included. */
  datatype Stretch = Stretch(states: seq<System>, events: seq<Event>)

  /** Nothing is committed, and each server merge is into the row of that moment. */
  ghost predicate IsStretch(rule: ParentRule, g: Stretch) {
    && IsPath(rule, g.states, g.events)
    && Atomic(g.states, g.events)
    && forall k :: 0 <= k < |g.events| ==> !g.events[k].action.Commit?
  }

  function First(g: Stretch): System
    requires g.states != []
  {
    g.states[0]
  }

  function Last(g: Stretch): System
    requires g.states != []
  {
    g.states[|g.states| - 1]
  }

  /** Before point `m` the server has merged a manifest with all that client `c` held at the beginning. */
  ghost predicate Delivered(g: Stretch, m: nat, c: nat)
    requires |g.states| == |g.events| + 1 && m <= |g.events|
  {
    exists k :: 0 <= k < m && Delivers(g.states[0], g.states[k], g.events[k], c)
  }

  ghost predicate Delivers(first: System, s: System, e: Event, c: nat) {
    && e.ok && e.action.Receive? && c < |first.clients|
    && Elements(ClientHistory(first, c)) <= Elements(Lookup(s.store, e.action.sent))
  }

  /** After point `m` client `c` has merged an answer that was the server's row at some time since `m`. */
  ghost predicate Answered(g: Stretch, m: nat, c: nat)
    requires |g.states| == |g.events| + 1
  {
    exists i, k :: m <= i <= k < |g.events| && g.events[k] == Event(Answer(c, g.states[i].server.head), true)
  }

  /** Every client's history reaches the server by point `m` and every client gets an answer after it. */
  ghost predicate Converging(rule: ParentRule, g: Stretch, m: nat) {
    && IsStretch(rule, g) && m <= |g.events|
    && forall c: nat :: c < |First(g).clients| ==> Delivered(g, m, c) && Answered(g, m, c)
  }

  /** A merge within the versions that clients hold leaves those versions as they are. */
  lemma StepKeepsVersions(rule: ParentRule, s: System, a: Action, ok: bool, s': System)
    requires Inv(s) && Next(rule, s, a, ok, s') && !a.Commit?
    ensures AllVersions(s') == AllVersions(s)
  {
    match a
    case Post(c) => PostKeeps(s, c, s');
    case Receive(base, sent) =>
      ReceiveKeeps(rule, s, base, sent, ok, s');
      SameClientsSameVersions(s, s');
    case Answer(c, reply) =>
      ClientUpdateKeeps(rule, s, c, {}, s.store[reply], ok, s');
      AllVersionsGrow(s, s');
      ServerWithinClients(s);
      assert reply in s.rows + s.posted;
      if ok {
        MergeStaysWithin(rule, AllVersions(s), ClientHistory(s, c), s.store[reply], ClientHistory(s', c));
      }
      OneClientWithin(s, c, s');
  }

  lemma OneClientWithin(s: System, c: nat, s': System)
    requires c < |s.clients| == |s'.clients|
    requires forall d :: 0 <= d < |s.clients| && d != c ==> ClientHistory(s', d) == ClientHistory(s, d)
    requires Elements(ClientHistory(s', c)) <= AllVersions(s)
    ensures AllVersions(s') <= AllVersions(s)
  {
    forall v | v in AllVersions(s')
      ensures v in AllVersions(s)
    {
      var d :| 0 <= d < |s'.clients| && v in ClientHistory(s', d);
      assert d != c ==> v in ClientHistory(s, d);
      assert d == c ==> v in Elements(ClientHistory(s', c));
    }
  }

  lemma StretchKeepsVersions(rule: ParentRule, g: Stretch, i: nat)
    requires IsStretch(rule, g) && Inv(First(g)) && i < |g.states|
    ensures Inv(g.states[i]) && AllVersions(g.states[i]) == AllVersions(First(g))
  {
    var p := (k: nat) => k < |g.states| && AllVersions(g.states[k]) == AllVersions(First(g));
    forall k | 0 <= k < i
      ensures Passes(p, k)
    {
      EventKeepsVersions(rule, g, k);
    }
    PassesAlong(p, i);
    PathKeepsInv(rule, g.states, g.events, i);
  }

  lemma EventKeepsVersions(rule: ParentRule, g: Stretch, k: nat)
    requires IsStretch(rule, g) && Inv(First(g)) && k < |g.events|
    ensures AllVersions(g.states[k + 1]) == AllVersions(g.states[k])
  {
    PathKeepsInv(rule, g.states, g.events, k);
    assert IsStep(rule, g.states, g.events, k);
    StepKeepsVersions(rule, g.states[k], g.events[k].action, g.events[k].ok, g.states[k + 1]);
  }

  /** The server has all of a manifest it has merged. */
  lemma ReceiveTakes(rule: ParentRule, s: System, base: Cid, sent: Cid, s': System)
    requires Inv(s) && Coherent(rule, AllVersions(s)) && Next(rule, s, Receive(base, sent), true, s')
    ensures Elements(Lookup(s.store, sent)) <= Elements(ServerHistory(s'))
  {
    ReceiveKeeps(rule, s, base, sent, true, s');
    assert base in s.rows + s.posted && sent in s.rows + s.posted;
    MergeWithin(rule, AllVersions(s), s.store[base], s.store[sent], ServerHistory(s'));
  }

  /** A client has all of an answer it has merged. */
  lemma AnswerTakes(rule: ParentRule, s: System, c: nat, reply: Cid, s': System)
    requires Inv(s) && Coherent(rule, AllVersions(s)) && Next(rule, s, Answer(c, reply), true, s')
    ensures c < |s'.clients| && Elements(Lookup(s.store, reply)) <= Elements(ClientHistory(s', c))
  {
    ClientUpdateKeeps(rule, s, c, {}, s.store[reply], true, s');
    ServerWithinClients(s);
    assert reply in s.rows + s.posted;
    MergeWithin(rule, AllVersions(s), ClientHistory(s, c), s.store[reply], ClientHistory(s', c));
  }

  lemma DeliveredReachesServer(rule: ParentRule, g: Stretch, m: nat, c: nat, j: nat)
    requires IsStretch(rule, g) && Inv(First(g)) && Coherent(rule, AllVersions(First(g)))
    requires m <= j < |g.states| && c < |First(g).clients| && Delivered(g, m, c)
    ensures Elements(ClientHistory(First(g), c)) <= Elements(ServerHistory(g.states[j]))
  {
    var k :| 0 <= k < m && Delivers(g.states[0], g.states[k], g.events[k], c);
    StretchKeepsVersions(rule, g, k);
    assert IsStep(rule, g.states, g.events, k);
    var a := g.events[k].action;
    ReceiveTakes(rule, g.states[k], a.base, a.sent, g.states[k + 1]);
    PathProgresses(rule, g.states, g.events, k + 1, j);
  }

  lemma ServerHoldsAll(rule: ParentRule, g: Stretch, m: nat, j: nat)
    requires Converging(rule, g, m) && Inv(First(g)) && Coherent(rule, AllVersions(First(g)))
    requires m <= j < |g.states|
    ensures Elements(ServerHistory(g.states[j])) == AllVersions(First(g))
  {
    StretchKeepsVersions(rule, g, j);
    forall c | 0 <= c < |First(g).clients|
      ensures Elements(ClientHistory(First(g), c)) <= Elements(ServerHistory(g.states[j]))
    {
      DeliveredReachesServer(rule, g, m, c, j);
    }
    CollectedAll(First(g), g.states[j]);
  }

  /** A row that was read stays what it was while requests are under way. */
  lemma RowStays(rule: ParentRule, g: Stretch, i: nat, k: nat)
    requires IsStretch(rule, g) && Inv(First(g)) && i <= k < |g.states|
    ensures Lookup(g.states[k].store, g.states[i].server.head) == ServerHistory(g.states[i])
  {
    StretchKeepsVersions(rule, g, i);
    PathProgresses(rule, g.states, g.events, i, k);
  }

  lemma AnswerAtStep(rule: ParentRule, g: Stretch, c: nat, k: nat, reply: Cid)
    requires IsStretch(rule, g) && Inv(First(g)) && Coherent(rule, AllVersions(First(g)))
    requires k < |g.events| && g.events[k] == Event(Answer(c, reply), true)
    ensures c < |g.states[k + 1].clients|
    ensures Elements(Lookup(g.states[k].store, reply)) <= Elements(ClientHistory(g.states[k + 1], c))
  {
    StretchKeepsVersions(rule, g, k);
    assert IsStep(rule, g.states, g.events, k);
    AnswerTakes(rule, g.states[k], c, reply, g.states[k + 1]);
  }

  lemma AnswerReachesClient(rule: ParentRule, g: Stretch, c: nat, i: nat, k: nat)
    requires IsStretch(rule, g) && Inv(First(g)) && Coherent(rule, AllVersions(First(g)))
    requires i <= k < |g.events| && g.events[k] == Event(Answer(c, g.states[i].server.head), true)
    ensures c < |Last(g).clients| && Elements(ServerHistory(g.states[i])) <= Elements(ClientHistory(Last(g), c))
  {
    RowStays(rule, g, i, k);
    AnswerAtStep(rule, g, c, k, g.states[i].server.head);
    assert Progress(g.states[k + 1], Last(g), true) by {
      PathProgresses(rule, g.states, g.events, k + 1, |g.events|);
    }
  }

  lemma ClientHoldsAll(rule: ParentRule, g: Stretch, m: nat, c: nat)
    requires Converging(rule, g, m) && Inv(First(g)) && Coherent(rule, AllVersions(First(g)))
    requires c < |First(g).clients|
    ensures c < |Last(g).clients| && AllVersions(First(g)) <= Elements(ClientHistory(Last(g), c))
  {
    assert Answered(g, m, c);
    var i, k :| m <= i <= k < |g.events| && g.events[k] == Event(Answer(c, g.states[i].server.head), true);
    ServerHoldsAll(rule, g, m, i);
    AnswerReachesClient(rule, g, c, i, k);
  }

  lemma StretchAgrees(rule: ParentRule, g: Stretch, m: nat)
    requires Converging(rule, g, m) && Inv(First(g)) && Coherent(rule, AllVersions(First(g)))
    ensures Inv(Last(g)) && Agreed(Last(g), AllVersions(First(g)))
  {
    var vs, last := AllVersions(First(g)), Last(g);
    StretchKeepsVersions(rule, g, |g.events|);
    ServerHoldsAll(rule, g, m, |g.events|);
    PathProgresses(rule, g.states, g.events, 0, |g.events|);
    ServerWithinClients(last);
    forall c | 0 <= c < |last.clients|
      ensures Elements(ClientHistory(last, c)) == vs
    {
      ClientHoldsAll(rule, g, m, c);
    }
  }

  /** In any interleaving in which each server merge is into the row of that moment: once what every client held has
      reached the server, and every client has then merged an answer given since, all replicas hold the same versions,
      namely all that any client held at the beginning, and the same sequence when no two versions share a date. This
      can only come about if no two of the versions conflict and their union has no cycle. */
  lemma EveryoneConverges(rule: ParentRule, g: Stretch, m: nat)
    requires Converging(rule, g, m) && Inv(First(g)) && Coherent(rule, AllVersions(First(g)))
    ensures var vs, last := AllVersions(First(g)), Last(g);
      && Agreed(last, vs)
      && Compatible(rule, vs) && !Cyclic(vs)
      && (DatesDiffer(vs) ==>
            forall c :: 0 <= c < |last.clients| ==> ClientHistory(last, c) == ServerHistory(last))
  {
    StretchAgrees(rule, g, m);
    HistoriesAreCompatible(rule, ServerHistory(Last(g)));
    if DatesDiffer(AllVersions(First(g))) {
      AgreedSequences(Last(g), AllVersions(First(g)));
    }
  }

  /** Following any run, such a stretch brings everyone to all versions exactly when no version passes for another
      one. Comparing parents as meant, that is always. */
  lemma RunsConvergeExactly(rule: ParentRule, run: seq<System>, events: seq<Event>, g: Stretch, m: nat)
    requires IsRun(rule, run, events) && Converging(rule, g, m) && First(g) == run[|events|]
    ensures var vs := AllVersions(First(g));
      && (Agreed(Last(g), vs) <==> Coherent(rule, vs))
      && (rule == AsMeant ==> Agreed(Last(g), vs))
  {
    var vs := AllVersions(First(g));
    RunKeepsInv(rule, run, events, |events|);
    StretchKeepsVersions(rule, g, |g.events|);
    EqualityIsExact(rule, vs);
    if Coherent(rule, vs) {
      StretchAgrees(rule, g, m);
    }
    if Agreed(Last(g), vs) {
      DistinctByCount(ServerHistory(Last(g)));
    }
  }

  /** A client that posts its manifest, and whose manifest is then merged, has delivered what it held. */
  lemma PostedIsDelivered(rule: ParentRule, g: Stretch, m: nat, c: nat, i: nat, k: nat)
    requires IsStretch(rule, g) && Inv(First(g)) && i < k < m <= |g.events| && c < |First(g).clients|
    requires g.events[i].action == Post(c)
    requires g.events[k].ok && g.events[k].action.Receive? && c < |g.states[i].clients|
    requires g.events[k].action.sent == g.states[i].clients[c].head
    ensures Delivered(g, m, c)
  {
    StretchKeepsVersions(rule, g, i);
    PathProgresses(rule, g.states, g.events, 0, i);
    PathProgresses(rule, g.states, g.events, i, k);
    assert Delivers(g.states[0], g.states[k], g.events[k], c);
  }

  // ---------- Serial rounds ----------

  /** Clients take their steps one after another, in the given order. */
  ghost predicate Chain(step: (System, nat, System) -> bool, states: seq<System>, order: seq<nat>) {
    && |states| == |order| + 1
    && forall k :: 0 <= k < |order| ==> step(states[k], order[k], states[k + 1])
  }

  ghost function PushStep(rule: ParentRule): (System, nat, System) -> bool {
    (s: System, c: nat, s': System) => Pushes(rule, s, c, s')
  }

  ghost function FetchStep(rule: ParentRule): (System, nat, System) -> bool {
    (s: System, c: nat, s': System) => Fetches(rule, s, c, s')
  }

  ghost predicate PushRound(rule: ParentRule, states: seq<System>, order: seq<nat>) {
    Chain(PushStep(rule), states, order)
  }

  ghost predicate FetchRound(rule: ParentRule, states: seq<System>, order: seq<nat>) {
    Chain(FetchStep(rule), states, order)
  }

  /** `g` goes on where `g0` ends. */
  ghost predicate Continues(g0: Stretch, g: Stretch) {
    g0.states <= g.states && g0.events <= g.events
  }

  lemma ExtendStretch(rule: ParentRule, g: Stretch, e: Event, s: System) returns (g': Stretch)
    requires IsStretch(rule, g) && Next(rule, Last(g), e.action, e.ok, s)
    requires !e.action.Commit? && (e.action.Receive? ==> e.action.base == Last(g).server.head)
    ensures IsStretch(rule, g') && Continues(g, g') && Last(g') == s
    ensures g' == Stretch(g.states + [s], g.events + [e])
  {
    ExtendPath(rule, g.states, g.events, e, s);
    g' := Stretch(g.states + [s], g.events + [e]);
    forall k | 0 <= k < |g'.events| && g'.events[k].action.Receive?
      ensures g'.events[k].action.base == g'.states[k].server.head
    {
      assert k < |g.events| ==> g'.events[k] == g.events[k];
      assert g'.states[k] == g.states[k];
    }
  }

  lemma DeliveredStays(g0: Stretch, g: Stretch, m: nat, c: nat)
    requires |g0.states| == |g0.events| + 1 && |g.states| == |g.events| + 1 && m <= |g0.events|
    requires Continues(g0, g) && Delivered(g0, m, c)
    ensures Delivered(g, m, c)
  {
    var k :| 0 <= k < m && Delivers(g0.states[0], g0.states[k], g0.events[k], c);
    assert Delivers(g.states[0], g.states[k], g.events[k], c);
  }

  lemma AnsweredStays(g0: Stretch, g: Stretch, m: nat, c: nat)
    requires |g0.states| == |g0.events| + 1 && |g.states| == |g.events| + 1
    requires Continues(g0, g) && Answered(g0, m, c)
    ensures Answered(g, m, c)
  {
    var i, k :| m <= i <= k < |g0.events| && g0.events[k] == Event(Answer(c, g0.states[i].server.head), true);
    assert g.events[k] == Event(Answer(c, g.states[i].server.head), true);
  }

  lemma ReceiveAsStretch(rule: ParentRule, g0: Stretch, c: nat, mid: System) returns (g: Stretch)
    requires IsStretch(rule, g0) && ServerTakes(rule, Last(g0), c, mid)
    ensures IsStretch(rule, g) && Last(g) == mid
    ensures var s := Last(g0); g == Stretch(
      g0.states + [Posted(s, c)] + [mid],
      g0.events + [Event(Post(c), true)] + [Event(Receive(s.server.head, s.clients[c].head), true)])
  {
    var s := Last(g0);
    g := ExtendStretch(rule, g0, Event(Post(c), true), Posted(s, c));
    g := ExtendStretch(rule, g, Event(Receive(s.server.head, s.clients[c].head), true), mid);
  }

  lemma AnswerAsStretch(rule: ParentRule, g0: Stretch, c: nat, s: System) returns (g: Stretch)
    requires IsStretch(rule, g0) && Fetches(rule, Last(g0), c, s)
    ensures IsStretch(rule, g) && Continues(g0, g) && Last(g) == s
    ensures g == Stretch(g0.states + [s], g0.events + [Event(Answer(c, Last(g0).server.head), true)])
  {
    g := ExtendStretch(rule, g0, Event(Answer(c, Last(g0).server.head), true), s);
  }

  /** A post and the merge that follows deliver what the client held at the beginning. */
  lemma ReceiveDelivers(rule: ParentRule, g0: Stretch, c: nat, mid: System) returns (g: Stretch)
    requires IsStretch(rule, g0) && Inv(First(g0)) && ServerTakes(rule, Last(g0), c, mid)
    ensures IsStretch(rule, g) && Continues(g0, g) && Last(g) == mid
    ensures c < |First(g0).clients| ==> Delivered(g, |g.events|, c)
  {
    var n := |g0.events|;
    g := ReceiveAsStretch(rule, g0, c, mid);
    if c < |First(g0).clients| {
      PostedIsDelivered(rule, g, n + 2, c, n, n + 1);
    }
  }

  /** A whole push, as three steps of a stretch. */
  lemma PushAsStretch(rule: ParentRule, g0: Stretch, c: nat, s: System) returns (g: Stretch)
    requires IsStretch(rule, g0) && Inv(First(g0)) && Pushes(rule, Last(g0), c, s)
    ensures IsStretch(rule, g) && Continues(g0, g) && Last(g) == s
    ensures c < |First(g0).clients| ==> Delivered(g, |g.events|, c)
  {
    var mid: System :| ServerTakes(rule, Last(g0), c, mid) && Fetches(rule, mid, c, s);
    var half := ReceiveDelivers(rule, g0, c, mid);
    g := AnswerAsStretch(rule, half, c, s);
    if c < |First(g0).clients| {
      DeliveredStays(half, g, |half.events|, c);
      DeliveredLater(g, |half.events|, |g.events|, c);
    }
  }

  lemma FetchAsStretch(rule: ParentRule, g0: Stretch, c: nat, s: System, m: nat) returns (g: Stretch)
    requires IsStretch(rule, g0) && Fetches(rule, Last(g0), c, s) && m <= |g0.events|
    ensures IsStretch(rule, g) && Continues(g0, g) && Last(g) == s && Answered(g, m, c)
  {
    var n := |g0.events|;
    g := AnswerAsStretch(rule, g0, c, s);
    assert g.states[n] == Last(g0) && g.events[n] == Event(Answer(c, g.states[n].server.head), true);
  }

  lemma DeliveredByMore(g0: Stretch, g: Stretch, order: seq<nat>, i: nat, clients: nat)
    requires |g0.states| == |g0.events| + 1 && |g.states| == |g.events| + 1 && Continues(g0, g)
    requires i < |order| && forall c :: c in order[..i] && c < clients ==> Delivered(g0, |g0.events|, c)
    requires order[i] < clients ==> Delivered(g, |g.events|, order[i])
    ensures forall c :: c in order[..i + 1] && c < clients ==> Delivered(g, |g.events|, c)
  {
    assert order[..i + 1] == order[..i] + [order[i]];
    forall c | c in order[..i] && c < clients
      ensures Delivered(g, |g.events|, c)
    {
      DeliveredStays(g0, g, |g0.events|, c);
      DeliveredLater(g, |g0.events|, |g.events|, c);
    }
  }

  lemma DeliveredLater(g: Stretch, m: nat, m': nat, c: nat)
    requires |g.states| == |g.events| + 1 && m <= m' <= |g.events| && Delivered(g, m, c)
    ensures Delivered(g, m', c)
  {
  }

  /** The stretch `g` goes on from `g0` to `s` and by then has delivered what the first `k` of `order` held. */
  ghost predicate Pushed(rule: ParentRule, g0: Stretch, g: Stretch, order: seq<nat>, k: nat, s: System)
    requires IsStretch(rule, g0) && k <= |order|
  {
    && IsStretch(rule, g) && Continues(g0, g) && Last(g) == s
    && forall c :: c in order[..k] && c < |First(g0).clients| ==> Delivered(g, |g.events|, c)
  }

  lemma PushedByMore(
      rule: ParentRule, g0: Stretch, before: Stretch, g: Stretch, order: seq<nat>, i: nat, s: System, s': System)
    requires IsStretch(rule, g0) && i < |order| && Pushed(rule, g0, before, order, i, s)
    requires IsStretch(rule, g) && Continues(before, g) && Last(g) == s'
    requires order[i] < |First(g0).clients| ==> Delivered(g, |g.events|, order[i])
    ensures Pushed(rule, g0, g, order, i + 1, s')
  {
    DeliveredByMore(before, g, order, i, |First(g0).clients|);
  }

  lemma PushedByOneMore(
      rule: ParentRule, g0: Stretch, before: Stretch, order: seq<nat>, i: nat, s: System, s': System)
      returns (g: Stretch)
    requires IsStretch(rule, g0) && Inv(First(g0)) && i < |order|
    requires Pushed(rule, g0, before, order, i, s) && Pushes(rule, s, order[i], s')
    ensures Pushed(rule, g0, g, order, i + 1, s')
  {
    assert First(before) == First(g0);
    g := PushAsStretch(rule, before, order[i], s');
    PushedByMore(rule, g0, before, g, order, i, s, s');
  }

  ghost function PushedUpTo(rule: ParentRule, g0: Stretch, states: seq<System>, order: seq<nat>): nat -> bool
    requires IsStretch(rule, g0) && |order| < |states|
  {
    (k: nat) => k <= |order| && exists g :: Pushed(rule, g0, g, order, k, states[k])
  }

  lemma PushRoundAsStretch(rule: ParentRule, g0: Stretch, states: seq<System>, order: seq<nat>)
      returns (g: Stretch)
    requires IsStretch(rule, g0) && Inv(First(g0))
    requires PushRound(rule, states, order) && states[0] == Last(g0)
    ensures Pushed(rule, g0, g, order, |order|, states[|order|])
  {
    PushedStart(rule, g0, order);
    PushedToEnd(rule, g0, states, order);
    g :| Pushed(rule, g0, g, order, |order|, states[|order|]);
  }

  lemma PushedStart(rule: ParentRule, g0: Stretch, order: seq<nat>)
    requires IsStretch(rule, g0)
    ensures Pushed(rule, g0, g0, order, 0, Last(g0))
  {
  }

  lemma PushedToEnd(rule: ParentRule, g0: Stretch, states: seq<System>, order: seq<nat>)
    requires IsStretch(rule, g0) && Inv(First(g0)) && PushRound(rule, states, order)
    requires PushedUpTo(rule, g0, states, order)(0)
    ensures PushedUpTo(rule, g0, states, order)(|order|)
  {
    forall i | 0 <= i < |order|
      ensures Passes(PushedUpTo(rule, g0, states, order), i)
    {
      PushedStep(rule, g0, states, order, i);
    }
    PassesAlong(PushedUpTo(rule, g0, states, order), |order|);
  }

  lemma PushedStep(rule: ParentRule, g0: Stretch, states: seq<System>, order: seq<nat>, i: nat)
    requires IsStretch(rule, g0) && Inv(First(g0)) && PushRound(rule, states, order) && i < |order|
    ensures Passes(PushedUpTo(rule, g0, states, order), i)
  {
    if g :| Pushed(rule, g0, g, order, i, states[i]) {
      assert PushStep(rule)(states[i], order[i], states[i + 1]);
      var g' := PushedByOneMore(rule, g0, g, order, i, states[i], states[i + 1]);
    }
  }

  /** The stretch `g` goes on from `g0` to `s` and has since answered the first `k` of `order`. */
  ghost predicate Fetched(rule: ParentRule, g0: Stretch, g: Stretch, order: seq<nat>, k: nat, s: System)
    requires IsStretch(rule, g0) && k <= |order|
  {
    && IsStretch(rule, g) && Continues(g0, g) && Last(g) == s
    && forall c :: c in order[..k] ==> Answered(g, |g0.events|, c)
  }

  lemma FetchedByMore(
      rule: ParentRule, g0: Stretch, before: Stretch, g: Stretch, order: seq<nat>, i: nat, s: System, s': System)
    requires IsStretch(rule, g0) && i < |order| && Fetched(rule, g0, before, order, i, s)
    requires IsStretch(rule, g) && Continues(before, g) && Last(g) == s'
    requires Answered(g, |g0.events|, order[i])
    ensures Fetched(rule, g0, g, order, i + 1, s')
  {
    assert order[..i + 1] == order[..i] + [order[i]];
    forall c | c in order[..i]
      ensures Answered(g, |g0.events|, c)
    {
      AnsweredStays(before, g, |g0.events|, c);
    }
  }

  ghost function FetchedUpTo(rule: ParentRule, g0: Stretch, states: seq<System>, order: seq<nat>): nat -> bool
    requires IsStretch(rule, g0) && |order| < |states|
  {
    (k: nat) => k <= |order| && exists g :: Fetched(rule, g0, g, order, k, states[k])
  }

  lemma FetchRoundAsStretch(rule: ParentRule, g0: Stretch, states: seq<System>, order: seq<nat>)
      returns (g: Stretch)
    requires IsStretch(rule, g0) && FetchRound(rule, states, order) && states[0] == Last(g0)
    ensures Fetched(rule, g0, g, order, |order|, states[|order|])
  {
    FetchedStart(rule, g0, order);
    FetchedToEnd(rule, g0, states, order);
    g :| Fetched(rule, g0, g, order, |order|, states[|order|]);
  }

  lemma FetchedStart(rule: ParentRule, g0: Stretch, order: seq<nat>)
    requires IsStretch(rule, g0)
    ensures Fetched(rule, g0, g0, order, 0, Last(g0))
  {
  }

  lemma FetchedToEnd(rule: ParentRule, g0: Stretch, states: seq<System>, order: seq<nat>)
    requires IsStretch(rule, g0) && FetchRound(rule, states, order)
    requires FetchedUpTo(rule, g0, states, order)(0)
    ensures FetchedUpTo(rule, g0, states, order)(|order|)
  {
    forall i | 0 <= i < |order|
      ensures Passes(FetchedUpTo(rule, g0, states, order), i)
    {
      FetchedStep(rule, g0, states, order, i);
    }
    PassesAlong(FetchedUpTo(rule, g0, states, order), |order|);
  }

  lemma FetchedStep(rule: ParentRule, g0: Stretch, states: seq<System>, order: seq<nat>, i: nat)
    requires IsStretch(rule, g0) && FetchRound(rule, states, order) && i < |order|
    ensures Passes(FetchedUpTo(rule, g0, states, order), i)
  {
    if g :| Fetched(rule, g0, g, order, i, states[i]) {
      assert FetchStep(rule)(states[i], order[i], states[i + 1]);
      var g' := FetchAsStretch(rule, g, order[i], states[i + 1], |g0.events|);
      FetchedByMore(rule, g0, g, g', order, i, states[i], states[i + 1]);
    }
  }

  /** A round of whole pushes after which comes a round of fetches makes a stretch converge. */
  lemma RoundsConverge(
      rule: ParentRule, g0: Stretch,
      pushes: seq<System>, pushers: seq<nat>, fetches: seq<System>, fetchers: seq<nat>)
      returns (g: Stretch, m: nat)
    requires IsStretch(rule, g0) && Inv(First(g0)) && pushes != [] && pushes[0] == Last(g0)
    requires PushRound(rule, pushes, pushers) && FetchRound(rule, fetches, fetchers)
    requires fetches[0] == pushes[|pushers|]
    requires forall c: nat :: c < |First(g0).clients| ==> c in pushers && c in fetchers
    ensures Converging(rule, g, m) && Continues(g0, g) && Last(g) == fetches[|fetchers|]
  {
    var half := PushRoundAsStretch(rule, g0, pushes, pushers);
    assert pushers[..|pushers|] == pushers && fetchers[..|fetchers|] == fetchers;
    m := |half.events|;
    g := FetchRoundAsStretch(rule, half, fetches, fetchers);
    forall c: nat | c < |First(g0).clients|
      ensures Delivered(g, m, c)
    {
      DeliveredStays(half, g, m, c);
    }
  }

  /** The special case in which each push is over before the next begins, and nothing fails. */
  lemma SerialRoundsConverge(
      rule: ParentRule, pushes: seq<System>, pushers: seq<nat>, fetches: seq<System>, fetchers: seq<nat>)
    requires PushRound(rule, pushes, pushers) && FetchRound(rule, fetches, fetchers)
    requires fetches[0] == pushes[|pushers|]
    requires Inv(pushes[0]) && Coherent(rule, AllVersions(pushes[0]))
    requires forall c: nat :: c < |pushes[0].clients| ==> c in pushers && c in fetchers
    ensures var vs, last := AllVersions(pushes[0]), fetches[|fetchers|];
      && Agreed(last, vs)
      && Compatible(rule, vs) && !Cyclic(vs)
      && (DatesDiffer(vs) ==>
            forall c :: 0 <= c < |last.clients| ==> ClientHistory(last, c) == ServerHistory(last))
  {
    var g, m := RoundsConverge(rule, Stretch([pushes[0]], []), pushes, pushers, fetches, fetchers);
    EveryoneConverges(rule, g, m);
  }

  // ---------- What a push brings back ----------

  /** A version that some client has ever held in a run is on the server after that client's manifest has been merged
      into the server's row of the moment, exactly if it was there before or the server then held nothing that passes
      for it. With coherent versions it always is. */
  lemma PushBringsBack(
      rule: ParentRule, run: seq<System>, events: seq<Event>, i: nat, j: nat, c: nat, v: Version, mid: System)
    requires IsRun(rule, run, events) && i <= j < |run| && c < |run[i].clients| && v in ClientHistory(run[i], c)
    requires ServerTakes(rule, run[j], c, mid)
    ensures v in ServerHistory(mid) <==> v in ServerHistory(run[j]) || !Known(rule, ServerHistory(run[j]), v)
    ensures Coherent(rule, AllVersions(run[j])) ==> v in ServerHistory(mid)
  {
    RunIsSafe(rule, run, events, i, j);
    RunKeepsInv(rule, run, events, j);
    assert v in Elements(ClientHistory(run[j], c));
    PostAndReceiveIsMerge(rule, run[j], c, mid);
    MergeContents(rule, ServerHistory(run[j]), ClientHistory(run[j], c), ServerHistory(mid));
    if Coherent(rule, AllVersions(run[j])) {
      PostAndReceiveIsUnion(rule, run[j], c, mid);
    }
  }
}
