/** What one node keeps, and how merging, pinning and saving change it. */
module Nodes {
  import opened Wrappers
  import opened Versions
  import opened Ordering
  import opened Manifest

  /** Address of a block; the hash of a version is one too. */
  type Cid = Hash

  /** The saved manifests, by address. */
  type Store = map<Cid, History>

  /** A repository or the server's row for a dataset: the address of the current manifest, and what the IPFS node
      behind it has pinned and which manifests it has saved. */
  datatype Node = Node(head: Cid, pins: set<Hash>, saved: set<Cid>)

  ghost function Hashes(h: History): (s: set<Hash>)
    ensures forall v :: v in h ==> v.hash in s
    ensures forall hash :: hash in s ==> exists v :: v in h && v.hash == hash
  {
    set v | v in h :: v.hash
  }

  ghost predicate Grows(before: Store, after: Store) {
    forall c :: c in before ==> c in after && after[c] == before[c]
  }

  /** Merging `theirs` into `ours`: the delta is pinned, then the merged manifest is saved and its address returned.
      When something fails nothing is saved, though part of the delta may have been pinned, and a merge that is
      refused changes nothing. */
  ghost predicate MergesAndCommits(
      rule: ParentRule, store: Store, n: Node, ours: History, theirs: History, store': Store, n': Node, r: Option<Cid>)
  {
    && n'.head == n.head
    && match r {
         case Some(cid) =>
           && Grows(store, store') && store'.Keys == store.Keys + {cid}
           && IsMerge(rule, ours, theirs, store'[cid])
           && n'.pins == n.pins + Hashes(Delta(rule, ours, theirs)) + {cid}
           && n'.saved == n.saved + {cid}
         case None =>
           && store' == store
           && n'.saved == n.saved
           && n.pins <= n'.pins <= n.pins + Hashes(Delta(rule, ours, theirs))
           && (!Mergeable(rule, ours, theirs) ==> n'.pins == n.pins)
       }
  }

  /** The same followed by making the merged manifest the current one, which may fail in its turn. */
  ghost predicate Updates(
      rule: ParentRule, store: Store, n: Node, ours: History, theirs: History, store': Store, n': Node, ok: bool)
  {
    exists mid: Node, r ::
      && MergesAndCommits(rule, store, n, ours, theirs, store', mid, r)
      && if ok then r.Some? && n' == mid.(head := r.value) else n' == mid
  }

  /** Every version of every manifest the node has saved is pinned there, and so is the manifest. */
  ghost predicate Pinned(store: Store, n: Node) {
    && n.head in n.saved
    && forall cid :: cid in n.saved ==> cid in store && cid in n.pins && Hashes(store[cid]) <= n.pins
  }

  /** A saved history is sorted and its hashes are distinct. */
  ghost predicate Sound(store: Store) {
    forall cid :: cid in store ==> Distinct(store[cid]) && Ordered(store[cid])
  }

  /** An update saves nothing but outcomes of its merge. */
  lemma UpdateSavesMerges(
      rule: ParentRule, store: Store, n: Node, ours: History, theirs: History, store': Store, n': Node, ok: bool)
    requires Updates(rule, store, n, ours, theirs, store', n', ok)
    ensures forall c :: c in store' ==> (c in store && store'[c] == store[c]) || IsMerge(rule, ours, theirs, store'[c])
  {
  }

  lemma MergeHashes(rule: ParentRule, ours: History, theirs: History, out: History)
    requires IsMerge(rule, ours, theirs, out)
    ensures Hashes(out) == Hashes(ours) + Hashes(Delta(rule, ours, theirs))
    ensures Hashes(out) == Hashes(ours) + Hashes(theirs)
  {
    MergeContents(rule, ours, theirs, out);
    DeltaElements(rule, ours, theirs);
    forall v | v in theirs
      ensures v.hash in Hashes(out)
    {
      if Known(rule, ours, v) {
        var o :| o in ours && Equal(rule, v, o);
        assert o in out;
      }
    }
  }

  lemma SaveIsSafe(
      rule: ParentRule, store: Store, n: Node, base: Cid, theirs: History, store': Store, n': Node, cid: Cid)
    requires Sound(store) && Pinned(store, n) && base in n.saved && Distinct(theirs)
    requires MergesAndCommits(rule, store, n, store[base], theirs, store', n', Some(cid))
    ensures Sound(store') && Pinned(store', n')
  {
    var merged := store'[cid];
    MergeKeepsDistinct(rule, store[base], theirs, merged);
    MergeHashes(rule, store[base], theirs, merged);
    forall c | c in store'
      ensures Distinct(store'[c]) && Ordered(store'[c])
    {
      if c != cid {
        assert c in store;
      }
    }
    forall c | c in n'.saved
      ensures c in store' && c in n'.pins && Hashes(store'[c]) <= n'.pins
    {
      if c != cid {
        assert c in n.saved;
      }
    }
  }

  /** Whatever happens during an update, also half-way failures: the store stays sound and keeps what it had, the
      node stays pinned, and nothing moves unless the update succeeds. */
  lemma UpdateIsSafe(
      rule: ParentRule, store: Store, n: Node, base: Cid, theirs: History, store': Store, n': Node, ok: bool)
    requires Sound(store) && Pinned(store, n) && base in n.saved && Distinct(theirs)
    requires Updates(rule, store, n, store[base], theirs, store', n', ok)
    ensures Sound(store') && Grows(store, store') && Pinned(store', n')
    ensures n.saved <= n'.saved && n.pins <= n'.pins
    ensures if ok then n'.head in store' && IsMerge(rule, store[base], theirs, store'[n'.head]) else n'.head == n.head
  {
    var mid: Node, r :|
      && MergesAndCommits(rule, store, n, store[base], theirs, store', mid, r)
      && if ok then r.Some? && n' == mid.(head := r.value) else n' == mid;
    if r.Some? {
      SaveIsSafe(rule, store, n, base, theirs, store', mid, r.value);
    }
  }
}
