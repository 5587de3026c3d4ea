/** The objects that carry out merging, pinning and saving. Their methods change fields in place, and each is tied to
    the step relation it implements. Failures of the network and the disk are parameters. */
module IpfsNode {
  import opened Wrappers
  import opened Versions
  import opened Manifest
  import opened Nodes

  /** Content addressing: different histories get different addresses. */
  ghost predicate CollisionFree(address: History -> Cid) {
    forall a, b :: address(a) == address(b) ==> a == b
  }

  /** The network of blocks that all nodes share. */
  class ContentStore {
    const address: History -> Cid
    var blocks: Store

    ghost predicate Valid()
      reads this
    {
      CollisionFree(address) && forall c :: c in blocks ==> c == address(blocks[c])
    }

    constructor (address: History -> Cid)
      requires CollisionFree(address)
      ensures Valid() && blocks == map[] && this.address == address
    {
      this.address := address;
      blocks := map[];
    }

    method Add(h: History) returns (cid: Cid)
      requires Valid()
      modifies this
      ensures Valid() && cid == address(h)
      ensures blocks == old(blocks)[cid := h] && Grows(old(blocks), blocks)
    {
      cid := address(h);
      blocks := blocks[cid := h];
    }

    method Get(cid: Cid) returns (r: Option<History>)
      ensures r == if cid in blocks then Some(blocks[cid]) else None
    {
      r := if cid in blocks then Some(blocks[cid]) else None;
    }
  }

  /** The merge is allowed, everything new can be pinned, and saving works. */
  ghost predicate CanSave(ours: History, theirs: History, unreachable: set<Hash>, works: bool) {
    && Mergeable(AsWritten, ours, theirs) && works
    && Hashes(Delta(AsWritten, ours, theirs)) !! unreachable
  }

  /** The step relation with its failures decided: the merge is saved exactly when it can be, and when it is allowed
      but not saved, all that can be pinned is pinned all the same. */
  ghost predicate CarriesOut(
      store: Store, n: Node, ours: History, theirs: History, unreachable: set<Hash>, works: bool,
      store': Store, n': Node, r: Option<Cid>)
  {
    && MergesAndCommits(AsWritten, store, n, ours, theirs, store', n', r)
    && (r.Some? <==> CanSave(ours, theirs, unreachable, works))
    && (r.None? && Mergeable(AsWritten, ours, theirs) ==>
          n'.pins == n.pins + (Hashes(Delta(AsWritten, ours, theirs)) - unreachable))
  }

  /** The same followed by taking over what was saved in memory and, if it is writable, in the manifest file. */
  ghost predicate Absorbs(
      store: Store, n: Node, ours: History, theirs: History, unreachable: set<Hash>, works: bool, writable: bool,
      store': Store, n': Node, manifest: Option<History>, ok: bool)
  {
    exists r ::
      && CarriesOut(store, n, ours, theirs, unreachable, works, store', n'.(head := n.head), r)
      && manifest == Some(if r.Some? then store'[r.value] else ours)
      && n'.head == (if r.Some? && writable then r.value else n.head)
      && (ok <==> r.Some? && writable)
  }

  lemma AbsorbsUpdates(
      store: Store, n: Node, ours: History, theirs: History, unreachable: set<Hash>, works: bool, writable: bool,
      store': Store, n': Node, manifest: Option<History>, ok: bool)
    requires Absorbs(store, n, ours, theirs, unreachable, works, writable, store', n', manifest, ok)
    ensures Updates(AsWritten, store, n, ours, theirs, store', n', ok)
    ensures ok <==> CanSave(ours, theirs, unreachable, works) && writable
    ensures !ok && writable ==> manifest == Some(ours)
  {
    var r :|
      && CarriesOut(store, n, ours, theirs, unreachable, works, store', n'.(head := n.head), r)
      && manifest == Some(if r.Some? then store'[r.value] else ours)
      && n'.head == (if r.Some? && writable then r.value else n.head)
      && (ok <==> r.Some? && writable);
    var mid := n'.(head := n.head);
    assert MergesAndCommits(AsWritten, store, n, ours, theirs, store', mid, r);
  }

  /** What one more version adds to the hashes that can be pinned. */
  lemma OneMoreHash(pins: set<Hash>, versions: History, i: nat, unreachable: set<Hash>)
    requires i < |versions|
    ensures var before, after, hash := Hashes(versions[..i]), Hashes(versions[..i + 1]), versions[i].hash;
      && (pins + (after - unreachable) ==
          pins + (before - unreachable) + if hash in unreachable then {} else {hash})
      && (after !! unreachable <==> before !! unreachable && hash !in unreachable)
  {
    assert versions[..i + 1] == versions[..i] + [versions[i]];
    assert Hashes(versions[..i + 1]) == Hashes(versions[..i]) + {versions[i].hash};
  }

  class Ipfs {
    const store: ContentStore
    var pins: set<Hash>
    var saved: set<Cid>

    constructor (store: ContentStore)
      ensures this.store == store && pins == {} && saved == {}
    {
      this.store := store;
      pins, saved := {}, {};
    }

    /** The node behind a repository or row whose current manifest is `head`. */
    function AsNode(head: Cid): Node
      reads this
    {
      Node(head, pins, saved)
    }

    method CommitVersion(v: Version, reachable: bool) returns (ok: bool)
      modifies this`pins
      ensures ok == reachable
      ensures pins == if reachable then old(pins) + {v.hash} else old(pins)
    {
      if reachable {
        pins := pins + {v.hash};
      }
      ok := reachable;
    }

    method SaveManifest(h: History, works: bool) returns (r: Option<Cid>)
      requires store.Valid()
      modifies this, store
      ensures store.Valid() && r.Some? == works
      ensures r.None? ==> store.blocks == old(store.blocks) && pins == old(pins) && saved == old(saved)
      ensures r.Some? ==>
        && store.blocks == old(store.blocks)[r.value := h] && Grows(old(store.blocks), store.blocks)
        && pins == old(pins) + {r.value} && saved == old(saved) + {r.value}
    {
      if !works {
        return None;
      }
      var cid := store.Add(h);
      pins := pins + {cid};
      saved := saved + {cid};
      r := Some(cid);
    }

    /** Pin versions one by one, going on after errors. */
    method PinAll(versions: History, unreachable: set<Hash>) returns (failures: nat)
      modifies this`pins
      ensures pins == old(pins) + (Hashes(versions) - unreachable)
      ensures failures == 0 <==> Hashes(versions) !! unreachable
    {
      failures := 0;
      for i := 0 to |versions|
        invariant pins == old(pins) + (Hashes(versions[..i]) - unreachable)
        invariant failures == 0 <==> Hashes(versions[..i]) !! unreachable
      {
        OneMoreHash(old(pins), versions, i, unreachable);
        var ok := CommitVersion(versions[i], versions[i].hash !in unreachable);
        if !ok {
          failures := failures + 1;
        }
      }
      assert versions[..|versions|] == versions;
    }

    /** Merge, pin the delta, and save only when every version of it could be pinned. */
    method MergeAndCommit(
        ours: History, theirs: History, unreachable: set<Hash>, works: bool, ghost head: Cid)
        returns (r: Option<Cid>, conflicts: seq<Conflict>)
      requires store.Valid()
      modifies this, store
      ensures store.Valid()
      ensures MergesAndCommits(
                AsWritten, old(store.blocks), old(AsNode(head)), ours, theirs, store.blocks, AsNode(head), r)
      ensures CarriesOut(old(store.blocks), old(AsNode(head)), ours, theirs, unreachable, works,
                         store.blocks, AsNode(head), r)
      ensures ListsConflicts(conflicts, ours, theirs)
    {
      conflicts := [];
      var result := Merge(ours, theirs);
      if result.Conflicting? {
        return None, result.conflicts;
      }
      NoneListed(ours, theirs);
      if !result.Merged? {
        return None, conflicts;
      }
      var delta := Diff(ours, theirs);
      var failures := PinAll(delta.value, unreachable);
      if failures != 0 {
        return None, [];
      }
      r := SaveManifest(result.versions, works);
    }
  }

  datatype Outcome = NothingGiven | Committed | Failed

  /** The type recorded for committed paths, if a single one can be looked at; `isDirectory` is what it is then. */
  function PathTypeOf(paths: seq<string>, isDirectory: Option<bool>): (pathType: Option<string>)
    ensures pathType == None <==> |paths| == 1 && isDirectory == None
    ensures pathType == Some("FILE") <==> |paths| == 1 && isDirectory == Some(false)
    ensures pathType == None || pathType == Some("FILE") || pathType == Some("DIRECTORY")
  {
    if |paths| != 1 then Some("DIRECTORY")
    else
      match isDirectory
      case None => None
      case Some(d) => Some(if d then "DIRECTORY" else "FILE")
  }

  /** A local repository: `file` is the address in the manifest file, `manifest` the history loaded from it, if any. */
  class Repository {
    const ipfs: Ipfs
    var file: Cid
    var manifest: Option<History>

    /** The history in memory is the one the file names. */
    ghost predicate Valid()
      reads this, ipfs, ipfs.store
    {
      && ipfs.store.Valid()
      && file in ipfs.store.blocks
      && manifest == Some(ipfs.store.blocks[file])
    }

    /** Creating a repository saves an empty manifest. */
    constructor (ipfs: Ipfs)
      requires ipfs.store.Valid()
      modifies ipfs, ipfs.store
      ensures Valid() && manifest == Some([]) && this.ipfs == ipfs
      ensures Grows(old(ipfs.store.blocks), ipfs.store.blocks)
      ensures ipfs.pins == old(ipfs.pins) + {file} && ipfs.saved == old(ipfs.saved) + {file}
    {
      this.ipfs := ipfs;
      this.manifest := Some([]);
      var r := ipfs.SaveManifest([], true);
      this.file := r.value;
    }

    /** Every command starts by loading the manifest that the file names; both reading the file and fetching the
        manifest may fail. */
    method LoadManifest(readable: bool, reachable: bool) returns (ok: bool)
      requires ipfs.store.Valid()
      modifies this`manifest
      ensures ok <==> readable && reachable && file in ipfs.store.blocks
      ensures ok ==> Valid()
      ensures !ok ==> manifest == if readable then None else old(manifest)
    {
      if !readable {
        return false;
      }
      manifest := None;
      if reachable {
        manifest := ipfs.store.Get(file);
      }
      ok := manifest.Some?;
    }

    /** Merge `theirs`, and on success make the outcome the current manifest and write the file. */
    method Absorb(theirs: History, unreachable: set<Hash>, works: bool, writable: bool)
        returns (ok: bool, conflicts: seq<Conflict>)
      requires Valid()
      modifies this, ipfs, ipfs.store
      ensures ok ==> Valid()
      ensures ipfs.store.Valid()
      ensures Updates(AsWritten, old(ipfs.store.blocks), old(ipfs.AsNode(file)), old(manifest).value, theirs,
                      ipfs.store.blocks, ipfs.AsNode(file), ok)
      ensures !ok ==> file == old(file)
      ensures Absorbs(old(ipfs.store.blocks), old(ipfs.AsNode(file)), old(manifest).value, theirs, unreachable, works,
                      writable, ipfs.store.blocks, ipfs.AsNode(file), manifest, ok)
      ensures ListsConflicts(conflicts, old(manifest).value, theirs)
      ensures !ok && writable ==> manifest == old(manifest)
      ensures ok <==> CanSave(old(manifest).value, theirs, unreachable, works) && writable
    {
      var r;
      r, conflicts := ipfs.MergeAndCommit(manifest.value, theirs, unreachable, works, file);
      if r.None? {
        return false, conflicts;
      }
      manifest := Some(ipfs.store.blocks[r.value]);
      if !writable {
        return false, [];
      }
      file := r.value;
      ok := true;
    }

    /** Fetching, and what a push does with the server's answer; `reply` is the address that was received, if the
        manifest behind it can be reached. */
    method Fetch(reply: Option<Cid>, unreachable: set<Hash>, works: bool, writable: bool)
        returns (ok: bool, conflicts: seq<Conflict>)
      requires Valid()
      modifies this, ipfs, ipfs.store
      ensures ok ==> Valid()
      ensures ipfs.store.Valid()
      ensures ok <==>
        && reply.Some? && reply.value in old(ipfs.store.blocks) && writable
        && CanSave(old(manifest).value, old(ipfs.store.blocks)[reply.value], unreachable, works)
      ensures !ok && writable ==> manifest == old(manifest)
      ensures reply.Some? && reply.value in old(ipfs.store.blocks) ==>
        var theirs := old(ipfs.store.blocks)[reply.value];
        && Absorbs(old(ipfs.store.blocks), old(ipfs.AsNode(file)), old(manifest).value, theirs, unreachable, works,
                   writable, ipfs.store.blocks, ipfs.AsNode(file), manifest, ok)
        && Updates(AsWritten, old(ipfs.store.blocks), old(ipfs.AsNode(file)), old(manifest).value, theirs,
                   ipfs.store.blocks, ipfs.AsNode(file), ok)
        && ListsConflicts(conflicts, old(manifest).value, theirs)
      ensures reply.None? || reply.value !in old(ipfs.store.blocks) ==>
        && !ok && conflicts == [] && manifest == old(manifest)
        && ipfs.store.blocks == old(ipfs.store.blocks) && ipfs.AsNode(file) == old(ipfs.AsNode(file))
    {
      if reply.None? {
        return false, [];
      }
      var remote := ipfs.store.Get(reply.value);
      if remote.None? {
        return false, [];
      }
      ok, conflicts := Absorb(remote.value, unreachable, works, writable);
    }

    /** Committing the data at `paths`, which is given the address `added` unless adding it fails. */
    method Commit(paths: seq<string>, user: Option<string>, message: string, date: int,
                  isDirectory: Option<bool>, added: Option<Hash>, parents: seq<Hash>, nopin: bool,
                  unreachable: set<Hash>, works: bool, writable: bool)
        returns (r: Outcome, conflicts: seq<Conflict>)
      requires Valid()
      modifies this, ipfs, ipfs.store
      ensures r.Committed? ==> Valid()
      ensures ipfs.store.Valid()
      ensures r.NothingGiven? <==> paths == []
      ensures !r.Committed? && writable ==> manifest == old(manifest)
      ensures var pathType := PathTypeOf(paths, isDirectory);
        if paths == [] || user.None? || message == "" || pathType.None? || added.None? then
          && !r.Committed? && conflicts == [] && manifest == old(manifest)
          && ipfs.store.blocks == old(ipfs.store.blocks) && ipfs.AsNode(file) == old(ipfs.AsNode(file))
        else
          var n := old(ipfs.AsNode(file));
          var pinned := n.(pins := n.pins + if nopin then {} else {added.value});
          var version := Version(user.value, date, message, added.value, pathType.value, parents);
          && Updates(AsWritten, old(ipfs.store.blocks), pinned, old(manifest).value, [version],
                     ipfs.store.blocks, ipfs.AsNode(file), r.Committed?)
          && Absorbs(old(ipfs.store.blocks), pinned, old(manifest).value, [version], unreachable, works, writable,
                     ipfs.store.blocks, ipfs.AsNode(file), manifest, r.Committed?)
          && (r.Committed? <==> CanSave(old(manifest).value, [version], unreachable, works) && writable)
          && ListsConflicts(conflicts, old(manifest).value, [version])
    {
      if |paths| == 0 {
        return NothingGiven, [];
      }
      if user.None? || message == "" {
        return Failed, [];
      }
      var pathType := PathTypeOf(paths, isDirectory);
      if pathType.None? || added.None? {
        return Failed, [];
      }
      var hash := added.value;
      if !nopin {
        ipfs.pins := ipfs.pins + {hash};
      }
      var version := Version(user.value, date, message, hash, pathType.value, parents);
      assert ipfs.AsNode(file) ==
        old(ipfs.AsNode(file)).(pins := old(ipfs.pins) + if nopin then {} else {hash});
      var ok;
      ok, conflicts := Absorb([version], unreachable, works, writable);
      r := if ok then Committed else Failed;
    }
  }

  /** The server's side: `row` is the address stored for the dataset. */
  class Server {
    const ipfs: Ipfs
    var row: Cid

    constructor (ipfs: Ipfs)
      requires ipfs.store.Valid()
      modifies ipfs, ipfs.store
      ensures this.ipfs == ipfs && ipfs.store.Valid()
      ensures row in ipfs.store.blocks && ipfs.store.blocks[row] == []
      ensures Grows(old(ipfs.store.blocks), ipfs.store.blocks)
      ensures ipfs.pins == old(ipfs.pins) + {row} && ipfs.saved == old(ipfs.saved) + {row}
    {
      this.ipfs := ipfs;
      var r := ipfs.SaveManifest([], true);
      this.row := r.value;
    }

    /** A request first reads the dataset's row... */
    method GetDataset() returns (base: Cid)
      ensures base == row
    {
      base := row;
    }

    /** ...and, however much later, merges the pushed manifest into what it read and overwrites the row. */
    method ReceiveDataset(base: Cid, payload: Cid, unreachable: set<Hash>, works: bool, sessionWorks: bool)
        returns (reply: Option<Cid>, conflicts: seq<Conflict>)
      requires ipfs.store.Valid() && base in ipfs.store.blocks
      modifies this, ipfs, ipfs.store
      ensures ipfs.store.Valid()
      ensures reply.Some? <==>
        && payload in old(ipfs.store.blocks) && sessionWorks
        && CanSave(old(ipfs.store.blocks)[base], old(ipfs.store.blocks)[payload], unreachable, works)
      ensures payload in old(ipfs.store.blocks) ==>
        var ours, theirs := old(ipfs.store.blocks)[base], old(ipfs.store.blocks)[payload];
        && Updates(AsWritten, old(ipfs.store.blocks), old(ipfs.AsNode(row)), ours, theirs,
                   ipfs.store.blocks, ipfs.AsNode(row), reply.Some?)
        && (exists r ::
              && CarriesOut(old(ipfs.store.blocks), old(ipfs.AsNode(row)), ours, theirs, unreachable, works,
                            ipfs.store.blocks, ipfs.AsNode(old(row)), r)
              && reply == if sessionWorks then r else None)
        && ListsConflicts(conflicts, ours, theirs)
      ensures payload !in old(ipfs.store.blocks) ==>
        && reply == None && conflicts == []
        && ipfs.store.blocks == old(ipfs.store.blocks) && ipfs.AsNode(row) == old(ipfs.AsNode(row))
      ensures if reply.Some? then reply.value == row else row == old(row)
    {
      var ours := ipfs.store.Get(base);
      var theirs := ipfs.store.Get(payload);
      if theirs.None? {
        return None, [];
      }
      var r;
      r, conflicts := ipfs.MergeAndCommit(ours.value, theirs.value, unreachable, works, row);
      ghost var node := ipfs.AsNode(row);
      if r.None? || !sessionWorks {
        return None, conflicts;
      }
      row := r.value;
      reply := r;
      assert ipfs.AsNode(old(row)) == node;
    }
  }
}
