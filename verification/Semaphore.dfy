/** The semaphore that bounds how many tests run at once: a file per taken slot, and a lock around taking one. */
module Semaphore {
  import opened Wrappers

  /** Where one process stands. The phases from `Locked` to `Created` are inside the lock. */
  datatype Phase =
    | Waiting
    | Locked
    | Scanning(slot: nat)
    | Chosen(slot: nat)
    | Created(slot: nat)
    | Holding(slot: nat)
    | Released

  datatype State = State(limit: nat, slots: set<nat>, lock: Option<nat>, procs: seq<Phase>)

  datatype Step =
    | Lock
    | Count(used: nat)
    | Probe
    | Touch
    | Unlock
    | Release

  function Become(s: State, p: nat, phase: Phase): State
    requires p < |s.procs|
  {
    s.(procs := s.procs[p := phase])
  }

  /** Process `p` takes a step. A listing counts every slot file that exists when it ends, and perhaps files that
      were removed while it ran. Releasing takes no lock. */
  ghost predicate Next(s: State, p: nat, step: Step, s': State) {
    && p < |s.procs|
    && match step {
         case Lock =>
           s.procs[p] == Waiting && s.lock == None && s' == Become(s, p, Locked).(lock := Some(p))
         case Count(used) =>
           && s.procs[p] == Locked && used >= |s.slots|
           && s' == if s.limit - used > 0 then Become(s, p, Scanning(0)) else Become(s, p, Waiting).(lock := None)
         case Probe =>
           && s.procs[p].Scanning?
           && var k := s.procs[p].slot;
              s' == Become(s, p, if k in s.slots then Scanning(k + 1) else Chosen(k))
         case Touch =>
           && s.procs[p].Chosen?
           && var k := s.procs[p].slot;
              s' == if k < s.limit then Become(s, p, Created(k)).(slots := s.slots + {k})
                    else Become(s, p, Waiting).(lock := None)
         case Unlock =>
           s.procs[p].Created? && s' == Become(s, p, Holding(s.procs[p].slot)).(lock := None)
         case Release =>
           && s.procs[p].Holding?
           && s' == Become(s, p, Released).(slots := s.slots - {s.procs[p].slot})
       }
  }

  ghost predicate Init(s: State) {
    && s.slots == {} && s.lock == None
    && forall p :: 0 <= p < |s.procs| ==> s.procs[p] == Waiting
  }

  // ---------- Safety ----------

  predicate HasSlot(phase: Phase) {
    phase.Created? || phase.Holding?
  }

  predicate InsideLock(phase: Phase) {
    phase.Locked? || phase.Scanning? || phase.Chosen? || phase.Created?
  }

  ghost predicate FreeFrom(s: State, k: nat) {
    exists f :: k <= f < s.limit && f !in s.slots
  }

  predicate Owns(s: State, p: nat, k: nat) {
    p < |s.procs| && HasSlot(s.procs[p]) && s.procs[p].slot == k
  }

  /** The files are the slots of the processes that have one, all below the limit, and no two processes share one. */
  ghost predicate FilesOwned(s: State) {
    && (forall p, k :: Owns(s, p, k) ==> k in s.slots)
    && (forall k :: k in s.slots ==> k < s.limit && exists p :: Owns(s, p, k))
    && (forall p, q, k :: Owns(s, p, k) && Owns(s, q, k) ==> p == q)
  }

  /** Exactly the process that has the lock is inside. */
  ghost predicate Exclusive(s: State) {
    && (forall p: nat :: p < |s.procs| ==> (InsideLock(s.procs[p]) <==> s.lock == Some(p)))
    && (s.lock.Some? ==> s.lock.value < |s.procs|)
  }

  /** What the scan of a process has established. */
  ghost predicate ScanHolds(s: State, phase: Phase) {
    match phase
    case Scanning(k) => FreeFrom(s, k)
    case Chosen(k) => k < s.limit && k !in s.slots
    case _ => true
  }

  ghost predicate ScansHold(s: State) {
    forall p :: 0 <= p < |s.procs| ==> ScanHolds(s, s.procs[p])
  }

  ghost predicate Inv(s: State) {
    FilesOwned(s) && Exclusive(s) && ScansHold(s)
  }

  function Range(n: nat): (r: set<nat>)
    ensures forall k: nat :: k in r <==> k < n
    ensures |r| == n
  {
    if n == 0 then {} else Range(n - 1) + {n - 1}
  }

  /** Fewer taken slots than slots leave one free. */
  lemma Pigeonhole(slots: set<nat>, n: nat)
    requires |slots| < n
    ensures exists f: nat :: f < n && f !in slots
  {
    if forall f: nat :: f < n ==> f in slots {
      assert Range(n) <= slots;
      SubsetSize(Range(n), slots);
    }
  }

  lemma SubsetSize<T>(a: set<T>, b: set<T>)
    requires a <= b
    ensures |a| <= |b|
  {
    assert b == a + (b - a);
  }

  /** Steps that create and remove no file leave the files with their owners. */
  lemma SameOwners(s: State, s': State)
    requires FilesOwned(s) && s'.slots == s.slots && s'.limit == s.limit
    requires forall p, k :: Owns(s', p, k) <==> Owns(s, p, k)
    ensures FilesOwned(s')
  {
  }

  lemma TouchKeepsFiles(s: State, p: nat, s': State)
    requires FilesOwned(s) && ScansHold(s) && Next(s, p, Touch, s')
    ensures FilesOwned(s')
  {
    var k := s.procs[p].slot;
    assert ScanHolds(s, s.procs[p]);
    assert forall q, j :: Owns(s', q, j) <==> (q == p && j == k) || (q != p && Owns(s, q, j));
    assert Owns(s', p, k);
    forall j | j in s'.slots && j != k
      ensures exists q :: Owns(s', q, j)
    {
      var q :| Owns(s, q, j);
      assert Owns(s', q, j);
    }
  }

  lemma ReleaseKeepsFiles(s: State, p: nat, s': State)
    requires FilesOwned(s) && Next(s, p, Release, s')
    ensures FilesOwned(s') && s.procs[p].slot in s.slots
  {
    var k := s.procs[p].slot;
    assert Owns(s, p, k);
    assert forall q, j :: Owns(s', q, j) <==> q != p && Owns(s, q, j);
    forall j | j in s'.slots
      ensures exists q :: Owns(s', q, j)
    {
      var q :| Owns(s, q, j);
      assert Owns(s', q, j);
    }
  }

  lemma NextKeepsFiles(s: State, p: nat, step: Step, s': State)
    requires Inv(s) && Next(s, p, step, s')
    ensures FilesOwned(s')
  {
    match step
    case Touch => TouchKeepsFiles(s, p, s');
    case Release => ReleaseKeepsFiles(s, p, s');
    case _ => SameOwners(s, s');
  }

  /** The scan of the one process inside the lock survives whatever the others do, since files only disappear. */
  lemma NextKeepsScans(s: State, p: nat, step: Step, s': State)
    requires Inv(s) && Next(s, p, step, s')
    ensures ScansHold(s')
  {
    forall q | 0 <= q < |s'.procs|
      ensures ScanHolds(s', s'.procs[q])
    {
      assert ScanHolds(s, s.procs[q]);
      if q == p {
        if step.Count? && s.limit - step.used > 0 {
          Pigeonhole(s.slots, s.limit);
        }
      } else {
        assert InsideLock(s.procs[q]) && InsideLock(s.procs[p]) ==> false;
        if s.procs[q].Scanning? {
          var f :| s.procs[q].slot <= f < s.limit && f !in s.slots;
          assert f !in s'.slots;
        }
      }
    }
  }

  /** Every step of every process keeps the semaphore safe. */
  lemma NextKeeps(s: State, p: nat, step: Step, s': State)
    requires Inv(s) && Next(s, p, step, s')
    ensures Inv(s')
  {
    NextKeepsFiles(s, p, step, s');
    NextKeepsScans(s, p, step, s');
  }

  // ---------- What the semaphore is for ----------

  ghost function Holders(s: State): set<nat> {
    set p: nat | p < |s.procs| && HasSlot(s.procs[p])
  }

  lemma {:induction false} EqualSize(a: set<nat>, b: set<nat>, f: map<nat, nat>)
    requires f.Keys == a
    requires forall x :: x in a ==> f[x] in b
    requires forall x, y :: x in a && y in a && f[x] == f[y] ==> x == y
    requires forall z :: z in b ==> exists x :: x in a && f[x] == z
    ensures |a| == |b|
    decreases |a|
  {
    if x :| x in a {
      var rest := map y | y in a - {x} :: f[y];
      forall z | z in b - {f[x]}
        ensures exists y :: y in a - {x} && rest[y] == z
      {
        var y :| y in a && f[y] == z;
        assert y in a - {x};
      }
      EqualSize(a - {x}, b - {f[x]}, rest);
    } else {
      assert b == {};
    }
  }

  lemma HoldersCount(s: State)
    requires Inv(s)
    ensures |Holders(s)| == |s.slots| <= s.limit
  {
    var f := map p | p in Holders(s) :: s.procs[p].slot;
    assert forall p :: p in Holders(s) ==> Owns(s, p, f[p]);
    forall k | k in s.slots
      ensures exists p :: p in Holders(s) && f[p] == k
    {
      var p :| Owns(s, p, k);
      assert p in Holders(s);
    }
    EqualSize(Holders(s), s.slots, f);
    SubsetSize(s.slots, Range(s.limit));
  }

  lemma TouchHasRoom(s: State, p: nat, s': State)
    requires Inv(s) && Next(s, p, Touch, s')
    ensures p !in Holders(s) && |Holders(s)| < s.limit && s'.procs[p].Created?
  {
    HoldersCount(s);
    assert ScanHolds(s, s.procs[p]);
    SubsetSize(s.slots + {s.procs[p].slot}, Range(s.limit));
  }

  lemma HoldersAfter(s: State, p: nat, s': State)
    requires p < |s.procs| == |s'.procs| && s'.procs == s.procs[p := s'.procs[p]]
    ensures Holders(s') == if HasSlot(s'.procs[p]) then Holders(s) + {p} else Holders(s) - {p}
  {
  }

  lemma OneProcessMoves(s: State, p: nat, step: Step, s': State)
    requires Next(s, p, step, s')
    ensures |s'.procs| == |s.procs| && s'.procs == s.procs[p := s'.procs[p]]
    ensures HasSlot(s'.procs[p]) <==> if step == Touch then s.procs[p].slot < s.limit else step == Unlock
    ensures HasSlot(s.procs[p]) <==> step == Unlock || step == Release
  {
  }

  /** Seen from outside, the semaphore is a set of holders with a bound: one step adds a process while there is room,
      one removes a process, and the others change nothing. In particular taking a slot never fails once the count
      under the lock was positive, and a release always finds its file. */
  lemma RefinesBoundedSet(s: State, p: nat, step: Step, s': State)
    requires Inv(s) && Next(s, p, step, s')
    ensures step == Touch ==> p !in Holders(s) && |Holders(s)| < s.limit && Holders(s') == Holders(s) + {p}
    ensures step == Release ==> p in Holders(s) && s.procs[p].slot in s.slots && Holders(s') == Holders(s) - {p}
    ensures step != Touch && step != Release ==> Holders(s') == Holders(s)
  {
    OneProcessMoves(s, p, step, s');
    HoldersAfter(s, p, s');
    if step == Touch {
      TouchHasRoom(s, p, s');
    } else if step == Release {
      ReleaseKeepsFiles(s, p, s');
    }
  }

  ghost predicate IsPath(states: seq<State>, steps: seq<(nat, Step)>) {
    && |states| == |steps| + 1
    && forall i :: 0 <= i < |steps| ==> Next(states[i], steps[i].0, steps[i].1, states[i + 1])
  }

  ghost predicate IsRun(states: seq<State>, steps: seq<(nat, Step)>) {
    IsPath(states, steps) && Init(states[0])
  }

  lemma {:induction false} RunKeepsInv(states: seq<State>, steps: seq<(nat, Step)>, i: nat)
    requires IsRun(states, steps) && i < |states|
    ensures Inv(states[i])
  {
    if i > 0 {
      RunKeepsInv(states, steps, i - 1);
      NextKeeps(states[i - 1], steps[i - 1].0, steps[i - 1].1, states[i]);
    }
  }

  /** At every point of every interleaving: no more processes than slots hold one, no two hold the same, and whoever
      is scanning still has a free slot ahead. */
  lemma RunIsSafe(states: seq<State>, steps: seq<(nat, Step)>, i: nat)
    requires IsRun(states, steps) && i < |states|
    ensures var s := states[i];
      && |Holders(s)| <= s.limit
      && (forall p, q, k :: Owns(s, p, k) && Owns(s, q, k) ==> p == q)
      && (forall p: nat, k: nat :: Owns(s, p, k) ==> k in s.slots && k < s.limit)
      && (forall p :: 0 <= p < |s.procs| && s.procs[p].Scanning? ==> FreeFrom(s, s.procs[p].slot))
      && (forall p :: 0 <= p < |s.procs| && s.procs[p].Chosen? ==> s.procs[p].slot < s.limit)
  {
    RunKeepsInv(states, steps, i);
    var s := states[i];
    HoldersCount(s);
    forall p | 0 <= p < |s.procs|
      ensures s.procs[p].Scanning? ==> FreeFrom(s, s.procs[p].slot)
      ensures s.procs[p].Chosen? ==> s.procs[p].slot < s.limit
    {
      assert ScanHolds(s, s.procs[p]);
    }
  }

  // ---------- What the semaphore does not prevent ----------

  lemma ExtendPath(states: seq<State>, steps: seq<(nat, Step)>, p: nat, step: Step, s: State)
    requires IsPath(states, steps) && Next(states[|steps|], p, step, s)
    ensures IsPath(states + [s], steps + [(p, step)])
  {
    var states', steps' := states + [s], steps + [(p, step)];
    forall i | 0 <= i < |steps'|
      ensures Next(states'[i], steps'[i].0, steps'[i].1, states'[i + 1])
    {
      assert i < |steps| ==> steps'[i] == steps[i] && states'[i + 1] == states[i + 1];
      assert states'[i] == states[i];
    }
  }

  ghost predicate IsFirstFree(slots: set<nat>, k: nat) {
    k !in slots && forall j: nat :: j < k ==> j in slots
  }

  /** From taking the lock on, a process alone gets as far as having found the first free slot. */
  lemma CanScan(s: State, p: nat) returns (states: seq<State>, steps: seq<(nat, Step)>, k: nat)
    requires p < |s.procs| && s.procs[p] == Waiting && s.lock == None && |s.slots| < s.limit
    ensures IsPath(states, steps) && states[0] == s && k < s.limit && IsFirstFree(s.slots, k)
    ensures states[|steps|] == Become(s, p, Scanning(k)).(lock := Some(p))
  {
    Pigeonhole(s.slots, s.limit);
    var free: nat :| free < s.limit && free !in s.slots;
    states, steps, k := [s], [], 0;
    var locked := Become(s, p, Locked).(lock := Some(p));
    ExtendPath(states, steps, p, Lock, locked);
    states, steps := states + [locked], steps + [(p, Lock)];
    var next := Become(locked, p, Scanning(0));
    ExtendPath(states, steps, p, Count(|s.slots|), next);
    states, steps := states + [next], steps + [(p, Count(|s.slots|))];
    while k in s.slots
      invariant IsPath(states, steps) && states[0] == s
      invariant states[|steps|] == Become(s, p, Scanning(k)).(lock := Some(p))
      invariant k <= free && forall j: nat :: j < k ==> j in s.slots
      decreases free - k
    {
      k := k + 1;
      next := Become(s, p, Scanning(k)).(lock := Some(p));
      ExtendPath(states, steps, p, Probe, next);
      states, steps := states + [next], steps + [(p, Probe)];
    }
  }

  /** While fewer slots are taken than there are and nobody has the lock, a process that waits can get one: by its own
      steps alone it ends up holding the first free slot. */
  lemma WaitingCanAcquire(s: State, p: nat) returns (states: seq<State>, steps: seq<(nat, Step)>, k: nat)
    requires p < |s.procs| && s.procs[p] == Waiting && s.lock == None && |s.slots| < s.limit
    ensures IsPath(states, steps) && states[0] == s && k < s.limit && IsFirstFree(s.slots, k)
    ensures states[|steps|] == Become(s, p, Holding(k)).(slots := s.slots + {k})
  {
    states, steps, k := CanScan(s, p);
    var next := Become(s, p, Chosen(k)).(lock := Some(p));
    ExtendPath(states, steps, p, Probe, next);
    states, steps := states + [next], steps + [(p, Probe)];
    next := Become(s, p, Created(k)).(lock := Some(p), slots := s.slots + {k});
    ExtendPath(states, steps, p, Touch, next);
    states, steps := states + [next], steps + [(p, Touch)];
    next := Become(s, p, Holding(k)).(slots := s.slots + {k});
    ExtendPath(states, steps, p, Unlock, next);
    states, steps := states + [next], steps + [(p, Unlock)];
  }

  /** The semaphore never blocks for good: as long as some process is not done, some process can take a step. */
  lemma NeverStuck(s: State, p: nat)
    requires Inv(s) && p < |s.procs| && s.procs[p] != Released
    ensures exists q, step, s' :: Next(s, q, step, s')
  {
    if s.procs[p].Holding? {
      assert Next(s, p, Release, Become(s, p, Released).(slots := s.slots - {s.procs[p].slot}));
    } else if s.lock == None {
      assert Next(s, p, Lock, Become(s, p, Locked).(lock := Some(p)));
    } else {
      InsideCanMove(s, s.lock.value);
    }
  }

  lemma InsideCanMove(s: State, q: nat)
    requires q < |s.procs| && InsideLock(s.procs[q])
    ensures exists step, s' :: Next(s, q, step, s')
  {
    match s.procs[q]
    case Locked =>
      assert Next(s, q, Count(|s.slots|),
        if s.limit - |s.slots| > 0 then Become(s, q, Scanning(0)) else Become(s, q, Waiting).(lock := None));
    case Scanning(k) =>
      assert Next(s, q, Probe, Become(s, q, if k in s.slots then Scanning(k + 1) else Chosen(k)));
    case Chosen(k) =>
      assert Next(s, q, Touch, if k < s.limit then Become(s, q, Created(k)).(slots := s.slots + {k})
                               else Become(s, q, Waiting).(lock := None));
    case Created(k) => assert Next(s, q, Unlock, Become(s, q, Holding(k)).(lock := None));
  }

  // ---------- One process at the directory ----------

  /** A slot file that was there and has not been removed by the time of look `k`. */
  predicate Remains(files: set<nat>, removed: nat -> set<nat>, k: nat, f: nat) {
    f in files && forall j: nat :: j <= k ==> f !in removed(j)
  }

  /** The body of the locked command as one process runs it, while others may release slots before every look at the
      directory: `removed` lists, look by look, what they took away. A positive count always leads to a slot, the
      first one that was free when it was looked at, and every other file is left alone. */
  method AcquireWhileLocked(limit: nat, files: set<nat>, used: nat, removed: nat -> set<nat>)
      returns (slot: Option<nat>, files': set<nat>)
    requires |files| <= used
    ensures slot.Some? <==> used < limit
    ensures slot.Some? ==> slot.value < limit
    ensures slot.Some? ==> !Remains(files, removed, slot.value, slot.value)
    ensures slot.Some? ==> forall k: nat :: k < slot.value ==> Remains(files, removed, k, k)
    ensures slot.Some? ==>
      forall f :: f in files' <==> f == slot.value || Remains(files, removed, slot.value, f)
    ensures slot.None? ==> files' == files
  {
    files' := files;
    if limit - used <= 0 {
      return None, files';
    }
    Pigeonhole(files, limit);
    ghost var free: nat :| free < limit && free !in files;
    var k := 0;
    files' := files' - removed(k);
    while k in files'
      invariant k <= free && free !in files'
      invariant forall f :: f in files' <==> Remains(files, removed, k, f)
      invariant forall i: nat :: i < k ==> Remains(files, removed, i, i)
      decreases free - k
    {
      k := k + 1;
      files' := files' - removed(k);
    }
    if k < limit {
      files' := files' + {k};
      return Some(k), files';
    }
    assert false;
    return None, files';
  }
}
