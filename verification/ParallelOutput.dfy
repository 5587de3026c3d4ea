/** Running tests in the background and forwarding their output in the order in which they were started. */
module ParallelOutput {
  import opened Filtering

  function NonEmpty(names: seq<string>): seq<string> {
    if names == [] then []
    else
      var n := |names| - 1;
      NonEmpty(names[..n]) + if names[n] == "" then [] else [names[n]]
  }

  ghost function HasName(): string -> bool {
    name => name != ""
  }

  /** The tests with a name, in their order. */
  lemma {:induction false} NonEmptyKeepsOrder(names: seq<string>)
    ensures IsFiltered(names, HasName(), NonEmpty(names))
  {
    if names == [] {
      FilteredNone(HasName());
    } else {
      var n := |names| - 1;
      NonEmptyKeepsOrder(names[..n]);
      FilteredOneMore(names, HasName(), NonEmpty(names[..n]), NonEmpty(names));
    }
  }

  /** Some test with a number above `from` and up to `to` failed. */
  ghost predicate SomeFailed(failed: nat -> bool, from: nat, to: nat) {
    exists k :: from < k <= to && failed(k)
  }

  /** Tests are numbered from `first + 1` in the order they are started; `started` and `finished` are the numbers of
      the last test started and of the last one whose output was forwarded. */
  class Runner {
    const first: nat
    var started: nat
    var finished: nat
    var launched: seq<string>
    var printed: seq<string>

    ghost predicate Valid()
      reads this
    {
      && first <= finished <= started
      && |launched| == started - first
      && printed == launched[..finished - first]
    }

    constructor (first: nat)
      ensures Valid() && this.first == first && started == first && launched == []
    {
      this.first := first;
      started, finished := first, first;
      launched, printed := [], [];
    }

    method Launch(name: string)
      requires Valid()
      modifies this`started, this`launched
      ensures Valid() && started == old(started) + 1 && launched == old(launched) + [name]
    {
      started := started + 1;
      launched := launched + [name];
    }

    /** Forward what can be forwarded. `isDone` says of each test whether it has ended when it is looked at, and
        `failed` how it ends. */
    method Forward(blocking: bool, isDone: nat -> bool, failed: nat -> bool) returns (status: bool)
      requires Valid()
      modifies this`finished, this`printed
      ensures Valid() && old(finished) <= finished
      ensures blocking ==> finished == started
      ensures !blocking ==>
        && (forall k :: old(finished) < k <= finished ==> isDone(k))
        && (finished < started ==> !isDone(finished + 1))
      ensures status <==> SomeFailed(failed, old(finished), finished)
    {
      status := false;
      while finished + 1 <= started
        invariant Valid() && old(finished) <= finished
        invariant !blocking ==> forall k :: old(finished) < k <= finished ==> isDone(k)
        invariant status <==> SomeFailed(failed, old(finished), finished)
        decreases started - finished
      {
        if blocking || isDone(finished + 1) {
          finished := finished + 1;
          printed := printed + [launched[finished - first - 1]];
          if failed(finished) {
            status := true;
          }
        } else {
          break;
        }
      }
    }

    /** Whatever the order in which tests end: every non-empty test is started, its output is printed once, in the
        order of starting, nothing is left at the end, and the status tells whether some test failed. */
    method RunTests(names: seq<string>, isDone: (nat, nat) -> bool, failed: nat -> bool) returns (status: bool)
      requires Valid() && started == first
      modifies this
      ensures Valid() && printed == launched == NonEmpty(names)
      ensures finished == started == first + |NonEmpty(names)|
      ensures status <==> exists k :: first < k <= first + |NonEmpty(names)| && failed(k)
    {
      status := false;
      for i := 0 to |names|
        invariant Valid() && launched == NonEmpty(names[..i])
        invariant status <==> SomeFailed(failed, first, finished)
      {
        assert names[..i + 1][..i] == names[..i];
        if names[i] != "" {
          Launch(names[i]);
        }
        ghost var before := finished;
        var failure := Forward(false, (k: nat) => isDone(i, k), failed);
        FailuresAddUp(failed, first, before, finished);
        if failure {
          status := true;
        }
      }
      assert names[..|names|] == names;
      ghost var before := finished;
      var failure := Forward(true, (k: nat) => isDone(|names|, k), failed);
      FailuresAddUp(failed, first, before, finished);
      if failure {
        status := true;
      }
    }
  }

  lemma FailuresAddUp(failed: nat -> bool, a: nat, b: nat, c: nat)
    requires a <= b <= c
    ensures SomeFailed(failed, a, c) <==> SomeFailed(failed, a, b) || SomeFailed(failed, b, c)
  {
  }
}
