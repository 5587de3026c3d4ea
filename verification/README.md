# Version histories of Dorothy, and the test runner it ships with

Dorothy keeps a dataset's history as a manifest: a list of content-addressed versions, each with a date and the
hashes of its parents. Clients commit versions, push their manifest to a server and fetch the server's; every side
merges what it receives. This project models that machinery and proves what it guarantees.

| file | content |
|---|---|
| `Filtering.dfy` | what is left of a list when elements are dropped, order and repetitions kept |
| `Versions.dfy`, `Ordering.dfy`, `Sorter.dfy` | versions, when two are equal, and the order a history is sorted into |
| `Manifest.dfy`, `MergePlan.dfy` | conflicts, difference and merge; merging whole collections |
| `Frontier.dfy`, `CommitParents.dfy`, `Checkout.dfy` | parents and leaves, choosing parents, resolving abbreviated hashes |
| `Nodes.dfy`, `Ipfs.dfy` | pinning and saving: the relation, and the objects that implement it by updating their fields |
| `Replicas.dfy`, `Runs.dfy`, `Convergence.dfy`, `Rounds.dfy` | clients and server as a state machine, its runs, and convergence |
| `Semaphore.dfy`, `ParallelOutput.dfy` | the vendored bats runner: slots for parallel tests, and ordered output |
| `SortedLists.dfy`, `TagFilter.dfy` | the vendored bats runner: sorted lists and the tag filter built on them |

How things are represented:

- Dates are integers (instants), hashes and addresses are strings. A saved manifest is an entry of a map from address
  to history; addresses are collision-free.
- The sort is specified by what it may return, any order that puts parents before children and earlier dates before
  later ones, so results about merging hold for every order the sorter could choose. The sorter library
  (`v.io/x/lib/toposort`) is not part of this repository; `Sorter.dfy` is a depth-first sorter of its own, proved to
  report a cycle exactly when there is one.
- `core/manifest.go:82-95` is meant to compare parent lists. As written, the second list starts with a copy of the
  first, so the loop compares a list with its own prefix and the result says only that the lengths are equal. The
  methods implement this. The lemmas take the rule (`AsWritten` or `AsMeant`) as a parameter and hold for both. Where
  the rule matters the exact condition is proved: merges commute, round trips close, collections become unions and
  replicas converge exactly when no version passes for a different one (`Coherent`, or `ParentsAgree` for two
  histories), which under `AsMeant` is always and under `AsWritten` means that versions which agree in everything else
  also list the same parents.
- In the state machine `posted` holds every manifest ever sent and `rows` every value the server's row ever had. A
  server request may merge any sent manifest into any row it may have read, and a client may receive any row as its
  answer, so interleaved, repeated, delayed and lost requests are all covered. Failures of pinning, saving and writing
  are steps too.

Where the code falls short of what it is meant to do, a concrete case and the exact condition are both proved:

- Parent lists (`SameParentsIgnoresTheParents`, `MergeOrderCanMatter`, `RoundTripCanClose`), as above.
- The server reads its row in one handler and overwrites it in another without a lock, so two pushes at once can drop
  a version from the server (`UpdatesCanBeLost`). `SaveKeepsServer` says when a save drops nothing. No client ever
  loses a version, and merging a client's manifest again puts all its versions on the server, except for one the
  server did not have while it had another that passes for it (`PushBringsBack`); under `AsMeant` there is no
  exception.
- `--no-pin` (`cmd/commit.go:142`) does not keep a committed version from being pinned (`UnpinnedCommitIsPinned`),
  because merging pins the delta in any case (`CommitAlwaysPins`).
- A space between `!` and a tag in `--filter-tags` can leave the negated tags out of order, and the search, which only
  moves forward, then overlooks one (`NegationCanBeOverlooked`). `FilterMeansItsTerms` gives the exact condition on the
  filter: every negated tag is negated by a term before which no term negating a larger tag sorts, or such a term
  negates a tag that the filter also asks for.

## Model

| member | source | states |
|---|---|---|
| Versions.SameParents | core/manifest.go:82-95 | the comparison of parent lists decides only whether the lengths are equal |
| Versions.SameParentsIgnoresTheParents | core/manifest.go:87-94 | two versions with different parents pass the comparison |
| Versions.OnlyLengthsCount | core/manifest.go:82-104 | whatever parents a version is given instead, it passes for itself as written exactly if they are as many, and as meant exactly if they are the same |
| Versions.EqualityIsExact | core/manifest.go:97-104 | element-wise comparison makes equality exact on every set of versions; the comparison as written is exact exactly where versions that pass for equal list the same parents |
| Ordering.Toposort | core/manifest.go:290-327 | the sort fails exactly when the parent and date edges have a cycle, and otherwise returns a permutation in which nothing precedes what must come before it |
| Sorter.Sort | core/manifest.go:315-318 | a cycle is reported exactly when the graph has one; otherwise every node is placed once and after all it depends on |
| Ordering.LoopsOfPositions | core/manifest.go:293-313 | cycles among list positions, the sorter's nodes, are exactly cycles among the versions as a set |
| Ordering.CycleCauses | core/manifest.go:297-318 | a cycle exists exactly when a present parent has a strictly later date or versions of one date form a loop of parent links |
| Ordering.AncestorsComeFirst | core/manifest.go:297-327 | in a sorted history every ancestor reachable through present parents comes before its descendant, and dates never decrease |
| Ordering.SortIsUnique | core/manifest.go:307-327 | with pairwise distinct dates there is one sorted order only |
| Ordering.SortExists | core/manifest.go:315-318 | a history can be sorted exactly when it has no cycle |
| Manifest.Conflicts | core/manifest.go:228-241 | the list holds exactly the pairs with one hash that are not equal, none twice when hashes are distinct on either side, and the flag says that there are none |
| Manifest.Diff | core/manifest.go:131-152 | an error exactly on conflict, otherwise the new versions without an equal old one, in order |
| Manifest.DeltaKeepsOrder | core/manifest.go:131-152 | the difference is the new history without the versions that pass for an old one, in its order and with its repetitions |
| Manifest.Merge | core/manifest.go:154-183 | which of success, conflict and cycle occurs, the exact conflicts, and that a success sorts the old versions plus the difference |
| Manifest.MergeContents | core/manifest.go:159-182 | as a multiset a merge is the old versions plus exactly the difference |
| Manifest.MergeKeepsDistinct | core/manifest.go:164-175 | merging two histories with pairwise distinct hashes gives one again |
| Manifest.ConflictsAreSymmetric | core/manifest.go:228-241 | being free of conflicts does not depend on the direction |
| Manifest.MergeAbsorbs | core/manifest.go:131-183 | after a merge the difference to what was merged is empty and free of conflicts, and merging it again is allowed and changes nothing but the order |
| Manifest.MergeCommutes | core/manifest.go:154-183 | the two merge orders give the same versions exactly when versions of one hash list the same parents, and always if parents are compared as meant |
| Manifest.MergeOrderCanMatter | core/manifest.go:82-95 | as written, two one-version histories whose merge depends on the order |
| Manifest.RoundTrip | core/dorothy.go:633-644 | after the server merged a push, the client's merge of the answer never conflicts, and it succeeds and ends with the server's versions exactly when both agree on the parents of shared versions |
| Manifest.RoundTripCanClose | core/dorothy.go:638-641 | as written, a client that cannot merge back the server's answer to its own push because of a cycle |
| MergePlan.PlanIsUnionExactly | core/manifest.go:154-183 | merging any collection in any order and grouping holds all its versions exactly when none passes for another, and never two versions of one hash |
| MergePlan.AnyPlanSameOutcome | core/manifest.go:154-183 | any two orders and groupings of the same histories end with the same versions, and with the same sequence when no two share a date |
| MergePlan.PlanSucceeds | core/manifest.go:155-180 | merging a collection succeeds exactly when no two of its versions conflict and their union has no cycle, whatever the order, and then both sides of its last merge can be merged alone too |
| MergePlan.PartialPlansSucceed | core/manifest.go:155-180 | if a collection can be merged in some order and grouping, any part of it can be, in every order and grouping |
| Frontier.UnknownCommits | core/manifest.go:189-204 | exactly the listed hashes that are not in the history, in order |
| Frontier.UnknownKeepsOrder | core/manifest.go:189-204 | what is reported is the list without the hashes that are present, in its order and with its repetitions |
| Frontier.LeafVersions | core/manifest.go:206-221 | exactly the versions that no version names as a parent, in order |
| Frontier.LeavesKeepOrder | core/manifest.go:206-221 | the leaves are the history without the versions that somebody names as a parent, in its order |
| Frontier.MergeKeepsClosed | core/manifest.go:154-183 | if every parent listed in the old history is present, and those listed in the new one are found in either, the merge lists present parents only |
| Frontier.CommitKeepsClosed | cmd/commit.go:39-60 | committing a fresh version keeps all listed parents present exactly when none of its parents is unknown |
| Frontier.LastIsLeaf | core/manifest.go:206-221 | the last version of a sorted history is a leaf |
| Frontier.EveryVersionReachesLeaf | core/manifest.go:206-221 | every version is a leaf or has a leaf among its descendants |
| Frontier.CommitMovesFrontier | core/manifest.go:206-221 | committing a fresh version changes the leaves to those that are not its parents, plus the new version unless an older one already names it as a parent |
| Frontier.CommitOnFrontier | cmd/commit.go:18-21 | the new version is the only leaf exactly when all old leaves are its parents |
| Frontier.CommitSucceedsExactly | core/dorothy.go:689-704 | a version not yet present is refused exactly when a present parent has a later date, a version that already names it has an earlier date, or parent links within one date lead from it back to it |
| Frontier.UnnamedLeadsBack | core/manifest.go:297-318 | for a version no present one names, such a loop means that it is its own parent |
| CommitParents.CheckParentage | cmd/commit.go:13-61 | the parents that were given are never lost: when nobody is asked they are the result, otherwise those picked in the first round that ends the dialogue are added, and a dialogue that does not end gives the commit up; so do unknown parents without consent; known parents come sorted, and with unknown ones the list is left as given |
| CommitParents.CandidatesAreGivenAndPicked | cmd/commit.go:14-36 | the parents that were given come first, followed by those picked in the round that ends the dialogue |
| CommitParents.Choose | cmd/commit.go:16-35 | the dialogue ends with the first choice or consent to none, and opens each time with the leaf selected if there is just one |
| CommitParents.PreselectedIsOnlyLeaf | cmd/commit.go:18-21 | a version is selected from the start exactly when it is the only leaf |
| Checkout.Checkout | core/dorothy.go:575-594 | the two passes find a full hash first and otherwise a unique abbreviation |
| Checkout.ResolvesTo | core/dorothy.go:575-594 | a key resolves to a hash exactly when that hash is present and is the key or the only one starting with it; it resolves to nothing exactly when no hash starts with it |
| Checkout.ResolutionUnderGrowth | core/dorothy.go:575-594 | as a history grows a full hash keeps its meaning; an abbreviation keeps it exactly while no other hash starts with it, and otherwise becomes ambiguous or a full hash itself |
| Checkout.LongerKeysAgree | core/dorothy.go:581-591 | any longer prefix of the hash that was found finds it too |
| IpfsNode.Ipfs.MergeAndCommit | core/ipfs.go:324-349 | implements the merge, pin and save step, succeeds exactly when the merge does, every version of the difference can be pinned and saving works, pins what it can of the difference even if something cannot be pinned or saved, and returns exactly the conflicts |
| IpfsNode.Ipfs.PinAll | core/ipfs.go:335-345 | pins every version that can be pinned, also after errors, and reports whether there was one |
| IpfsNode.Ipfs.SaveManifest | core/ipfs.go:205-224 | saves and pins the manifest under its address, or changes nothing |
| IpfsNode.Ipfs.CommitVersion | core/ipfs.go:356-362 | pins the version's hash, or changes nothing |
| IpfsNode.Repository.Fetch | core/dorothy.go:498-509 | a fetch succeeds exactly when the answer and its manifest are received, the merge is allowed, all that is new can be pinned, and saving and writing the file work; then it is the client's update from the answer, and a fetch that fails with a writable file leaves the history as it was; the conflicts are returned |
| IpfsNode.Repository.Absorb | core/dorothy.go:638-644 | the current manifest moves exactly when merge, pins, save and file all succeed; the history in memory moves when all but the file do, and otherwise stays as it was |
| IpfsNode.Repository.Commit | core/dorothy.go:647-708 | implements the client's update with the new version, and succeeds exactly when there are a path, user, message and data and that update can be carried out; otherwise, with a writable file, the history stays as it was; committing no paths is no failure; conflicts are returned exactly when the version conflicts with the history |
| IpfsNode.Repository.LoadManifest | core/dorothy.go:161-173 | the history in memory becomes the one the manifest file names; an unreadable file leaves it as it was, and an unreachable manifest leaves none |
| IpfsNode.Server.ReceiveDataset | server/handlers.go:436-460 | a push is answered exactly when the pushed manifest is received, the merge into the row that was read earlier is allowed, all that is new can be pinned, and saving the manifest and the row work; then the row changes and is the answer, and otherwise it stays and conflicts are returned |
| IpfsNode.AbsorbsUpdates | core/dorothy.go:638-644 | what the objects do with an answer, failures included, is a step that the state machine of clients and server allows |
| Nodes.UpdateIsSafe | core/ipfs.go:324-362 | whatever fails, saved manifests are unchanged, sorted and distinct, every version of every saved manifest is pinned, and the current manifest moves only on success |
| Nodes.MergeHashes | core/ipfs.go:330-342 | the hashes of a merge are those of both sides, and pinning the difference covers what the old side lacked |
| Replicas.NextKeeps | core/dorothy.go:503-509 | every step, failed or not, keeps the invariant, and no client loses a version |
| Replicas.ReceiveKeeps | server/handlers.go:436-449 | the same for the server's merge into a row it read earlier, which keeps every server version held by some client |
| Replicas.CommitAlwaysPins | core/dorothy.go:679-689 | a committed version is pinned whether or not pinning was asked for |
| Runs.UnpinnedCommitIsPinned | cmd/commit.go:142 | a run of one successful commit that asks not to pin, after which the version is pinned and before which it was not |
| Runs.RunIsSafe | core/dorothy.go:638-644 | in every run: clients only grow, saved manifests never change, every server version is held by some client, and everything saved is pinned |
| Runs.SaveKeepsServer | server/handlers.go:390-449 | a save keeps the server's versions exactly when each is in the row that was read or in the pushed difference |
| Runs.AtomicRunsGrowServer | server/handlers.go:411-449 | when each request merges into the row of that moment, the server's history only grows |
| Runs.UpdatesCanBeLost | server/handlers.go:390-449 | a run in which two pushes that read the same row drop a version from the server |
| Convergence.PushBringsBack | server/handlers.go:390-449 | whatever a client ever held in a run is on the server after its manifest is merged there, exactly if it was there or the server held nothing that passes for it; with coherent versions always |
| Runs.RunKeepsClosed | cmd/commit.go:39-60 | in a run in which no commit lists an unknown parent, every parent listed in a saved manifest is present in it |
| Runs.CheckoutDuringRun | core/dorothy.go:575-594 | what a key resolved to on a client is at any later time found again, ambiguous, or replaced by the key as a full hash |
| Convergence.EveryoneConverges | core/dorothy.go:498-509 | with no version passing for another, in any interleaving of posts, server merges and answers, delayed, repeated and failed ones included: once what every client held has been merged by the server, into its row of that moment, and every client has then merged an answer given since, all replicas hold exactly the versions any client held, in the same sequence when no two share a date; it comes about only if those versions have no conflict and no cycle |
| Convergence.RunsConvergeExactly | core/dorothy.go:607-644 | after any run, such an interleaving brings everyone to all versions exactly when none passes for another, and always if parents are compared as meant |
| Convergence.PostedIsDelivered | core/dorothy.go:607-618 | posting and then merging what was posted delivers all that the client held at the beginning |
| Convergence.SerialRoundsConverge | core/dorothy.go:498-509 | the special case in which each push ends before the next begins, and then everyone fetches |
| Rounds.CanAlwaysConverge | core/dorothy.go:498-509 | while the versions have no conflict and no cycle and none passes for another, any interleaving so far, whatever failed and however sorts came out, can go on so that everyone converges |
| Rounds.ConvergesExactly | core/ipfs.go:324-328 | with coherent versions some interleaving converges exactly when the versions of all clients have no conflict and no cycle |
| Rounds.RoundsNeverStick | core/ipfs.go:324-328 | whatever the outcomes so far in a round of pushes or fetches, any client can push or fetch next |
| Rounds.ConvergenceIsPossibleExactly | core/dorothy.go:498-509 | whatever the orders in which all clients push and then fetch, they can do so without a refused merge exactly when no two of all their versions conflict and the versions have no cycle |
| Convergence.NoMergeIsRefused | core/ipfs.go:324-328 | while the versions of all clients have no conflict and no cycle, no push or fetch is refused a merge |
| Convergence.PushIsUnion | core/dorothy.go:607-644 | an undisturbed push adds the client's versions to the server's and leaves both with the same |
| Semaphore.AcquireWhileLocked | test/bats/lib/bats-core/semaphore.bash:72-83 | a positive count leads to the first slot that is free when it is looked at, below the limit, whatever is released while the directory is scanned; every other file is left alone |
| Semaphore.NextKeeps | test/bats/lib/bats-core/semaphore.bash:72-106 | every step of every process keeps slots owned, the lock exclusive, and a free slot ahead of a scan |
| Semaphore.RunIsSafe | test/bats/lib/bats-core/semaphore.bash:87-106 | under every interleaving at most as many processes as slots hold one, and no two the same |
| Semaphore.RefinesBoundedSet | test/bats/lib/bats-core/semaphore.bash:72-106 | the protocol refines a bounded set of holders: taking adds one while there is room, releasing removes one and finds its file |
| Semaphore.WaitingCanAcquire | test/bats/lib/bats-core/semaphore.bash:72-100 | with the lock and a slot free, a waiting process gets, by its own steps, the first free slot |
| Semaphore.NeverStuck | test/bats/lib/bats-core/semaphore.bash:72-106 | as long as some process is not done, some process can take a step |
| ParallelOutput.Runner.Forward | test/bats/libexec/bats-core/bats-exec-file:210-224 | output is forwarded in order up to the first test that is not done, all of it when blocking, and the status tells of a failure among it |
| ParallelOutput.Runner.RunTests | test/bats/libexec/bats-core/bats-exec-file:246-271 | whatever the order of completion, each non-empty test is printed once in starting order, none is left, and the status tells whether some test failed |
| ParallelOutput.NonEmptyKeepsOrder | test/bats/libexec/bats-core/bats-exec-file:246-271 | the tests that run are those with a name, in their order |
| SortedLists.Sort | test/bats/lib/bats-core/common.bash:103-130 | the result is sorted and a permutation of the values |
| SortedLists.AllIn | test/bats/lib/bats-core/common.bash:134-160 | true exactly when the values are in order and all occur |
| SortedLists.AnyIn | test/bats/lib/bats-core/common.bash:164-188 | true exactly when some value occurs that is not below one before it |
| SortedLists.SortedNeedlesAreRecords | test/bats/lib/bats-core/common.bash:162-188 | for values in order that is the intersection test |
| TagFilter.SplitJoin | test/bats/libexec/bats-core/bats-gather-tests:29-138 | splitting a joined list gives it back, without an empty last field |
| TagFilter.JoinSplit | test/bats/libexec/bats-core/bats-gather-tests:22-24 | joining the fields of any line gives it back, without a comma at its end |
| TagFilter.TrimIsExact | test/bats/lib/bats-core/common.bash:190-195 | trimming takes away all blanks around a text and nothing of the text |
| TagFilter.PaddingIsDropped | test/bats/libexec/bats-core/bats-gather-tests:21-33 | of a filter written with blanks around its tags, the tags are kept, sorted and joined |
| TagFilter.ReadTags | test/bats/libexec/bats-core/bats-gather-tests:21-33 | what is kept of a filter is its trimmed terms, sorted and joined |
| TagFilter.NegatedTag | test/bats/libexec/bats-core/bats-gather-tests:126-149 | a term that starts with an exclamation mark negates the tag behind it, blanks aside |
| TagFilter.ShouldSkip | test/bats/libexec/bats-core/bats-gather-tests:126-155 | a test is skipped exactly when filters are given and none accepts it |
| TagFilter.FilterMeansItsTerms | test/bats/libexec/bats-core/bats-gather-tests:126-155 | a filter decides about every test as documented exactly when its terms are reliable: every negated tag is negated by a term before which no term negating a larger tag sorts, or such a term negates a tag also asked for; this holds whenever negation marks stand directly before their tags, and no selected test is ever turned away |
| TagFilter.SkipsUnselected | test/bats/man/bats.1.ronn:58-74 | a skipped test is selected by no filter, and with reliable filters a test is skipped exactly when none selects it: filters form a disjunction of conjunctions of tags and negated tags, and an empty one selects untagged tests |
| TagFilter.NegationCanBeOverlooked | test/bats/libexec/bats-core/bats-gather-tests:140-149 | a filter with a space after a negation mark that accepts a test with a negated tag |

## Left out

- IPFS node setup, peers and file transfer: blocks, pins and their failures are kept, the network is not.
- HTTP, login, sessions, privileges and rendering: only the order of reading and saving the server's row is modelled.
- JSON encoding and time zones: manifests are stored as histories and dates as instants; encoding is taken to round-trip.
- Two commands at once in one repository: a client's steps are taken one at a time on the manifest file.
- Pointers: versions and manifests are values, and the hash kept inside a manifest is the address it is stored under.
- The order in which the sorter library places unrelated versions: any allowed order is permitted.
- CommitParents.CheckParentage: the selection dialogue is a list of rounds given as input.
- Convergence.EveryoneConverges: commits made meanwhile, and server merges into an outdated row, are not part of the stretch; `UpdatesCanBeLost` shows what the latter do.
- Checkout.Checkout: writing the data to its destination is not modelled, only which version is chosen.
- Semaphore.AcquireWhileLocked: the busy waiting before the lock, failing file operations and signals are not modelled.
- ParallelOutput.Runner.RunTests: retries and process ids are not modelled; each test ends with success or failure.
- SortedLists.Sort: strings are ordered by character code, as in the C locale; other locales are not modelled.
- TagFilter.ReadTags: a filter is one line, and backslashes and shell expansion in tags are not modelled.
- `bats_binary_search`, the focus tag and the filter by status: short, and nothing else here rests on them.
- Configuration, the terminal interface, log output, `Clone`, and the rest of bats.
