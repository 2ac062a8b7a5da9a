# xbps: proofs about scheduling, planning and index maintenance

This project models the parts of the xbps package manager whose correctness depends
on many steps working together, and proves what those parts promise over every input,
every run or every interleaving. Code that updates things in place is modelled by
classes, arrays and loops; each such method is proved against a function on values or
against the promised property, and the lemmas beside it say what that function means.

| files | what they model |
|---|---|
| `Fbulk*.dfy` | the parallel build scheduler of xbps-fbulk: item states, dependency counters, the build and run lists, recursive completion |
| `TransactionFiles.dfy`, `FileConflicts.dfy`, `FileClaims.dfy`, `FilePlan*.dfy`, `FileCommit.dfy`, `FileDeletions.dfy` | which package owns, deletes and extracts each path, and the commit loop that carries it out |
| `TransactionDeps*.dfy`, `TransactionWanted.dfy`, `TransactionFailure.dfy`, `DependencyResolver.dfy` | collecting a transaction's dependencies, storing entries, removing the duplicated heads, what may be missing and why it fails |
| `UtHash*.dfy` | the pointer-linked hash table with bucket chains, insertion-order list and doubling |
| `DepTree*.dfy`, `FullDepTree.dfy`, `Orphans.dfy` | the full dependency tree, the reverse dependency index and the two orphan searches |
| `PathSpec.dfy`, `PathMeaning.dfy`, `PathRelSpec.dfy`, `UtilPath.dfy`, `UtilPathRel.dfy` | lexical path cleaning in place and relative paths |
| `PlistThreads.dfy`, `PlistForeach.dfy` | worker threads that reserve slices of an array under a mutex |
| `RepoIndex.dfy`, `RindexAdd.dfy` | the repository index, its stage, and committing the stage |
| `Alternatives.dfy`, `AlternativesRegistry.dfy` | the provider lists of alternatives groups |
| `ShlibCheck.dfy` | the shared-library check of a transaction |
| `PkgName.dfy` | package names and versions inside strings and paths |
| `Graph.dfy`, `Sequences.dfy`, `Wrappers.dfy` | reachability, acyclicity and ranks in finite graphs; sequences without repetition; options |

proplib arrays and dictionaries are `seq` and `map`. Versions are compared by an
abstract order, patterns by an abstract predicate, hash values by an arbitrary function.
What the operating system answers (fork, wait, directory contents, file hashes, link
targets, thread creation, link failures) is a parameter or a nondeterministic step.

Findings about the code, stated as lemmas or contracts:

- The drain loop at the end of `main` in xbps-fbulk can stop with packages left over, even
  without any dependency (`FbulkDrain.DrainStopsEarly`, `FbulkDrain.DrainForgetsStrangers`).
  Entered in any state it finishes everything for sure if and only if whoever waits is held
  up by something that waits or is bound to fail, and there is a job for everything queued
  or running (`FbulkDrain.DrainFinishesIff`). `Quiescent` therefore speaks of both lists
  being empty.
- `xbps_path_clean` writes its terminator past the end of a buffer of one byte that holds
  the empty string; `UtilPath.PathClean` says that this is the only such input.
- The scans of `xbps_path_rel` read outside their strings for equal cleaned paths (past both
  terminators), for an empty goal and for paths that start differently (before the first
  string); `PathRelSpec.ScansLeave` has the inputs and `PathRelSpec.StaysInsideIff` the
  exact condition.
- Planning returns the code of its last checksum comparison: a file that could not be read
  is forgotten when a later one could be, and its path is scheduled either way
  (`FilePlanResult.PlanCode`).
- A package left half removed is purged without deleting what is planned for it
  (`FileDeletions.EntrySection`).
- The full dependency tree misses a package when its pattern's name is that of another
  visited package (`DepTreeTheorems.ProviderLost`). What the search visits is the function
  `DepTreeSpec.Tree`; it holds whatever is reached along dependencies whose names agree, and
  `LostByName` says what must have happened to anything else.
- When a worker thread cannot be created its first slice is never processed;
  `PlistThreads.Processed` gives the exact set that is, and `CompleteIffAllCreated` the
  exact condition for completeness. With no thread at all the sequential routine runs.
- Registering an update reads a null list when an obsolete group is not registered, which a
  failed link followed by the same update on the same database brings about
  (`Alternatives.FailedUpdateLosesGroup`); without link failures it cannot happen
  (`Alternatives.HistoryRegistered`). A failed transaction does not write the database, so
  this concerns callers that go on with it in memory.
- `xbps_binpkg_pkgver` accepts any five characters where `.xbps` is expected; the
  contract of `PkgName.BinpkgPkgver` states what is accepted.

## Model

| member | source | states |
|---|---|---|
| `FbulkScheduler.Scheduler.AddDepn` | bin/xbps-fbulk/main.c:402-436 | a reverse edge is put at the head of the dependency's list; the dependent's counter grows unless the dependency has completed; if that one failed, the dependent fails with its code, is counted as built, and its assertion is recorded |
| `FbulkScheduler.Scheduler.ScanAll` | bin/xbps-fbulk/main.c:443-532 | after scanning every item, each edge stands in the reverse lists as often as it was given, each counter is the number of dependencies given, no assertion failed, and exactly the items without dependencies are queued, each once |
| `FbulkScheduler.Scheduler.EnqueueBuild` | bin/xbps-fbulk/main.c:152-160 | queueing an item that is not queued keeps the build list equal to the items in XBUILD, each once |
| `FbulkScheduler.Scheduler.SignalDependent` | bin/xbps-fbulk/main.c:210-241 | one turn of the loop over reverse dependencies refines `Fbulk.Signal`, including a nested completion |
| `FbulkScheduler.Scheduler.ProcessCompletion` | bin/xbps-fbulk/main.c:165-250 | the recursive procedure terminates on acyclic graphs and refines `Fbulk.Complete` |
| `FbulkScheduler.Scheduler.WaitRunning` | bin/xbps-fbulk/main.c:259-296 | reaping finds the child exactly when it is on the run list; then an item that ran under the child's pid is XDONE with the child's exit code and the call is a `Reaped` event of the machine; a stray child changes nothing; the invariant is kept |
| `FbulkScheduler.Scheduler.StartBuild` | bin/xbps-fbulk/main.c:319-388 | one turn of the start loop is a `Forked` or `ForkFailed` event and keeps the invariant: the head of the build list runs under the child's pid, or is XDONE with code -98 |
| `FbulkScheduler.Scheduler.RunBuilds` | bin/xbps-fbulk/main.c:307-394 | whatever fork and wait answer, the start loop runs until no build can start, then only reaps follow, both loops end, and the invariant is kept |
| `FbulkScheduler.Scheduler.Drain` | bin/xbps-fbulk/main.c:749-759 | main's last loop takes the turns of the loop model and ends with nothing running or a stray child; with room for everything before the call, and no stray child, everything is finished |
| `FbulkDrain.DrainFinishesIff` | bin/xbps-fbulk/main.c:749-759 | from any state between completions, builds queued, running and completed included, every drain without a stray child finishes every package if and only if whoever waits has a dependency that is itself waiting or bound to fail, and there is a job for everything queued or running |
| `FbulkDrain.StopsEarly` | bin/xbps-fbulk/main.c:389-394 | in every other such state, starting what fits and reaping it all inside the first runBuilds ends the drain loop with a package not completed |
| `FbulkDrain.ScannedRoomy` | bin/xbps-fbulk/main.c:443-532 | before anything was started that condition says that no package waits for another and that there is a job for each |
| `FbulkLoops.DrainsLeads` | bin/xbps-fbulk/main.c:749-759 | wherever the drain loop can be is a state of a run, with the invariant |
| `Fbulk.SignalKeeps` | bin/xbps-fbulk/main.c:210-241 | signalling one dependent, however deep the completions it sets off, keeps the invariant over all items and leaves completing, completed, queued and running items alone |
| `Fbulk.CompleteFromKeeps` | bin/xbps-fbulk/main.c:165-250 | a completion keeps the invariant from any point of its loop and ends with its item XDONE under its own exit code |
| `FbulkRuns.NextKeeps` | bin/xbps-fbulk/main.c:259-394 | every event keeps the invariant, never takes back a completion, starts or completes an item, and completes it with the code the event carries, while everything else that runs keeps running under its pid |
| `FbulkTheorems.CountersExact` | bin/xbps-fbulk/main.c:207-213 | a counter equals the number of edges from items that have not completed, as a set of edges |
| `FbulkTheorems.RunSafe` | bin/xbps-fbulk/main.c:165-394 | in every state of every run: no assertion failed, running builds stay within the limit, counters are exact, no item entered XRUN twice, and those that did had all dependencies succeed |
| `FbulkTheorems.StartsOnlyWhenReady` | bin/xbps-fbulk/main.c:302-388 | a build starts only if it never ran and all its dependencies are XDONE with code 0, which no later event changes |
| `FbulkTheorems.RunsAreShort` | bin/xbps-fbulk/main.c:307-394 | no run has more than two events per item |
| `FbulkSettled.NeverStuck` | bin/xbps-fbulk/main.c:298-319 | while an item is not completed, a build can start or one is running |
| `FbulkSettled.Quiescent` | bin/xbps-fbulk/main.c:750-757 | when both lists are empty every item is XDONE and counted once; an item ran exactly when all its transitive dependencies succeeded, otherwise it carries a non-zero code |
| `FbulkCodes.OwnCode` | bin/xbps-fbulk/main.c:280-290 | over every run, an item that started and completed carries the exit code of the child forked for it, or -98 because its fork failed; one that is running is waited for under the pid of its own child |
| `FbulkCodes.ReturnedKept` | bin/xbps-fbulk/main.c:280-290 | over every run, an item whose child returned a code is XDONE with that code ever after |
| `FbulkCodes.BuiltIffDependenciesReturnedZero` | bin/xbps-fbulk/main.c:207-250 | in every run from a scanned graph that came to rest, an event took an item off the build list if and only if each of its transitive dependencies got a child and that child returned 0 |
| `FbulkCodes.SkippedCode` | bin/xbps-fbulk/main.c:229-241 | over every run, an item completed without having started carries the non-zero code that was reported for one of its transitive dependencies |
| `FbulkSettled.ScannedInv` | bin/xbps-fbulk/main.c:396-532 | a fully scanned acyclic graph satisfies the invariant from which all runs start |
| `FbulkDrain.DrainStopsEarly` | bin/xbps-fbulk/main.c:389-394 | one job, the second package depending on the first: a drain of the loop model that ends with nothing running and the second package queued |
| `FbulkDrain.DrainForgetsStrangers` | bin/xbps-fbulk/main.c:755-757 | one job and two packages without dependencies: a drain that ends with nothing running and the second package queued |
| `FilePlanner.Planner.CollectFile` | lib/transaction_files.c:432-570 | recording a claim keeps the table faithful to, and exact for, all claims so far: first creator with its type, remover as they say; it returns EEXIST exactly when the path has a creator, not both are directories and conflicts are not ignored, and EPERM exactly when an earlier removal of the path, not both of a directory, disagrees about preserving it |
| `FilePlanner.Planner.CollectFiles` | lib/transaction_files.c:572-663 | recording a package's file list refines `CollectList`; for a list of creations the result is EEXIST, for a list of removals EPERM, exactly when one of its claims is refused, and otherwise 0 with an exact table |
| `FilePlanner.Planner.CollectAll` | lib/transaction_files.c:818-885 | members are collected in transaction order; the result is 0 if and only if no two claims create one path other than as directories, or conflicts are ignored, and no removal disagrees about preserving; otherwise the first refused claim decides between EEXIST and EPERM; on success the sorted array holds every recorded path once, longest first |
| `TransactionFiles.CollectKeeps` | lib/transaction_files.c:432-570 | after any claim each path is in the table once, its creator is the first package that claims to create it, and its remover is a package that claims to remove it, the last one for a directory |
| `TransactionFiles.CollectionFaithful` | lib/transaction_files.c:805-878 | a successful collection of all members is faithful to all their claims |
| `FileConflicts.CollectExact` | lib/transaction_files.c:432-570 | one claim keeps the table exact: the creator is the first claim's owner, the remover that of the first removal, for a directory that of the first preserving or else the last removal, with type, checksum and target of the first; the error is the one the earlier claims call for |
| `FileConflicts.CollectListCode` | lib/transaction_files.c:572-663 | a clash of creations inside a list gives EEXIST although the collection goes on, a disagreeing removal EPERM, and without either the code is 0 and the table exact |
| `FileConflicts.CollectionCode` | lib/transaction_files.c:805-878 | for all members' claims: success if and only if there is no creation clash (or they are ignored) and no disagreement about preserving; then the table is exact; otherwise the code is that of the first refused claim |
| `FileClaims.FileClaimsAt` | lib/transaction_files.c:572-663 | a file list gives one claim per descriptor, in order, with its path, the type of its list, the link's target, and on removal the last checksum seen so far, which an entry without one inherits |
| `FileClaims.EntryCreates` | lib/transaction_files.c:818-862 | an entry that installs, reinstalls or updates claims and extracts every path of its new files with its own name, position and flags; any other entry none |
| `FileClaims.EntryRemoves` | lib/transaction_files.c:805-878 | an entry that is not held or only configured claims to remove every path of its installed version, under its preserve flag |
| `FileClaims.ListedClash` | lib/transaction_files.c:493-521 | the claims of two unpacking entries that list one path, not both as a directory, clash wherever the entries stand |
| `FileClaims.ClashReported` | lib/transaction_files.c:514-521 | two members with such claims make the collection fail unless conflicts are ignored |
| `FilePlanner.SortItems` | lib/transaction_files.c:762-768 | sorting by path length keeps exactly the items |
| `FilePlanner.Planner.CanDelete` | lib/transaction_files.c:150-201 | the two scans decide `CanDeleteDirectory`: everything tracked before the directory and beneath it is marked and the directory holds no more entries than were marked |
| `FilePlanner.Planner.CollectObsoletes` | lib/transaction_files.c:203-430 | the pass over the sorted items refines `PlanUpTo`: lists, marks and return code, including the code left over from an earlier item |
| `FilePlanner.Planner.RemoveItem` | lib/transaction_files.c:305-426 | either no list changes and no mark is lost, or the path joins the end of its remover's list and is marked; which of the two follows the checks on base links, hashes and link targets |
| `FilePlan.PlanSound` | lib/transaction_files.c:386-427 | every scheduled path belongs to one item and stands in the list of that item's remover, marked, and in each list longer paths precede shorter ones without repetition |
| `FilePlan.PlanExact` | lib/transaction_files.c:237-427 | when planning succeeds, a path is in a package's list if and only if an item of that path is to be deleted and the package is its remover, and a path counts as deleted if and only if it is to be deleted or is gone already |
| `FilePlan.ScheduledIff` | lib/transaction_files.c:237-427 | an item's path is scheduled if and only if it is superseded, not preserved, no base link, there with its checksum or forced, and not a changed link |
| `FilePlan.ContentsFirst` | lib/transaction_files.c:228-237 | in every obsolete list the contents of a directory come before the directory |
| `FilePlan.ReplacedDirectoryEmptied` | lib/transaction_files.c:282-296 | if planning succeeds, every tracked path beneath a directory replaced by a file or link is marked deleted, wherever it stands in the array |
| `FilePlanResult.PlanFailsIff` | lib/transaction_files.c:150-201 | planning fails, with ENOTEMPTY, if and only if a directory that is not preserved is to be replaced by a file or link and cannot be read, or has something tracked beneath it that stays, or holds more entries than are tracked beneath it |
| `FilePlanResult.PlanCode` | lib/transaction_files.c:305-345 | a plan that did not fail returns the code of its last checksum comparison alone, 0 if there was none |
| `FilePlanner.Planner.PlanMembers` | lib/transaction_files.c:805-899 | conflicting claims and obstructed directories give their codes; on 0 the lists are exactly the paths to be deleted, by their removers, longest first |
| `FileCommit.ScheduledBefore` | lib/transaction_files.c:386-400 | a member that deletes a path comes no later in the transaction than any member that extracts it |
| `FileCommit.CommitNeverDeletesExtracted` | lib/transaction_commit.c:308-379 | over the whole commit loop no path extracted by a member is deleted afterwards |
| `FileCommit.CommitInstalls` | lib/package_unpack.c:150-449 | wherever the commit stopped, a path that a member wrote holds that member's content unless a later member wrote it again, and a path that a member lists but left alone (directory, noextract, preserved, kept configuration file, same hash) is as it was then, whichever deletions failed |
| `FileDeletions.EntrySection` | lib/transaction_commit.c:308-379 | each entry contributes exactly: its whole obsolete list, in order, if it removes an installed package that was not half removed and not for an update, or unpacks without having to preserve; then all its paths if it unpacks; nothing else |
| `FileDeletions.DeleteOrigin` | lib/package_unpack.c:131-149 | every deletion of the commit lies in the section of a member that deletes and is a path of that member's list |
| `FileDeletions.CommitDeletes` | lib/package_remove.c:176-190 | every path in the list of a member that deletes is deleted before that member extracts, and is absent at the end unless the deletion failed or a later extraction wrote it |
| `FileDeletions.LastDecides` | lib/package_unpack.c:131-449 | the last operation that took place on a path decides its state at the end; without any it is as it was |
| `FileDeletions.CommitLeavesAlone` | lib/transaction_commit.c:308-379 | a path that no member extracts and no deleting member lists is as it was before the commit |
| `FilePlanner.Planner.Commit` | lib/transaction_commit.c:308-379 | running the members in order, deletions before extractions, any of which may fail or be skipped, gives the file system of `CommitOps`; each path in the list of a member that deletes was deleted, and is absent unless that failed or it was written again |
| `FilePlanner.Planner.PlanAndCommit` | lib/transaction_commit.c:308-379 | collection, planning and commit together: conflicting claims are reported and nothing is touched; when planning succeeds the lists are exact, each path in the list of a member that deletes is deleted and stays so unless written again, and nothing extracted is deleted afterwards |
| `DependencyResolver.Resolver.TransactionStore` | lib/transaction_store.c:53-101 | storing keeps one entry per name, leaves every other name alone, and leaves under the name of the entry no older version than it, which is the entry or was there before |
| `TransactionDepsTheorems.StoreKeepsGreatest` | lib/transaction_store.c:53-101 | storing keeps one entry per name, leaves other names alone, and what then stands under the name is no older than what was offered |
| `DependencyResolver.Resolver.AddMissingReqdep` | lib/transaction_pkg_deps.c:33-108 | a new missing dependency is recorded exactly when it is the first or it and all recorded ones have version operators, as the early exit has it; the others stay |
| `DependencyResolver.Resolver.RepoDeps` | lib/transaction_pkg_deps.c:111-495 | the recursion terminates by its depth bound, fails with ELOOP beyond it, refines `Walk` including half-removed packages, and restores the queue when it succeeds |
| `DependencyResolver.Resolver.Examine` | lib/transaction_pkg_deps.c:166-437 | the passes come to the action `Decide` describes, and rightly: a dependency that is not settled is missing if and only if nothing installed does and it is held back or not offered, is configured if and only if it is unpacked, and is otherwise taken from the repositories with the type and automatic mark the database implies |
| `DependencyResolver.Resolver.PrepareTransaction` | lib/transaction_prepare.c:306-341 | the edge collection and head removal refine `Prepare`; everything added or missing is justified by an explicit entry, nothing is missing when everything brought along is offered and not held back, a failure has a reason, and a result with nothing missing is complete: each name once, every explicit entry kept, every dependency met or excused |
| `TransactionDepsTheorems.MissingStays` | lib/transaction_pkg_deps.c:111-495 | a missing dependency is never forgotten by the rest of the walk |
| `TransactionDepsTheorems.WalkCovers` | lib/transaction_pkg_deps.c:148-495 | a walk that succeeds with nothing missing only appends, adds no name twice, and covers each dependency by something excused, an earlier entry, or an entry or queued package on whose behalf it was collected |
| `TransactionDepsTheorems.HeadsRemoved` | lib/transaction_prepare.c:335-340 | removing by pkgver the collected edges removes exactly the explicit entries that were appended again; those to be removed or held stay at the head, in their order |
| `TransactionDepsTheorems.PreparedComplete` | lib/transaction_prepare.c:295-341 | a prepared transaction with nothing missing, explicit removals and holds included, has each name once, keeps every explicit entry, and meets each dependency of each package to unpack by a live entry that is earlier, explicit or requesting, unless ignored, self-provided or already installed |
| `TransactionWanted.DecidesRightly` | lib/transaction_pkg_deps.c:166-437 | for one dependency, the condition on ignored patterns, queue, transaction, database and repositories under which each action is taken, with the type and mark of what is added |
| `TransactionWanted.PreparedJustified` | lib/transaction_pkg_deps.c:111-495 | whatever is answered, preparing adds only entries that answer a dependency of a package brought along by an explicit entry, rightly typed and marked, and records as missing only dependencies of such packages that are not excused and are held back or not offered |
| `TransactionWanted.NothingMissing` | lib/transaction_pkg_deps.c:355-374 | if every dependency of everything the explicit entries bring along is offered and none is held back, nothing is missing |
| `TransactionWanted.NothingMissingReachable` | lib/transaction_pkg_deps.c:355-374 | with one offered version per name it is enough that every dependency reachable in the graph of wanted packages is offered and not held back |
| `TransactionFailure.PrepareFails` | lib/transaction_prepare.c:306-341 | preparing fails only because a package brought along has a dependency that is unnamed, answered by an error, half removed, or an update offered twice, with that code, or because a chain of more than 512 packages starts at one of them, with ELOOP |
| `UtHash.AddToChain` | include/uthash.h:767-786 | the element becomes the head of its bucket chain, with links and count right |
| `UtHash.DeleteInChain` | include/uthash.h:789-803 | exactly the element leaves its chain, with links and count right |
| `UtHash.FindInChain` | include/uthash.h:745-764 | the element returned has the key and hash; none has when null is returned |
| `UtHash.ExpandBuckets` | include/uthash.h:833-883 | doubling moves every element, and no other, into the bucket its hash selects among twice as many, with chains and counts right; it counts exactly the elements beyond the ideal length, and a bucket's multiple is positive exactly for a chain beyond it |
| `UtHash.Table.Expand` | include/uthash.h:833-883 | an expansion keeps the elements and the invariant, doubles the bucket count, takes the ceiling of the mean as ideal length, and gives up doubling after two expansions in a row that left more than half of the elements beyond it |
| `UtHash.Table.ExpandIfLong` | include/uthash.h:777-786 | the array doubles exactly when the chain that grew holds ten elements for each multiple and one more, and doubling was not given up; otherwise the buckets are as they were |
| `UtHash.Table.Find` | include/uthash.h:153-172 | lookup agrees with the plain map of the contents |
| `UtHash.Table.Add` | include/uthash.h:396-421 | adding a fresh key, with or without expansion, adds it to the map and to the end of the insertion order and keeps the invariant HASH_FSCK checks |
| `UtHash.Table.Delete` | include/uthash.h:447-477 | deleting takes the element out of the map and the insertion order and keeps the invariant |
| `UtHash.ContentsWithout` | include/uthash.h:516-563 | the contents of the list without one element are the map without its key |
| `UtHashReplay.Iterate` | include/uthash.h:1056-1062 | iteration yields the keys in insertion order |
| `UtHashReplay.Replay` | include/uthash.h:396-477 | for every hash function and every sequence of adds, deletes and finds, the answers and the final order are those of a plain list |
| `FullDepTree.Search.AddDepsRecursive` | lib/package_fulldeptree.c:101-120 | a listed package changes nothing; one without noted dependents is put at the head unless it is the root; otherwise the list only grows by visited packages and then holds it |
| `FullDepTree.Search.OrderedDepends` | lib/package_fulldeptree.c:139-223 | for every relation, cyclic or not, the search terminates because unvisited packages run out and refines `Visit`; it fails only when a package it visits has a dependency the pool lacks |
| `FullDepTree.GetFullDepTree` | lib/package_fulldeptree.c:225-247 | for every relation the list is that of the search function, without repetition, and there is none exactly when a visited package is unresolvable in the pool; without cycles and with names that agree it is exactly what the root reaches except the root, each dependent before its dependencies |
| `DepTreeTheorems.TreeSound` | lib/package_fulldeptree.c:139-223 | for every relation, everything visited but possibly the root is listed, once, and is reached from the root |
| `DepTreeTheorems.LostByName` | lib/package_fulldeptree.c:195-204 | a reached package is missed only because a visited package has a dependency resolved to a package of another name than its pattern's, and a package of that name was visited |
| `DepTreeTheorems.AgreeingVisited` | lib/package_fulldeptree.c:195-205 | for every relation, what the root reaches along dependencies whose names agree is visited, whatever other dependencies there are |
| `DepTreeTheorems.TreeComplete` | lib/package_fulldeptree.c:139-223 | when whatever the root reaches is reached along dependencies whose pattern names agree with their resolutions, exactly that is visited, cycles or not |
| `DepTreeTheorems.TreeOrdered` | lib/package_fulldeptree.c:139-223 | if all names agree and there is no cycle, the root is not listed, everything else it reaches is, and every dependent comes before its dependencies |
| `DepTreeTheorems.ProviderLost` | lib/package_fulldeptree.c:200-204 | a root that needs foo>=1 and foo>=2, the latter provided by bar: bar is reached and not visited |
| `FullDepTree.FailsIffReached` | lib/package_fulldeptree.c:184-189 | when names agree that far there is no list exactly when a reached package is unresolvable |
| `Orphans.GenerateRevdeps` | lib/pkgdb.c:430-506 | the index maps a name to exactly the packages with a dependency standing for it, each once |
| `Orphans.AllSeen` | lib/package_orphans.c:115-123 | counting matches decides whether all reverse dependencies are members |
| `Orphans.FindOrphans` | lib/package_orphans.c:75-138 | the repeated passes end with the least set of automatic packages that holds every automatic package needed only by its members, without repetition |
| `Orphans.RemovalBreaksNothing` | lib/package_orphans.c:75-138 | no surviving package has a dependency that the index maps to a removed one |
| `Orphans.OnePassSuffices` | lib/package_orphans.c:154-202 | a single pass over the growing array leaves nothing out when the index agrees with the search: the result is closed, cycles or not |
| `Orphans.FindRecursiveOrphans` | lib/package_orphans.c:143-204 | recursive removal adds only what every closed superset of the named installed packages holds, and when every recorded reverse dependency is one the search follows, the result is closed under automatic, in a member's tree, and needed only by members |
| `Orphans.RelationsAgree` | lib/pkgdb.c:430-506 | when the index is the reverse of the dependency relation and names agree far enough, a package's tree is what it reaches and the index agrees with the search |
| `UtilPath.PathClean` | lib/util_path.c:66-128 | in place, an accepted path becomes `PathSpec.Clean` of itself with its NUL; a longer one is refused unchanged; bytes past the string are untouched; the terminator is written past the buffer exactly for an empty string in one byte |
| `UtilPath.Backtrack` | lib/util_path.c:94-99 | stepping back drops exactly the last element and its separator |
| `PathSpec.CleanIdempotent` | lib/util_path.c:66-128 | cleaning twice is cleaning once, and keeps whether the path is rooted |
| `PathMeaning.CleanKeepsMeaning` | lib/util_path.c:66-128 | from every directory, the cleaned path leads where the path leads, by a reading of paths that knows no cleaning |
| `PathMeaning.CleanCanonical` | lib/util_path.c:66-128 | two paths clean to the same text if and only if they lead to the same place from every directory |
| `PathSpec.CleanElements` | lib/util_path.c:66-128 | a cleaned path has no empty and no "." element, and ".." only as a leading run of an unrooted path |
| `PathSpec.CleanNoLonger` | lib/util_path.c:66-128 | cleaning never lengthens a path other than the empty one |
| `PathRelSpec.RelResolves` | lib/util_path.c:130-171 | for any two rooted paths, the relative path resolved against the directory of the first, cleaned, is the second, cleaned |
| `UtilPathRel.PathRel` | lib/util_path.c:130-171 | the scans stay inside the two cleaned strings if and only if the goal is not empty, the cleaned paths differ and they start alike; then the buffer holds as much of the relative path as fits, terminated, and the full length is returned; over-long inputs give -1 |
| `PathRelSpec.StaysInsideIff` | lib/util_path.c:147-152 | the loops as written on C strings, terminator included, stop inside both and start again inside the first exactly under that condition |
| `PathRelSpec.EqualRunsOver` | lib/util_path.c:147 | on equal strings the loop condition holds at every index up to and including the terminator |
| `PathRelSpec.ScansLeave` | lib/util_path.c:147-152 | one input for each way to leave the strings: /a and /a, an empty goal, and a and b |
| `PlistThreads.Divide` | lib/plist.c:122-142 | as many threads as allowed, or one per element if those are fewer; the slice is the largest up to 32 with which the first slices fit into the array |
| `PlistThreads.StepInv` | lib/plist.c:59-98 | every step of every thread keeps: slices disjoint, everything claimed processed or held, nothing processed twice, the counter owned by the mutex holder |
| `PlistThreads.AtMostOnce` | lib/plist.c:59-98 | over every interleaving, with any stops and failed creations, no index is processed twice and the mutex excludes |
| `PlistThreads.Processed` | lib/plist.c:144-161 | a finished run without early stops has processed exactly all but the first slices of the threads not created |
| `PlistThreads.CompleteIffAllCreated` | lib/plist.c:155-160 | everything is processed exactly when every thread was created |
| `PlistForeach.CounterBounded` | lib/plist.c:89-94 | the shared counter exceeds the element count by at most one slice per thread and one more |
| `PlistForeach.RunsEnd` | lib/plist.c:59-98 | every schedule ends within a number of steps linear in elements and threads |
| `PlistForeach.NeverStuck` | lib/plist.c:59-98 | until all threads have returned some step is possible |
| `PlistForeach.ResultReports` | lib/plist.c:188-197 | the result is 0 exactly when every call returned 0, and otherwise a code some call returned |
| `PlistForeach.SameAsSequential` | lib/plist.c:100-197 | with all threads created and no early stop the calls are those of the sequential routine as a multiset, and so is the result |
| `PlistForeach.ForeachCb` | lib/plist.c:199-229 | calls are made in order, internal keys skipped, up to and including the first that stops, whose code is returned; when none stops they are the calls `SameAsSequential` compares with |
| `RindexAdd.FindOld` | bin/xbps-rindex/index-add.c:56-76 | exactly the libraries of the index packages that the stage replaces, each with such a package |
| `RindexAdd.FindUsed` | bin/xbps-rindex/index-add.c:78-110 | exactly those that an index name requires after the merge, each with exactly its users |
| `RindexAdd.Purge` | bin/xbps-rindex/index-add.c:112-153 | exactly the libraries the given packages provide are forgotten |
| `RepoIndex.PassesFindBroken` | bin/xbps-rindex/index-add.c:56-153 | what remains after the four passes is what the index provided, the merged index does not, and a name of the index requires after the merge |
| `RindexAdd.Repodata.Commit` | bin/xbps-rindex/index-add.c:42-193 | the stage is merged exactly when nothing is broken; otherwise index and stage are kept and every broken library is reported with exactly its users; either way readers see the same |
| `RindexAdd.MergeStage` | lib/repo.c:455-490 | copying the stage over the index key by key gives the combined view |
| `RindexAdd.Repodata.Open` | lib/repo.c:517-535 | readers see the combined view, or the index alone for a remote repository without the stage flag |
| `RindexAdd.AddFile` | bin/xbps-rindex/index-add.c:195-295 | a file goes to the stage exactly when its name is new, with force, or when its version is greater than the present one's and not reverted by it, or smaller and reverts it; the combined view changes as if index and stage were one map |
| `RepoIndex.AddAllGreatest` | bin/xbps-rindex/index-add.c:230-267 | without force and reverts the view ends with an offered package of the greatest version for every name offered, and no other name |
| `RepoIndex.AddAllWinner` | bin/xbps-rindex/index-add.c:230-267 | with reverts too, what the view ends with under a name was offered, took the place of what was there by that rule, and nothing offered after it takes its place |
| `RepoIndex.AddAllForced` | bin/xbps-rindex/index-add.c:240 | with force the last package offered under a name is what the view ends with |
| `RindexAdd.Repodata.IndexAdd` | bin/xbps-rindex/index-add.c:297-367 | a bad name leaves the repository alone; otherwise readers see the files added one after the other, whether or not the stage was merged |
| `AlternativesRegistry.RemoveString` | lib/plist_remove.c:34-106 | exactly the first match goes, if there is one, and the order of the others stays |
| `AlternativesRegistry.Registry.SetPackage` | lib/package_alternatives.c:239-315 | nothing changes on ENOENT; on success the package heads each of its chosen groups with the others behind in their order |
| `AlternativesRegistry.Registry.UnregisterPackage` | lib/package_alternatives.c:332-404 | the loop refines the call on values and keeps every list non-empty and free of repetition |
| `AlternativesRegistry.Registry.RegisterPackage` | lib/package_alternatives.c:476-616 | pruning reads a null list exactly when an obsolete group is not registered; otherwise pruning and adding refine the call on values, and the provider stands behind all others of each group it joins; the registry stays well formed |
| `Alternatives.RunWellFormed` | lib/package_alternatives.c:239-616 | after any run of calls, with any link failures, every list is non-empty and free of repetition |
| `Alternatives.RunMembers` | lib/package_alternatives.c:239-616 | after any run without link failures the providers of each group are those of a plain set, and the group exists exactly when that set is not empty |
| `Alternatives.HistoryRegistered` | lib/package_alternatives.c:476-530 | after any history of installs, updates, removals and choices without link failures, every installed package provides every group it claims, so no update prunes a missing group |
| `Alternatives.FailedUpdateLosesGroup` | lib/package_alternatives.c:602-610 | an update that drops a group and cannot link another leaves the database so that the same update prunes a missing group |
| `Alternatives.PerformOthers` | lib/package_alternatives.c:239-616 | no call adds, removes or reorders providers other than its package, except that registering may promote the last provider of an obsolete group |
| `Alternatives.RegisterAppends` | lib/package_alternatives.c:566-616 | registering puts a new provider behind all others, so the head of an existing group stays, changes no other group, and reaches every group when no link fails |
| `Alternatives.PrunePromotes` | lib/package_alternatives.c:412-474 | pruning drops the package; if it was the head and has dependencies, the last of the others moves to the head and the rest keep their order |
| `Alternatives.SetMakesHead` | lib/package_alternatives.c:271-312 | setting makes the package the head of every existing group of its keys, the others keeping their order |
| `ShlibCheck.Context.CollectTransaction` | lib/transaction_check_shlibs.c:121-146 | fails exactly for an unnamed entry; otherwise collects the names touched and the libraries of the entries that stay |
| `ShlibCheck.Context.CollectInstalled` | lib/transaction_check_shlibs.c:148-174 | afterwards the libraries are exactly those offered by what stays or is untouched |
| `ShlibCheck.Context.CheckShlibs` | lib/transaction_check_shlibs.c:178-265 | the missing entries are exactly the unresolved requirements |
| `ShlibCheck.LookedAtIsAfter` | lib/transaction_check_shlibs.c:105-265 | the packages the passes look at are exactly those of the system after applying the transaction entry by entry |
| `ShlibCheck.NoneMissingIffClosed` | lib/transaction_check_shlibs.c:267-297 | nothing is missing exactly when every library required after the transaction is provided after it |
| `ShlibCheck.CheckTransaction` | lib/transaction_check_shlibs.c:267-297 | the report is empty exactly when that system is closed, and otherwise lists exactly what it lacks |
| `PkgName.IsRevision` | lib/util.c:45-54 | accepts exactly the non-empty strings of digits and underscores |
| `PkgName.ScanVersion` | lib/util.c:130-141 | accepts exactly strings with a digit before the first underscore and a revision after it |
| `PkgName.PkgVersion` | lib/util.c:118-143 | succeeds exactly for a valid pkgver, at the offset where name, dash and version meet |
| `PkgName.Name` | lib/util.c:247-282 | given room, succeeds exactly when the version is found, and leaves what stands before the dash; otherwise the buffer is untouched |
| `PkgName.SplitsOnce` | lib/util.c:118-143 | a pkgver has one name and one version |
| `PkgName.BinpkgPkgver` | lib/util.c:145-183 | yields v exactly when the file name is v, a dot, a dotless architecture and five characters, and v is a valid pkgver |
| `PkgName.BinpkgArch` | lib/util.c:185-220 | yields the architecture exactly when the file name has that shape |
| `PkgName.PathRoundTrip` | lib/util.c:319-339 | parsing a printed path gives back pkgver and architecture |

## Left out

- xbps-fbulk: scanning interleaved with completions (a parent still being scanned can be queued early by a nested `runBuilds`), log files, the counters used only for messages.
- FbulkLoops: waiting with signals pending and a failing wait are not modelled; a stray child is a child that is not on the run list.
- FbulkSettled.Quiescent: speaks of both lists being empty and not of main having returned, because the drain loop can stop earlier (see DrainStopsEarly).
- FilePlanner.Planner.CanDelete: does not claim that an accepted directory is physically empty, because nested entries are counted against direct ones.
- FilePlanner.SortItems: insertion sort stands for qsort; only the order by length is promised, as in the original comparison.
- FileCommit.CommitInstalls: why an extraction is skipped is left open, a renamed new configuration file and changes of mode or owner are not modelled.
- Planner: paths are kept absolute without the leading dot and the deleted flag of each item is a set of paths; permission and conflict messages, sizes and archive reading are not modelled.
- TransactionDepsTheorems.PreparedComplete: assumes one offered version per name, consistent answers from the repository pool, no half-removed package that is held, and that a package to be removed or held neither shares the name of one that enters nor meets one of its dependencies; dependencies of entries that are only configured are not walked, as in the original; a repository lock is part of what the pool answers.
- TransactionFailure.PrepareFails: names a reason behind every failure, not an exact condition, because an earlier entry can settle a dependency before it is looked at.
- DependencyResolver.Resolver.RepoDeps: the depth counter is a parameter, and the removal of a self-dependency from a repository's own array while it is iterated is modelled by its effect on the walk, not by aliasing.
- Conflicts, replaces and ordering checks of xbps_transaction_prepare after the head removal, and transaction size totals.
- UtHash: `hashv & (n-1)` is written as remainder for n a power of two; 32-bit overflow of counts, Bloom filter, out-of-memory recovery, sorting and in-order insertion are not modelled; key and hash of an element are fixed when it is created.
- FullDepTree.GetFullDepTree: exact dependency order is promised only without cycles and with names that agree; completeness has a sufficient condition on the input (`CoveredByNames`) and an exact account of what is missed, but no input condition that is also necessary, because what is missed depends on the order of the dependencies; packages are told apart by name, one version each; the static item table left behind by a failed call is not carried into the next call.
- Orphans.FindRecursiveOrphans: closure is promised when every recorded reverse dependency is one the search follows; the cached reverse index is rebuilt, not reused.
- UtilPath.PathClean: characters stand for bytes; other functions of lib/util_path.c (join, append, prepend) only concatenate.
- PlistForeach.CounterBounded: the counter is an unbounded number; 32-bit wrap-around cannot occur while the bound stays below 2^32.
- PlistThreads: the mutex and thread creation are taken as correct; join failures and allocation failure are not modelled.
- RindexAdd.Repodata.IndexAdd: reading archives, hashing files and writing the repository data are parameters; failures to write are not modelled; the name of the provider printed with a broken library is not part of the report.
- AlternativesRegistry.Registry.RegisterPackage: symbolic links, their paths and the overwritten pkg_alternatives pointer are not modelled; the keys of a dictionary are distinct.
- ShlibCheck.CheckTransaction: arrays hold strings only; the hash of entries is a set (the table itself is in UtHash).
- Network, archives, signatures, scripts, configuration parsing, locks, messages and the command-line front ends: foreign calls or input and output.
- xbps_cmpver, dewey_match and fnmatch are abstract: an order on versions and a match predicate.
