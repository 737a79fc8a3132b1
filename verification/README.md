# bzlhub, modelled and proved in Dafny

bzlhub mirrors, indexes and serves Bazel module registries. This project models the parts of it
that carry real invariants - concurrent walks, state machines over a shared store, optimistic
publishing, caches, diffs and orders - and proves what they keep, over every input, every run and
every interleaving. `dafny verify dfyconfig.toml` checks all of it with Dafny 4.11.

Code that changes state step by step is a class or a method with loops, and each method is proved
against a function or a predicate of its inputs and of the old state. What the repository promises
is then proved about those functions and about the state machines built from them.

| file | models |
|---|---|
| `recursive_walk.dfy` | the concurrent closure walk: a coordinator, any number of workers, two bounded channels |
| `closure_graph.dfy` | the depth-capped breadth-first closure, reverse dependencies, ingesting what is missing |
| `procurement.dfy` | the request store, the preflight pool, the admit pool, reviewers, crashes and the boot sweep |
| `procurement_steps.dfy` | what each of its steps does to rows and workers |
| `review.dfy` | why a request may be fetched |
| `retry_budget.dfy` | how many admission attempts a request gets over crashes and sweeps |
| `admit_pipeline.dfy` | one admission from fetch to publish |
| `mirror.dfy` | the metadata merge and callers of one Writer racing for it |
| `git_publish.dfy` | publishing by commit and fast-forward push, with any number of publishers |
| `publish_run.dfy` | what each publisher step does to the branch, and that publishing gets done |
| `module_diff.dfy`, `breaking.dfy` | the structural diff and the classification of breaking changes |
| `diff_exact.dfy` | both in the fields of the two reports |
| `lru.dfy` | three LRU caches and one abstract LRU, policy evaluation, the source resolver |
| `cache_lasts.dfy` | how long the two expiring caches remember |
| `cascade.dfy` | the upstream fan-out and the collision log |
| `forge_watch.dfy` | the commit watcher with its persisted cursor |
| `content_address.dfy` | integrity strings, blob names, the mirrored archive |
| `unpack.dfy` | unpacking an archive that can stop anywhere, with a completion sentinel |
| `drift.dfy` | version comparison and drift verdicts |
| `version_numbers.dfy`, `drift_exact.dfy` | numbers by their digits; the verdicts in the versions of the two sides |
| `module_listing.dfy` | the module listing and the single-module summary |
| `ordering.dfy`, `wrappers.dfy` | the byte order of strings and sorting by it; shared helpers |

## Findings

Where the code does less than, or something other than, its documentation says, the model follows
the code, a lemma shows an input, and another states exactly when the property does hold.

- The recursive walk keys `visited` by the string `name@version`. Its result is the least closed set
  exactly when no two reachable modules share that string (`RecursiveWalk.WalkIsLeastClosure`); names
  without `@` are enough (`RecursiveWalk.NoAtSignClosure`), and `a` at `b@c` against `a@b` at `c` is a
  pair that is not (`RecursiveWalk.AtSignCollides`).
- `MaxDepthReached` is documented as "stopped expanding" (`internal/api/bzlhub.go:193-197`). It is set
  exactly when something is queued at the cap (`ClosureGraph.EndLevel`), whereas something is cut off
  exactly when a key at the cap has a dependency (`ClosureGraph.CutOffExact`). A chain of ten edges
  sets the flag with nothing cut off (`ClosureGraph.SetWithNothingCutOff`); the flag is never unset
  when something was (`ClosureGraph.NothingCutOff`). Nothing about distances or dependencies alone
  decides it: two graphs with the same dependencies, listed in different orders, differ in it
  (`ClosureGraph.FlagDependsOnOrder`).
- A reviewer may deny a request that a preflight worker owns (`internal/server/request_handlers.go:396-408`),
  and some run does that (`Procurement.SomeOwnedIsDenied`); so the row is moved by its owner or by that
  denial (`Procurement.OnlyOwnerOrReviewerMoves`).
- A preflighting row whose process dies (`Procurement.SomeOrphan`) is not swept: over every run only a
  reviewer's denial moves it (`Procurement.OrphanStays`).
- The sweep of fetching rows is said to let the retry budget continue
  (`internal/store/requests.go:416-418`); an owner starts again at attempt 0. A request gets at most
  `maxRetries + 1` attempts per ownership (`RetryBudget.RunsBounded`), and stays within
  `maxRetries + 1` in all, as long as it is not swept again, exactly when the ownerships it was swept
  from had made none (`RetryBudget.BudgetExact`); one crash after one attempt is enough to exceed it
  (`RetryBudget.SomeRequestOverruns`).
- An admission reads MODULE.bazel under the prefix it detects but records the cascade's prefix when
  there is one; the two belong together for every archive exactly when the cascade supplied none
  (`AdmitPipeline.RootExact`), and for one archive as `AdmitPipeline.RootAgreesExact` says.
- Publishing a request again ends in an error, because there is nothing to commit
  (`GitPublish.RepublishHasNothingToCommit`). Whatever was committed since and whatever is in the
  worktree, that happens exactly when the tip already holds its files, lists its version and has its
  lifted fields, and no untracked leftover at a staged path is new to the tip
  (`GitPublish.NothingToCommitExact`). With such a leftover the publish goes through and commits it
  (`GitPublish.LeftoverIsCommitted`).
- Explicit paths are said to keep leftover untracked files out of a commit
  (`internal/publish/git_direct.go:164-167`). Leftovers under the module's own directory, and of the
  two fixed files, do land in it, and no others (`GitPublish.LeftoversLand`,
  `GitPublish.SomeLeftoverLands`).
- The metadata fields lifted from upstream depend on the order of two merges, exactly where their
  upstreams disagree (`Mirror.MergeCommutes`); the version list never does.
- Unknown metadata keys are said to survive from both sides (`internal/mirror/mirror.go:234-235`). Those
  of the local file do; those of upstream are dropped (`Mirror.MergeEffect`, `Mirror.UnknownDropped`).
- The cascade answers "not found" when any upstream said so, although one comment asks for all of
  them (`Cascade.AnswerExact`). Two collision tuples can share one coalescing key, so that one silences
  the other (`Cascade.KeysCollide`). Tuples with no `@` in the module and no `:` in the version never
  do (`Cascade.KeyInjective`), and every other tuple shares its key with one of those
  (`Cascade.CleanTwin`).
- Failing callbacks of the watcher do not back off geometrically: each starts from the base interval
  (`ForgeWatch.FailuresDoNotEscalate`). Outages of the forge or the store, said to be logged and
  backed off from (`internal/forgewatch/watcher.go:186-188`), leave the interval alone
  (`ForgeWatch.OutageKeepsPace`); `ForgeWatch.BacksOffExact` says which polls do back off. A
  positive base stays within its bounds exactly while the maximum is below 2^62 nanoseconds
  (`ForgeWatch.RangeExact`). A negative base is accepted, and the first idle poll goes below it
  exactly when it is at least -2^62; a lower one wraps around
  (`ForgeWatch.NegativeIntervalEscapes`), and `ForgeWatch.NegativeIdlePolls` says what any number of
  them gives.
- The version comparison is antisymmetric everywhere but not an order on mixed segments
  (`Drift.MixedCycle`), so that a list such as 2, 10, 1a has no maximum at all
  (`Drift.LatestNotMaximum`). It orders a list of versions exactly when a text segment that stands, as
  a string, between two numbers at a deciding position only ever has the lower version before it
  (`Drift.OrderExact`); versions whose segments agree in kind, such as `1.2.3.bcr.1` beside
  `1.2.4.bcr.2`, are always ordered (`Drift.SameKindsOrdered`).
- The version picked as latest is a maximum exactly when there is one, ordered list or not, as long as
  no number has a leading zero or leaves 64 bits (`Drift.LatestExact`). Beyond that a maximum can be
  missed: of 01, 1, 0a the pick is 0a, although 1 is a maximum, because 1 ties with 01 and is passed
  over (`Drift.MaximumMissed`). On any list, the pick is a maximum exactly when some maximum is above
  what was picked before its turn (`Drift.PickExact`).
- The latest upstream version is documented as empty for local-only verdicts
  (`internal/drift/per_version.go:22-25`); it is empty for every in-sync one too
  (`Drift.LatestUpstreamExact`).
- The drift of a module and of its latest version can differ on such lists (`Drift.VerdictsDiffer`);
  `Drift.VerdictsAgree` says exactly when they do not.
- The single-module summary and the listing differ in the ingestion time exactly when the latest
  row has none and an earlier row has one (`ModuleListing.SameSummary`).
- The code that unpacks accepts integrity strings that the check of a download refuses, such as one
  with a line break (`ContentAddress.LineBreakTolerated`). An accepted string can pass the check
  exactly when it has no line break and its spare bits are zero (`ContentAddress.SpellingExact`).
- A completion sentinel vouches for the whole tree exactly when no archive entry that the extraction
  comes to, nor a parent directory of one, has a sentinel's name (`Unpack.SentinelExact`). A partly
  written file (`Unpack.PartialSentinelTrusted`) and a directory (`Unpack.SentinelDirTrusted`) of that
  name are both taken for it.

## Model

| member | source | states |
|---|---|---|
| RecursiveWalk.ParseDeps | internal/ingest/recursive.go:299-315 | the loop returns the followed dependencies in order |
| RecursiveWalk.FollowedDepsExact | internal/ingest/recursive.go:299-315 | a key is followed iff the file declares it as no dev dependency, with a character that is not white space (by code point) in its name and in its version |
| RecursiveWalk.WalkOne | internal/ingest/recursive.go:212-217 | what a worker reports of a key |
| RecursiveWalk.DiscoverExact | internal/ingest/recursive.go:212-217 | which is a failure iff the fetch failed, and otherwise exactly the keys the fetched file declares for its consumers |
| RecursiveWalk.Coordinator.Enqueue | internal/ingest/recursive.go:121-132 | a new string is marked, queued and counted in flight once; a known one changes nothing |
| RecursiveWalk.Coordinator.Handle | internal/ingest/recursive.go:176-203 | one discovery leaves flight as mirrored or as an error, and its new dependencies enter |
| RecursiveWalk.StepKeeps | internal/ingest/recursive.go:82-165 | every step of coordinator and workers keeps the invariant: where each key is, the flight count, channel bounds |
| RecursiveWalk.InflightCounts | internal/ingest/recursive.go:112-165 | in every schedule, inflight is pending plus jobs plus keys being walked plus discoveries, and 0 exactly when all four are empty |
| RecursiveWalk.ChannelsBounded | internal/ingest/recursive.go:82-165 | in every schedule neither channel holds more than two items per worker |
| RecursiveWalk.NoDeadlock | internal/ingest/recursive.go:143-159 | while inflight is positive and there is a worker, some step is enabled |
| RecursiveWalk.StepDecreases | internal/ingest/recursive.go:143-203 | over a finite universe of modules every step strictly lowers a weighted count of the work left |
| RecursiveWalk.EverySchedule | internal/ingest/recursive.go:82-165 | every schedule is at most as long as that measure at the start, and while anything is in flight it can be continued |
| RecursiveWalk.Outcomes | internal/ingest/recursive.go:176-203 | at the end a key is walked exactly once if it was entered, and is then mirrored or an error by its own outcome |
| RecursiveWalk.WalkIsLeastClosure | internal/ingest/recursive.go:121-203 | the walked set is the least set with the seeds closed under followed dependencies of successful walks, iff no two reachable keys share a visited string |
| RecursiveWalk.NoAtSignInjective | internal/ingest/recursive.go:121-132 | module names without '@' never share a visited string |
| RecursiveWalk.NoAtSignClosure | internal/ingest/recursive.go:82-203 | so every finished walk whose reachable names hold no '@' walked exactly the least closed set |
| RecursiveWalk.AtSignCollides | internal/ingest/recursive.go:121-132 | two concrete keys that do, on which the walk misses a module |
| RecursiveWalk.ScheduleIndependent | internal/ingest/recursive.go:82-165 | two finished schedules with any worker counts agree on what was walked, mirrored, failed and counted |
| RecursiveWalk.RecursiveFromRegistry | internal/ingest/recursive.go:82-165 | the program, with the next goroutine chosen at random: terminates, visited = mirrored + errors, each key once, errors the failed fetches, least set with the seeds closed under the non-dev dependencies of fetched files |
| ClosureGraph.Closure | internal/bzlhub/service_closure.go:27-92 | for any graph, cycles included: the keys within 10 edges once each, nearest first, external iff nearer than 10 without a report, exactly the edges below the cap; MaxDepthReached iff level 10 of the level-by-level search has an entry |
| ClosureGraph.FollowedExact | internal/bzlhub/service_closure.go:77-88 | an edge leads to a listed dependency whose version is neither empty nor 0 |
| ClosureGraph.NextInv | internal/bzlhub/service_closure.go:53-90 | every dequeue keeps what is known of queue, distances, nodes, flags and edges |
| ClosureGraph.LoadDrops | internal/bzlhub/service_closure.go:53-90 | the weight of the queued paths drops at every dequeue although a key can be queued many times |
| ClosureGraph.NextLevel | internal/bzlhub/service_closure.go:53-90 | every dequeue keeps the queue equal to what is left of one level and the part made so far of the next, duplicates of keys with parents on one level included |
| ClosureGraph.EndLevel | internal/bzlhub/service_closure.go:59-62 | so at the end the flag is set iff an entry was ever queued at the depth cap |
| ClosureGraph.FirstAtDistance | internal/bzlhub/service_closure.go:53-57 | a key is first dequeued at its shortest distance |
| ClosureGraph.NothingCutOff | internal/bzlhub/service_closure.go:59-62 | without MaxDepthReached, the result holds the whole transitive closure, every missing report marked external, and all edges between |
| ClosureGraph.CutOffExact | internal/bzlhub/service_closure.go:59-62 | a non-stub dependency of a key within the cap is missing as an edge or a node iff some key at distance 10 has a dependency |
| ClosureGraph.SetWithNothingCutOff | internal/bzlhub/service_closure.go:59-62 | on a chain of ten edges the flag is set and nothing is missing, against internal/api/bzlhub.go:193-197 |
| ClosureGraph.FlagDependsOnOrder | internal/bzlhub/service_closure.go:53-90 | two graphs with one dependency relation, root and cap, of which only one sets the flag: a report's order decides whether a key is queued twice |
| ClosureGraph.ResultUnique | internal/bzlhub/service_closure.go:27-92 | the specification determines the nodes with their flags and the set of edges |
| ClosureGraph.ReverseDeps | internal/bzlhub/service_closure.go:111-143 | exactly the stored rows whose report lists the coordinate, each once |
| ClosureGraph.ReverseMatchesEdges | internal/bzlhub/service_closure.go:111-143 | reverse dependency and closure edge are the same relation, stubs apart |
| ClosureGraph.IngestClosureMissing | internal/bzlhub/service_closure.go:155-182 | every external coordinate of the closure is bumped exactly once, failures are collected, the counts add up |
| Procurement.RequestStore.TransitionRequest | internal/store/requests.go:335-380 | compare-and-set: a legal transition of a row in the expected state writes state and fields; anything else changes nothing and names the error |
| ProcurementSteps.LegalEdges | internal/store/requests.go:47-77 | every legal edge leads forward; from which states each state is entered; indexed and denied are the only ends |
| ProcurementSteps.TransitionExact | internal/store/requests.go:335-380 | when a transition is refused and with which error, and what it writes column by column |
| Procurement.RequestStore.ReclaimStuckFetching | internal/store/requests.go:422-441 | no row appears or goes; each fetching row older than the cutoff becomes approved at this time with its retry count kept, every other row is untouched |
| Procurement.ReclaimedExactly | internal/store/requests.go:422-441 | a sweep moves back exactly the fetching rows last updated before the cutoff and nothing else |
| Procurement.ProcessOwned | internal/admit/runner.go:304-331 | the attempts of one ownership, up to the deciding one or to cancellation |
| Procurement.AttemptsBounded | internal/admit/runner.go:304-331 | decided attempts number at most maxRetries + 1, all but the last are transient failures, and retries are attempts - 1 |
| Procurement.DefaultRetryBackoff | internal/admit/runner.go:105-119 | a fivefold step per attempt up to the cap, for any attempt number |
| Procurement.StepKeeps | internal/admit/runner.go:201-293 | every step of store, pools, reviewers, crashes and restarts keeps the invariant (what each step does is in the rows of ProcurementSteps) |
| Procurement.RunKeeps | internal/admit/runner.go:201-293 | so does every run |
| ProcurementSteps.ApproveExact | internal/server/request_handlers.go:376-384 | a reviewer approves exactly a row that needs review, and nothing else changes |
| ProcurementSteps.DenyExact | internal/server/request_handlers.go:396-408 | and denies exactly one that is pending, in preflight or in review, with the reason on the row |
| ProcurementSteps.ListExact | internal/admit/runner.go:265-293 | a pool lists pending rows, or rows let through or approved, as they are |
| ProcurementSteps.PreTryExact | internal/preflight/runner.go:139-170 | a preflight candidate is won iff it is still pending |
| ProcurementSteps.DecideExact | internal/preflight/runner.go:172-205 | the row goes to the state the verdict names, with the verdict and a denial's reason, unless a reviewer denied it first; then nothing is written |
| ProcurementSteps.AdmitTryExact | internal/admit/runner.go:265-293 | an admit candidate is won iff it is still in the state it was listed in |
| ProcurementSteps.AttemptExact | internal/admit/runner.go:304-331 | an attempt is recorded with its receipt, and is the last iff it succeeded, failed for good or used up the retries |
| ProcurementSteps.ConcludeExact | internal/admit/runner.go:333-369 | the row is indexed with the receipt's commit and integrity, or denied with the last error, with its retries counted |
| ProcurementSteps.CrashExact | internal/admit/runner.go:201-241 | a crash leaves the rows, takes the workers, and loses the audits about to be made |
| ProcurementSteps.SweepExact | internal/admit/runner.go:201-241 | the sweep takes back exactly the fetching rows older than the cutoff |
| Review.FetchedMeansReviewed | internal/preflight/runner.go:172-205 | in every run, a row in auto_pass, approved, fetching or indexed has a verdict that let it pass, or one that asked for a review and a reviewer's approval |
| Review.PublishedMeansReviewed | internal/admit/runner.go:304-331 | so has every request that ever got a publish receipt |
| Review.VerdictLands | internal/preflight/runner.go:172-205 | in every run, a verdict of a request that is not denied takes the row where it says and is on the row |
| Review.NeedsReviewStays | internal/server/request_handlers.go:368-408 | a row that needs review stays as it is over every run until a reviewer approves or denies it |
| Review.SomeReviewedIsOwned | internal/server/request_handlers.go:376-384 | a run from the empty store through review and approval to ownership |
| Procurement.AdmitOwnership | internal/admit/runner.go:265-293 | at most one live admit worker owns a request, and its row is then fetching |
| Procurement.OnlyTheOwnerConcludes | internal/admit/runner.go:304-369 | while a worker owns a request, its row is moved only by that worker's own conclusion |
| Procurement.PreflightOwnership | internal/preflight/runner.go:139-170 | at most one live preflight worker owns a request; its row is preflighting iff no reviewer denied it, and otherwise denied |
| Procurement.OnlyOwnerOrReviewerMoves | internal/preflight/runner.go:139-223 | while a preflight worker owns a request, its row is moved only by that worker's verdict or a reviewer's denial |
| Procurement.SomeOwnedIsDenied | internal/server/request_handlers.go:396-408 | a run from the empty store in which a reviewer denies a request that a preflight worker still owns |
| Procurement.SweepTakesNoOwned | internal/admit/runner.go:201-241 | the boot sweep runs while no admit worker of the process owns anything |
| Procurement.IndexedMeansPublished | internal/admit/runner.go:333-369 | a row becomes indexed only after an attempt of that ownership got a receipt, whose commit the row carries |
| Procurement.DeniedMeansExhausted | internal/admit/runner.go:421-452 | an admit denial follows a terminal error or the last allowed transient one, with the retry count recorded |
| Procurement.AuditedExactlyOnce | internal/admit/runner.go:421-465 | never two audit calls for a request; exactly one iff its end was committed, its worker is past the call and no crash came between; with the committed contents |
| Procurement.SomeRequestIsIndexed | internal/admit/runner.go:265-369 | a run from the empty store through preflight, ownership and receipt does reach an indexed row, so the results above are not about nothing |
| Procurement.EndStays | internal/admit/runner.go:333-369 | a committed end is never replaced |
| Procurement.OrphanStays | internal/preflight/runner.go:139-170 | over every run without a denial of it, a preflighting row without an owner stays one |
| Procurement.SomeOrphan | internal/preflight/runner.go:139-170 | a run from the empty store, with a crash, that reaches such a row |
| RetryBudget.RunsBounded | internal/admit/runner.go:304-331 | in every reachable state the attempts of a request are those of its swept ownerships plus those of the latest, at most maxRetries + 1 per ownership, and there is one ownership per sweep plus the open or ended one |
| RetryBudget.EndedWithinBudget | internal/admit/runner.go:421-452 | at the end the attempts are the swept ones plus the recorded retry count plus one; in all they are within maxRetries + 1 iff swept attempts plus retry count are within maxRetries |
| RetryBudget.BudgetExact | internal/store/requests.go:403-441 | a waiting request stays within maxRetries + 1 attempts in all, whatever follows short of another sweep of it, iff its swept ownerships made no attempt |
| RetryBudget.SomeRequestOverruns | internal/store/requests.go:403-441 | for any maxRetries, a run with one crash and one sweep in which a request gets maxRetries + 2 attempts |
| AdmitPipeline.Publisher.AdmitOne | internal/admit/pipeline.go:42-117 | success iff every step succeeds; a blob stays iff fetched and finalised; a publication only by the last step, with integrity, blob, prefix and MODULE.bazel of the fetched archive |
| AdmitPipeline.SourceExact | internal/admit/pipeline.go:42-59 | the request's own URL comes first; the cascade's URL brings its strip prefix |
| AdmitPipeline.DetectStripPrefix | internal/admit/sourcejson.go:61-83 | the one directory all files are under, or none |
| AdmitPipeline.TopLevelExact | internal/admit/sourcejson.go:77-83 | p is a path's top-level directory iff p holds no '/' and the path begins with p and '/' |
| AdmitPipeline.PrefixUnique | internal/admit/sourcejson.go:53-75 | at most one prefix fits, so the order of the walk does not matter |
| AdmitPipeline.RootExact | internal/admit/pipeline.go:75-87 | the published MODULE.bazel is the one at the recorded prefix for every archive iff the cascade supplied no prefix |
| AdmitPipeline.RootAgreesExact | internal/admit/pipeline.go:75-87 | for one archive they belong together iff no prefix was supplied, or the detected one, or the same file or none is at both; where all files are under one directory and another is supplied, iff the archive has no MODULE.bazel |
| Mirror.Writer.MergeMetadata | internal/mirror/mirror.go:236-293 | the file becomes the merge, or stays as it is on an error |
| Mirror.MergeEffect | internal/mirror/mirror.go:236-293 | per key: versions gain exactly the requested one and are sorted, lifted keys come from upstream, unknown keys stay |
| Mirror.MergeByKey | internal/mirror/mirror.go:211-293 | homepage, maintainers, repository and yanked versions by name; other keys; the version list as it was, or sorted with the one version added |
| Mirror.MergeFails | internal/mirror/mirror.go:236-274 | a merge fails iff the file or the upstream cannot be read or the version list is none |
| Mirror.UnknownDropped | internal/mirror/mirror.go:211-256 | upstream's other keys do not reach the file, whatever they hold: a merge depends on the lifted ones alone |
| Mirror.MergeIdempotent | internal/mirror/mirror.go:262-281 | merging one version again changes nothing |
| Mirror.NothingToMergeExact | internal/mirror/mirror.go:236-293 | a merge leaves the file unchanged iff the version is listed already and the lifted fields are upstream's |
| Mirror.MergeCommutes | internal/mirror/mirror.go:211-293 | two merges commute iff their upstreams agree on the lifted keys |
| Mirror.AllVersionsOrderFree | internal/mirror/mirror.go:262-281 | a series of merges gives one version list in every order |
| Mirror.StepKeeps | internal/mirror/mirror.go:59-68 | every lock, read and rename step of callers sharing a Writer keeps each file equal to a serial run of the renames so far |
| Mirror.RaceExact | internal/mirror/mirror.go:59-68 | what locking, reading, renaming and unlocking change, and when a lock can be taken |
| Mirror.RaceEnds | internal/mirror/mirror.go:59-68 | every run has at most four steps per caller, and one of them can move until all have returned |
| Mirror.NoLostVersion | internal/mirror/mirror.go:236-293 | at every moment of every interleaving a module lists a version iff it did at the start or a caller that has succeeded asked for it; without one it is untouched |
| Mirror.OrderFree | internal/mirror/mirror.go:59-68 | two interleavings in which the same callers succeed leave the same version list |
| GitPublish.Worktree.SyncToRemoteTip | internal/publish/git_direct.go:157-162 | the tracked paths are the tip's, with its contents; of the other paths exactly the untracked ones survive, with theirs |
| GitPublish.Worktree.WriteFiles | internal/publish/filesystem.go:43-64 | source, module file and merged metadata are written, or the metadata error is reported |
| GitPublish.MetadataExact | internal/publish/filesystem.go:43-64 | metadata that is no document makes the metadata write fail |
| GitPublish.Worktree.StageAndCommit | internal/publish/git_direct.go:168-178 | the commit's tree is the base with the staged paths, or there is nothing to commit |
| GitPublish.WrittenKeeps | internal/publish/filesystem.go:43-64 | the writes, however many get through, lose no path and no listed version, and all three publish the request |
| GitPublish.CommitKeeps | internal/publish/git_direct.go:168-174 | staging only the module's paths loses nothing of the base and keeps the publication |
| GitPublish.StagedExact | internal/publish/git_direct.go:168-174 | staged are the registry file, the ignore file and what is under the module's directory |
| GitPublish.LeftoversLand | internal/publish/git_direct.go:164-174 | a commit holds exactly the tip's paths, the written ones, and the untracked leftovers under the staged paths, each with the contents it had |
| GitPublish.SomeLeftoverLands | internal/publish/git_direct.go:164-174 | a leftover of another version of the module does land |
| GitPublish.RepublishHasNothingToCommit | internal/publish/gitops.go:50-73 | the result of writing a request, written again, leaves the tree unchanged |
| GitPublish.NothingToCommitExact | internal/publish/gitops.go:50-73 | for any worktree and tip, the commit would equal the tip iff the tip has what is asked for (same source and module file, version listed, lifted fields equal to upstream's) and every untracked leftover at a staged path is a path of the tip |
| GitPublish.LeftoverIsCommitted | internal/publish/git_direct.go:164-174 | a request that is already published goes through when a leftover at a staged path is new to the tip, and commits it |
| GitPublish.PublishLoop | internal/publish/git_direct.go:108-152 | at most two attempts, the second only after a non-fast-forward push, a receipt iff the last push was accepted |
| GitPublish.DescendantKeeps | internal/publish/git_direct.go:108-152 | along any line of descent no path and no listed version is lost |
| GitPublish.StepKeeps | internal/publish/git_direct.go:108-182 | every step of any publisher keeps the invariant and moves the tip only to a descendant (what each step does is in the rows of PublishRun) |
| GitPublish.NothingLost | internal/publish/git_direct.go:108-152 | over every run, nothing that was ever in the tip is missing from a later tip |
| GitPublish.ReceiptsHold | internal/publish/git_direct.go:108-152 | a receipt's commit stays an ancestor of the tip, and the tip keeps what it published; receipts are given as PublishRun.PushExact says |
| GitPublish.AttemptsOnFreshTips | internal/publish/git_direct.go:125-152 | each attempt commits on the tip it has just fetched, there are at most two, and a retry means the branch moved in between |
| PublishRun.SyncExact | internal/publish/git_direct.go:157-162 | the worktree becomes the tip of that moment, apart from untracked paths |
| PublishRun.WriteExact | internal/publish/filesystem.go:43-64 | path by path, what the writes that get through leave |
| PublishRun.CommitExact | internal/publish/git_direct.go:168-182 | a commit is a child of the tip that was fetched; without a change there is none |
| PublishRun.PushExact | internal/publish/git_direct.go:125-152 | the tip becomes the commit iff the push works and is a fast-forward; a receipt iff it is also acknowledged; the first attempt alone is made again, after a push that was no fast-forward |
| PublishRun.FastForwardExact | internal/publish/git_direct.go:125-152 | it is one iff the branch is where the attempt fetched it, or at the commit |
| PublishRun.PublishSucceeds | internal/publish/git_direct.go:108-152 | from any state, an idle publisher that nothing disturbs gets its receipt, with the request in the tip, unless the tip has it already and no leftover is new |
| PublishRun.RetrySucceeds | internal/publish/git_direct.go:108-152 | and one whose first push was overtaken gets it by the second attempt |
| PublishRun.SomePublishSucceeds | internal/publish/git_direct.go:108-152 | a run on an empty branch that ends with a receipt |
| Ordering.SortedUnique | internal/modulediff/diff.go:119-142 | a list is determined by its elements once it is sorted, so map order does not show |
| Ordering.BelowExact | internal/modulediff/diff.go:119-142 | a string is below another iff at their first difference its character has the smaller code, or it ends there |
| Ordering.SortByInOrder | internal/modulediff/rules.go:9-38 | sorting the records of a map by name gives one result in whatever order they came |
| ModuleDiff.DiffRules | internal/modulediff/rules.go:9-38 | the method, with keys picked in any order, computes the diff of the two name maps |
| ModuleDiff.CompareAttr | internal/modulediff/rules.go:73-94 | an attribute change with the mandatory flip, or none |
| ModuleDiff.CompareRule | internal/modulediff/rules.go:40-71 | added, removed and changed attributes in order, or none |
| ModuleDiff.DiffGroups | internal/modulediff/providers.go:9-38 | the same for providers by field and, with tag classes, for extensions |
| ModuleDiff.CompareGroup | internal/modulediff/modexts.go:39-68 | added and removed members in order, or none |
| ModuleDiff.DiffNames | internal/modulediff/diff.go:119-142 | added and removed names, sorted |
| ModuleDiff.DiffDeps | internal/modulediff/diff.go:87-115 | added, removed and re-versioned dependencies, sorted |
| ModuleDiff.Compute | internal/modulediff/diff.go:28-49 | one report for every map iteration order: a function of the two module reports |
| ModuleDiff.SwapDiff | internal/modulediff/diff.go:28-49 | swapping the sides swaps added with removed and from with to in every section |
| ModuleDiff.PatchGivesNew | internal/modulediff/rules.go:40-94 | a changed rule is a patch: applied to the old attributes it gives the new ones; no change iff they are equal |
| DiffExact.PublicRulesExact | internal/modulediff/diff.go:149-157 | a rule counts iff it is not marked private and its name does not begin with '_' |
| DiffExact.PublicNamesExact | internal/modulediff/diff.go:169-199 | so do macros, aspects and toolchains, of which only aspects go by their mark |
| DiffExact.LastCounts | internal/modulediff/rules.go:9-38 | of several entries with one name the last one counts |
| DiffExact.NamesSides | internal/modulediff/diff.go:119-142 | added is what only the second side has, removed what only the first has |
| DiffExact.DepsSides | internal/modulediff/diff.go:87-115 | the same for dependencies, and the version changes of those both have |
| DiffExact.RulesSides | internal/modulediff/rules.go:9-38 | and for rules, of which those both have are changed iff their attributes differ |
| DiffExact.RuleSides | internal/modulediff/rules.go:40-71 | and for the attributes of a changed rule |
| DiffExact.AttrChangeExact | internal/modulediff/rules.go:73-94 | which fields an attribute change holds, in which direction the mandatory mark flipped |
| DiffExact.GroupsSides | internal/modulediff/providers.go:9-66 | and for providers and extensions with their members |
| DiffExact.SectionsExact | internal/modulediff/diff.go:28-49 | which lists of the two reports each section compares |
| DiffExact.NameSections | internal/modulediff/diff.go:28-49 | hermeticity, macros, aspects and toolchains name by name |
| Breaking.ClassifyBreaking | internal/modulediff/breaking.go:67-188 | the appended findings, sorted |
| Breaking.SortFindingsSorted | internal/modulediff/breaking.go:176-188 | sorting puts them in report order and neither loses nor adds one |
| Breaking.FindingsExact | internal/modulediff/breaking.go:67-188 | a finding is reported iff the two surfaces show that break |
| DiffExact.FindingsByKind | internal/modulediff/breaking.go:67-188 | for each of the eleven kinds, when a symbol and a detail are reported, in the two reports |
| DiffExact.ReportOrder | internal/modulediff/breaking.go:176-188 | report order is that of the kinds' names, in the order given, then symbol, then detail |
| Breaking.NoFindingsMeansPreserved | internal/modulediff/breaking.go:67-188 | no findings iff compatibility levels match and every public rule, repository rule, provider and extension survives with its parts and no attribute turned mandatory |
| Breaking.EmptyVerdictsCompose | internal/modulediff/breaking.go:67-188 | two upgrades without findings make one without findings |
| Breaking.ComputeReport | internal/modulediff/diff.go:28-49 | diff and verdict together |
| Lru.EvictionOrders | internal/codenav/codenav.go:128-142 | evicting to capacity - 1 and inserting equals inserting and evicting to capacity |
| Lru.LostOnlyByOverflow | internal/backend/cache.go:108-137 | a key that is not dropped is lost only after at least capacity distinct other keys were touched since its last touch; without drops, iff |
| ResponseCache.LruCache.Get | internal/backend/cache.go:80-103 | a fresh entry is returned and moved to the front, a stale one removed, with the counters |
| ResponseCache.LruCache.Put | internal/backend/cache.go:108-137 | replace in place, or evict then insert; map and list stay in step within capacity |
| ResponseCache.HitIsLatestAndFresh | internal/backend/cache.go:80-137 | a hit returns the body of the latest accepted Put of its key, no more than its ttl ago |
| ResponseCache.RefinesLru | internal/backend/cache.go:80-137 | after any calls the list is the abstract LRU of the touches and drops they make |
| ResponseLasts.HitLasts | internal/backend/cache.go:80-137 | a key just stored or hit stays a hit until it expires, while fewer than capacity other keys come in between |
| Evaluator.CachingEvaluator.LookupCache | internal/policy/evaluator.go:142-158 | as a hit, a stale entry or a miss |
| Evaluator.CachingEvaluator.StoreCache | internal/policy/evaluator.go:160-182 | replace in place, or insert then evict |
| Evaluator.CachingEvaluator.InvalidateMaintainer | internal/policy/evaluator.go:133-140 | removes that pair and nothing else |
| Evaluator.CachingEvaluator.AllowFor | internal/policy/evaluator.go:98-128 | the verdict gate by gate, and the new cache, errors denied and not stored; an anonymous identity is allowed through an any gate only |
| Evaluator.VerdictByGate | internal/policy/allow.go:26-53 | for each gate, when the answer is yes; of a maintainer gate, from the unexpired verdict or else the source's answer |
| Evaluator.HistoryTruthful | internal/policy/evaluator.go:98-182 | in every history with invalidation after each change, a cached verdict is the table's |
| Evaluator.CacheIsTransparent | internal/policy/evaluator.go:98-182 | AllowFor equals the uncached evaluation whatever evictions and expiries occur; a source failure never allows more and leaves no verdict |
| Evaluator.UncachedByGate | internal/policy/evaluator.go:98-128 | which, gate by gate, is what the policy and the maintainer table say |
| Evaluator.HitIsRecent | internal/policy/evaluator.go:142-182 | in every history a cached verdict was got from the source no more than the ttl ago |
| Evaluator.AnswerIsCached | internal/policy/evaluator.go:142-182 | and what the source answers is used for exactly the ttl |
| Evaluator.RefinesLru | internal/policy/evaluator.go:133-182 | the list is the abstract LRU of the touches and drops |
| VerdictLasts.VerdictLasts | internal/policy/evaluator.go:142-182 | a pair just asked for keeps its verdict while fewer than cacheMax other pairs come in between |
| Resolver.SourceResolver.Resolve | internal/codenav/codenav.go:95-105 | an error for an empty coordinate, else the entry of the key |
| Resolver.SourceResolver.EntryFor | internal/codenav/codenav.go:109-121 | a resident key keeps its entry and moves to the front, another gets a new one |
| Resolver.RefinesLru | internal/codenav/codenav.go:109-142 | the list is the abstract LRU of the resolved keys |
| Resolver.SharedIffRecent | internal/codenav/codenav.go:95-142 | resolving a key again shares the first build iff fewer than the limit of other keys were resolved in between |
| Cascade.Cascade.ProbeUpstreams | internal/backend/probe.go:47-137 | tally and drain take every result exactly once; answer and log calls are those of the arrival order |
| Cascade.Cascade.DrainShadowed | internal/backend/probe.go:159-184 | one shadowed call per remaining 200, in order |
| Cascade.Cascade.CascadeGet | internal/backend/cascade.go:366-392 | the primary decides unless it has nothing; without upstreams that is "not found" |
| Cascade.Cascade.LogCollision | internal/backend/cascade.go:399-416 | fires unless the key fired within the window |
| Cascade.AnswerExact | internal/backend/probe.go:47-137 | for every arrival order and both modes: a body iff some upstream says 200, not found iff none does and some says 404, else unavailable |
| Cascade.OrderFree | internal/backend/probe.go:47-137 | order and mode decide at most which body is served |
| Cascade.CallsExact | internal/backend/probe.go:90-184 | one winner call, then one shadowed call for each other 200 when detection is on, none otherwise |
| Cascade.HookSpacing | internal/backend/cascade.go:399-416 | firings of one key are at least five minutes apart and no call is without a firing less than five minutes before it |
| Cascade.TupleSpacing | internal/backend/cascade.go:399-416 | firings of one tuple are at least five minutes apart |
| Cascade.KeyExact | internal/backend/cascade.go:404 | the key's text |
| Cascade.KeyInjective | internal/backend/cascade.go:404 | different tuples with no '@' in the module and no ':' in the version have different keys |
| Cascade.CleanTwin | internal/backend/cascade.go:404 | every other tuple shares its key with a different one of that form, so no larger set of tuples will do |
| Cascade.KeysCollide | internal/backend/cascade.go:404 | two tuples that share a key, so that the second stays unheard |
| Cascade.ExtractExact | internal/backend/cascade.go:278-307 | a module and a version are found iff the path is modules/m/v/ and something, with both non-empty |
| ForgeWatch.Normalised | internal/forgewatch/watcher.go:147-160 | the interval is never 0 and never above the maximum; a usable configuration is kept |
| ForgeWatch.DefaultsExact | internal/forgewatch/watcher.go:147-160 | a minute, five times the interval, and never below it |
| ForgeWatch.Watcher.PollOnce | internal/forgewatch/watcher.go:201-275 | new cursor, ETag, accepted commits and interval of one poll, for every failure |
| ForgeWatch.PollExact | internal/forgewatch/watcher.go:201-275 | field by field, for each answer |
| ForgeWatch.NoCommitSkipped | internal/forgewatch/watcher.go:201-275 | over every run with failing loads, listings, callbacks, saves and crashes: each commit up to the cursor was accepted, and a stored ETag names an accepted head |
| ForgeWatch.NothingHidden | internal/forgewatch/watcher.go:201-275 | an answer without commits means everything is accepted; a poll without failures ends at the newest commit |
| ForgeWatch.Redelivered | internal/forgewatch/watcher.go:241-273 | a batch that was refused or whose cursor was not saved is listed again, whole, by the next answer |
| ForgeWatch.EmptyListingTrusted | internal/forgewatch/watcher.go:227-235 | in any run, an empty listing keeps the promise iff its ETag is empty or names a commit past the baseline and not past the cursor |
| ForgeWatch.IntervalStaysInRange | internal/forgewatch/watcher.go:294-298 | in every run the interval is within its bounds |
| ForgeWatch.IdlePollsDouble | internal/forgewatch/watcher.go:294-298 | k idle polls from the base give min(2^k * base, maximum) |
| ForgeWatch.FailuresDoNotEscalate | internal/forgewatch/watcher.go:237-260 | any number of callback failures leaves one doubling of the base |
| ForgeWatch.OutageKeepsPace | internal/forgewatch/watcher.go:201-211 | any number of failed loads and listings changes nothing, the interval included |
| ForgeWatch.BacksOffExact | internal/forgewatch/watcher.go:201-275 | from the base, a poll lengthens the interval iff it got an answer that held nothing new or that the callback refused |
| ForgeWatch.RangeExact | internal/forgewatch/watcher.go:296-298 | a positive base never leaves its range iff the maximum is below 2^62 nanoseconds |
| ForgeWatch.NegativeIntervalEscapes | internal/forgewatch/watcher.go:147-160 | every negative base is accepted; the first idle poll is below it iff it is at least -2^62, and below that the doubled value wraps to 2 * base + 2^64 |
| ForgeWatch.NegativeIdlePolls | internal/forgewatch/watcher.go:294-298 | k idle polls from a negative base: 2^k times the base until that leaves 64 bits at step j; from there the capped doublings of 2^j * base + 2^64 |
| ForgeWatch.WrapsOnce | internal/forgewatch/watcher.go:294-298 | there is such a step for every negative base, and only one |
| ContentAddress.RoundTrip64 | internal/fetch/sri.go:65-67 | base64 of section 4 of RFC 4648: decoding gives back every byte string |
| ContentAddress.AlphabetExact | internal/fetch/sri.go:65-67 | the alphabet of section 4 of RFC 4648, by code points |
| ContentAddress.EncodedGroup | internal/fetch/sri.go:65-67 | three bytes and their four characters are one number of 24 bits |
| ContentAddress.EncodedRest | internal/fetch/sri.go:65-67 | and how a rest of one or two bytes is padded |
| ContentAddress.Injective16 | internal/mirror/mirror.go:171-173 | base16 of section 8 of RFC 4648: two byte strings never share a hex name |
| ContentAddress.Encode16Exact | internal/mirror/mirror.go:171-173 | two lower-case hex digits for each byte, the high one first |
| ContentAddress.VerifyingReader.Verify | internal/fetch/sri.go:42-58 | the check of what was read, with its three errors |
| ContentAddress.VerifiedExact | internal/fetch/sri.go:42-71 | the check passes iff no integrity is expected or it is the very string SRI makes of the digest |
| ContentAddress.RefusalExact | internal/fetch/sri.go:42-71 | and which of the three errors is given otherwise |
| ContentAddress.AddressesAgree | internal/codenav/unpack.go:168-181 | for every 32-byte digest, integrityToHex of the emitted string is the blob's name |
| ContentAddress.AddressDetermines | internal/codenav/unpack.go:168-181 | and of no other digest's |
| ContentAddress.CanonicalExact | internal/codenav/unpack.go:168-181 | a base64 text that decodes is the encoding of what it decodes to iff its last group has zero spare bits (section 3.5 of RFC 4648) |
| ContentAddress.SpellingExact | internal/codenav/unpack.go:168-181 | an integrity that decodes passes the check of some archive iff it holds no line break and has zero spare bits; the archive's blob is then the one it names |
| ContentAddress.LineBreakTolerated | internal/codenav/unpack.go:168-181 | an appended line break still decodes to the blob's name but does not pass the check |
| ContentAddress.BlobSink.Close | internal/mirror/mirror.go:156-186 | the blob is renamed to its digest unless that exists, or nothing changes |
| ContentAddress.Mirror.Copy | internal/ingest/recursive.go:254-257 | when nothing fails, sink and reader have hashed the same bytes, all of them |
| ContentAddress.Mirror.WalkArchive | internal/ingest/recursive.go:249-272 | verify, then finalise, then record: what one walk leaves behind, for every fault |
| ContentAddress.WalkExact | internal/ingest/recursive.go:249-272 | blob by blob and record by record: a walk changes the mirror iff the archive arrives whole, passes and is finalised |
| ContentAddress.Mirror.OpenBlob | internal/codenav/unpack.go:110-128 | a recorded module's blob is found iff its source.json has an integrity |
| ContentAddress.VerifiedIsFound | internal/ingest/recursive.go:249-272 | in any series of walks, an archive that passed the check and was finalised is found from its source.json ever after, with the digest checked |
| Unpack.Destination.UnpackSource | internal/codenav/unpack.go:90-140 | the directory after one unpacking, wherever it stops: while clearing, between entries, inside a file; it succeeds iff it was trusted or nothing stopped it |
| Unpack.UnpackedExact | internal/codenav/unpack.go:90-140 | stop by stop, what a call leaves; a trusted tree stays as it is |
| Unpack.UnpackSucceeds | internal/codenav/unpack.go:90-140 | an archive that can be extracted is, from whatever an earlier call has left, and is then trusted and whole |
| Unpack.CompleteExact | internal/codenav/unpack.go:142-149 | a tree is trusted by a file or directory of one of the two names, and no other |
| Unpack.FileExtracted | internal/archive/targz.go:55-142 | when a file can be extracted, and the files and directories afterwards |
| Unpack.DirExtracted | internal/archive/targz.go:55-142 | the same for a directory |
| Unpack.SentinelExact | internal/codenav/unpack.go:90-149 | after every series of unpackings a trusted tree is finished and is the whole archive with all contents and nothing else, iff no entry the extraction comes to has a sentinel's name as its path or a parent of it |
| Unpack.PartialSentinelTrusted | internal/archive/targz.go:142-157 | a stop inside the archive's own file of that name leaves a partial file that is trusted, even as the last entry |
| Unpack.SentinelDirTrusted | internal/codenav/unpack.go:142-149 | a directory of that name is trusted before the next entry is there |
| Drift.VersionSegs | internal/drift/drift.go:309-334 | the segments as the comparison takes them, numbers wrapped to 64 bits (what they mean is in the rows of VersionNumbers) |
| Drift.SplitExact | internal/drift/drift.go:313 | the parts hold no dot and join to the version |
| VersionNumbers.FitsExact | internal/drift/drift.go:317-326 | a numeral fits 64 bits iff it is shorter than 9223372036854775807 or as long and not above it |
| VersionNumbers.NumbersCompare | internal/drift/drift.go:288-334 | numerals that fit compare by length, then digit by digit from the front, and tie iff equal |
| VersionNumbers.TextsCompare | internal/drift/drift.go:294-307 | where one of two parts is no number they compare as strings, a missing part as the empty one |
| VersionNumbers.NextWraps | internal/drift/drift.go:317-326 | 9223372036854775808 wraps around and is below 0 |
| Drift.CompareVersions | internal/drift/drift.go:271-286 | the loop decides by the first segments that do not tie |
| VersionNumbers.NumberedCompare | internal/drift/drift.go:271-286 | versions made of such numerals compare by the first part that differs; with no further part one is below any longer one |
| Drift.Antisymmetric | internal/drift/drift.go:271-307 | on all inputs |
| Drift.SegmentsExact | internal/drift/drift.go:294-307 | on any set of segments the comparison is transitive iff two numbers with a text between them as strings are in order by value |
| Drift.OrderExact | internal/drift/drift.go:271-307 | on any list of versions it is a total preorder iff, whenever three of them tie up to a position where they have a number below a text below a number, the first is below the last |
| Drift.SameKindsOrdered | internal/drift/drift.go:271-307 | which holds where segments at one position are all numbers or all texts, missing ones allowed |
| Drift.TotalPreorder | internal/drift/drift.go:271-307 | on versions whose parts are all digits the comparison is a total preorder |
| Drift.TieExact | internal/drift/drift.go:271-307 | all-digit versions tie iff they have the same numbers |
| Drift.NumbersNotStrings | internal/drift/drift.go:294-334 | segments that fit 64 bits compare as the numbers they stand for |
| Drift.MixedCycle | internal/drift/drift.go:294-307 | 2 < 10 < 1a < 2 |
| Drift.PickLatest | internal/drift/drift.go:254-265 | the scan's pick |
| VersionNumbers.LatestOfTwo | internal/drift/drift.go:254-265 | of two single numbers the larger is picked |
| Drift.LatestExact | internal/drift/drift.go:254-265 | for versions without leading zeros and numbers beyond 64 bits, with any text segments: the pick is a member above or tied with all iff the list has such a member |
| Drift.PlainTiesAlike | internal/drift/drift.go:271-307 | because among those, versions that tie compare alike with every other one |
| Drift.PickExact | internal/drift/drift.go:254-265 | on every list: the pick is a maximum iff some maximum is first, or is above the pick of the versions before it |
| Drift.LatestIsMaximum | internal/drift/drift.go:254-265 | in particular it is a maximum on every non-empty list that the comparison orders |
| Drift.LatestNotMaximum | internal/drift/drift.go:254-265 | 2, 10, 1a has no maximum; the pick 1a is below 2 |
| Drift.MaximumMissed | internal/drift/drift.go:254-265 | 01, 1, 0a: a leading zero makes the scan pass over the maximum 1 and pick 0a |
| Drift.CompareOne | internal/drift/drift.go:193-250 | the module verdict with all its lists, for every fetch outcome |
| DriftExact.ListsExact | internal/drift/drift.go:193-250 | what is missing, newer, local only and yanked |
| DriftExact.StatusOfModule | internal/drift/drift.go:229-248 | a held yanked version decides, then a missing one above the local latest |
| DriftExact.UnansweredExact | internal/drift/drift.go:193-215 | the verdict when upstream has no such module, or fails |
| Drift.ComputeForVersion | internal/drift/per_version.go:49-76 | the version verdict |
| DriftExact.StatusOfVersion | internal/drift/per_version.go:49-76 | yanked first; then behind by the number of entries above it |
| Drift.LatestUpstreamExact | internal/drift/per_version.go:49-76 | the latest upstream version is left empty iff there is none, or the local one is not yanked and nothing upstream is above it |
| Drift.VerdictsAgree | internal/drift/per_version.go:49-76 | without yanks both count the same newer versions iff no held version is above the local latest, and have one status iff then a missing one is above it too; both always where the held versions are ordered |
| Drift.VerdictsDiffer | internal/drift/per_version.go:49-76 | holding 2, 10 and 1a with 2 upstream the module is in sync and its latest version is behind |
| Drift.LatestNotYanked | internal/drift/drift.go:220-227 | where nothing held is yanked the latest is not |
| Drift.BehindMeansNewerLatest | internal/drift/drift.go:229-248 | on versions that the comparison orders a module is behind iff the upstream latest is above the local latest |
| Drift.BehindMonotone | internal/drift/per_version.go:61-67 | on versions that the comparison orders a newer local version is never further behind |
| Drift.Summarize | internal/drift/drift.go:353-370 | the tallies are the counts per status and add up to the total |
| DriftExact.CountOfExact | internal/drift/drift.go:353-370 | a tally is the number of modules with that status |
| ModuleListing.ListModules | internal/bzlhub/service_modules.go:96-161 | the streamed entries with their last pass |
| ModuleListing.ListingExact | internal/bzlhub/service_modules.go:96-161 | on rows listed by module: one entry per module with rows, in order, equal to that module's summary |
| ModuleListing.SummaryExact | internal/bzlhub/service_modules.go:96-161 | a summary's version, count, and diff link between the last two versions that are not empty, 0 or 0.0.0 |
| ModuleListing.TimeExact | internal/bzlhub/service_modules.go:146-161 | its time in whole seconds, and that it is new iff it is the only row and at most seven days old |
| ModuleListing.CountsSum | internal/bzlhub/service_modules.go:123-143 | the version counts add up to the number of rows, in any row order |
| ModuleListing.GetModule | internal/bzlhub/service_modules.go:202-252 | the summary from rows in descending order, or not found |
| ModuleListing.NotFoundExact | internal/bzlhub/service_modules.go:202-215 | not found iff the name is empty or there are no rows |
| ModuleListing.SameSummary | internal/bzlhub/service_modules.go:202-252 | equal to the listing's entry iff the latest row's time is set or no row's is; all other fields always |
| ModuleListing.GetMatchesList | internal/bzlhub/service_modules.go:202-252 | with all times set the two operations agree for every module |

## Left out

- ClosureGraph.Closure: keys are (name, version) pairs where the code uses the string `name@version`; the two are the same for names without `@`.
- Procurement.AuditedExactlyOnce: whether the audit call's own write succeeds, and a store commit that reports an error although it was made, are not modelled.
- Procurement.ProcessOwned: one attempt is an outcome here; its steps are `AdmitPipeline.Publisher.AdmitOne`. Purging after indexing and notifications are left out.
- GitPublish.NothingLost: pushes to the branch by anyone but these publishers are not modelled; one worktree per publisher, guarded by its mutex.
- Mirror.MergeEffect: a JSON `null` document, JSON formatting and duplicate JSON keys are not modelled; fields are opaque values apart from the version list.
- Mirror.NoLostVersion: callers share one Writer, whose lock table is per process; separate Writers on one directory are not covered by the code's lock either.
- Evaluator.CacheIsTransparent: sequential histories only; a change between the table lookup and the store of its answer is not excluded by the code.
- Evaluator.CachingEvaluator.AllowFor: group gates are parsed group names; a nil policy is not modelled.
- Resolver.SourceResolver.EntryFor: builds are numbers; what a build loads, and file handles that stay open after eviction, are not modelled.
- Cascade.Cascade.ProbeUpstreams: the detached drain runs to its end before the next request; request contexts, the 5 second timeout and body size cap are outcomes of a probe; the response cache of `lru.dfy` is not in the loop.
- ForgeWatch.NoCommitSkipped: the branch is linear and only grows, and the forge answers as `ForgeWatch.Honest` says; rewritten history and paged listings are not modelled. Commits older than the first listing are the baseline.
- ForgeWatch.IdlePollsDouble: jitter of the sleep is floating point and left out.
- ContentAddress.VerifiedIsFound: SHA-256 is any function to 32 bytes, so two archives with one digest are not told apart.
- Unpack.Destination.UnpackSource: unpacking one directory from two processes at once; file modes and links; tar and zip readers are lists of entries; a source.json that changes after its tree is complete keeps serving the old tree.
- RetryBudget.BudgetExact: one process, as in `Procurement.SweepTakesNoOwned`; its sweep runs at boot, when no worker owns anything.
- Breaking.ClassifyBreaking: reason texts, migration hints and codemods are presentation; new mandatory attributes and type changes are not breaking, as in the code.
- ModuleListing.ListModules: usage counts, drift, source index flags and mirror metadata come from other reads and are not modelled.
- AdmitPipeline.Publisher.AdmitOne: the tar and gzip formats are a function from bytes to files; JSON text of source.json is a record.
- Drift.CompareOne: reading the mirror directory and fetching metadata are inputs.
- HTTP, SQLite, git and forge subprocesses, Starlark evaluation, SCIP generation, the CLI, the UI and metrics: outside the model.
