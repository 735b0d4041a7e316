# serial-sync in Dafny

serial-sync fetches serial fiction, turns chapters into EPUB files, bundles them into volumes and
delivers them to a library. This project models the parts of it where a mistake would lose a chapter,
corrupt a book or start work twice, and proves what those parts promise. `dafny verify dfyconfig.toml`
verifies the whole of it.

## What is modelled

**Delivery to a filesystem target** (`Ledger`, `Collisions`, `Reorder`, `Planner`, `Actions`, `Delivery`,
`Execution`, `Schedules`, `DeliverySafety`, `Selection`, `Executor`, `Completion`, `Resumption`, `Recovery`,
`Reuse`). A library is a map from paths to contents, a ledger of publish records and an optional pending
plan. The planner turns candidates into actions, the target orders same-path replacements with a depth-first
search, and the executor delivers behind a dependency gate and then retires old files. `Execution` is a run
of a plan as a state machine, one effect at a time: each effect is guarded by the check the executor makes
before it, a fault may end any turn and a crash may stop at any site. `Executor.Service` is the stateful
object, and every exit of its methods is a site of that machine; its `calm` says that nothing goes wrong
around it. The predicates `Delivery.Reached` (an invariant of all sites) and `Delivery.Finished` (what a
successful run has done) carry the safety results; where a property depends on the library, `Schedules`
builds the run that breaks it, so the condition in the theorem is exact. `Actions` says what a plan means for
the files and records it was made for, `Selection` and `Completion` what a success does.

**The BookOrbit runner** (`RunnerStore`, `RunnerAnswers`, `Runner`, `RunnerSafety`, `RunnerProgress`). The
receipts are a table and an event log changed by atomic transactions; `RunnerAnswers` says exactly what each
answers. Around them, wrappers, HTTP threads and orphaned commands interleave freely: one step is one
transaction, one lock operation or one process event, and any process may die. `RunnerSafety` holds in every
reachable state, and `RunnerProgress` says what can always be brought about.

**Chapter positions and volumes** (`Sequence`, `ReaderConfig`, `Placements`, `Volumes`, `VolumePlanner`,
`VolumeSafety`, `VolumeEmission`). Positions are resolved across declared books, the configuration is
validated independently, and the volume planner groups, freezes and regroups. `VolumePlanner.PlanSeries` is
the planner's loops; it computes `Volumes.Request.Planned`, which the results are about: `VolumeSafety` says
what every plan keeps, `VolumeEmission` exactly which editions it makes, keeps and removes.

**EPUB text** (`Paths`, `Identity`, `Refinement`, `Xhtml`, `XhtmlSafety`, `XhtmlAnswers`, `XhtmlText`).
Replacing a publication's identity removes whatever refines it. The renderer traverses the parsed HTML twice,
first to collect link targets and then to write; what it writes is a sequence of tags and text.

**Discovery and series index** (`Discovery`, `Matching`, `SeriesIndex`, `Labels`). Candidates detected anew
are reconciled with the ones reported before. Every release of a series gets a reader-facing index.

`Common` and `Paths` hold what several components share, among them the string order of Go's `<` and sorting.

## Assumptions

- Hashes are the bytes they digest; the publish hash is the pair it digests, and a candidate id is the text
  it digests (the source keeps 80 bits of it).
- A rename is atomic. Nobody else writes to the target during a run; a foreign file may be there before it.
- The filesystem target and its root are fixed. Candidates of one delivery have distinct artifact ids and
  destinations (see `Collisions` for the latter), and one artifact id names one artifact wherever it appears;
  records are joined with their artifacts (`Resumption.Joined`).
- Volumes carry no release id, and files with equal bytes hold equal chapters.
- The ledger keeps the order of its rows; the store lists them by date.
- A SQLite transaction is atomic, and an operating-system lock is held exactly while a process has its file open.
- Ages and clocks are left to the environment: any queued run may count as stale at any time.

## Results about the code that differ from its comments

- `internal/sequence/series_index.go` says that a new release never relabels an earlier one. That holds
  exactly when the series is indexed by release (`OnlyReleaseOrderIsSafe`), and otherwise as long as the mode
  and the per-book flag stay (`LaterReleasesKeepLabels`). `ChapterRelabelsStory` is a concrete case.
- `internal/publish/filesystem.go` orders replacements of volumes only, which is enough for them
  (`VolumesAreGuarded`). A chapter stays readable in every run of a plan if and only if it is guarded: whatever
  can take its file's place carries it, or comes after something that does (`ReadableExactlyWhenGuarded`).
  A single chapter need not be: `Reuse.RenamedChapterIsLost` is a concrete library.
- An interrupted replacement in place does not simply resume: the rerun may refuse to retire the old record.
  A plan in which nothing is blocked can be run again from everywhere a run of it can stop if and only if it
  is `Resumable` (`ResumesExactly`), which it is without path reuse (`NoReuseIsResumable`) and never is when
  a volume's file is replaced by other bytes (`ReplacedVolumeNeverResumes`). A record refused once is
  accepted after one more run if and only if the candidate in its place can be delivered and then speaks for
  its bytes, as a chapter of the same release does (`RecoversExactly`); a volume is refused by every later
  plan (`ReplacedVolumeNeverRecovers`). `Reuse.RebuiltVolumeBlocks` is a concrete library.
- A run marked interrupted is not executing, then or later, unless the mark is the report of a wrapper that
  failed while its command lives; such a mark never means that (`InterruptedIsOver`,
  `InterruptedNeverExecutes`). `EarlyReportHappens` is such a behaviour of five steps.
- The text of a page is the same in EPUB 2 and EPUB 3 up to white space at its ends, and with it if and only if
  equally much white space lies outside all tags in both (`SameTextExactly`). It may not, for EPUB 2 wraps what
  EPUB 3 unwraps and the body is trimmed (`BlanksDiffer`).

## Model

| member | source | states |
|---|---|---|
| Ledger.UpsertDelivery | internal/store/sqlite/sqlite.go:491-517 | writing a candidate's record changes one row, keeps its id, keeps the uniqueness of artifact and publish hash, and leaves every other row alone |
| Ledger.UpsertExisting | internal/store/sqlite/sqlite.go:491-517 | writing back a record that is already there changes only its status, in place |
| Collisions.ResolveCollisionNames | internal/app/replacement.go:16-43 | succeeds exactly when the names, with every colliding one tagged by its release, are distinct ignoring case; then these are the names |
| Collisions.ResolvedNamesAreDistinct | internal/app/replacement.go:34-42 | names that pass give every candidate its own destination |
| Collisions.NamesIgnoreOrder | internal/app/replacement.go:16-33 | the name of a candidate does not depend on the order of the candidates |
| Collisions.NamedExactly | internal/app/replacement.go:18-33 | a candidate keeps its name unless another one lands at the same path ignoring case; then the tag of its release stands before the extension and nothing else changes |
| Collisions.ResolvedExactly | internal/app/replacement.go:34-42 | naming fails exactly when two of the new names still land at one path ignoring case |
| Reorder.Reorder | internal/publish/filesystem.go:81-145 | succeeds if and only if every chapter of every overwritten volume has a candidate and the dependency graph has no cycle; the order is then a permutation with each dependency first, in which nothing comes before a candidate listed earlier unless that one or one listed before it needs it; otherwise the error names the fault that is there |
| Reorder.Sorter.Visit | internal/publish/filesystem.go:119-138 | ends because the call chain is a path of distinct nodes; on success the node is ordered after all it depends on and nothing else is, and rejection means the graph has a cycle |
| Reorder.Sorter.VisitAll | internal/publish/filesystem.go:129-134 | all dependencies of a node are ordered before the node |
| Reorder.TopologicalMeansAcyclic | internal/publish/filesystem.go:71-75 | an order with every dependency first exists only for a graph without cycles |
| Reorder.Dependencies | internal/publish/filesystem.go:82-117 | each candidate waits for exactly the other candidates that carry chapters of volumes it overwrites, or some such chapter has no candidate |
| Reorder.Collect | internal/publish/filesystem.go:101-117 | the same for one candidate over all records |
| Reorder.MemberIndex | internal/publish/filesystem.go:83-88 | the index lists the members of all editions of an artifact |
| Reorder.ReleaseIndex | internal/publish/filesystem.go:89-100 | the index names the last candidate that carries a release, as a single or in a volume |
| Planner.OwnedHashesForPath | internal/app/replacement.go:145-153 | exactly the hashes of published and publishing records at a path |
| Planner.RetirementOwnedHashes | internal/app/replacement.go:132-143 | a record's own hash and, for a single release only, those published at its path for that release |
| Planner.Decide | internal/app/transitions.go:108-125 | the action for one candidate: blocked by bytes nobody owns, unchanged or repaired against the first exact record, else replace or add; an unchanged record's key is kept |
| Planner.IsComplete | internal/app/transitions.go:139-149 | a record is complete when the members of its edition, or its release, are covered |
| Planner.PlanRetirements | internal/app/transitions.go:135-200 | retires exactly the published, undesired, covered records whose bytes are owned, and blocks the others |
| Planner.DecideAll | internal/app/transitions.go:80-131 | every candidate gets its own action, and the desired keys and covered releases are exact |
| Planner.PlanDelivery | internal/app/transitions.go:67-202 | there is a plan exactly when the candidates can be ordered, and it has the order, as listed where nothing needs another, and the dependencies, actions and retirements the library calls for |
| Actions.ActionExactly | internal/app/transitions.go:90-125 | a candidate is blocked exactly when no live record vouches for the bytes at its destination; otherwise unchanged or repaired when this release was published there with these bytes and they are or are not there, replaced when anything else is published there, and added when nothing is |
| Actions.RetiresExactly | internal/app/transitions.go:135-200 | a record is retired exactly when it is published, no candidate is or keeps its output, all its chapters are in candidates, and nothing lies there but its own bytes or those of a published record of its release |
| Actions.UnblockedExactly | internal/app/transitions.go:90-184 | a plan has nothing blocked exactly when every destination is vouched for and everything to retire can be removed |
| Actions.RescuedIs | internal/publish/filesystem.go:101-110 | the order is refused for a missing chapter exactly when some candidate would overwrite a volume with a chapter that no candidate has |
| Actions.WaitsExactly | internal/publish/filesystem.go:101-117 | a candidate waits exactly for the last other candidates that carry a chapter of a volume it would overwrite |
| Delivery.DeliveryRowStep | internal/app/delivery.go:280-285 | writing a delivery's record stays within what the plan may do and loses no other candidate's record |
| Delivery.WriteStep | internal/publish/filesystem.go:179-187 | behind its record and its dependencies, a write stays within what the plan may do and damages no other candidate's file |
| Delivery.RemoveStep | internal/publish/filesystem.go:201-218 | removing a retired file stays within what the plan may do and damages no candidate's file |
| Delivery.SupersedeStep | internal/app/transitions.go:287-290 | superseding a retired record changes that row only |
| Delivery.ReachedSpares | internal/publish/filesystem.go:224-233 | at every step, a file that no live record and no candidate accounts for is as it was |
| Executor.Service.Upsert | internal/store/sqlite/sqlite.go:491-517 | the ledger becomes the upserted one |
| Executor.Service.DeliverCandidate | internal/app/delivery.go:273-287 | wherever a delivery stops is a site of the run; reported as delivered, the file is intact and its record may be published; without faults it is delivered |
| Executor.Service.DeliverOne | internal/app/delivery.go:123-234 | one turn of the loop: done adds the candidate to the delivered ones, it waits exactly when the gate is closed and is skipped exactly when blocked behind an open one, and every exit is a site of the run; without faults what may be written is done |
| Executor.Service.DeliverAll | internal/app/delivery.go:123-240 | unless the run is cut short every candidate has its turn, success means every one is delivered and recorded, and nothing waits unless something was blocked or failed; without faults a plan that nothing blocks is delivered |
| Executor.Service.RetireOne | internal/publish/filesystem.go:201-218 | a retired record is superseded once its file is gone or a candidate lives there; every exit is a site of the run; without faults it is retired |
| Executor.Service.ApplyRetirements | internal/app/transitions.go:260-293 | unless the process dies every retirement has its turn, success means every one is superseded, and without faults it succeeds |
| Executor.Service.RunPlan | internal/app/delivery.go:89-246 | every exit is a site of the run of this plan, and on success the plan is finished; a candidate waits only if something else failed; without faults a plan that nothing blocks succeeds |
| Executor.Service.PlanOrResume | internal/app/transitions.go:204-254 | the plan fits the current library; the saved candidates are planned again unless their order has a cycle by now, and then the saved plan is dropped; a plan is saved exactly when it was saved before, has effects or runs hooks; without faults there is a plan exactly when there is an order |
| Executor.Service.NeedsRecovery | internal/app/transitions.go:237-245 | a plan is saved exactly when it retires something, runs hooks or does anything but skip |
| Executor.Service.Execute | internal/app/delivery.go:41-268 | success means the last plan finished, nothing is left pending, and every selected candidate lies at its destination in the bytes selected with a published record; without faults it succeeds if and only if the last plan has an order and nothing blocks it; in every case foreign files are spared |
| Executor.GateOpens | internal/app/delivery.go:123-136 | in the planned order, a candidate never waits for a later one as long as nothing failed |
| Selection.SameDeliveryExactly | internal/app/transitions.go:323-335 | two deliveries are the same exactly when they have equally many candidates alike any one in artifact, bytes, name, place and whether it is still to be built |
| Selection.AnyOrderIsSame | internal/app/transitions.go:331-334 | every permutation of a selection is the same delivery |
| Selection.SelectedInPlace | internal/app/delivery.go:258-260 | when a finished plan counts as the delivery of a selection, every selected candidate is intact at its destination with its published record |
| Completion.CanFinish | internal/app/delivery.go:89-246 | every sound plan that nothing blocks has a run to the end that delivers every candidate and supersedes every record to retire |
| Schedules.DeliverWanted | internal/app/delivery.go:123-240 | any set of candidates that is not stuck and needs nothing else can be delivered by a run in which all others fail |
| Schedules.CanReplace | internal/app/delivery.go:123-240 | a candidate whose needs are not stuck can be written while everything it does not need is untouched, and the run stop right after |
| Schedules.RetireOthers | internal/app/transitions.go:260-293 | a run can stop with every planned record superseded but any one |
| Execution.ActsOn | internal/app/delivery.go:79-101 | the executor acts on each candidate as planned, unless a blocked retirement of the same artifact shadows it |
| Execution.OpenMeansReady | internal/app/delivery.go:125-136 | behind an open gate everything the candidate waits for, directly or through others, is in place and none of it is stuck |
| Execution.EffectKeeps | internal/app/delivery.go:102-246 | every effect of a run keeps what the plan may do, the dependency order, and that no record is superseded before every delivery succeeded |
| Execution.StopsKept | internal/app/delivery.go:89-246 | so it holds wherever a run of the plan can stop |
| DeliverySafety.ChaptersStayReadable | internal/app/delivery.go:102-246 | at every step of a plan, each guarded chapter whose published file was intact at the start is in that file or in a delivered candidate |
| DeliverySafety.VolumesAreGuarded | internal/publish/filesystem.go:81-145 | the order of delivery guards every chapter of every volume |
| DeliverySafety.ReadableExactlyWhenGuarded | internal/publish/filesystem.go:83-117 | a chapter stays readable wherever a run of the plan can stop if and only if it is guarded |
| DeliverySafety.UnguardedIsLost | internal/publish/filesystem.go:83-117 | any other chapter is in no candidate, and its file replaced, where some run of the plan can stop |
| DeliverySafety.OverwrittenIsCovered | internal/publish/filesystem.go:101-117 | what overwrites a volume carries each of its chapters or waits for a candidate that does |
| DeliverySafety.RetiredIsCovered | internal/app/transitions.go:135-152 | bytes are retired only when candidates cover all their chapters |
| DeliverySafety.FinishedIsFixpoint | internal/app/transitions.go:67-202 | planning the delivered candidates again finds every one unchanged and nothing to retire |
| DeliverySafety.ForeignFileSurvives | internal/publish/filesystem.go:167-233 | over any number of runs and crashes, a file no record and no candidate accounts for stays as it is |
| DeliverySafety.FinishedFreePath | internal/app/transitions.go:260-293 | away from the candidates' paths a finished plan removes exactly the superfluous files |
| DeliverySafety.InterruptionsConverge | internal/app/transitions.go:204-293 | stopped anywhere any number of times and then finished leaves the same files as finished at once |
| Resumption.ResumesExactly | internal/app/transitions.go:179-232 | a plan in which nothing is blocked can be planned again, unblocked, from everywhere a run of it can stop if and only if it is resumable; its order never stands in the way |
| Resumption.ResumableMeansUnblocked | internal/app/transitions.go:179-184 | no retirement comes to be refused where candidates and superfluous records at one path agree on who owns its bytes |
| Resumption.WrittenIsDisowned | internal/app/transitions.go:179-184 | stopped after the rename and before the published record, the rerun refuses to retire a record that only that row could vouch for |
| Resumption.CleanedIsDisowned | internal/app/transitions.go:179-184 | stopped when the other records are superseded, the rerun refuses to retire a record that only they vouched for |
| Resumption.ReplacedVolumeNeverResumes | internal/app/replacement.go:132-143 | a plan that puts other bytes in the place of a delivered volume is never resumable: no record vouches for a volume |
| Resumption.NoReuseIsResumable | internal/app/transitions.go:179-184 | a plan in which no candidate takes another artifact's path always is |
| Recovery.RecoversExactly | internal/app/transitions.go:179-184 | a record refused in the place of a candidate is no longer refused after some stop of one more run if and only if the candidate can be delivered and has the record's bytes or release, or another record vouches for it |
| Recovery.RefusedForGood | internal/app/replacement.go:132-143 | if the candidate does not speak for its bytes, every later plan for the same candidates refuses the record, over any number of runs stopped anywhere |
| Recovery.ReplacedVolumeNeverRecovers | internal/app/replacement.go:132-143 | so a run that replaces a volume's file can stop where the old record is refused for good |
| Resumption.RerunOrderable | internal/publish/filesystem.go:81-145 | the order that existed for the plan exists for the rerun from any state |
| Resumption.RerunIdentifies | internal/app/transitions.go:108-125 | no candidate comes to be blocked by an interruption |
| Resumption.InterruptionNeverBlocks | internal/app/transitions.go:204-232 | when no candidate takes another artifact's path, the rerun after an interruption is neither blocked nor rejected |
| Reuse.RebuiltVolumeBlocks | internal/app/transitions.go:179-184 | one volume rebuilt under its old name: the plan is sound and unblocked, and a run of it can stop where this and every later rerun is blocked |
| Reuse.RenamedChapterIsLost | internal/publish/filesystem.go:83-117 | one chapter that takes another's name: the plan is sound and unblocked, and a run of it can stop where the old chapter is gone |
| RunnerStore.Store.CompleteRun | integrations/bookorbit/runner/store.py:109-112 | completing keeps the journal's invariant and only advances it: an ended run never changes, has one completion event, and a second completion does nothing unless the first was refused for its expected state |
| RunnerStore.Store.ReserveRun | integrations/bookorbit/runner/store.py:55-64 | returns the run of a known key, refuses while any run is active, else queues a new one |
| RunnerStore.Store.ClaimRun | integrations/bookorbit/runner/store.py:71-86 | interrupts every running run, then starts the queued run of a manual key or a new one |
| RunnerStore.Store.RecordBusy | integrations/bookorbit/runner/store.py:88-98 | ends the queued run of a manual key, or a new run, as busy |
| RunnerStore.Store.ActiveRuns | integrations/bookorbit/runner/store.py:114-116 | exactly the queued and running runs |
| RunnerStore.CompleteKeeps | integrations/bookorbit/runner/store.py:109-112 | at most one queued, at most one running, keys unique, one completion event exactly for ended runs; ended runs stay ended |
| RunnerStore.ClaimKeeps | integrations/bookorbit/runner/store.py:71-86 | the same for a claim, which interrupts exactly what was running and takes a run that was queued or new |
| RunnerStore.LockBusyKeeps | integrations/bookorbit/runner/store.py:88-98 | the same for a busy receipt |
| RunnerStore.ReserveKeeps | integrations/bookorbit/runner/store.py:55-64 | the same for a reservation |
| RunnerAnswers.ClaimExactly | integrations/bookorbit/runner/store.py:71-86 | a manual claim returns a run if and only if that run has the key and is queued, any other claim always returns a new run; the claimed run is running with its event, what was running is interrupted with its event, and every other run is as it was |
| RunnerAnswers.ReserveExactly | integrations/bookorbit/runner/store.py:55-64 | a known key is answered with its run and changes nothing; a new key is refused exactly while some run is queued or running, else it gets a new queued run |
| RunnerAnswers.LockBusyExactly | integrations/bookorbit/runner/store.py:88-98 | a turned-away request ends as busy exactly when it was queued, a turned-away schedule leaves a new busy run, and nothing else changes |
| RunnerAnswers.CompleteExactly | integrations/bookorbit/runner/store.py:109-112 | a completion changes exactly the run it names, exactly when it is queued or running and in the expected state, and then logs it once |
| Runner.ActKeeps | integrations/bookorbit/runner/execution.py:45-113 | whatever a wrapper does keeps the receipts sound, and a manual command always has the durable run of its request |
| Runner.LockStep | integrations/bookorbit/runner/execution.py:12-34 | the lock is held by exactly the process that has its file open, also after its parent died |
| Runner.ProbeFindsOver | integrations/bookorbit/runner/runner.py:38-44 | with the lock free, a run seen running is over for good |
| Runner.OverStays | integrations/bookorbit/runner/runner.py:41-44 | a run that is over stays over under every step of anybody |
| Runner.InvStep | integrations/bookorbit/runner/execution.py:45-105 | every step of every process keeps the protocol's invariant |
| Runner.ReachableInv | integrations/bookorbit/runner/execution.py:45-105 | the invariant holds in every reachable state |
| RunnerSafety.OneCommandAtATime | integrations/bookorbit/runner/execution.py:45-60 | in every reachable state at most one command executes, and its process holds the lock |
| RunnerSafety.KeyStartsOnce | integrations/bookorbit/runner/store.py:71-86 | each manual request key starts its command at most once, under the durable run of that key |
| RunnerSafety.InterruptedIsOver | integrations/bookorbit/runner/runner.py:30-44 | a run marked interrupted is over at that moment if and only if the mark is not a wrapper's report on its living command |
| RunnerSafety.InterruptedNeverExecutes | integrations/bookorbit/runner/runner.py:30-44 | marked by reconciliation, by a claim or by its own wrapper afterwards, no command of the run executes then or ever after |
| RunnerSafety.JournalAdvances | integrations/bookorbit/runner/store.py:55-112 | over every behaviour at most one run is queued and one running, ended runs stay as they ended, none is queued again, and exactly ended runs have their one completion event |
| RunnerSafety.EarlyReportHappens | integrations/bookorbit/runner/execution.py:107-110 | a behaviour of five steps in which a wrapper reports the run interrupted and the command goes on |
| RunnerProgress.RequestCompletes | integrations/bookorbit/runner/execution.py:45-105 | in every state of the protocol with the lock free, a queued request whose wrapper waits can be claimed, run its command once under its receipt, and end with any outcome logged |
| RunnerProgress.ReconcileClears | integrations/bookorbit/runner/runner.py:30-44 | with the lock free, reconciliation can end as interrupted exactly the runs that are marked running or stale in the queue |
| Sequence.SortBooks | internal/sequence/sequence.go:82-83 | the books in number order |
| Sequence.ByNumberSorts | internal/sequence/sequence.go:82-83 | number order is a permutation in ascending numbers |
| Sequence.Resolve | internal/sequence/sequence.go:62-136 | the running position of the loop is the start each book has by its declarations and its predecessors; a book of the input shows in the origin unless overridden |
| Sequence.PlaceIn | internal/sequence/sequence.go:97-123 | range check, position and overlap with later declared starts, for the matching book |
| Sequence.LaterBooksStartLater | internal/sequence/sequence.go:85-130 | every later book with a known start begins after a chapter that passed the overlap check |
| Sequence.PlacedInOrder | internal/sequence/sequence.go:105-119 | known positions increase with the book and the chapter |
| Sequence.PositionsEmbedOrder | internal/sequence/sequence.go:62-136 | across explicit starts, continued ranges, number gaps and open ends, (book number, chapter) order is position order |
| Placements.WithoutBook | internal/sequence/sequence.go:62-80 | outside books an integral chapter is at its own number and anything else at 0, and exactly a chapter past a declared final one stays a single for that reason; nothing else changes |
| Placements.UndeclaredBook | internal/sequence/sequence.go:131-135 | a release of a book nobody declared has no position, needs that book's range, and is kept under the given id or the book's number |
| Placements.PlacedExactly | internal/sequence/sequence.go:82-123 | in an accepted series a release of a declared book is out of range, or without position for its half or part, or at the book's start plus its place in the book, where the start is what the declarations say in whatever order they come; the input's book shows in the origin unless overridden; unknown starts and later books that it runs into give their reasons |
| ReaderConfig.ValidateGaps | internal/config/reader.go:132-144 | accepts exactly reasoned gaps in range, each once |
| ReaderConfig.ValidateBook | internal/config/reader.go:58-91 | accepts exactly a sound range that starts after the previous one ends, and computes its end |
| ReaderConfig.Validate | internal/config/reader.go:30-130 | accepts exactly the declarations with known styles, unique, sound books in increasing ranges whose labels have a source, inputs of declared books, and overrides that name each release once and each chapter of a book once |
| ReaderConfig.ValidateBooks | internal/config/reader.go:41-92 | accepts exactly the layouts of unique, sound books with increasing ranges |
| ReaderConfig.ValidateOverrides | internal/config/reader.go:101-129 | accepts exactly sound overrides with distinct releases and distinct chapter slots |
| ReaderConfig.SlotsAreChapters | internal/config/reader.go:122-127 | two overrides share a slot exactly when they name one chapter of one book |
| ReaderConfig.RangesIncrease | internal/config/reader.go:75-88 | accepted books occupy disjoint, increasing ranges of positions |
| ReaderConfig.RefusedExactly | internal/config/reader.go:50-92 | a layout is refused exactly for a book that is wrong by itself, a repeated id or number, or a book declared to start within an earlier one |
| ReaderConfig.AcceptedExactly | internal/config/reader.go:30-130 | the accepted declarations, field by field as they are written, with what may be left out |
| ReaderConfig.ResolverAgrees | internal/sequence/sequence.go:84-130 | wherever resolution knows a book's start it is the validator's, and it knows it exactly when the start is declared or follows bounded books |
| ReaderConfig.InRangePosition | internal/sequence/sequence.go:97-123 | a chapter in a bounded, accepted book gets its declared position exactly when the book's start is known, and is never rejected |
| ReaderConfig.EveryChapterPlaced | internal/config/reader.go:50-92 | with bounded books numbered from 1 every integral chapter in range gets a positive position |
| ReaderConfig.OverlapNeedsOpenEnd | internal/sequence/sequence.go:108-119 | in an accepted series the overlap rejection happens only in books without a declared end |
| VolumePlanner.IsMixed | internal/app/volumes.go:221-245 | finds exactly whether an active edition has chapters both in and out of scope |
| VolumePlanner.PlanSingles | internal/app/volumes.go:248-279 | without bundling, a rebuild retires exactly the selected editions all of whose chapters can stand alone, and fails for the others |
| VolumePlanner.GroupChapters | internal/app/volumes.go:283-345 | every groupable chapter is in its group, in order, and no other |
| VolumePlanner.Overlaps | internal/app/volumes.go:354-371 | finds exactly whether a chapter of the group is frozen in another group's edition |
| VolumePlanner.Scan | internal/app/volumes.go:372-400 | usable and distinct chapters, selected and excluded sources, numbers present |
| VolumePlanner.Account | internal/app/volumes.go:405-422 | nothing is missing exactly when every expected chapter is present or a reasoned gap, and the gaps are noted in order |
| VolumePlanner.Build | internal/app/volumes.go:439-498 | the edition of a complete group, named, titled, noted and indexed by its chapters, unless the active one is frozen: in an ordinary sync, or when recipe, members and archive are unchanged |
| VolumePlanner.PlanGroup | internal/app/volumes.go:351-499 | a group fails, stays or is built exactly when the definition says so |
| VolumePlanner.PlanVolumes | internal/app/volumes.go:346-507 | new editions, retirements and failures over all groups |
| VolumePlanner.PlanSeries | internal/app/volumes.go:203-508 | the loops compute the plan the safety results are about |
| VolumeSafety.ByNumberSorts | internal/app/volumes.go:439-441 | sorting keeps the chapters and puts them in chapter order |
| VolumeSafety.FrozenDisjoint | internal/app/volumes.go:354-371 | in an ordinary sync a new edition shares no chapter with an active one |
| VolumeSafety.OutOfScopeDisjoint | internal/app/volumes.go:221-245 | on a rebuild a new edition shares no chapter with an edition out of scope |
| VolumeSafety.RetainedDisjoint | internal/app/volumes.go:465-480 | on a rebuild a new edition shares no chapter with one that is kept |
| VolumeSafety.PlanKeepsDisjoint | internal/app/volumes.go:203-508 | after any sync or rebuild of any scope the active editions share no chapter |
| VolumeSafety.OrdinarySyncOnlyAdds | internal/app/volumes.go:465-480 | an ordinary sync removes and replaces no active edition |
| VolumeSafety.SyncsStayDisjoint | internal/store/sqlite/volumes.go:43-73 | over any sequence of syncs and rebuilds, activated or not, the active editions stay disjoint |
| VolumeSafety.RangeHolds | internal/app/volumes.go:303-307 | a chapter up to the final one lies in the range computed for it, clipping included |
| VolumeSafety.RangesPartition | internal/app/volumes.go:303-308 | ranges partition the chapters: whatever lies in a chapter's range has the same range |
| VolumeSafety.ChapterInExtent | internal/app/volumes.go:303-337 | a grouped chapter with a known position lies between the first and last chapter of its group |
| VolumeSafety.PositionsIncrease | internal/app/volumes.go:439-445 | within a group positions increase with chapters |
| VolumeSafety.EmittedIsExact | internal/app/volumes.go:372-444 | with the group's chapters placed by Resolve, members of an emitted edition strictly increase in chapter and position, and first to last is the disjoint union of the member chapters and the noted gaps, each declared with a reason |
| VolumeEmission.DueIs | internal/app/volumes.go:372-438 | a group is complete exactly when all its chapters are EPUBs of selected sources with known positions, none legacy but on a rebuild, no number twice, every expected number there or a reasoned gap in a declared book or a series without books, and in an ordinary sync none is in another group's edition |
| VolumeEmission.PlanExactly | internal/app/volumes.go:346-507 | a bundling plan makes exactly the editions that are due and do not stay, fails exactly for a missing input or a group partly out of scope, and a rebuild that does not fail removes exactly the selected editions no longer due |
| VolumeEmission.BlockedExactly | internal/app/volumes.go:221-247 | a plan is refused as a whole exactly when a rebuild has an edition partly in scope, or bundling has no volume size |
| VolumeEmission.UnbundledExactly | internal/app/volumes.go:248-279 | without bundling a rebuild removes exactly the selected editions whose chapters are stored and selected, and fails exactly when there is another |
| VolumeEmission.EditionSays | internal/app/volumes.go:439-498 | an edition holds exactly the chapters of its group as they are stored, each with its reading copy, and has the source, index and publication of the chapter with the least number |
| VolumeEmission.EditionNamed | internal/app/volumes.go:303-339 | a range is named and headed by its number and ends, a book by the number of its first listed chapter and its declared title or range |
| VolumeEmission.OnlyEpubsAreBundled | internal/app/volumes.go:372-400 | whatever is in a new edition is a stored EPUB of a selected source, with its position known |
| VolumeEmission.DueIsBundled | internal/app/volumes.go:465-499 | after a plan that did not fail every complete group has an active edition |
| VolumeEmission.ActivatedExactly | internal/store/sqlite/volumes.go:43-73 | activating a plan takes its editions and drops exactly what it removes; a plan that failed changes nothing |
| Identity.RelativeTarget | internal/artifact/metadata.go:119-128 | a relative reference names an id of the package exactly when its path leads back to the package document |
| Identity.OpfMetadata.DropNames | internal/artifact/metadata.go:136-144 | titles and creators go, everything else stays in order, and their ids are returned |
| Identity.Filter | internal/artifact/metadata.go:147-173 | one pass removes only what has to go, and if it removes nothing there is nothing to remove |
| Identity.OpfMetadata.Pass | internal/artifact/metadata.go:145-177 | the same for metas and then links |
| Identity.OpfMetadata.SetElement | internal/artifact/metadata.go:183-192 | sets the first element of a name or appends one |
| Identity.OpfMetadata.ReplacePublicationIdentity | internal/artifact/metadata.go:117-181 | ends, having removed exactly the metas and links of the least closed set of ids; the rest keeps its order and the new title and creator follow |
| Identity.LeastClosedIsClosed | internal/artifact/metadata.go:145-177 | the set contains the ids of all that goes and is part of every such set |
| Identity.LeastClosedIsReached | internal/artifact/metadata.go:145-177 | it is what chains of refinement reach from titles, creators and sort keys |
| Identity.StableIsLeast | internal/artifact/metadata.go:174-176 | a pass that changes no length has reached the least closed set |
| Identity.ReplacedOnce | internal/artifact/metadata.go:117-181 | nothing kept refines a removed id, and replacing again removes nothing |
| Refinement.ReplacedExactly | internal/artifact/metadata.go:117-181 | what stays, each list in its order, is the elements that are no title or creator, followed by the new ones, and the metas and links that are no calibre sort key and describe nothing that goes, by id or by a path back to the package, directly or through others |
| Refinement.WithElementExactly | internal/artifact/metadata.go:183-192 | setting a name changes the value of its first element and nothing else, or adds one at the end |
| Xhtml.Renderer.CollectLinkTargetIds | internal/artifact/xhtml.go:90-127 | collects the ids of the elements that are written, and no others |
| Xhtml.Renderer.WriteAttributes | internal/artifact/xhtml.go:195-215 | writes the allowed attributes, an id only once |
| Xhtml.Renderer.WriteRemoteLink | internal/artifact/xhtml.go:385-423 | a remote resource becomes a link, or only its name inside a link |
| Xhtml.Renderer.WriteNode | internal/artifact/xhtml.go:129-150 | appends what the node renders to; text in a list is wrapped |
| Xhtml.Renderer.WriteElement | internal/artifact/xhtml.go:152-190 | drops, unwraps, wraps, links or writes an element; the wrapping call ends because a wrapper never wraps |
| Xhtml.Renderer.WriteAllowed | internal/artifact/xhtml.go:191-227 | an element with its attributes and children, or an empty one |
| Xhtml.BuildBody | internal/artifact/xhtml.go:23-32 | collects first, then renders and trims; an empty body becomes a paragraph |
| XhtmlText.BodyIsWritten | internal/artifact/xhtml.go:25-32 | written out and escaped, the body is the trimmed text of what rendering writes, or an empty paragraph when nothing is left of it |
| XhtmlText.EscapeRoundTrip | internal/artifact/materialize.go:353-362 | escaped text has no angle bracket or quote in it and reads back as the text it was |
| XhtmlSafety.AttributesAdd | internal/artifact/xhtml.go:195-215 | ids written on an element are new and recorded |
| XhtmlSafety.AttributesUse | internal/artifact/xhtml.go:118-123 | the ids in use after an element are those before and every safe id it has |
| XhtmlSafety.RenamingKeeps | internal/artifact/xhtml.go:243-274 | renaming a tag for its edition or parent makes no difference to whether it is written |
| XhtmlSafety.IdsAreTargets | internal/artifact/xhtml.go:82-127 | on every tree the written ids are the collected ones, each written once |
| XhtmlSafety.NoDanglingLinks | internal/artifact/xhtml.go:445-464 | every relative link written leads to the document itself, and an id it names is written in it: just so when the ids of the tree have no blanks around them, else but for these blanks |
| XhtmlSafety.WrapperInList | internal/artifact/xhtml.go:229-241 | only lists wrap their children, and a wrapper is no list |
| XhtmlText.TextSurvives | internal/artifact/xhtml.go:129-227 | no text of the page is lost, added or moved by wrapping, renaming, unwrapping or linking, but for the white space outside all tags at either end; a remote resource leaves its name |
| XhtmlText.SameTextExactly | internal/artifact/xhtml.go:25-32 | up to white space at its ends the text is that of the page in EPUB 2 and EPUB 3, and with it the two are equal if and only if equally much of it lies outside all tags |
| XhtmlText.MoreTags | internal/artifact/xhtml.go:243-257 | EPUB 2 writes every element that EPUB 3 writes, so at each end less or equally much white space lies outside |
| XhtmlText.BlanksDiffer | internal/artifact/xhtml.go:25-32 | a nav that holds a blank, alone and before a paragraph: EPUB 2 keeps the blank and EPUB 3 loses it |
| XhtmlSafety.BodyIsBalanced | internal/artifact/xhtml.go:129-274 | on every tree tags are closed in order, ol and ul hold only li and dl only dd and dt, none of them text, and these stand nowhere else |
| XhtmlAnswers.BodyIsHarmless | internal/artifact/xhtml.go:276-383 | on every tree only the content elements are written, so no script, style, form, frame or embedded resource is written, no event handler, style or source attribute, links only on anchors and only without a scheme or to http, https, mailto or tel, and in EPUB 2 none of the newer elements and attributes |
| XhtmlAnswers.SilentLeavesNoTrace | internal/artifact/xhtml.go:152-156 | emptying every script, style, form or other dropped element of its attributes and all it holds does not change the body |
| XhtmlAnswers.ContentIsWritten | internal/artifact/xhtml.go:152-227 | every content element that is in no dropped or embedded element is written under its tag or its stand-in, with all its kept attributes |
| XhtmlAnswers.SafeLinksAreWritten | internal/artifact/xhtml.go:425-464 | every such anchor with a link to the web, to an id of the page or to the page itself is written with that link |
| XhtmlAnswers.IdsAreWritten | internal/artifact/xhtml.go:201-210 | every valid id of such an element is written, and once |
| XhtmlAnswers.ItemsStayItems | internal/artifact/xhtml.go:259-274 | an li of a list and a dd or dt of a dl that are reached stay what they are, with their kept attributes |
| XhtmlAnswers.RemoteIsLinked | internal/artifact/xhtml.go:385-423 | a picture, sound or film from the web leaves its text, title, label or address, and outside anchors a link to its first web source |
| Discovery.UniqueEvidence | internal/discovery/discovery.go:296-311 | lists exactly the given evidence, once each and in order |
| Discovery.CanonicalIsUnique | internal/discovery/discovery.go:436-446 | equal sets of evidence give equal lists, so fingerprints ignore order and repeats |
| Discovery.FindBest | internal/discovery/discovery.go:321-341 | the first of the open candidates of the source that share most with the old one, or none shares anything |
| Discovery.Continue | internal/discovery/discovery.go:344-375 | the detected candidate keeps the old identity and decisions, its own members, and the old members the capture does not speak for |
| Discovery.Retire | internal/discovery/discovery.go:392-404 | an old candidate without a match keeps its id; it is resolved exactly when the capture speaks for all its members |
| Discovery.FreeId | internal/discovery/discovery.go:382-384 | the candidate's own id, or the first numbered one that is free; the search ends |
| Common.DecimalInjective | internal/discovery/discovery.go:383-383 | different suffixes make different ids |
| Common.DecimalExactly | internal/sequence/series_index.go:141-141 | a number prints as its decimal digits without a leading 0 |
| Common.LessExactly | internal/sequence/series_index.go:106-111 | ids compare at the first character where they differ, and a beginning comes before what it begins |
| Common.TrimExactly | internal/artifact/xhtml.go:426-426 | trimming takes white space off both ends and nothing else |
| Paths.CleanStays | internal/artifact/xhtml.go:463-463 | an empty segment or a dot anywhere in a path changes nothing |
| Paths.CleanLeaves | internal/artifact/metadata.go:123-125 | two dots anywhere undo the name before them |
| Paths.CleanAtRoot | internal/artifact/metadata.go:123-125 | two dots at the root change nothing |
| Discovery.Reconcile | internal/discovery/discovery.go:313-415 | the result is the greedy matching in the order of the old candidates, with free ids for unmatched detected ones and unmatched old ones kept, then sorted by first observation and id; ids are distinct, every old candidate is accounted for and every detected one is there with its members |
| Discovery.ReconciledIdsDistinct | internal/discovery/discovery.go:313-415 | no two candidates share an id |
| Discovery.PreviousKept | internal/discovery/discovery.go:345-354 | every previous id is there exactly once, and each of its members is uncaptured exactly when the capture does not speak for it, else current or resolved |
| Discovery.DetectedKept | internal/discovery/discovery.go:342-359 | every detected candidate keeps all its members, and takes an old identity only from a candidate of its source that shares a member |
| Matching.BestExactly | internal/discovery/discovery.go:321-341 | the best match is the first of those that share the most members, or as many with the old one's first among them, and there is one unless no free candidate of the source shares any |
| Matching.SoleMatchTakes | internal/discovery/discovery.go:319-344 | an old and a detected candidate of one source that share members with each other alone are matched |
| Matching.ContinuedExactly | internal/discovery/discovery.go:344-375 | a continued candidate has the detected members and the old ones the capture does not show, uncaptured with their old fingerprints; the other old ones are resolved |
| Matching.ContinuedEvidence | internal/discovery/discovery.go:355-358 | its evidence is the detected one when nothing is carried over, else that of both with a new fingerprint |
| Matching.DecisionsHold | internal/discovery/discovery.go:359-371 | dismissed for the evidence it has it stays resolved and silent, and it is reported exactly when it is not resolved and its evidence is not the one last reported or it had been resolved |
| Matching.RetiredExactly | internal/discovery/discovery.go:388-405 | an old candidate nothing continues is silent and resolved exactly when the capture shows all its members |
| Matching.NewExactly | internal/discovery/discovery.go:376-387 | a detected candidate that continues none is reported as it is, under its own id unless an old or earlier new one has it, then under a numbered one |
| Matching.ReportedInOrder | internal/discovery/discovery.go:407-413 | the report is ordered by first observation and then by id |
| Matching.EvidenceInOrder | internal/discovery/discovery.go:296-303 | evidence is listed by kind and by value within a kind |
| SeriesIndex.SortReleases | internal/sequence/series_index.go:105-111 | the releases in publication order |
| SeriesIndex.OneOrder | internal/sequence/series_index.go:106-111 | with distinct ids there is one publication order |
| SeriesIndex.DecideMode | internal/sequence/series_index.go:112-130 | chapter numbers when at least half the releases carry one, then parts, else release order |
| SeriesIndex.Restarts | internal/sequence/series_index.go:191-212 | numbering restarts exactly when the author's shorthand occurs or a later book starts again at or below a number already reached |
| SeriesIndex.LabelOne | internal/sequence/series_index.go:136-181 | no release is left without a label, and if the reader accepts the label before it, it accepts this one |
| SeriesIndex.SeriesIndexes | internal/sequence/series_index.go:104-184 | every release is labelled in publication order |
| SeriesIndex.IndexesAreAcceptable | internal/sequence/series_index.go:26-27 | every label is digits, or digits, a dot and digits, which is all the reader accepts |
| Labels.OrderedExactly | internal/sequence/series_index.go:106-111 | publication order is by date, and by id among releases of one date |
| Labels.IndexesExactly | internal/sequence/series_index.go:112-184 | the numbering a series uses, from how many releases carry a chapter or only a part and whether some chapter of a later book starts again at a number reached, and so the index of each release |
| Labels.OrdinalLabels | internal/sequence/series_index.go:140-141 | release order numbers the releases from 1 |
| Labels.PartLabels | internal/sequence/series_index.go:142-145 | a part has its number and what is no part repeats the label before it |
| Labels.ChapterLabels | internal/sequence/series_index.go:146-155 | numbered through, a half chapter keeps its label, a chapter has its number and the rest repeat the label before |
| Labels.BookLabels | internal/sequence/series_index.go:156-181 | numbered per book, the author's own label, or book and chapter with the book last named where none is; an unnumbered release that opens another book is its number 0, and the rest repeat the label before |
| SeriesIndex.RestartsStay | internal/sequence/series_index.go:191-212 | once numbering restarts per book, it does on every extension |
| SeriesIndex.LaterReleasesKeepLabels | internal/sequence/series_index.go:131-183 | while the mode and the per-book flag stay, releases that sort later relabel none |
| SeriesIndex.OnlyReleaseOrderIsSafe | internal/sequence/series_index.go:29-30 | labels survive every set of later releases if and only if the series is indexed by release or is empty |
| SeriesIndex.ChapterRelabelsStory | internal/sequence/series_index.go:29-30 | a series whose first label changes when a chapter follows |

## Left out

- DeliverySafety.ChaptersStayReadable: covers one plan, not both attempts of a retry; that a chapter may also be in another old file does not count.
- DeliverySafety.InterruptionsConverge: speaks of files, not of ledger rows, whose ids and names may differ after an interruption.
- Executor.Service.Execute: leaves out dry runs, lifecycle commands, hand-off and exec targets, the compaction of saved plans and the text of messages; `hooks` only says that a lifecycle command is configured.
- XhtmlSafety.BodyIsBalanced: does not say that an element has each attribute once; names from foreign namespaces may repeat one.
- VolumePlanner.PlanSeries: leaves out the order of the plan, its statuses and reasons, errors of publication metadata, and the test whether a series is in scope at all, which leaves the editions as they are.
- Sequence.Resolve: overrides by `ApplyDetected` and title detection come before it and are not modelled.
- ReaderConfig.Validate: does not say which error is reported; how a book's label becomes an input is not modelled.
- Discovery.Reconcile: leaves out the detection of groups that precedes it; `digest` stands for the printed form of an id.
- SeriesIndex.SeriesIndexes: takes the coordinates of a release as given; reading them off titles is pattern matching.
- Identity.OpfMetadata.ReplacePublicationIdentity: takes references as parsed URLs; the rest of the metadata rewriting is not modelled.
- Group ids, file names and headings are values instead of strings such as "range:1:10", and a recipe stands for its hash.
- HTML, XML, TOML, JSON and zip codecs, URL parsing, EPUB validation, PDF conversion and covers.
- Fetching, sessions, authentication, the browser, support bundles, metrics and command-line output.
- Systemd, HTTP and SQL themselves: a reservation is a transaction, and a launch may happen at any time.
- The head of the document.
