# Context Layer: verified model

A Dafny model of the agent that collects what happens on a personal machine into an append-only event log,
projects it into tables, and serves policy-gated reads of it. `dafny verify dfyconfig.toml` checks everything.

## What is modelled

- **Timeline retrieval** (`Text`, `SortKey`, `Migration`, `Evidence`, `RawTimeline`, `Retrieval`, `WirePage`,
  `Paging`): the fixed-width text key, the keyset statement, the batched scan with its budget, the wire page that is
  cut again, and whole chains of pages, also while the log grows. The reference throughout is the filtered, sorted log.
- **Event log and projections** (`Contracts`, `Projection`, `RebuiltTables`, `EventLog`, `Repository`, `Correlation`,
  `MatchEvidence`, `Engine`): the transactions on the raw log, the checkpoints and the tables, and what the tables hold
  in terms of the stored events; the repository as a class over physical tables with surrogate artifact ids, refining
  the specification step by step; the two-transaction ingest with the download lookup in between, and the evidence
  behind each derived event.
- **Directory collector** (`Paths`, `ScopeScan`, `Reconciliation`, `CollectorLog`, `CollectorRuns`, `Collector`): the
  worklist scan of a directory tree with unreadable nodes, the reconciliation against the stored locations, batches,
  gaps, and sequence numbers over restarts and crashes. Every method of the collector is a run of the step system.
- **Watcher buffer** (`Watcher`, `Octets`, `Utf16`, `ChangeBuffer`): the linked change records, read and written, and
  handed to the collector.
- **Browser outbox** (`Delivery`, `BrowserMessages`, `ServiceWorker`): the extension's persisted state and the agent's log as one step
  system with lost messages, lost responses and crashes, and the service worker as a class whose operations are
  proved to be runs of that system.
- **Screenpipe** (`ScreenFrames`, `ScreenLoop`, `Sampler`): the merge of two text sources, and the sampling thread,
  the agent's event loop and their restarts as a step system, with one polling round as methods over it.
- **Vault and content read** (`Vault`, `ContentRead`): interleaved, failing and crashing puts, verified reads, and the
  event-bound authorization in front of them.

Each SQL statement stands for its meaning on tables, each transaction for one atomic step. UUIDs are numbers, and
new ones are assumed to be new. Clocks, directory contents, network answers and I/O errors are inputs. The SHA-256
digest is a function parameter; a property that needs contents to be told apart says so for exactly the contents ever
put. Sequence numbers are bounded by signed 64-bit integers where they are bound to a statement.

## Where the code does less than its documentation says

- `docs/threat-model.md` line 26 promises an explicit collector gap instead of silent loss when the browser outbox is
  full. The pending gap keeps its id while its number grows, and the agent keeps the first event under an id. When the
  response to a gap is lost and the gap then grows, the acknowledged gap covers numbers that no stored event covers.
  `Delivery.AcknowledgedGapCovers` gives the exact condition, `Delivery.AcknowledgedGapMayHideALoss` a run.
- `docs/event-bound-content-read.md` says that content is reported unavailable only after authorization has succeeded,
  and that refusals look alike. A damaged row in an allowed scope is reported unavailable without that
  (`ContentRead.RefusalsLookAlike` has the exact condition, `ContentRead.DamagedRowIsTold` an input).
- A timeline page can carry a cursor although no row is left: exactly when the rows in range are as many as the scan
  budget and too few of them are visible to fill the page (`Paging.CursorPastTheEnd`, with the table of
  `Paging.FullBudgetOfHiddenRows`).
- Reconciliation compares paths in contract form with stored paths as they are, and strips the verbatim marker once.
  A location that someone else stored under a verbatim path makes it mark a present file deleted; for any stored
  locations, convergence holds exactly if they are normal (`Reconciliation.ReconciliationConverges`,
  `Collector.CollectorState.VerbatimSubmissionLosesFile`). The collector's own locations are normal below a root whose
  contract form is final, as that of every directory on a drive is (`Paths.StableRoot`, `Paths.DriveRootIsStable`), so
  there convergence holds in every store it reaches while only it writes file events of its scope
  (`Collector.CollectorState.CollectorRunsConverge`).
- The change-buffer parser accepts a record whose name runs into the next record; apart from that it accepts exactly
  the format (`ChangeBuffer.AcceptedExactly`, `ChangeBuffer.OverlapIsAccepted`).

## Model

| member | source | states |
|---|---|---|
| SortKey.FormatSortKey | crates/storage-sqlite/src/lib.rs:509-524 | a key exists exactly for instants of the UTC years 0000-9999, and has 30 characters |
| SortKey.KeyIsOrderEmbedding | crates/storage-sqlite/src/lib.rs:509-524 | text order of keys is chronological order and distinct instants have distinct keys |
| SortKey.DaysBeforeYearClosedForm | crates/storage-sqlite/src/lib.rs:516-523 | the calendar counted year by year agrees with the Gregorian leap rule in closed form |
| SortKey.DaysBeforeMonthClosedForm | crates/storage-sqlite/src/lib.rs:516-523 | the month lengths counted month by month agree with the closed form |
| SortKey.KeyReadsBack | crates/storage-sqlite/src/lib.rs:515-523 | the digits and separators of a key, read off its text, are the date and time that are the instant, by the closed forms |
| Migration.Database.BackfillObservedKeys | crates/storage-sqlite/src/lib.rs:569-588 | succeeds exactly when every row has a representable time, and then every row has the key of its time |
| Migration.Database.Migrate | crates/storage-sqlite/src/lib.rs:528-567 | brings any known version to the current one with every key right, or leaves the rows alone; exact success condition |
| Migration.Database.Append | crates/storage-sqlite/src/lib.rs:186-206 | a new row gets the key of its own time, other rows are unchanged, a repeated id changes nothing |
| RawTimeline.LogMeaning | crates/storage-sqlite/src/retrieval.rs:13-52 | the log of a query is exactly its selected rows, strictly newest first |
| RawTimeline.SqlSelectIsLog | crates/storage-sqlite/src/retrieval.rs:13-52 | the keyset statement over text keys selects and orders like the chronological log |
| RawTimeline.ResumeIsSuffix | crates/storage-sqlite/src/retrieval.rs:13-52 | resuming below the k-th row gives exactly the rows after it |
| RawTimeline.QueryRawTimeline | crates/storage-sqlite/src/retrieval.rs:13-74 | the first rows of the log up to the limit, and whether there are more |
| Retrieval.FilterRefsMeaning | crates/core/src/retrieval.rs:312-319 | filtering keeps exactly the references whose class the maximum lets be shown, told by the classes and not by ranks |
| Retrieval.EntryRespectsGrant | crates/core/src/retrieval.rs:216-303 | an entry is shown exactly if the grant lets its event be seen, as it was stored, with exactly the allowed references in order, and its own payload exactly if none was withheld |
| Evidence.RanksAreMeaning | crates/core/src/retrieval.rs:321-341 | the ranks order the classes of events and references as their meaning does |
| Retrieval.SecretsStaySecret | crates/core/src/retrieval.rs:312-339 | secret references are shown exactly under a secret grant, sensitive ones under a sensitive or secret grant, normal ones always; the same for events |
| Retrieval.WiderGrantShowsMore | crates/core/src/retrieval.rs:216-303 | a wider grant shows every entry, reference and payload a narrower one shows |
| Retrieval.RefusedQueries | crates/core/src/retrieval.rs:201-214 | exactly which queries are refused for their scope, limit or range |
| Text.KnownBlanks | crates/core/src/retrieval.rs:201-206 | white space is blank, and no text with a letter or digit is |
| Retrieval.QueryTimeline | crates/core/src/retrieval.rs:125-198 | the batched, budgeted scan gives the page of the row-at-a-time walk, errors included |
| WirePage.MapWireEntry | apps/context-agent/src/read_capability.rs:261-316 | at most 32 references and a payload of at most 32 KiB; what is omitted, its count and the reason given |
| WirePage.MapWirePage | apps/context-agent/src/read_capability.rs:212-259 | the page is the longest prefix within the byte budget, with the cursor of its last entry when cut |
| WirePage.QueryTimelineWithPolicy | apps/context-agent/src/read_capability.rs:178-210 | the whole gated query equals its specification; a page is answered only to the token holder and for an allowed scope |
| Paging.CorePage | crates/core/src/retrieval.rs:137-197 | a core page covers a prefix of at most 5,000 rows; exactly when it carries a cursor; without one no row is left |
| Paging.CursorPastTheEnd | crates/core/src/retrieval.rs:137-192 | a cursor with no row left occurs exactly when the budget ends on the last row of an unfilled page |
| Paging.FullBudgetOfHiddenRows | crates/core/src/retrieval.rs:190-192 | such a table: 5,000 rows above the grant, whose empty page carries a cursor that leads nowhere |
| Paging.PageCovers | apps/context-agent/src/read_capability.rs:212-259 | a wire page shows exactly the visible rows of a log prefix and resumes right after it |
| Paging.PageSucceeds | apps/context-agent/src/read_capability.rs:178-259 | a page is refused only for an inadmissible request, an undecodable row or an oversized entry |
| Paging.NextLogIsShorter | crates/core/src/retrieval.rs:176-192 | a returned cursor leaves strictly fewer rows, so every chain of pages ends |
| Paging.DrainIsFilteredLog | apps/context-agent/src/read_capability.rs:178-259 | following cursors to the end on a fixed store gives exactly the filtered log; exact success condition |
| Paging.ChainIsExact | apps/context-agent/src/read_capability.rs:178-259 | with appends between requests entries are strictly descending, each is a visible row, and every row visible at the start appears |
| Paging.ChainTellsWhatIsAllowed | apps/context-agent/src/read_capability.rs:122-259 | a chain's entries are events of rows in the scope and half-open range that the grant lets be seen, and every such row of the first table is told |
| Projection.RebuildIsSound | crates/storage-sqlite/src/lib.rs:347-399 | every rebuilt projection has one active location per artifact, and locations and edges only of known artifacts |
| Projection.EdgesAreBacked | crates/storage-sqlite/src/lib.rs:422-445 | an edge exists exactly when a match with its identity and URL is in the log |
| Projection.EdgeEvidenceIsFirst | crates/storage-sqlite/src/lib.rs:422-445 | an edge keeps the evidence of the first such match |
| RebuiltTables.TaskRows | crates/storage-sqlite/src/lib.rs:335-346 | a task has the name of its last stored start and the time of its first |
| RebuiltTables.PendingRows | crates/storage-sqlite/src/lib.rs:400-421 | a pending download carries its last stored observation, and is unmatched unless a stored match of it follows |
| RebuiltTables.GapRows | crates/storage-sqlite/src/lib.rs:447-458 | the gap table has one row for each stored gap event, in order, with what the event says |
| RebuiltTables.ArtifactRows | crates/storage-sqlite/src/lib.rs:463-503 | an artifact is a file some stored event found or matched |
| RebuiltTables.LocationRows | crates/storage-sqlite/src/lib.rs:347-399 | which stored event each field of a location comes from, and that it is active exactly if the file was last found there |
| EventLog.ExecuteKeepsConsistent | crates/storage-sqlite/src/lib.rs:181-243 | every transaction keeps the tables equal to the fold of the log, and only extends the log |
| EventLog.ProjectionsAreRebuildable | crates/storage-sqlite/src/lib.rs:181-243 | after any transactions, repeats and v2 events included, the tables are the fold of the stored v1 events |
| EventLog.LogIsAppendOnly | crates/storage-sqlite/src/lib.rs:96-118 | over any run rows stay as they are and checkpoints never decrease |
| EventLog.AppendsAdvance | crates/storage-sqlite/src/lib.rs:208-231 | what a v1 or v2 event makes of its checkpoint: numbers never go back, and exactly gap events raise the flag |
| EventLog.MarkingAdvances | crates/storage-sqlite/src/lib.rs:96-118 | marking takes the one flag down |
| EventLog.RebuildTimes | crates/storage-sqlite/src/lib.rs:333-461 | every time in the rebuilt tables, of tasks, locations, downloads and matches, edges and gaps, is the time of a stored v1 event |
| EventLog.RebuildSortable | crates/storage-sqlite/src/lib.rs:509-524 | so the times of stored downloads and locations can be stored again |
| Repository.SqliteRepository.GetOrCreateArtifact | crates/storage-sqlite/src/lib.rs:463-503 | the artifact of an identity, created at most once; all other tables keep their meaning |
| Repository.SqliteRepository.MarkLocationDeleted | crates/storage-sqlite/src/lib.rs:355-371 | deletion deactivates the one location, or does nothing for an unknown one |
| Repository.SqliteRepository.UpsertLocation | crates/storage-sqlite/src/lib.rs:372-399 | the artifact moves to the path: old locations are deactivated, the new one is the active one |
| Repository.SqliteRepository.AddDownloadEdge | crates/storage-sqlite/src/lib.rs:422-445 | the edge is added once and the pending download is marked |
| Repository.SqliteRepository.ApplyCommand | crates/storage-sqlite/src/lib.rs:333-461 | every command does to the physical tables what the specification, whose tables the rows above describe, does to the abstract ones |
| Repository.SqliteRepository.AppendWithProjection | crates/storage-sqlite/src/lib.rs:181-243 | row, checkpoint and projection commit together or nothing changes |
| Repository.SqliteRepository.AppendRawV2 | crates/storage-sqlite/src/v2.rs:48-114 | a new v2 row advances its checkpoint, a repeated one changes nothing |
| Repository.SqliteRepository.MarkCollectorReconciled | crates/storage-sqlite/src/lib.rs:96-118 | the flag is cleared and the sequence does not go back |
| Correlation.DerivedAppendSucceeds | crates/core/src/lib.rs:211-236 | in a consistent store the second transaction of an ingest cannot fail |
| Correlation.ProjectTwice | crates/storage-sqlite/src/lib.rs:208-236 | repeating the first transaction changes nothing and reports a duplicate |
| Correlation.CrashRecovery | crates/core/src/lib.rs:172-242 | stopping after the first transaction and replaying reaches exactly the states of the uninterrupted ingest |
| Correlation.DerivationConsumes | crates/core/src/lib.rs:200-236 | a derived event takes exactly its own download out of the unmatched ones and leaves its edge |
| MatchEvidence.SamePathMeaning | crates/storage-sqlite/src/lib.rs:270-273 | paths are compared up to the case of English letters and nothing else |
| MatchEvidence.NewestIsFound | crates/storage-sqlite/src/lib.rs:262-308 | the lookup finds a waiting download with the latest time text, and nothing only if none waits or that one is too far from a file on its path |
| MatchEvidence.FoundIsEvidenced | crates/storage-sqlite/src/lib.rs:251-326 | what the lookup finds in rebuilt tables names a stored download with its URL, a stored finding of the file on its path, their event ids in order, and the time with the later text |
| MatchEvidence.DerivedIsSubstantiated | crates/core/src/lib.rs:211-236 | a derived event is backed by the log before it and belongs to the event it was derived for |
| MatchEvidence.EveryDerivedIsSubstantiated | crates/core/src/lib.rs:172-242 | over any run of ingests and other transactions every derived event is in the log, backed by the events before it |
| MatchEvidence.OthersDeriveNothing | crates/core/src/lib.rs:185-199 | only downloads and findings are correlated |
| Correlation.ReplaysDeriveFinitely | crates/core/src/lib.rs:172-242 | over any replays, derived events and remaining unmatched downloads add up to the unmatched ones at the start |
| Correlation.ArrivalOrderDoesNotMatter | crates/core/src/lib.rs:185-241 | either order gives the same tables, and one derived event exactly if the times are less than 181 seconds apart |
| Engine.ContextEngine.FindDownloadMatch | crates/storage-sqlite/src/lib.rs:245-330 | the lookup on the physical tables gives an outcome of the two queries on the abstract ones; its candidate has its evidence in the log |
| Engine.ContextEngine.Ingest | crates/core/src/lib.rs:172-242 | one ingest is the specified outcome or a rejection that changes nothing; in a consistent store exactly when the first transaction succeeds |
| Engine.ContextEngine.IngestV2 | crates/core/src/lib.rs:258-287 | exact acceptance condition; a rejected event changes nothing |
| Paths.AncestorContains | apps/context-agent/src/collector.rs:284-289 | every directory on the way to a file contains it component by component |
| Paths.ContractOfFullPath | apps/context-agent/src/collector.rs:164-171 | the contract form of a path below a root is the path below the root's contract form |
| Paths.StableBelow | apps/context-agent/src/collector.rs:223-236 | below a stable root, one whose own contract form is final, the contract form of every path is final |
| Paths.DriveRootIsStable | apps/context-agent/src/collector.rs:75-82 | the verbatim form of a directory on a drive is a stable root, and its contract form is the plain path |
| Paths.ShareRootContracts | apps/context-agent/src/collector.rs:82 | the verbatim form of a share contracts to its plain path |
| Paths.DoubledMarkerIsNotStable | apps/context-agent/src/collector.rs:82 | a root with a doubled marker is not: the marker is stripped once |
| Paths.ContainsExactly | apps/context-agent/src/collector.rs:284-289 | one path below a root contains another exactly if its names come first |
| ScopeScan.ScanScope | crates/platform-windows/src/reconcile.rs:31-93 | the worklist scan reports exactly the files and issues of the tree |
| ScopeScan.PresentFileIsCovered | crates/platform-windows/src/reconcile.rs:45-85 | a file reachable without reparse points is reported, or an issue is reported at or above it |
| ScopeScan.ReportedFileIsPresent | crates/platform-windows/src/reconcile.rs:45-85 | a reported file is there, under the reported identity |
| ScopeScan.IssueIsFailure | crates/platform-windows/src/reconcile.rs:48-83 | every reported issue is a directory, entry or file at that path that cannot be inspected |
| ScopeScan.FailureIsReported | crates/platform-windows/src/reconcile.rs:48-83 | every such failure is reported at its path |
| ScopeScan.CleanScanIsExact | crates/platform-windows/src/reconcile.rs:47-85 | a tree without failures gives no issue and exactly the files reachable without reparse points |
| Reconciliation.ApplyObserves | crates/storage-sqlite/src/lib.rs:347-399 | a projected file event changes the active pairs of its scope as the reconciliation reasons about them |
| Reconciliation.ReconciliationConverges | apps/context-agent/src/collector.rs:156-221 | for any stored locations, a clean scan leaves exactly the scanned pairs active if and only if the stored locations were normal |
| Reconciliation.SecondReconciliationIsQuiet | apps/context-agent/src/collector.rs:172-199 | on a converged scope the same scan ingests nothing |
| Reconciliation.PresentFileIsNotDeleted | apps/context-agent/src/collector.rs:186-199 | no deletion is ingested for a file still at its stored path, whatever failed to read |
| Reconciliation.VanishedFileIsDeleted | apps/context-agent/src/collector.rs:186-199 | a deletion is ingested for a location whose file was not scanned, if nothing on the way to it failed |
| Reconciliation.FileEventsMean | apps/context-agent/src/collector.rs:172-199 | which modifications and deletions a reconciliation ingests, and that it ingests nothing else |
| Collector.CollectorState.Ingest | apps/context-agent/src/collector.rs:250-266 | one event takes the next number and the checkpoint follows, as one append of the step system; it fails exactly when the numbers are exhausted |
| Collector.CollectorState.Reconcile | apps/context-agent/src/collector.rs:156-221 | inserts, deletes and gaps in order, the mark of a clean scan, and the counts reported; from a stable root and stored paths in contract form a clean scan leaves exactly the scanned files active; success and failure are runs of the step system |
| Collector.CollectorState.ReconciledFacts | apps/context-agent/src/collector.rs:201-214 | the flag is set exactly if the scan had issues; the log and the active pairs after a reconciliation |
| Collector.CollectorState.ReconcileConverges | apps/context-agent/src/collector.rs:156-221 | the same exact condition for a store: active pairs equal the scanned ones if and only if the stored ones were normal |
| Collector.CollectorState.ReconcileAgainIsQuiet | apps/context-agent/src/collector.rs:156-221 | a second reconciliation stores nothing and leaves the flag down |
| Collector.CollectorState.IngestBatch | apps/context-agent/src/collector.rs:106-128 | the batch's events in order, and a reconciliation when an identity was unresolved; otherwise the last change about each file decides where it is active |
| Collector.ChangeIsStoredAs | apps/context-agent/src/collector.rs:130-154 | what is stored for a change, by its action and identity |
| Collector.UnresolvedMeaning | apps/context-agent/src/collector.rs:139-146 | a batch needs a reconciliation exactly if some known action names no file |
| Collector.ChangesDecide | apps/context-agent/src/collector.rs:130-154 | after the changes of a batch, a file added, modified or renamed to a path is active there and nowhere else, and one removed or renamed away is not active there |
| Collector.CollectorState.UnknownActionsWriteNothing | apps/context-agent/src/collector.rs:136 | a batch of unknown actions stores nothing |
| Collector.CollectorState.BatchGaps | apps/context-agent/src/collector.rs:108-124 | the gaps a batch writes, with the number before their own |
| Collector.CollectorState.GapPayloadsMean | apps/context-agent/src/collector.rs:201-207 | the gap for each issue of a scan |
| Collector.CollectorState.ProcessBatch | apps/context-agent/src/runtime.rs:116-123 | the batch's events, then a reconciliation of the scanned tree if the batch was a gap; a run of the step system |
| Collector.CollectorState.FlagAfterBatch | apps/context-agent/src/runtime.rs:116-123 | after a gap or an unresolved identity the flag says whether the last scan had issues, otherwise it stays |
| Collector.CollectorState.FlagSaysLastScan | apps/context-agent/src/runtime.rs:98-135 | over any run of batches and foreign transactions after the starting reconciliation, the flag is raised exactly if the last scan had issues |
| Collector.CollectorState.ProcessBuffer | crates/platform-windows/src/watcher.rs:253-257 | a watcher result, parsed and processed: its batch is the one the bytes encode, its identities are all resolved, and only zero bytes move the flag |
| Collector.CollectorState.MovedKeepsContiguous | apps/context-agent/src/collector.rs:75-92 | what any method of the collector does, success or failure, keeps the stored numbers contiguous and equal to checkpoint and counter |
| Collector.CollectorState.ReachesOn | apps/context-agent/src/collector.rs:75-92 | opening, the collector's methods, its end at any moment and foreign transactions stay within the reached stores |
| Collector.CollectorState.ReachedFacts | apps/context-agent/src/collector.rs:223-236 | in every reached store numbers are contiguous and every active location of the scope is in contract form |
| Collector.CollectorState.CollectorRunsConverge | apps/context-agent/src/collector.rs:156-221 | in every reached store a clean scan leaves exactly the scanned files active, and a second one stores nothing |
| Collector.CollectorState.VerbatimSubmissionLosesFile | apps/context-agent/src/collector.rs:186-199 | a v1 event submitted with a verbatim path makes the next clean scan deactivate a file that is there |
| CollectorRuns.NextKeepsContiguous | apps/context-agent/src/collector.rs:250-266 | every step, failed append and crash keeps the numbers contiguous and the checkpoint from going back |
| CollectorRuns.SequencesAreContiguous | apps/context-agent/src/collector.rs:75-92 | over all runs the stored numbers are 1 to the checkpoint, without repeats |
| CollectorRuns.CheckpointIsMonotone | crates/storage-sqlite/src/lib.rs:208-231 | the checkpoint never decreases over a run |
| CollectorRuns.RunKeepsForm | crates/storage-sqlite/src/lib.rs:347-399 | if only the collector writes file events of the scope, in contract form, every active location stays in contract form over every run |
| CollectorRuns.RanKeeps | apps/context-agent/src/collector.rs:75-92 | operations that are runs keep the numbers contiguous, the checkpoint from going back, and the stored paths in contract form |
| Utf16.DecodeInvertsEncode | crates/platform-windows/src/watcher.rs:323-328 | every string survives UTF-16 encoding and decoding |
| Utf16.EncodeInvertsDecode | crates/platform-windows/src/watcher.rs:323-328 | only encodings are accepted |
| Utf16.KnownBytes | crates/platform-windows/src/watcher.rs:323-328 | three characters in the units and bytes of the standard |
| ChangeBuffer.ParseExtendedChangeBuffer | crates/platform-windows/src/watcher.rs:283-360 | the offset loop ends on every input within the returned bytes and gives the linked records or the error of the first bad one |
| ChangeBuffer.BufferInvertsLayout | crates/platform-windows/src/watcher.rs:299-359 | any legal records with any padding and unused fields are read back |
| ChangeBuffer.ParsedFields | crates/platform-windows/src/watcher.rs:329-345 | the action by its code, the name, and the file id, big-endian, on the watched volume |
| ChangeBuffer.AcceptedExactly | crates/platform-windows/src/watcher.rs:299-359 | the accepted inputs without running-over names are the layouts of records, and no others |
| ChangeBuffer.OverlapIsAccepted | crates/platform-windows/src/watcher.rs:347-354 | an accepted input whose first name lies in the next record |
| ChangeBuffer.IdentitiesApart | crates/platform-windows/src/watcher.rs:337-345 | distinct file ids give distinct identities |
| ChangeBuffer.ChangesFitTheBytes | crates/platform-windows/src/watcher.rs:299-359 | every change took a header's length of the returned bytes |
| Delivery.EnqueueEffects | apps/browser-extension/service-worker.js:109-189 | every enqueue queues the next number, drops it with a note, or leaves delivery alone |
| Delivery.NextKeepsInvariant | apps/browser-extension/service-worker.js:53-224 | every browser event, send outcome, crash and foreign transaction keeps the delivery invariant |
| Delivery.NoSilentLoss | apps/browser-extension/service-worker.js:109-189 | every issued number is acknowledged, queued or dropped, exactly one; drops are covered by a gap message; the outbox holds at most 256 |
| Delivery.AcknowledgedExactlyOnce | apps/context-native-host/src/main.rs:167-248 | each acknowledged message has exactly one row under its stable id, and the row says, field by field, what the message says |
| Delivery.RowCarries | apps/context-native-host/src/main.rs:167-248 | the event built for a message carries its URL, referrer and path, or its page and trigger, under its own id, number and time |
| Delivery.GapIsStored | apps/context-native-host/src/main.rs:250-285 | what the agent stores for a gap that is new to it |
| BrowserMessages.CompletedIsQueued | apps/browser-extension/service-worker.js:109-132 | exactly when a finished download is queued, dropped or refused, and that the message says what the browser said |
| BrowserMessages.PageIsQueued | apps/browser-extension/service-worker.js:134-157 | the same for a page that was seen |
| BrowserMessages.BlurIsQueued | apps/browser-extension/service-worker.js:159-189 | the same for losing the focus |
| BrowserMessages.DropIsNoted | apps/browser-extension/service-worker.js:53-63 | what a drop makes of the pending gap |
| BrowserMessages.StoredRowsAreBrowserEvents | apps/browser-extension/service-worker.js:109-224 | over every run each acknowledged message comes from a browser event of the run and is stored in one row that says the same |
| Delivery.ReceivedInOrder | apps/browser-extension/service-worker.js:205-219 | the agent receives messages in non-decreasing order of their numbers |
| Delivery.AcknowledgedGapCovers | apps/browser-extension/service-worker.js:53-63 | an acknowledged gap covers all drops in the agent's log exactly when it had not grown since it first arrived |
| Delivery.AcknowledgedGapMayHideALoss | apps/browser-extension/service-worker.js:198-204 | a run in which it had grown, and a dropped number is covered by no stored event |
| ServiceWorker.SortedQueue | apps/browser-extension/service-worker.js:206-207 | the queue sorted once holds every queued message, by number |
| ServiceWorker.FlushIsARun | apps/browser-extension/service-worker.js:195-224 | a flush is a run of single sends of the step system |
| ServiceWorker.Worker.FlushState | apps/browser-extension/service-worker.js:195-224 | the loop over the queue sorted once does what sending the oldest message again and again does, for any outcomes; every acknowledged message has a row that says what it says |
| ServiceWorker.Worker.StableDownloadId | apps/browser-extension/service-worker.js:97-107 | a download keeps the id it was first given |
| ServiceWorker.Worker.EnqueueCompleted | apps/browser-extension/service-worker.js:109-132 | the whole new state is the step's followed by a flush, or nothing is saved |
| ServiceWorker.Worker.EnqueueActivePage | apps/browser-extension/service-worker.js:134-157 | the same for a page, with nothing done for the page already noted |
| ServiceWorker.Worker.EnqueueWindowBlurred | apps/browser-extension/service-worker.js:159-189 | the same for losing the focus |
| ScreenFrames.MergedTime | crates/screenpipe-adapter/src/lib.rs:240-262 | a merged frame has the latest capture time of its candidates |
| ScreenFrames.MergedText | crates/screenpipe-adapter/src/lib.rs:240-262 | and the first non-blank text of the highest priority |
| ScreenFrames.AccessibilityBeatsOcr | crates/screenpipe-adapter/src/lib.rs:34-39 | any accessibility text beats all OCR text |
| ScreenFrames.MergedNames | crates/screenpipe-adapter/src/lib.rs:240-262 | and the first names that are not empty |
| ScreenFrames.MergedFocus | crates/screenpipe-adapter/src/lib.rs:240-262 | and the first focus flag that is known |
| ScreenFrames.FetchFramesSince | crates/screenpipe-adapter/src/lib.rs:113-146 | one merged frame for every id after the cursor, ascending; exactly when the cursor is reported reset |
| ScreenFrames.FetchedFrame | crates/screenpipe-adapter/src/lib.rs:131-146 | what a fetched frame carries of its candidates |
| ScreenLoop.NextKeepsInvariant | apps/context-agent/src/runtime.rs:351-431 | every fetch, hand-over, commit, late reply, crash and restart keeps cursor, channel and log in step |
| ScreenLoop.FramesCommitAtMostOnce | apps/context-agent/src/runtime.rs:351-431 | over all runs stored frame numbers strictly increase |
| ScreenLoop.LiveCursorIsNewest | apps/context-agent/src/runtime.rs:209-254 | while the sampler lives its cursor is the newest stored frame, and its own log never disables it |
| ScreenLoop.RecoveredIsLargest | crates/storage-sqlite/src/v2.rs:28-45 | what a restart recovers is the largest stored number |
| ScreenLoop.FrameRow | apps/context-agent/src/screenpipe_capture.rs:76-97 | the row of a frame says what the frame says |
| Sampler.Sampling.SendFrame | apps/context-agent/src/runtime.rs:374-422 | the cursor moves exactly when the agent stored the frame |
| Sampler.Sampling.SendFrames | apps/context-agent/src/runtime.rs:373-428 | a batch stores a prefix of its frames in order and the cursor follows it; how it ends |
| Sampler.Sampling.PollOnce | apps/context-agent/src/runtime.rs:359-429 | one round stores a prefix of the frames after the cursor, or fails without a change |
| Vault.ContentVault.PutBytes | crates/content-vault/src/lib.rs:48-101 | the whole new file state of an uninterrupted put, what each I/O error leaves under the temporary name included, and when it succeeds |
| Vault.PathsApart | crates/content-vault/src/lib.rs:133-148 | a digest's path is its first two pairs and itself; digests have their own paths, apart from all temporary files |
| Vault.NextKeepsInvariant | crates/content-vault/src/lib.rs:48-101 | every interleaved step, failure and crash keeps objects sound and puts in possession of their files |
| Vault.ObjectHashesToItsPath | crates/content-vault/src/lib.rs:48-101 | in every reachable state the object at a digest's path is absent or hashes to it |
| Vault.CompletedForever | crates/content-vault/src/lib.rs:48-101 | a completed put stays completed over any further run |
| Vault.CompletedReadsBack | crates/content-vault/src/lib.rs:48-131 | what a completed put stored reads back after any further steps and crashes |
| ContentRead.FindFirst | crates/core/src/content_access.rs:135-140 | the reference found is the first one to the digest |
| ContentRead.ReleasedRespectsGrant | crates/core/src/content_access.rs:64-151 | a released reference belongs to a visible event of an allowed scope, and a secret or sensitive one needs such a grant |
| ContentRead.WiderGrantReleasesMore | crates/core/src/content_access.rs:64-151 | a wider grant and more scopes release whatever fewer released |
| ContentRead.ReturnedTextIsVerified | apps/context-agent/src/content_read.rs:72-120 | what is returned was asked for by the token holder, released by an event of an allowed scope, is plain uncompressed text of the vault, not secret, and has its digest and length |
| ContentRead.ReleasedRefusals | apps/context-agent/src/content_read.rs:88-111 | how a released reference that is not delivered is refused |
| ContentRead.HiddenRowsDoNotMatter | crates/core/src/content_access.rs:59-63 | two stores that differ only in rows outside the allowed scopes or above the grant answer every text read alike |
| ContentRead.RefusalsLookAlike | apps/context-agent/src/content_read.rs:79-91 | a request that releases nothing is answered not-authorized, except exactly for a damaged row of an allowed scope |
| ContentRead.DamagedRowIsTold | apps/context-agent/src/content_read.rs:82-84 | such a row, and the answer it gets |
| ContentRead.CompletedTextIsReturned | apps/context-agent/src/content_read.rs:96-120 | text of a completed put is returned for an event that releases a reference to it |

## Left out

- Migration.Database.Append: models the key column of the appends only, because the rest of a row is in `EventLog`.
- Vault.ContentVault.PutBytes: one put with nobody in between; interleaved puts are the step system.
- Correlation.ArrivalOrderDoesNotMatter: assumes the quiet path of its precondition; with several active locations on one path the two lookup queries may see different rows.
- Stored text that does not parse: timestamps and UUIDs of tables are values here, so the errors of reading them back are not modelled, except in the backfill, the timeline envelopes and the content read.
- The year in the error of a key out of range, and RFC 3339 formatting errors.
- The order of the scan report, which is sorted for display, and the message texts of issues in gap reasons.
- Path prefixes other than the verbatim ones: drives and UNC shares are not parsed, and paths are compared by components without case folding.
- Hard links: convergence assumes that no two scanned files share an identity.
- The migration's schema steps other than the key column, and columns that are only copied: sensitivity, evidence, ingestion times.
- The `watch-once` command, which numbers events on its own.
- A native host process that outlives its request and delivers a message late, and a head message the host or agent rejects for ever, which blocks the queue as the code does.
- JSON texts: payloads are their fields, and of a screen frame's those that come from the frame; the browser's protocol version 1, and tab and window lookups.
- The Screenpipe HTTP client, its search pages and start times; a frame that appears late with a number at or below the cursor is skipped, as the code does.
- The clipboard, foreground-window and idle collectors, named pipes, overlapped I/O, tokens' constant-time comparison, environment parsing, media-type matching and UTF-8 decoding.
- The typed header of a change record is read field by field, and the 64-bit overflow check on name lengths cannot fire.
- The durability of directory entries: a crash of the machine may undo what was not synced in files, but not a rename.
