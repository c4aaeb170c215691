# Verified model of yggvault's core

yggvault mirrors release archives: it stores source trees by content, indexes versions, builds artifacts and
serves them. This project models the parts of it that keep real state or compute something subtle, in Dafny, and
proves what they promise over all inputs, all runs or all interleavings. `dafny verify dfyconfig.toml` checks it.

## What is modelled

**Durable store** (`ObjectModel`, `StoreProtocol`, `ProtocolRuns`, `DurableStores`, `EvictionOrder`, `Quotas`,
`EvictionExamples`, `StoredNames`, `LiveBlobs`, `ReferenceCounts`, `Publishing`, `LogicalBytes`, `Maintenance`,
`Integrity`, `IntegrityScan`).
The index (versions and blob reference counts) and the object store (trees and blobs by hash). `StoreProtocol` is a
state machine whose steps are single store operations, so a run is any interleaving of publishes, deletions,
evictions, repairs and the background collector, cut off anywhere. The classes and methods beside it are the
operations themselves, loop by loop; their contracts use the same functions as the steps (`DeleteRow`, `Committed`,
`DeadObjects`, `PartlySwept`), and `ProtocolRuns` shows that what they promise is joined by runs of the machine.

**Tree objects** (`TreeCodec`, `Repetition`, `StagedEntries`). Normalising staged entries, and the binary form
whose hash names a tree.

**Hot artifacts** (`ArtifactFlights`, `HotPaths`). Shared builds with waiters and handles as interleaved atomic
steps, retained paths with deferred deletion, and the objects that carry them.

**State** (`Registry`, `RegistryObjects`, `Availability`, `Snapshots`, `SnapshotBuild`, `MirrorState`). The bounded
diagnostic registry with its intrusive list on the heap, the availability machine, and the published snapshot,
which after every public operation is a full rebuild of the state (`MirrorState.StateObj.Valid`).

**Overlays** (`Rewrite`, `RewriteUndo`, `RewriteExamples`, `GoZip`), **cache** (`CacheModel`, `Cache`), **archives**
(`ArchivePaths`, `ArchiveExtract`, `ArchiveContents`, `SymlinkRule`, `ArchiveSpool`,
`ArchiveRoundTrip`), and the smaller pieces `Refs`, `BlobBatches`, `DeletionGrace`, `KeySources`.
`Lex`, `Paging`, `Sums`, `Options` and `Utf8` are shared helpers.

## How to read it

- Faults of input and output are nondeterministic. A `reliable` flag (of the store, of `Rules`, of the zip builder)
  says that none happens; contracts that mention it say when an operation must succeed. On the store it also covers
  the physical size check behind a publish.
- Content addressing is a codec: a function from hashes to what they name, so an object store is a set of hashes.
  `TreeCodec.SameBytesSameTree` is what makes this sound for trees, given a hash without collisions.
- Every version row has a detection row, so moving an old revision under a historical tag that is in use violates a
  primary key and fails the transaction; `TagTaken` is that condition.
- The functions that specify an operation step by step have partners that say the result in other words: which rows,
  records, entries or bytes there are afterwards (`Publishing.RowsCommitted`, `Registry.Raised`, `Snapshots.WrittenOut`,
  `ArchiveContents.ComesOut`, `CacheModel.MovedToFront`, `IntegrityScan.RowReported`, `ReferenceCounts.Places`).
- Times are integers and 0 is the zero time. Path normalisation, the characters a symlink target may have, URL
  canonicalisation and content hashing are function parameters; paths of entries are relative.

## Where the code does less than one might expect

Each is proved, with the exact condition and a concrete store or run.

- Eviction can strand versions. The empty page behind the last row makes the candidate loop drop what it has gathered.
  Cut the evictable versions of the initial listing into batches of 1024 in ingest order: if the rows after the last
  whole batch are a multiple of 1024, the evictable versions among them are never evicted. Unless eviction fails, it
  ends below its target or with exactly those versions left (`Quotas.EvictUntilTarget`, `EvictionOrder.LeftIsStranded`,
  `EvictionOrder.StrandedIsPartOfABatch`), so a publish can be refused although evicting one more version would make
  room (`EvictionExamples.StrandedThoughItWouldMakeRoom`, `EvictionExamples.RefusedThoughOneDeletionMakesRoom`).
- A publish of all but one byte of the quota gets the eviction target zero, which evicts nothing: with live bytes in
  the store it is admitted if and only if pruning per key leaves none (`Quotas.EnsureBudget`,
  `EvictionExamples.RefusedThoughOneDeletionMakesRoom`).
- Admission does not count orphan blobs that a publish brings back to life, so the quota can be exceeded
  (`LogicalBytes.BoundAfterCommit`, `LogicalBytes.RevivedOrphanBreaksQuota`).
- A caller can join a shared build whose context is already cancelled: it does if and only if the flight was ever
  without waiters (`ArtifactFlights.JoinerInheritsCancellation`, `ArtifactFlights.LateJoinersFindItCancelled`).
- The outage that permits a first change of class may lie before the first classification: it cannot if and only if
  the key is first classified while its counter is 0 (`Availability.FirstClassGuards`,
  `Availability.OutageAfterFirstClass`, `Availability.FirstClassWhileDown`).
- The rewriter is exact only for paths whose self-overlaps are hidden, as those of module paths are
  (`Rewrite.ScannerIsExact`, `RewriteExamples.SkippedOccurrence`), undoes itself only under a condition on the data
  (`RewriteUndo.RewriteUndone`, `RewriteExamples.TargetWasThereBefore`), and rewrites a file that is not Go source when
  it shares its blob with one that is (`GoZip.OtherFilesAreKept`, `GoZip.NotesAreRewritten`).
- The cache's global counter can be negative for a while (`CacheModel.NegativeWhileDeltasAreDue`,
  `CacheModel.CounterMayBeNegative`).
- Deletion grace can be shorter than configured after a listing that does not reset the counter
  (`DeletionGrace.GraceWhenFirstDue`, `DeletionGrace.GraceCanBeShort`).
- A start at which the key bindings cannot be listed keeps them if and only if it starts no key they speak against
  (`KeySources.StartKeepsBindingsExactly`, `KeySources.UnlistedBootBreaksBindings`).

## Model

| member | source | states |
|---|---|---|
| `StoreProtocol.NothingDanglesInAnyInterleaving` | mod/storage/maintenance.go:259-295 | Over every interleaving of atomic store operations (publishes holding `writeMu`, deletions, overwrites, evictions, repairs, an unlocked marking and scanning collector that takes the lock for one rechecked batch, faults and crashes anywhere), every indexed version has its tree object and every blob of that tree stored at the recorded size. |
| `StoreProtocol.NamedObjectsAreNeverDeleted` | mod/storage/pebble.go:29-56 | No step takes away an object that some version names before or after it. |
| `StoreProtocol.MissingSetStaysExact` | mod/storage/staged.go:611-626 | Whatever was evicted after the reference check, the set computed before eviction is, when writing starts, exactly what the object store lacks of the incoming tree. |
| `StoreProtocol.CountsStayExact` | mod/storage/version_mutation.go:131-199 | Along every run from exact counts, each reference count stays the number of tree entries naming the blob over all versions. |
| `StoreProtocol.StepKeepsExact` | mod/storage/version.go:98-141 | The single step behind that: no operation, whole or interrupted, makes an exact count wrong. |
| `StoreProtocol.CommittedKeeps` | mod/storage/version_mutation.go:131-199 | A commit (new version, overwrite, or history mode under an unused tag) of a stored tree never underflows a count, leaves nothing dangling and keeps exact counts exact. |
| `StoreProtocol.CommitKeeps` | mod/storage/version.go:98-141 | The same inside the running protocol, including that what the commit then deletes is named by no version. |
| `StoreProtocol.RebuiltIsExact` | mod/storage/maintenance.go:307-318 | Rebuilding the counts from the trees makes them exact and covering, whatever they were before. |
| `StoreProtocol.OrphanStaysDue` | mod/storage/maintenance.go:259-269 | While a pass runs, an object that is never referenced and not rewritten is at every moment gone, still to be scanned, or in the batch being deleted. |
| `StoreProtocol.CollectionIsComplete` | mod/storage/maintenance.go:287-295 | A pass that ends normally has deleted every object that stayed unreferenced throughout it and that no publish wrote meanwhile. |
| `ProtocolRuns.PublishRuns` | mod/storage/staged.go:608-634 | The machine is not vacuous: from an empty store there is a run after which any fully staged tree with true sizes is indexed, and nothing else. |
| `ProtocolRuns.PublishStagedRuns` | mod/storage/staged.go:608-634 | All that the publish critical section promises, whatever it evicted and however it ended (committed, skipped, refused, or failed and undone as far as it got), is joined by one run of the machine. |
| `ProtocolRuns.FailureRuns` | mod/storage/pebble.go:40-67 | A failure after admission, with some objects written and some of the unreferenced ones removed again, is a run of the machine. |
| `ProtocolRuns.PublishingRuns` | mod/storage/staged.go:608-634 | Whatever a publish that evicts nothing promises of the store before and after it, in each of its three modes and however far the clean-up got, is joined by a run of the machine. |
| `ProtocolRuns.AdmittedRuns` | mod/storage/staged.go:623-634 | The same from its admission on, after any eviction. |
| `ProtocolRuns.EvictionRuns` | mod/storage/quota.go:425-431 | Each deletion during the eviction of an admitted publish is a run of the machine that gives the publish back its lock. |
| `ProtocolRuns.DeletionRuns` | mod/storage/version.go:399-420 | So is a deletion of a version, completely cleaned up or stopped on the way. |
| `ProtocolRuns.RepairRuns` | mod/storage/maintenance.go:307-318 | So is a rebuild of the counts, swept completely or in part. |
| `ProtocolRuns.CollectionRuns` | mod/storage/maintenance.go:259-295 | So is a collection, from its start to its end or its failure. |
| `ObjectModel.NeverUnderflows` | mod/storage/sqliteindex/metadata.go:215-242 | With covering counts, deleting any indexed version finds a row with enough references for each of its blobs. |
| `ObjectModel.DeleteRowKeeps` | mod/storage/version_mutation.go:16-21 | Deleting a row with its references keeps the store healthy and exact counts exact. |
| `ObjectModel.InsertRowKeeps` | mod/storage/version_mutation.go:174-184 | Indexing a stored tree keeps the store healthy, and counts are exact afterwards exactly when they were before. |
| `ObjectModel.RetireKeeps` | mod/storage/sqliteindex/metadata.go:566-610 | Moving a row under an unused historical name changes no total: health is kept and exactness is unchanged. |
| `ObjectModel.ExactlyNamed` | mod/storage/pebble.go:29-38 | With exact counts the index-only reference check says yes for exactly the objects that some version names. |
| `ReferenceCounts.TotalIsPlaces` | mod/storage/sqliteindex/metadata.go:40-53 | The total that counts are measured by is the number of pairs of a version and a position at which its tree names the blob. |
| `ReferenceCounts.ExactCountsPlaces` | mod/storage/maintenance.go:307-318 | Counts are exact if and only if every row says that number, and a blob without a row is named nowhere. |
| `ObjectModel.PartlySweptKeeps` | mod/storage/version_mutation.go:35-68 | A clean-up of a superseded tree that stopped anywhere leaves nothing dangling and does not change exactness. |
| `DurableStores.DurableStore.CountBlobRefs` | mod/storage/sqliteindex/metadata.go:40-53 | Counts every blob of a tree with its occurrences and its one size; refused exactly when two entries give one blob two sizes. |
| `DurableStores.DurableStore.TreePayloadEstimate` | mod/storage/version_mutation.go:23-33 | The sum of sizes over the distinct blobs, in whatever order they are visited. |
| `DurableStores.DurableStore.SubtractBlobRefs` | mod/storage/sqliteindex/metadata.go:215-242 | All rows are lowered by the occurrences in the tree, or none; refused exactly on disagreeing sizes or an underflow. |
| `DurableStores.DurableStore.AddBlobRefs` | mod/storage/sqliteindex/metadata.go:191-211 | Adds exactly the occurrences of each blob and takes the sizes of the tree; refused exactly on disagreeing sizes. |
| `DurableStores.DurableStore.DeleteObjects` | mod/storage/pebblestore/write.go:393-408 | Deletes within the given set only; all of it when it reports success, and it reports success when nothing faults. |
| `DurableStores.DurableStore.CleanupDeletedObjects` | mod/storage/version_mutation.go:35-68 | Removes, at most and on success exactly, what the superseded tree leaves unreferenced: its tree object when no version has it, its blobs and rows at count zero. |
| `DurableStores.DurableStore.DeleteVersion` | mod/storage/version_mutation.go:70-115 | Row and references go together, then exactly the objects nothing references; an absent version is left alone; in a healthy store without faults it always succeeds, and the reported estimate is the payload of the tree. |
| `DurableStores.DurableStore.ReferencedBytes` | mod/storage/sqliteindex/metadata.go:368-381 | The sum of sizes over the rows with a positive count. |
| `DurableStores.DeleteVersionKeeps` | mod/storage/version.go:399-420 | After deleting a version the store is healthy, only that version is gone, and every object that went belonged to its tree and is named by no remaining version. |
| `DurableStores.DeletedLeavesNothing` | mod/storage/version_mutation.go:35-68 | With exact counts, after a deletion whose clean-up ran to its end an object of the tree is stored if and only if some other version names it, and no row of its blobs is left at zero. |
| `Quotas.VersionProtected` | mod/storage/quota.go:185-205 | True exactly when the version has the incoming tree or a blob in common with it; it fails only on a missing tree object or a fault. |
| `Quotas.PositionCountsNewer` | mod/storage/sqliteindex/version.go:503-510 | In the newest-first listing the position of a version is the number of newer versions of its key. |
| `Quotas.RememberNewest` | mod/storage/quota.go:491-497 | Remembered are exactly the newest versions that the key must retain. |
| `Quotas.DeleteOldest` | mod/storage/quota.go:498-517 | Of one key exactly the versions beyond the cap that share nothing with the incoming tree go; other keys are untouched. |
| `Quotas.PrunePerKey` | mod/storage/quota.go:490-517 | The same with the listing at hand, plus exactly the newest remembered; without a cap nothing changes. |
| `Quotas.PrunesTheOldest` | mod/storage/quota.go:490-517 | Pruning takes nothing that is listed before an unshared version of its key that stays: by position, then by version. |
| `Quotas.KeepsTheNewest` | mod/storage/quota.go:490-497 | Whatever is evicted has at least the retained number of versions of its key listed before it. |
| `Quotas.EvictPrunable` | mod/storage/quota.go:457-488 | Over all keys, page by page: what is remembered is exactly the newest of every key, and a pruning that succeeds leaves of the old versions exactly those among the newest of their key up to the cap (never below the retained number) and those sharing an object with the incoming tree. |
| `Quotas.ScanPage` | mod/storage/quota.go:541-558 | The batch is what is evictable up to the last row consumed, all of it and in ingest order, and the page is left early only with a full batch. |
| `EvictionOrder.StallsFromStart` | mod/storage/quota.go:529-540 | From the start, the rows ahead are all versions: the stall condition speaks of their number and of how many are evictable. |
| `EvictionOrder.PageTakes` | mod/storage/sqliteindex/version.go:198-226 | A page takes as many rows off what lies past the cursor as it has, and a short one takes them all. |
| `Quotas.Gather` | mod/storage/quota.go:532-562 | The candidates are exactly what is evictable between two cursors, in ingest order; a full batch ends where it got full and any other with the listing; it ends in the early return that drops them if and only if the rows ahead are whole pages and fewer than a page of them are evictable. |
| `Quotas.EvictBatch` | mod/storage/quota.go:408-455 | Deletes a front part of the batch, all of it unless the measured bytes fell below the target; `done` says exactly that, the referenced bytes then are below the target, and the needed bytes never underflow. |
| `EvictionOrder.BatchIsOldestFirst` | mod/storage/quota.go:531-572 | Evicting a batch from its front never takes a version while an evictable one of an earlier ingest stays. |
| `EvictionOrder.OldestIsFirst` | mod/storage/sqliteindex/version.go:198-226 | In terms of the rows: a version that went has an ingest time no later than any evictable one that stays, and on a tie it is not later by key and version. |
| `Quotas.EvictRound` | mod/storage/quota.go:531-572 | One round evicts at least one version unless the candidate loop stalls or nothing is evictable, and then what is left to evict is exactly what was stranded from the start; it keeps to the order, and moves the cursor on. |
| `Quotas.EvictUntilTarget` | mod/storage/quota.go:519-574 | Nothing goes while an evictable version of an earlier ingest stays, and the last deletion was needed: before it the referenced bytes had not yet fallen below the target; unless it fails or has no target it ends below the target, or with exactly the stranded versions left to evict; when room is needed and nothing faults, nothing is evicted if and only if nothing is evictable, or the number of versions is a multiple of the page size and fewer than a page of them are evictable; a zero target evicts nothing. |
| `EvictionOrder.LeftIsStranded` | mod/storage/quota.go:532-563 | When the rounds end for want of candidates, exactly those versions are left to evict that the initial listing strands: the evictable ones after its last whole batch of evictable ones, when whole pages of rows follow that batch, and otherwise none. |
| `EvictionOrder.SteadyRound` | mod/storage/quota.go:531-572 | Each round that evicts its whole batch takes a whole batch of the initial listing, or everything that was left of it. |
| `EvictionOrder.StrandedIsPartOfABatch` | mod/storage/quota.go:532-563 | What a listing strands is always less than a page: what whole batches leave over, or nothing. |
| `EvictionOrder.StallsIsStranded` | mod/storage/quota.go:537-540 | Nothing at all goes exactly when everything evictable is stranded. |
| `EvictionExamples.StrandedThoughItWouldMakeRoom` | mod/storage/quota.go:537-540 | With any whole number of pages of versions of one key, of which all but the first share a blob with the incoming tree, the first is all that is evictable, and it is stranded. |
| `EvictionExamples.RefusedThoughOneDeletionMakesRoom` | mod/storage/quota.go:224-257 | From such a store a publish within the quota is refused after eviction, and once the first version is deleted the same publish is admitted: for whole pages of versions, and for any number when the publish needs all but one byte of the quota. |
| `EvictionExamples.RealExamples` | mod/storage/validate.go:18-34 | For all hashes that differ there are such stores of any size that the names allow, with keys, versions and trees the code accepts and tree objects of their true size. |
| `EvictionExamples.IsHealthy` | mod/storage/version_mutation.go:131-199 | In them nothing dangles and the counts are exact. |
| `StoredNames.PatchesAreAccepted` | mod/storage/obj.go:79 | One key with versions numbered in decimal: all accepted while the numbers are short enough, and no two the same. |
| `Quotas.EvictOneMore` | mod/storage/quota.go:408-455 | One more eviction keeps what eviction promises: only versions that share nothing with the incoming tree and are not among the newest went, and no object of the incoming tree was lost. |
| `Quotas.EvictVersions` | mod/storage/quota.go:576-584 | Pruning and then eviction: it ends below the target or as far as eviction reaches, and beyond what pruning takes nothing goes that was not needed. |
| `LiveBlobs.FreedAtMostPayload` | mod/storage/version_mutation.go:23-33 | What a deletion frees is at most the payload of the tree, the estimate with which eviction spares itself measurements. |
| `Lex.FirstDifference` | mod/storage/sqliteindex/version.go:198-226 | Byte order is decided at the first difference; a proper prefix comes first. |
| `Quotas.EnsureBudget` | mod/storage/quota.go:224-257 | Admission means referenced plus incoming bytes are below the maximum; refusal at once exactly when the incoming bytes alone reach it; a store with room is left alone; otherwise eviction ends with room made (also below the configured level when there is one) or with what it can reach gone, and beyond pruning its last deletion was needed; every outcome has evicted only what may be evicted; a refusal after eviction with a target above zero leaves, of what may be evicted, exactly what the rounds strand of the rows pruning left; without faults, a publish of all but one byte of the quota on a store with live bytes is admitted if and only if pruning alone leaves none. |
| `Publishing.PrepareStagedBlobs` | mod/storage/staged.go:390-439 | Accepted exactly when every staged blob is used, has its size, and its first file holds the declared content (a repeated declaration is taken on its size). |
| `Publishing.VerifyStagedReferences` | mod/storage/staged.go:441-483 | Success means every entry is staged or stored at its size; without faults the converse holds too. |
| `Publishing.PendingObjects` | mod/storage/pebblestore/write.go:330-364 | Exactly the staged blobs and the tree that the object store lacks, with the sum of their bytes. |
| `Publishing.PendingIsMissing` | mod/storage/staged.go:615-622 | For a verified publish that set is the objects of the incoming tree minus the object store. |
| `Publishing.WriteMissingObjects` | mod/storage/pebblestore/write.go:172-238 | Adds pending objects only; all of them when it succeeds. |
| `Publishing.CleanupPublishFailure` | mod/storage/pebble.go:40-67 | Removes only pending objects that the index does not reference, all of them when it succeeds; the store stays healthy. |
| `Publishing.ResolveUpstreamSeq` | mod/storage/version_mutation.go:117-129 | A republished version keeps its listing position, a requested one is taken as given, otherwise the version becomes the newest of its key. |
| `Publishing.MaxUpstreamSeq` | mod/storage/sqliteindex/version.go:512-536 | The largest position of the key, or zero. |
| `Publishing.PublishTx` | mod/storage/version_mutation.go:131-199 | All index changes of the commit or none; a history tag in use makes it fail; in a healthy store without faults that is the only failure. |
| `Publishing.EverythingWritten` | mod/storage/staged.go:623-628 | After any permitted eviction and the writes, every object of the incoming tree is stored, and the missing set was still the one computed before. |
| `Publishing.NothingLeftBehind` | mod/storage/pebble.go:58-67 | With exact counts a cleaned-up failure leaves no object that was not there before. |
| `Publishing.CommitPublish` | mod/storage/version.go:98-141 | Skipped exactly for an identical tree; a failure leaves index and counts alone; a success is the commit, less what the replaced revision leaves unnamed (all of it when nothing faults), under the right position and historical name. |
| `Publishing.PublishStaged` | mod/storage/staged.go:608-634 | The whole critical section: health and exact counts are kept, only evictable versions were evicted, each outcome is fully described. What is published or skipped fits below the quota with every byte that the object store lacked; with references that hold and no faults it is refused at once exactly when those bytes alone reach the quota, and refused after eviction only while they do not fit. A published row has the tree, ingest time and position asked for, the replaced one is gone or kept under its tag, and no other row changed. Without faults it fails only on bad references, refused admission or a history tag in use, and leaves nothing of the replaced tree that no version names. |
| `Publishing.PublishVerified` | mod/storage/staged.go:615-634 | The same from the reference check on: it is refused at once if and only if there is a quota and the bytes missing from the object store reach it. |
| `Publishing.OutcomeRows` | mod/storage/version_mutation.go:131-199 | What every published outcome does to the rows of the index. |
| `LogicalBytes.CommitConservesBytes` | mod/storage/version.go:98-141 | In each mode (new version, overwrite, history) a commit raises the referenced bytes by exactly the admitted bytes, less a newly written tree object, less what the replaced revision leaves unnamed, plus the orphan blobs it brings back to life. |
| `LogicalBytes.LiveAfterCommit` | mod/storage/version_mutation.go:131-199 | The blobs with references after a commit are those before, less what it leaves unnamed, plus what it newly names. |
| `LogicalBytes.OnlyReplacedIsUnnamed` | mod/storage/sqliteindex/metadata.go:566-610 | A new version and history mode leave nothing unnamed. |
| `LiveBlobs.SweepKeepsBytes` | mod/storage/version_mutation.go:35-68 | The clean-up after a commit, wherever it stops, changes no referenced bytes. |
| `LogicalBytes.BoundAfterCommit` | mod/storage/quota.go:224-257 | So after an admitted publish, in each mode, the referenced bytes are below the maximum exactly when the revived orphans fit into the room left and the room made. |
| `LogicalBytes.RevivedOrphanBreaksQuota` | mod/storage/quota.go:224-257 | For every size of tree object, every quota above it and every orphan blob not below the quota, a healthy store and a publish that is admitted and leaves the referenced bytes at or above the quota. |
| `Maintenance.CollectPaged` | mod/storage/maintenance.go:21-40 | The pages together are the whole set: nothing is skipped between two cursors. |
| `Maintenance.DeleteOrphanBatch` | mod/storage/maintenance.go:271-285 | Only candidates that are unreferenced when rechecked go; all of those on success. |
| `Maintenance.SweepCandidates` | mod/storage/pebblestore/gc.go:67-126 | Over the whole scan, only unmarked and unreferenced objects go, and on success all of them. |
| `Maintenance.CollectGarbage` | mod/storage/maintenance.go:287-295 | With no writer in between, a successful collection leaves exactly the referenced objects. |
| `Maintenance.CollectionLeavesExactlyTheReachable` | mod/storage/maintenance.go:287-295 | On a healthy store with exact counts those are exactly the objects of the indexed versions. |
| `Integrity.GroupedCount` | mod/storage/maintenance.go:51-90 | Counting each distinct tree once, times the number of its versions, is counting the entries of all versions. |
| `Integrity.TallyTree` | mod/storage/maintenance.go:71-82 | One tree is added to the tally, each entry as often as the tree has versions; refused exactly when some size disagrees. |
| `Integrity.ReachableObjectSet` | mod/storage/maintenance.go:51-90 | The paged loop tallies every tree exactly once; it succeeds exactly when every tree is stored and the trees agree on sizes. |
| `Integrity.AgreeingTreesFit` | mod/storage/maintenance.go:71-82 | When all trees agree on sizes no tree is refused, whatever was tallied before. |
| `Integrity.TalliedIsExact` | mod/storage/maintenance.go:51-90 | A tally of all trees is the exact reference count of every blob. |
| `Integrity.TallyIsUnique` | mod/storage/maintenance.go:51-90 | There is one tally, whatever the order of trees and pages. |
| `Integrity.RepairBlobRefs` | mod/storage/maintenance.go:307-318 | A successful rebuild makes the rows the exact tally and leaves exactly the reachable objects; a failed one changes nothing; without faults it succeeds exactly when the trees are stored and agree. |
| `IntegrityScan.ScanEntry` | mod/storage/maintenance.go:160-193 | An entry is reported as a mismatch, or counted and its blob checked once; what was checked is stored at the counted size, what failed was reported, and nothing is reported that is not so. |
| `IntegrityScan.ScanTrees` | mod/storage/maintenance.go:143-199 | After the tree loop every unreadable tree, missing blob and wrong size is in the report or its blob is known to have failed, and the expected counts are the tally when the trees are sound. |
| `IntegrityScan.ScanRows` | mod/storage/maintenance.go:201-237 | The row issues are exactly the rows that differ from the expected counts, other than those of failed blobs, whatever the paging. |
| `IntegrityScan.ReportOfRow` | mod/storage/maintenance.go:201-237 | For each blob: its row is reported as unexpected, missing or mismatched exactly when it is that against the true count and size. |
| `IntegrityScan.VerifyIntegrity` | mod/storage/maintenance.go:130-257 | Everything reported about a tree or a blob is so (or, with faults, could not be read), and every missing tree, missing blob and wrong size is reported. On a store where nothing dangles, without faults, the row issues are exactly the rows that no tree accounts for, those missing, and those that differ from the number of entries and the size. An empty report implies that nothing dangles and that the rows are exactly the true counts without leftover zero rows; without faults the converse holds. |
| `IntegrityScan.RepairThenVerify` | mod/storage/maintenance.go:307-331 | After a successful rebuild the scan reports no unexpected, mismatched or missing row; on a store where nothing dangles and without faults repair succeeds and the scan reports nothing at all. |
| `TreeCodec.ReadsWhatWasPrinted` | mod/storage/treecodec/codec.go:57-72 | A 64-bit number is read from exactly one byte string, its shortest form, whatever follows. |
| `TreeCodec.EntryPrinted` | mod/storage/treecodec/codec.go:169-208 | Reading an entry undoes printing it, whatever follows. |
| `TreeCodec.EntryReprints` | mod/storage/treecodec/codec.go:169-208 | Printing an entry that was read gives back the bytes it was read from. |
| `TreeCodec.BodyRoundTrip` | mod/storage/treecodec/codec.go:150-213 | Count and entries are read from exactly the printed form of the entries, with no trailing bytes. |
| `TreeCodec.Decode` | mod/storage/treecodec/codec.go:137-233 | Accepts exactly the printed forms of valid trees in path order, and gives back the tree. |
| `TreeCodec.Encode` | mod/storage/treecodec/codec.go:235-287 | Accepts entries in any order exactly when they make a valid tree whose object is not too large; the bytes are those of the tree in path order. |
| `TreeCodec.SameBytesSameTree` | mod/storage/treecodec/codec.go:235-287 | Two accepted listings have the same bytes exactly when they hold the same entries, in whatever order. |
| `TreeCodec.EncodeThenDecode` | mod/storage/treecodec/codec.go:133-287 | Decoding undoes encoding, up to the order of the entries. |
| `StagedEntries.NormalizeStaged` | mod/storage/staged.go:339-388 | Refused exactly when an entry is malformed or a limit is exceeded (sums saturate); each entry becomes its normal form, and the used and symlink blobs are exactly those of the tree. |
| `StagedEntries.CanonicalTree` | mod/storage/staged.go:517-534 | The normal forms and the hash of their tree object; refused exactly when normalising or encoding refuses. |
| `StagedEntries.VerifySymlinkTargets` | mod/storage/staged.go:223-252 | Without faults, passes exactly when every symlink target is within the path limit and stays in the root from where it stands, and each content has the size of the first symlink that has it. |
| `StagedEntries.VerifiedIsStored` | mod/storage/staged.go:612-617 | With content addressing and true sizes, a tree passes it if and only if it is one that can be packed and unpacked unchanged. |
| `StagedEntries.SameHashSameTree` | mod/storage/staged.go:517-520 | Two accepted listings get one tree hash exactly when they stand for the same entries, if the hash tells their objects apart. |
| `ArtifactFlights.RunIsSound` | mod/storage/artifact_flight.go:15-87 | In any order of join, leave, finish, open, count and close, waiters are counted, a flight without waiters or with a result is cancelled, and the removal of a transient file is due or done exactly when nobody waits or holds it. |
| `ArtifactFlights.RefsAreWaitersPlusHandles` | mod/storage/artifact_flight.go:38-87 | The count of a finished transient file is the waiters that have not left plus the open handles. |
| `ArtifactFlights.NobodyOpensARemovedFile` | mod/storage/hot_build.go:119-161 | Nobody opens the file once its removal was decided, and while a handle is open it is not removed. |
| `ArtifactFlights.CleanupFindsNobody` | mod/storage/hot_build.go:119-127 | The removal runs only for a finished transient file with no waiter and no handle, and is the first to run. |
| `ArtifactFlights.CleanupRunsOnce` | mod/storage/hot_build.go:119-127 | It runs at most once in a run. |
| `ArtifactFlights.NothingIsLeftOver` | mod/storage/artifact.go:137-158 | When all have gone, a transient file was removed exactly once and a retained one not at all. |
| `ArtifactFlights.CancelledOnceEmptied` | mod/storage/artifact_flight.go:15-60 | In every run an unfinished build is cancelled if and only if at some moment before nobody was waiting for it. |
| `ArtifactFlights.JoinerInheritsCancellation` | mod/storage/artifact_flight.go:15-60 | The build a caller joins is live for it if and only if the flight was never without waiters. |
| `ArtifactFlights.LateJoinersFindItCancelled` | mod/storage/artifact_flight.go:15-60 | A run in which one caller leaves and two join: the second of them finds a waiter inside and a cancelled build. |
| `ArtifactFlights.FlightObj.Open` | mod/storage/hot_build.go:129-161 | Finds the file there, and counts a handle exactly when the open succeeds. |
| `ArtifactFlights.FlightObj.CloseHandle` | mod/storage/hot_build.go:102-117 | One handle less; the last holder of a transient file removes it. |
| `ArtifactFlights.FlightObj.Leave` | mod/storage/artifact_flight.go:38-60 | One waiter less; the last one cancels an unfinished build, or removes a transient file nobody holds. |
| `ArtifactFlights.FlightObj.Finish` | mod/storage/artifact_flight.go:62-87 | Fixes the result and counts the waiters still inside; with none left a transient file goes at once. |
| `ArtifactFlights.Flights.JoinFlight` | mod/storage/artifact_flight.go:15-36 | The caller owns the build exactly when none is under way for the key, and otherwise joins that one; other flights are untouched. |
| `ArtifactFlights.Flights.FinishFlight` | mod/storage/artifact_flight.go:62-87 | The flight leaves the table together with getting its result, so the table holds exactly the unfinished flights. |
| `HotPaths.EveryDeferredDeletionIsDischargedOnce` | mod/storage/hot_path.go:25-65 | In every run the count of a path is its outstanding retains, a pending deletion has a live holder, and all deferred deletions but the pending one were discharged. |
| `HotPaths.OnlyTheLastReleaseDischarges` | mod/storage/hot_path.go:25-52 | A step discharges a deletion exactly when it is the release of the last holder of a path with one pending. |
| `HotPaths.ReleaseKeeps` | mod/storage/hot_path.go:25-52 | A release discharges exactly then, and keeps counts and pending deletions right. |
| `HotPaths.MarkKeeps` | mod/storage/hot_path.go:54-65 | A deletion is deferred exactly for a path that is held. |
| `HotPaths.HotFiles.ReleaseHotPath` | mod/storage/hot_path.go:25-52 | The file goes with the release that discharges a deletion and with no other. |
| `HotPaths.HotFiles.MarkHotDeletePending` | mod/storage/hot_path.go:54-65 | Reports exactly whether somebody holds the path, and defers once. |
| `HotPaths.HotFiles.RemoveBudgetFile` | mod/storage/quota.go:111-128 | A held file stays and is deferred; the running total drops by exactly what was removed, never below zero. |
| `HotPaths.HotFiles.DiscardInvalidHotFile` | mod/storage/hot_path.go:164-181 | An invalid file goes at once when its reader is the only holder and otherwise stays with its deletion pending. |
| `Registry.UpsertKeeps` | mod/state/registry.go:188-241 | Raising keeps the registry sound: within capacity, the queue exactly the inactive records in deactivation order, the index exactly the keyed records without empty groups. |
| `Registry.UpsertSparesActive` | mod/state/registry.go:188-241 | Raising never touches another active record, and is refused exactly when a full registry is all active; the refusal only counts. |
| `Registry.UpsertRaises` | mod/state/registry.go:188-241 | What raising writes into the record, field by field, and that no other record changes. |
| `Registry.EvictionTakesTheLongestInactive` | mod/state/registry.go:175-186 | Eviction takes an inactive record, and every other inactive one became inactive later. |
| `Registry.DeactivateAllEffect` | mod/state/registry.go:243-262 | A clear deactivates exactly the chosen records, queues them in the order visited and changes nothing else. |
| `Registry.DeactivateAllKeeps` | mod/state/registry.go:243-262 | Whatever order the map yields, clearing keeps the registry sound. |
| `Registry.UnindexKeeps` | mod/state/registry.go:109-121 | Removing a record keeps the index exact, dropping a group that becomes empty. |
| `RegistryObjects.InactiveList.PushTail` | mod/state/registry.go:132-147 | The links on the heap spell out the old queue with the record at its end. |
| `RegistryObjects.InactiveList.Splice` | mod/state/registry.go:149-173 | Taking a record out relinks exactly its two neighbours, or the ends. |
| `RegistryObjects.InactiveList.Unlink` | mod/state/registry.go:149-173 | A listed record leaves and the rest keep their order, with length and links right; a record that is not listed changes nothing. |
| `RegistryObjects.Diagnostics.Deactivate` | mod/state/registry.go:299-327 | The record on the heap turns inactive and goes to the end of the list. |
| `RegistryObjects.Diagnostics.EvictOldestInactive` | mod/state/registry.go:175-186 | The head leaves list, map and index; nothing happens when there is none. |
| `RegistryObjects.Diagnostics.IndexDiagnostic` | mod/state/registry.go:97-107 | The identity joins the group of its key; a keyless one is not indexed. |
| `RegistryObjects.Diagnostics.UnindexDiagnostic` | mod/state/registry.go:109-121 | The identity leaves its group, and an empty group leaves the index. |
| `RegistryObjects.Diagnostics.Upsert` | mod/state/registry.go:188-241 | The pointer code is the operation on values: repeat, insert, evict and insert, or count a refusal; success is reported exactly when it is not refused. |
| `RegistryObjects.Diagnostics.ClearDiagnostics` | mod/state/registry.go:243-262 | Deactivates, once each and through the key index, exactly the active records of the key, or of the key and version. |
| `MirrorState.Start` | mod/state/init.go:26-70 | Starts exactly on a valid configuration, with one key for each mirror that shows its source and is otherwise unknown, and a snapshot that is a full rebuild. |
| `MirrorState.StateObj.PublishChanged` | mod/state/helper.go:60-68 | After a structural change the published snapshot is a full rebuild at the next generation; without change nothing is published. |
| `MirrorState.StateObj.PublishMetaChanged` | mod/state/helper.go:70-83 | When only checksum or rescan time changed, replacing those fields is a full rebuild. |
| `MirrorState.StateObj.PublishKeyViewsChanged` | mod/state/helper.go:85-109 | When only key records changed, new key views with the old statuses are a full rebuild. |
| `MirrorState.StateObj.PublishHealthChanged` | mod/state/helper.go:111-123 | When only the dropped count changed, replacing it is a full rebuild. |
| `Registry.TrimKeepsText` | mod/state/helper.go:138-151 | A stored message is a prefix of at most 4096 bytes; a longer one is cut to its longest valid UTF-8 prefix within that, and a valid one loses at most three bytes more. |
| `MirrorState.StateObj.RaiseDiagnostic` | mod/state/registry.go:270-296 | Invalid ones are refused without effect; a valid one fails exactly when it is dropped, which is counted and changes nothing else. Otherwise its record is active with the impact, reason, trimmed message and time given, first seen as before and counted once more up to the 64-bit maximum, or first seen now and counted once; of the others at most the head of the inactive list goes. The snapshot is a full rebuild after either publisher. |
| `MirrorState.StateObj.ClearDiagnostic` | mod/state/registry.go:299-327 | Deactivates exactly the named record if it was active, and changes nothing else of any record; the snapshot is a full rebuild. |
| `MirrorState.StateObj.ClearDiagnosticsOf` | mod/state/registry.go:330-361 | Deactivates exactly the active records of the key, or key and version, and changes nothing else of any record; refused exactly for an unknown key or a bad version. |
| `MirrorState.StateObj.ClearAllDiagnostics` | mod/state/registry.go:364-381 | Deactivates exactly the active records, each once, and changes nothing else of them. |
| `MirrorState.StateObj.ApplyAvailabilityBatch` | mod/state/availability.go:147-196 | All updates or none: refused exactly for an unknown or repeated key, a bad time or too many updates; every scan that counts is shown with its time, reach, presence and counter; the snapshot is a full rebuild. |
| `MirrorState.AppliedAllAt` | mod/state/availability.go:147-196 | Each key of a batch gets its own update from its old contents; other keys keep theirs. |
| `MirrorState.StateObj.SetClassification` | mod/state/method.go:63-116 | Refused exactly on invalid input or when a classified key would change class without permission; otherwise the key shows the class and its URLs, and only that key changes. |
| `MirrorState.StateObj.SetRemoteKey` | mod/state/method.go:120-145 | Only the remote key of that key changes, and an empty remote key stands for the key itself. |
| `MirrorState.StateObj.SetMirrorStatsBatch` | mod/state/method.go:154-211 | All statistics or none, each shown by its own key with nothing else of it changed; other keys keep theirs. |
| `MirrorState.StatsAreShown` | mod/state/method.go:154-211 | Each key of a batch shows its own statistics, whatever the order, and no other key changes. |
| `MirrorState.StateObj.SetLastRescan` | mod/state/method.go:214-227 | The time is set and nothing else; the snapshot is a full rebuild. |
| `MirrorState.StateObj.SetContentChecksum` | mod/state/checksum.go:9-29 | The checksum is set and nothing else; the snapshot is a full rebuild. |
| `Snapshots.NeverTied` | mod/state/snapshot.go:66-81 | Two different records whose scope goes with key and version are never tied in the sort, although it does not look at the scope. |
| `Snapshots.SnapshotIsUnique` | mod/state/snapshot.go:105-153 | One state has one snapshot, whatever order maps were visited in. |
| `Snapshots.KeyViewsAreRebuild` | mod/state/helper.go:85-109 | Key views rebuilt with the old statuses are right when no diagnostic changed. |
| `Snapshots.KeyViewsMissDiagnostics` | mod/state/helper.go:85-109 | After any visible change of a diagnostic they are not: that publisher would leave a stale snapshot. |
| `Snapshots.HealthIsRebuild` | mod/state/helper.go:111-123 | The health publisher is right when only the dropped count changed. |
| `SnapshotBuild.Collect` | mod/state/snapshot.go:105-129 | One pass in any order gathers exactly the active views, their reasons, and the worst impact overall, globally and for each key. |
| `SnapshotBuild.SortViews` | mod/state/snapshot.go:66-81 | A strictly sorted list of exactly the given views. |
| `SnapshotBuild.Rebuild` | mod/state/snapshot.go:105-153 | The result is a snapshot of the state: exactly the active diagnostics newest first, at most 32 smallest reasons in order, for each key and overall the worst impact that concerns it, keys in order. |
| `Snapshots.SnapshotWrittenOut` | mod/state/snapshot.go:66-153 | What any snapshot shows, field by field: the active records newest first, the smallest reasons, the worst impact overall and for each key, and the keys in order. |
| `Availability.CounterDeterminesStatus` | mod/state/availability.go:54-112 | Over any run the counter is capped, decides temporary from permanent unavailability, and a key never scanned is unknown. |
| `Availability.CounterRisesByOne` | mod/state/availability.go:76-105 | A step raises the counter by at most one, and only an unavailable scan at its own time does. |
| `Availability.ScanIsShown` | mod/state/availability.go:41-112 | A scan counts when it is later than the last one, or as late while the source is up. Then it is shown with its time and presence; an available one clears the counter and permits a change of class after a full outage, an unavailable one counts up to the limit and takes the permission back. Any other scan changes nothing. |
| `Availability.ClassIsShown` | mod/state/method.go:63-116 | A classification shows the class and the URLs that go with it; it changes nothing else that is shown. |
| `Availability.OneRisePerTimestamp` | mod/state/availability.go:41-52 | Two rises of the counter come from strictly increasing scan times. |
| `Availability.ReclassificationNeedsOutage` | mod/state/method.go:63-116 | A classified key changes class only after a full run of consecutive unavailable scans at strictly increasing times. |
| `Availability.EachReclassificationNeedsItsOwn` | mod/state/method.go:63-116 | Each further change needs such a run of its own, entirely after the previous change. |
| `Availability.OutageAfterFirstClass` | mod/state/method.go:63-116 | Between the first classification and a later change of class there is a full outage if and only if the counter was 0 after that classification and reached the limit afterwards; in particular if it was 0 at that classification. |
| `Availability.FirstClassGuards` | mod/state/method.go:63-116 | However the run goes on, every later change of class needs a full outage after the first classification, if and only if that classification happens while the counter is 0. |
| `Availability.OutageMayPrecedeFirstClass` | mod/state/method.go:63-116 | For every limit, any run whose last step is a first classification with the counter above 0 goes on to a change of class with no full outage in between. |
| `Availability.FirstClassWhileDown` | mod/state/method.go:63-116 | For every limit there is such a run. |
| `Rewrite.RewriteScan` | mod/overlay/rewrite.go:37-75 | Both passes compute the same rewriting: the size pass its length, the content pass its bytes. |
| `Rewrite.ModulePathCharacters` | mod/overlay/rewrite.go:14-22 | Module path bytes are exactly the letters, the digits and the characters . - _ ~ /. |
| `Rewrite.RewriteContent` | mod/overlay/rewrite.go:77-80 | The content is the scanner's rewriting of the data. |
| `Rewrite.RewrittenSize` | mod/overlay/rewrite.go:82-85 | The size is the length of that content. |
| `Rewrite.ContainsModulePath` | mod/overlay/rewrite.go:87-103 | True exactly when a non-empty path has a boundary-delimited occurrence. |
| `Rewrite.ScannerIsExact` | mod/overlay/rewrite.go:14-75 | For a non-empty path the scanner replaces exactly the boundary-delimited occurrences, on all data, if and only if every self-overlap of the path puts a module path byte before the second occurrence; paths of module path bytes are all of that kind. |
| `RewriteExamples.SkippedOccurrence` | mod/overlay/rewrite.go:37-75 | A path with another kind of self-overlap and data in which the scanner steps over the only delimited occurrence, whatever the target. |
| `Rewrite.BoundariesAreDisjoint` | mod/overlay/rewrite.go:24-35 | For such paths delimited occurrences never overlap, so all of them can be replaced. |
| `Rewrite.NothingToRewrite` | mod/overlay/rewrite.go:37-103 | Data without a delimited occurrence comes out unchanged, whatever the path. |
| `Rewrite.SomethingToRewrite` | mod/overlay/rewrite.go:37-103 | Data with one, for a path of module path bytes and another target, does not. |
| `RewriteUndo.ReplacedIsRunwise` | mod/overlay/rewrite.go:24-75 | The rewriting maps each maximal run of module path bytes by itself. |
| `RewriteUndo.BoundaryIsPrefix` | mod/overlay/rewrite.go:24-35 | At the start of a run a delimited occurrence is exactly a directory prefix of the run. |
| `RewriteUndo.RewriteUndone` | mod/overlay/rewrite.go:77-80 | For different non-empty paths, rewriting there and back restores the data if and only if every delimited occurrence of the new path is one of the old path. |
| `RewriteExamples.TargetWasThereBefore` | mod/overlay/rewrite.go:77-80 | Concrete data that holds the new path and does not come back. |
| `RewriteUndo.RewriteUndoneIfTargetIsNew` | mod/overlay/rewrite.go:77-80 | In particular when the new path does not occur in the data. |
| `GoZip.ScanRewriteBlobs` | mod/overlay/detect.go:81-111 | Exactly the blobs of Go source files that contain the path, sorted; it fails only on a read. |
| `GoZip.GoSourceIs` | mod/overlay/detect.go:59-61 | Go source is exactly every path that ends in .go, and go.mod at the top or in a directory. |
| `GoZip.GoFilesAreRewritten` | mod/overlay/gozip.go:99-111 | Leaving the other blobs out changes nothing: every Go source file has the content that rewriting it would give. |
| `GoZip.OtherFilesAreKept` | mod/overlay/gozip.go:99-111 | Any file keeps its content if and only if no Go source file with the same blob contains the path. |
| `GoZip.NotesAreRewritten` | mod/overlay/detect.go:81-111 | A tree with a text file that has the content of a Go source file, and is delivered rewritten. |
| `GoZip.RewriteCache.Put` | mod/overlay/gozip.go:52-64 | An entry is added only if it fits; used bytes are the sum of the entries and stay within the budget. |
| `GoZip.ZipBuilder.Lstat` | mod/overlay/gozip.go:118-136 | The reported size is the length of what `Open` delivers, whatever the cache holds. |
| `GoZip.ZipBuilder.Open` | mod/overlay/gozip.go:99-145 | Delivers the rewritten or stored content, cached or not. |
| `GoZip.ZipBuilder.Build` | mod/overlay/gozip.go:162-191 | Every entry in order with its content at the size announced for it; a tree with a symlink is refused, and without faults only that. |
| `CacheModel.DeltaIsExact` | mod/cache/shard.go:7-65 | Every operation changes the bytes of its shard by exactly the delta it hands back, and keeps keys distinct. |
| `CacheModel.HitMovesToFront` | mod/cache/shard.go:22 | A hit moves the item from where it is to the front and leaves the others in order. |
| `CacheModel.ListIsByRecency` | mod/cache/shard.go:7-54 | In every history of a shard the list is in order of last use, hits and stores, the most recent first. |
| `CacheModel.EvictionTakesTheLeastRecentlyUsed` | mod/cache/shard.go:41-54 | So in every history what an eviction takes was last used before everything it leaves. |
| `CacheModel.TurnKeepsNeeded` | mod/cache/cache.go:102-118 | Over the turns of the loop what has gone was needed: the last item taken would not fit with what is left. |
| `CacheModel.BytesAreConserved` | mod/cache/cache.go:15-47 | In every interleaving the global counter plus the deltas not yet applied is the size of all items; with none outstanding it is that size. |
| `CacheModel.NegativeWhileDeltasAreDue` | mod/cache/cache.go:15-47 | In every interleaving the counter is negative if and only if the deltas not yet applied add up to more than the size of all items. |
| `CacheModel.CounterMayBeNegative` | mod/cache/cache.go:35-47 | A concrete interleaving in which it is. |
| `Cache.Shard.Get` | mod/cache/shard.go:7-24 | A live item is returned and moves to the front, the others keeping their order; otherwise what had the key is taken out, with its size handed back, and nothing else moves; map and list stay the same items. |
| `Cache.Shard.InsertItem` | mod/cache/shard.go:26-39 | The item goes to the front, replacing one with its key, and the delta is the change in bytes. |
| `Cache.Shard.EvictLast` | mod/cache/shard.go:41-54 | The last item goes, and its texts and the fixed overhead are what is freed; nothing is freed exactly when the shard is empty. |
| `Cache.Shard.ClearAll` | mod/cache/shard.go:56-65 | Empties the shard and hands back the size of what it held. |
| `Cache.CacheObj.Lookup` | mod/cache/cache.go:15-21 | Returns exactly a live item, which moves to the front of its shard with the others in order, and gives back the bytes of an expired one, which leaves it. |
| `Cache.CacheObj.EvictTurn` | mod/cache/cache.go:102-118 | One turn of the round robin, at the shard behind the cursor: its last item goes and its bytes are freed, or it is empty and the run of empty shards gets longer. |
| `Cache.CacheObj.EvictToBudget` | mod/cache/cache.go:102-118 | It terminates, takes only from the ends of the lists, and with nothing in flight ends within the budget; nothing goes unless it is needed: with the last item evicted the rest would not fit. |
| `Cache.CacheObj.Set` | mod/cache/cache.go:35-47 | A positive time to live puts the item at the front of its shard in place of what had its key, and evicts back to the budget, nothing when it fits. |
| `Cache.CacheObj.Clear` | mod/cache/cache.go:121-125 | Every shard is empty and the counter is zero. |
| `ArchivePaths.AncestorIsLess` | mod/archive/helper.go:120-130 | Byte order puts every directory before what is inside it. |
| `ArchivePaths.HasSeenParent` | mod/archive/helper.go:120-130 | Finds a seen directory of the path exactly when there is one. |
| `ArchivePaths.ScanInOrder` | mod/archive/helper.go:169-185 | Over entries in path order the scan accepts exactly those with distinct paths none of which is a directory of another. |
| `ArchivePaths.ValidateFinalEntries` | mod/archive/helper.go:162-187 | For entries in any order: accepted exactly when not empty, canonical, distinct and free of conflicts; the result is the same entries in path order. |
| `ArchivePaths.ValidateParsed` | mod/storage/treecodec/codec.go:215-233 | A decoded list is accepted exactly when it is such a tree already in path order. |
| `ArchivePaths.AscendingIsUnique` | mod/archive/helper.go:162-187 | One tree has one sorted form. |
| `ArchiveExtract.StripCommonTopDir` | mod/archive/helper.go:132-160 | If one directory holds every entry, the entries come back with their paths relative to it and nothing else changed; if none does, they come back as they were. |
| `ArchiveExtract.CommonTopHoldsAll` | mod/archive/helper.go:132-152 | The first segment is common to all paths if and only if the directory of that name holds every entry. |
| `ArchiveSpool.Extractor.AddEntry` | mod/archive/helper.go:243-265 | A second file with the same content is removed at once; refused exactly on two sizes for one hash; one file for each distinct content. |
| `ArchiveSpool.Extractor.CopyToTemp` | mod/archive/helper.go:286-330 | Either a new recorded file within the limits, or nothing left in the spool. |
| `ArchiveSpool.Extractor.TakeRecord` | mod/archive/helper.go:217-343 | Without faults a record is taken exactly when counts, limits, path and sizes allow it. |
| `ArchiveSpool.Extractor.DropOrphanBlobs` | mod/archive/helper.go:366-381 | Exactly the blobs of kept entries keep their files. |
| `ArchiveSpool.Extractor.FilterEscapingSymlinks` | mod/archive/helper.go:345-364 | Exactly the symlinks that leave the root are dropped and their paths listed, in order, and the spool follows. |
| `ArchiveSpool.Extractor.Result` | mod/archive/helper.go:383-404 | Succeeds, without faults, exactly when what is left is a valid tree, with an inventory that is exactly the files added to the spool. |
| `ArchiveSpool.Extract` | mod/archive/extract.go:14-64 | What is returned are the entries that the files and symlinks of the archive stand for, taken from below the directory that holds them all, if there is one, without the symlinks that point outside, whose paths are listed in order. On success the spool gained exactly one file for each distinct content of a returned entry; on any failure nothing created remains; without faults it succeeds exactly for archives within the limits that unpack to a valid tree. |
| `ArchiveContents.UnpackedComesOut` | mod/archive/helper.go:132-404 | What the extractor computes step by step is what the archive says, record by record: recorded entries, common directory, and for each symlink the last target with its content. |
| `ArchiveContents.TargetsAreLast` | mod/archive/helper.go:268-284 | The target kept for a symlink content is that of the last such record, and every one has a target. |
| `ArchiveContents.ConcatAppends` | mod/archive/helper.go:286-330 | The pieces of a file are joined in the order in which they arrive. |
| `ArchiveRoundTrip.ValidateWriteEntries` | mod/archive/write.go:161-207 | Accepted exactly when everything is within the limits and the paths make a tree; the result is in path order. |
| `ArchiveRoundTrip.WriteArchive` | mod/archive/write.go:296-455 | The records stand for the entries in path order with their contents; without faults it succeeds exactly when entries and contents are writable. |
| `ArchiveRoundTrip.StripUndoesPrefix` | mod/overlay/universal.go:24-45 | Stripping takes off the added prefix and nothing else, even from a tree with a single top directory of its own. |
| `SymlinkRule.StaysUnderPrefix` | mod/internal/util/path.go:192-201 | A symlink that stays inside a tree stays inside it when the tree is moved below a directory. |
| `SymlinkRule.ClimbsSomewhere` | mod/internal/util/path.go:196-199 | A cleaned path climbs above its start if and only if some front part of it has more steps up than down. |
| `SymlinkRule.WalkUnder` | mod/internal/util/path.go:196-199 | Cleaning a path that never climbs above its start gives the same place one directory further down. |
| `ArchiveRoundTrip.PrefixStored` | mod/archive/write.go:151-159 | So every content and symlink of a published tree may be written under the prefix. |
| `ArchiveRoundTrip.UnpackUndoesPack` | mod/overlay/universal.go:24-46 | A packed published tree unpacks to exactly that tree: same paths, modes, sizes and hashes, with all its symlinks. |
| `ArchiveRoundTrip.Build` | mod/overlay/universal.go:24-46 | Builds, without faults, exactly for valid names and a prefixed tree that is writable: each file of the tree in order below the directory named by key, dash and version, with its content; a published tree is built whenever names, limits and paths allow it. |
| `ArchiveRoundTrip.ExtractBuilt` | mod/rescan/ingest.go:666-682 | An archive built from a published tree, read back in any pieces, gives exactly that tree unless reading fails. |
| `Refs.ReadPrinted` | mod/source/refs.go:69-92 | Reading a packet undoes printing it, whatever follows ("pkt-line Format" in gitprotocol-common). |
| `Refs.LinePrinted` | mod/source/refs.go:129-136 | A well-formed ref line, with or without capabilities, is read back. |
| `Refs.Parse` | mod/source/refs.go:94-156 | The reading loop computes the parse of what the size limit lets it see. |
| `Refs.AllMatch` | mod/source/refs.go:137-155 | Reading refs that are listed once, in any order, leaves exactly the tags they define: peeled if there is a peeled ref, otherwise direct. |
| `Refs.ParsePrinted` | mod/source/refs.go:94-156 | Parsing undoes printing for well-formed advertisements listing each ref once ("Discovering References" in gitprotocol-http). |
| `Refs.TooLongIsRefused` | mod/source/refs.go:94-156 | An advertisement longer than allowed is never parsed. |
| `BlobBatches.SessionLimits` | mod/source/brother.go:244-257 | Never above what the remote side announced, and never zero. |
| `BlobBatches.CheckBatch` | mod/source/brother.go:404-423 | Admits exactly a batch within the count whose 64-bit sum is within the bytes. |
| `BlobBatches.BrotherFetchBlobs` | mod/rescan/brother.go:543-582 | Sends exactly the greedy cut of the list, or a front part of it when a fetch fails. |
| `BlobBatches.BatchesConcatenate` | mod/rescan/brother.go:543-582 | The batches are the request list, in order. |
| `BlobBatches.BatchesAdmitted` | mod/source/brother.go:404-423 | When no single blob exceeds the byte limit the receiver admits every batch, even if sums wrap. |
| `BlobBatches.SingleOversizeRefused` | mod/source/brother.go:404-423 | A blob over the limit is sent all the same and refused even alone. |
| `BlobBatches.FewestBatches` | mod/rescan/brother.go:543-582 | No in-order split into batches really within both limits has fewer batches. |
| `DeletionGrace.Rescan.See` | mod/rescan/deletion.go:33-77 | One stored version: the counter and the removal follow from what the scan saw of it; no other counter moves. |
| `DeletionGrace.Rescan.ApplyDeletionGrace` | mod/rescan/deletion.go:33-77 | Over a listing each stored version gets exactly its own update, and nothing else changes; those removed are exactly the versions that are not listed, not kept back by a rule or a mark, missed often enough, and whose removal succeeds. |
| `DeletionGrace.CounterCountsAbsences` | mod/rescan/deletion.go:19-77 | Between resets the counter counts the absences and nothing else. |
| `DeletionGrace.RemovalNeedsGrace` | mod/rescan/deletion.go:33-77 | A removal comes only after the configured number of absences since the counter last started from zero. |
| `DeletionGrace.GraceWhenFirstDue` | mod/rescan/deletion.go:33-77 | Counted from the last listing before a removal is first due, whatever failed before: the grace is full if and only if that listing put the counter back, or nothing had been counted by then, or one absence is grace enough. |
| `DeletionGrace.GraceSinceListingIfApplied` | mod/rescan/deletion.go:33-77 | Counted from the last listing before a removal, when removals never fail: the grace was full if and only if that listing put the counter back, or nothing had been counted by then, or an earlier removal intervened. |
| `DeletionGrace.GraceCanBeShort` | mod/rescan/deletion.go:33-77 | A concrete run in which a listed version goes after a single further miss under a grace of three. |
| `KeySources.Reconcile` | mod/maintenance/keysource.go:38-91 | Suppresses exactly the bound keys whose URL changed and the new keys whose URL is shared or bound, each with a fitting reason. |
| `KeySources.StartKeepsBindings` | mod/maintenance/keysource.go:38-91 | The keys let start keep one key for each URL, and no binding moves. |
| `KeySources.StartKeepsBindingsExactly` | mod/maintenance/keysource.go:38-91 | Whether or not the bindings could be listed, a start keeps one key for each URL and moves no binding if and only if the check against all bindings would have passed every key it started; with the list it did. |
| `KeySources.BindingsSurviveBoots` | mod/maintenance/keysource.go:38-91 | So across any number of starts at which the bindings could be listed, or that started no key they speak against. |
| `KeySources.EveryStartCounts` | mod/maintenance/keysource.go:38-91 | Along a run, every start keeps the bindings if and only if no start ran a key that the bindings at the time speak against. |
| `KeySources.UnlistedBootBreaksBindings` | mod/maintenance/keysource.go:38-60 | A concrete start at which they could not be listed and that moves a binding and binds one URL twice. |

## Left out

- Object corruption: a stored object always holds what its hash names; the scan of stored blobs that no row names is
  not modelled, and neither are SQLite's own integrity checks.
- Publishing.PublishStaged: validation of metadata and side arrays and publish slots are not modelled, because they
  only refuse before anything changes; the check of symlink targets is `StagedEntries.VerifySymlinkTargets`.
- Publishing.PrepareStagedBlobs: checks on the spool file itself (path inside the spool, same file, no link) are not
  modelled.
- Publishing.VerifyStagedReferences: the length check of symlink contents that are already stored is not repeated here;
  it is part of `StagedEntries.VerifySymlinkTargets`.
- ProtocolRuns.PublishingRuns: the case without eviction; with it, `PublishStagedRuns`.
- Quotas.EnsureBudget: byte counts are unbounded naturals; 64-bit overflow of sums is not modelled.
- DurableStores.DurableStore.TreePayloadEstimate: sizes are added as unbounded naturals; 64-bit wrap-around is not
  modelled.
- Maintenance.CollectGarbage: the method runs with no writer in between; with writers it is the collector steps of
  `StoreProtocol` (`ProtocolRuns.CollectionRuns`, `StoreProtocol.CollectionIsComplete`).
- IntegrityScan.VerifyIntegrity: reports are sets of issues, not ordered texts; SQLite's own checks and the scan of
  stored blobs without a row are not modelled.
- Publish with contents in memory, tombstones (`MarkUpstreamDeleted`, `ResurrectVersion`), quarantine, the historical
  counter (any tag is allowed, a taken one fails), deletion of a whole key, vacuum and inspection.
- File system detail: fsync, rename, no-follow opens, directory walks, the hot byte cache and the order of hot budget
  eviction; unlinking a temporary file succeeds.
- HotPaths.HotFiles.ReleaseHotPath: races between unlinking a path and reopening or rebuilding it are not modelled.
- ArtifactFlights.FlightObj.Open: validation of a shared file after opening is not modelled.
- MirrorState.StateObj.RaiseDiagnostic: texts are strings of bytes, white space is blank, tab, line feed and carriage
  return, and severity, kind and similar codes are one reason and one impact.
- MirrorState.StateObj.SetClassification: key records are values in a map that is reassigned, not objects.
- Cache.CacheObj.EvictToBudget: what concurrent evictions do to each other beyond conservation; build gates,
  statistics and single-flight building are left out.
- Cache.CacheObj.Set: the same; the interleavings of shard operations are those of `CacheModel`.
- GoZip.ZipBuilder.Build: the checks of the zip library on module version and paths are not modelled.
- GoZip.RewriteCache.Put: `usedBytes` does not wrap.
- Ecosystem detection other than the rewrite set, the gate on publishing Go modules, Composer and raw overlays.
- zip, tar and gzip formats: an archive is an ordered list of records; compression ratio and output size caps, pax
  headers and trailing data are left out.
- ArchiveSpool.Extract: checks that the spool directory was not replaced and the cap on the compressed input are not
  modelled.
- ArchiveRoundTrip.WriteArchive: the cap on the size of the output is not modelled.
- TreeCodec.Decode: `binary.Uvarint` is written out; hashes are 24 characters below 256.
- BlobBatches.BrotherFetchBlobs: handling of replies, retries and missing blobs is not modelled.
- DeletionGrace.Rescan.ApplyDeletionGrace: version rules arrive as flags, and removal and tombstone are one outcome.
- KeySources.BindingsSurviveBoots: bindings written while running are not modelled; when the lookup of a key's source
  fails, `persistBrotherOrigin` (mod/rescan/brother.go:468-482) can bind or move a key between two starts.
- KeySources.Reconcile: `canonicalizeURL` is a parameter; persisting a new binding is part of a start.
- HTTP, RPC framing, Yggdrasil, configuration, logging, telemetry, rendering and link building: plumbing over
  libraries.
- Crash durability of single writes; timers, jitter and rate limits.
