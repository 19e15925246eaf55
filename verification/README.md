# Storage engine and request pipeline of gocacheprog

A Dafny model of the cache server's storage engine and of the request and response pipeline in
front of it, with proofs of what they keep over every input, run or interleaving.

- `RecordPool`, `PoolReconcile`: the slab allocator that packs same-size records into fixed-length
  page files (size classes, per-page free stacks, promotion at break-even, deletion of empty pages),
  and its rebuilding after a restart. A page file is an array of bytes; `live` is a ghost map from
  every occupied slot to the bytes last put there.
- `EvictionHeap`, `StoredForm`, `GocacheStore`, `GocacheRestart`: the native GOCACHE store. Its index,
  disk total, pool slots, plain files and push-only eviction heap (which may hold stale entries) are
  class fields that the methods update as the source does; `bodies` is a ghost map from each indexed
  path to what it was saved with.
- `Manifest`, `ManifestConcurrency`, `Restore`: manifest texts, path cleaning, union and self-healing;
  a state machine over all interleavings of concurrent merges, restores, saves and evictions; the
  resolution of a restore request and its selection under a byte budget.
- `LocalStore`, `LocalRestart`: the content-addressed store with reference counts, sizes and locations
  per output, LRU eviction and rebuilding from a persisted index in any order.
- `StoreRuns`, `CombinedBudget`, `PreloadTrim`: whole runs of both stores, the budget that spans them,
  and the trimming of a preload response.
- `ResolveBatch`, `Shim`: one batch put to the upstream, and the shim server with its sessions, waiters,
  channels, batches in flight and demultiplexer as a step machine.
- `StreamWire`, `StreamIO`, `ResponseWire`, `SaveCache`: the length-prefixed item stream, its writer and
  reader over byte sources that deliver arbitrary pieces, the batched response, and an upload from the
  client's files to the server's index and manifests.

Predicates carry the invariants: `RecordPool.Pool.Valid`, `GocacheStore.Store.Valid` (index and
occupied slots in one-to-one correspondence, every pool-backed entry reads back its body, the disk total
is the sum over the index, heap order), `Covered` (the heap knows every entry), `FilesIntact` (every plain
entry has its bytes), `NoStrays` (there is no other plain file), `LocalStore.Store.Valid` (counts, total,
locations, slots, files) and `Shim.Inv`.

## Assumptions

- Operations of one store are serialised, as their mutexes intend; in particular a put is atomic with
  respect to eviction and clearing, although the source releases the lock while it writes the body.
- Content addressing: a path (native store) or an output (content-addressed store) always has the same
  stored size. Where this matters the contracts say what holds exactly with and without it.
- `0 < maxRecordBytes <= pageBytes`; an eviction window is at most zero or at least one microsecond;
  `EvictionRespectsAge` takes times to be non-negative.
- OutputIDs are base64, which has no "_": by `LocalStore.OutputNamesDiffer` each output then has a file of its own,
  and the files of the content-addressed store are keyed by OutputID.
- The upstream calls back at most once for each action it was asked for, and for no other.
- JSON is a lawful, non-empty encoding; compression is lawful where a lemma says so, and may fail to decode.
- Which writes fail, and which file times cannot be set, is given to the call, over all possibilities; a
  failed write may leave part of a record. Removing files and reading back whole files do not fail.
- A persisted index is one that its store has written: no two entries share a slot, and entries of one output
  agree about its size and place. The files named like page files are the pool's own.

## Where the code does not do what one would expect

Each is kept in the model, with the exact condition and a concrete input.

- A re-save of a path under a different stored size is not told to the heap, so the entry can no longer
  be evicted (`GocacheStore.Store.PutOne`, `CoversAfterPut`, `ResavedIsNeverEvicted`).
- A truncated re-save of a plain object that is not pool-eligible deletes the intact file it was to replace,
  while the index keeps the entry (`PutOne`, `TruncatedResaveDeletes`).
- A broken plain object that has moved into the pool since it was looked at leaves its slot behind
  (`RemoveBrokenEntry`, `StaleSnapshotLeaks`, `StaleRemovalLeaksASlot`).
- Paths are not cleaned before they are saved, but the file a path names is, and so are the references that a clear
  works on. Two entries may then share a file: a save overwrites the other's bytes unless they are the same, an
  eviction or a clear deletes the other's file, and opening drops one of them or not, depending on the order. Among
  canonical paths, without empty, "." or ".." segments, this never happens (`GocacheStore.Store.PutOne`, `EvictOne`,
  `Clear`, `GocacheRestart.Load`, `CanonicalNamesDiffer`, `SharedFileIsLost`, `ClearDeletesAnothersFile`).
- A restore reads a pool slot when it is served, not when the index was looked at: if the slot was given to another
  object in between, that one's bytes are served (`StoreRuns.ReadFromSnapshot`,
  `PoolReconcile.FreedLocationServesAnother`).
- A truncated upload is refused unless the store compresses it itself: then the length that is checked is
  the one just measured (`TruncationIsCaughtUnlessCompressedNow`, `TruncatedUploadIsIndexed`).
- A path that is not in cleaned form is merged into a manifest, and dropped by its next load
  (`ListedAfterMerge`, `MergedPathIsListed`, `AbsolutePathIsNotListed`).
- The cleaned form of a line may have another cleaned form. A self-heal then writes back paths that the next
  read takes for others, and a restore that names the manifest twice serves paths it never listed
  (`RewrittenLoadsTheSame`, `HealedLoadsTheSame`, `LoadedIsMatched`, `RewrittenCanLoadAnother`, `RereadServesAnother`).
- A plain save that fails only in setting its file's time leaves the file, which neither the index nor the disk
  total knows of; over an older plain entry it leaves the new bytes under the old entry
  (`GocacheStore.Store.PutOne`, `UntimedSaveStrays`).
- The content-addressed store releases the output of the entry a preload looked at, not of the current one
  (`RemoveBrokenActionEntry`, `WrongOutputReleased`, `StaleRemovalMiscounts`).
- Opened with a lower file size limit, the content-addressed store drops the entries over it and keeps their files
  (`LocalRestart.Load`, `LoweredLimitStrays`).
- A response's announced length falls back to the plain size, its writer does not
  (`LengthIsRight`, `LengthCanBeWrong`).
- The resolver drops the batch it has not dispatched when it stops, so a waiter can be stranded
  (`StrandedByTheStop`, `AnsweredWhileRunning`, `StoppingCanStrandAWaiter`).
- A pool class that loses all its pages stays promoted until a restart, where the comment on it says that counting
  starts again: the next record of the size gets a page although there are fewer of them than break-even
  (`RecordPool.Pool.Put`, `PromotedAndEmptied`, `ClassOutlivesItsPages`).

## Model

| member | source | states |
|---|---|---|
| EvictionHeap.LessIsStrictWeakOrder | internal/gocache/store.go:2188-2201 | the eviction order is irreflexive and transitive, and so is its incomparability, for every window |
| EvictionHeap.TruncatesTowardsZero | internal/gocache/store.go:2188-2201 | times are put into windows by division that truncates towards zero |
| EvictionHeap.EvictionRespectsAge | internal/gocache/store.go:2176-2201 | preferring large objects never evicts one that is newer by a whole window first |
| EvictionHeap.RootGoesFirst | internal/gocache/eviction_heap.go:16-51 | in heap order no item goes before the root |
| EvictionHeap.Heap.Push | internal/gocache/eviction_heap.go:55-73 | pushing keeps heap order and adds exactly one item |
| EvictionHeap.Heap.Pop | internal/gocache/eviction_heap.go:63-87 | popping returns an item no other goes before, keeps heap order and removes exactly that item |
| RecordPool.WriteStaysInSlot | internal/recordpool/recordpool.go:298-302 | writing within one slot leaves every other record of the page as it was |
| RecordPool.PopComplement | internal/recordpool/recordpool.go:363-389 | a popped slot was not live, and the stack stays the duplicate-free complement of the live slots |
| RecordPool.PushComplement | internal/recordpool/recordpool.go:461-480 | so does a pushed slot; the stack is as long as the page exactly when the last live slot went |
| RecordPool.FreedTwice | internal/recordpool/recordpool.go:461-480 | freeing a slot that is not live repeats it on the stack, and deletes the page under its last live record |
| RecordPool.Page.WriteAt | internal/recordpool/recordpool.go:298-302 | the slot holds the record, all other live slots keep theirs |
| RecordPool.Page.Finish | internal/recordpool/recordpool.go:246-262 | inverting the noted slots makes exactly those live and the rest free |
| RecordPool.Pool.PagesArePacked | internal/recordpool/recordpool.go:280-290 | every page file fits in the page size, and with one more record would not |
| RecordPool.Pool.FullIsPacked | internal/recordpool/recordpool.go:280-290 | a full page holds so many live records that with one more they would exceed the page size |
| RecordPool.Pool.Put | internal/recordpool/recordpool.go:268-305 | a stored record goes to a slot that was not live and disturbs no other; a size gets its class exactly at break-even; it goes to the oldest page with room: on each older page there are as many live records as whole ones fit, and a new page is used only if there is no other with room; page files are as long as whole records can make them; a failed write changes no record |
| RecordPool.Pool.Allocate | internal/recordpool/recordpool.go:363-389 | the slot handed out was not live, on the lowest-numbered page with room |
| RecordPool.Pool.OldestWithRoom | internal/recordpool/recordpool.go:363-374 | every page before the one found is full |
| RecordPool.Pool.Read | internal/recordpool/recordpool.go:308-327 | reading a live location yields the bytes last put there |
| RecordPool.Pool.Free | internal/recordpool/recordpool.go:332-341 | exactly that live slot is given back, and its page goes with its last live slot; a location on a deleted page is ignored |
| RecordPool.Pool.FreeSlot | internal/recordpool/recordpool.go:461-480 | a page is deleted exactly when its last live slot goes |
| RecordPool.Pool.DiscoverPages | internal/recordpool/recordpool.go:143-194 | every page file of the directory is opened, in any order, and nothing else |
| RecordPool.Pool.NoteOccupied | internal/recordpool/recordpool.go:216-230 | exactly that slot is added to the noted ones |
| RecordPool.Pool.NoteUnpromoted | internal/recordpool/recordpool.go:236-241 | the promotion counter of a size without a class rises by one |
| RecordPool.Pool.FinishReconcile | internal/recordpool/recordpool.go:246-262 | the live slots are exactly the noted ones, and the pool is valid again |
| RecordPool.PromotedAndEmptied | internal/recordpool/recordpool.go:116-119 | a run that leaves a size promoted, with no page and no record in the pool |
| RecordPool.ClassOutlivesItsPages | internal/recordpool/recordpool.go:268-293 | the next record of that size is stored in the pool, below break-even |
| RecordPool.LiveIsOnDisk | internal/recordpool/recordpool.go:308-327 | what the pool holds is determined by its page files |
| PoolReconcile.ResolvesAsPersisted | internal/recordpool/recordpool.go:200-212 | whether a location resolves depends on the directory alone |
| PoolReconcile.SameFilesSameBytes | internal/recordpool/recordpool.go:143-262 | two pools over the same files with the same occupied slots hold the same bytes |
| PoolReconcile.SameFreeSlots | internal/recordpool/recordpool.go:246-262 | and have the same free slots on every page, though not in the same order |
| StoredForm.TruncationIsCaughtUnlessCompressedNow | internal/gocache/store.go:1241-1348 | an upload shorter than declared is refused, except exactly when the store compresses it itself |
| StoredForm.TruncatedUploadIsIndexed | internal/gocache/store.go:1262-1280 | a concrete truncated upload that is admitted |
| StoredForm.FormIs | internal/gocache/store.go:1241-1280 | bytes are stored compressed exactly if the store compresses and they came so or are 200 bytes or more, under these sizes; an upload is unreadable exactly if it must be decompressed and cannot be |
| StoredForm.StoredFormKeepsContent | internal/gocache/store.go:1241-1280 | what is stored decodes to what was uploaded, whichever side compressed |
| GocacheStore.Store.EvictOne | internal/gocache/store.go:2073-2094 | whatever stale entries the heap holds, an entry goes that no entry the heap knows goes before. With full coverage that is one no newer than any other if there is no window, and else one newer than none by a whole window and of its window the largest; it fails exactly on an empty index, and coverage is kept. The entry's bytes come off the total, its file goes, and the other plain files are kept exactly if no entry left has that file |
| GocacheStore.Store.EvictForBudget | internal/gocache/store.go:2026-2031 | on behalf of the combined budget, the same entry goes, and its bytes |
| GocacheStore.Store.EvictIfNeeded | internal/gocache/store.go:2039-2051 | at or below the limit nothing changes; above it, under full coverage, the total ends at most a tenth below the limit, with the entry that went last it would not, and no entry left goes before one that went; exactly the files of the plain entries gone are deleted, and the other plain entries keep theirs exactly if they share none |
| GocacheStore.Store.EvictOnDiskFull | internal/gocache/store.go:2103-2117 | exactly a tenth of the entries go, and at least one, none of them after one that is left; their files as above |
| GocacheStore.Store.PutOne | internal/gocache/store.go:1162-1237 | what a save records, whether it goes to the pool, and when it is refused; a re-save keeps its first time; index, slots, bodies and total stay in agreement; coverage is kept exactly if the heap has heard of that size and time; other plain files exactly if none is the file written or removed, unless with these bytes; and the absence of stray ones exactly if the put does not fail too late |
| GocacheStore.Store.StorePutBody | internal/gocache/store.go:1284-1348 | a stored body is in a fresh slot exactly if its size is promoted, else in its plain file, whole; a failed one leaves a valid store, and exactly these plain files |
| GocacheStore.Store.Commit | internal/gocache/store.go:1218-1236 | recording an entry releases exactly what it supersedes |
| GocacheStore.Store.ReleaseSuperseded | internal/gocache/store.go:1352-1364 | the old slot is freed, or the old file removed if the new copy is elsewhere |
| GocacheStore.Store.RemoveObject | internal/gocache/store.go:2132-2141 | exactly the entry's slot, or the file its path leads to, is released |
| GocacheStore.CanonicalNamesDiffer | internal/gocache/store.go:1876-1878 | canonical paths have files of their own |
| GocacheStore.CanonicalIsPlaced | internal/gocache/store.go:1876-1878 | the file of a canonical path is below the objects directory, under the path's own segments |
| GocacheStore.CanonicalNeverClashes | internal/gocache/store.go:1876-1878 | what is saved or removed under such a path is no other such entry's file |
| GocacheStore.CanonicalSweepIsApart | internal/gocache/store.go:947-966 | sweeping references spares the files of all other entries with such paths |
| GocacheStore.SharedFileIsLost | internal/gocache/store.go:1316-1332 | two saves that share a file, after which the first reads the second's bytes, and an eviction deletes the other's file |
| GocacheStore.ClearDeletesAnothersFile | internal/gocache/store.go:947-966 | a save and a clear of its manifest after which the path is indexed and its file is gone |
| GocacheStore.Store.ReadObject | internal/gocache/store.go:1366-1397 | an indexed path reads back what it was saved with |
| GocacheStore.Store.RemoveBrokenEntry | internal/gocache/store.go:866-878 | the store stays valid exactly when the current entry is not pool-backed, and other plain files stay exactly if none is the file removed |
| GocacheStore.StaleSnapshotLeaks | internal/gocache/store.go:866-878 | forgetting an entry without freeing keeps index and pool in agreement exactly when it was not pool-backed |
| GocacheStore.StaleRemovalLeaksASlot | internal/gocache/store.go:866-878 | a run of saves and a removal that leaves a slot occupied with no entry for it |
| GocacheStore.CoversAfterPut | internal/gocache/store.go:1221-1232 | after a re-save the heap covers the index exactly when it has an entry of that size and time |
| GocacheStore.ResavedIsNeverEvicted | internal/gocache/store.go:1221-1232 | a save and a re-save after which the only entry cannot be evicted |
| GocacheStore.TruncatedResaveDeletes | internal/gocache/store.go:1284-1348 | a save and a truncated re-save after which the path is indexed and its file is gone |
| GocacheStore.UntimedSaveStrays | internal/gocache/store.go:1343-1345 | a failed first save after which the file is there and the path is not indexed |
| GocacheStore.Store.Clear | internal/gocache/store.go:908-970 | a request that names only a build type deletes exactly its manifests; any other exactly those that its commit, changes and base name, for its build type; it does nothing exactly if a name is unusable or there is nothing to delete. An object goes exactly if a target manifest lists it and no surviving one does; deleted and kept add up to the distinct references; accounting and coverage survive; exactly the files of what is swept are deleted, and the plain entries left keep theirs exactly if they share none |
| GocacheStore.ClearsAreTargets | internal/gocache/store.go:2352-2390 | which manifests a clear request has for targets, and when it has none |
| GocacheStore.DeleteManifests | internal/gocache/store.go:921-937 | the target manifests go, and the references collected are exactly theirs |
| GocacheStore.CollectRefs | internal/gocache/store.go:2480-2505 | the references kept are exactly those of the surviving manifests |
| GocacheRestart.ReconcilePool | internal/gocache/store.go:2149-2174 | in any order, the entries whose slot exists survive, the occupied slots are exactly theirs, and the promotion counters are the numbers of plain entries |
| GocacheRestart.CheckFiles | internal/gocache/store.go:261-280 | in any order, plain entries without a file or over the limit go, the files of those over it with them, and the total is that of the rest; entries that share such a file may or may not stay |
| GocacheRestart.FillHeap | internal/gocache/store.go:282-285 | the heap covers every entry |
| GocacheRestart.Load | internal/gocache/store.go:229-285 | a persisted index with one entry a slot opens to a valid, covered store of what is still there, exactly all of it if no file deleted for its size is shared |
| GocacheRestart.DistinctDeletedApart | internal/gocache/store.go:261-280 | which holds if no two entries share a file |
| GocacheRestart.Open | internal/gocache/store.go:229-291 | and ends within the disk limit; what is evicted to get there is what an eviction pass would, no more and in order |
| GocacheRestart.Restart | internal/gocache/store.go:229-291 | from a valid store within the disk limit, reopening yields the same index, bodies, files, total, occupied and free slots, with a heap that covers it; from one over it, what is left after an eviction down to the margin |
| StoreRuns.RunGocache | internal/gocache/store.go:866-970 | over any sequence of saves, evictions, clears, removals, manifest merges and restores the native store stays valid and covered; it leaves no file behind if no file time fails to be set, and keeps every plain file if besides no upload is cut short and all paths are canonical |
| StoreRuns.ReadFromSnapshot | internal/gocache/store.go:1366-1392 | a location taken before any such run reads, after it, the body of the entry that has the slot by then, so the snapshot's exactly if the two are the same |
| PoolReconcile.FreedLocationServesAnother | internal/gocache/store.go:1381-1389 | a run in which they are not |
| StoreRuns.RunLocal | internal/local/store.go:223-354 | over any sequence of puts, lookups, evictions and removals the content-addressed store stays valid, and leaves no file behind |
| Manifest.SplitUndoesJoin | internal/gocache/store.go:2529-2535 | splitting undoes joining for pieces without the separator |
| Manifest.TrimDropsSpaces | internal/gocache/store.go:2270-2275 | trimming drops spaces only, and all those at either end |
| Manifest.CleanedStaysInside | internal/gocache/store.go:2270-2288 | a cleaned path has no empty, "." or ".." segment and is its own cleaned form |
| Manifest.CleanedLeadsThere | internal/gocache/store.go:2270-2288 | the cleaned path leads where the path does: to a place of its own below the directory |
| Manifest.CanonicalIsClean | internal/gocache/store.go:2270-2288 | a canonical path with no spaces around it is accepted as it is |
| Manifest.DedupIsFirstSeenOrder | internal/gocache/store.go:2539-2562 | deduplication keeps each path once, in first-seen order |
| Manifest.ManifestRoundTrip | internal/gocache/store.go:2442-2535 | reading back a written manifest yields the paths written |
| Manifest.UnionLists | internal/gocache/store.go:2539-2562 | a written union lists every listable path of either side |
| Manifest.ListedAfterMerge | internal/gocache/store.go:2586-2598 | what the next load finds after a merge is exactly what the lines of the loaded and the merged paths clean to, as far as it is indexed |
| Manifest.MergedPathIsListed | internal/gocache/store.go:2586-2598 | a path merged into a manifest of listable paths is listed by the next load exactly when it is in cleaned form itself |
| Manifest.AbsolutePathIsNotListed | internal/gocache/store.go:2270-2288 | a concrete path that is merged and lost |
| Manifest.LoadManifest | internal/gocache/store.go:1765-1847 | loading yields the distinct cleaned forms of the lines, as far as they are indexed, and says whether anything was dropped |
| Manifest.UnionManifestPaths | internal/gocache/store.go:2539-2562 | the loop computes the union: every path of either side but for spaces, once, those already there first |
| ManifestConcurrency.NoLostUpdate | internal/gocache/store.go:2564-2598 | over every interleaving, a path whose merge was written and which stayed indexed is still listed |
| ManifestConcurrency.MutualExclusion | internal/gocache/store.go:2570-2581 | no two threads are inside the same manifest |
| Restore.RewrittenLoadsTheSame | internal/gocache/store.go:1477-1494 | a manifest rewritten with what was loaded from it loads to the same paths exactly if those are all in cleaned form |
| Restore.HealedLoadsTheSame | internal/gocache/store.go:1477-1494 | a self-healed manifest does so exactly if nothing was dropped from it or all its loaded paths are in cleaned form |
| Restore.LoadedIsMatched | internal/gocache/store.go:1460-1501 | reading the sources in turn, healing each, loads what the manifests held at the start exactly if every reread of a rewritten manifest is of that kind |
| Restore.TargetsAre | internal/gocache/store.go:2290-2404 | which manifest a commit or a changes ID has for a build type, and which names have none |
| Restore.SourcesAre | internal/gocache/store.go:1442-1475 | a restore is refused exactly if one of its names is unusable, and names nothing exactly if all four are blank |
| Restore.FoundAre | internal/gocache/store.go:1442-1501 | the matched sources are those of commit, parent, changes and base whose manifests exist, in this order |
| Restore.ListsAre | internal/gocache/store.go:1442-1501 | what is matched, when no manifest is read again after it was rewritten, are the lists of those manifests, in this order |
| Restore.RewrittenCanLoadAnother | internal/gocache/store.go:1477-1494 | a concrete manifest whose second load is a path it never listed |
| Restore.RereadServesAnother | internal/gocache/store.go:1442-1529 | a concrete restore that serves that path |
| Restore.ResolutionFacts | internal/gocache/store.go:1442-1529 | a resolved restore has no duplicates and is the first-seen-order union of its matched sources, with defaults after |
| Restore.ResolutionResolves | internal/gocache/store.go:1593-1622 | the default paths are added exactly if more of them are missing from the matched lists than there are distinct matched paths, and then all of them, in order, after the matched ones |
| Restore.ManifestDir.RestorePaths | internal/gocache/store.go:1442-1645 | the matched paths of commit, parent, changes and base, once each and in this order, and every path that one of their manifests lists; after them all default paths, exactly if more of these are missing than matched, and only these if nothing matched; the default paths are those of two manifests of the request's build type; a later source reads a manifest as an earlier one left it, and what all the manifests are in the end is stated |
| Restore.ManifestDir.MergeManifest | internal/gocache/store.go:2586-2598 | exactly that manifest becomes the union of what it loads to and the new paths, or none changes if the write fails |
| Restore.SampleManifests | internal/gocache/store.go:1667-1741 | two manifests, or all there are: commits before changes and the later written first, among them and next to those left out |
| Restore.SelectRestoreEntries | internal/gocache/store.go:1399-1440 | under a budget, what is served fits and comes newest, smallest and by path; no entry within the file limits that is left out comes before one served, and the first of them does not fit besides; without one all within the limits are served, as they come |
| Restore.SelectionIgnoresOrder | internal/gocache/store.go:1399-1440 | under a budget the selection does not depend on the order of the index |
| LocalStore.RefsAfterRemove | internal/local/store.go:1176-1198 | dropping a reference keeps every count equal to the number of entries for its output |
| LocalStore.HoldsWithout | internal/local/store.go:1176-1198 | releasing one output leaves every other one stored where it was |
| LocalStore.Store.Release | internal/local/store.go:1176-1198 | storage goes exactly with the last reference |
| LocalStore.Store.Remove | internal/local/store.go:1326-1350 | removing an entry releases its output exactly when no other entry references it |
| LocalStore.Store.ReplaceRef | internal/local/store.go:1162-1174 | a reference moves from the old output to the new one, or the size is touched up |
| LocalStore.Store.StoreBody | internal/local/store.go:402-481 | an output already stored is kept; a new one is written whole to a fresh slot or its file |
| LocalStore.Store.PutOne | internal/local/store.go:291-354 | what a put records, and that a new output goes to the pool exactly if it is small enough, its size is promoted and there is a pool; counts and total always hold; sizes, locations and slots stay consistent exactly when the upload respects content addressing |
| LocalStore.Store.GetOne | internal/local/store.go:223-244 | a hit changes nothing but the access time |
| LocalStore.Store.ReadOutput | internal/local/store.go:246-279 | an entry reads back what its output was saved with |
| LocalStore.Store.EvictOne | internal/local/store.go:1326-1350 | the scan, in any order, evicts an entry last hit, or without a hit saved, no later than any other, and fails exactly on an empty index; its output's bytes come off the total exactly if no other entry has it |
| LocalStore.HitIsEvictedLater | internal/local/store.go:1326-1350 | a run in which a hit outlives an entry that was neither saved nor hit since |
| LocalStore.Store.EvictForBudget | internal/local/store.go:1363-1368 | on behalf of the combined budget, the same entry goes, and its bytes |
| LocalStore.Store.EvictIfNeeded | internal/local/store.go:1304-1316 | at or below the limit nothing changes; above it the total ends at most a tenth below the limit; the entry that went last was the last of its output and without it the total would not; and no entry left was used before one that went |
| LocalStore.Store.RemoveIfUnchanged | internal/local/store.go:772-788 | removes exactly when the entry is still the one verified |
| LocalStore.Store.RemoveBrokenActionEntry | internal/local/store.go:651-661 | the counts survive exactly when the current entry still references the output that was looked at |
| LocalStore.WrongOutputReleased | internal/local/store.go:651-661 | releasing another output always breaks the counts |
| LocalStore.StaleRemovalMiscounts | internal/local/store.go:651-661 | a run of puts and a removal that leaves an output counted with no entry for it |
| LocalStore.SameOutputName | internal/local/store.go:571-579 | two outputs have the same file exactly if they differ at most in "/" for "_" |
| LocalStore.OutputNamesDiffer | internal/local/store.go:571-579 | outputs without "_" have files of their own |
| LocalRestart.RebuildStorageState | internal/local/store.go:1087-1129 | in any order, counts, sizes, locations and slots are those of the surviving entries, and the promotion counters are the numbers of plain outputs |
| LocalRestart.FitsUnlessFilesAreBroken | internal/local/store.go:1131-1142 | what is rebuilt fits the disk exactly when no plain file is missing or truncated |
| LocalRestart.Load | internal/local/store.go:138-182 | any consistent persisted index opens with correct counts and total, and without stray files exactly if every file is that of an entry within the limit |
| LocalRestart.LoweredLimitStrays | internal/local/store.go:166-173 | a concrete opening that forgets an entry and keeps its file |
| LocalRestart.Restart | internal/local/store.go:138-182 | from a valid store, reopening yields the same counts, sizes, locations, total, bodies and free slots |
| CombinedBudget.Handler.EvictFromLargest | internal/http/handler.go:203-216 | one entry goes, the one its store evicts first, from the store with the most bytes unless it is empty; nothing does only if there are no bytes |
| CombinedBudget.Handler.EnforceCombinedBudget | internal/http/handler.go:179-217 | at or below the limit nothing is evicted; above it both stores together end at most a tenth below it; with the entry that went last they would not, and it came from the store with the most bytes unless the other was empty; each store gives up its entries in its own order |
| PreloadTrim.MirrorsEvictionOrder | internal/http/settings.go:271-288 | the ranking is the native store's eviction order with a one-hour window |
| PreloadTrim.Rank | internal/http/settings.go:278-288 | every position once, in ranking order, ties in any order |
| PreloadTrim.TrimToPreloadBudget | internal/http/settings.go:251-308 | the survivors keep their order and their wire sizes, or sizes where there are none, fit; no dropped item is newer than one kept by a whole hour, nor in its hour smaller; with the one dropped last there would be too much |
| PreloadTrim.DroppedRanksFirst | internal/http/settings.go:290-297 | whatever is dropped ranks at or before every survivor, and restoring the last one would exceed the limit |
| ResolveBatch.Group | internal/local/proxy.go:673-682 | requests are grouped by action, none lost, actions listed once |
| ResolveBatch.Resolve | internal/local/proxy.go:663-765 | every request is answered exactly once under its own ID, even with repeated actions and an upstream that stops early; unanswered actions are misses |
| Shim.RunKeepsInv | internal/local/shim.go:474-569 | every interleaving keeps every issued get in exactly one place |
| Shim.ResponsesAreNeverCrossed | internal/local/shim.go:534-569 | a written response answers a get that session issued, under its own ID and about its own action, and none twice |
| Shim.WaitersHaveOneToken | internal/local/shim.go:474-532 | before the resolver stops, each waiter of a live session has exactly one lookup on its way |
| Shim.NoLookupLooksLikeTheEnd | internal/local/proxy.go:490-495 | no lookup carries the ID that the resolver takes for the end of the channel |
| Shim.StrandedByTheStop | internal/local/proxy.go:476-536 | over a run in which the resolver stops and nothing is left on its way, exactly the gets of live sessions in the batch at the stop still wait, and every other was answered once |
| Shim.AnsweredWhileRunning | internal/local/proxy.go:476-536 | as long as it has not stopped, every get of a live session is answered once nothing is on its way |
| Shim.AnsweredUnlessDropped | internal/local/proxy.go:476-536 | once nothing is on its way, a live session's get was answered exactly once unless the resolver dropped it |
| Shim.StoppingDropsTheBatch | internal/local/proxy.go:490-495 | stopping loses exactly the undispatched batch |
| Shim.StoppingCanStrandAWaiter | internal/local/proxy.go:490-495 | a concrete run that strands a waiter |
| Shim.BatchIsARun | internal/local/proxy.go:524-536 | what resolving a batch answers, in its order, is a run of single replies |
| StreamWire.HeadRoundTrip | internal/gocache/store.go:730-736 | a four-byte head is big-endian, and reads back as the length written |
| StreamWire.FrameIs | internal/gocache/store.go:724-744 | an item is written as the length of its header, the header, and as many bytes of its body as that says |
| StreamWire.StreamEnds | internal/gocache/store.go:745-747 | a stream ends with four zero bytes |
| StreamWire.RoundTrip | internal/gocache/store.go:724-800 | reading a written stream hands out exactly the items written, in order |
| StreamWire.NothingBeyond | internal/gocache/store.go:749-800 | so it does whatever follows the stream, none of which is read |
| StreamWire.CutIsNotTerminated | internal/gocache/store.go:745-765 | a stream cut short of its end, even between two items, never reaches its terminator |
| StreamWire.CutFrame | internal/gocache/store.go:749-800 | a frame cut short is never taken for a whole one nor for the end |
| StreamWire.Truncation | internal/gocache/store.go:749-800 | of a cut stream a prefix of the items is handed out whole, and it ends properly exactly on an item boundary |
| StreamIO.Source.ReadFull | internal/gocache/store.go:769-770 | exactly the next bytes, however they are chunked |
| StreamIO.StreamWriter.WriteAll | internal/gocache/store.go:724-747 | the stream of the items, failing exactly if one cannot be written |
| StreamIO.ReadItemBody | internal/gocache/store.go:662-678 | the stream moves to the item's boundary whatever the callback consumes, and a short body is an error |
| StreamIO.ReadStream | internal/gocache/store.go:749-800 | the callback sees the parsed items whatever it consumes of them; a source that fails at its end is accepted only once the terminator was read; the bytes counted are those up to the end of the stream |
| StreamIO.ReadBack | internal/gocache/store.go:724-800 | over any source that delivers a written stream, the items are read back, and the bytes read are those written |
| ResponseWire.LengthIsRight | internal/cache/store.go:571-589 | the announced length is the length written exactly when every non-empty item has a wire size |
| ResponseWire.LengthCanBeWrong | internal/cache/store.go:571-589 | a concrete response that is one byte shorter |
| ResponseWire.WriteTo | internal/cache/store.go:434-471 | header and bodies, failing exactly if the header is too long or a body falls short |
| ResponseWire.ReaderFrom | internal/cache/store.go:481-525 | items are handed out whatever the callback consumes, none after a short one; what is left unread is exactly what follows the last body, and the bytes counted are those before it |
| ResponseWire.ResponseTruncation | internal/cache/store.go:481-525 | a response cut short is never taken for a whole one |
| ResponseWire.ResponseRoundTrip | internal/cache/store.go:434-525 | a whole response is handed out as it was sent; all of it is read, and nothing of what follows it |
| ResponseWire.ReadBack | internal/cache/store.go:434-589 | over any source that delivers a response, the bytes read are those written, and as many as announced exactly when every non-empty item has a wire size |
| SaveCache.CutIntoChunks | internal/http/client.go:504-531 | the chunks put together are the stream, all full but the last |
| SaveCache.SentForm | internal/http/client.go:552-580 | a file of 200 bytes or more is sent compressed, announced with that length; a smaller one as it is |
| SaveCache.SaveCacheOnce | internal/http/client.go:440-531 | the chunks carry the stream of the prepared files within the announced limit |
| SaveCache.SaveOne | internal/http/save_cache.go:225-268 | an acceptable item is saved, an oversized one passed over |
| SaveCache.MergeSavedPaths | internal/gocache/store.go:1138-1160 | the manifests of the request's commit and changes, for its build type, get the saved paths and no other changes, failing exactly on an invalid name or a failed write |
| SaveCache.SavedPathIsListed | internal/gocache/store.go:1138-1160 | a merged listable path is what the next load yields |
| SaveCache.ProcessSaveCacheStream | internal/http/save_cache.go:222-278 | success exactly when the stream ends properly, every item is acceptable and the manifests can be written; then exactly the items within the limit are saved and merged |
| SaveCache.AbortedUploadIsRefused | internal/http/save_cache.go:127-135 | an upload aborted anywhere short of its end, even between two items, is refused and merges nothing |
| SaveCache.KeptAreWithinBoth | internal/http/client.go:463-466 | the saved paths are those of the files within both limits, in order |
| SaveCache.BothLimitsAre | internal/http/client.go:463-466 | every file within both limits is saved, zero or less being none, and nothing else; all of them, in order, if they all are |
| SaveCache.HonestFileSurvives | internal/http/client.go:552-580 | a whole file is accepted and stored as bytes that decode to its contents, whichever side compresses |
| SaveCache.UploadedFileIsRecorded | internal/http/save_cache.go:222-278 | of files with distinct paths, each within both limits is recorded with such bytes |
| SaveCache.SaveCache | internal/http/client.go:440-550 | an upload, for any chunk size: success saves and merges exactly the files within both limits, and an honest one on a healthy disk succeeds |
| SaveCache.SaveThenRestore | internal/http/client.go:440-550 | an honest upload of files with distinct listable paths for a commit, and a restore of that commit without a budget: each file within both limits is resolved, and served from its slot or file as bytes that decode to its contents |

## Left out

- RecordPool.Pool.Free: a slot that is not live, on a page that exists, is not for the caller to free; the source
  accepts it, with the effect that `FreedTwice` states.
- RecordPool.Pool.DiscoverPages: page files of another length, numbered zero, or for records larger than a page,
  which the source would open, are none that a pool has written.
- GocacheRestart.Load: two entries on one slot, which the source would keep; its first eviction of one of them would
  free the slot of the other.
- GocacheRestart.Open: the same.
- LocalRestart.Load: entries that disagree about one output; the source keeps whichever size and place it meets first.
- LocalRestart.RebuildStorageState: the same.
- HTTP transport, retries, authentication, TLS, status pages, session records and statistics counters.
- File-system details: modes, access-time updates, temporary files, fsync, reopening of page files, unreadable
  manifests; files and page files are maps and byte arrays, and manifests are identified with what they are
  named after; the legacy output location is not modelled.
- Paths that lead out of the native store's objects directory are names like any other: that such a file may be a
  page file, a manifest or the index is not modelled.
- Page files come from a flat map keyed by size and number, where the source nests them in a map of classes;
  a size class is a value that the pool replaces, not an object that is updated in place.
- Machine integers: sizes, times and IDs are unbounded.
- The dirty flag and the delayed scheduling of evictions and index writes; stale-manifest collection by age.
- Clearing concurrently with merges: it takes no manifest lock, and is modelled sequentially.
- The interleaving of a put's body write with other operations on the same store.
- Slice-backed readers of responses and batches, and the batch reader and writer of the native store.
- Path matching of manifests for reporting, inspection of keys, and the existing-paths query.
- The write errors of session connections and the readiness wait of a shim session.
- Shim.State: batches in flight are one bag of requests, and the limit on concurrent batches is not modelled;
  a session may have several gets on their way into the proxy, which only adds runs.
- ResponseWire.ReaderFrom: a negative header length is an error, where the source would fail on allocating it.
