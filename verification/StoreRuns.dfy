/** Whole runs of the two stores: what every operation keeps, whatever the sequence. */
module StoreRuns {
  import opened Common
  import opened StoredForm
  import PoolReconcile
  import RecordPool
  import G = GocacheStore
  import L = LocalStore
  import Manifest
  import Restore

  // ----- Native store -----

  datatype GocacheOp =
    | Save(item: G.FileItem, now: int, fault: RecordPool.Fault, diskFull: bool, chtimesFails: bool)
    | Evict
    | EvictToBudget
    | Clear(req: Restore.Request)
    | RemoveBroken(path: string)
    | Merge(id: Restore.ManifestId, paths: seq<string>, now: int, mergeFails: bool)
    | ResolveRestore(req: Restore.Request, now: int, fails: nat -> bool, sampleFails: nat -> bool)

  /** Content addressing: what a path stores always has the same size. */
  ghost predicate SizedBy(index: G.Index, sizeOf: string -> int) {
    forall p :: p in index ==> G.StoredSize(index[p]) == sizeOf(p)
  }

  ghost predicate Respects(op: GocacheOp, sizeOf: string -> int, compress: bool, z: Zstd) {
    op.Save? && Admitted(op.item.upload, compress, z).Some? ==>
      |Admitted(op.item.upload, compress, z).value.body| == sizeOf(op.item.path)
  }

  /** No upload is cut short on the way. */
  ghost predicate Untruncated(op: GocacheOp, compress: bool, z: Zstd) {
    op.Save? && FormForPut(op.item.upload, compress, z).Some? ==> Admitted(op.item.upload, compress, z).Some?
  }

  /** Setting a file's time does not fail. */
  predicate Timed(op: GocacheOp) {
    op.Save? ==> !op.chtimesFails
  }

  /** What is saved has a canonical path. */
  predicate CleanlyNamed(op: GocacheOp) {
    op.Save? ==> Manifest.Canonical(op.item.path)
  }

  ghost predicate Careful(op: GocacheOp, compress: bool, z: Zstd) {
    Untruncated(op, compress, z) && Timed(op) && CleanlyNamed(op)
  }

  /** What a save stores is what its path stands for. */
  ghost predicate Stores(op: GocacheOp, content: string -> seq<Byte>, compress: bool, z: Zstd) {
    op.Save? && Admitted(op.item.upload, compress, z).Some? ==>
      Admitted(op.item.upload, compress, z).value.body == content(op.item.path)
  }

  ghost predicate Holding(bodies: map<string, seq<Byte>>, content: string -> seq<Byte>) {
    forall p :: p in bodies ==> bodies[p] == content(p)
  }

  /** Bodies are those of before, except for what this step saves. */
  ghost predicate BodiesFollow(op: GocacheOp, before: map<string, seq<Byte>>, after: map<string, seq<Byte>>,
                               compress: bool, z: Zstd)
  {
    forall p :: p in after ==>
      || (p in before && after[p] == before[p])
      || (op.Save? && p == op.item.path && Admitted(op.item.upload, compress, z).Some?
          && after[p] == Admitted(op.item.upload, compress, z).value.body)
  }

  lemma StillHolding(op: GocacheOp, before: map<string, seq<Byte>>, after: map<string, seq<Byte>>, compress: bool,
                     z: Zstd,
                     content: string -> seq<Byte>)
    requires BodiesFollow(op, before, after, compress, z) && Holding(before, content)
      && Stores(op, content, compress, z)
    ensures Holding(after, content)
  {
  }

  lemma ShrunkStaysSized(before: G.Index, after: G.Index, sizeOf: string -> int)
    requires SizedBy(before, sizeOf) && Shrunk(before, after)
    ensures SizedBy(after, sizeOf)
  {
  }

  lemma SweptStaysSized(index: G.Index, swept: set<string>, sizeOf: string -> int)
    requires SizedBy(index, sizeOf)
    ensures SizedBy(index - swept, sizeOf)
  {
  }

  lemma ShrunkIsApart(dir: seq<string>, before: G.Index, after: G.Index)
    requires G.AllCanonical(before.Keys) && Shrunk(before, after)
    ensures G.AllCanonical(after.Keys) && G.Apart(dir, before, after)
  {
    hide G.ObjectName, Manifest.Canonical;
    G.CanonicalNamesDiffer(dir, before);
    G.DistinctIsApart(dir, before, after);
  }

  method SaveStep(s: G.Store, op: GocacheOp, ghost sizeOf: string -> int)
    requires op.Save? && s.Valid() && s.Covered() && SizedBy(s.index, sizeOf)
    requires Respects(op, sizeOf, s.compress, s.zstd)
    modifies s, s.evictHeap, s.pool, s.pool.Repr
    ensures s.Valid() && s.Covered() && SizedBy(s.index, sizeOf) && fresh(s.pool.Repr - old(s.pool.Repr))
    ensures Careful(op, s.compress, s.zstd) && old(s.CleanFiles()) ==> s.CleanFiles()
    ensures Timed(op) && old(s.NoStrays()) ==> s.NoStrays()
    ensures BodiesFollow(op, old(s.bodies), s.bodies, s.compress, s.zstd)
  {
    hide G.Store.Valid, G.Store.Covered, G.Intact, G.Owned, G.EntryOf, G.ObjectName, G.Apart, G.Clash,
      Manifest.Canonical;
    ghost var path := op.item.path;
    if Careful(op, s.compress, s.zstd) && s.CleanFiles() {
      G.CleanSaveSpoilsNothing(s.dir, s.index, s.bodies, path);
    }
    var r := s.PutOne(op.item, op.now, op.fault, op.diskFull, op.chtimesFails);
    if !r.Saved? {
      ShrunkStaysSized(old(s.index), s.index, sizeOf);
      if old(G.AllCanonical(s.index.Keys)) {
        ShrunkIsApart(s.dir, old(s.index), s.index);
      }
    }
  }

  method GocacheStep(s: G.Store, op: GocacheOp, ghost sizeOf: string -> int)
    requires s.Valid() && s.Covered() && SizedBy(s.index, sizeOf) && Respects(op, sizeOf, s.compress, s.zstd)
    modifies s, s.evictHeap, s.pool, s.pool.Repr, s.manifests
    ensures s.Valid() && s.Covered() && SizedBy(s.index, sizeOf) && fresh(s.pool.Repr - old(s.pool.Repr))
    ensures Careful(op, s.compress, s.zstd) && old(s.CleanFiles()) ==> s.CleanFiles()
    ensures Timed(op) && old(s.NoStrays()) ==> s.NoStrays()
    ensures BodiesFollow(op, old(s.bodies), s.bodies, s.compress, s.zstd)
  {
    assert s.manifests !in s.pool.Repr;
    hide G.Store.Covered, G.Intact, G.Owned, SizedBy, G.Store.Valid, Respects, Careful, G.Apart, G.ObjectName;
    hide G.AllCanonical, G.Store.CleanFiles, Shrunk, BodiesFollow, Untruncated, CleanlyNamed;
    SameFollow(op, s.bodies, s.compress, s.zstd);
    match op
    case Save(_, _, _, _, _) =>
      SaveStep(s, op, sizeOf);
    case Evict =>
      EvictStep(s, sizeOf);
    case EvictToBudget =>
      BudgetStep(s, sizeOf);
    case Clear(req) =>
      ClearStep(s, req, sizeOf);
    case RemoveBroken(path) =>
      RemoveStep(s, path, sizeOf);
    case Merge(_, _, _, _) =>
      ManifestStep(s.manifests, op, s.index.Keys);
    case ResolveRestore(_, _, _, _) =>
      ManifestStep(s.manifests, op, s.index.Keys);
  }

  method ManifestStep(manifests: Restore.ManifestDir, op: GocacheOp, index: set<string>)
    requires op.Merge? || op.ResolveRestore?
    modifies manifests
  {
    match op
    case Merge(id, paths, now, mergeFails) =>
      var ok := manifests.MergeManifest(id, paths, index, now, mergeFails);
    case ResolveRestore(req, now, fails, sampleFails) =>
      var r := manifests.RestorePaths(req, index, now, fails, sampleFails);
  }

  lemma SameFollow(op: GocacheOp, before: map<string, seq<Byte>>, compress: bool, z: Zstd)
    ensures BodiesFollow(op, before, before, compress, z)
    ensures forall after: map<string, seq<Byte>> :: Shrunk(before, after) ==>
      BodiesFollow(op, before, after, compress, z)
  {
  }

  method EvictStep(s: G.Store, ghost sizeOf: string -> int)
    requires s.Valid() && s.Covered() && SizedBy(s.index, sizeOf)
    modifies s, s.evictHeap, s.pool, s.pool.Repr
    ensures s.Valid() && s.Covered() && SizedBy(s.index, sizeOf) && s.pool.Repr == old(s.pool.Repr)
    ensures old(s.CleanFiles()) ==> s.CleanFiles()
    ensures old(s.NoStrays()) ==> s.NoStrays()
    ensures Shrunk(old(s.bodies), s.bodies)
  {
    hide G.Store.Covered, G.Intact, G.Owned, SizedBy, Shrunk, G.Store.Valid, G.Apart, G.ObjectName, G.AllCanonical;
    var evicted, victim := s.EvictOne();
    ShrunkStaysSized(old(s.index), s.index, sizeOf);
    if old(G.AllCanonical(s.index.Keys)) {
      ShrunkIsApart(s.dir, old(s.index), s.index);
    }
  }

  method BudgetStep(s: G.Store, ghost sizeOf: string -> int)
    requires s.Valid() && s.Covered() && SizedBy(s.index, sizeOf)
    modifies s, s.evictHeap, s.pool, s.pool.Repr
    ensures s.Valid() && s.Covered() && SizedBy(s.index, sizeOf) && s.pool.Repr == old(s.pool.Repr)
    ensures old(s.CleanFiles()) ==> s.CleanFiles()
    ensures old(s.NoStrays()) ==> s.NoStrays()
    ensures Shrunk(old(s.bodies), s.bodies)
  {
    hide G.Store.Covered, G.Intact, G.Owned, SizedBy, Shrunk, G.Store.Valid, G.Apart, G.ObjectName, G.AllCanonical;
    s.EvictIfNeeded();
    ShrunkStaysSized(old(s.index), s.index, sizeOf);
    if old(G.AllCanonical(s.index.Keys)) {
      ShrunkIsApart(s.dir, old(s.index), s.index);
    }
  }

  method ClearStep(s: G.Store, req: Restore.Request, ghost sizeOf: string -> int)
    requires s.Valid() && s.Covered() && SizedBy(s.index, sizeOf)
    modifies s, s.pool, s.pool.Repr, s.manifests
    ensures s.Valid() && s.Covered() && SizedBy(s.index, sizeOf) && s.pool.Repr == old(s.pool.Repr)
    ensures old(s.CleanFiles()) ==> s.CleanFiles()
    ensures old(s.NoStrays()) ==> s.NoStrays()
    ensures Shrunk(old(s.bodies), s.bodies)
  {
    hide G.Store.Covered, G.Intact, G.Owned, SizedBy, G.Store.Valid, G.Orphaned, G.RefsOf, G.ClearTargets;
    hide G.SweptApart, G.ObjectName, Manifest.Canonical;
    ghost var index, targets, files := s.index, G.ClearTargets(req, s.manifests.files), s.manifests.files;
    var r := s.Clear(req);
    if r.Some? {
      ghost var swept := G.Orphaned(files, targets.value);
      SweptStaysSized(index, swept, sizeOf);
      if G.AllCanonical(index.Keys) {
        G.OrphanedAreCanonical(files, targets.value);
        G.CanonicalSweepIsApart(s.dir, index, swept);
      }
    }
  }

  /** A broken plain object goes, if it is still a plain one. */
  method RemoveStep(s: G.Store, path: string, ghost sizeOf: string -> int)
    requires s.Valid() && s.Covered() && SizedBy(s.index, sizeOf)
    modifies s, s.pool, s.pool.Repr
    ensures s.Valid() && s.Covered() && SizedBy(s.index, sizeOf) && s.pool.Repr == old(s.pool.Repr)
    ensures old(s.CleanFiles()) ==> s.CleanFiles()
    ensures old(s.NoStrays()) ==> s.NoStrays()
    ensures Shrunk(old(s.bodies), s.bodies)
  {
    hide G.Store.Covered, G.Intact, G.Owned, SizedBy, G.Store.Valid, G.Clash, G.ObjectName, Manifest.Canonical;
    if path in s.index && !G.Pooled(s.index[path]) {
      SweptStaysSized(s.index, {path}, sizeOf);
      if G.AllCanonical(s.index.Keys) {
        G.CanonicalNeverClashes(s.dir, s.index, s.bodies, path, None);
      }
      s.RemoveBrokenEntry(path, s.index[path]);
    }
  }

  /** Over any run of saves, re-saves, evictions, clears, removals of broken plain objects, merges into
      manifests and restores, with content addressing: index, pool slots, saved bodies, disk total and
      heap stay in step; if setting a file's time never fails, no file is left behind; and if besides no
      upload is cut short and all paths are canonical, every plain file keeps its bytes. */
  method RunGocache(s: G.Store, ops: seq<GocacheOp>, ghost sizeOf: string -> int, ghost content: string -> seq<Byte>)
    requires s.Valid() && s.Covered() && s.FilesIntact() && s.NoStrays() && SizedBy(s.index, sizeOf)
    requires forall i :: 0 <= i < |ops| ==> Respects(ops[i], sizeOf, s.compress, s.zstd)
    modifies s, s.evictHeap, s.pool, s.pool.Repr, s.manifests
    ensures s.Valid() && s.Covered() && SizedBy(s.index, sizeOf) && fresh(s.pool.Repr - old(s.pool.Repr))
    ensures (forall i :: 0 <= i < |ops| ==> Timed(ops[i])) ==> s.NoStrays()
    ensures old(G.AllCanonical(s.index.Keys)) ==>
      (forall i :: 0 <= i < |ops| ==> Careful(ops[i], s.compress, s.zstd)) ==> s.FilesIntact()
    ensures old(Holding(s.bodies, content)) ==>
      (forall i :: 0 <= i < |ops| ==> Stores(ops[i], content, s.compress, s.zstd)) ==> Holding(s.bodies, content)
  {
    hide G.Store.Valid, G.Store.Covered, G.Intact, G.Owned, SizedBy, Respects, Careful, Timed, G.AllCanonical, Stores,
      Holding, BodiesFollow;
    for i := 0 to |ops|
      invariant s.Valid() && s.Covered() && SizedBy(s.index, sizeOf) && fresh(s.pool.Repr - old(s.pool.Repr))
      invariant (forall j :: 0 <= j < i ==> Timed(ops[j])) ==> s.NoStrays()
      invariant old(G.AllCanonical(s.index.Keys)) ==>
        (forall j :: 0 <= j < i ==> Careful(ops[j], s.compress, s.zstd)) ==> s.CleanFiles()
      invariant old(Holding(s.bodies, content)) ==>
        (forall j :: 0 <= j < i ==> Stores(ops[j], content, s.compress, s.zstd)) ==> Holding(s.bodies, content)
    {
      ghost var before := s.bodies;
      GocacheStep(s, ops[i], sizeOf);
      if Holding(before, content) && Stores(ops[i], content, s.compress, s.zstd) {
        StillHolding(ops[i], before, s.bodies, s.compress, s.zstd, content);
      }
    }
  }

  /** A restore takes the place of a pool-backed body from a snapshot, and reads it after any run of other
      operations. If some entry has the slot by then, its body is what is read, which is the snapshot's
      exactly if the two are the same; if none has, the page may be gone, and the slot is not kept. */
  method ReadFromSnapshot(s: G.Store, ops: seq<GocacheOp>, ghost sizeOf: string -> int,
                          ghost content: string -> seq<Byte>, path: string) returns (body: Option<seq<Byte>>)
    requires s.Valid() && s.Covered() && s.FilesIntact() && s.NoStrays() && SizedBy(s.index, sizeOf)
    requires forall i :: 0 <= i < |ops| ==> Respects(ops[i], sizeOf, s.compress, s.zstd)
    requires (forall i :: 0 <= i < |ops| ==> Stores(ops[i], content, s.compress, s.zstd)) && Holding(s.bodies, content)
    requires path in s.index && G.Pooled(s.index[path])
    modifies s, s.evictHeap, s.pool, s.pool.Repr, s.manifests
    ensures forall q :: q in s.index && G.Pooled(s.index[q]) && G.SlotOf(s.index[q]) == G.SlotOf(old(s.index)[path]) ==>
      && body == Some(content(q))
      && (body == old(Some(s.bodies[path])) <==> content(q) == content(path))
    ensures path in s.index && s.index[path] == old(s.index)[path] ==> body == old(Some(s.bodies[path]))
    ensures body.Some? <==> G.SlotOf(old(s.index)[path]).page in s.pool.pages
  {
    PooledFacts(s, path);
    hide G.Store.Valid, G.Store.Covered, G.Intact, G.Owned, SizedBy, Respects, Stores, Holding, G.AllCanonical;
    var snapshot := s.index[path];
    HeldBody(s, path, content);
    RunGocache(s, ops, sizeOf, content);
    body := ReadSlot(s, snapshot, content);
  }

  lemma PooledFacts(s: G.Store, path: string)
    requires s.Valid() && path in s.index && G.Pooled(s.index[path])
    ensures 0 < G.StoredSize(s.index[path])
      && G.SlotOf(s.index[path]).slot < s.pool.Capacity(G.StoredSize(s.index[path]))
  {
    hide RecordPool.Pool.Valid, G.DiskBytes, RecordPool.PageCapacity;
    PoolReconcile.SlotInPage(s.pool, G.SlotOf(s.index[path]));
  }

  lemma HeldBody(s: G.Store, path: string, content: string -> seq<Byte>)
    requires s.Valid() && path in s.index && Holding(s.bodies, content)
    ensures path in s.bodies && s.bodies[path] == content(path)
  {
    hide RecordPool.Pool.Valid, G.DiskBytes, G.Agrees, G.PoolHolds;
  }

  /** What the slot of an entry holds, whether or not that entry is still there. */
  method ReadSlot(s: G.Store, ie: G.IndexEntry, ghost content: string -> seq<Byte>) returns (body: Option<seq<Byte>>)
    requires s.Valid() && Holding(s.bodies, content) && 0 < G.StoredSize(ie)
    requires ie.loc.slot < s.pool.Capacity(G.StoredSize(ie))
    ensures forall q :: q in s.index && G.Pooled(s.index[q]) && G.SlotOf(s.index[q]) == G.SlotOf(ie) ==>
      body == Some(content(q))
    ensures body.Some? <==> G.SlotOf(ie).page in s.pool.pages
  {
    hide RecordPool.Pool.Valid, G.DiskBytes, RecordPool.PageCapacity;
    body := s.pool.Read(G.StoredSize(ie), ie.loc);
  }

  // ----- Content-addressed store -----

  datatype LocalOp =
    | Put(actionID: string, outputID: string, upload: Upload, now: int, fault: RecordPool.Fault)
    | Get(actionID: string, now: int)
    | EvictLru
    | EvictDown
    | RemoveUnchanged(actionID: string, expected: L.Entry)

  /** Content addressing: an output's stored form always has the same size. */
  ghost predicate BodiesSizedBy(bodies: map<string, seq<Byte>>, sizeOf: string -> int) {
    forall o :: o in bodies ==> |bodies[o]| == sizeOf(o)
  }

  ghost predicate PutRespects(op: LocalOp, sizeOf: string -> int, compress: bool, z: Zstd) {
    op.Put? && FormForPut(op.upload, compress, z).Some? ==>
      FormSize(FormForPut(op.upload, compress, z).value) == sizeOf(op.outputID)
  }

  method PutStep(s: L.Store, op: LocalOp, ghost sizeOf: string -> int)
    requires op.Put? && s.Valid() && BodiesSizedBy(s.bodies, sizeOf) && PutRespects(op, sizeOf, s.compress, s.zstd)
    modifies s, s.pool, s.pool.Repr
    ensures s.Valid() && BodiesSizedBy(s.bodies, sizeOf) && fresh(s.pool.Repr - old(s.pool.Repr))
    ensures old(L.NoStrays(s.OnDisk())) ==> L.NoStrays(s.OnDisk())
  {
    hide L.Store.Counted, L.Store.Placed, L.Store.PoolOk, L.NoStrays;
    var r := s.PutOne(op.actionID, op.outputID, op.upload, op.now, op.fault);
  }

  lemma FewerStaySized(before: map<string, seq<Byte>>, after: map<string, seq<Byte>>, sizeOf: string -> int)
    requires BodiesSizedBy(before, sizeOf) && L.FewerBodies(before, after)
    ensures BodiesSizedBy(after, sizeOf)
  {
  }

  method LocalStep(s: L.Store, op: LocalOp, ghost sizeOf: string -> int)
    requires s.Valid() && BodiesSizedBy(s.bodies, sizeOf) && PutRespects(op, sizeOf, s.compress, s.zstd)
    modifies s, s.pool, s.pool.Repr
    ensures s.Valid() && BodiesSizedBy(s.bodies, sizeOf) && fresh(s.pool.Repr - old(s.pool.Repr))
    ensures old(L.NoStrays(s.OnDisk())) ==> L.NoStrays(s.OnDisk())
  {
    hide L.Store.Valid, BodiesSizedBy, PutRespects, L.StorageAfterRemove, L.FewerBodies, L.NoStrays;
    ghost var index, disk, bodies := s.index, s.OnDisk(), s.bodies;
    match op
    case Put(_, _, _, _, _) =>
      PutStep(s, op, sizeOf);
    case Get(a, now) =>
      var _ := s.GetOne(a, now);
    case EvictLru =>
      var evicted, victim := s.EvictOne();
      if evicted {
        L.BodiesAfterRemove(index, victim, disk, bodies, s.OnDisk(), s.bodies);
        FewerStaySized(bodies, s.bodies, sizeOf);
      }
    case RemoveUnchanged(a, expected) =>
      var removed := s.RemoveIfUnchanged(a, expected);
      if removed {
        L.BodiesAfterRemove(index, a, disk, bodies, s.OnDisk(), s.bodies);
        FewerStaySized(bodies, s.bodies, sizeOf);
      }
    case EvictDown =>
      s.EvictIfNeeded();
      FewerStaySized(bodies, s.bodies, sizeOf);
  }

  /** Over any run of puts, lookups, evictions and removals of broken entries, with content
      addressing: reference counts, sizes, locations, pool slots and the disk total stay in step, and
      the plain files are exactly those of plain outputs. */
  method RunLocal(s: L.Store, ops: seq<LocalOp>, ghost sizeOf: string -> int)
    requires s.Valid() && BodiesSizedBy(s.bodies, sizeOf) && L.NoStrays(s.OnDisk())
    requires forall i :: 0 <= i < |ops| ==> PutRespects(ops[i], sizeOf, s.compress, s.zstd)
    modifies s, s.pool, s.pool.Repr
    ensures s.Valid() && BodiesSizedBy(s.bodies, sizeOf) && L.NoStrays(s.OnDisk())
  {
    hide L.Store.Valid, BodiesSizedBy, PutRespects, L.NoStrays;
    for i := 0 to |ops|
      invariant s.Valid() && BodiesSizedBy(s.bodies, sizeOf) && L.NoStrays(s.OnDisk())
        && fresh(s.pool.Repr - old(s.pool.Repr))
    {
      LocalStep(s, ops[i], sizeOf);
    }
  }
}
