/** Uploading a cache: the client builds an item stream and sends it in fixed-size chunks; the
    server saves what it reads and, once the upload is finalized, merges the saved paths into the
    request's manifests. */
module SaveCache {
  import opened Common
  import opened StoredForm
  import opened StreamWire
  import opened StreamIO
  import opened GocacheStore
  import RecordPool
  import Manifest
  import Restore

  const DEFAULT_CHUNK_BYTES := 921600

  // ----- Client -----

  predicate WithinLimit(size: int, maxFileBytes: int) {
    maxFileBytes <= 0 || size <= maxFileBytes
  }

  /** What the client sends for a file: small ones as they are, others compressed. */
  function Prepared(item: FileItem, z: Zstd): Item {
    var u := item.upload;
    if u.size < MIN_COMPRESSION_SIZE then
      Item(Meta(item.path, u.size, if u.wireSize == 0 then u.size else u.wireSize, u.isCompressed), u.body)
    else
      var data := if u.isCompressed then u.body else z.encode(u.body);
      Item(Meta(item.path, u.size, |data|, true), data)
  }

  /** A file of 200 bytes or more is sent compressed, announced with the length it then has; a smaller one as it
      came. */
  lemma SentForm(item: FileItem, z: Zstd)
    ensures var sent := Prepared(item, z);
            && sent.meta.path == item.path && sent.meta.size == item.upload.size
            && (item.upload.size < 200 ==> sent.body == item.upload.body
                                           && sent.meta.isCompressed == item.upload.isCompressed)
            && (item.upload.size >= 200 ==> sent.meta.isCompressed && sent.meta.wireSize == |sent.body|)
            && (item.upload.size >= 200 && LawfulZstd(z) && !item.upload.isCompressed ==>
                  z.decode(sent.body) == Some(item.upload.body))
  {
  }

  /** No file has a negative size. */
  predicate NoNegativeSizes(batch: seq<FileItem>) {
    forall i :: 0 <= i < |batch| ==> 0 <= batch[i].upload.size && 0 <= batch[i].upload.wireSize
  }

  function Outgoing(batch: seq<FileItem>, z: Zstd, announced: int): seq<Item> {
    if batch == [] then []
    else
      var last := batch[|batch| - 1];
      Outgoing(batch[..|batch| - 1], z, announced) +
      if WithinLimit(last.upload.size, announced) then [Prepared(last, z)] else []
  }

  /** Cuts a byte source into chunks, all of the full length but the last. */
  method CutIntoChunks(src: Source, maxRequestBytes: nat) returns (chunks: seq<seq<Byte>>)
    requires 0 < maxRequestBytes
    modifies src
    ensures Flatten(chunks) == old(src.Rest()) && src.Rest() == []
    ensures forall i :: 0 <= i < |chunks| ==> 0 < |chunks[i]| <= maxRequestBytes
    ensures forall i :: 0 <= i < |chunks| - 1 ==> |chunks[i]| == maxRequestBytes
  {
    hide Flatten, Take, Drop;
    chunks := [];
    ghost var s := src.Rest();
    assert Flatten(chunks) == [] by {
      NothingFlattened();
    }
    while true
      invariant Flatten(chunks) + src.Rest() == s
      invariant forall i :: 0 <= i < |chunks| ==> |chunks[i]| == maxRequestBytes
      decreases |src.Rest()|
    {
      ghost var rest := src.Rest();
      var buf := src.ReadFull(maxRequestBytes);
      TakeAndDrop(rest, maxRequestBytes);
      if |buf| > 0 {
        OneChunkMore(chunks, buf, src.Rest());
        chunks := chunks + [buf];
      }
      if |buf| < maxRequestBytes {
        return;
      }
    }
  }

  lemma NothingFlattened()
    ensures Flatten([]) == []
  {
  }

  lemma OneChunkMore(chunks: seq<seq<Byte>>, chunk: seq<Byte>, rest: seq<Byte>)
    ensures Flatten(chunks + [chunk]) + rest == Flatten(chunks) + (chunk + rest)
  {
    FlattenAppend(chunks, chunk);
    hide Flatten;
    assert Flatten(chunks) + chunk + rest == Flatten(chunks) + (chunk + rest);
  }

  lemma TakeAndDrop(s: seq<Byte>, n: nat)
    ensures Take(s, n) + Drop(s, n) == s && |Take(s, n)| <= n
    ensures |Take(s, n)| < n ==> Drop(s, n) == []
  {
  }

  /** Builds the stream and cuts it up; fails exactly if some outgoing item cannot be written. */
  method SaveCacheOnce(batch: seq<FileItem>, z: Zstd, announced: int, requestBytes: int, c: Codec<Meta>)
    returns (chunks: seq<seq<Byte>>, ok: bool)
    requires NoNegativeSizes(batch)
    ensures ok <==> AllWritable(Outgoing(batch, z, announced), c)
    ensures ok ==> Flatten(chunks) == Stream(Outgoing(batch, z, announced), c)
  {
    hide Frame, Writable;
    OutgoingSizes(batch, z, announced);
    var maxRequestBytes := if requestBytes <= 0 then DEFAULT_CHUNK_BYTES else requestBytes;
    var sw := new StreamWriter(c);
    ok := sw.WriteAll(Outgoing(batch, z, announced));
    if !ok {
      return [], false;
    }
    var src := new Source([sw.out], false);
    assert Flatten([sw.out]) == sw.out + Flatten([]);
    chunks := CutIntoChunks(src, maxRequestBytes);
  }

  lemma {:induction false} OutgoingSizes(batch: seq<FileItem>, z: Zstd, announced: int)
    requires NoNegativeSizes(batch)
    ensures NonNegative(Outgoing(batch, z, announced))
  {
    if batch != [] {
      OutgoingSizes(batch[..|batch| - 1], z, announced);
    }
  }

  // ----- Server -----

  function AsFile(item: Item): FileItem {
    FileItem(item.meta.path, Upload(item.meta.size, item.meta.wireSize, item.meta.isCompressed, item.body))
  }

  /** What the server makes of an item: one that is not declared empty needs a body, and an oversized
      one is passed over. */
  predicate Acceptable(item: Item, maxFileBytes: int, compress: bool, z: Zstd) {
    && (item.meta.size != 0 || item.meta.wireSize != 0 ==> 0 < Wire(item.meta))
    && (WithinLimit(item.meta.size, maxFileBytes) ==>
        item.meta.path != "" && Admitted(AsFile(item).upload, compress, z).Some?)
  }

  predicate AllAcceptable(items: seq<Item>, maxFileBytes: int, compress: bool, z: Zstd) {
    forall i :: 0 <= i < |items| ==> Acceptable(items[i], maxFileBytes, compress, z)
  }

  /** The paths of the items within the limit, in stream order. */
  function KeptPaths(items: seq<Item>, maxFileBytes: int): seq<string> {
    if items == [] then []
    else
      var last := items[|items| - 1];
      KeptPaths(items[..|items| - 1], maxFileBytes) + if WithinLimit(last.meta.size, maxFileBytes) then [last.meta.path]
        else []
  }

  /** The saved bodies once all the items within the limit are saved. */
  ghost function BodiesAfter(bodies: map<string, seq<Byte>>, items: seq<Item>, maxFileBytes: int, compress: bool,
                             z: Zstd)
    : map<string, seq<Byte>>
  {
    if items == [] then bodies
    else
      var last := items[|items| - 1];
      var before := BodiesAfter(bodies, items[..|items| - 1], maxFileBytes, compress, z);
      if WithinLimit(last.meta.size, maxFileBytes) && Admitted(AsFile(last).upload, compress, z).Some? then
        before[last.meta.path := Admitted(AsFile(last).upload, compress, z).value.body]
      else before
  }

  /** The stream callback: saves one item, or passes it over unread. */
  method SaveOne(store: Store, item: Item, now: int, fault: RecordPool.Fault, diskFull: bool, chtimesFails: bool)
    returns (ok: bool, kept: bool)
    requires store.Valid()
    modifies store, store.evictHeap, store.pool, store.pool.Repr
    ensures store.Valid() && fresh(store.pool.Repr - old(store.pool.Repr))
    ensures ok ==> Acceptable(item, store.maxFileBytes, store.compress, store.zstd)
    ensures fault == RecordPool.NoFault && !chtimesFails ==>
      (ok <==> Acceptable(item, store.maxFileBytes, store.compress, store.zstd))
    ensures ok ==> (kept <==> WithinLimit(item.meta.size, store.maxFileBytes))
    ensures ok && Manifest.Canonical(item.meta.path) && old(store.CleanFiles()) ==> store.CleanFiles()
    ensures ok ==>
      store.bodies == BodiesAfter(old(store.bodies), [item], store.maxFileBytes, store.compress, store.zstd)
  {
    hide Store.Valid, Store.Covered, Intact, Owned, FormForPut, SaveSpoils, Apart, ObjectName, Manifest.Canonical;
    if AllCanonical(store.index.Keys) && Manifest.Canonical(item.meta.path) {
      CleanSaveSpoilsNothing(store.dir, store.index, store.bodies, item.meta.path);
    }
    assert [item][..0] == [];
    assert BodiesAfter(store.bodies, [], store.maxFileBytes, store.compress, store.zstd) == store.bodies;
    if item.meta.size != 0 && Wire(item.meta) <= 0 {
      return false, false;
    }
    if store.maxFileBytes > 0 && item.meta.size > store.maxFileBytes {
      return true, false;
    }
    if item.meta.wireSize != 0 && Wire(item.meta) <= 0 {
      return false, false;
    }
    var r := store.PutOne(AsFile(item), now, fault, diskFull, chtimesFails);
    return r.Saved?, true;
  }

  function Commit(req: Restore.Request): Restore.Target {
    Restore.CommitTarget(req.commit, req.buildType)
  }

  function Changes(req: Restore.Request): Restore.Target {
    Restore.ChangesTarget(req.changesID, req.buildType)
  }

  /** Each manifest the request names has a valid name and can be written. */
  predicate Mergeable(req: Restore.Request, fails: Restore.ManifestId -> bool) {
    && (req.commit == "" || (Commit(req).At? && !fails(Commit(req).id)))
    && (req.changesID == "" || (Changes(req).At? && !fails(Changes(req).id)))
  }

  ghost function TextOf(files: Restore.Files, id: Restore.ManifestId): string {
    if id in files then files[id].text else ""
  }

  /** This manifest, if the request names one, is the old one with these paths merged in. */
  ghost predicate MergedInto(target: Restore.Target, before: Restore.Files, after: Restore.Files, index: set<string>,
                             paths: seq<string>)
  {
    target.At? ==>
      target.id in after && after[target.id].text == Manifest.Merged(TextOf(before, target.id), index, paths)
  }

  /** Every other manifest is as it was, and these are as they were or merged. */
  ghost predicate OnlyMerged(req: Restore.Request, before: Restore.Files, after: Restore.Files, index: set<string>,
                             paths: seq<string>)
  {
    forall target: Restore.Target :: target.At? ==>
      || ((target == Commit(req) || target == Changes(req)) && MergedInto(target, before, after, index, paths))
      || ((target.id in after <==> target.id in before)
          && (target.id in after ==> after[target.id] == before[target.id]))
  }

  ghost predicate IsNamed(id: Restore.ManifestId, req: Restore.Request) {
    Restore.IsOfCommit(id, req.commit, req.buildType) || Restore.IsOfChanges(id, req.changesID, req.buildType)
  }

  lemma NamedAre(req: Restore.Request)
    ensures !Commit(req).Invalid? && !Changes(req).Invalid? ==>
      forall id :: IsNamed(id, req) <==> Commit(req) == Restore.At(id) || Changes(req) == Restore.At(id)
    ensures forall id :: Commit(req) == Restore.At(id) || Changes(req) == Restore.At(id) ==> IsNamed(id, req)
  {
    hide Restore.CommitTarget, Restore.ChangesTarget, Restore.ScopeDir, Restore.IsOfCommit, Restore.IsOfChanges;
    Restore.TargetsAre(req.commit, req.buildType);
    Restore.TargetsAre(req.changesID, req.buildType);
  }

  /** Merges the saved paths into the manifests that the request names; the write of a manifest fails
      as `fails` says. */
  method MergeSavedPaths(manifests: Restore.ManifestDir, req: Restore.Request, paths: seq<string>, index: set<string>,
                         now: int, fails: Restore.ManifestId -> bool) returns (ok: bool)
    modifies manifests
    ensures ok <==> Mergeable(req, fails)
    ensures OnlyMerged(req, old(manifests.files), manifests.files, index, paths)
    ensures ok ==>
      && MergedInto(Commit(req), old(manifests.files), manifests.files, index, paths)
      && MergedInto(Changes(req), old(manifests.files), manifests.files, index, paths)
    // Which manifests: those of the request's commit and changes, for its build type.
    ensures ok ==> forall id :: IsNamed(id, req) ==>
      id in manifests.files &&
      manifests.files[id].text == Manifest.Merged(TextOf(old(manifests.files), id), index, paths)
    ensures forall id :: !IsNamed(id, req) ==>
      && (id in manifests.files <==> id in old(manifests.files))
      && (id in manifests.files ==> manifests.files[id] == old(manifests.files)[id])
  {
    NamedAre(req);
    hide IsNamed, Manifest.Merged, Restore.ScopeDir, Restore.ValidKeyName, Restore.ByteLen;
    if req.commit != "" {
      var target := Restore.CommitTarget(req.commit, req.buildType);
      if !target.At? {
        return false;
      }
      ok := manifests.MergeManifest(target.id, paths, index, now, fails(target.id));
      if !ok {
        return;
      }
    }
    if req.changesID != "" {
      var target := Restore.ChangesTarget(req.changesID, req.buildType);
      if !target.At? {
        return false;
      }
      ok := manifests.MergeManifest(target.id, paths, index, now, fails(target.id));
      if !ok {
        return;
      }
    }
    return true;
  }

  /** A merged path that can be listed is what the next load of that manifest yields. */
  lemma SavedPathIsListed(target: Restore.Target, before: Restore.Files, after: Restore.Files, index: set<string>,
                          paths: seq<string>, path: string)
    requires MergedInto(target, before, after, index, paths) && target.At?
    requires path in paths && path in index && Manifest.Listable(path)
    ensures path in Manifest.Load(after[target.id].text, index)
  {
    Manifest.UnionLists(Manifest.Load(TextOf(before, target.id), index), paths, path);
    hide Manifest.Union, Manifest.Body, Manifest.ReadPaths, Manifest.Listable;
  }

  /** Everything a finalized upload has done: every item of the stream was acceptable, and exactly
      the ones within the limit are saved, in stream order. */
  ghost predicate SavedAll(items: seq<Item>, paths: seq<string>, before: map<string, seq<Byte>>,
                           after: map<string, seq<Byte>>,
                           maxFileBytes: int, compress: bool, z: Zstd)
  {
    && AllAcceptable(items, maxFileBytes, compress, z)
    && paths == KeptPaths(items, maxFileBytes)
    && after == BodiesAfter(before, items, maxFileBytes, compress, z)
  }

  lemma SavedOneMore(items: seq<Item>, item: Item, paths: seq<string>, before: map<string, seq<Byte>>,
                     after: map<string, seq<Byte>>,
                     now: map<string, seq<Byte>>, maxFileBytes: int, compress: bool, z: Zstd)
    requires SavedAll(items, paths, before, after, maxFileBytes, compress, z)
      && Acceptable(item, maxFileBytes, compress, z)
    requires now == BodiesAfter(after, [item], maxFileBytes, compress, z)
    ensures SavedAll(items + [item], if WithinLimit(item.meta.size, maxFileBytes) then paths + [item.meta.path]
                     else paths,
                     before, now, maxFileBytes, compress, z)
  {
    hide Acceptable, Admitted;
    assert [item][..0] == [];
    assert BodiesAfter(after, [], maxFileBytes, compress, z) == after;
    assert (items + [item])[..|items|] == items;
  }

  /** How the disk fares: how the k-th save's write and the setting of its time fail, and whether a
      failed write finds it full. */
  datatype Disk = Disk(faults: nat -> RecordPool.Fault, chtimesFails: nat -> bool, full: bool)

  ghost predicate Healthy(disk: Disk) {
    forall k :: disk.faults(k) == RecordPool.NoFault && !disk.chtimesFails(k)
  }

  /** Every item has a canonical path. */
  ghost predicate CleanlyNamed(items: seq<Item>) {
    forall i :: 0 <= i < |items| ==> Manifest.Canonical(items[i].meta.path)
  }

  method SaveItems(store: Store, src: Source, c: Codec<Meta>, now: int, disk: Disk)
    returns (ok: bool, paths: seq<string>)
    requires store.Valid() && src !in store.pool.Repr
    modifies src, store, store.evictHeap, store.pool, store.pool.Repr
    ensures store.Valid() && fresh(store.pool.Repr - old(store.pool.Repr))
    ensures var p := Parse(old(src.Rest()), c);
            && (ok ==>
                  && EndsWell(old(src.Rest()), src.aborted, c)
                  && SavedAll(p.whole, paths, old(store.bodies), store.bodies, store.maxFileBytes, store.compress,
                              store.zstd))
            && (Healthy(disk) ==>
                  (ok <==>
                    && EndsWell(old(src.Rest()), src.aborted, c)
                    && AllAcceptable(p.whole, store.maxFileBytes, store.compress, store.zstd)))
    ensures ok && CleanlyNamed(Parse(old(src.Rest()), c).whole) && old(store.CleanFiles()) ==> store.CleanFiles()
  {
    hide Store.Valid, Store.CleanFiles, NextOf, Parse, Terminated, Leftover, Acceptable, SavedAll, BodiesAfter;
    hide Manifest.Canonical;
    paths := [];
    ghost var s, seen: seq<Item> := src.Rest(), [];
    NothingSaved(store.bodies, store.maxFileBytes, store.compress, store.zstd);
    var k: nat := 0;
    while true
      invariant store.Valid() && src !in store.pool.Repr && fresh(store.pool.Repr - old(store.pool.Repr))
      invariant Parse(s, c) == After(seen, Parse(src.Rest(), c)) && (Terminated(s, c) <==> Terminated(src.Rest(), c))
      invariant SavedAll(seen, paths, old(store.bodies), store.bodies, store.maxFileBytes, store.compress, store.zstd)
      invariant CleanlyNamed(seen) && old(store.CleanFiles()) ==> store.CleanFiles()
      decreases |src.Rest()|
    {
      ParseStep(src.Rest(), c, seen);
      ghost var rest := src.Rest();
      var got, n := ReadNext(src, c, 0);
      if got.Stopped? {
        SavedAreAcceptable(seen, paths, old(store.bodies), store.bodies, store.maxFileBytes, store.compress,
                           store.zstd);
        return got.clean && !(n == 0 && src.aborted), paths;
      }
      if !got.whole && src.aborted {
        return false, paths;
      }
      ghost var bodies := store.bodies;
      var fine, kept := SaveOne(store, got.item, now, disk.faults(k), disk.full, disk.chtimesFails(k));
      if !fine || !got.whole {
        assert got.whole ==> Parse(s, c).whole[|seen|] == got.item;
        return false, paths;
      }
      SavedOneMore(seen, got.item, paths, old(store.bodies), bodies, store.bodies, store.maxFileBytes, store.compress,
                   store.zstd);
      NamedOneMore(seen, got.item);
      seen := seen + [got.item];
      if kept {
        paths := paths + [got.item.meta.path];
      }
      k := k + 1;
    }
  }

  lemma NamedOneMore(items: seq<Item>, item: Item)
    ensures CleanlyNamed(items + [item]) <==> CleanlyNamed(items) && Manifest.Canonical(item.meta.path)
  {
    hide Manifest.Canonical;
    assert CleanlyNamed(items + [item]) ==> Manifest.Canonical((items + [item])[|items|].meta.path);
    forall i | CleanlyNamed(items + [item]) && 0 <= i < |items|
      ensures Manifest.Canonical(items[i].meta.path)
    {
      assert (items + [item])[i] == items[i];
    }
  }

  lemma NothingSaved(bodies: map<string, seq<Byte>>, maxFileBytes: int, compress: bool, z: Zstd)
    ensures SavedAll([], [], bodies, bodies, maxFileBytes, compress, z)
  {
  }

  lemma SavedAreAcceptable(items: seq<Item>, paths: seq<string>, before: map<string, seq<Byte>>,
                           after: map<string, seq<Byte>>,
                           maxFileBytes: int, compress: bool, z: Zstd)
    requires SavedAll(items, paths, before, after, maxFileBytes, compress, z)
    ensures AllAcceptable(items, maxFileBytes, compress, z)
  {
  }

  /** Reads an upload to its end and merges what it saved. With a healthy disk it succeeds exactly
      when the stream ends properly, every item in it is acceptable, and the manifests have valid
      names and can be written. */
  method ProcessSaveCacheStream(store: Store, req: Restore.Request, src: Source, c: Codec<Meta>, now: int, disk: Disk,
                                fails: Restore.ManifestId -> bool) returns (ok: bool, paths: seq<string>)
    requires store.Valid() && src !in store.pool.Repr
    modifies src, store, store.evictHeap, store.pool, store.pool.Repr, store.manifests
    ensures store.Valid()
    ensures OnlyMerged(req, old(store.manifests.files), store.manifests.files, store.index.Keys, paths)
    ensures !EndsWell(old(src.Rest()), src.aborted, c) ==> store.manifests.files == old(store.manifests.files)
    ensures var p := Parse(old(src.Rest()), c);
            && (ok ==>
                  && EndsWell(old(src.Rest()), src.aborted, c)
                  && SavedAll(p.whole, paths, old(store.bodies), store.bodies, store.maxFileBytes, store.compress,
                              store.zstd)
                  && MergedInto(Commit(req), old(store.manifests.files), store.manifests.files, store.index.Keys, paths)
                  && MergedInto(Changes(req), old(store.manifests.files), store.manifests.files, store.index.Keys,
                                paths))
            && (Healthy(disk) ==>
                  (ok <==>
                    && EndsWell(old(src.Rest()), src.aborted, c) && Mergeable(req, fails)
                    && AllAcceptable(p.whole, store.maxFileBytes, store.compress, store.zstd)))
    ensures ok && CleanlyNamed(Parse(old(src.Rest()), c).whole) && old(store.CleanFiles()) ==> store.CleanFiles()
  {
    hide Parse, SavedAll, AllAcceptable, MergedInto, Agrees, DiskBytes, RecordPool.Pool.Valid, PoolHolds;
    hide Store.CleanFiles, CleanlyNamed;
    hide Terminated, EndsWell;
    ok, paths := SaveItems(store, src, c, now, disk);
    if !ok {
      return;
    }
    ok := MergeSavedPaths(store.manifests, req, paths, store.index.Keys, now, fails);
  }

  // ----- End to end -----

  /** An uncompressed file that is as long as it says. */
  predicate Honest(item: FileItem) {
    !item.upload.isCompressed && item.upload.wireSize == 0 && |item.upload.body| == item.upload.size && item.path != ""
  }

  /** Whatever either side compresses, the server accepts an honest file and stores bytes that
      decode to the file's contents. */
  lemma HonestFileSurvives(item: FileItem, maxFileBytes: int, compress: bool, z: Zstd)
    requires Honest(item) && LawfulZstd(z)
    ensures var sent := OnWire(Prepared(item, z));
            && sent.body == Prepared(item, z).body
            && Acceptable(sent, maxFileBytes, compress, z)
            && Admitted(AsFile(sent).upload, compress, z).Some?
            && Content(Admitted(AsFile(sent).upload, compress, z).value, z) == Some(item.upload.body)
  {
    var data := z.encode(item.upload.body);
    assert data != [] && z.decode(data) == Some(item.upload.body);
  }

  /** The files within both limits, in the order they were given. */
  function BothLimits(batch: seq<FileItem>, announced: int, maxFileBytes: int): seq<string> {
    if batch == [] then []
    else
      var last := batch[|batch| - 1];
      BothLimits(batch[..|batch| - 1], announced, maxFileBytes) +
      if WithinLimit(last.upload.size, announced) && WithinLimit(last.upload.size, maxFileBytes) then [last.path]
      else []
  }

  lemma SentMeta(item: FileItem, z: Zstd)
    ensures OnWire(Prepared(item, z)).meta.path == item.path && OnWire(Prepared(item, z)).meta.size == item.upload.size
  {
  }

  lemma SentOneMore(batch: seq<FileItem>, z: Zstd, announced: int)
    requires batch != []
    ensures var last := batch[|batch| - 1];
            AllOnWire(Outgoing(batch, z, announced)) ==
            AllOnWire(Outgoing(batch[..|batch| - 1], z, announced)) +
            if WithinLimit(last.upload.size, announced) then [OnWire(Prepared(last, z))] else []
  {
    hide Prepared, OnWire;
    var out, last := Outgoing(batch[..|batch| - 1], z, announced), batch[|batch| - 1];
    if WithinLimit(last.upload.size, announced) {
      assert AllOnWire(out + [Prepared(last, z)]) == AllOnWire(out) + [OnWire(Prepared(last, z))];
    } else {
      assert out + [] == out;
    }
  }

  /** A file's size is within both limits, zero or less being none. */
  ghost predicate SmallEnough(item: FileItem, announced: int, maxFileBytes: int) {
    (announced <= 0 || item.upload.size <= announced) && (maxFileBytes <= 0 || item.upload.size <= maxFileBytes)
  }

  /** What is saved of a batch: every file that is small enough, and all in order if they all are. */
  ghost predicate SavesSmallEnough(batch: seq<FileItem>, announced: int, maxFileBytes: int, paths: seq<string>) {
    && (forall p :: p in paths ==>
        exists item :: item in batch && item.path == p && SmallEnough(item, announced, maxFileBytes))
    && (forall item :: item in batch && SmallEnough(item, announced, maxFileBytes) ==> item.path in paths)
    && ((forall item :: item in batch ==> SmallEnough(item, announced, maxFileBytes)) ==>
          |paths| == |batch| && forall i :: 0 <= i < |batch| ==> paths[i] == batch[i].path)
  }

  lemma {:induction false} BothLimitsAre(batch: seq<FileItem>, announced: int, maxFileBytes: int)
    ensures SavesSmallEnough(batch, announced, maxFileBytes, BothLimits(batch, announced, maxFileBytes))
  {
    if batch != [] {
      var front, last := batch[..|batch| - 1], batch[|batch| - 1];
      BothLimitsAre(front, announced, maxFileBytes);
      assert batch == front + [last];
      assert SmallEnough(last, announced, maxFileBytes) <==>
        WithinLimit(last.upload.size, announced) && WithinLimit(last.upload.size, maxFileBytes);
      hide SmallEnough, WithinLimit;
    }
  }

  lemma {:induction false} KeptAreWithinBoth(batch: seq<FileItem>, z: Zstd, announced: int, maxFileBytes: int)
    ensures KeptPaths(AllOnWire(Outgoing(batch, z, announced)), maxFileBytes) ==
      BothLimits(batch, announced, maxFileBytes)
  {
    hide Prepared, OnWire;
    if batch != [] {
      var rest, last := batch[..|batch| - 1], batch[|batch| - 1];
      KeptAreWithinBoth(rest, z, announced, maxFileBytes);
      SentOneMore(batch, z, announced);
      SentMeta(last, z);
      hide Outgoing;
      var sent := AllOnWire(Outgoing(batch, z, announced));
      if WithinLimit(last.upload.size, announced) {
        assert sent[..|sent| - 1] == AllOnWire(Outgoing(rest, z, announced));
      } else {
        assert sent == AllOnWire(Outgoing(rest, z, announced));
      }
    }
  }

  lemma {:induction false} HonestFilesSurvive(batch: seq<FileItem>, announced: int, maxFileBytes: int, compress: bool,
                                              z: Zstd)
    requires LawfulZstd(z) && forall i :: 0 <= i < |batch| ==> Honest(batch[i])
    ensures AllAcceptable(AllOnWire(Outgoing(batch, z, announced)), maxFileBytes, compress, z)
  {
    if batch != [] {
      var rest, last := batch[..|batch| - 1], batch[|batch| - 1];
      HonestFilesSurvive(rest, announced, maxFileBytes, compress, z);
      HonestFileSurvives(last, maxFileBytes, compress, z);
      hide Acceptable, Honest, Prepared, OnWire, WithinLimit;
      var out, sent := Outgoing(rest, z, announced), Outgoing(batch, z, announced);
      forall i | 0 <= i < |sent|
        ensures Acceptable(AllOnWire(sent)[i], maxFileBytes, compress, z)
      {
        if i < |out| {
          assert AllOnWire(sent)[i] == AllOnWire(out)[i];
        }
      }
    }
  }

  /** The stored form of a file once it is sent. */
  function StoredFormOf(item: FileItem, compress: bool, z: Zstd): Option<Form> {
    Admitted(AsFile(OnWire(Prepared(item, z))).upload, compress, z)
  }

  /** Of files with distinct paths, each one within both limits ends up stored as bytes that decode
      to its contents. */
  lemma {:induction false} UploadedFileIsRecorded(batch: seq<FileItem>, i: nat, announced: int,
                                                 bodies: map<string, seq<Byte>>,
                                                 maxFileBytes: int, compress: bool, z: Zstd)
    requires LawfulZstd(z) && i < |batch| && (forall j :: 0 <= j < |batch| ==> Honest(batch[j]))
    requires forall j, k :: 0 <= j < k < |batch| ==> batch[j].path != batch[k].path
    requires WithinLimit(batch[i].upload.size, announced) && WithinLimit(batch[i].upload.size, maxFileBytes)
    ensures var after := BodiesAfter(bodies, AllOnWire(Outgoing(batch, z, announced)), maxFileBytes, compress, z);
            && StoredFormOf(batch[i], compress, z).Some? && batch[i].path in after
            && after[batch[i].path] == StoredFormOf(batch[i], compress, z).value.body
            && Content(StoredFormOf(batch[i], compress, z).value, z) == Some(batch[i].upload.body)
  {
    var rest, last := batch[..|batch| - 1], batch[|batch| - 1];
    assert last == batch[|batch| - 1];
    HonestFileSurvives(batch[i], maxFileBytes, compress, z);
    UploadedOneMore(batch, announced, bodies, maxFileBytes, compress, z);
    if i < |rest| {
      assert rest[i] == batch[i];
      UploadedFileIsRecorded(rest, i, announced, bodies, maxFileBytes, compress, z);
    }
    hide Honest, StoredFormOf, Content, LawfulZstd, BodiesAfter, Outgoing, WithinLimit;
  }

  lemma UploadedOneMore(batch: seq<FileItem>, announced: int, bodies: map<string, seq<Byte>>, maxFileBytes: int,
                        compress: bool, z: Zstd)
    requires batch != []
    ensures var last := batch[|batch| - 1];
            var before :=
              BodiesAfter(bodies, AllOnWire(Outgoing(batch[..|batch| - 1], z, announced)), maxFileBytes, compress, z);
            BodiesAfter(bodies, AllOnWire(Outgoing(batch, z, announced)), maxFileBytes, compress, z) ==
            if WithinLimit(last.upload.size, announced) && WithinLimit(last.upload.size, maxFileBytes)
               && StoredFormOf(last, compress, z).Some? then
              before[last.path := StoredFormOf(last, compress, z).value.body]
            else before
  {
    hide Admitted, Outgoing, Prepared, OnWire;
    SentOneMore(batch, z, announced);
    SentMeta(batch[|batch| - 1], z);
    var sent, last := AllOnWire(Outgoing(batch, z, announced)), batch[|batch| - 1];
    if WithinLimit(last.upload.size, announced) {
      assert sent[..|sent| - 1] == AllOnWire(Outgoing(batch[..|batch| - 1], z, announced));
    } else {
      assert sent == AllOnWire(Outgoing(batch[..|batch| - 1], z, announced));
    }
  }

  ghost predicate HonestUpload(batch: seq<FileItem>, z: Zstd, announced: int, c: Codec<Meta>) {
    && LawfulZstd(z) && (forall i :: 0 <= i < |batch| ==> Honest(batch[i]))
    && AllWritable(Outgoing(batch, z, announced), c)
  }

  /** An upload that is aborted anywhere short of its end is refused, and merges nothing: even a cut
      between two items, where an ordinary end of the stream would be taken for a proper one. */
  method AbortedUploadIsRefused(items: seq<Item>, n: nat, store: Store, req: Restore.Request, src: Source,
                                c: Codec<Meta>, now: int, disk: Disk, fails: Restore.ManifestId -> bool)
    returns (ok: bool)
    requires store.Valid() && src !in store.pool.Repr && Lawful(c) && AllWritable(items, c)
    requires n < |Stream(items, c)| && src.Rest() == Stream(items, c)[..n] && src.aborted
    modifies src, store, store.evictHeap, store.pool, store.pool.Repr, store.manifests
    ensures store.Valid() && !ok && store.manifests.files == old(store.manifests.files)
  {
    hide Store.Valid, Lawful, AllWritable, Parse, Terminated, Stream, MergedInto, SavedAll, AllAcceptable, Healthy;
    CutIsNotTerminated(items, n, c);
    var paths;
    ok, paths := ProcessSaveCacheStream(store, req, src, c, now, disk, fails);
  }

  /** A client's upload, chunked, sent and finalized. When it succeeds, exactly the files within both
      limits are saved and merged, whatever the chunk size; oversized ones never shift the others.
      An honest batch over a healthy disk always succeeds. */
  method SaveCache(batch: seq<FileItem>, z: Zstd, announced: int, requestBytes: int, c: Codec<Meta>,
                   store: Store, req: Restore.Request, now: int, disk: Disk, fails: Restore.ManifestId -> bool)
    returns (ok: bool, paths: seq<string>)
    requires store.Valid() && Lawful(c) && NoNegativeSizes(batch)
    modifies store, store.evictHeap, store.pool, store.pool.Repr, store.manifests
    ensures store.Valid()
    ensures ok ==>
      && paths == BothLimits(batch, announced, store.maxFileBytes)
      && SavesSmallEnough(batch, announced, store.maxFileBytes, paths)
      && store.bodies ==
           BodiesAfter(old(store.bodies), AllOnWire(Outgoing(batch, z, announced)), store.maxFileBytes, store.compress,
                       store.zstd)
      && MergedInto(Commit(req), old(store.manifests.files), store.manifests.files, store.index.Keys, paths)
      && MergedInto(Changes(req), old(store.manifests.files), store.manifests.files, store.index.Keys, paths)
    ensures HonestUpload(batch, z, announced, c) && z == store.zstd && Mergeable(req, fails) && Healthy(disk) ==> ok
    ensures ok && (forall i :: 0 <= i < |batch| ==> Manifest.Canonical(batch[i].path)) && old(store.CleanFiles()) ==>
      store.CleanFiles()
  {
    hide Store.Valid, Lawful, Writable, Parse, MergedInto, BodiesAfter, Honest, Outgoing, NoNegativeSizes, KeptPaths,
      AllAcceptable, Store.CleanFiles, CleanlyNamed, Manifest.Canonical, OnlyMerged;
    var chunks, built := SaveCacheOnce(batch, z, announced, requestBytes, c);
    if !built {
      return false, [];
    }
    var src := new Source(chunks, false);
    RoundTrip(Outgoing(batch, z, announced), c);
    if forall i :: 0 <= i < |batch| ==> Manifest.Canonical(batch[i].path) {
      SentAreCleanlyNamed(batch, z, announced);
    }
    KeptAreWithinBoth(batch, z, announced, store.maxFileBytes);
    BothLimitsAre(batch, announced, store.maxFileBytes);
    hide SavesSmallEnough;
    if HonestUpload(batch, z, announced, c) && z == store.zstd {
      HonestFilesSurvive(batch, announced, store.maxFileBytes, store.compress, store.zstd);
    }
    ok, paths := ProcessSaveCacheStream(store, req, src, c, now, disk, fails);
  }

  lemma {:induction false} SentAreCleanlyNamed(batch: seq<FileItem>, z: Zstd, announced: int)
    requires forall i :: 0 <= i < |batch| ==> Manifest.Canonical(batch[i].path)
    ensures CleanlyNamed(AllOnWire(Outgoing(batch, z, announced)))
  {
    hide Manifest.Canonical;
    if batch != [] {
      SentAreCleanlyNamed(batch[..|batch| - 1], z, announced);
      SentOneMore(batch, z, announced);
      SentMeta(batch[|batch| - 1], z);
      hide Outgoing, Prepared, OnWire;
      if WithinLimit(batch[|batch| - 1].upload.size, announced) {
        NamedOneMore(AllOnWire(Outgoing(batch[..|batch| - 1], z, announced)), OnWire(Prepared(batch[|batch| - 1], z)));
      }
    }
  }

  // ----- Save, then restore -----

  /** Of the resolved paths, those that are indexed are served. */
  method Serve(store: Store, paths: seq<string>) returns (served: map<string, seq<Byte>>)
    requires store.Valid() && store.FilesIntact()
    ensures ServedSome(paths, store.index.Keys, store.bodies, served)
  {
    hide Store.Valid, Intact, ObjectName, ServedSome;
    EntriesHaveBodies(store);
    ServedNone(store.index.Keys, store.bodies);
    served := map[];
    for i := 0 to |paths|
      invariant ServedSome(paths[..i], store.index.Keys, store.bodies, served)
    {
      assert paths[..i + 1] == paths[..i] + [paths[i]];
      ServedOneMore(paths[..i], store.index.Keys, store.bodies, served, paths[i]);
      if paths[i] in store.index {
        var body := store.ReadObject(paths[i]);
        served := served[paths[i] := body.value];
      }
    }
    assert paths[..|paths|] == paths;
  }

  ghost predicate ServedSome(paths: seq<string>, index: set<string>, bodies: map<string, seq<Byte>>,
                             served: map<string, seq<Byte>>)
  {
    forall p :: p in paths && p in index ==> p in served && p in bodies && served[p] == bodies[p]
  }

  lemma ServedNone(index: set<string>, bodies: map<string, seq<Byte>>)
    ensures forall paths :: paths == [] ==> ServedSome(paths, index, bodies, map[])
  {
  }

  lemma ServedOneMore(paths: seq<string>, index: set<string>, bodies: map<string, seq<Byte>>,
                      served: map<string, seq<Byte>>, path: string)
    requires ServedSome(paths, index, bodies, served)
    ensures path in index && path in bodies ==> ServedSome(paths + [path], index, bodies, served[path := bodies[path]])
    ensures path !in index ==> ServedSome(paths + [path], index, bodies, served)
  {
  }

  lemma {:induction false} WithinBothIsKept(batch: seq<FileItem>, i: nat, announced: int, maxFileBytes: int)
    requires i < |batch| && WithinLimit(batch[i].upload.size, announced)
      && WithinLimit(batch[i].upload.size, maxFileBytes)
    ensures batch[i].path in BothLimits(batch, announced, maxFileBytes)
  {
    hide WithinLimit;
    if i < |batch| - 1 {
      WithinBothIsKept(batch[..|batch| - 1], i, announced, maxFileBytes);
    }
  }

  /** What a restore makes of a path that the last upload merged into the manifest of its commit. */
  lemma MergedIsResolved(req: Restore.Request, before: Restore.Files, files: Restore.Files, index: set<string>,
                         paths: seq<string>, path: string, now: int, fails: nat -> bool, def: seq<string>)
    requires Commit(req).At? && MergedInto(Commit(req), before, files, index, paths)
    requires path in paths && path in index && Manifest.Listable(path) && NoDup(def)
    ensures var sources := Restore.Sources(req);
            path in Restore.Resolution(Restore.LoadedLists(sources, files, index, now, fails),
                                       Restore.MatchedNames(sources, files), def).0
  {
    hide Manifest.Merged, Manifest.Load, Manifest.Listable, Restore.Healed, Restore.LoadedLists, Restore.MatchedNames,
      Restore.Resolution, Restore.Concat, Restore.CommitTarget, Restore.ChangesTarget;
    var sources := Restore.Sources(req);
    assert sources[0].1 == Commit(req);
    SavedPathIsListed(Commit(req), before, files, index, paths, path);
    Restore.FirstIsLoaded(sources, files, index, now, fails, path);
    Restore.ResolutionFacts(Restore.LoadedLists(sources, files, index, now, fails),
                            Restore.MatchedNames(sources, files), def);
  }

  lemma HonestFiles(batch: seq<FileItem>, z: Zstd, announced: int, c: Codec<Meta>)
    requires HonestUpload(batch, z, announced, c)
    ensures LawfulZstd(z) && NoNegativeSizes(batch) && forall i :: 0 <= i < |batch| ==> Honest(batch[i])
  {
    hide AllWritable, Outgoing, LawfulZstd;
  }

  /** What was merged into the manifest of a commit is resolved for that commit. */
  method ResolveSaved(manifests: Restore.ManifestDir, req: Restore.Request, index: set<string>, paths: seq<string>,
                      ghost before: Restore.Files, now: int, healFails: nat -> bool, sampleFails: nat -> bool)
    returns (r: Option<(seq<string>, seq<string>)>)
    requires Commit(req).At? && MergedInto(Commit(req), before, manifests.files, index, paths)
    modifies manifests
    ensures (forall s :: s in Restore.Sources(req) ==> !s.1.Invalid?) ==> r.Some?
    ensures r.Some? ==> forall p :: p in paths && p in index && Manifest.Listable(p) ==> p in r.value.0
  {
    assert Restore.Sources(req)[0].1 == Commit(req) && Restore.Sources(req)[0] in Restore.Sources(req);
    hide MergedInto, Manifest.Listable, Restore.Sources, Restore.IsDefault, Restore.IsDefaultRead,
      Restore.Resolution, Restore.LoadedLists, Restore.MatchedNames, Restore.MatchedIds, Restore.FilesAfter,
      Restore.StoppedAtInvalid, Restore.ScopeDir, Restore.CommitTarget;
    ghost var files := manifests.files;
    r := manifests.RestorePaths(req, index, now, healFails, sampleFails);
    if r.None? {
      return;
    }
    ghost var sources, scope := Restore.Sources(req), Restore.ScopeDir(req.buildType).value;
    ghost var def :| Restore.IsDefault(files, scope, Restore.MatchedIds(sources, files), index, def)
      && r.value == Restore.Resolution(Restore.LoadedLists(sources, files, index, now, healFails),
                                       Restore.MatchedNames(sources, files), def);
    Restore.DefaultIsDistinct(files, scope, Restore.MatchedIds(sources, files), index, def);
    forall p | p in paths && p in index && Manifest.Listable(p)
      ensures p in r.value.0
    {
      MergedIsResolved(req, before, files, index, paths, p, now, healFails, def);
    }
  }

  /** Each file within both limits is among these paths, and recorded with a body that decodes to its contents. */
  ghost predicate RecordedAll(batch: seq<FileItem>, z: Zstd, announced: int, maxFileBytes: int, compress: bool,
                              paths: seq<string>, bodies: map<string, seq<Byte>>)
  {
    forall i :: 0 <= i < |batch| && WithinLimit(batch[i].upload.size, announced)
                && WithinLimit(batch[i].upload.size, maxFileBytes) ==>
      && batch[i].path in paths && batch[i].path in bodies
      && var form := StoredFormOf(batch[i], compress, z);
         form.Some? && bodies[batch[i].path] == form.value.body && Content(form.value, z) == Some(batch[i].upload.body)
  }

  lemma UploadIsRecorded(batch: seq<FileItem>, z: Zstd, announced: int, maxFileBytes: int, compress: bool,
                         bodies: map<string, seq<Byte>>)
    requires LawfulZstd(z) && (forall i :: 0 <= i < |batch| ==> Honest(batch[i]))
    requires forall i, j :: 0 <= i < j < |batch| ==> batch[i].path != batch[j].path
    ensures RecordedAll(batch, z, announced, maxFileBytes, compress, BothLimits(batch, announced, maxFileBytes),
                        BodiesAfter(bodies, AllOnWire(Outgoing(batch, z, announced)), maxFileBytes, compress, z))
  {
    hide Honest, LawfulZstd, BodiesAfter, StoredFormOf, Content, WithinLimit, Outgoing;
    forall i: nat | i < |batch| && WithinLimit(batch[i].upload.size, announced)
      && WithinLimit(batch[i].upload.size, maxFileBytes)
      ensures batch[i].path in BothLimits(batch, announced, maxFileBytes)
    {
      WithinBothIsKept(batch, i, announced, maxFileBytes);
      UploadedFileIsRecorded(batch, i, announced, bodies, maxFileBytes, compress, z);
    }
    forall i: nat | i < |batch| && WithinLimit(batch[i].upload.size, announced)
      && WithinLimit(batch[i].upload.size, maxFileBytes)
      ensures var after := BodiesAfter(bodies, AllOnWire(Outgoing(batch, z, announced)), maxFileBytes, compress, z);
              var form := StoredFormOf(batch[i], compress, z);
              && batch[i].path in after && form.Some? && after[batch[i].path] == form.value.body
              && Content(form.value, z) == Some(batch[i].upload.body)
    {
      UploadedFileIsRecorded(batch, i, announced, bodies, maxFileBytes, compress, z);
    }
  }

  /** What is resolved and served of what is recorded. */
  lemma RecordedIsServed(batch: seq<FileItem>, z: Zstd, announced: int, maxFileBytes: int, compress: bool,
                         paths: seq<string>, bodies: map<string, seq<Byte>>, resolved: seq<string>,
                         served: map<string, seq<Byte>>)
    requires RecordedAll(batch, z, announced, maxFileBytes, compress, paths, bodies)
    requires forall i :: 0 <= i < |batch| ==> Manifest.Listable(batch[i].path)
    requires forall p :: p in paths && p in bodies && Manifest.Listable(p) ==> p in resolved
    requires forall p :: p in resolved && p in bodies ==> p in served && served[p] == bodies[p]
    ensures RecordedAll(batch, z, announced, maxFileBytes, compress, resolved, served)
  {
    hide StoredFormOf, Content, WithinLimit, Manifest.Listable;
  }

  /** An honest upload for a commit, and a restore of that commit: every file within both limits is
      resolved, and served as bytes that decode to its contents. */
  method SaveThenRestore(batch: seq<FileItem>, z: Zstd, announced: int, requestBytes: int, c: Codec<Meta>,
                         store: Store, req: Restore.Request, now: int, disk: Disk, fails: Restore.ManifestId -> bool,
                         healFails: nat -> bool, sampleFails: nat -> bool)
    returns (ok: bool, r: Option<(seq<string>, seq<string>)>, served: map<string, seq<Byte>>)
    requires store.Valid() && store.CleanFiles() && Lawful(c) && HonestUpload(batch, z, announced, c) && z == store.zstd
    requires (forall i :: 0 <= i < |batch| ==> Manifest.Listable(batch[i].path)) && Commit(req).At?
    requires forall i, j :: 0 <= i < j < |batch| ==> batch[i].path != batch[j].path
    modifies store, store.evictHeap, store.pool, store.pool.Repr, store.manifests
    ensures Mergeable(req, fails) && Healthy(disk) ==> ok
    ensures ok && (forall s :: s in Restore.Sources(req) ==> !s.1.Invalid?) ==>
      r.Some? && RecordedAll(batch, z, announced, store.maxFileBytes, store.compress, r.value.0, served)
  {
    HonestFiles(batch, z, announced, c);
    UploadIsRecorded(batch, z, announced, store.maxFileBytes, store.compress, store.bodies);
    ListedAreCanonical(batch);
    hide Store.Valid, Store.CleanFiles, Lawful, HonestUpload, Healthy, MergedInto, BodiesAfter, Outgoing,
      Manifest.Listable,
      Manifest.Canonical, Honest, RecordedAll, NoNegativeSizes, Mergeable, Commit, Changes, Restore.Sources, LawfulZstd;
    ghost var files := store.manifests.files;
    var paths;
    ok, paths := SaveCache(batch, z, announced, requestBytes, c, store, req, now, disk, fails);
    r, served := None, map[];
    if ok {
      r, served := RestoreAndServe(store, req, paths, files, now, healFails, sampleFails);
      if r.Some? {
        RecordedIsServed(batch, z, announced, store.maxFileBytes, store.compress, paths, store.bodies, r.value.0,
                         served);
      }
    }
  }

  lemma ListedAreCanonical(batch: seq<FileItem>)
    requires forall i :: 0 <= i < |batch| ==> Manifest.Listable(batch[i].path)
    ensures forall i :: 0 <= i < |batch| ==> Manifest.Canonical(batch[i].path)
  {
    hide Manifest.CleanRelativePath, Manifest.Canonical;
    forall i | 0 <= i < |batch|
      ensures Manifest.Canonical(batch[i].path)
    {
      Manifest.CleanedIsCanonical(batch[i].path);
    }
  }

  method RestoreAndServe(store: Store, req: Restore.Request, paths: seq<string>, ghost before: Restore.Files, now: int,
                         healFails: nat -> bool, sampleFails: nat -> bool)
    returns (r: Option<(seq<string>, seq<string>)>, served: map<string, seq<Byte>>)
    requires store.Valid() && store.CleanFiles() && Commit(req).At?
    requires MergedInto(Commit(req), before, store.manifests.files, store.index.Keys, paths)
    modifies store.manifests
    ensures (forall s :: s in Restore.Sources(req) ==> !s.1.Invalid?) ==> r.Some?
    ensures r.Some? ==> forall p :: p in paths && p in store.bodies && Manifest.Listable(p) ==> p in r.value.0
    ensures r.Some? ==> forall p :: p in r.value.0 && p in store.bodies ==> p in served && served[p] == store.bodies[p]
  {
    EntriesHaveBodies(store);
    assert store.manifests !in store.pool.Repr;
    assert store.FilesIntact();
    hide Store.Valid, MergedInto, Manifest.Listable, Intact, Restore.Sources, Commit;
    r := ResolveSaved(store.manifests, req, store.index.Keys, paths, before, now, healFails, sampleFails);
    served := map[];
    if r.Some? {
      served := Serve(store, r.value.0);
    }
  }

  lemma EntriesHaveBodies(store: Store)
    requires store.Valid()
    ensures store.bodies.Keys == store.index.Keys
  {
    hide Agrees, PoolHolds, DiskBytes, RecordPool.Pool.Valid;
  }
}
