/** Opening the native GOCACHE store on a persisted index and the files it left on disk. Nothing
    about the pool, the disk total or the heap is persisted: all of it is rebuilt here. */
module GocacheRestart {
  import opened Common
  import opened RecordPool
  import opened PoolReconcile
  import opened StoredForm
  import opened GocacheStore
  import EvictionHeap
  import Restore

  predicate Found(ie: IndexEntry, names: set<PageName>, pageBytes: nat) {
    Resolving(StoredSize(ie), ie.loc, names, pageBytes)
  }

  predicate Oversized(ie: IndexEntry, maxFileBytes: int) {
    maxFileBytes > 0 && ie.size > maxFileBytes
  }

  /** A plain entry's file is there, and is not over today's size limit. */
  predicate Present(dir: seq<string>, path: string, ie: IndexEntry, objects: Objects, maxFileBytes: int) {
    Pooled(ie) || (ObjectName(dir, path) in objects && !Oversized(ie, maxFileBytes))
  }

  /** No two persisted entries claim one slot. */
  ghost predicate DistinctSlots(index: Index) {
    forall p, q :: p in index && q in index && p != q && Pooled(index[p]) && Pooled(index[q]) ==>
      SlotOf(index[p]) != SlotOf(index[q])
  }

  /** The entries handled so far that resolve, when `todo` is still to come. */
  ghost function Resolved(saved: Index, todo: set<string>, names: set<PageName>, pageBytes: nat): Index {
    map p | p in saved && p !in todo && Found(saved[p], names, pageBytes) :: saved[p]
  }

  /** The index during reconciliation: the entries in `todo` have not been looked at. */
  ghost function Remaining(saved: Index, todo: set<string>, names: set<PageName>, pageBytes: nat): Index {
    map p | p in saved && (p in todo || Found(saved[p], names, pageBytes)) :: saved[p]
  }

  lemma ReconcileStarts(saved: Index, names: set<PageName>, pageBytes: nat)
    ensures Remaining(saved, saved.Keys, names, pageBytes) == saved
    ensures Agrees(Resolved(saved, saved.Keys, names, pageBytes), {})
    ensures Remaining(saved, {}, names, pageBytes) == Resolved(saved, {}, names, pageBytes)
  {
  }

  lemma SlotIsNew(saved: Index, todo: set<string>, names: set<PageName>, pageBytes: nat, noted: set<Key>, path: string)
    requires DistinctSlots(saved) && path in todo && path in saved
    requires Found(saved[path], names, pageBytes) && forall name :: name in names ==> 0 < name.size
    requires Agrees(Resolved(saved, todo, names, pageBytes), noted)
    ensures Pooled(saved[path]) ==> StoredSize(saved[path]) > 0 && SlotOf(saved[path]) !in noted
  {
  }

  lemma RemainingStep(saved: Index, todo: set<string>, names: set<PageName>, pageBytes: nat, path: string)
    requires path in todo && path in saved
    ensures Remaining(saved, todo - {path}, names, pageBytes) ==
            if Found(saved[path], names, pageBytes) then Remaining(saved, todo, names, pageBytes)
            else Remaining(saved, todo, names, pageBytes) - {path}
  {
    hide Found;
  }

  lemma ReconcileStep(saved: Index, todo: set<string>, names: set<PageName>, pageBytes: nat, noted: set<Key>,
                      path: string)
    requires DistinctSlots(saved) && path in todo && todo <= saved.Keys
    requires forall name :: name in names ==> 0 < name.size
    requires Agrees(Resolved(saved, todo, names, pageBytes), noted)
    ensures var index, rest := Remaining(saved, todo, names, pageBytes), todo - {path};
            && path in index && index[path] == saved[path]
            && Remaining(saved, rest, names, pageBytes) ==
               (if Found(saved[path], names, pageBytes) then index else index - {path})
            && Agrees(Resolved(saved, rest, names, pageBytes),
                      if Found(saved[path], names, pageBytes) then noted + SlotsOf(saved[path]) else noted)
  {
    RemainingStep(saved, todo, names, pageBytes, path);
    hide PageCapacity, SlotOf;
    var ie, done, rest := saved[path], Resolved(saved, todo, names, pageBytes), todo - {path};
    if Found(ie, names, pageBytes) {
      assert Resolved(saved, rest, names, pageBytes) == done[path := ie];
      SlotIsNew(saved, todo, names, pageBytes, noted, path);
      hide Agrees, Found;
      AgreesAfterInsert(done, noted, path, ie);
    } else {
      assert Resolved(saved, rest, names, pageBytes) == done;
    }
  }

  /** The plain entries of a size. */
  ghost function PlainOf(index: Index, size: int): set<string> {
    set p | p in index && !Pooled(index[p]) && StoredSize(index[p]) == size
  }

  /** The promotion counter of a size without a class is the number of its plain entries. */
  ghost predicate CountsPlain(classes: map<nat, SizeClass>, counts: map<int, nat>, index: Index) {
    forall size: int :: size !in classes ==> (if size in counts then counts[size] else 0) == |PlainOf(index, size)|
  }

  lemma PlainOfInsert(index: Index, path: string, ie: IndexEntry, size: int)
    requires path !in index
    ensures |PlainOf(index[path := ie], size)| ==
            |PlainOf(index, size)| + if !Pooled(ie) && StoredSize(ie) == size then 1 else 0
  {
    hide StoredSize, Pooled;
    var before, after := PlainOf(index, size), PlainOf(index[path := ie], size);
    assert path !in before;
    if !Pooled(ie) && StoredSize(ie) == size {
      assert after == before + {path};
    } else {
      assert after == before;
    }
  }

  lemma CountsPlainStep(saved: Index, todo: set<string>, names: set<PageName>, pageBytes: nat,
                        classes: map<nat, SizeClass>, counts: map<int, nat>, path: string)
    requires path in todo && path in saved && CountsPlain(classes, counts, Resolved(saved, todo, names, pageBytes))
    ensures CountsPlain(classes, if Found(saved[path], names, pageBytes)
                                 then CountsAfter(classes, counts, StoredSize(saved[path]), saved[path].loc)
                                 else counts,
                        Resolved(saved, todo - {path}, names, pageBytes))
  {
    hide StoredSize, PlainOf, Found;
    var done, ie := Resolved(saved, todo, names, pageBytes), saved[path];
    if Found(ie, names, pageBytes) {
      assert Resolved(saved, todo - {path}, names, pageBytes) == done[path := ie];
      forall size
        ensures |PlainOf(done[path := ie], size)| ==
                |PlainOf(done, size)| + if !Pooled(ie) && StoredSize(ie) == size then 1 else 0
      {
        PlainOfInsert(done, path, ie, size);
      }
    } else {
      assert Resolved(saved, todo - {path}, names, pageBytes) == done;
    }
  }

  lemma NothingCounted(saved: Index, names: set<PageName>, pageBytes: nat, classes: map<nat, SizeClass>)
    ensures CountsPlain(classes, map[], Resolved(saved, saved.Keys, names, pageBytes))
  {
    hide Found;
    var done := Resolved(saved, saved.Keys, names, pageBytes);
    assert forall size :: PlainOf(done, size) == {};
  }

  /** Every slot noted is one its page has. */
  lemma NotedInRange(saved: Index, names: set<PageName>, pageBytes: nat, noted: set<Key>, k: Key)
    requires Agrees(Resolved(saved, {}, names, pageBytes), noted) && k in noted
    ensures k.slot < PageCapacity(pageBytes, k.page.size)
  {
    var done := Resolved(saved, {}, names, pageBytes);
    var p :| p in done && Pooled(done[p]) && SlotOf(done[p]) == k;
  }

  lemma AgreementDeterminesSlots(index: Index, a: set<Key>, b: set<Key>)
    requires Agrees(index, a) && Agrees(index, b)
    ensures a == b
  {
  }

  /** Drops the entries whose slot no longer exists and derives the free lists from the others,
      whatever order the index is visited in. */
  method ReconcilePool(s: Store, dir: Directory)
    requires s.pool.Noting() && s.pool.Opened(dir, {}) && s.pool.Repr == {} && s.pool.counts == map[]
    requires IsDirectory(dir, s.pool.pageBytes) && DistinctSlots(s.index)
    modifies s`index, s.pool
    ensures s.pool.Valid() && s.pool.Directory() == dir && fresh(s.pool.Repr - dir.Values)
    ensures s.index == Resolved(old(s.index), {}, dir.Keys, s.pool.pageBytes)
    ensures Agrees(s.index, s.pool.live.Keys)
    ensures CountsPlain(s.pool.classes, s.pool.counts, s.index)
  {
    hide CountsPlain, Noting, Pool.Noting, Pool.Valid, Pool.Noted, Pool.Opened, Pool.Directory, IsDirectory;
    hide Agrees, Resolved, DistinctSlots, Discovered;
    s.pool.DiscoverPages(dir);
    NothingNotedYet(s.pool, dir);
    var saved := s.index;
    DirectorySizes(dir, s.pool.pageBytes);
    ghost var noted := NoteIndex(s, dir);
    Occupied(s.pool, saved, dir, noted);
    s.pool.FinishReconcile();
    assert s.pool.live.Keys == noted;
  }

  lemma DirectorySizes(dir: Directory, pageBytes: nat)
    requires IsDirectory(dir, pageBytes)
    ensures forall name :: name in dir ==> 0 < name.size
  {
  }

  method NoteIndex(s: Store, dir: Directory) returns (ghost noted: set<Key>)
    requires Noting(s.pool, dir, {}) && DistinctSlots(s.index)
    requires (forall name :: name in dir ==> 0 < name.size) && s.pool.counts == map[]
    modifies s`index, s.pool`counts, s.pool.pages.Values
    ensures Noting(s.pool, dir, noted)
    ensures s.index == Resolved(old(s.index), {}, dir.Keys, s.pool.pageBytes)
    ensures Agrees(s.index, noted) && CountsPlain(s.pool.classes, s.pool.counts, s.index)
  {
    NothingCounted(s.index, dir.Keys, s.pool.pageBytes, s.pool.classes);
    hide CountsPlain, CountsAfter, Noting, Agrees, Resolved, Remaining, DistinctSlots, Found;
    var saved := s.index;
    var todo := saved.Keys;
    noted := {};
    ReconcileStarts(saved, dir.Keys, s.pool.pageBytes);
    while todo != {}
      invariant todo <= saved.Keys
      invariant s.index == Remaining(saved, todo, dir.Keys, s.pool.pageBytes)
      invariant Agrees(Resolved(saved, todo, dir.Keys, s.pool.pageBytes), noted)
      invariant Noting(s.pool, dir, noted)
      invariant CountsPlain(s.pool.classes, s.pool.counts, Resolved(saved, todo, dir.Keys, s.pool.pageBytes))
      decreases |todo|
    {
      var path :| path in todo;
      CountsPlainStep(saved, todo, dir.Keys, s.pool.pageBytes, s.pool.classes, s.pool.counts, path);
      ReconcileStep(saved, todo, dir.Keys, s.pool.pageBytes, noted, path);
      noted := NoteOne(s, path, dir, noted);
      todo := todo - {path};
    }
  }

  lemma Occupied(pool: Pool, saved: Index, dir: Directory, noted: set<Key>)
    requires Noting(pool, dir, noted) && Agrees(Resolved(saved, {}, dir.Keys, pool.pageBytes), noted)
    ensures pool.Noting() && pool.Directory() == dir
    ensures forall k :: pool.Noted(k) ==> k.slot < pool.Capacity(k.page.size)
    ensures forall k :: pool.Noted(k) <==> k in noted
  {
    hide Resolved, Agrees, PageCapacity, Pool.Noted;
    forall k | k in noted
      ensures k.slot < pool.Capacity(k.page.size)
    {
      NotedInRange(saved, dir.Keys, pool.pageBytes, noted, k);
    }
  }

  method NoteOne(s: Store, path: string, ghost dir: Directory, ghost noted: set<Key>) returns (ghost now: set<Key>)
    requires path in s.index && Noting(s.pool, dir, noted)
    modifies s`index, s.pool`counts, s.pool.pages.Values
    ensures Noting(s.pool, dir, now)
    ensures var ie := old(s.index)[path];
            if Found(ie, dir.Keys, s.pool.pageBytes) then
              && s.index == old(s.index) && now == noted + SlotsOf(ie)
              && s.pool.counts == CountsAfter(s.pool.classes, old(s.pool.counts), StoredSize(ie), ie.loc)
            else s.index == old(s.index) - {path} && now == noted && s.pool.counts == old(s.pool.counts)
  {
    var ie := s.index[path];
    var size := StoredSize(ie);
    ResolvesAsPersisted(s.pool, dir, size, ie.loc);
    hide Found, Pool.Resolves;
    if !s.pool.Resolves(size, ie.loc) {
      s.index := s.index - {path};
      return noted;
    }
    now := Note(s.pool, size, ie.loc, dir, noted);
    assert SlotsOf(ie) == {} ==> noted + SlotsOf(ie) == noted;
  }

  // ----- Plain files and accounting -----

  /** The entries whose slot or file is there. */
  ghost function Kept(root: seq<string>, index: Index, objects: Objects, maxFileBytes: int): Index {
    map p | p in index && Present(root, p, index[p], objects, maxFileBytes) :: index[p]
  }

  /** The files deleted so far: those of plain entries over the limit that have been looked at. */
  ghost function OversizedNames(root: seq<string>, index: Index, todo: set<string>, maxFileBytes: int): set<Name> {
    set p | p in index && p !in todo && !Pooled(index[p]) && Oversized(index[p], maxFileBytes) :: ObjectName(root, p)
  }

  /** No file is that of an entry over the limit and of one that is kept. */
  ghost predicate OversizedApart(root: seq<string>, index: Index, objects: Objects, maxFileBytes: int) {
    forall name :: name in NamesOf(root, Kept(root, index, objects, maxFileBytes)) ==>
      name !in OversizedNames(root, index, {}, maxFileBytes)
  }

  /** Where the check of the plain files stands when `todo` is still to come: an entry with the file of
      one over the limit may have found it gone already. */
  ghost predicate Checked(root: seq<string>, saved: Index, objects: Objects, maxFileBytes: int, todo: set<string>,
                          index: Index)
  {
    && Shrunk(saved, index) && todo <= index.Keys
    && (forall p :: p in index && p !in todo ==> Present(root, p, saved[p], objects, maxFileBytes))
    && (forall p :: p in saved && p !in todo && Present(root, p, saved[p], objects, maxFileBytes) && p !in index ==>
          !Pooled(saved[p]) && ObjectName(root, p) in OversizedNames(root, saved, {}, maxFileBytes))
  }

  lemma CheckStarts(root: seq<string>, index: Index, objects: Objects, maxFileBytes: int)
    ensures Checked(root, index, objects, maxFileBytes, index.Keys, index)
    ensures OversizedNames(root, index, index.Keys, maxFileBytes) == {}
    ensures DiskBytes(index - index.Keys) == 0
  {
    hide ObjectName;
    assert Sizes(index - index.Keys) == map[];
  }

  lemma CheckEnds(root: seq<string>, saved: Index, objects: Objects, maxFileBytes: int, index: Index)
    requires Checked(root, saved, objects, maxFileBytes, {}, index)
    ensures Shrunk(Kept(root, saved, objects, maxFileBytes), index)
    ensures OversizedApart(root, saved, objects, maxFileBytes) ==> index == Kept(root, saved, objects, maxFileBytes)
  {
    hide ObjectName, Present;
    var kept := Kept(root, saved, objects, maxFileBytes);
    if OversizedApart(root, saved, objects, maxFileBytes) {
      forall p | p in kept
        ensures p in index
      {
        assert !Pooled(kept[p]) ==> ObjectName(root, p) in NamesOf(root, kept);
      }
    }
  }

  lemma CheckedStep(root: seq<string>, saved: Index, objects: Objects, maxFileBytes: int, todo: set<string>,
                    index: Index,
                    path: string)
    requires Checked(root, saved, objects, maxFileBytes, todo, index) && path in todo
    ensures var left := objects - OversizedNames(root, saved, todo, maxFileBytes);
            var now := if Present(root, path, index[path], left, maxFileBytes) then index else index - {path};
            Checked(root, saved, objects, maxFileBytes, todo - {path}, now)
  {
    hide ObjectName;
    var left := objects - OversizedNames(root, saved, todo, maxFileBytes);
    assert Present(root, path, index[path], left, maxFileBytes) ==>
      Present(root, path, index[path], objects, maxFileBytes);
    assert OversizedNames(root, saved, todo, maxFileBytes) <= OversizedNames(root, saved, {}, maxFileBytes);
  }

  lemma BytesStep(index: Index, todo: set<string>, path: string, here: bool)
    requires path in todo && path in index
    ensures var now := if here then index else index - {path};
            DiskBytes(now - (todo - {path})) == DiskBytes(index - todo) + if here then StoredSize(index[path]) else 0
  {
    hide DiskBytes;
    if here {
      assert index - (todo - {path}) == (index - todo)[path := index[path]];
      DiskBytesAfterInsert(index - todo, path, index[path]);
    } else {
      assert index - {path} - (todo - {path}) == index - todo;
    }
  }

  lemma DeletedStep(root: seq<string>, index: Index, todo: set<string>, objects: Objects, maxFileBytes: int,
                    path: string)
    requires path in todo && path in index
    ensures objects - OversizedNames(root, index, todo - {path}, maxFileBytes) ==
            if !Pooled(index[path]) && Oversized(index[path], maxFileBytes) then
              objects - OversizedNames(root, index, todo, maxFileBytes) - {ObjectName(root, path)}
            else objects - OversizedNames(root, index, todo, maxFileBytes)
  {
    hide Pooled, Oversized, ObjectName;
    assert OversizedNames(root, index, todo - {path}, maxFileBytes) ==
           OversizedNames(root, index, todo, maxFileBytes) +
           if !Pooled(index[path]) && Oversized(index[path], maxFileBytes) then {ObjectName(root, path)} else {};
  }

  lemma PlainDropped(index: Index, live: set<Key>, path: string)
    requires Agrees(index, live) && path in index && !Pooled(index[path])
    ensures Agrees(index - {path}, live)
  {
    AgreesAfterRemove(index, live, path);
    assert live - SlotsOf(index[path]) == live;
  }

  /** Drops the plain entries whose file is missing or now too large, in any order, and adds up the rest. */
  method CheckFiles(s: Store)
    requires Agrees(s.index, s.pool.live.Keys) && s.currentDiskBytes == 0
    modifies s`index, s`objects, s`currentDiskBytes
    ensures Checked(s.dir, old(s.index), old(s.objects), s.maxFileBytes, {}, s.index)
    ensures s.objects == old(s.objects) - OversizedNames(s.dir, old(s.index), {}, s.maxFileBytes)
    ensures Agrees(s.index, s.pool.live.Keys) && s.currentDiskBytes == DiskBytes(s.index)
  {
    hide Agrees, Checked, OversizedNames, DiskBytes, ObjectName, Present;
    var saved, objects, todo := s.index, s.objects, s.index.Keys;
    CheckStarts(s.dir, saved, objects, s.maxFileBytes);
    while todo != {}
      invariant todo <= saved.Keys && todo <= s.index.Keys
      invariant Shrunk(saved, s.index) && Checked(s.dir, saved, objects, s.maxFileBytes, todo, s.index)
      invariant s.objects == objects - OversizedNames(s.dir, saved, todo, s.maxFileBytes)
      invariant s.currentDiskBytes == DiskBytes(s.index - todo)
      invariant Agrees(s.index, s.pool.live.Keys)
      decreases |todo|
    {
      var path :| path in todo;
      CheckedStep(s.dir, saved, objects, s.maxFileBytes, todo, s.index, path);
      DeletedStep(s.dir, saved, todo, objects, s.maxFileBytes, path);
      BytesStep(s.index, todo, path, Present(s.dir, path, s.index[path], s.objects, s.maxFileBytes));
      todo := todo - {path};
      CheckOne(s, path);
    }
    assert s.index - todo == s.index;
  }

  method CheckOne(s: Store, path: string)
    requires path in s.index && Agrees(s.index, s.pool.live.Keys)
    modifies s`index, s`objects, s`currentDiskBytes
    ensures var ie := old(s.index)[path];
            var here := Present(s.dir, path, ie, old(s.objects), s.maxFileBytes);
            && s.index == (if here then old(s.index) else old(s.index) - {path})
            && s.objects ==
                 (if !Pooled(ie) && Oversized(ie, s.maxFileBytes) then old(s.objects) - {s.NameOf(path)}
                  else old(s.objects))
            && s.currentDiskBytes == old(s.currentDiskBytes) + if here then StoredSize(ie) else 0
    ensures Agrees(s.index, s.pool.live.Keys)
  {
    hide Agrees, ObjectName;
    var ie := s.index[path];
    if Pooled(ie) {
      s.currentDiskBytes := s.currentDiskBytes + StoredSize(ie);
      return;
    }
    PlainDropped(s.index, s.pool.live.Keys, path);
    if s.NameOf(path) !in s.objects {
      s.index := s.index - {path};
      assert s.objects - {s.NameOf(path)} == s.objects;
      return;
    }
    if s.maxFileBytes > 0 && ie.size > s.maxFileBytes {
      s.index := s.index - {path};
      s.objects := s.objects - {s.NameOf(path)};
      return;
    }
    s.currentDiskBytes := s.currentDiskBytes + StoredSize(ie);
  }

  /** Tells an empty heap about every entry. */
  method FillHeap(s: Store)
    requires s.evictHeap.Valid()
    modifies s.evictHeap
    ensures s.evictHeap.Valid() && s.Covered()
  {
    hide EvictionHeap.IsHeap;
    var todo := s.index.Keys;
    while todo != {}
      invariant todo <= s.index.Keys && s.evictHeap.Valid()
      invariant forall p :: p in s.index && p !in todo ==> EntryOf(p, s.index[p]) in multiset(s.evictHeap.items)
      decreases |todo|
    {
      var path :| path in todo;
      s.evictHeap.Push(EntryOf(path, s.index[path]));
      todo := todo - {path};
    }
  }

  // ----- Opening a store -----

  datatype Config = Config(dir: seq<string>, compress: bool, zstd: Zstd, maxDiskBytes: int, maxFileBytes: int,
                           bucket: EvictionHeap.Bucket)

  const MAX_RECORD_BYTES := 4096
  const PAGE_BYTES := 8388608

  /** The persisted entries that survive: their slot or their file is still there. */
  ghost function Reopened(config: Config, saved: Index, names: set<PageName>, objects: Objects): (r: Index)
    ensures forall p :: p in r <==>
      p in saved && Found(saved[p], names, PAGE_BYTES) && Present(config.dir, p, saved[p], objects, config.maxFileBytes)
    ensures forall p :: p in r ==> r[p] == saved[p]
  {
    Kept(config.dir, Resolved(saved, {}, names, PAGE_BYTES), objects, config.maxFileBytes)
  }

  /** The files that are deleted for their size. */
  ghost function Deleted(config: Config, saved: Index, names: set<PageName>): set<Name> {
    OversizedNames(config.dir, Resolved(saved, {}, names, PAGE_BYTES), {}, config.maxFileBytes)
  }

  /** None of them is that of an entry that survives. */
  ghost predicate DeletedApart(config: Config, saved: Index, names: set<PageName>, objects: Objects) {
    forall name :: name in NamesOf(config.dir, Reopened(config, saved, names, objects)) ==>
      name !in Deleted(config, saved, names)
  }

  lemma DistinctDeletedApart(config: Config, saved: Index, names: set<PageName>, objects: Objects)
    requires DistinctNames(config.dir, saved)
    ensures DeletedApart(config, saved, names, objects)
  {
    hide ObjectName, Found;
  }

  ghost function BodiesOf(dir: seq<string>, index: Index, live: map<Key, seq<Byte>>, objects: Objects)
    : map<string, seq<Byte>>
    requires forall p :: p in index ==>
      if Pooled(index[p]) then SlotOf(index[p]) in live else ObjectName(dir, p) in objects
  {
    map p | p in index :: if Pooled(index[p]) then live[SlotOf(index[p])] else objects[ObjectName(dir, p)]
  }

  /** Bodies taken from what is on disk, when some files have gone since. */
  lemma BodiesOnDisk(dir: seq<string>, index: Index, live: map<Key, seq<Byte>>, objects: Objects, deleted: set<Name>)
    requires Agrees(index, live.Keys)
    requires forall p :: p in index && !Pooled(index[p]) ==> ObjectName(dir, p) in objects
    ensures var bodies := BodiesOf(dir, index, live, objects);
            && bodies.Keys == index.Keys && PoolHolds(index, live, bodies) && Intact(dir, index, bodies, objects)
            && (Intact(dir, index, bodies, objects - deleted) <==>
                forall name :: name in NamesOf(dir, index) ==> name !in deleted)
  {
    hide ObjectName;
    var bodies := BodiesOf(dir, index, live, objects);
    forall name | Intact(dir, index, bodies, objects - deleted) && name in NamesOf(dir, index)
      ensures name !in deleted
    {
      var p :| p in index && !Pooled(index[p]) && ObjectName(dir, p) == name;
    }
  }

  /** Once pool, files and accounting are in place, the saved bodies are whatever was on disk. */
  ghost method AdoptBodies(s: Store, saved: Index, objects: Objects)
    requires Agrees(s.index, s.pool.live.Keys) && Checked(s.dir, saved, objects, s.maxFileBytes, {}, s.index)
    requires s.objects == objects - OversizedNames(s.dir, saved, {}, s.maxFileBytes)
    requires s.currentDiskBytes == DiskBytes(s.index)
    modifies s`bodies
    ensures s.Accounted() && s.PoolAgrees()
    ensures s.FilesIntact() <==>
      forall name :: name in NamesOf(s.dir, s.index) ==> name !in OversizedNames(s.dir, saved, {}, s.maxFileBytes)
    ensures Intact(s.dir, s.index, s.bodies, objects)
  {
    hide DiskBytes, ObjectName, OversizedNames, Intact, NamesOf, PoolHolds;
    BodiesOnDisk(s.dir, s.index, s.pool.live, objects, OversizedNames(s.dir, saved, {}, s.maxFileBytes));
    s.bodies := BodiesOf(s.dir, s.index, s.pool.live, objects);
  }

  /** Rebuilds a store, up to the eviction pass. */
  method Load(config: Config, saved: Index, dir: Directory, objects: Objects, manifests: Restore.ManifestDir)
    returns (s: Store)
    requires IsDirectory(dir, PAGE_BYTES) && DistinctSlots(saved)
    ensures fresh(s) && fresh(s.pool) && fresh(s.evictHeap) && fresh(s.pool.Repr - dir.Values)
    ensures s.maxDiskBytes == config.maxDiskBytes && s.maxFileBytes == config.maxFileBytes && s.dir == config.dir
    ensures s.evictHeap.bucket == config.bucket && s.compress == config.compress && s.zstd == config.zstd
    ensures s.manifests == manifests && s.Valid() && s.Covered()
    ensures s.pool.Directory() == dir && s.pool.pageBytes == PAGE_BYTES
    ensures s.objects == objects - Deleted(config, saved, dir.Keys)
    ensures Shrunk(Reopened(config, saved, dir.Keys, objects), s.index)
    ensures Intact(s.dir, s.index, s.bodies, objects)
    ensures s.FilesIntact() <==> forall name :: name in NamesOf(s.dir, s.index) ==>
      name !in Deleted(config, saved, dir.Keys)
    ensures DeletedApart(config, saved, dir.Keys, objects) ==>
      s.index == Reopened(config, saved, dir.Keys, objects) && s.FilesIntact()
    ensures CountsPlain(s.pool.classes, s.pool.counts, Resolved(saved, {}, dir.Keys, PAGE_BYTES))
  {
    hide Agrees, DiskBytes, PoolHolds, DistinctSlots, Pool.Valid, Pool.Noting, EvictionHeap.IsHeap, Pool.Directory;
    hide Resolved, IsDirectory, PageCapacity, Kept, OversizedNames, Covers, Oversized, Found, CountsPlain, ObjectName,
      NamesOf;
    hide Intact, Checked;
    var pool := new Pool(MAX_RECORD_BYTES, PAGE_BYTES);
    var evictHeap := new EvictionHeap.Heap(config.bucket);
    s := new Store(config.dir, config.compress, config.zstd, config.maxDiskBytes, config.maxFileBytes, pool, evictHeap,
                   manifests, saved, objects);
    ReconcilePool(s, dir);
    Account(s);
  }

  /** The rest of opening a store whose pool is back: its files, its heap, its saved bodies. */
  method Account(s: Store)
    requires Agrees(s.index, s.pool.live.Keys) && s.currentDiskBytes == 0 && s.evictHeap.Valid() && s.pool.Valid()
    modifies s`index, s`objects, s`currentDiskBytes, s`bodies, s.evictHeap
    ensures s.Accounted() && s.PoolAgrees() && s.evictHeap.Valid() && s.Covered()
    ensures s.objects == old(s.objects) - OversizedNames(s.dir, old(s.index), {}, s.maxFileBytes)
    ensures Shrunk(Kept(s.dir, old(s.index), old(s.objects), s.maxFileBytes), s.index)
    ensures OversizedApart(s.dir, old(s.index), old(s.objects), s.maxFileBytes) ==>
      s.index == Kept(s.dir, old(s.index), old(s.objects), s.maxFileBytes)
    ensures s.FilesIntact() <==>
      forall name :: name in NamesOf(s.dir, s.index) ==>
        name !in OversizedNames(s.dir, old(s.index), {}, s.maxFileBytes)
    ensures Intact(s.dir, s.index, s.bodies, old(s.objects))
  {
    hide Agrees, DiskBytes, PoolHolds, EvictionHeap.IsHeap, Kept, OversizedNames, Checked, Covers, Oversized;
    hide Pool.Valid, ObjectName, NamesOf, Intact, OversizedApart;
    ghost var saved, objects := s.index, s.objects;
    CheckFiles(s);
    CheckEnds(s.dir, saved, objects, s.maxFileBytes, s.index);
    FillHeap(s);
    AdoptBodies(s, saved, objects);
  }

  /** Nothing goes within the disk limit; above it, exactly as much as is needed to have a tenth of it free. */
  ghost predicate EvictedDown(before: Index, after: Index, bytes: int, maxDiskBytes: int, bucket: EvictionHeap.Bucket) {
    if 0 < maxDiskBytes < DiskBytes(before) then
      var margin := maxDiskBytes - maxDiskBytes / 10;
      bytes <= margin && InOrder(before, after, bucket) && LastWasNeeded(before, after, bytes, margin, bucket)
    else
      after == before
  }

  /** The eviction pass at the end of opening. */
  method EvictOpened(s: Store)
    requires s.Valid() && s.Covered()
    modifies s, s.evictHeap, s.pool, s.pool.Repr
    ensures s.Valid() && s.Covered() && s.pool.Repr == old(s.pool.Repr)
    ensures s.maxDiskBytes > 0 ==> s.currentDiskBytes <= s.maxDiskBytes
    ensures EvictedDown(old(s.index), s.index, s.currentDiskBytes, s.maxDiskBytes, s.evictHeap.bucket)
    ensures Shrunk(old(s.index), s.index)
    ensures s.objects == old(s.objects) - Gone(s.dir, old(s.index), s.index)
    ensures old(s.FilesIntact()) ==> (s.FilesIntact() <==> Apart(s.dir, old(s.index), s.index))
  {
    BytesAreIndexed(s);
    hide Store.Valid, Store.Covered, Intact, DiskBytes, Gone, Apart, InOrder, LastWasNeeded;
    s.EvictIfNeeded();
  }

  lemma BytesAreIndexed(s: Store)
    requires s.Valid()
    ensures s.currentDiskBytes == DiskBytes(s.index)
  {
    hide DiskBytes, Pool.Valid, EvictionHeap.IsHeap;
  }

  /** Opens a store: what survived, evicted down to the margin if it is over budget. */
  method Open(config: Config, saved: Index, dir: Directory, objects: Objects, manifests: Restore.ManifestDir)
    returns (s: Store)
    requires IsDirectory(dir, PAGE_BYTES) && DistinctSlots(saved)
    modifies dir.Values
    ensures s.Valid() && s.Covered() && Shrunk(Reopened(config, saved, dir.Keys, objects), s.index)
    ensures config.maxDiskBytes > 0 ==> s.currentDiskBytes <= config.maxDiskBytes
    ensures DeletedApart(config, saved, dir.Keys, objects) ==>
      var index := Reopened(config, saved, dir.Keys, objects);
      && s.objects == objects - Deleted(config, saved, dir.Keys) - Gone(config.dir, index, s.index)
      && (s.FilesIntact() <==> Apart(config.dir, index, s.index))
      && EvictedDown(index, s.index, s.currentDiskBytes, config.maxDiskBytes, config.bucket)
  {
    hide Store.Covered, Intact, Reopened, DiskBytes, Agrees, PoolHolds, DistinctSlots, Pool.Valid, Pool.Directory;
    hide EvictionHeap.IsHeap, IsDirectory, NamesOf, Deleted, DeletedApart, Gone, Apart, EvictedDown;
    hide Store.Valid;
    s := Load(config, saved, dir, objects, manifests);
    ghost var index := s.index;
    EvictOpened(s);
    ShrunkFurther(Reopened(config, saved, dir.Keys, objects), index, s.index);
  }

  // ----- Restart equivalence -----

  /** Every entry of a valid store is found again. */
  lemma NothingIsLost(s: Store, config: Config)
    requires s.Valid() && s.FilesIntact() && s.pool.pageBytes == PAGE_BYTES
    requires config.maxFileBytes == s.maxFileBytes && config.dir == s.dir
    ensures DistinctSlots(s.index)
    ensures Resolved(s.index, {}, s.pool.Directory().Keys, PAGE_BYTES) == s.index
    ensures Reopened(config, s.index, s.pool.Directory().Keys, s.objects) == s.index
    ensures Deleted(config, s.index, s.pool.Directory().Keys) == {}
  {
    hide Pool.Valid, PageCapacity, DiskBytes, EvictionHeap.IsHeap, Pool.Directory, ObjectName;
    PoolLeavesDirectory(s.pool);
    assert OversizedNames(config.dir, s.index, {}, s.maxFileBytes) == {};
  }

  /** Everything a client can see, and the free slots of the pool, are as they were. */
  twostate predicate SameAsBefore(new s: Store, prev: Store)
    reads s, s.pool, s.pool.pages.Values
  {
    && s.index == old(prev.index) && s.objects == old(prev.objects) && s.bodies == old(prev.bodies)
    && s.currentDiskBytes == old(prev.currentDiskBytes)
    && s.pool.live == old(prev.pool.live) && s.pool.pages.Keys == old(prev.pool.pages.Keys)
    && CountsPlain(s.pool.classes, s.pool.counts, s.index)
    && forall name :: name in s.pool.pages ==>
         && (forall slot :: slot in s.pool.pages[name].free <==> slot in old(prev.pool.pages[name].free))
         && |s.pool.pages[name].free| == |old(prev.pool.pages[name].free)|
  }

  /** Reading a store back, up to the eviction pass. */
  method Reload(prev: Store, config: Config) returns (s: Store)
    requires prev.Valid() && prev.FilesIntact() && prev.pool.pageBytes == PAGE_BYTES
    requires config.maxFileBytes == prev.maxFileBytes && config.dir == prev.dir
    ensures fresh(s) && fresh(s.pool) && fresh(s.evictHeap) && fresh(s.pool.Repr - prev.pool.Directory().Values)
    ensures s.maxDiskBytes == config.maxDiskBytes && s.dir == prev.dir && s.evictHeap.bucket == config.bucket
    ensures s.Valid() && s.Covered() && s.FilesIntact() && SameAsBefore(s, prev)
  {
    hide Reopened, Deleted, DiskBytes, Agrees, DistinctSlots, Pool.Valid, Pool.Directory, EvictionHeap.IsHeap,
      IsDirectory,
      CountsPlain, ObjectName, Intact, PoolHolds, NamesOf;
    PoolLeavesDirectory(prev.pool);
    NothingIsLost(prev, config);
    s := Load(config, prev.index, prev.pool.Directory(), prev.objects, prev.manifests);
    AgreementDeterminesSlots(s.index, s.pool.live.Keys, prev.pool.live.Keys);
    SamePools(s.pool, prev.pool);
    assert s.objects == prev.objects;
    SameBodies(s.dir, s.index, s.pool.live, s.objects, s.bodies, prev.bodies);
  }

  lemma SamePools(a: Pool, b: Pool)
    requires a.Valid() && b.Valid() && a.Directory() == b.Directory() && a.live.Keys == b.live.Keys
    requires a.pageBytes == b.pageBytes
    ensures a.live == b.live && a.pages.Keys == b.pages.Keys
    ensures forall name :: name in a.pages ==>
      && (forall slot :: slot in a.pages[name].free <==> slot in b.pages[name].free)
      && |a.pages[name].free| == |b.pages[name].free|
  {
    hide Pool.Valid, Pool.Directory;
    SameFilesSameBytes(a, b);
    forall name | name in a.pages
      ensures forall slot :: slot in a.pages[name].free <==> slot in b.pages[name].free
      ensures |a.pages[name].free| == |b.pages[name].free|
    {
      SameFreeSlots(a, b, name);
    }
  }

  lemma SameBodies(dir: seq<string>, index: Index, live: map<Key, seq<Byte>>, objects: Objects,
                   a: map<string, seq<Byte>>, b: map<string, seq<Byte>>)
    requires PoolHolds(index, live, a) && Intact(dir, index, a, objects) && a.Keys == index.Keys
    requires PoolHolds(index, live, b) && Intact(dir, index, b, objects) && b.Keys == index.Keys
    ensures a == b
  {
    hide ObjectName, SlotOf;
  }

  lemma FilesInRepr(pool: Pool)
    requires pool.Valid()
    ensures forall file :: file in pool.Directory().Values ==> file in pool.Repr
  {
    hide PageCapacity;
  }

  /** Saving the index, stopping, and opening again changes nothing a client can see, if what is stored
      is within the disk limit; else it evicts down to the margin. */
  method Restart(prev: Store, config: Config) returns (s: Store)
    requires prev.Valid() && prev.FilesIntact() && prev.pool.pageBytes == PAGE_BYTES
    requires config.maxFileBytes == prev.maxFileBytes && config.dir == prev.dir
    modifies prev.pool.Repr
    ensures s.Valid() && s.Covered()
    ensures config.maxDiskBytes <= 0 || old(DiskBytes(prev.index)) <= config.maxDiskBytes ==>
      SameAsBefore(s, prev) && s.FilesIntact()
    ensures config.maxDiskBytes > 0 && old(DiskBytes(prev.index)) > config.maxDiskBytes ==>
      var margin := config.maxDiskBytes - config.maxDiskBytes / 10;
      && s.index != old(prev.index) && s.currentDiskBytes <= margin && s.maxDiskBytes == config.maxDiskBytes
      && InOrder(old(prev.index), s.index, config.bucket)
      && LastWasNeeded(old(prev.index), s.index, s.currentDiskBytes, margin, config.bucket)
    ensures Shrunk(old(prev.index), s.index) && Shrunk(old(prev.bodies), s.bodies)
    ensures s.objects == old(prev.objects) - Gone(prev.dir, old(prev.index), s.index)
    ensures s.FilesIntact() <==> Apart(prev.dir, old(prev.index), s.index)
  {
    hide Store.Covered, Intact, DiskBytes, Agrees, PoolHolds, Pool.Valid, Pool.Directory, EvictionHeap.IsHeap,
      CountsPlain, InOrder, LastWasNeeded,
      Gone, Apart;
    NothingGone(prev.dir, prev.index, prev.bodies, prev.objects);
    FilesInRepr(prev.pool);
    s := Reload(prev, config);
    s.EvictIfNeeded();
  }
}
