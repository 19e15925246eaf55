/** The native GOCACHE store: an index of saved objects, each in a pool slot or a plain file, with
    disk accounting and a push-only eviction heap that may hold stale entries. */
module GocacheStore {
  import opened Common
  import opened RecordPool
  import opened StoredForm
  import EvictionHeap
  import Manifest
  import Restore

  const EVICTION_MARGIN_FRACTION := 10
  const DISK_FULL_EVICT_FRACTION := 10

  datatype FileItem = FileItem(path: string, upload: Upload)

  datatype IndexEntry = IndexEntry(size: int, wireSize: int, compressed: bool, modTimeMicro: int, loc: Loc)

  function StoredSize(ie: IndexEntry): int {
    if ie.wireSize > 0 then ie.wireSize else ie.size
  }

  predicate Pooled(ie: IndexEntry) {
    !ie.loc.IsZero()
  }

  function SlotOf(ie: IndexEntry): Key {
    KeyOf(if StoredSize(ie) < 0 then 0 else StoredSize(ie), ie.loc)
  }

  type Index = map<string, IndexEntry>

  // ----- Index and pool -----

  /** Pool-backed entries map one-to-one onto the occupied slots. */
  ghost predicate Agrees(index: Index, live: set<Key>) {
    && (forall p :: p in index && Pooled(index[p]) ==> StoredSize(index[p]) > 0 && SlotOf(index[p]) in live)
    && (forall p, q :: p in index && q in index && p != q && Pooled(index[p]) && Pooled(index[q]) ==>
          SlotOf(index[p]) != SlotOf(index[q]))
    && (forall k :: k in live ==> exists p :: p in index && Pooled(index[p]) && SlotOf(index[p]) == k)
  }

  function SlotsOf(ie: IndexEntry): set<Key> {
    if Pooled(ie) then {SlotOf(ie)} else {}
  }

  lemma AgreesAfterRemove(index: Index, live: set<Key>, path: string)
    requires Agrees(index, live) && path in index
    ensures Agrees(index - {path}, live - SlotsOf(index[path]))
  {
    forall k | k in live - SlotsOf(index[path])
      ensures exists p :: p in index - {path} && Pooled((index - {path})[p]) && SlotOf((index - {path})[p]) == k
    {
      var p :| p in index && Pooled(index[p]) && SlotOf(index[p]) == k;
      assert p in index - {path};
    }
  }

  lemma AgreesAfterInsert(index: Index, live: set<Key>, path: string, ie: IndexEntry)
    requires Agrees(index, live) && path !in index
    requires Pooled(ie) ==> StoredSize(ie) > 0 && SlotOf(ie) !in live
    ensures Agrees(index[path := ie], live + SlotsOf(ie))
  {
    var after := index[path := ie];
    forall k | k in live + SlotsOf(ie)
      ensures exists p :: p in after && Pooled(after[p]) && SlotOf(after[p]) == k
    {
      if k in live {
        var p :| p in index && Pooled(index[p]) && SlotOf(index[p]) == k;
        assert p in after && after[p] == index[p];
      } else {
        assert path in after;
      }
    }
  }

  /** Every pool-backed entry reads back its saved body. */
  ghost predicate PoolHolds(index: Index, live: map<Key, seq<Byte>>, bodies: map<string, seq<Byte>>) {
    forall p :: p in index && Pooled(index[p]) ==>
      p in bodies && SlotOf(index[p]) in live && live[SlotOf(index[p])] == bodies[p]
  }

  // ----- Accounting -----

  ghost function Sizes(index: Index): map<string, int> {
    map p | p in index :: StoredSize(index[p])
  }

  ghost function DiskBytes(index: Index): int {
    Total(Sizes(index))
  }

  lemma NoBytes(index: Index)
    ensures index == map[] ==> DiskBytes(index) == 0
  {
    assert index == map[] ==> Sizes(index) == map[];
  }

  lemma DiskBytesAfterRemove(index: Index, path: string)
    requires path in index
    ensures DiskBytes(index - {path}) == DiskBytes(index) - StoredSize(index[path])
  {
    TotalRemove(Sizes(index), path);
    assert Sizes(index) - {path} == Sizes(index - {path});
  }

  lemma DiskBytesAfterInsert(index: Index, path: string, ie: IndexEntry)
    requires path !in index
    ensures DiskBytes(index[path := ie]) == DiskBytes(index) + StoredSize(ie)
  {
    TotalRemove(Sizes(index[path := ie]), path);
    assert Sizes(index[path := ie]) - {path} == Sizes(index);
  }

  // ----- Index and plain files -----

  type Name = seq<string>

  type Objects = map<Name, seq<Byte>>

  /** The file of a path: where it leads from the objects directory. */
  function ObjectName(dir: seq<string>, path: string): Name {
    Manifest.Walk(dir + ["objects"], Manifest.SplitOn(path, '/'))
  }

  function NamesOf(dir: seq<string>, index: Index): set<Name> {
    set p | p in index && !Pooled(index[p]) :: ObjectName(dir, p)
  }

  /** The files of the plain entries that have gone. */
  function Gone(dir: seq<string>, before: Index, after: Index): set<Name> {
    NamesOf(dir, before - after.Keys)
  }

  /** Every plain entry has its file, with the bytes it was saved with. */
  ghost predicate Intact(dir: seq<string>, index: Index, bodies: map<string, seq<Byte>>, objects: Objects) {
    forall p :: p in index && !Pooled(index[p]) ==>
      ObjectName(dir, p) in objects && p in bodies && objects[ObjectName(dir, p)] == bodies[p]
  }

  /** Every file is that of some plain entry. */
  ghost predicate Owned(dir: seq<string>, index: Index, objects: Objects) {
    forall name :: name in objects ==> name in NamesOf(dir, index)
  }

  /** No plain entry that is left has a file that one of those gone has had. */
  ghost predicate Apart(dir: seq<string>, before: Index, after: Index) {
    forall name :: name in NamesOf(dir, after) ==> name !in Gone(dir, before, after)
  }

  /** A plain entry, other than those excepted, has this file, and not with these bytes. */
  ghost predicate Clash(dir: seq<string>, index: Index, bodies: map<string, seq<Byte>>, name: Name, except: set<string>,
                        body: Option<seq<Byte>>)
  {
    exists q :: q in index && q !in except && !Pooled(index[q]) && ObjectName(dir, q) == name
      && (q in bodies ==> Some(bodies[q]) != body)
  }

  /** No two entries have the same file. */
  ghost predicate DistinctNames(dir: seq<string>, index: Index) {
    forall p, q :: p in index && q in index && ObjectName(dir, p) == ObjectName(dir, q) ==> p == q
  }

  ghost predicate AllCanonical(paths: set<string>) {
    forall p :: p in paths ==> Manifest.Canonical(p)
  }

  /** Canonical paths, like all those that a manifest lists, have files of their own. */
  lemma CanonicalNamesDiffer(dir: seq<string>, index: Index)
    requires AllCanonical(index.Keys)
    ensures DistinctNames(dir, index)
  {
    hide Manifest.Canonical, Manifest.Walk, Manifest.SplitOn;
    forall p, q | p in index && q in index && ObjectName(dir, p) == ObjectName(dir, q)
      ensures p == q
    {
      Manifest.CanonicalPathsDiffer(dir + ["objects"], p, q);
    }
  }

  /** The file of a canonical path is below the objects directory, under its own segments. */
  lemma CanonicalIsPlaced(dir: seq<string>, path: string)
    requires Manifest.Canonical(path)
    ensures ObjectName(dir, path) == dir + ["objects"] + Manifest.SplitOn(path, '/')
  {
    Manifest.WalkOfNames(dir + ["objects"], Manifest.SplitOn(path, '/'));
  }

  lemma DistinctIsApart(dir: seq<string>, before: Index, after: Index)
    requires DistinctNames(dir, before) && Shrunk(before, after)
    ensures Apart(dir, before, after)
  {
    hide ObjectName;
  }

  /** The file of a canonical path is that of no other such path. */
  lemma CanonicalNeverClashes(dir: seq<string>, index: Index, bodies: map<string, seq<Byte>>, path: string,
                              body: Option<seq<Byte>>)
    requires AllCanonical(index.Keys) && Manifest.Canonical(path)
    ensures !Clash(dir, index, bodies, ObjectName(dir, path), {path}, body)
  {
    hide Manifest.Canonical, Manifest.Walk, Manifest.SplitOn;
    forall q | q in index && ObjectName(dir, q) == ObjectName(dir, path)
      ensures q == path
    {
      Manifest.CanonicalPathsDiffer(dir + ["objects"], q, path);
    }
  }

  lemma CleanSaveSpoilsNothing(dir: seq<string>, index: Index, bodies: map<string, seq<Byte>>, path: string)
    requires AllCanonical(index.Keys) && Manifest.Canonical(path)
    ensures forall body, toPool :: !SaveSpoils(dir, index, bodies, path, body, toPool)
    ensures AllCanonical(index.Keys + {path})
  {
    hide ObjectName, Clash, Manifest.Canonical;
    forall body, toPool
      ensures !SaveSpoils(dir, index, bodies, path, body, toPool)
    {
      CanonicalNeverClashes(dir, index, bodies, path, Some(body));
      CanonicalNeverClashes(dir, index, bodies, path, None);
    }
  }

  /** Removing entries with their files spares the others' files exactly if they are apart. */
  lemma FilesAfterRemoval(dir: seq<string>, index: Index, bodies: map<string, seq<Byte>>, objects: Objects,
                          after: Index, bodiesAfter: map<string, seq<Byte>>)
    requires Shrunk(index, after) && Shrunk(bodies, bodiesAfter) && after.Keys <= bodiesAfter.Keys
    ensures Intact(dir, index, bodies, objects) ==>
      (Intact(dir, after, bodiesAfter, objects - Gone(dir, index, after)) <==> Apart(dir, index, after))
    ensures Owned(dir, index, objects) ==> Owned(dir, after, objects - Gone(dir, index, after))
  {
    hide ObjectName;
    if Owned(dir, index, objects) {
      forall name | name in objects - Gone(dir, index, after)
        ensures name in NamesOf(dir, after)
      {
        var p :| p in index && !Pooled(index[p]) && ObjectName(dir, p) == name;
        assert p !in after ==> p in index - after.Keys;
      }
    }
    if Intact(dir, index, bodies, objects) && Intact(dir, after, bodiesAfter, objects - Gone(dir, index, after)) {
      forall name | name in NamesOf(dir, after)
        ensures name !in Gone(dir, index, after)
      {
        var p :| p in after && !Pooled(after[p]) && ObjectName(dir, p) == name;
      }
    }
  }

  lemma OneGone(dir: seq<string>, index: Index, bodies: map<string, seq<Byte>>, objects: Objects, path: string)
    requires path in index && bodies.Keys == index.Keys
    ensures var after := index - {path};
            && Shrunk(index, after) && Shrunk(bodies, bodies - {path}) && |after| == |index| - 1
            && var now := if Pooled(index[path]) then objects else objects - {ObjectName(dir, path)};
               && now == objects - Gone(dir, index, after)
               && (Intact(dir, index, bodies, objects) ==>
                     (Intact(dir, after, bodies - {path}, now) <==> Apart(dir, index, after)))
               && (Owned(dir, index, objects) ==> Owned(dir, after, now))
  {
    hide ObjectName, Intact, Owned, Apart;
    var after := index - {path};
    assert index - after.Keys == map[path := index[path]];
    assert Gone(dir, index, after) == if Pooled(index[path]) then {} else {ObjectName(dir, path)};
    FilesAfterRemoval(dir, index, bodies, objects, after, bodies - {path});
    assert after.Keys == index.Keys - {path};
  }

  lemma NothingGone(dir: seq<string>, index: Index, bodies: map<string, seq<Byte>>, objects: Objects)
    ensures Gone(dir, index, index) == {} && objects - Gone(dir, index, index) == objects && Apart(dir, index, index)
    ensures Shrunk(index, index) && Shrunk(bodies, bodies)
  {
    hide ObjectName;
    assert index - index.Keys == map[];
  }

  lemma ShrunkFurther<V>(start: map<string, V>, before: map<string, V>, after: map<string, V>)
    requires Shrunk(start, before) && Shrunk(before, after)
    ensures Shrunk(start, after)
  {
  }

  lemma GoneFurther(dir: seq<string>, start: Index, before: Index, after: Index, objects: Objects)
    requires Shrunk(start, before) && Shrunk(before, after)
    ensures Shrunk(start, after)
    ensures objects - Gone(dir, start, before) - Gone(dir, before, after) == objects - Gone(dir, start, after)
  {
    hide ObjectName;
    var a, b, c := start - before.Keys, before - after.Keys, start - after.Keys;
    assert forall p :: p in c <==> p in a || p in b;
    assert Gone(dir, start, after) == Gone(dir, start, before) + Gone(dir, before, after);
  }

  lemma FileRemoved(dir: seq<string>, index: Index, bodies: map<string, seq<Byte>>, objects: Objects, name: Name)
    requires Intact(dir, index, bodies, objects)
    ensures Intact(dir, index, bodies, objects - {name}) <==> !Clash(dir, index, bodies, name, {}, None)
  {
    hide ObjectName;
  }

  lemma FileWritten(dir: seq<string>, index: Index, bodies: map<string, seq<Byte>>, objects: Objects, name: Name,
                    body: seq<Byte>)
    requires Intact(dir, index, bodies, objects)
    ensures Intact(dir, index, bodies, objects[name := body]) <==> !Clash(dir, index, bodies, name, {}, Some(body))
  {
    hide ObjectName;
  }

  lemma FileOwned(dir: seq<string>, index: Index, bodies: map<string, seq<Byte>>, objects: Objects, name: Name,
                  body: seq<Byte>)
    requires Owned(dir, index, objects)
    ensures Owned(dir, index, objects - {name})
    ensures Owned(dir, index, objects[name := body]) <==> Clash(dir, index, bodies, name, {}, None)
  {
    hide ObjectName;
    assert name in NamesOf(dir, index) <==> Clash(dir, index, bodies, name, {}, None);
    assert name in objects[name := body];
  }

  /** Removing a file along with one entry. */
  lemma EntryAndFileRemoved(dir: seq<string>, index: Index, bodies: map<string, seq<Byte>>, objects: Objects,
                            path: string)
    ensures Intact(dir, index, bodies, objects) ==>
      (Intact(dir, index - {path}, bodies - {path}, objects - {ObjectName(dir, path)}) <==>
       !Clash(dir, index, bodies, ObjectName(dir, path), {path}, None))
    ensures Owned(dir, index, objects) ==> Owned(dir, index - {path}, objects - {ObjectName(dir, path)})
  {
    hide ObjectName;
    var name, rest := ObjectName(dir, path), index - {path};
    forall n | Owned(dir, index, objects) && n in objects - {name}
      ensures n in NamesOf(dir, rest)
    {
      var p :| p in index && !Pooled(index[p]) && ObjectName(dir, p) == n;
      assert p in rest;
    }
  }

  lemma OneFileChanged(dir: seq<string>, index: Index, bodies: map<string, seq<Byte>>, objects: Objects, name: Name,
                       body: seq<Byte>)
    ensures objects[name := body] - {name} == objects - {name}
    ensures Intact(dir, index, bodies, objects) ==>
      && (Intact(dir, index, bodies, objects - {name}) <==> !Clash(dir, index, bodies, name, {}, None))
      && (Intact(dir, index, bodies, objects[name := body]) <==> !Clash(dir, index, bodies, name, {}, Some(body)))
    ensures Owned(dir, index, objects) ==>
      && Owned(dir, index, objects - {name})
      && (Owned(dir, index, objects[name := body]) <==> Clash(dir, index, bodies, name, {}, None))
  {
    hide Intact, Owned, Clash;
    if Intact(dir, index, bodies, objects) {
      FileRemoved(dir, index, bodies, objects, name);
      FileWritten(dir, index, bodies, objects, name, body);
    }
    if Owned(dir, index, objects) {
      FileOwned(dir, index, bodies, objects, name, body);
    }
  }

  /** The plain files once a save is recorded. */
  function FilesAfterSave(objects: Objects, name: Name, body: seq<Byte>, wasPlain: bool, toPool: bool): Objects {
    if !toPool then objects[name := body] else if wasPlain then objects - {name} else objects
  }

  /** A save spoils the file of another entry. */
  ghost predicate SaveSpoils(dir: seq<string>, index: Index, bodies: map<string, seq<Byte>>, path: string,
                             body: seq<Byte>, toPool: bool)
  {
    if !toPool then Clash(dir, index, bodies, ObjectName(dir, path), {path}, Some(body))
    else path in index && !Pooled(index[path]) && Clash(dir, index, bodies, ObjectName(dir, path), {path}, None)
  }

  lemma IntactAfterSave(dir: seq<string>, index: Index, bodies: map<string, seq<Byte>>, objects: Objects, path: string,
                        ie: IndexEntry, body: seq<Byte>)
    requires Intact(dir, index, bodies, objects)
    ensures var wasPlain := path in index && !Pooled(index[path]);
            var now := FilesAfterSave(objects, ObjectName(dir, path), body, wasPlain, Pooled(ie));
            Intact(dir, index[path := ie], bodies[path := body], now) <==>
            !SaveSpoils(dir, index, bodies, path, body, Pooled(ie))
  {
    hide ObjectName;
    var name := ObjectName(dir, path);
    var after := index[path := ie];
    assert !Pooled(ie) ==> path in after && !Pooled(after[path]);
    forall q | q in index && q != path && !Pooled(index[q])
      ensures q in after && !Pooled(after[q]) && (q in bodies ==> bodies[path := body][q] == bodies[q])
    {
    }
  }

  /** The files when a save is recorded, given those when its bytes are in place. */
  lemma SavedFiles(dir: seq<string>, index: Index, bodies: map<string, seq<Byte>>, objects: Objects, path: string,
                   ie: IndexEntry, body: seq<Byte>)
    ensures var name, wasPlain := ObjectName(dir, path), path in index && !Pooled(index[path]);
            var placed := if Pooled(ie) then objects else objects[name := body];
            var now := FilesAfterSave(objects, name, body, wasPlain, Pooled(ie));
            && now == (if wasPlain && Pooled(ie) then placed - {name} else placed)
            && (Intact(dir, index, bodies, objects) ==>
                  (Intact(dir, index[path := ie], bodies[path := body], now) <==>
                   !SaveSpoils(dir, index, bodies, path, body, Pooled(ie))))
            && (Owned(dir, index, objects) ==> Owned(dir, index[path := ie], now))
  {
    hide ObjectName, SaveSpoils, Intact, Owned;
    if Intact(dir, index, bodies, objects) {
      IntactAfterSave(dir, index, bodies, objects, path, ie, body);
    }
    if Owned(dir, index, objects) {
      OwnedAfterSave(dir, index, objects, path, ie, body);
    }
  }

  lemma OwnedAfterSave(dir: seq<string>, index: Index, objects: Objects, path: string, ie: IndexEntry, body: seq<Byte>)
    requires Owned(dir, index, objects)
    ensures var wasPlain := path in index && !Pooled(index[path]);
            Owned(dir, index[path := ie], FilesAfterSave(objects, ObjectName(dir, path), body, wasPlain, Pooled(ie)))
  {
    hide ObjectName;
    var name := ObjectName(dir, path);
    var wasPlain := path in index && !Pooled(index[path]);
    var after := index[path := ie];
    forall n | n in FilesAfterSave(objects, name, body, wasPlain, Pooled(ie))
      ensures n in NamesOf(dir, after)
    {
      if n == name && !Pooled(ie) {
        assert path in after;
      } else {
        var p :| p in index && !Pooled(index[p]) && ObjectName(dir, p) == n;
        assert p in after && (p != path ==> after[p] == index[p]);
      }
    }
  }

  // ----- Index and eviction heap -----

  function EntryOf(path: string, ie: IndexEntry): EvictionHeap.Entry {
    EvictionHeap.Entry(path, StoredSize(ie), ie.modTimeMicro)
  }

  /** A popped entry is not stale. */
  predicate Matches(e: EvictionHeap.Entry, index: Index) {
    e.path in index && EntryOf(e.path, index[e.path]) == e
  }

  ghost predicate Covers(items: multiset<EvictionHeap.Entry>, index: Index) {
    forall p :: p in index ==> EntryOf(p, index[p]) in items
  }

  /** Which of two objects goes first, spelled out. Without a recency window the older one. With one, that of the
      older window, counted from the epoch, and of two in the same window the larger; so since the epoch never
      one that is newer by a whole window. */
  ghost predicate GoesNoLater(a: IndexEntry, b: IndexEntry, bucket: EvictionHeap.Bucket) {
    && (bucket <= 0 ==> a.modTimeMicro <= b.modTimeMicro)
    && (0 < bucket ==>
          var window := bucket / 1000;
          var atA := if 0 <= a.modTimeMicro then a.modTimeMicro / window else -((-a.modTimeMicro) / window);
          var atB := if 0 <= b.modTimeMicro then b.modTimeMicro / window else -((-b.modTimeMicro) / window);
          && atA <= atB
          && (atA == atB ==>
                (if a.wireSize > 0 then a.wireSize else a.size) >= (if b.wireSize > 0 then b.wireSize else b.size))
          && (0 <= a.modTimeMicro && 0 <= b.modTimeMicro ==> a.modTimeMicro < b.modTimeMicro + window))
  }

  /** No entry that is left goes before one that went. */
  ghost predicate InOrder(before: Index, after: Index, bucket: EvictionHeap.Bucket) {
    forall p, q :: p in before && p !in after && q in after ==> GoesNoLater(before[p], after[q], bucket)
  }

  /** The entry that went last was needed: with its bytes there would still be too many. */
  ghost predicate LastWasNeeded(before: Index, after: Index, bytes: int, margin: int, bucket: EvictionHeap.Bucket) {
    exists p :: p in before && p !in after
      && bytes + (if before[p].wireSize > 0 then before[p].wireSize else before[p].size) > margin
      && forall q :: q in before && q !in after ==> GoesNoLater(before[q], before[p], bucket)
  }

  lemma NotLessGoesNoLater(p: string, a: IndexEntry, q: string, b: IndexEntry, bucket: EvictionHeap.Bucket)
    requires !EvictionHeap.Less(EntryOf(q, b), EntryOf(p, a), bucket)
    ensures GoesNoLater(a, b, bucket)
  {
    if 0 < bucket && 0 <= a.modTimeMicro && 0 <= b.modTimeMicro {
      EvictionHeap.EvictionRespectsAge(EntryOf(q, b), EntryOf(p, a), bucket);
    }
  }

  /** The entry a covering heap gives up goes no later than any other. */
  lemma VictimGoesFirst(index: Index, items: seq<EvictionHeap.Entry>, victim: string, bucket: EvictionHeap.Bucket)
    requires victim in index && Covers(multiset(items), index)
    requires forall p :: p in index && EntryOf(p, index[p]) in items ==>
      !EvictionHeap.Less(EntryOf(p, index[p]), EntryOf(victim, index[victim]), bucket)
    ensures forall p :: p in index ==> GoesNoLater(index[victim], index[p], bucket)
  {
    hide EntryOf, GoesNoLater, EvictionHeap.Less;
    forall p | p in index
      ensures GoesNoLater(index[victim], index[p], bucket)
    {
      assert EntryOf(p, index[p]) in multiset(items);
      NotLessGoesNoLater(victim, index[victim], p, index[p], bucket);
    }
  }

  lemma InOrderFurther(start: Index, before: Index, after: Index, victim: string, bucket: EvictionHeap.Bucket)
    requires Shrunk(start, before) && InOrder(start, before, bucket)
    requires victim in before && after == before - {victim}
    requires forall p :: p in before ==> GoesNoLater(before[victim], before[p], bucket)
    ensures InOrder(start, after, bucket)
  {
    hide GoesNoLater;
  }

  lemma NoneGone(index: Index, bucket: EvictionHeap.Bucket)
    ensures InOrder(index, index, bucket)
  {
  }

  lemma NeededOneMore(start: Index, before: Index, after: Index, victim: string, bytes: int, margin: int,
                      bucket: EvictionHeap.Bucket)
    requires Shrunk(start, before) && victim in before && after == before - {victim}
    requires InOrder(start, before, bucket)
    requires bytes + StoredSize(before[victim]) > margin
    ensures LastWasNeeded(start, after, bytes, margin, bucket)
  {
    assert victim in start && victim !in after;
    assert GoesNoLater(start[victim], start[victim], bucket);
  }

  /** The heap has heard of a path if it is new, and of nothing otherwise. */
  ghost predicate Heard(index: Index, before: seq<EvictionHeap.Entry>, path: string, ie: IndexEntry,
                        after: seq<EvictionHeap.Entry>)
  {
    multiset(after) == if path in index then multiset(before) else multiset(before) + multiset{EntryOf(path, ie)}
  }

  datatype Outcome = Saved | Skipped | Rejected

  class Store {
    /** The store's directory. */
    const dir: seq<string>
    const compress: bool
    const zstd: Zstd
    const maxDiskBytes: int
    const maxFileBytes: int
    const pool: Pool
    const evictHeap: EvictionHeap.Heap
    const manifests: Restore.ManifestDir
    var index: Index
    var currentDiskBytes: int
    /** The plain files on disk, by the names that paths lead to. */
    var objects: Objects
    /** What each indexed path was saved with. */
    ghost var bodies: map<string, seq<Byte>>

    ghost predicate Accounted()
      reads this`index, this`currentDiskBytes, this`bodies
    {
      && currentDiskBytes == DiskBytes(index) && bodies.Keys == index.Keys
      && forall p :: p in index && !Pooled(index[p]) ==> !TooLarge(index[p].size)
    }

    ghost predicate PoolAgrees()
      reads this`index, this`bodies, pool`live
    {
      Agrees(index, pool.live.Keys) && PoolHolds(index, pool.live, bodies)
    }

    ghost predicate Separate()
      reads pool`Repr
    {
      evictHeap !in pool.Repr && this !in pool.Repr && manifests !in pool.Repr
    }

    ghost predicate Valid()
      reads this, pool, pool.Repr, evictHeap
    {
      Accounted() && PoolAgrees() && Separate() && pool.Valid() && evictHeap.Valid()
    }

    ghost predicate Covered()
      reads this`index, evictHeap
    {
      Covers(multiset(evictHeap.items), index)
    }

    /** Plain entries have their file, with the bytes they were saved with. */
    ghost predicate FilesIntact()
      reads this`index, this`objects, this`bodies
    {
      Intact(dir, index, bodies, objects)
    }

    /** There is no plain file but those of plain entries. */
    ghost predicate NoStrays()
      reads this`index, this`objects
    {
      Owned(dir, index, objects)
    }

    /** All paths are canonical, and the plain ones have their files. */
    ghost predicate CleanFiles()
      reads this`index, this`objects, this`bodies
    {
      AllCanonical(index.Keys) && FilesIntact()
    }

    function NameOf(path: string): Name {
      ObjectName(dir, path)
    }

    constructor (dir: seq<string>, compress: bool, zstd: Zstd, maxDiskBytes: int, maxFileBytes: int, pool: Pool,
                 evictHeap: EvictionHeap.Heap, manifests: Restore.ManifestDir, index: Index, objects: Objects)
      ensures this.dir == dir && this.compress == compress && this.zstd == zstd
      ensures this.maxDiskBytes == maxDiskBytes && this.maxFileBytes == maxFileBytes
      ensures this.pool == pool && this.evictHeap == evictHeap && this.manifests == manifests
      ensures this.index == index && this.objects == objects && currentDiskBytes == 0 && bodies == map[]
    {
      this.compress, this.zstd, this.maxDiskBytes, this.maxFileBytes := compress, zstd, maxDiskBytes, maxFileBytes;
      this.dir := dir;
      this.pool, this.evictHeap, this.manifests, this.index, this.objects := pool, evictHeap, manifests, index, objects;
      currentDiskBytes, bodies := 0, map[];
    }

    /** Drops an entry and whatever storage it occupies. */
    method Drop(path: string)
      requires Valid() && path in index
      modifies this, pool, pool.Repr
      ensures Valid() && pool.Repr == old(pool.Repr)
      ensures index == old(index) - {path} && bodies == old(bodies) - {path}
      ensures currentDiskBytes == old(currentDiskBytes) - StoredSize(old(index)[path])
      ensures objects == if Pooled(old(index)[path]) then old(objects) else old(objects) - {NameOf(path)}
      ensures unchanged(evictHeap)
    {
      hide Agrees, DiskBytes, Pool.Valid, PoolHolds, ObjectName;
      var ie := index[path];
      AgreesAfterRemove(index, pool.live.Keys, path);
      DiskBytesAfterRemove(index, path);
      PoolHoldsAfterRemove(index, pool.live, bodies, path);
      index := index - {path};
      bodies := bodies - {path};
      currentDiskBytes := currentDiskBytes - StoredSize(ie);
      RemoveObject(path, ie);
    }

    /** Releases whatever storage an entry occupies: a pool slot, or a plain file. */
    method RemoveObject(path: string, ie: IndexEntry)
      requires pool.Valid() && Separate()
      requires Pooled(ie) ==> SlotOf(ie) in pool.live && StoredSize(ie) > 0
      modifies this`objects, pool`live, pool`pages, pool.Repr
      ensures pool.Valid() && pool.Repr == old(pool.Repr)
      ensures pool.live == old(pool.live) - SlotsOf(ie)
      ensures objects == if Pooled(ie) then old(objects) else old(objects) - {NameOf(path)}
      ensures unchanged(evictHeap)
    {
      hide Pool.Valid;
      if Pooled(ie) {
        pool.Free(StoredSize(ie), ie.loc);
        return;
      }
      objects := objects - {NameOf(path)};
    }
  
    /** Pops until an entry matches the live index, and evicts that one. Whatever stale entries the
        heap holds, the outcome is that of a scan over the indexed entries the heap knows about. */
    method EvictOne() returns (evicted: bool, ghost victim: string)
      requires Valid()
      modifies this, evictHeap, pool, pool.Repr
      ensures Valid() && pool.Repr == old(pool.Repr)
      ensures evicted <==> exists e :: e in old(evictHeap.items) && Matches(e, old(index))
      ensures old(Covered()) ==> (evicted <==> old(index) != map[])
      ensures !evicted ==> index == old(index) && bodies == old(bodies) && objects == old(objects)
      ensures evicted ==> victim in old(index) && index == old(index) - {victim} && bodies == old(bodies) - {victim}
      ensures evicted ==> forall p :: p in old(index) && EntryOf(p, old(index)[p]) in old(evictHeap.items) ==>
        !EvictionHeap.Less(EntryOf(p, old(index)[p]), EntryOf(victim, old(index)[victim]), evictHeap.bucket)
      // The oldest one, or by size within the recency window; and its bytes are given back.
      ensures old(Covered()) && evicted ==>
        forall p :: p in old(index) ==> GoesNoLater(old(index)[victim], old(index)[p], evictHeap.bucket)
      ensures evicted ==>
        var ie := old(index)[victim];
        currentDiskBytes == old(currentDiskBytes) - if ie.wireSize > 0 then ie.wireSize else ie.size
      ensures !evicted ==> currentDiskBytes == old(currentDiskBytes)
      ensures old(Covered()) ==> Covered()
      ensures Shrunk(old(index), index) && Shrunk(old(bodies), bodies)
      ensures |index| == |old(index)| - if evicted then 1 else 0
      // The file goes with the entry, and with it that of any plain entry that has the same one.
      ensures objects == old(objects) - Gone(dir, old(index), index)
      ensures old(FilesIntact()) ==> (FilesIntact() <==> Apart(dir, old(index), index))
      ensures old(NoStrays()) ==> NoStrays()
    {
      hide Agrees, DiskBytes, Pool.Valid, PoolHolds, Covers, EvictionHeap.IsHeap, EvictionHeap.Less, Matches;
      hide ObjectName, Intact, Owned, Apart, Gone, Shrunk, GoesNoLater;
      while true
        invariant Valid() && pool.Repr == old(pool.Repr)
        invariant index == old(index) && bodies == old(bodies) && objects == old(objects)
        invariant currentDiskBytes == old(currentDiskBytes)
        invariant pool.live == old(pool.live)
        invariant OnlyStalePopped(old(evictHeap.items), evictHeap.items, index)
        decreases |evictHeap.items|
      {
        ghost var before := evictHeap.items;
        var e, ok := evictHeap.Pop();
        if !ok {
          NothingMatches(old(evictHeap.items), index);
          assert evictHeap.items == [];
          NothingGone(dir, index, bodies, objects);
          return false, "";
        }
        PopShortens(before, evictHeap.items, e);
        if !Matches(e, index) {
          StaleDropped(old(evictHeap.items), before, evictHeap.items, e, index);
          continue;
        }
        VictimFound(old(evictHeap.items), before, evictHeap.items, e, index, evictHeap.bucket);
        if old(Covered()) {
          VictimGoesFirst(index, old(evictHeap.items), e.path, evictHeap.bucket);
        }
        OneGone(dir, index, bodies, objects, e.path);
        Drop(e.path);
        return true, e.path;
      }
    }
  
    /** One eviction on behalf of a budget that spans stores. */
    method EvictForBudget() returns (evicted: bool, ghost victim: string)
      requires Valid() && Covered()
      modifies this, evictHeap, pool, pool.Repr
      ensures Valid() && Covered() && pool.Repr == old(pool.Repr)
      ensures evicted <==> old(index) != map[]
      ensures !evicted ==> index == old(index) && currentDiskBytes == old(currentDiskBytes)
      ensures evicted ==> victim in old(index) && index == old(index) - {victim}
      ensures evicted ==>
        var ie := old(index)[victim];
        && currentDiskBytes == old(currentDiskBytes) - (if ie.wireSize > 0 then ie.wireSize else ie.size)
        && forall p :: p in old(index) ==> GoesNoLater(ie, old(index)[p], evictHeap.bucket)
    {
      hide Valid, Covered, Matches, GoesNoLater;
      evicted, victim := EvictOne();
    }

    predicate OverBudget()
      reads this`currentDiskBytes
    {
      maxDiskBytes > 0 && currentDiskBytes > maxDiskBytes
    }

    /** The margin an eviction pass clears down to. */
    function Target(): int {
      maxDiskBytes - maxDiskBytes / EVICTION_MARGIN_FRACTION
    }

    /** Budget eviction: nothing at or below the limit, else down to the margin. */
    method EvictIfNeeded()
      requires Valid()
      modifies this, evictHeap, pool, pool.Repr
      ensures Valid() && pool.Repr == old(pool.Repr)
      ensures maxDiskBytes <= 0 || old(currentDiskBytes) <= maxDiskBytes ==>
        unchanged(this) && unchanged(evictHeap) && unchanged(pool) && unchanged(pool.Repr)
      // Exactly as much goes as is needed to have a tenth of the limit free, in eviction order.
      ensures 0 < maxDiskBytes < old(currentDiskBytes) && old(Covered()) ==>
        && currentDiskBytes <= maxDiskBytes - maxDiskBytes / 10
        && LastWasNeeded(old(index), index, currentDiskBytes, maxDiskBytes - maxDiskBytes / 10, evictHeap.bucket)
        && InOrder(old(index), index, evictHeap.bucket)
      ensures Shrunk(old(index), index) && Shrunk(old(bodies), bodies)
      ensures old(Covered()) ==> Covered()
      ensures objects == old(objects) - Gone(dir, old(index), index)
      ensures old(FilesIntact()) ==> (FilesIntact() <==> Apart(dir, old(index), index))
      ensures old(NoStrays()) ==> NoStrays()
    {
      hide Valid, Covered, FilesIntact, NoStrays, Apart, Gone, InOrder, LastWasNeeded;
      NothingGone(dir, index, bodies, objects);
      if OverBudget() {
        EvictToMargin();
      }
    }

    method EvictToMargin()
      requires Valid() && OverBudget()
      modifies this, evictHeap, pool, pool.Repr
      ensures Valid() && pool.Repr == old(pool.Repr)
      ensures old(Covered()) ==>
        && currentDiskBytes <= maxDiskBytes - maxDiskBytes / 10
        && LastWasNeeded(old(index), index, currentDiskBytes, maxDiskBytes - maxDiskBytes / 10, evictHeap.bucket)
        && InOrder(old(index), index, evictHeap.bucket)
      ensures Shrunk(old(index), index) && Shrunk(old(bodies), bodies)
      ensures old(Covered()) ==> Covered()
      ensures objects == old(objects) - Gone(dir, old(index), index)
      ensures old(FilesIntact()) ==> (FilesIntact() <==> Apart(dir, old(index), index))
      ensures old(NoStrays()) ==> NoStrays()
    {
      NothingGone(dir, index, bodies, objects);
      NoBytes(index);
      assert 0 <= Target() == maxDiskBytes - maxDiskBytes / 10 < currentDiskBytes;
      NoneGone(index, evictHeap.bucket);
      hide Agrees, Pool.Valid, PoolHolds, Covers, DiskBytes, EvictionHeap.IsHeap, EvictionHeap.Less, Matches, Target;
      hide ObjectName, Intact, Owned, Apart, Gone, Shrunk, GoesNoLater, InOrder, LastWasNeeded;
      while currentDiskBytes > Target()
        invariant Valid() && pool.Repr == old(pool.Repr)
        invariant old(Covered()) ==> InOrder(old(index), index, evictHeap.bucket)
        invariant old(Covered()) && currentDiskBytes <= Target() ==>
          LastWasNeeded(old(index), index, currentDiskBytes, Target(), evictHeap.bucket)
        invariant Shrunk(old(index), index) && Shrunk(old(bodies), bodies)
        invariant old(Covered()) ==> Covered()
        invariant objects == old(objects) - Gone(dir, old(index), index)
        decreases |index|
      {
        ghost var before, bodiesBefore := index, bodies;
        ghost var victim;
        var evicted;
        evicted, victim := EvictOne();
        GoneFurther(dir, old(index), before, index, old(objects));
        ShrunkFurther(old(bodies), bodiesBefore, bodies);
        if !evicted {
          NoBytes(index);
          break;
        }
        if old(Covered()) {
          InOrderFurther(old(index), before, index, victim, evictHeap.bucket);
          if currentDiskBytes <= Target() {
            NeededOneMore(old(index), before, index, victim, currentDiskBytes, Target(), evictHeap.bucket);
          }
        }
      }
      FilesAfterRemoval(dir, old(index), old(bodies), old(objects), index, bodies);
    }

    /** The forced pass when a write finds the disk full. */
    method EvictOnDiskFull()
      requires Valid()
      modifies this, evictHeap, pool, pool.Repr
      ensures Valid() && pool.Repr == old(pool.Repr)
      ensures Shrunk(old(index), index) && Shrunk(old(bodies), bodies)
      ensures old(Covered()) ==> Covered()
      ensures old(Covered()) ==>
        && |index| == (if |old(index)| == 0 then 0 else |old(index)| - Max(1, |old(index)| / 10))
        && InOrder(old(index), index, evictHeap.bucket)
      ensures objects == old(objects) - Gone(dir, old(index), index)
      ensures old(FilesIntact()) ==> (FilesIntact() <==> Apart(dir, old(index), index))
      ensures old(NoStrays()) ==> NoStrays()
    {
      hide Agrees, DiskBytes, Pool.Valid, PoolHolds, Covers, EvictionHeap.IsHeap, EvictionHeap.Less, Matches;
      hide ObjectName, Intact, Owned, Apart, Gone, Shrunk, GoesNoLater, InOrder;
      NothingGone(dir, index, bodies, objects);
      NoneGone(index, evictHeap.bucket);
      var n := Max(1, |index| / DISK_FULL_EVICT_FRACTION);
      var evicted := 0;
      while evicted < n
        invariant evicted <= n && |index| == |old(index)| - evicted
        invariant old(Covered()) ==> InOrder(old(index), index, evictHeap.bucket)
        invariant Valid() && pool.Repr == old(pool.Repr)
        invariant Shrunk(old(index), index) && Shrunk(old(bodies), bodies)
        invariant old(Covered()) ==> Covered()
        invariant objects == old(objects) - Gone(dir, old(index), index)
      {
        ghost var before, bodiesBefore := index, bodies;
        ghost var victim;
        var ok;
        ok, victim := EvictOne();
        GoneFurther(dir, old(index), before, index, old(objects));
        ShrunkFurther(old(bodies), bodiesBefore, bodies);
        if !ok {
          break;
        }
        if old(Covered()) {
          InOrderFurther(old(index), before, index, victim, evictHeap.bucket);
        }
        evicted := evicted + 1;
      }
      FilesAfterRemoval(dir, old(index), old(bodies), old(objects), index, bodies);
    }
  
    predicate TooLarge(size: int) {
      maxFileBytes > 0 && size > maxFileBytes
    }

    predicate PoolEligible(form: Form) {
      0 < FormSize(form) <= pool.maxRecordBytes
    }

    predicate IsPlain(path: string)
      reads this`index
    {
      path in index && !Pooled(index[path])
    }

    /** The plain file is written before its body is found to be truncated, and is then removed. */
    predicate Truncated(form: Form, fault: Fault) {
      fault == NoFault && !PoolEligible(form) && |form.body| != FormSize(form)
    }

    /** The size has earned, or is about to earn, a class of the pool. */
    predicate ToPool(form: Form)
      reads pool
    {
      PoolEligible(form) && (FormSize(form) in pool.classes || pool.Count(FormSize(form)) + 1 >= pool.breakeven)
    }

    /** What a save does to the pool's classes and promotion counters. */
    ghost predicate Promoted(classes: map<nat, SizeClass>, counts: map<int, nat>, form: Form, toPool: bool,
                             classesNow: map<nat, SizeClass>, countsNow: map<int, nat>)
    {
      var size := FormSize(form);
      if toPool then 0 <= size && classesNow.Keys == classes.Keys + {size} && countsNow == counts - {size}
      else classesNow.Keys == classes.Keys && countsNow ==
             if PoolEligible(form) then counts[size := 1 + if size in counts then counts[size] else 0] else counts
    }

    /** Setting the time of the plain file fails once the file is in place. */
    predicate TooLate(form: Form, fault: Fault, chtimesFails: bool) {
      fault == NoFault && chtimesFails && |form.body| == FormSize(form)
    }

    predicate Untimed(form: Form, fault: Fault, chtimesFails: bool)
      reads pool
    {
      TooLate(form, fault, chtimesFails) && !ToPool(form)
    }

    /** What a put that fails does to the plain files, if it evicts nothing. */
    function FilesAfterFailure(path: string, form: Form, truncated: bool, untimed: bool): Objects
      reads this`objects
    {
      if truncated then objects - {NameOf(path)} else if untimed then objects[NameOf(path) := form.body] else objects
    }

    /** It loses or replaces the bytes of a plain entry. */
    ghost predicate Spoils(path: string, form: Form, truncated: bool, untimed: bool)
      reads this`index, this`bodies
    {
      || (truncated && Clash(dir, index, bodies, NameOf(path), {}, None))
      || (!truncated && untimed && Clash(dir, index, bodies, NameOf(path), {}, Some(form.body)))
    }

    /** It leaves a file that belongs to no plain entry. */
    ghost predicate Strays(path: string, untimed: bool)
      reads this`index, this`bodies
    {
      untimed && !Clash(dir, index, bodies, NameOf(path), {}, None)
    }

    /** What is written, if the item gets as far as being written at all. */
    function FormOf(item: FileItem): Option<Form> {
      if item.path == "" || TooLarge(item.upload.size) then None else FormForPut(item.upload, compress, zstd)
    }

    function FilesAfterFailedPut(item: FileItem, fault: Fault, chtimesFails: bool): Objects
      reads this`objects, pool
    {
      match FormOf(item)
      case None => objects
      case Some(form) =>
        FilesAfterFailure(item.path, form, Truncated(form, fault), Untimed(form, fault, chtimesFails))
    }

    ghost predicate PutSpoils(item: FileItem, fault: Fault, chtimesFails: bool)
      reads this`index, this`bodies, pool
    {
      match FormOf(item)
      case None => false
      case Some(form) => Spoils(item.path, form, Truncated(form, fault), Untimed(form, fault, chtimesFails))
    }

    ghost predicate PutStrays(item: FileItem, fault: Fault, chtimesFails: bool)
      reads this`index, this`bodies, pool
    {
      match FormOf(item)
      case None => false
      case Some(form) => Strays(item.path, Untimed(form, fault, chtimesFails))
    }

    /** Saves one object, atomically with respect to other operations on the store. */
    method PutOne(item: FileItem, now: int, fault: Fault, diskFull: bool, chtimesFails: bool) returns (r: Outcome)
      requires Valid()
      modifies this, evictHeap, pool, pool.Repr
      ensures Valid() && fresh(pool.Repr - old(pool.Repr))
      ensures r.Skipped? <==> item.path != "" && 0 < maxFileBytes < item.upload.size
      ensures fault == NoFault ==>
        (r.Saved? <==>
          && item.path != "" && !TooLarge(item.upload.size) && Admitted(item.upload, compress, zstd).Some?
          && !old(Untimed(Admitted(item.upload, compress, zstd).value, fault, chtimesFails)))
      // What a save records, and that a re-save keeps the time of the first upload.
      ensures r.Saved? ==> item.path != "" && Admitted(item.upload, compress, zstd).Some? && item.path in index
      ensures r.Saved? ==>
        var form, ie := Admitted(item.upload, compress, zstd).value, index[item.path];
        && index == old(index)[item.path := ie] && bodies == old(bodies)[item.path := form.body]
        && ie.size == item.upload.size && StoredSize(ie) == |form.body| && ie.compressed == form.compressed
        && ie.modTimeMicro == (if item.path in old(index) then old(index)[item.path].modTimeMicro else now)
        && (Pooled(ie) <==> old(ToPool(form)))
        && Heard(old(index), old(evictHeap.items), item.path, ie, evictHeap.items)
        && Promoted(old(pool.classes), old(pool.counts), form, old(ToPool(form)), pool.classes, pool.counts)
      // What else may have changed.
      ensures !r.Saved? ==> Shrunk(old(index), index) && Shrunk(old(bodies), bodies)
      ensures !r.Saved? && !diskFull ==> index == old(index)
      // The heap is not told about a re-save: it keeps covering the index exactly when the stored size is one it has.
      ensures old(Covered()) && !r.Saved? ==> Covered()
      ensures old(Covered()) && r.Saved? ==>
        (Covered() <==> item.path !in old(index) || EntryOf(item.path, index[item.path]) in old(evictHeap.items))
      ensures old(Covered()) && r.Saved? && item.path in old(index)
              && StoredSize(old(index)[item.path]) == StoredSize(index[item.path]) ==>
        Covered()
      // Plain files keep their bytes exactly when what is written or removed is no other entry's file, or is
      // written with that entry's bytes; and none is left behind exactly when the put does not fail too late.
      ensures r.Saved? ==>
        var form := Admitted(item.upload, compress, zstd).value;
        && objects ==
             FilesAfterSave(old(objects), NameOf(item.path), form.body, old(IsPlain(item.path)), old(ToPool(form)))
        && (old(FilesIntact()) ==>
              (FilesIntact() <==> !SaveSpoils(dir, old(index), old(bodies), item.path, form.body, old(ToPool(form)))))
        && (old(NoStrays()) ==> NoStrays())
      ensures !r.Saved? && !diskFull ==> objects == old(FilesAfterFailedPut(item, fault, chtimesFails))
      ensures !r.Saved? && old(FilesIntact()) ==>
        (FilesIntact() <==> !old(PutSpoils(item, fault, chtimesFails)) && Apart(dir, old(index), index))
      ensures !r.Saved? && old(NoStrays()) ==> (NoStrays() <==> !old(PutStrays(item, fault, chtimesFails)))
    {
      hide Agrees, Pool.Valid, PoolHolds, Covers, DiskBytes, EvictionHeap.IsHeap, FilesIntact, NoStrays;
      hide Untimed, Truncated, ToPool, Spoils, Strays, FilesAfterFailure, FilesAfterSave, SaveSpoils, ObjectName, Apart,
        Promoted, Heard;
      NothingGone(dir, index, bodies, objects);
      if item.path == "" {
        return Rejected;
      }
      if TooLarge(item.upload.size) {
        return Skipped;
      }
      var chosen := FormForPut(item.upload, compress, zstd);
      if chosen.None? {
        return Rejected;
      }
      var stored := PutForm(item.path, chosen.value, now, fault, diskFull, chtimesFails);
      return if stored then Saved else Rejected;
    }

    method PutForm(path: string, form: Form, now: int, fault: Fault, diskFull: bool, chtimesFails: bool)
      returns (ok: bool)
      requires Valid() && !TooLarge(form.size)
      modifies this, evictHeap, pool, pool.Repr
      ensures Valid() && fresh(pool.Repr - old(pool.Repr))
      ensures ok ==> |form.body| == FormSize(form) && path in index
      ensures fault == NoFault && |form.body| == FormSize(form) ==> (ok <==> !old(Untimed(form, fault, chtimesFails)))
      ensures ok ==>
        var ie := index[path];
        && index == old(index)[path := ie] && bodies == old(bodies)[path := form.body]
        && ie.size == form.size && StoredSize(ie) == |form.body| && ie.compressed == form.compressed
        && ie.modTimeMicro == (if path in old(index) then old(index)[path].modTimeMicro else now)
        && (Pooled(ie) <==> old(ToPool(form)))
        && Heard(old(index), old(evictHeap.items), path, ie, evictHeap.items)
        && Promoted(old(pool.classes), old(pool.counts), form, old(ToPool(form)), pool.classes, pool.counts)
      ensures !ok ==> Shrunk(old(index), index) && Shrunk(old(bodies), bodies)
      ensures !ok && !diskFull ==> index == old(index)
      ensures !ok && old(Covered()) ==> Covered()
      ensures ok && old(Covered()) ==>
        (Covered() <==> path !in old(index) || EntryOf(path, index[path]) in old(evictHeap.items))
      ensures ok && old(Covered()) && path in old(index) && StoredSize(old(index)[path]) == StoredSize(index[path]) ==>
        Covered()
      ensures !ok && !diskFull ==>
        objects == old(FilesAfterFailure(path, form, Truncated(form, fault), Untimed(form, fault, chtimesFails)))
      ensures !ok && old(FilesIntact()) ==>
        (FilesIntact() <==>
         !old(Spoils(path, form, Truncated(form, fault), Untimed(form, fault, chtimesFails)))
           && Apart(dir, old(index), index))
      ensures !ok && old(NoStrays()) ==> (NoStrays() <==> !old(Strays(path, Untimed(form, fault, chtimesFails))))
      ensures ok ==>
        && objects == FilesAfterSave(old(objects), NameOf(path), form.body, old(IsPlain(path)), old(ToPool(form)))
        && (old(FilesIntact()) ==>
              (FilesIntact() <==> !SaveSpoils(dir, old(index), old(bodies), path, form.body, old(ToPool(form)))))
        && (old(NoStrays()) ==> NoStrays())
    {
      hide Agrees, Pool.Valid, PoolHolds, Covers, DiskBytes, EvictionHeap.IsHeap;
      hide Untimed, Truncated, ToPool, Spoils, Strays, FilesAfterFailure, FilesAfterSave, SaveSpoils, ObjectName, Apart,
        Promoted, Heard;
      hide Intact, Owned;
      var modTime := if path in index then index[path].modTimeMicro else now;
      CoversAfterPut(multiset(evictHeap.items), index, path, IndexEntry(0, 0, false, 0, Loc(0, 0)));
      var loc;
      ok, loc := StorePutBody(path, form, fault, diskFull, chtimesFails);
      if ok {
        var ie := IndexEntry(form.size, form.wireSize, form.compressed, modTime, loc);
        SavedFiles(dir, index, bodies, old(objects), path, ie, form.body);
        Commit(path, ie, form.body, old(pool.live));
      }
    }

    /** Writes the bytes to a pool slot if the size is eligible and promoted, else to a plain file. */
    method StorePutBody(path: string, form: Form, fault: Fault, diskFull: bool, chtimesFails: bool)
      returns (ok: bool, loc: Loc)
      requires Valid()
      modifies this, evictHeap, pool, pool.Repr
      ensures pool.Valid() && Separate() && evictHeap.Valid() && fresh(pool.Repr - old(pool.Repr))
      ensures ok ==>
        && |form.body| == FormSize(form)
        && index == old(index) && bodies == old(bodies) && currentDiskBytes == old(currentDiskBytes)
        && evictHeap.items == old(evictHeap.items)
      ensures ok ==> (loc.IsZero() <==> !old(ToPool(form)))
      ensures ok ==> Promoted(old(pool.classes), old(pool.counts), form, old(ToPool(form)), pool.classes, pool.counts)
      ensures ok && !loc.IsZero() ==>
        && PoolEligible(form) && objects == old(objects)
        && KeyOf(FormSize(form), loc) !in old(pool.live)
        && pool.live == old(pool.live)[KeyOf(FormSize(form), loc) := form.body]
      ensures ok && loc.IsZero() ==> pool.live == old(pool.live) && objects == old(objects)[NameOf(path) := form.body]
      ensures !ok ==> Valid() && Shrunk(old(index), index) && Shrunk(old(bodies), bodies)
      ensures !ok && !diskFull ==> index == old(index)
      ensures !ok && old(Covered()) ==> Covered()
      ensures fault == NoFault && |form.body| == FormSize(form) ==> (ok <==> !old(Untimed(form, fault, chtimesFails)))
      ensures !ok && !diskFull ==>
        objects == old(FilesAfterFailure(path, form, Truncated(form, fault), Untimed(form, fault, chtimesFails)))
      ensures !ok && old(FilesIntact()) ==>
        (FilesIntact() <==>
         !old(Spoils(path, form, Truncated(form, fault), Untimed(form, fault, chtimesFails)))
           && Apart(dir, old(index), index))
      ensures !ok && old(NoStrays()) ==>
        (NoStrays() <==> !old(Strays(path, Untimed(form, fault, chtimesFails))))
    {
      hide Agrees, Pool.Valid, PoolHolds, Covers, DiskBytes, EvictionHeap.IsHeap, ObjectName, Intact, Owned, Apart,
        Clash;
      NothingGone(dir, index, bodies, objects);
      var recordSize := FormSize(form);
      if PoolEligible(form) {
        if |form.body| != recordSize {
          return false, Loc(0, 0);
        }
        var put := pool.Put(recordSize, form.body, fault);
        if put.Failed? {
          HandleWriteError(diskFull);
          return false, Loc(0, 0);
        }
        if put.Stored? {
          return true, put.loc;
        }
      }
      ok := WritePlain(path, form, fault, diskFull, chtimesFails);
      return ok, Loc(0, 0);
    }

    /** Writes the bytes to the plain file, checks that they are all there unless that is known, and
        sets the file's time. */
    method WritePlain(path: string, form: Form, fault: Fault, diskFull: bool, chtimesFails: bool) returns (ok: bool)
      requires Valid() && (PoolEligible(form) ==> |form.body| == FormSize(form))
      modifies this, evictHeap, pool, pool.Repr
      ensures pool.Valid() && Separate() && evictHeap.Valid() && pool.Repr == old(pool.Repr)
      ensures ok <==> fault == NoFault && |form.body| == FormSize(form) && !TooLate(form, fault, chtimesFails)
      ensures ok ==>
        && index == old(index) && bodies == old(bodies) && currentDiskBytes == old(currentDiskBytes)
        && evictHeap.items == old(evictHeap.items) && pool.classes == old(pool.classes)
           && pool.counts == old(pool.counts)
        && pool.live == old(pool.live) && objects == old(objects)[NameOf(path) := form.body]
      ensures !ok ==> Valid() && Shrunk(old(index), index) && Shrunk(old(bodies), bodies)
      ensures !ok && !diskFull ==>
        && index == old(index)
        && objects == old(FilesAfterFailure(path, form, Truncated(form, fault), TooLate(form, fault, chtimesFails)))
      ensures !ok && old(Covered()) ==> Covered()
      ensures !ok && old(FilesIntact()) ==>
        (FilesIntact() <==>
         !old(Spoils(path, form, Truncated(form, fault), TooLate(form, fault, chtimesFails)))
           && Apart(dir, old(index), index))
      ensures !ok && old(NoStrays()) ==> (NoStrays() <==> !old(Strays(path, TooLate(form, fault, chtimesFails))))
    {
      hide Agrees, Pool.Valid, PoolHolds, Covers, DiskBytes, EvictionHeap.IsHeap, ObjectName, Intact, Owned, Apart,
        Clash;
      NothingGone(dir, index, bodies, objects);
      OneFileChanged(dir, index, bodies, objects, NameOf(path), form.body);
      if fault != NoFault {
        HandleWriteError(diskFull);
        return false;
      }
      objects := objects[NameOf(path) := form.body];
      if !PoolEligible(form) && |form.body| != FormSize(form) {
        objects := objects - {NameOf(path)};
        return false;
      }
      return !chtimesFails;
    }

    method HandleWriteError(diskFull: bool)
      requires Valid()
      modifies this, evictHeap, pool, pool.Repr
      ensures Valid() && pool.Repr == old(pool.Repr)
      ensures Shrunk(old(index), index) && Shrunk(old(bodies), bodies)
      ensures !diskFull ==> index == old(index) && objects == old(objects)
      ensures old(Covered()) ==> Covered()
      ensures old(FilesIntact()) ==> (FilesIntact() <==> Apart(dir, old(index), index))
      ensures old(NoStrays()) ==> NoStrays()
    {
      hide Agrees, Pool.Valid, PoolHolds, Covers, DiskBytes, EvictionHeap.IsHeap, FilesIntact, NoStrays, Apart;
      NothingGone(dir, index, bodies, objects);
      if diskFull {
        EvictOnDiskFull();
      }
    }

    /** Records a stored body, releasing what it supersedes. `before` is what the pool held until then. */
    method Commit(path: string, ie: IndexEntry, body: seq<Byte>, ghost before: map<Key, seq<Byte>>)
      requires Accounted() && Separate() && pool.Valid() && evictHeap.Valid()
      requires Agrees(index, before.Keys) && PoolHolds(index, before, bodies)
      requires StoredSize(ie) == |body| && !TooLarge(ie.size)
      requires Pooled(ie) ==> StoredSize(ie) > 0 && SlotOf(ie) !in before && pool.live == before[SlotOf(ie) := body]
      requires !Pooled(ie) ==> pool.live == before
      requires path in index ==> ie.modTimeMicro == index[path].modTimeMicro
      modifies this, evictHeap, pool, pool.Repr
      ensures Valid() && pool.Repr == old(pool.Repr)
      ensures index == old(index)[path := ie] && bodies == old(bodies)[path := body]
      ensures pool.classes == old(pool.classes) && pool.counts == old(pool.counts)
      ensures Heard(old(index), old(evictHeap.items), path, ie, evictHeap.items)
      ensures old(Covered()) ==>
        (Covered() <==> path !in old(index) || EntryOf(path, ie) in old(evictHeap.items))
      ensures objects ==
        if path in old(index) && !Pooled(old(index)[path]) && Pooled(ie) then old(objects) - {NameOf(path)}
        else old(objects)
    {
      hide Agrees, Pool.Valid, PoolHolds, Covers, DiskBytes, EvictionHeap.IsHeap, SlotOf, StoredSize, EntryOf, SlotsOf,
        ObjectName;
      AfterPut(index, before, bodies, path, ie, body);
      assert path !in index ==> pool.live - {} == pool.live;
      CoversAfterPut(multiset(evictHeap.items), index, path, ie);
      if path in index {
        currentDiskBytes := currentDiskBytes - StoredSize(index[path]);
        ReleaseSuperseded(path, index[path], ie);
      }
      Record(path, ie, body);
    }

    /** Enters a stored body in the index; the heap hears about new paths only. */
    method Record(path: string, ie: IndexEntry, ghost body: seq<Byte>)
      requires evictHeap.Valid()
      modifies this`index, this`bodies, this`currentDiskBytes, evictHeap
      ensures evictHeap.Valid()
      ensures index == old(index)[path := ie] && bodies == old(bodies)[path := body]
      ensures currentDiskBytes == old(currentDiskBytes) + StoredSize(ie)
      ensures Heard(old(index), old(evictHeap.items), path, ie, evictHeap.items)
    {
      hide StoredSize, EvictionHeap.IsHeap;
      currentDiskBytes := currentDiskBytes + StoredSize(ie);
      var isNew := path !in index;
      index := index[path := ie];
      bodies := bodies[path := body];
      if isNew {
        evictHeap.Push(EntryOf(path, ie));
      }
    }

    /** Frees whatever the previous entry occupied when the new one lives somewhere different. */
    method ReleaseSuperseded(path: string, existing: IndexEntry, ie: IndexEntry)
      requires pool.Valid() && Separate()
      requires Pooled(existing) ==> SlotOf(existing) in pool.live && StoredSize(existing) > 0
      modifies this`objects, pool`live, pool`pages, pool.Repr
      ensures pool.Valid() && pool.Repr == old(pool.Repr) && unchanged(evictHeap)
      ensures pool.live == old(pool.live) - SlotsOf(existing)
      ensures objects == if !Pooled(existing) && Pooled(ie) then old(objects) - {NameOf(path)} else old(objects)
    {
      hide Pool.Valid;
      if Pooled(existing) {
        pool.Free(StoredSize(existing), existing.loc);
        return;
      }
      if Pooled(ie) {
        objects := objects - {NameOf(path)};
      }
    }

    /** What serving an indexed path delivers. */
    method ReadObject(path: string) returns (body: Option<seq<Byte>>)
      requires Valid() && path in index
      ensures Pooled(index[path]) || FilesIntact() ==> body == Some(bodies[path])
      ensures !Pooled(index[path]) ==> body == if NameOf(path) in objects then Some(objects[NameOf(path)]) else None
    {
      hide Pool.Valid, DiskBytes, ObjectName;
      var ie := index[path];
      if Pooled(ie) {
        body := pool.Read(StoredSize(ie), ie.loc);
      } else {
        body := if NameOf(path) in objects then Some(objects[NameOf(path)]) else None;
      }
    }

    /** Drops an object that a restore found broken, given the plain-file entry the restore saw.
        The current entry may by then live in the pool, and then its slot is left behind. */
    method RemoveBrokenEntry(path: string, ie: IndexEntry)
      requires Valid() && !Pooled(ie)
      modifies this, pool, pool.Repr
      ensures Accounted() && Separate() && pool.Valid() && evictHeap.Valid() && unchanged(evictHeap)
      ensures index == old(index) - {path} && bodies == old(bodies) - {path}
      ensures objects == old(objects) - {NameOf(path)}
      ensures pool.live == old(pool.live) && pool.Repr == old(pool.Repr)
      ensures Valid() <==> !(path in old(index) && Pooled(old(index)[path]))
      ensures old(Covered()) ==> Covered()
      ensures old(FilesIntact()) ==>
        (FilesIntact() <==> !Clash(dir, old(index), old(bodies), NameOf(path), {path}, None))
      ensures old(NoStrays()) ==> NoStrays()
    {
      hide Agrees, DiskBytes, Pool.Valid, PoolHolds, EvictionHeap.IsHeap, ObjectName, Clash, Intact, Owned;
      EntryAndFileRemoved(dir, index, bodies, objects, path);
      StaleSnapshotLeaks(index, pool.live, bodies, path);
      if path in index {
        DiskBytesAfterRemove(index, path);
        currentDiskBytes := currentDiskBytes - StoredSize(index[path]);
      } else {
        assert index - {path} == index && bodies - {path} == bodies;
      }
      index := index - {path};
      bodies := bodies - {path};
      RemoveObject(path, ie);
      assert pool.live - SlotsOf(ie) == pool.live;
    }

    /** Deletes the target manifests, and every object that only they referenced. */
    method Clear(req: Restore.Request) returns (r: Option<ClearStats>)
      requires Valid()
      modifies this, manifests, pool, pool.Repr
      ensures Valid() && pool.Repr == old(pool.Repr) && unchanged(evictHeap)
      // Which manifests go: those of a build type that is named alone, else those that commit, changes and base name.
      ensures r.None? <==> ClearsNothing(req, old(manifests.files))
      ensures r.Some? ==> forall id :: id in manifests.files ==>
        id in old(manifests.files) && manifests.files[id] == old(manifests.files)[id]
      ensures r.Some? ==> forall id :: id in old(manifests.files) ==> (id !in manifests.files <==> Clears(req, id))
      ensures r.Some? ==> LosesWhatNoneLists(old(index), index, old(manifests.files), manifests.files)
      ensures r.None? <==> ClearTargets(req, old(manifests.files)) in {None, Some({})}
      ensures r.None? ==> unchanged(this) && unchanged(manifests)
      ensures r.Some? ==>
        var files, targets := old(manifests.files), ClearTargets(req, old(manifests.files)).value;
        && manifests.files == files - targets
        && SweptTo(dir, old(index), old(bodies), old(objects), index, bodies, objects, Orphaned(files, targets))
        // The file that a reference leads to goes, whatever entry it is of.
        && (old(FilesIntact()) ==> (FilesIntact() <==> SweptApart(dir, old(index), Orphaned(files, targets))))
        && r.value == ClearStats(|files| - |manifests.files|, |Orphaned(files, targets)|,
                                 |RefsOf(files, targets)| - |Orphaned(files, targets)|)
      ensures old(Covered()) ==> Covered()
      ensures old(NoStrays()) ==> NoStrays()
    {
      hide Agrees, DiskBytes, Pool.Valid, PoolHolds, Covers, EvictionHeap.IsHeap, Intact, Owned, Accounted, PoolAgrees;
      ClearsAreTargets(req, manifests.files);
      hide ClearTargets, RefsOf, SweptTo, SweptApart, ObjectName, Orphaned, Clears, ClearsNothing, LosesWhatNoneLists;
      var targets := ClearTargets(req, manifests.files);
      if targets.None? || targets.value == {} {
        return None;
      }
      var referenced, left, deleted := DeleteManifests(manifests.files, targets.value);
      manifests.files := left;
      RefsOfRest(old(manifests.files), targets.value);
      var keep := CollectRefs(left, left.Keys);
      var swept, kept := Sweep(referenced, keep);
      OrphansAreLost(dir, old(index), old(bodies), old(objects), index, bodies, objects, old(manifests.files),
                     targets.value);
      return Some(ClearStats(deleted, swept, kept));
    }

    method Sweep(referenced: set<string>, keep: set<string>) returns (deleted: nat, kept: nat)
      requires Valid()
      modifies this, pool, pool.Repr
      ensures Valid() && pool.Repr == old(pool.Repr)
      ensures SweptTo(dir, old(index), old(bodies), old(objects), index, bodies, objects, referenced - keep)
      ensures old(FilesIntact()) ==> (FilesIntact() <==> SweptApart(dir, old(index), referenced - keep))
      ensures deleted == |referenced - keep| && kept == |referenced| - |referenced - keep|
      ensures old(Covered()) ==> Covered()
      ensures old(NoStrays()) ==> NoStrays()
    {
      assert bodies.Keys == index.Keys;
      hide Valid, Covered, Intact, Owned, ObjectName, SweptApart;
      var todo := referenced;
      deleted, kept := 0, 0;
      ghost var swept := {};
      ghost var index0, bodies0, objects0, covered := index, bodies, objects, Covered();
      NothingSwept(dir, index, bodies, objects);
      hide SweptTo, Swept;
      SweptSets(referenced, referenced, keep);
      while todo != {}
        invariant todo <= referenced && swept == Swept(referenced, todo, keep)
        invariant Valid() && pool.Repr == old(pool.Repr)
        invariant SweptTo(dir, index0, bodies0, objects0, index, bodies, objects, swept)
        invariant deleted == |swept| && deleted + kept == |referenced| - |todo|
        invariant covered ==> Covered()
        decreases |todo|
      {
        var path :| path in todo;
        SweptSetStep(referenced, todo, keep, path);
        todo := todo - {path};
        if path in keep {
          kept := kept + 1;
          continue;
        }
        SweepNext(path, index0, bodies0, objects0, swept);
        swept := swept + {path};
        deleted := deleted + 1;
      }
      SweptSets(referenced, todo, keep);
      FilesAfterSweep(dir, index0, bodies0, objects0, index, bodies, objects, swept);
    }

    /** One more of the paths to sweep. */
    method SweepNext(path: string, ghost index0: Index, ghost bodies0: map<string, seq<Byte>>, ghost objects0: Objects,
                     ghost swept: set<string>)
      requires Valid() && path !in swept
      requires SweptTo(dir, index0, bodies0, objects0, index, bodies, objects, swept)
      modifies this, pool, pool.Repr
      ensures Valid() && pool.Repr == old(pool.Repr) && unchanged(evictHeap)
      ensures SweptTo(dir, index0, bodies0, objects0, index, bodies, objects, swept + {path})
      ensures old(Covered()) ==> Covered()
    {
      hide Valid, Covered, ObjectName, SweptTo;
      SweptOneMore(dir, index0, bodies0, objects0, index, bodies, objects, swept, path);
      SweepOne(path);
    }

    /** Removes an object no surviving manifest references, indexed or not. */
    method SweepOne(path: string)
      requires Valid()
      modifies this, pool, pool.Repr
      ensures Valid() && pool.Repr == old(pool.Repr) && unchanged(evictHeap)
      ensures index == old(index) - {path} && bodies == old(bodies) - {path}
      ensures objects ==
        if path in old(index) && Pooled(old(index)[path]) then old(objects) else old(objects) - {NameOf(path)}
      ensures old(Covered()) ==> Covered()
    {
      hide Agrees, DiskBytes, Pool.Valid, PoolHolds, EvictionHeap.IsHeap, ObjectName;
      if path in index {
        Drop(path);
      } else {
        assert index - {path} == index && bodies - {path} == bodies;
        objects := objects - {NameOf(path)};
      }
    }
  }

  /** Where the loop over the target manifests stands once it has handled `done`. */
  ghost predicate Deleted(files: Restore.Files, left: Restore.Files, done: set<Restore.ManifestId>,
                          refs: set<string>, deleted: nat)
  {
    left == files - done && refs == RefsOf(files, done) && deleted + |left| == |files|
  }

  // ----- Runs -----

  /** A store that keeps bodies of this size as they come, in plain files. */
  ghost predicate KeepsPlain(s: Store, size: int) {
    !s.compress && s.maxFileBytes <= 0 && s.pool.maxRecordBytes < size
  }

  /** A whole body, saved without a fault. */
  method SavePlain(s: Store, path: string, body: seq<Byte>, now: int)
    requires s.Valid() && path != "" && KeepsPlain(s, |body|)
    modifies s, s.evictHeap, s.pool, s.pool.Repr
    ensures s.Valid() && fresh(s.pool.Repr - old(s.pool.Repr))
    ensures path in s.index && s.index == old(s.index)[path := s.index[path]] && s.bodies == old(s.bodies)[path := body]
    ensures var ie := s.index[path];
            && !Pooled(ie) && StoredSize(ie) == |body|
            && (path !in old(s.index) ==> ie.modTimeMicro == now)
            && (path in old(s.index) ==> ie.modTimeMicro == old(s.index)[path].modTimeMicro)
            && Heard(old(s.index), old(s.evictHeap.items), path, ie, s.evictHeap.items)
    ensures s.objects == old(s.objects)[s.NameOf(path) := body]
    ensures old(s.Covered()) && path !in old(s.index) ==> s.Covered()
  {
    hide Store.Valid, Store.Covered, Intact, Owned, ObjectName, Clash, Apart, SaveSpoils, Heard;
    var r := s.PutOne(FileItem(path, Upload(|body|, 0, false, body)), now, NoFault, false, false);
  }

  /** A plain object of 5000 bytes re-saved with one byte: the failed put deletes its file, and the
      index keeps the entry. */
  method TruncatedResaveDeletes(s: Store, path: string, body: seq<Byte>, now: int)
    requires s.Valid() && path != "" && path !in s.index && |body| == 5000 && KeepsPlain(s, 5000)
    modifies s, s.evictHeap, s.pool, s.pool.Repr
    ensures path in s.index && !Pooled(s.index[path]) && s.NameOf(path) !in s.objects
  {
    hide Store.Valid, Store.Covered, Intact, Owned, ObjectName, Clash, Apart, SaveSpoils;
    SavePlain(s, path, body, now);
    var again := s.PutOne(FileItem(path, Upload(5000, 0, false, [7])), now, NoFault, false, false);
  }

  /** The first save of a plain object, in place when setting its time fails: its file stays, and
      neither the index nor the disk total knows of it. */
  method UntimedSaveStrays(s: Store, path: string, body: seq<Byte>, now: int)
    requires s.Valid() && s.index == map[] && s.objects == map[] && path != "" && |body| == 5000 && KeepsPlain(s, 5000)
    modifies s, s.evictHeap, s.pool, s.pool.Repr
    ensures s.index == map[] && s.objects == map[s.NameOf(path) := body] && !s.NoStrays()
  {
    hide Store.Valid, Store.Covered, Intact, ObjectName, Clash, Apart, SaveSpoils;
    var r := s.PutOne(FileItem(path, Upload(5000, 0, false, body)), now, NoFault, false, true);
    assert s.NameOf(path) in s.objects;
  }

  /** A plain object re-saved with one byte more: the heap knows the old size only, so that the entry is
      never evicted. */
  method ResavedIsNeverEvicted(s: Store, path: string, body: seq<Byte>, now: int) returns (evicted: bool)
    requires s.Valid() && s.index == map[] && s.evictHeap.items == [] && path != "" && KeepsPlain(s, |body|)
    modifies s, s.evictHeap, s.pool, s.pool.Repr
    ensures !evicted && s.index.Keys == {path} && StoredSize(s.index[path]) == |body| + 1
  {
    hide Store.Valid, Intact, Owned, ObjectName, Apart;
    SavePlain(s, path, body, now);
    ghost var known := s.evictHeap.items;
    OnlyOneHeard(path, s.index[path], known);
    SavePlain(s, path, body + [7], now);
    SameHeard(known, s.evictHeap.items);
    ghost var victim;
    evicted, victim := s.EvictOne();
  }

  lemma OnlyOneHeard(path: string, ie: IndexEntry, items: seq<EvictionHeap.Entry>)
    requires Heard(map[], [], path, ie, items)
    ensures forall e :: e in items ==> e == EntryOf(path, ie)
  {
    assert forall e :: e in items ==> e in multiset(items);
  }

  lemma SameHeard(before: seq<EvictionHeap.Entry>, after: seq<EvictionHeap.Entry>)
    requires multiset(before) == multiset(after)
    ensures forall e :: e in after ==> e in before
  {
    assert forall e :: e in after ==> e in multiset(before);
  }

  /** A body small enough for the pool, saved without a fault. */
  method SaveSmall(s: Store, path: string, body: seq<Byte>, now: int)
    requires s.Valid() && path != "" && 0 < |body| <= s.pool.maxRecordBytes && !s.compress && s.maxFileBytes <= 0
    modifies s, s.evictHeap, s.pool, s.pool.Repr
    ensures s.Valid() && fresh(s.pool.Repr - old(s.pool.Repr))
    ensures path in s.index && s.index == old(s.index)[path := s.index[path]] && StoredSize(s.index[path]) == |body|
    ensures var toPool := |body| in old(s.pool.classes) || old(s.pool.Count(|body|)) + 1 >= s.pool.breakeven;
            && (Pooled(s.index[path]) <==> toPool)
            && (if toPool then |body| in s.pool.classes else s.pool.Count(|body|) == old(s.pool.Count(|body|)) + 1)
  {
    hide Store.Valid, Store.Covered, Intact, Owned, ObjectName, Clash, Apart, SaveSpoils, Heard;
    var r := s.PutOne(FileItem(path, Upload(|body|, 0, false, body)), now, NoFault, false, false);
  }

  /** A plain object moves into the pool after a restore has looked at it, and before it is removed as
      broken: its slot stays occupied, and no entry refers to it. */
  method StaleRemovalLeaksASlot(s: Store, path: string, other: string, body: seq<Byte>, now: int)
    returns (ghost slot: Key)
    requires s.Valid() && path != "" && other != "" && 0 < |body| <= s.pool.maxRecordBytes
    requires !s.compress && s.maxFileBytes <= 0
    requires |body| !in s.pool.classes && s.pool.Count(|body|) == 0 && s.pool.breakeven == 2
    modifies s, s.evictHeap, s.pool, s.pool.Repr
    ensures path !in s.index && !s.Valid()
    ensures slot in s.pool.live && forall p :: p in s.index && Pooled(s.index[p]) ==> SlotOf(s.index[p]) != slot
  {
    hide Store.Covered, Intact, Owned, ObjectName, Clash, Pool.Valid, EvictionHeap.IsHeap, PoolHolds, DiskBytes, SlotOf;
    hide Store.Valid;
    SaveSmall(s, path, body, now);
    var snapshot := s.index[path];
    SaveSmall(s, other, body, now);
    SaveSmall(s, path, body, now);
    slot := SlotOf(s.index[path]);
    SlotsAgree(s);
    s.RemoveBrokenEntry(path, snapshot);
  }

  lemma SlotsAgree(s: Store)
    requires s.Valid()
    ensures forall p :: p in s.index && Pooled(s.index[p]) ==> SlotOf(s.index[p]) in s.pool.live
    ensures forall p, q :: p in s.index && q in s.index && p != q && Pooled(s.index[p]) && Pooled(s.index[q]) ==>
      SlotOf(s.index[p]) != SlotOf(s.index[q])
  {
    hide Pool.Valid, PoolHolds, DiskBytes, EvictionHeap.IsHeap, SlotOf;
  }

  lemma DotSlash(dir: seq<string>)
    ensures ObjectName(dir, "./a") == ObjectName(dir, "a") && Manifest.CleanRelativePath("./a") == Some("a")
  {
    var base := dir + ["objects"];
    Manifest.SplitUndoesJoin([".", "a"], '/');
    Manifest.SplitUndoesJoin(["a"], '/');
    Restore.JoinDot(["a"]);
    Restore.Untrimmed("./a");
    Restore.ResolveDot(["a"]);
    assert Manifest.Join(["a"], '/') == "a" && "./" + "a" == "./a" && ["."] + ["a"] == [".", "a"];
    Restore.OneCleaning("./a", "./a", [".", "a"], ["a"]) by {
      hide Manifest.Trim, Manifest.Resolve, Manifest.SplitOn;
    }
    assert [".", "a"][1..] == ["a"];
    assert Manifest.Walk(base, [".", "a"]) == Manifest.Walk(base, ["a"]);
  }

  /** Two saves under paths that lead to one file: the second overwrites the first one's bytes, and
      whichever entry is evicted takes the other's file with it. */
  method SharedFileIsLost(s: Store, first: seq<Byte>, second: seq<Byte>, now: int) returns (body: Option<seq<Byte>>)
    requires s.Valid() && s.Covered() && s.index == map[] && KeepsPlain(s, |first|) && KeepsPlain(s, |second|)
    modifies s, s.evictHeap, s.pool, s.pool.Repr
    ensures body == Some(second)
    ensures |s.index| == 1 && s.index.Keys <= {"a", "./a"}
    ensures forall p :: p in s.index ==> !Pooled(s.index[p]) && s.NameOf(p) !in s.objects
  {
    hide ObjectName, Apart, Intact, Owned, Store.Valid, Store.Covered, Heard;
    DotSlash(s.dir);
    SavePlain(s, "a", first, now);
    SavePlain(s, "./a", second, now);
    assert s.index.Keys == {"a", "./a"};
    body := s.ReadObject("a");
    EvictOneOfTwo(s);
  }

  method EvictOneOfTwo(s: Store)
    requires s.Valid() && s.Covered() && s.index.Keys == {"a", "./a"} && s.NameOf("./a") == s.NameOf("a")
    requires !Pooled(s.index["a"]) && !Pooled(s.index["./a"])
    modifies s, s.evictHeap, s.pool, s.pool.Repr
    ensures |s.index| == 1 && s.index.Keys <= {"a", "./a"} && s.NameOf("a") !in s.objects
    ensures forall p :: p in s.index ==> !Pooled(s.index[p])
  {
    hide ObjectName, Apart, Intact, Owned, Store.Valid, Store.Covered;
    ghost var before := s.index;
    assert |before.Keys| == 2;
    var evicted, victim := s.EvictOne();
    assert victim in before - s.index.Keys;
    assert s.NameOf("a") in Gone(s.dir, before, s.index);
  }

  /** A file saved under "./a" is that of "a", which is what its manifest lists: clearing the manifest
      deletes the file, and the entry stays. */
  method ClearDeletesAnothersFile(s: Store, body: seq<Byte>, now: int)
    requires s.Valid() && s.index == map[] && KeepsPlain(s, |body|)
    requires s.manifests.files ==
             map[Restore.CommitManifest("default", "c") := Restore.ManifestFile(Manifest.Body(["./a"]), 0)]
    modifies s, s.evictHeap, s.manifests, s.pool, s.pool.Repr
    ensures "./a" in s.index && !Pooled(s.index["./a"]) && s.NameOf("./a") !in s.objects
  {
    assert s.manifests !in s.pool.Repr;
    hide ObjectName, Intact, Owned, Manifest.Body, Store.Valid, Store.Covered;
    DotSlash(s.dir);
    SavePlain(s, "./a", body, now);
    ClearOfListed(s, "./a", "a");
  }

  method ClearOfListed(s: Store, path: string, reference: string)
    requires s.Valid() && path in s.index && reference !in s.index && s.NameOf(path) == s.NameOf(reference)
    requires Manifest.CleanRelativePath(path) == Some(reference) && path != "" && '\n' !in path
    requires s.manifests.files ==
             map[Restore.CommitManifest("default", "c") := Restore.ManifestFile(Manifest.Body([path]), 0)]
    modifies s, s.manifests, s.pool, s.pool.Repr
    ensures path in s.index && s.index[path] == old(s.index)[path] && s.NameOf(path) !in s.objects
  {
    hide ObjectName, Intact, Owned, SweptApart, ClearTargets, Orphaned, RefsOf, Manifest.Body,
      Manifest.CleanRelativePath,
      Store.Valid, Store.Covered;
    ghost var files, index := s.manifests.files, s.index;
    var req := Restore.Request("c", "", "", "c", "", 0, 0);
    CommitIsTarget(req, files);
    OnlyListed(files, path, reference);
    var cleared := s.Clear(req);
    assert reference in {reference} && s.NameOf(reference) in SweptNames(s.dir, index, {reference});
  }

  lemma CommitIsTarget(req: Restore.Request, files: Restore.Files)
    requires req == Restore.Request("c", "", "", "c", "", 0, 0)
    ensures ClearTargets(req, files) == Some({Restore.CommitManifest("default", "c")})
  {
    Restore.OwnBase(req);
    var sources := Restore.Sources(req);
    assert sources[0].1 == Restore.CommitTarget("c", "") && sources[2].1 == Restore.ChangesTarget("", "");
    assert Manifest.Trim("") == "";
    hide Restore.CommitTarget, Restore.ChangesTarget, Manifest.Trim, Restore.ScopeDir, Restore.Sources;
    var id := Restore.CommitManifest("default", "c");
    assert IdsOf(Restore.At(id)) + IdsOf(Restore.Blank) + IdsOf(Restore.At(id)) == {id};
  }

  lemma OnlyListed(files: Restore.Files, path: string, reference: string)
    requires Manifest.CleanRelativePath(path) == Some(reference) && path != "" && '\n' !in path
    requires files == map[Restore.CommitManifest("default", "c") := Restore.ManifestFile(Manifest.Body([path]), 0)]
    ensures Orphaned(files, {Restore.CommitManifest("default", "c")}) == {reference}
  {
    var id := Restore.CommitManifest("default", "c");
    Manifest.LinesOfBody([path]);
    hide Manifest.Lines, Manifest.Body, Manifest.CleanRelativePath;
    forall p
      ensures p in Listed(files[id]) <==> p == reference
    {
      Manifest.LoadHas(files[id].text, {p}, p);
    }
    assert Listed(files[id]) == {reference};
    hide Listed, RefsOf;
    RefsOfInsert(files, {}, id);
    assert files.Keys - {id} == {} && {} + {id} == {id};
  }

  /** Reads and removes the target manifests. */
  method DeleteManifests(files: Restore.Files, targets: set<Restore.ManifestId>)
    returns (refs: set<string>, left: Restore.Files, deleted: nat)
    ensures left == files - targets
    ensures refs == RefsOf(files, targets)
    ensures deleted == |files| - |left|
  {
    hide RefsOf, Listed, Deleted;
    var todo := targets;
    refs, left, deleted := {}, files, 0;
    NoneDeleted(files, targets);
    while todo != {}
      invariant todo <= targets && Deleted(files, left, targets - todo, refs, deleted)
      decreases |todo|
    {
      var id :| id in todo;
      TodoStep(targets, todo, id);
      if id in left {
        TargetGone(files, left, targets - todo, id, refs, deleted);
        refs := refs + Listed(left[id]);
        left := left - {id};
        deleted := deleted + 1;
      } else {
        TargetMissing(files, left, targets - todo, id, refs, deleted);
      }
      todo := todo - {id};
    }
    DeletedAll(files, left, targets, refs, deleted);
  }

  lemma NoneDeleted(files: Restore.Files, targets: set<Restore.ManifestId>)
    ensures Deleted(files, files, targets - targets, {}, 0)
  {
    RefsOfInsert(files, {}, Restore.CommitManifest("", ""));
    assert targets - targets == {};
  }

  lemma DeletedAll(files: Restore.Files, left: Restore.Files, targets: set<Restore.ManifestId>, refs: set<string>,
                   deleted: nat)
    requires Deleted(files, left, targets - {}, refs, deleted)
    ensures left == files - targets && refs == RefsOf(files, targets) && deleted == |files| - |left|
  {
    assert targets - {} == targets;
  }

  /** Every path some of these manifests reference. */
  method CollectRefs(files: Restore.Files, ids: set<Restore.ManifestId>) returns (refs: set<string>)
    requires ids <= files.Keys
    ensures refs == RefsOf(files, ids)
  {
    hide RefsOf, Listed;
    RefsOfInsert(files, {}, Restore.CommitManifest("", ""));
    var todo := ids;
    ghost var done := {};
    refs := {};
    while todo != {}
      invariant todo <= ids && done == ids - todo
      invariant refs == RefsOf(files, done)
      decreases |todo|
    {
      var id :| id in todo;
      RefsOfInsert(files, done, id);
      TodoStep(ids, todo, id);
      done := done + {id};
      refs := refs + Listed(files[id]);
      todo := todo - {id};
    }
    assert done == ids;
  }

  /** The files that sweeping those paths removes: none for a pool-backed entry. */
  ghost function SweptNames(dir: seq<string>, index: Index, swept: set<string>): set<Name> {
    set p | p in swept && (p in index ==> !Pooled(index[p])) :: ObjectName(dir, p)
  }

  /** The index, saved bodies and plain files left after sweeping those paths. */
  ghost predicate SweptTo(dir: seq<string>, index0: Index, bodies0: map<string, seq<Byte>>, objects0: Objects,
                          index: Index, bodies: map<string, seq<Byte>>, objects: Objects, swept: set<string>)
  {
    && index == index0 - swept && bodies == bodies0 - swept
    && objects == objects0 - SweptNames(dir, index0, swept)
  }

  /** No plain entry that is left has a file that is swept. */
  ghost predicate SweptApart(dir: seq<string>, index: Index, swept: set<string>) {
    forall name :: name in NamesOf(dir, index - swept) ==> name !in SweptNames(dir, index, swept)
  }

  lemma FilesAfterSweep(dir: seq<string>, index0: Index, bodies0: map<string, seq<Byte>>, objects0: Objects,
                        index: Index, bodies: map<string, seq<Byte>>, objects: Objects, swept: set<string>)
    requires SweptTo(dir, index0, bodies0, objects0, index, bodies, objects, swept) && bodies0.Keys == index0.Keys
    ensures Intact(dir, index0, bodies0, objects0) ==>
      (Intact(dir, index, bodies, objects) <==> SweptApart(dir, index0, swept))
    ensures Owned(dir, index0, objects0) ==> Owned(dir, index, objects)
  {
    hide ObjectName;
    forall name | Owned(dir, index0, objects0) && name in objects
      ensures name in NamesOf(dir, index)
    {
      var p :| p in index0 && !Pooled(index0[p]) && ObjectName(dir, p) == name;
      assert p !in swept;
    }
    forall name | Intact(dir, index0, bodies0, objects0) && Intact(dir, index, bodies, objects)
      && name in NamesOf(dir, index)
      ensures name !in SweptNames(dir, index0, swept)
    {
      var p :| p in index && !Pooled(index[p]) && ObjectName(dir, p) == name;
    }
  }

  /** Sweeping canonical references spares the files of all other entries, if those have canonical paths. */
  lemma CanonicalSweepIsApart(dir: seq<string>, index: Index, swept: set<string>)
    requires AllCanonical(index.Keys) && AllCanonical(swept)
    ensures SweptApart(dir, index, swept)
  {
    hide Manifest.Canonical, Manifest.Walk, Manifest.SplitOn;
    forall p, q | p in index - swept && q in swept && ObjectName(dir, p) == ObjectName(dir, q)
      ensures false
    {
      Manifest.CanonicalPathsDiffer(dir + ["objects"], p, q);
    }
  }

  ghost function Swept(referenced: set<string>, todo: set<string>, keep: set<string>): set<string> {
    referenced - todo - keep
  }

  lemma SweptSets(referenced: set<string>, todo: set<string>, keep: set<string>)
    ensures Swept(referenced, referenced, keep) == {}
    ensures todo == {} ==> Swept(referenced, todo, keep) == referenced - keep
  {
  }

  lemma SweptSetStep(referenced: set<string>, todo: set<string>, keep: set<string>, path: string)
    requires path in todo && todo <= referenced
    ensures path !in Swept(referenced, todo, keep) && |todo - {path}| == |todo| - 1
    ensures Swept(referenced, todo - {path}, keep) ==
            if path in keep then Swept(referenced, todo, keep) else Swept(referenced, todo, keep) + {path}
  {
  }

  lemma NothingSwept(dir: seq<string>, index: Index, bodies: map<string, seq<Byte>>, objects: Objects)
    ensures SweptTo(dir, index, bodies, objects, index, bodies, objects, {})
  {
    hide ObjectName;
    assert SweptNames(dir, index, {}) == {};
  }

  lemma SweptOneMore(dir: seq<string>, index0: Index, bodies0: map<string, seq<Byte>>, objects0: Objects,
                     index: Index, bodies: map<string, seq<Byte>>, objects: Objects, swept: set<string>, path: string)
    requires SweptTo(dir, index0, bodies0, objects0, index, bodies, objects, swept) && path !in swept
    ensures SweptTo(dir, index0, bodies0, objects0, index - {path}, bodies - {path},
                    if path in index && Pooled(index[path]) then objects else objects - {ObjectName(dir, path)},
                    swept + {path})
  {
    hide ObjectName;
    MapMinus(index0, swept, path);
    MapMinus(bodies0, swept, path);
    var gone := SweptNames(dir, index0, swept);
    MapMinus(objects0, gone, ObjectName(dir, path));
    assert SweptNames(dir, index0, swept + {path}) ==
           if path in index0 && Pooled(index0[path]) then gone else gone + {ObjectName(dir, path)};
  }

  lemma MapMinus<K, V>(m: map<K, V>, done: set<K>, k: K)
    ensures m - done - {k} == m - (done + {k})
    ensures k !in m - done ==> m - (done + {k}) == m - done
  {
  }

  lemma TodoStep<T>(all: set<T>, todo: set<T>, x: T)
    requires x in todo && todo <= all
    ensures all - (todo - {x}) == all - todo + {x}
    ensures |todo - {x}| == |todo| - 1
  {
  }

  datatype ClearStats = ClearStats(manifestsDeleted: nat, objectsDeleted: nat, objectsKept: nat)

  /** The manifests a clear request names: a whole build type, or the given commit, changes and
      base. `None` is an invalid name. */
  function ClearTargets(req: Restore.Request, files: Restore.Files): Option<set<Restore.ManifestId>> {
    var commit := Restore.CommitTarget(req.commit, req.buildType);
    var changes := Restore.ChangesTarget(req.changesID, req.buildType);
    var base := Restore.CommitTarget(req.baseCommit, req.buildType);
    if Manifest.Trim(req.buildType) != "" && commit.Blank? && changes.Blank? && base.Blank? then
      match Restore.ScopeDir(req.buildType)
      case None => None
      case Some(scope) => Some(set id | id in files && id.scope == scope)
    else if commit.Invalid? || changes.Invalid? || base.Invalid? then None
    else Some(IdsOf(commit) + IdsOf(changes) + IdsOf(base))
  }

  /** The request names a build type and nothing else. */
  ghost predicate OnlyBuildType(req: Restore.Request) {
    && Manifest.Trim(req.buildType) != "" && Manifest.Trim(req.commit) == ""
    && Manifest.Trim(req.changesID) == "" && Manifest.Trim(req.baseCommit) == ""
  }

  /** A clear request deletes this manifest, if it is there. */
  ghost predicate Clears(req: Restore.Request, id: Restore.ManifestId) {
    if OnlyBuildType(req) then Restore.IsOf(id, req.buildType)
    else
      || Restore.IsOfCommit(id, req.commit, req.buildType)
      || Restore.IsOfChanges(id, req.changesID, req.buildType)
      || Restore.IsOfCommit(id, req.baseCommit, req.buildType)
  }

  /** A name is unusable, or nothing is named, or a build type that has no manifests. */
  ghost predicate ClearsNothing(req: Restore.Request, files: Restore.Files) {
    || Restore.Unusable(req.buildType) || Restore.Unusable(req.commit) || Restore.Unusable(req.baseCommit)
    || Restore.ByteLen(Manifest.Trim(req.changesID)) > 100
    || (if OnlyBuildType(req) then forall id :: id in files ==> !Restore.IsOf(id, req.buildType)
        else
          && Manifest.Trim(req.commit) == "" && Manifest.Trim(req.changesID) == ""
          && Manifest.Trim(req.baseCommit) == "")
  }

  lemma ClearsAreTargets(req: Restore.Request, files: Restore.Files)
    ensures ClearTargets(req, files) in {None, Some({})} <==> ClearsNothing(req, files)
    ensures var targets := ClearTargets(req, files);
            targets.Some? ==> forall id :: id in files ==> (id in targets.value <==> Clears(req, id))
  {
    hide Manifest.Trim, Restore.CommitTarget, Restore.ChangesTarget, Restore.ScopeDir, Restore.ValidKeyName;
    hide Restore.IsOf, Restore.IsOfCommit, Restore.IsOfChanges;
    Restore.TargetsAre(req.commit, req.buildType);
    Restore.TargetsAre(req.changesID, req.buildType);
    Restore.TargetsAre(req.baseCommit, req.buildType);
    var targets := ClearTargets(req, files);
    if OnlyBuildType(req) {
      assert Restore.ByteLen("") == 0;
      if !Restore.Unusable(req.buildType) {
        assert forall id :: id in targets.value <==> id in files && Restore.IsOf(id, req.buildType);
        if id :| id in files && Restore.IsOf(id, req.buildType) {
          assert id in targets.value;
        } else {
          assert targets.value == {};
        }
      }
    } else if targets.Some? {
      var commit := Restore.CommitTarget(req.commit, req.buildType);
      var changes := Restore.ChangesTarget(req.changesID, req.buildType);
      var base := Restore.CommitTarget(req.baseCommit, req.buildType);
      assert commit.At? ==> commit.id in targets.value;
      assert changes.At? ==> changes.id in targets.value;
      assert base.At? ==> base.id in targets.value;
    }
  }

  /** The objects lost are those that a manifest which went has listed and none that is left lists. */
  ghost predicate LosesWhatNoneLists(before: Index, after: Index, files: Restore.Files, left: Restore.Files) {
    && Shrunk(before, after)
    && forall p :: p in before ==>
         (p !in after <==>
          && (exists id :: id in files && id !in left && p in Manifest.ReadPaths(files[id].text))
          && (forall id :: id in left ==> p !in Manifest.ReadPaths(left[id].text)))
  }

  lemma OrphansAreLost(dir: seq<string>, index0: Index, bodies0: map<string, seq<Byte>>, objects0: Objects,
                       index: Index, bodies: map<string, seq<Byte>>, objects: Objects,
                       files: Restore.Files, targets: set<Restore.ManifestId>)
    requires SweptTo(dir, index0, bodies0, objects0, index, bodies, objects, Orphaned(files, targets))
    ensures LosesWhatNoneLists(index0, index, files, files - targets)
  {
    hide ObjectName, Manifest.ReadPaths, RefsOf;
    OrphansAre(files, targets);
  }

  lemma OrphansAre(files: Restore.Files, targets: set<Restore.ManifestId>)
    ensures forall p :: p in Orphaned(files, targets) <==>
      && (exists id :: id in files && id !in files - targets && p in Manifest.ReadPaths(files[id].text))
      && (forall id :: id in files - targets ==> p !in Manifest.ReadPaths((files - targets)[id].text))
  {
    hide Manifest.ReadPaths, RefsOf;
    RefsAre(files, targets);
    RefsAre(files, files.Keys - targets);
    assert forall id :: id in files - targets <==> id in files && id in files.Keys - targets;
  }

  lemma RefsAre(files: Restore.Files, ids: set<Restore.ManifestId>)
    ensures forall p :: p in RefsOf(files, ids) <==>
      exists id :: id in files && id in ids && p in Manifest.ReadPaths(files[id].text)
  {
    hide Manifest.ReadPaths;
    forall p
      ensures p in RefsOf(files, ids) <==>
        exists id :: id in files && id in ids && p in Manifest.ReadPaths(files[id].text)
    {
      if id :| id in files && id in ids && p in Manifest.ReadPaths(files[id].text) {
        assert p in Listed(files[id]);
      }
    }
  }

  function IdsOf(t: Restore.Target): set<Restore.ManifestId> {
    if t.At? then {t.id} else {}
  }

  function Listed(file: Restore.ManifestFile): set<string> {
    set p | p in Manifest.ReadPaths(file.text)
  }

  /** The paths that some of these manifests list. */
  ghost function RefsOf(files: Restore.Files, ids: set<Restore.ManifestId>): set<string> {
    set id, p | id in ids && id in files && p in Listed(files[id]) :: p
  }

  /** The paths that some of these manifests list and no other manifest does. */
  ghost function Orphaned(files: Restore.Files, ids: set<Restore.ManifestId>): set<string> {
    RefsOf(files, ids) - RefsOf(files, files.Keys - ids)
  }

  lemma OrphanedAreCanonical(files: Restore.Files, ids: set<Restore.ManifestId>)
    ensures AllCanonical(Orphaned(files, ids))
  {
    hide Manifest.Canonical, Manifest.ReadPaths;
    forall id | id in files
      ensures AllCanonical(Listed(files[id]))
    {
      Manifest.ListedAreCanonical(files[id].text);
    }
  }

  lemma RefsOfInsert(files: Restore.Files, ids: set<Restore.ManifestId>, id: Restore.ManifestId)
    ensures RefsOf(files, ids + {id}) ==
            RefsOf(files, ids) + if id in files then Listed(files[id]) else {}
    ensures RefsOf(files, {}) == {}
  {
    hide Listed;
  }

  lemma TargetGone(files: Restore.Files, now: Restore.Files, done: set<Restore.ManifestId>, id: Restore.ManifestId,
                   refs: set<string>, deleted: nat)
    requires Deleted(files, now, done, refs, deleted) && id !in done && id in now
    ensures Deleted(files, now - {id}, done + {id}, refs + Listed(now[id]), deleted + 1)
  {
    hide RefsOf, Listed;
    RefsOfInsert(files, done, id);
    MapMinus(files, done, id);
    MapMinusSize(now, id);
  }

  lemma TargetMissing(files: Restore.Files, now: Restore.Files, done: set<Restore.ManifestId>, id: Restore.ManifestId,
                      refs: set<string>, deleted: nat)
    requires Deleted(files, now, done, refs, deleted) && id !in done && id !in now
    ensures Deleted(files, now, done + {id}, refs, deleted)
  {
    hide RefsOf, Listed;
    RefsOfInsert(files, done, id);
    MapMinus(files, done, id);
  }

  lemma MapMinusSize<K, V>(m: map<K, V>, k: K)
    requires k in m
    ensures |m - {k}| == |m| - 1
  {
    assert (m - {k}).Keys == m.Keys - {k};
  }

  lemma RefsOfRest(files: Restore.Files, targets: set<Restore.ManifestId>)
    ensures (files - targets).Keys == files.Keys - targets
    ensures RefsOf(files - targets, files.Keys - targets) == RefsOf(files, files.Keys - targets)
  {
    hide Listed;
    assert forall id :: id in files.Keys - targets <==> id in files - targets;
    assert forall id :: id in files - targets ==> (files - targets)[id] == files[id];
    forall p | p in RefsOf(files, files.Keys - targets)
      ensures p in RefsOf(files - targets, files.Keys - targets)
    {
      var id :| id in files.Keys - targets && id in files && p in Listed(files[id]);
      assert id in files - targets;
    }
  }

  /** Forgetting an entry without touching the pool keeps the two in agreement exactly when the
      entry was not pool-backed. */
  lemma StaleSnapshotLeaks(index: Index, live: map<Key, seq<Byte>>, bodies: map<string, seq<Byte>>, path: string)
    requires Agrees(index, live.Keys) && PoolHolds(index, live, bodies)
    ensures Agrees(index - {path}, live.Keys) <==> !(path in index && Pooled(index[path]))
    ensures PoolHolds(index - {path}, live, bodies - {path})
  {
    if path in index && !Pooled(index[path]) {
      AgreesAfterRemove(index, live.Keys, path);
      assert live.Keys - SlotsOf(index[path]) == live.Keys;
    } else if path !in index {
      assert index - {path} == index;
    }
  }

  /** The index, pool and accounting facts a put needs, on values. */
  lemma AfterPut(index: Index, live: map<Key, seq<Byte>>, bodies: map<string, seq<Byte>>,
                 path: string, ie: IndexEntry, body: seq<Byte>)
    requires Agrees(index, live.Keys) && PoolHolds(index, live, bodies)
    requires Pooled(ie) ==> StoredSize(ie) > 0 && SlotOf(ie) !in live
    ensures var freed := if path in index then SlotsOf(index[path]) else {};
            var after := (if Pooled(ie) then live[SlotOf(ie) := body] else live) - freed;
            && Agrees(index[path := ie], after.Keys)
            && PoolHolds(index[path := ie], after, bodies[path := body])
    ensures path in index && Pooled(index[path]) ==> SlotOf(index[path]) in live && StoredSize(index[path]) > 0
    ensures DiskBytes(index[path := ie]) ==
            DiskBytes(index) + StoredSize(ie) - if path in index then StoredSize(index[path]) else 0
  {
    hide Agrees, PoolHolds, DiskBytes;
    var rest := index - {path};
    var freed := if path in index then SlotsOf(index[path]) else {};
    var left := live - freed;
    if path in index {
      AgreesAfterRemove(index, live.Keys, path);
      DiskBytesAfterRemove(index, path);
      PoolHoldsAfterRemove(index, live, bodies, path);
    } else {
      assert rest == index && left == live;
      PoolHoldsOutside(index, live, bodies, path);
    }
    AgreesAfterInsert(rest, left.Keys, path, ie);
    DiskBytesAfterInsert(rest, path, ie);
    PoolHoldsAfterInsert(rest, left, bodies - {path}, path, ie, body);
    assert rest[path := ie] == index[path := ie];
    assert (bodies - {path})[path := body] == bodies[path := body];
    var after := (if Pooled(ie) then live[SlotOf(ie) := body] else live) - freed;
    assert after == if Pooled(ie) then left[SlotOf(ie) := body] else left by {
      if Pooled(ie) {
        assert SlotOf(ie) !in freed;
      }
    }
    assert after.Keys == left.Keys + SlotsOf(ie);
  }

  lemma PoolHoldsOutside(index: Index, live: map<Key, seq<Byte>>, bodies: map<string, seq<Byte>>, path: string)
    requires PoolHolds(index, live, bodies) && path !in index
    ensures PoolHolds(index, live, bodies - {path})
  {
  }

  lemma PoolHoldsAfterInsert(index: Index, live: map<Key, seq<Byte>>, bodies: map<string, seq<Byte>>,
                             path: string, ie: IndexEntry, body: seq<Byte>)
    requires PoolHolds(index, live, bodies) && path !in index
    requires Pooled(ie) ==> SlotOf(ie) !in live
    ensures PoolHolds(index[path := ie], if Pooled(ie) then live[SlotOf(ie) := body] else live, bodies[path := body])
  {
  }

  lemma CoversAfterPut(items: multiset<EvictionHeap.Entry>, index: Index, path: string, ie: IndexEntry)
    ensures Covers(items, index) ==> (Covers(items, index[path := ie]) <==> EntryOf(path, ie) in items)
    ensures Covers(items, index) ==> Covers(items + multiset{EntryOf(path, ie)}, index[path := ie])
    ensures Covers(items, index) && path in index ==> EntryOf(path, index[path]) in items
  {
    if Covers(items, index[path := ie]) {
      assert path in index[path := ie];
    }
  }

  function Max(a: nat, b: nat): nat {
    if a < b then b else a
  }

  /** Of the entries the heap started with, those that match the index are still in it. */
  ghost predicate OnlyStalePopped(start: seq<EvictionHeap.Entry>, now: seq<EvictionHeap.Entry>, index: Index) {
    && (forall e :: e in now ==> e in start)
    && (forall e :: e in start && Matches(e, index) ==> e in now)
  }

  lemma PopShortens(before: seq<EvictionHeap.Entry>, after: seq<EvictionHeap.Entry>, e: EvictionHeap.Entry)
    requires multiset(before) == multiset(after) + multiset{e}
    ensures |after| < |before| && e in before
    ensures forall x :: x in before <==> x in after || x == e
  {
    assert |multiset(before)| == |before| && |multiset(after)| == |after|;
    forall x
      ensures x in before <==> x in after || x == e
    {
      assert x in before <==> x in multiset(before);
      assert x in after <==> x in multiset(after);
    }
  }

  lemma NothingMatches(start: seq<EvictionHeap.Entry>, index: Index)
    requires OnlyStalePopped(start, [], index)
    ensures !exists e :: e in start && Matches(e, index)
    ensures Covers(multiset(start), index) ==> index == map[] && Covers(multiset([]), index)
  {
    if Covers(multiset(start), index) && index != map[] {
      var p :| p in index;
      assert Matches(EntryOf(p, index[p]), index);
    }
  }

  lemma StaleDropped(start: seq<EvictionHeap.Entry>, before: seq<EvictionHeap.Entry>, after: seq<EvictionHeap.Entry>,
                     e: EvictionHeap.Entry, index: Index)
    requires OnlyStalePopped(start, before, index) && !Matches(e, index)
    requires forall x :: x in before <==> x in after || x == e
    ensures OnlyStalePopped(start, after, index)
  {
  }

  lemma VictimFound(start: seq<EvictionHeap.Entry>, before: seq<EvictionHeap.Entry>, after: seq<EvictionHeap.Entry>,
                    e: EvictionHeap.Entry, index: Index, bucket: EvictionHeap.Bucket)
    requires OnlyStalePopped(start, before, index) && Matches(e, index)
    requires forall x :: x in before <==> x in after || x == e
    requires forall x :: x in before ==> !EvictionHeap.Less(x, e, bucket)
    ensures exists x :: x in start && Matches(x, index)
    ensures index != map[]
    ensures e.path in index && e == EntryOf(e.path, index[e.path])
    ensures forall p :: p in index && EntryOf(p, index[p]) in start ==>
      !EvictionHeap.Less(EntryOf(p, index[p]), e, bucket)
    ensures Covers(multiset(start), index) ==> Covers(multiset(after), index - {e.path})
  {
    forall p | p in index && EntryOf(p, index[p]) in start
      ensures EntryOf(p, index[p]) in before
    {
      assert Matches(EntryOf(p, index[p]), index);
    }
  }

  lemma PoolHoldsAfterRemove(index: Index, live: map<Key, seq<Byte>>, bodies: map<string, seq<Byte>>, path: string)
    requires Agrees(index, live.Keys) && PoolHolds(index, live, bodies) && path in index
    ensures PoolHolds(index - {path}, live - SlotsOf(index[path]), bodies - {path})
    ensures (live - SlotsOf(index[path])).Keys == live.Keys - SlotsOf(index[path])
    ensures Pooled(index[path]) ==> SlotOf(index[path]) in live && StoredSize(index[path]) > 0
  {
  }
}
