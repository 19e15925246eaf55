/** Opening the content-addressed store: reference counts, sizes, locations, the disk total and the
    pool's free lists are rebuilt from the persisted index, visited in any order. */
module LocalRestart {
  import opened Common
  import opened RecordPool
  import opened PoolReconcile
  import opened StoredForm
  import opened LocalStore

  const MAX_RECORD_BYTES := 4096
  const PAGE_BYTES := 8388608

  /** Persisted entries of one output agree about it, and different outputs have different slots. */
  ghost predicate Consistent(saved: Index) {
    && (forall a, b :: a in saved && b in saved && saved[a].outputID == saved[b].outputID ==>
          StoredSize(saved[a]) == StoredSize(saved[b]) && saved[a].loc == saved[b].loc)
    && (forall a, b :: a in saved && b in saved && !saved[a].loc.IsZero() && !saved[b].loc.IsZero() ==>
          saved[a].outputID == saved[b].outputID || SlotOf(saved[a]) != SlotOf(saved[b]))
  }

  function SlotOf(ie: Entry): Key {
    SlotKey(StoredSize(ie), ie.loc)
  }

  predicate Found(ie: Entry, names: set<PageName>, pageBytes: nat) {
    Resolving(StoredSize(ie), ie.loc, names, pageBytes)
  }

  /** What an output counts for: the length of its file, or what its entry claims if there is none. */
  function Measured(ie: Entry, files: map<string, seq<Byte>>): int {
    if ie.loc.IsZero() && ie.outputID in files then |files[ie.outputID]| else StoredSize(ie)
  }

  ghost function Resolved(saved: Index, todo: set<string>, names: set<PageName>, pageBytes: nat): Index {
    map a | a in saved && a !in todo && Found(saved[a], names, pageBytes) :: saved[a]
  }

  ghost function Remaining(saved: Index, todo: set<string>, names: set<PageName>, pageBytes: nat): Index {
    map a | a in saved && (a in todo || Found(saved[a], names, pageBytes)) :: saved[a]
  }

  /** Sizes and locations are what the entries seen so far say. */
  ghost predicate Measures(done: Index, d: Disk) {
    && d.locs.Keys <= d.sizes.Keys
    && forall a :: a in done ==>
         var o := done[a].outputID;
         && o in d.sizes && d.sizes[o] == Measured(done[a], d.files)
         && (o in d.locs <==> !done[a].loc.IsZero())
         && (o in d.locs ==> d.locs[o] == done[a].loc && 0 < d.sizes[o])
  }

  /** The storage state after the entries in `done`, and the slots noted for them. */
  ghost predicate Rebuilt(done: Index, refs: map<string, nat>, d: Disk, noted: set<Key>) {
    RefsMatch(done, refs) && refs.Keys == d.sizes.Keys && Measures(done, d) && OneToOne(OutputSlots(d), noted)
  }

  lemma RebuildStarts(saved: Index, files: map<string, seq<Byte>>, names: set<PageName>, pageBytes: nat)
    ensures Remaining(saved, saved.Keys, names, pageBytes) == saved
    ensures Rebuilt(Resolved(saved, saved.Keys, names, pageBytes), map[], Disk(map[], map[], map[], files), {})
    ensures Remaining(saved, {}, names, pageBytes) == Resolved(saved, {}, names, pageBytes)
  {
    hide Found, Rebuilt;
    assert Resolved(saved, saved.Keys, names, pageBytes) == map[];
    NothingRebuilt(files);
    RemainingEnds(saved, names, pageBytes);
    hide Resolved, Remaining;
  }

  lemma RemainingEnds(saved: Index, names: set<PageName>, pageBytes: nat)
    ensures Remaining(saved, saved.Keys, names, pageBytes) == saved
    ensures Remaining(saved, {}, names, pageBytes) == Resolved(saved, {}, names, pageBytes)
  {
  }

  lemma NothingRebuilt(files: map<string, seq<Byte>>)
    ensures Rebuilt(map[], map[], Disk(map[], map[], map[], files), {})
  {
    hide SlotKey, Measured;
    assert OutputSlots(Disk(map[], map[], map[], files)) == map[];
  }

  lemma RemainingStep(saved: Index, todo: set<string>, names: set<PageName>, pageBytes: nat, a: string)
    requires a in todo && a in saved
    ensures a in Remaining(saved, todo, names, pageBytes) && Remaining(saved, todo, names, pageBytes)[a] == saved[a]
    ensures Remaining(saved, todo - {a}, names, pageBytes) ==
            if Found(saved[a], names, pageBytes) then Remaining(saved, todo, names, pageBytes)
            else Remaining(saved, todo, names, pageBytes) - {a}
    ensures Resolved(saved, todo - {a}, names, pageBytes) ==
            if Found(saved[a], names, pageBytes) then Resolved(saved, todo, names, pageBytes)[a := saved[a]]
            else Resolved(saved, todo, names, pageBytes)
  {
    hide Found;
  }

  /** Another entry for an output seen before brings nothing new but a reference. */
  lemma RebuildShared(done: Index, refs: map<string, nat>, d: Disk, noted: set<Key>, a: string, ie: Entry)
    requires Rebuilt(done, refs, d, noted) && a !in done && ie.outputID in refs
    requires forall b :: b in done && done[b].outputID == ie.outputID ==>
      StoredSize(done[b]) == StoredSize(ie) && done[b].loc == ie.loc
    ensures Rebuilt(done[a := ie], Raised(refs, ie.outputID), d, noted)
  {
    hide OneToOne, StoredSize;
    RefsAfterInsert(done, refs, a, ie);
    var b :| b in Users(done, ie.outputID);
  }

  /** The first entry for an output brings its size and place. */
  lemma RebuildFirst(done: Index, refs: map<string, nat>, d: Disk, noted: set<Key>, a: string, ie: Entry)
    requires Rebuilt(done, refs, d, noted) && a !in done && ie.outputID !in refs
    requires !ie.loc.IsZero() ==> 0 < StoredSize(ie) && SlotOf(ie) !in noted
    ensures Rebuilt(done[a := ie], Raised(refs, ie.outputID), Added(d, ie.outputID, Measured(ie, d.files), ie.loc),
                    if ie.loc.IsZero() then noted else noted + {SlotOf(ie)})
  {
    hide OneToOne, StoredSize, SlotKey, Added, OutputSlots;
    RefsAfterInsert(done, refs, a, ie);
    AddedKeys(d, ie.outputID, Measured(ie, d.files), ie.loc);
    MeasuresFirst(done, refs, d, a, ie);
    hide RefsMatch, Measures;
    SlotsFirst(d, noted, ie);
  }

  lemma SlotsFirst(d: Disk, noted: set<Key>, ie: Entry)
    requires d.locs.Keys <= d.sizes.Keys && OneToOne(OutputSlots(d), noted) && ie.outputID !in d.sizes
    requires !ie.loc.IsZero() ==> SlotOf(ie) !in noted
    ensures OneToOne(OutputSlots(Added(d, ie.outputID, Measured(ie, d.files), ie.loc)),
                     if ie.loc.IsZero() then noted else noted + {SlotOf(ie)})
  {
    hide OneToOne, StoredSize, SlotKey;
    var after := Added(d, ie.outputID, Measured(ie, d.files), ie.loc);
    if ie.loc.IsZero() {
      assert OutputSlots(after) == OutputSlots(d);
    } else {
      assert OutputSlots(after) == OutputSlots(d)[ie.outputID := SlotOf(ie)];
      OneToOneInsert(OutputSlots(d), noted, ie.outputID, SlotOf(ie));
    }
  }

  lemma AddedKeys(d: Disk, o: string, size: int, loc: Loc)
    ensures Added(d, o, size, loc).sizes.Keys == d.sizes.Keys + {o}
  {
  }

  lemma MeasuresFirst(done: Index, refs: map<string, nat>, d: Disk, a: string, ie: Entry)
    requires RefsMatch(done, refs) && refs.Keys == d.sizes.Keys && Measures(done, d) && ie.outputID !in refs
    requires !ie.loc.IsZero() ==> 0 < StoredSize(ie)
    ensures Measures(done[a := ie], Added(d, ie.outputID, Measured(ie, d.files), ie.loc))
    ensures d.locs.Keys <= d.sizes.Keys
  {
    hide StoredSize;
    forall b | b in done
      ensures done[b].outputID != ie.outputID
    {
    }
  }

  /** A slot that no earlier output has taken. */
  lemma SlotIsNew(saved: Index, todo: set<string>, names: set<PageName>, pageBytes: nat, refs: map<string, nat>,
                  d: Disk,
                  noted: set<Key>, a: string)
    requires Consistent(saved) && a in todo && a in saved && Found(saved[a], names, pageBytes)
    requires forall name :: name in names ==> 0 < name.size
    requires Rebuilt(Resolved(saved, todo, names, pageBytes), refs, d, noted) && saved[a].outputID !in refs
    ensures !saved[a].loc.IsZero() ==> 0 < StoredSize(saved[a]) && SlotOf(saved[a]) !in noted
  {
    var ie, done := saved[a], Resolved(saved, todo, names, pageBytes);
    if !ie.loc.IsZero() {
      forall k | k in noted
        ensures k != SlotOf(ie)
      {
        var o :| o in OutputSlots(d) && OutputSlots(d)[o] == k;
        var b :| b in Users(done, o);
        assert SlotOf(saved[b]) == k;
      }
    }
  }

  /** The plain outputs of a size, however many entries share them. */
  ghost function PlainOutputs(index: Index, size: int): set<string> {
    set a | a in index && index[a].loc.IsZero() && StoredSize(index[a]) == size :: index[a].outputID
  }

  /** The promotion counter of a size without a class is the number of its plain outputs. */
  ghost predicate CountsPlain(classes: map<nat, SizeClass>, counts: map<int, nat>, index: Index) {
    forall size: int :: size !in classes ==> (if size in counts then counts[size] else 0) == |PlainOutputs(index, size)|
  }

  lemma PlainOutputsInsert(index: Index, a: string, ie: Entry, size: int)
    requires a !in index
    requires forall b :: b in index && index[b].outputID == ie.outputID ==>
      StoredSize(index[b]) == StoredSize(ie) && index[b].loc == ie.loc
    ensures |PlainOutputs(index[a := ie], size)| ==
            |PlainOutputs(index, size)| +
            if ie.loc.IsZero() && StoredSize(ie) == size
              && (forall b :: b in index ==> index[b].outputID != ie.outputID) then 1 else 0
  {
    hide StoredSize;
    var before, after := PlainOutputs(index, size), PlainOutputs(index[a := ie], size);
    if ie.loc.IsZero() && StoredSize(ie) == size {
      assert after == before + {ie.outputID} by {
        PlainOutputsGrows(index, a, ie, size);
      }
      if exists b :: b in index && index[b].outputID == ie.outputID {
        var b :| b in index && index[b].outputID == ie.outputID;
        assert index[b].outputID in before;
        assert after == before;
      } else {
        assert ie.outputID !in before;
      }
    } else {
      PlainOutputsStays(index, a, ie, size);
    }
  }

  lemma PlainOutputsGrows(index: Index, a: string, ie: Entry, size: int)
    requires a !in index && ie.loc.IsZero() && StoredSize(ie) == size
    ensures PlainOutputs(index[a := ie], size) == PlainOutputs(index, size) + {ie.outputID}
  {
    hide StoredSize;
    var after := index[a := ie];
    assert after[a].outputID in PlainOutputs(after, size);
    forall o | o in PlainOutputs(index, size)
      ensures o in PlainOutputs(after, size)
    {
      var b :| b in index && index[b].loc.IsZero() && StoredSize(index[b]) == size && index[b].outputID == o;
      assert after[b] == index[b];
    }
  }

  lemma PlainOutputsStays(index: Index, a: string, ie: Entry, size: int)
    requires a !in index && !(ie.loc.IsZero() && StoredSize(ie) == size)
    ensures PlainOutputs(index[a := ie], size) == PlainOutputs(index, size)
  {
    hide StoredSize;
    var after := index[a := ie];
    forall o | o in PlainOutputs(index, size)
      ensures o in PlainOutputs(after, size)
    {
      var b :| b in index && index[b].loc.IsZero() && StoredSize(index[b]) == size && index[b].outputID == o;
      assert after[b] == index[b];
    }
  }

  lemma CountsPlainStep(saved: Index, todo: set<string>, names: set<PageName>, pageBytes: nat, refs: map<string, nat>,
                        classes: map<nat, SizeClass>, counts: map<int, nat>, a: string)
    requires Consistent(saved) && a in todo && a in saved
    requires RefsMatch(Resolved(saved, todo, names, pageBytes), refs)
    requires CountsPlain(classes, counts, Resolved(saved, todo, names, pageBytes))
    ensures CountsPlain(classes, if Found(saved[a], names, pageBytes) && saved[a].outputID !in refs
                                 then CountsAfter(classes, counts, StoredSize(saved[a]), saved[a].loc) else counts,
                        Resolved(saved, todo - {a}, names, pageBytes))
  {
    RemainingStep(saved, todo, names, pageBytes, a);
    var done := Resolved(saved, todo, names, pageBytes);
    assert forall b :: b in done ==> done[b] == saved[b];
    assert a !in done;
    hide CountsPlain, CountsAfter, Found, Resolved, RefsMatch, StoredSize;
    if Found(saved[a], names, pageBytes) {
      CountsPlainInsert(done, refs, classes, counts, a, saved[a]);
    }
  }

  lemma CountsPlainInsert(done: Index, refs: map<string, nat>, classes: map<nat, SizeClass>, counts: map<int, nat>,
                          a: string, ie: Entry)
    requires a !in done && RefsMatch(done, refs) && CountsPlain(classes, counts, done)
    requires forall b :: b in done && done[b].outputID == ie.outputID ==>
      StoredSize(done[b]) == StoredSize(ie) && done[b].loc == ie.loc
    ensures CountsPlain(classes, if ie.outputID !in refs then CountsAfter(classes, counts, StoredSize(ie), ie.loc)
                        else counts,
                        done[a := ie])
  {
    SeenIffReferenced(done, refs, ie.outputID);
    hide StoredSize, PlainOutputs, RefsMatch;
    forall size
      ensures |PlainOutputs(done[a := ie], size)| ==
              |PlainOutputs(done, size)| + if ie.loc.IsZero() && StoredSize(ie) == size && ie.outputID !in refs then 1
                else 0
    {
      PlainOutputsInsert(done, a, ie, size);
    }
  }

  lemma SeenIffReferenced(done: Index, refs: map<string, nat>, o: string)
    requires RefsMatch(done, refs)
    ensures o in refs <==> exists b :: b in done && done[b].outputID == o
  {
    if o in refs {
      var b :| b in Users(done, o);
    }
  }

  lemma NothingCounted(saved: Index, names: set<PageName>, pageBytes: nat, classes: map<nat, SizeClass>)
    ensures CountsPlain(classes, map[], Resolved(saved, saved.Keys, names, pageBytes))
  {
    hide Found;
    var done := Resolved(saved, saved.Keys, names, pageBytes);
    assert forall size :: PlainOutputs(done, size) == {};
  }

  /** One step of the rebuilding loop, on values. */
  lemma RebuildStep(saved: Index, todo: set<string>, names: set<PageName>, pageBytes: nat,
                    refs: map<string, nat>, d: Disk, noted: set<Key>, a: string)
    requires Consistent(saved) && a in todo && a in saved && Found(saved[a], names, pageBytes)
    requires forall name :: name in names ==> 0 < name.size
    requires Rebuilt(Resolved(saved, todo, names, pageBytes), refs, d, noted)
    ensures var ie, done := saved[a], Resolved(saved, todo - {a}, names, pageBytes);
            if ie.outputID in refs then Rebuilt(done, Raised(refs, ie.outputID), d, noted)
            else
              Rebuilt(done, Raised(refs, ie.outputID), Added(d, ie.outputID, Measured(ie, d.files), ie.loc),
                      if ie.loc.IsZero() then noted else noted + {SlotOf(ie)})
  {
    var ie, done := saved[a], Resolved(saved, todo, names, pageBytes);
    RemainingStep(saved, todo, names, pageBytes, a);
    assert a !in done;
    if ie.outputID in refs {
      forall b | b in done && done[b].outputID == ie.outputID
        ensures StoredSize(done[b]) == StoredSize(ie) && done[b].loc == ie.loc
      {
        assert done[b] == saved[b];
      }
      hide Rebuilt, Resolved, Consistent, Found;
      RebuildShared(done, refs, d, noted, a, ie);
    } else {
      SlotIsNew(saved, todo, names, pageBytes, refs, d, noted, a);
      hide Rebuilt, Resolved, Consistent, Found;
      RebuildFirst(done, refs, d, noted, a, ie);
    }
  }

  /** The state of the rebuilding loop: `todo` is still to come. */
  ghost predicate Rebuilding(s: Store, dir: Directory, saved: Index, todo: set<string>, noted: set<Key>)
    reads s, s.pool, s.pool.Repr
  {
    && Noting(s.pool, dir, noted) && s !in s.pool.Repr
    && s.index == Remaining(saved, todo, dir.Keys, s.pool.pageBytes)
    && Rebuilt(Resolved(saved, todo, dir.Keys, s.pool.pageBytes), s.outputRefs,
               Disk(s.outputSizes, s.outputLocs, map[], s.files), noted)
    && s.currentDiskBytes == Total(s.outputSizes)
    && CountsPlain(s.pool.classes, s.pool.counts, Resolved(saved, todo, dir.Keys, s.pool.pageBytes))
  }

  lemma FoundAsPersisted(pool: Pool, dir: Directory, noted: set<Key>, ie: Entry)
    requires Noting(pool, dir, noted)
    ensures pool.Resolves(StoredSize(ie), ie.loc) <==> Found(ie, dir.Keys, pool.pageBytes)
  {
    ResolvesAsPersisted(pool, dir, StoredSize(ie), ie.loc);
  }

  lemma RebuiltKeys(done: Index, refs: map<string, nat>, d: Disk, noted: set<Key>)
    requires Rebuilt(done, refs, d, noted)
    ensures refs.Keys == d.sizes.Keys && RefsMatch(done, refs)
  {
  }

  /** Records the size and place of an output seen for the first time. */
  method RecordFirst(s: Store, ie: Entry, size: int, ghost dir: Directory, ghost noted: set<Key>)
    returns (ghost now: set<Key>)
    requires Noting(s.pool, dir, noted) && s !in s.pool.Repr && s.pool.Resolves(size, ie.loc) && size == StoredSize(ie)
    requires s.currentDiskBytes == Total(s.outputSizes) && ie.outputID !in s.outputSizes
    modifies s`outputSizes, s`outputLocs, s`currentDiskBytes, s.pool`counts, s.pool.pages.Values
    ensures Noting(s.pool, dir, now) && s !in s.pool.Repr && s.currentDiskBytes == Total(s.outputSizes)
    ensures now == if ie.loc.IsZero() then noted else noted + {SlotOf(ie)}
    ensures s.pool.counts == CountsAfter(s.pool.classes, old(s.pool.counts), StoredSize(ie), ie.loc)
    ensures Disk(s.outputSizes, s.outputLocs, map[], s.files) ==
            Added(old(Disk(s.outputSizes, s.outputLocs, map[], s.files)), ie.outputID, Measured(ie, s.files), ie.loc)
  {
    hide Noting, Pool.Resolves, StoredSize, CountsAfter;
    var o := ie.outputID;
    TotalInsert(s.outputSizes, o, Measured(ie, s.files));
    assert s.outputSizes - {o} == s.outputSizes;
    now := Note(s.pool, size, ie.loc, dir, noted);
    if ie.loc.IsZero() {
      var fileSize := if o in s.files then |s.files[o]| else size;
      s.outputSizes := s.outputSizes[o := fileSize];
      s.currentDiskBytes := s.currentDiskBytes + fileSize;
    } else {
      s.outputLocs := s.outputLocs[o := ie.loc];
      s.outputSizes := s.outputSizes[o := size];
      s.currentDiskBytes := s.currentDiskBytes + size;
    }
  }

  method RebuildOne(s: Store, a: string, ghost dir: Directory, ghost saved: Index, ghost todo: set<string>,
                    ghost noted: set<Key>)
    returns (ghost now: set<Key>)
    requires Rebuilding(s, dir, saved, todo, noted) && a in todo && a in saved && Consistent(saved)
    requires forall name :: name in dir.Keys ==> 0 < name.size
    modifies s`index, s`outputRefs, s`outputSizes, s`outputLocs, s`currentDiskBytes, s.pool`counts, s.pool.pages.Values
    ensures Rebuilding(s, dir, saved, todo - {a}, now)
  {
    hide Rebuilt, Resolved, Remaining, Consistent, Found, Noting, PageCapacity, Pool.Resolves, Measured;
    hide CountsPlain, CountsAfter, RefsMatch;
    RemainingStep(saved, todo, dir.Keys, s.pool.pageBytes, a);
    var ie := s.index[a];
    var size := StoredSize(ie);
    FoundAsPersisted(s.pool, dir, noted, ie);
    now := noted;
    if !s.pool.Resolves(size, ie.loc) {
      s.index := s.index - {a};
      assert Resolved(saved, todo - {a}, dir.Keys, s.pool.pageBytes) ==
        Resolved(saved, todo, dir.Keys, s.pool.pageBytes);
      return;
    }
    RebuildStep(saved, todo, dir.Keys, s.pool.pageBytes, s.outputRefs,
                Disk(s.outputSizes, s.outputLocs, map[], s.files), noted, a);
    RebuiltKeys(Resolved(saved, todo, dir.Keys, s.pool.pageBytes), s.outputRefs,
                Disk(s.outputSizes, s.outputLocs, map[], s.files), noted);
    CountsPlainStep(saved, todo, dir.Keys, s.pool.pageBytes, s.outputRefs, s.pool.classes, s.pool.counts, a);
    var o := ie.outputID;
    var seen := o in s.outputRefs;
    s.outputRefs := s.outputRefs[o := 1 + if seen then s.outputRefs[o] else 0];
    if seen {
      return;
    }
    now := RecordFirst(s, ie, size, dir, noted);
  }

  method RebuildStorageState(s: Store, dir: Directory)
    requires s.pool.Noting() && s.pool.Opened(dir, {}) && s.pool.Repr == {} && s.pool.counts == map[]
    requires IsDirectory(dir, s.pool.pageBytes) && Consistent(s.index) && s.currentDiskBytes == 0
    requires s.outputRefs == map[] && s.outputSizes == map[] && s.outputLocs == map[]
    modifies s`index, s`outputRefs, s`outputSizes, s`outputLocs, s`currentDiskBytes, s.pool
    ensures s.PoolOk() && s.pool.Directory() == dir && fresh(s.pool.Repr - dir.Values)
    ensures s.index == Resolved(old(s.index), {}, dir.Keys, s.pool.pageBytes)
    ensures Rebuilt(s.index, s.outputRefs, Disk(s.outputSizes, s.outputLocs, map[], s.files), s.pool.live.Keys)
    ensures s.currentDiskBytes == Total(s.outputSizes)
    ensures CountsPlain(s.pool.classes, s.pool.counts, s.index)
  {
    hide CountsPlain, Pool.Noting, Pool.Valid, Pool.Noted, Pool.Opened, Pool.Directory, Noting, Rebuilt, Resolved,
      Consistent, IsDirectory, Rebuilding;
    s.pool.DiscoverPages(dir);
    NothingNotedYet(s.pool, dir);
    DirectorySizes(dir, s.pool.pageBytes);
    ghost var saved := s.index;
    ghost var noted := RebuildAll(s, dir);
    NotedSlots(s, dir, saved, noted);
    s.pool.FinishReconcile();
    assert s.pool.live.Keys == noted;
  }

  method RebuildAll(s: Store, dir: Directory) returns (ghost noted: set<Key>)
    requires Noting(s.pool, dir, {}) && s !in s.pool.Repr && Consistent(s.index) && s.currentDiskBytes == 0
    requires s.pool.counts == map[]
    requires s.outputRefs == map[] && s.outputSizes == map[] && s.outputLocs == map[]
    requires forall name :: name in dir.Keys ==> 0 < name.size
    modifies s`index, s`outputRefs, s`outputSizes, s`outputLocs, s`currentDiskBytes, s.pool`counts, s.pool.pages.Values
    ensures Rebuilding(s, dir, old(s.index), {}, noted)
  {
    hide Noting, Rebuilt, Resolved, Remaining, Consistent;
    var saved := s.index;
    var todo := saved.Keys;
    noted := {};
    RebuildStarts(saved, s.files, dir.Keys, s.pool.pageBytes);
    NothingCounted(saved, dir.Keys, s.pool.pageBytes, s.pool.classes);
    hide Rebuilding, CountsPlain;
    while todo != {}
      invariant todo <= saved.Keys && Rebuilding(s, dir, saved, todo, noted)
      decreases |todo|
    {
      var a :| a in todo;
      noted := RebuildOne(s, a, dir, saved, todo, noted);
      todo := todo - {a};
    }
  }

  lemma NotedSlots(s: Store, dir: Directory, saved: Index, noted: set<Key>)
    requires Rebuilding(s, dir, saved, {}, noted)
    ensures s.pool.Noting() && s.pool.Directory() == dir && s !in s.pool.Repr
      && s.currentDiskBytes == Total(s.outputSizes)
    ensures CountsPlain(s.pool.classes, s.pool.counts, s.index)
    ensures s.index == Resolved(saved, {}, dir.Keys, s.pool.pageBytes)
    ensures Rebuilt(s.index, s.outputRefs, Disk(s.outputSizes, s.outputLocs, map[], s.files), noted)
    ensures forall k :: s.pool.Noted(k) ==> k.slot < s.pool.Capacity(k.page.size)
    ensures forall k :: s.pool.Noted(k) <==> k in noted
  {
    hide PageCapacity, Rebuilt, CountsPlain;
    RemainingEnds(saved, dir.Keys, s.pool.pageBytes);
    hide Resolved, Remaining, Pool.Noting, Pool.Noted;
    forall k | k in noted
      ensures k.slot < s.pool.Capacity(k.page.size)
    {
      NotedInRange(saved, dir.Keys, s.pool.pageBytes, s.outputRefs, Disk(s.outputSizes, s.outputLocs, map[], s.files),
                   noted, k);
    }
  }

  lemma NotedInRange(saved: Index, names: set<PageName>, pageBytes: nat, refs: map<string, nat>, d: Disk,
                     noted: set<Key>, k: Key)
    requires Rebuilt(Resolved(saved, {}, names, pageBytes), refs, d, noted) && k in noted
    ensures k.slot < PageCapacity(pageBytes, k.page.size)
  {
    hide PageCapacity;
    var o :| o in OutputSlots(d) && OutputSlots(d)[o] == k;
    var a :| a in Users(Resolved(saved, {}, names, pageBytes), o);
  }

  lemma DirectorySizes(dir: Directory, pageBytes: nat)
    requires IsDirectory(dir, pageBytes)
    ensures forall name :: name in dir.Keys ==> 0 < name.size
  {
  }

  // ----- Saved bodies -----

  /** What is on disk for each output. */
  ghost function BodiesOnDisk(d: Disk): map<string, seq<Byte>> {
    map o | o in d.sizes ::
      if o in d.locs && SlotKey(d.sizes[o], d.locs[o]) in d.live then d.live[SlotKey(d.sizes[o], d.locs[o])]
      else if o in d.files then d.files[o]
      else []
  }

  /** No plain file is missing or truncated. */
  ghost predicate FilesWhole(index: Index, files: map<string, seq<Byte>>) {
    forall a :: a in index && index[a].loc.IsZero() ==>
      && index[a].loc == Loc(0, 0)
      && index[a].outputID in files && |files[index[a].outputID]| == StoredSize(index[a])
  }

  lemma EveryOutputHasAnEntry(index: Index, refs: map<string, nat>, o: string) returns (a: string)
    requires RefsMatch(index, refs) && o in refs
    ensures a in index && index[a].outputID == o
  {
    a :| a in Users(index, o);
  }

  /** A lost or truncated plain file is not noticed when the store opens: what was rebuilt fits what
      is on disk exactly when there is none. */
  lemma FitsUnlessFilesAreBroken(index: Index, refs: map<string, nat>, d: Disk)
    requires Rebuilt(index, refs, d, d.live.Keys)
    requires forall k :: k in d.live ==> |d.live[k]| == k.page.size
    ensures Fits(index, d, BodiesOnDisk(d)) <==> FilesWhole(index, d.files)
  {
    SlotsAreLive(d);
    if FilesWhole(index, d.files) {
      WholeFilesFit(index, refs, d);
    }
    if Fits(index, d, BodiesOnDisk(d)) {
      FittingFilesAreWhole(index, refs, d);
    }
  }

  lemma SlotsAreLive(d: Disk)
    requires d.locs.Keys <= d.sizes.Keys && OneToOne(OutputSlots(d), d.live.Keys)
    ensures forall o :: o in d.locs ==> SlotKey(d.sizes[o], d.locs[o]) in d.live
  {
    hide SlotKey;
    forall o | o in d.locs
      ensures SlotKey(d.sizes[o], d.locs[o]) in d.live
    {
      assert OutputSlots(d)[o] in d.live;
    }
  }

  lemma FittingFilesAreWhole(index: Index, refs: map<string, nat>, d: Disk)
    requires Rebuilt(index, refs, d, d.live.Keys) && Fits(index, d, BodiesOnDisk(d))
    ensures FilesWhole(index, d.files)
  {
    hide OneToOne, PoolHolds, RefsMatch, SlotKey, StoredSize;
  }

  lemma WholeFilesFit(index: Index, refs: map<string, nat>, d: Disk)
    requires Rebuilt(index, refs, d, d.live.Keys) && FilesWhole(index, d.files)
    requires forall k :: k in d.live ==> |d.live[k]| == k.page.size
    requires forall o :: o in d.locs ==> SlotKey(d.sizes[o], d.locs[o]) in d.live
    ensures Fits(index, d, BodiesOnDisk(d))
  {
    hide OneToOne, StoredSize, SlotKey, BodiesOnDisk, Holds;
    forall o | o in d.sizes
      ensures if o in d.locs then !d.locs[o].IsZero() && 0 < d.sizes[o]
              else o in d.files && |d.files[o]| == d.sizes[o]
    {
      var a := EveryOutputHasAnEntry(index, refs, o);
    }
    hide RefsMatch;
    StoredOutputsHold(d);
    EntriesFit(index, d);
  }

  ghost predicate Stored(d: Disk) {
    && d.locs.Keys <= d.sizes.Keys
    && forall o :: o in d.sizes ==>
         if o in d.locs then !d.locs[o].IsZero() && 0 < d.sizes[o] && SlotKey(d.sizes[o], d.locs[o]) in d.live
         else o in d.files && |d.files[o]| == d.sizes[o]
  }

  lemma StoredOutputsHold(d: Disk)
    requires Stored(d) && OneToOne(OutputSlots(d), d.live.Keys)
    requires forall k :: k in d.live ==> |d.live[k]| == k.page.size
    ensures Holds(d, BodiesOnDisk(d))
  {
    hide OneToOne, OutputSlots;
  }

  lemma EntriesFit(index: Index, d: Disk)
    requires Measures(index, d) && FilesWhole(index, d.files) && Holds(d, BodiesOnDisk(d))
    ensures EntriesMatch(index, BodiesOnDisk(d), d.locs)
  {
    hide StoredSize, SlotKey, OneToOne, PoolHolds, FilesHold, BodiesOnDisk;
  }

  /** Gives the store the bodies it finds on disk. */
  ghost method AdoptBodies(s: Store)
    requires s.PoolOk() && s.currentDiskBytes == Total(s.outputSizes)
    requires Rebuilt(s.index, s.outputRefs, Disk(s.outputSizes, s.outputLocs, map[], s.files), s.pool.live.Keys)
    modifies s`bodies
    ensures s.Counted() && s.PoolOk()
    ensures s.Placed() <==> FilesWhole(s.index, s.files)
    ensures s.bodies == BodiesOnDisk(s.OnDisk())
  {
    hide Pool.Valid, BodiesOnDisk, FilesWhole, RefsMatch, Holds, EntriesMatch, Rebuilt;
    RecordsAreWhole(s.pool);
    RebuiltOnDisk(s.index, s.outputRefs, s.outputSizes, s.outputLocs, s.files, s.pool.live);
    FitsUnlessFilesAreBroken(s.index, s.outputRefs, s.OnDisk());
    s.bodies := BodiesOnDisk(s.OnDisk());
  }

  lemma RebuiltOnDisk(index: Index, refs: map<string, nat>, sizes: map<string, int>, locs: map<string, Loc>,
                      files: map<string, seq<Byte>>, live: map<Key, seq<Byte>>)
    requires Rebuilt(index, refs, Disk(sizes, locs, map[], files), live.Keys)
    ensures Rebuilt(index, refs, Disk(sizes, locs, live, files), live.Keys)
    ensures RefsMatch(index, refs) && refs.Keys == sizes.Keys
  {
    hide RefsMatch, OneToOne, SlotKey;
    assert OutputSlots(Disk(sizes, locs, map[], files)) == OutputSlots(Disk(sizes, locs, live, files));
  }

  // ----- Opening a store -----

  datatype Config = Config(compress: bool, zstd: Zstd, poolDisabled: bool, maxDiskBytes: int, maxFileBytes: int)

  function WithinLimit(saved: Index, maxFileBytes: int): Index {
    if maxFileBytes > 0 then map a | a in saved && saved[a].size <= maxFileBytes :: saved[a] else saved
  }

  /** Every file is that of some plain entry within the limit: entries over it are dropped, and their
      files are not. */
  ghost predicate FilesClaimed(saved: Index, files: map<string, seq<Byte>>, maxFileBytes: int) {
    forall o :: o in files ==>
      exists a :: a in saved && saved[a].outputID == o && saved[a].loc.IsZero()
        && !(maxFileBytes > 0 && saved[a].size > maxFileBytes)
  }

  lemma StraysAreUnclaimed(saved: Index, maxFileBytes: int, names: set<PageName>, refs: map<string, nat>, d: Disk,
                           noted: set<Key>)
    requires Rebuilt(Resolved(WithinLimit(saved, maxFileBytes), {}, names, PAGE_BYTES), refs, d, noted)
    ensures NoStrays(d) <==> FilesClaimed(saved, d.files, maxFileBytes)
  {
    hide OneToOne, Measured, StoredSize, PageCapacity;
    var index := Resolved(WithinLimit(saved, maxFileBytes), {}, names, PAGE_BYTES);
    forall o | NoStrays(d) && o in d.files
      ensures exists a :: a in saved && saved[a].outputID == o && saved[a].loc.IsZero()
                && !(maxFileBytes > 0 && saved[a].size > maxFileBytes)
    {
      var a := EveryOutputHasAnEntry(index, refs, o);
      assert a in saved && saved[a] == index[a];
    }
    forall o | FilesClaimed(saved, d.files, maxFileBytes) && o in d.files
      ensures o in d.sizes && o !in d.locs
    {
      var a :| a in saved && saved[a].outputID == o && saved[a].loc.IsZero()
        && !(maxFileBytes > 0 && saved[a].size > maxFileBytes);
      assert a in index;
    }
  }

  method Load(config: Config, saved: Index, dir: Directory, files: map<string, seq<Byte>>) returns (s: Store)
    requires IsDirectory(dir, PAGE_BYTES) && Consistent(WithinLimit(saved, config.maxFileBytes))
    ensures fresh(s) && fresh(s.pool) && fresh(s.pool.Repr - dir.Values) && s.pool.pageBytes == PAGE_BYTES
    ensures s.maxDiskBytes == config.maxDiskBytes && s.maxFileBytes == config.maxFileBytes
    ensures s.Counted() && s.PoolOk() && s.pool.Directory() == dir && s.files == files
    ensures s.Valid() <==> FilesWhole(s.index, files)
    ensures s.index == Resolved(WithinLimit(saved, config.maxFileBytes), {}, dir.Keys, PAGE_BYTES)
    ensures Rebuilt(s.index, s.outputRefs, s.OnDisk(), s.pool.live.Keys) && s.bodies == BodiesOnDisk(s.OnDisk())
    ensures CountsPlain(s.pool.classes, s.pool.counts, s.index)
    ensures NoStrays(s.OnDisk()) <==> FilesClaimed(saved, files, config.maxFileBytes)
  {
    hide CountsPlain, FilesClaimed, NoStrays;
    hide Pool.Valid, BodiesOnDisk, FilesWhole, RefsMatch, Rebuilt, Consistent, Resolved, Pool.Noting, Pool.Directory,
      IsDirectory;
    hide WithinLimit, Fits, Holds, EntriesMatch;
    var pool := new Pool(MAX_RECORD_BYTES, PAGE_BYTES);
    var index := WithinLimit(saved, config.maxFileBytes);
    s := new Store(config.compress, config.zstd, config.poolDisabled, config.maxDiskBytes, config.maxFileBytes, pool,
                   index, files);
    RebuildStorageState(s, dir);
    RebuiltOnDisk(s.index, s.outputRefs, s.outputSizes, s.outputLocs, s.files, s.pool.live);
    StillWithinLimit(saved, config.maxFileBytes, dir.Keys);
    StraysAreUnclaimed(saved, config.maxFileBytes, dir.Keys, s.outputRefs, s.OnDisk(), s.pool.live.Keys);
    AdoptBodies(s);
  }

  /** Opened with a lower limit, a store forgets a plain entry and keeps its file. */
  method LoweredLimitStrays(config: Config, body: seq<Byte>) returns (s: Store)
    requires 0 < config.maxFileBytes < |body|
    ensures s.Valid() && s.index == map[] && s.files == map["x" := body] && !NoStrays(s.OnDisk())
  {
    hide Store.Valid, Pool.Valid, Rebuilt, Pool.Directory, NoStrays, CountsPlain;
    var ie := Entry("x", |body|, 0, false, 0, 0, Loc(0, 0));
    var files := map["x" := body];
    assert "x" in files;
    s := Load(config, map["a" := ie], map[], files);
  }

  lemma StillWithinLimit(saved: Index, maxFileBytes: int, names: set<PageName>)
    ensures var index := Resolved(WithinLimit(saved, maxFileBytes), {}, names, PAGE_BYTES);
            forall a :: a in index ==> !(maxFileBytes > 0 && index[a].size > maxFileBytes)
  {
    hide Found;
  }

  // ----- Restart equivalence -----

  /** Every entry of a valid store is found again. */
  lemma NothingIsLost(s: Store)
    requires s.Valid() && s.pool.pageBytes == PAGE_BYTES
    ensures WithinLimit(s.index, s.maxFileBytes) == s.index && Consistent(s.index) && FilesWhole(s.index, s.files)
    ensures Resolved(s.index, {}, s.pool.Directory().Keys, PAGE_BYTES) == s.index
  {
    hide Pool.Valid, Pool.Directory, PageCapacity, RefsMatch;
    PoolLeavesDirectory(s.pool);
    SavedIsConsistent(s.index, s.OnDisk(), s.bodies);
    SavedIsFound(s.index, s.OnDisk(), s.bodies);
  }

  lemma SavedIsConsistent(index: Index, d: Disk, bodies: map<string, seq<Byte>>)
    requires Fits(index, d, bodies)
    ensures Consistent(index) && FilesWhole(index, d.files)
  {
    hide StoredSize, SlotKey;
    forall a, b | a in index && b in index && !index[a].loc.IsZero() && !index[b].loc.IsZero()
      ensures index[a].outputID == index[b].outputID || SlotOf(index[a]) != SlotOf(index[b])
    {
      if index[a].outputID != index[b].outputID {
        assert OutputSlots(d)[index[a].outputID] != OutputSlots(d)[index[b].outputID];
      }
    }
    hide OneToOne;
  }

  lemma SavedIsFound(index: Index, d: Disk, bodies: map<string, seq<Byte>>)
    requires Fits(index, d, bodies)
    ensures forall a :: a in index && !index[a].loc.IsZero() ==> 0 <= StoredSize(index[a]) && SlotOf(index[a]) in d.live
  {
    hide OneToOne, StoredSize;
  }

  /** What is rebuilt from an index is what the store had kept for it. */
  lemma RebuiltIsTheSame(index: Index, refs: map<string, nat>, d: Disk, bodies: map<string, seq<Byte>>,
                         refsNow: map<string, nat>, now: Disk)
    requires RefsMatch(index, refs) && refs.Keys == d.sizes.Keys && Fits(index, d, bodies)
    requires Rebuilt(index, refsNow, now, now.live.Keys) && now.files == d.files
    ensures refsNow == refs && now.sizes == d.sizes && now.locs == d.locs && now.live.Keys == d.live.Keys
  {
    hide OneToOne, Measures, EntriesMatch, PoolHolds, FilesHold, SlotKey, RefsMatch, OutputSlots;
    RefsDetermined(index, refs, refsNow);
    SizedKeys(index, d, bodies, refsNow, now);
    forall o | o in refs
      ensures now.sizes[o] == d.sizes[o] && (o in now.locs <==> o in d.locs)
        && (o in d.locs ==> now.locs[o] == d.locs[o])
    {
      var a := EveryOutputHasAnEntry(index, refs, o);
      EntryAgrees(index, d, bodies, now, a);
    }
    assert now.locs.Keys == d.locs.Keys;
    SameSlots(d, now);
    SlotsDetermined(OutputSlots(d), d.live.Keys, now.live.Keys);
  }

  lemma SizedKeys(index: Index, d: Disk, bodies: map<string, seq<Byte>>, refs: map<string, nat>, now: Disk)
    requires Fits(index, d, bodies) && Rebuilt(index, refs, now, now.live.Keys)
    ensures d.locs.Keys <= d.sizes.Keys && now.locs.Keys <= now.sizes.Keys && now.sizes.Keys == refs.Keys
  {
    hide OneToOne, EntriesMatch, PoolHolds, FilesHold, RefsMatch;
  }

  lemma SameSlots(a: Disk, b: Disk)
    requires a.sizes == b.sizes && a.locs == b.locs
    ensures OutputSlots(a) == OutputSlots(b)
  {
    hide SlotKey;
  }

  lemma EntryAgrees(index: Index, d: Disk, bodies: map<string, seq<Byte>>, now: Disk, a: string)
    requires Fits(index, d, bodies) && Measures(index, now) && now.files == d.files && a in index
    ensures var o := index[a].outputID;
            && o in now.sizes && o in d.sizes && now.sizes[o] == d.sizes[o]
            && (o in now.locs <==> o in d.locs) && (o in d.locs ==> now.locs[o] == d.locs[o])
  {
    hide OneToOne, SlotKey;
  }

  lemma RefsDetermined(index: Index, a: map<string, nat>, b: map<string, nat>)
    requires RefsMatch(index, a) && RefsMatch(index, b)
    ensures a == b
  {
    forall o
      ensures o in a <==> o in b
    {
      if o in a {
        var x := EveryOutputHasAnEntry(index, a, o);
      }
      if o in b {
        var x := EveryOutputHasAnEntry(index, b, o);
      }
    }
  }

  lemma SlotsDetermined(slots: map<string, Key>, a: set<Key>, b: set<Key>)
    requires OneToOne(slots, a) && OneToOne(slots, b)
    ensures a == b
  {
  }

  lemma BodiesAreSaved(d: Disk, bodies: map<string, seq<Byte>>)
    requires Holds(d, bodies)
    ensures BodiesOnDisk(d) == bodies
  {
    hide OneToOne;
  }

  /** Saving the index, stopping, and opening again changes nothing. */
  method Restart(prev: Store, config: Config) returns (s: Store)
    requires prev.Valid() && prev.pool.pageBytes == PAGE_BYTES && config.maxFileBytes == prev.maxFileBytes
    ensures s.Valid() && s.index == prev.index && s.bodies == prev.bodies && s.currentDiskBytes == prev.currentDiskBytes
    ensures CountsPlain(s.pool.classes, s.pool.counts, s.index)
    ensures s.outputRefs == prev.outputRefs && s.OnDisk() == prev.OnDisk() && s.pool.pages.Keys == prev.pool.pages.Keys
    ensures forall name :: name in s.pool.pages ==>
      && (forall slot :: slot in s.pool.pages[name].free <==> slot in prev.pool.pages[name].free)
      && |s.pool.pages[name].free| == |prev.pool.pages[name].free|
  {
    hide Pool.Valid, BodiesOnDisk, FilesWhole, RefsMatch, Rebuilt, Consistent, Resolved, Pool.Directory, IsDirectory,
      WithinLimit;
    hide Holds, EntriesMatch, CountsPlain;
    PoolLeavesDirectory(prev.pool);
    NothingIsLost(prev);
    s := Load(config, prev.index, prev.pool.Directory(), prev.files);
    RebuiltIsTheSame(prev.index, prev.outputRefs, prev.OnDisk(), prev.bodies, s.outputRefs, s.OnDisk());
    SameFilesSameBytes(s.pool, prev.pool);
    BodiesAreSaved(prev.OnDisk(), prev.bodies);
    forall name | name in s.pool.pages
      ensures forall slot :: slot in s.pool.pages[name].free <==> slot in prev.pool.pages[name].free
      ensures |s.pool.pages[name].free| == |prev.pool.pages[name].free|
    {
      SameFreeSlots(s.pool, prev.pool, name);
    }
  }
}
