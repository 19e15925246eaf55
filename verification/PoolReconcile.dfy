/** Restarting a pool: what its callers note from a persisted index, over the page files it left. */
module PoolReconcile {
  import opened Common
  import opened RecordPool

  type Directory = map<PageName, array<Byte>>

  /** A persisted location still names a slot of a page file; the zero location always resolves. */
  predicate Resolving(size: int, loc: Loc, names: set<PageName>, pageBytes: nat) {
    loc.IsZero() || (0 <= size && PageName(size, loc.page) in names && loc.slot < PageCapacity(pageBytes, size))
  }

  /** A pool that has opened exactly this directory, before its free lists are derived. */
  ghost predicate Discovered(pool: Pool, dir: Directory)
    reads pool, pool.Repr
  {
    pool.Noting() && pool.Directory() == dir
  }

  /** A pool that has opened exactly this directory, and which slots it has been told are occupied. */
  ghost predicate Noting(pool: Pool, dir: Directory, noted: set<Key>)
    reads pool, pool.Repr
  {
    Discovered(pool, dir) && forall k :: pool.Noted(k) <==> k in noted
  }

  lemma ResolvesAsPersisted(pool: Pool, dir: Directory, size: int, loc: Loc)
    requires Discovered(pool, dir)
    ensures pool.Resolves(size, loc) <==> Resolving(size, loc, dir.Keys, pool.pageBytes)
  {
    hide PageCapacity;
    assert pool.pages.Keys == dir.Keys;
  }

  lemma NothingNotedYet(pool: Pool, dir: Directory)
    requires pool.Noting() && pool.Opened(dir, dir.Keys)
    ensures Noting(pool, dir, {})
    ensures forall name :: name in pool.pages ==> pool.pages[name] in pool.Repr - dir.Values
  {
    hide PageCapacity;
  }

  lemma RecordsAreWhole(pool: Pool)
    requires pool.Valid()
    ensures forall k :: k in pool.live ==> |pool.live[k]| == k.page.size
  {
    hide Pool.Valid, PageCapacity;
    forall k | k in pool.live
      ensures |pool.live[k]| == k.page.size
    {
      LiveIsOnDisk(pool, k);
      SlotInPage(pool, k);
      RecordFits(k.slot, k.page.size, pool.Capacity(k.page.size));
    }
  }

  lemma SlotInPage(pool: Pool, k: Key)
    requires pool.Valid() && k in pool.live
    ensures k.page in pool.pages && k.slot < pool.Capacity(k.page.size)
    ensures pool.pages[k.page].file.Length == pool.Capacity(k.page.size) * k.page.size
  {
    hide PageCapacity;
    assert pool.pages[k.page].Valid();
  }

  /** The promotion counters once one more record is known to be outside the pool. */
  function CountsAfter(classes: map<nat, SizeClass>, counts: map<int, nat>, size: int, loc: Loc): map<int, nat> {
    if loc.IsZero() && size !in classes then counts[size := 1 + if size in counts then counts[size] else 0] else counts
  }

  /** Tells the pool about one surviving entry. */
  method Note(pool: Pool, size: int, loc: Loc, ghost dir: Directory, ghost noted: set<Key>)
    returns (ghost now: set<Key>)
    requires Noting(pool, dir, noted) && pool.Resolves(size, loc)
    modifies pool`counts, pool.pages.Values
    ensures Noting(pool, dir, now)
    ensures loc.IsZero() ==> now == noted
    ensures !loc.IsZero() ==> 0 <= size && now == noted + {KeyOf(size, loc)}
    ensures pool.counts == CountsAfter(pool.classes, old(pool.counts), size, loc)
  {
    hide PageCapacity;
    now := noted;
    if loc.IsZero() {
      pool.NoteUnpromoted(size);
    } else {
      pool.NoteOccupied(size, loc);
      now := noted + {KeyOf(size, loc)};
    }
  }

  lemma PoolLeavesDirectory(pool: Pool)
    requires pool.Valid()
    ensures IsDirectory(pool.Directory(), pool.pageBytes)
    ensures pool.Directory().Keys == pool.pages.Keys
    ensures forall k :: k in pool.live ==>
      k.page in pool.pages && k.slot < PageCapacity(pool.pageBytes, k.page.size)
  {
    hide PageCapacity;
    forall k | k in pool.live
      ensures k.page in pool.pages && k.slot < PageCapacity(pool.pageBytes, k.page.size)
    {
      assert pool.pages[k.page].Valid();
    }
  }

  /** Pools over the same files with the same occupied slots hold the same bytes. */
  lemma SameFilesSameBytes(a: Pool, b: Pool)
    requires a.Valid() && b.Valid() && a.Directory() == b.Directory() && a.live.Keys == b.live.Keys
    ensures a.live == b.live && a.pages.Keys == b.pages.Keys
  {
    hide Pool.Valid;
    forall k | k in a.live
      ensures a.live[k] == b.live[k]
    {
      LiveIsOnDisk(a, k);
      LiveIsOnDisk(b, k);
      assert a.Directory()[k.page] == b.Directory()[k.page];
    }
    assert a.pages.Keys == a.Directory().Keys && b.pages.Keys == b.Directory().Keys;
  }

  /** ... and the same slots free, though not stacked in the same order. */
  lemma SameFreeSlots(a: Pool, b: Pool, name: PageName)
    requires a.Valid() && b.Valid() && a.live.Keys == b.live.Keys && a.pageBytes == b.pageBytes
    requires name in a.pages && name in b.pages
    ensures forall slot :: slot in a.pages[name].free <==> slot in b.pages[name].free
    ensures |a.pages[name].free| == |b.pages[name].free|
  {
    hide PageCapacity;
    SameElementsSameLength(a.pages[name].free, b.pages[name].free);
  }

  lemma SameElementsSameLength(a: seq<nat>, b: seq<nat>)
    requires NoDup(a) && NoDup(b) && forall x: nat :: x in a <==> x in b
    ensures |a| == |b|
  {
    NoDupCount(a);
    NoDupCount(b);
    assert Elements(a) == Elements(b);
  }

  // ----- Locations that outlive their records -----

  /** Of a page of two slots with one record, a record is put into the other slot. */
  lemma OtherSlot(pool: Pool, kept: Loc, size: nat, page: PageName)
    requires pool.Valid() && pool.Capacity(size) == 2 && page == PageName(size, kept.page)
    requires KeyOf(size, kept) in pool.live
    requires forall k :: k in pool.live && k.page == page ==> k == KeyOf(size, kept)
    ensures page in pool.pages && kept.slot < 2
    ensures !pool.Full(page)
  {
    hide Pool.Valid, PageCapacity;
    SlotInPage(pool, KeyOf(size, kept));
    var other: nat := if kept.slot == 0 then 1 else 0;
    assert Key(page, other) !in pool.live;
  }

  /** Stores a record beside the only one of its size. */
  method PutBeside(pool: Pool, kept: Loc, size: nat, body: seq<Byte>) returns (r: PutResult)
    requires pool.Valid() && 0 < size <= pool.maxRecordBytes && |body| == size && size in pool.classes
    requires pool.Capacity(size) == 2 && KeyOf(size, kept) in pool.live
    requires pool.live.Keys == {KeyOf(size, kept)} && forall name :: name in pool.pages ==> name.page == kept.page
    modifies pool, pool.Repr
    ensures pool.Valid() && fresh(pool.Repr - old(pool.Repr)) && size in pool.classes
    ensures r == Stored(Loc(kept.page, 1 - kept.slot)) && kept.slot < 2
    ensures pool.live == old(pool.live)[KeyOf(size, r.loc) := body] && pool.pages.Keys == old(pool.pages.Keys)
  {
    hide Pool.Valid, PageCapacity;
    OtherSlot(pool, kept, size, PageName(size, kept.page));
    r := pool.Put(size, body, NoFault);
    SlotInPage(pool, KeyOf(size, r.loc));
  }

  /** A location taken from a snapshot, whose record is freed and its slot used again before it is read:
      the read yields the other record. */
  method FreedLocationServesAnother(x: seq<Byte>, a: seq<Byte>, b: seq<Byte>) returns (read: Option<seq<Byte>>)
    requires |x| == 4096 && |a| == 4096 && |b| == 4096
    ensures read == Some(b)
  {
    hide Pool.Valid;
    var pool := EmptyPool();
    assert pool.Capacity(4096) == 2;
    hide PageCapacity;
    var first := pool.Put(4096, x, NoFault);
    var kept := pool.Put(4096, x, NoFault);
    var snapshot := PutBeside(pool, kept.loc, 4096, a);
    pool.Free(4096, snapshot.loc);
    assert pool.live.Keys == {KeyOf(4096, kept.loc)};
    assert KeyOf(4096, kept.loc).page == PageName(4096, snapshot.loc.page);
    var reused := PutBeside(pool, kept.loc, 4096, b);
    read := pool.Read(4096, snapshot.loc);
  }
}
