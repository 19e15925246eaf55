/** The record pool: a slab allocator that packs same-size records into fixed-length page files.
    `live` is what the pool means to its callers: the bytes of every occupied slot. */
module RecordPool {
  import opened Common

  datatype Loc = Loc(page: nat, slot: nat) {
    predicate IsZero() {
      page == 0
    }
  }

  /** records.<size>.p<page>.bin */
  datatype PageName = PageName(size: nat, page: nat)

  /** A record's address: its page file and its slot there. */
  datatype Key = Key(page: PageName, slot: nat)

  function KeyOf(size: nat, loc: Loc): Key {
    Key(PageName(size, loc.page), loc.slot)
  }

  /** How the file system fails a `Put`: not at all, while creating a page, or after writing only
      `wrote` bytes of the record. */
  datatype Fault = NoFault | CreateFails | WriteFails(wrote: nat)

  datatype PutResult = Stored(loc: Loc) | NotPromoted | Failed

  /** The bytes of one slot: a page file has no header, so slot `k` starts at `k * size`. */
  function Record(file: seq<Byte>, k: nat, size: nat): seq<Byte> {
    if k * size + size <= |file| then file[k * size..k * size + size] else []
  }

  lemma {:induction false} TimesGrows(a: nat, b: nat, size: nat)
    requires a <= b
    ensures a * size <= b * size
    decreases b - a
  {
    if a < b {
      TimesGrows(a, b - 1, size);
      assert (b - 1) * size + size == b * size;
    }
  }

  lemma RecordFits(k: nat, size: nat, capacity: nat)
    requires k < capacity
    ensures k * size + size <= capacity * size
  {
    TimesGrows(k + 1, capacity, size);
  }

  lemma RecordsDisjoint(j: nat, k: nat, size: nat)
    requires j < k
    ensures j * size + size <= k * size
  {
    TimesGrows(j + 1, k, size);
  }

  /** Writing inside one slot changes no other slot. */
  lemma WriteStaysInSlot(before: seq<Byte>, after: seq<Byte>, k: nat, size: nat, j: nat)
    requires |before| == |after| && j != k
    requires forall i :: 0 <= i < |before| && !(k * size <= i < k * size + size) ==> after[i] == before[i]
    ensures Record(after, j, size) == Record(before, j, size)
  {
    if j < k {
      RecordsDisjoint(j, k, size);
    } else {
      RecordsDisjoint(k, j, size);
    }
  }

  lemma RecordsStay(before: seq<Byte>, after: seq<Byte>, k: nat, size: nat)
    requires |before| == |after|
    requires forall i :: 0 <= i < |before| && !(k * size <= i < k * size + size) ==> after[i] == before[i]
    ensures forall j: nat :: j != k ==> Record(after, j, size) == Record(before, j, size)
  {
    forall j: nat | j != k
      ensures Record(after, j, size) == Record(before, j, size)
    {
      WriteStaysInSlot(before, after, k, size, j);
    }
  }

  /** The stack is duplicate-free and lists exactly the slots that are not live. */
  ghost predicate IsComplement(free: seq<nat>, live: set<nat>, capacity: nat) {
    && NoDup(free)
    && (forall k :: k in free ==> k < capacity && k !in live)
    && (forall k: nat :: k < capacity && k !in live ==> k in free)
  }

  function Slots(n: nat): (r: seq<nat>)
    ensures |r| == n && IsComplement(r, {}, n)
  {
    if n == 0 then []
    else
      var r := Slots(n - 1);
      assert forall i :: 0 <= i < n - 1 ==> r[i] in r;
      r + [n - 1]
  }

  lemma PopComplement(free: seq<nat>, live: set<nat>, capacity: nat)
    requires IsComplement(free, live, capacity) && free != []
    ensures var top := free[|free| - 1];
            top < capacity && top !in live && IsComplement(free[..|free| - 1], live + {top}, capacity)
  {
    var top, rest := free[|free| - 1], free[..|free| - 1];
    assert top in free && free == rest + [top];
    forall k | k in rest
      ensures k in free && k != top
    {
      var i :| 0 <= i < |rest| && rest[i] == k;
      assert free[i] == k;
    }
    forall k: nat | k < capacity && k !in live + {top}
      ensures k in rest
    {
      assert k in rest + [top];
    }
  }

  lemma PushComplement(free: seq<nat>, live: set<nat>, capacity: nat, slot: nat)
    requires IsComplement(free, live, capacity) && slot in live
    requires forall k :: k in live ==> k < capacity
    ensures IsComplement(free + [slot], live - {slot}, capacity)
    ensures capacity <= |free| + 1 <==> live == {slot}
  {
    if capacity <= |free| + 1 {
      AllSlotsListed(free + [slot], capacity);
      forall k | k in live
        ensures k == slot
      {
        assert k in free + [slot];
      }
    } else {
      SomeSlotUnlisted(free + [slot], capacity);
      var k: nat :| k < capacity && k !in free + [slot];
      assert k !in free && k in live;
    }
  }

  /** A slot that is freed although it is not live is on the stack twice, so that two later records share
      it; and the page, which counts as empty once its stack is full, goes under its last live record. */
  lemma FreedTwice(free: seq<nat>, live: set<nat>, capacity: nat, slot: nat)
    requires IsComplement(free, live, capacity) && slot < capacity && slot !in live
    requires forall k :: k in live ==> k < capacity
    ensures !NoDup(free + [slot])
    ensures capacity <= |free| + 1 <==> |live| <= 1
  {
    var i :| 0 <= i < |free| && free[i] == slot;
    assert (free + [slot])[i] == (free + [slot])[|free|];
    NoDupCount(free);
    assert Elements(free) + live == Below(capacity) && Elements(free) * live == {};
    assert |free| + |live| == capacity;
  }

  /** A list shorter than `n` leaves out some slot below `n`. */
  lemma SomeSlotUnlisted(s: seq<nat>, n: nat)
    requires NoDup(s) && |s| < n
    ensures exists k: nat :: k < n && k !in s
  {
    NoDupCount(s);
    if forall k: nat :: k < n ==> k in s {
      SubsetCount(Below(n), Elements(s));
    }
  }

  /** One page file and the stack of its free slots. */
  class Page {
    const file: array<Byte>
    ghost const size: nat
    ghost const capacity: nat
    var free: seq<nat>
    ghost var live: map<nat, seq<Byte>>

    ghost predicate Sound()
      reads this, file
    {
      && file.Length == capacity * size
      && forall k :: k in live ==> k < capacity && live[k] == Record(file[..], k, size)
    }

    /** The free stack is duplicate-free and is exactly the complement of the live slots. */
    ghost predicate Valid()
      reads this, file
    {
      && Sound()
      && IsComplement(free, live.Keys, capacity)
    }

    /** Exactly the noted slots are live. */
    ghost predicate Finished(noted: seq<nat>)
      reads this, file
    {
      Valid() && forall k :: k in live <==> k in noted
    }

    /** A new page file: zeroes, every slot free. */
    constructor Create(size: nat, capacity: nat)
      requires 0 < capacity
      ensures Valid() && fresh(file) && this.size == size && this.capacity == capacity
      ensures live == map[] && free != []
    {
      file := new Byte[capacity * size](_ => 0);
      this.size, this.capacity := size, capacity;
      free, live := Slots(capacity), map[];
    }

    /** An existing page file; `free` collects its occupied slots until `Finish`. */
    constructor Open(file: array<Byte>, size: nat, capacity: nat)
      ensures this.file == file && this.size == size && this.capacity == capacity
      ensures free == [] && live == map[]
    {
      this.file, this.size, this.capacity := file, size, capacity;
      free, live := [], map[];
    }

    /** Inverts the noted slots into the free stack. */
    method Finish(n: nat)
      requires n == capacity && file.Length == capacity * size
      requires forall k :: k in free ==> k < capacity
      modifies this
      ensures Valid()
      ensures forall k :: k in live <==> k in old(free)
    {
      var occupied := set k | k in free;
      var slot := 0;
      free := [];
      while slot < n
        invariant slot <= n && NoDup(free)
        invariant forall k: nat :: k in free <==> k < slot && k !in occupied
      {
        if slot !in occupied {
          free := free + [slot];
        }
        slot := slot + 1;
      }
      live := map k | k in occupied :: Record(file[..], k, size);
    }

    /** What the slot holds until it is written is whatever bytes are there. */
    method Pop() returns (slot: nat)
      requires Valid() && free != []
      modifies this
      ensures Valid()
      ensures slot < capacity && slot !in old(live)
      ensures slot in live && live == old(live)[slot := live[slot]]
    {
      slot := free[|free| - 1];
      PopComplement(free, live.Keys, capacity);
      free := free[..|free| - 1];
      live := live[slot := Record(file[..], slot, size)];
    }

    method Push(slot: nat)
      requires Valid() && slot in live
      modifies this
      ensures Valid()
      ensures live == old(live) - {slot}
      ensures |free| >= capacity <==> live.Keys == {}
    {
      PushComplement(free, live.Keys, capacity, slot);
      free := free + [slot];
      live := live - {slot};
      assert live.Keys == old(live.Keys) - {slot};
      assert old(live.Keys) == live.Keys + {slot};
    }

    /** Writes the first `n` bytes of a record. */
    method WriteAt(body: seq<Byte>, slot: nat, n: nat)
      requires Valid() && slot in live
      requires |body| == size && n <= size
      modifies file, this`live
      ensures Valid()
      ensures slot in live && live == old(live)[slot := live[slot]]
      ensures n == size ==> live[slot] == body
    {
      RecordFits(slot, size, capacity);
      WriteBytes(body, slot * |body|, n);
      live := live[slot := Record(file[..], slot, size)];
      RecordsStay(old(file[..]), file[..], slot, size);
      hide Record, IsComplement;
    }

    method WriteBytes(body: seq<Byte>, base: nat, n: nat)
      requires n <= |body| && base + |body| <= file.Length
      modifies file
      ensures forall i :: 0 <= i < file.Length && !(base <= i < base + n) ==> file[i] == old(file[i])
      ensures n == |body| ==> file[base..base + n] == body
    {
      forall i | 0 <= i < n {
        file[base + i] := body[i];
      }
    }

    method ReadAt(slot: nat, size: nat) returns (body: Option<seq<Byte>>)
      requires Sound() && size == this.size && 0 < size
      ensures slot in live ==> body == Some(live[slot])
      ensures body.Some? <==> slot < capacity
    {
      if slot < capacity {
        RecordFits(slot, size, capacity);
      } else {
        RecordBeyond(slot, size, capacity);
      }
      if slot * size + size <= file.Length {
        return Some(file[slot * size..slot * size + size]);
      }
      return None;
    }
  }

  lemma RecordBeyond(k: nat, size: nat, capacity: nat)
    requires capacity <= k && 0 < size
    ensures capacity * size < k * size + size
  {
    TimesGrows(capacity, k, size);
  }

  /** How many whole records of a size fit in a page. */
  function PageCapacity(pageBytes: nat, size: nat): nat {
    if size == 0 then 0 else pageBytes / size
  }

  lemma CapacityPositive(pageBytes: nat, size: nat)
    requires 0 < size <= pageBytes
    ensures 0 < PageCapacity(pageBytes, size)
  {
    assert size / size <= pageBytes / size;
  }

  lemma CapacityFills(pageBytes: nat, size: nat)
    requires 0 < size
    ensures PageCapacity(pageBytes, size) * size <= pageBytes < PageCapacity(pageBytes, size) * size + size
  {
  }

  /** The live slots of a page. */
  ghost function RecordsOf(live: map<Key, seq<Byte>>, name: PageName): set<Key> {
    set k | k in live && k.page == name
  }

  lemma {:induction false} SlotsCounted(keys: set<Key>, name: PageName, n: nat)
    requires forall slot: nat :: slot < n ==> Key(name, slot) in keys
    ensures n <= |keys|
  {
    if n != 0 {
      SlotsCounted(keys - {Key(name, n - 1)}, name, n - 1);
    }
  }

  /** A promoted size. `nextPage` is the highest page number handed out so far. */
  datatype SizeClass = SizeClass(capacity: nat, nextPage: nat)

  class Pool {
    const maxRecordBytes: nat
    const pageBytes: nat
    const breakeven: nat
    var classes: map<nat, SizeClass>
    var counts: map<int, nat>
    var pages: map<PageName, Page>
    ghost var live: map<Key, seq<Byte>>
    ghost var Repr: set<object>

    ghost predicate ClassesOk()
      reads this`classes, this`counts, this`pages
    {
      && 0 < maxRecordBytes <= pageBytes
      && (forall s :: s in classes ==> s !in counts && 0 < s <= pageBytes && classes[s].capacity == Capacity(s))
      && (forall name :: name in pages ==> name.size in classes && 1 <= name.page <= classes[name.size].nextPage)
    }

    /** Every page has its own file, of the full length. */
    ghost predicate PagesShape()
      reads this`pages, this`Repr
    {
      && this !in Repr
      && (forall name :: name in pages ==>
            && pages[name] in Repr && pages[name].file in Repr
            && pages[name].size == name.size
            && pages[name].capacity == Capacity(name.size)
            && pages[name].file.Length == pages[name].capacity * pages[name].size)
      && (forall a, b :: a in pages && b in pages && a != b ==> pages[a] != pages[b] && pages[a].file != pages[b].file)
    }

    ghost predicate PagesOk()
      reads this`pages, this`Repr, Repr
    {
      PagesShape() && forall name :: name in pages ==> pages[name].Valid()
    }

    ghost predicate LiveOk()
      requires PagesOk()
      reads this`pages, this`Repr, Repr, this`live
    {
      && (forall k :: k in live ==>
          k.page in pages && k.slot in pages[k.page].live && live[k] == pages[k.page].live[k.slot])
      && (forall name, slot :: name in pages && slot in pages[name].live ==> Key(name, slot) in live)
    }

    ghost predicate Valid()
      reads this, Repr
      ensures Valid() ==> this !in Repr
    {
      ClassesOk() && PagesOk() && LiveOk()
    }

    function Capacity(size: nat): nat {
      PageCapacity(pageBytes, size)
    }

    function Count(size: int): nat
      reads this`counts
    {
      if size in counts then counts[size] else 0
    }

    predicate Eligible(size: int, body: seq<Byte>) {
      0 < size <= maxRecordBytes && |body| == size
    }

    /** Every slot of that page is live. */
    ghost predicate Full(name: PageName)
      reads this
    {
      forall slot: nat :: slot < Capacity(name.size) ==> Key(name, slot) in live
    }

    /** Every page file is as long as whole records can make it. */
    lemma PagesArePacked()
      requires Valid()
      ensures forall name :: name in pages ==>
        pages[name].file.Length <= pageBytes < pages[name].file.Length + name.size
    {
      hide Page.Valid, LiveOk, PageCapacity;
      forall name | name in pages
        ensures pages[name].file.Length <= pageBytes < pages[name].file.Length + name.size
      {
        CapacityFills(pageBytes, name.size);
      }
    }

    /** No other record fits in a full page. */
    lemma FullIsPacked(size: nat)
      requires 0 < size
      ensures forall p: nat :: Full(PageName(size, p)) ==>
        pageBytes < (|RecordsOf(live, PageName(size, p))| + 1) * size
    {
      hide PageCapacity;
      CapacityFills(pageBytes, size);
      forall p: nat | Full(PageName(size, p))
        ensures pageBytes < (|RecordsOf(live, PageName(size, p))| + 1) * size
      {
        SlotsCounted(RecordsOf(live, PageName(size, p)), PageName(size, p), Capacity(size));
        TimesGrows(Capacity(size), |RecordsOf(live, PageName(size, p))|, size);
      }
    }

    /** Stores a record in a fresh slot, unless its size has not earned a class yet. */
    method Put(size: int, body: seq<Byte>, fault: Fault) returns (r: PutResult)
      requires Valid()
      modifies this, Repr
      ensures Valid() && fresh(Repr - old(Repr))
      // Contents: a fresh slot now holds the record, and nothing else changed.
      ensures r.Stored? ==> Eligible(size, body) && r.loc.page != 0
      ensures r.Stored? ==> KeyOf(size, r.loc) !in old(live) && live == old(live)[KeyOf(size, r.loc) := body]
      ensures r.Stored? ==> pages.Keys == old(pages.Keys) + {PageName(size, r.loc.page)}
      ensures !r.Stored? ==> live == old(live)
      ensures r.NotPromoted? ==> pages == old(pages)
      ensures r.Failed? ==> fault != NoFault
      // Promotion: a size gets its class, hence its first page, only at break-even.
      ensures r.NotPromoted? <==> !Eligible(size, body) || (size !in old(classes) && old(Count(size)) + 1 < breakeven)
      ensures classes.Keys == old(classes.Keys) + (if r.NotPromoted? then {} else {size})
      ensures !r.NotPromoted? ==> counts == old(counts) - {size}
      ensures r.NotPromoted? ==>
        counts == if Eligible(size, body) then old(counts)[size := old(Count(size)) + 1] else old(counts)
      // Density: the oldest page with room, and a new page only when every page is full.
      ensures r.Stored? ==> forall p: nat :: PageName(size, p) in old(pages) && p < r.loc.page ==>
        old(Full(PageName(size, p))) && pageBytes < (|old(RecordsOf(live, PageName(size, p)))| + 1) * size
      ensures r.Stored? && PageName(size, r.loc.page) !in old(pages) ==>
        forall p: nat :: PageName(size, p) in old(pages) ==> p < r.loc.page
      // A page is as long as whole records can make it.
      ensures forall name :: name in pages ==>
        pages[name].file.Length <= pageBytes < pages[name].file.Length + name.size
    {
      hide PagesOk, LiveOk, Capacity, RecordsOf;
      PagesArePacked();
      if size <= 0 || size > maxRecordBytes || |body| != size {
        return NotPromoted;
      }
      FullIsPacked(size);
      if size !in classes {
        counts := counts[size := Count(size) + 1];
        if counts[size] < breakeven {
          return NotPromoted;
        }
        Promote(size);
      }
      r := Store(size, body, fault);
      PagesArePacked();
    }

    method Store(size: nat, body: seq<Byte>, fault: Fault) returns (r: PutResult)
      requires Valid() && size in classes && |body| == size
      modifies this, Repr
      ensures Valid() && fresh(Repr - old(Repr))
      ensures r.Stored? ==> r.loc.page != 0 && KeyOf(size, r.loc) !in old(live)
      ensures r.Stored? ==> live == old(live)[KeyOf(size, r.loc) := body]
      ensures r.Stored? ==> pages.Keys == old(pages.Keys) + {PageName(size, r.loc.page)}
      ensures !r.Stored? ==> r.Failed? && live == old(live) && fault != NoFault
      ensures classes.Keys == old(classes.Keys) && counts == old(counts)
      ensures r.Stored? ==> forall p: nat :: PageName(size, p) in old(pages) && p < r.loc.page ==>
        old(Full(PageName(size, p)))
      ensures r.Stored? && PageName(size, r.loc.page) !in old(pages) ==>
        forall p: nat :: PageName(size, p) in old(pages) ==> p < r.loc.page
    {
      hide PagesOk, LiveOk, ClassesOk, Capacity;
      var ok, loc := Allocate(size, fault.CreateFails?);
      if !ok {
        return Failed;
      }
      var key := KeyOf(size, loc);
      WriteRecord(key, body, if fault.WriteFails? && fault.wrote < size then fault.wrote else size);
      if fault.WriteFails? {
        FreeSlot(key);
        return Failed;
      }
      return Stored(loc);
    }

    method Promote(size: nat)
      requires Valid() && size !in classes && 0 < size <= pageBytes
      modifies this
      ensures Valid() && Repr == old(Repr)
      ensures classes == old(classes)[size := SizeClass(Capacity(size), 0)]
      ensures counts == old(counts) - {size}
      ensures live == old(live) && pages == old(pages)
    {
      hide PagesOk, LiveOk, Capacity;
      classes := classes[size := SizeClass(Capacity(size), 0)];
      counts := counts - {size};
    }

    method Allocate(size: nat, createFails: bool) returns (ok: bool, loc: Loc)
      requires Valid() && size in classes
      modifies this, Repr
      ensures Valid() && fresh(Repr - old(Repr))
      ensures classes.Keys == old(classes.Keys) && counts == old(counts)
      ensures !ok ==> createFails && live == old(live)
      ensures ok ==> loc.page != 0 && KeyOf(size, loc) !in old(live) && KeyOf(size, loc) in live
      ensures ok ==> live == old(live)[KeyOf(size, loc) := live[KeyOf(size, loc)]]
      ensures ok ==> pages.Keys == old(pages.Keys) + {PageName(size, loc.page)}
      ensures ok ==> forall p: nat :: PageName(size, p) in old(pages) && p < loc.page ==> old(Full(PageName(size, p)))
      ensures ok && PageName(size, loc.page) !in old(pages) ==>
        forall p: nat :: PageName(size, p) in old(pages) ==> p < loc.page
    {
      hide PagesOk, LiveOk, ClassesOk, Capacity;
      var n := OldestWithRoom(size);
      if n == 0 {
        if createFails {
          return false, Loc(0, 0);
        }
        n := AddPage(size);
      }
      var slot := TakeFrom(PageName(size, n));
      return true, Loc(n, slot);
    }

    /** The lowest-numbered page with a free slot, or 0. */
    method OldestWithRoom(size: nat) returns (n: nat)
      requires Valid() && size in classes
      ensures n != 0 ==>
        PageName(size, n) in pages && pages[PageName(size, n)].free != [] && pages[PageName(size, n)] in Repr
      ensures forall p: nat :: PageName(size, p) in pages && (n == 0 || p < n) ==> Full(PageName(size, p))
    {
      n := 1;
      while n <= classes[size].nextPage
        invariant 1 <= n <= classes[size].nextPage + 1
        invariant forall p: nat :: PageName(size, p) in pages && p < n ==> Full(PageName(size, p))
      {
        var name := PageName(size, n);
        if name in pages && pages[name].free != [] {
          return;
        }
        assert name in pages ==> pages[name].Valid();
        n := n + 1;
      }
      return 0;
    }

    method AddPage(size: nat) returns (n: nat)
      requires Valid() && size in classes
      modifies this
      ensures Valid() && fresh(Repr - old(Repr))
      ensures classes.Keys == old(classes.Keys) && counts == old(counts) && live == old(live)
      ensures PageName(size, n) !in old(pages) && PageName(size, n) in pages
      ensures pages == old(pages)[PageName(size, n) := pages[PageName(size, n)]]
      ensures n != 0 && forall p: nat :: PageName(size, p) in old(pages) ==> p < n
      ensures pages[PageName(size, n)].free != [] && fresh(pages[PageName(size, n)])
    {
      hide PagesOk, LiveOk, PageCapacity, IsComplement, NoDup;
      n := classes[size].nextPage + 1;
      classes := classes[size := classes[size].(nextPage := n)];
      CapacityPositive(pageBytes, size);
      var page := new Page.Create(size, classes[size].capacity);
      hide Page.Valid;
      pages := pages[PageName(size, n) := page];
      Repr := Repr + {page, page.file};
      PageAdded(PageName(size, n), page);
    }

    twostate lemma PageAdded(name: PageName, new page: Page)
      requires old(PagesOk()) && old(LiveOk()) && name !in old(pages)
      requires fresh(page) && fresh(page.file) && page.Valid() && page.live == map[]
      requires page.size == name.size && page.capacity == Capacity(name.size)
      requires pages == old(pages)[name := page] && Repr == old(Repr) + {page, page.file} && live == old(live)
      requires forall o :: o in old(Repr) ==> unchanged(o)
      ensures PagesOk() && LiveOk()
    {
      hide Page.Valid;
      PageSound(page);
      forall m | m in old(pages)
        ensures pages[m].Valid() && pages[m].live == old(pages[m].live)
      {
        assert unchanged(pages[m]) && unchanged(pages[m].file);
        assert old(pages[m].Valid());
      }
    }

    lemma PageFacts(name: PageName)
      requires PagesOk() && name in pages
      ensures pages[name] in Repr && pages[name].file in Repr && this !in Repr && pages[name].Valid()
      ensures pages[name].size == name.size && pages[name].capacity == Capacity(name.size)
    {
    }

    lemma LiveFacts(name: PageName)
      requires PagesOk() && LiveOk() && name in pages
      ensures forall slot :: Key(name, slot) in live <==> slot in pages[name].live
      ensures forall slot :: Key(name, slot) in live ==> live[Key(name, slot)] == pages[name].live[slot]
    {
    }

    /** Nothing but this page, its file and the fields of the pool itself changed. */
    twostate predicate OnlyPageChanged(name: PageName)
      requires name in pages
      reads this, Repr
    {
      && pages == old(pages) && Repr == old(Repr)
      && forall o :: o in Repr && o != pages[name] && o != pages[name].file ==> unchanged(o)
    }

    twostate lemma OtherPages(name: PageName)
      requires old(PagesOk()) && name in old(pages) && name in pages && OnlyPageChanged(name)
      requires pages[name].Valid()
      ensures PagesOk()
      ensures forall m :: m in pages && m != name ==> pages[m].live == old(pages[m].live)
    {
      hide Page.Valid;
      forall m | m in pages && m != name
        ensures pages[m].Valid() && pages[m].live == old(pages[m].live)
      {
        assert unchanged(pages[m]) && unchanged(pages[m].file);
        assert old(pages[m].Valid());
      }
    }

    twostate lemma SlotSet(key: Key)
      requires old(PagesOk()) && old(LiveOk()) && key.page in old(pages) && key.page in pages
        && OnlyPageChanged(key.page)
      requires var page := pages[key.page];
               && page.Valid() && key.slot in page.live
               && page.live == old(page.live)[key.slot := page.live[key.slot]]
               && live == old(live)[key := page.live[key.slot]]
      ensures PagesOk() && LiveOk()
    {
      OtherPages(key.page);
    }

    twostate lemma SlotDropped(key: Key)
      requires old(PagesOk()) && old(LiveOk()) && key.page in old(pages) && key.page in pages
        && OnlyPageChanged(key.page)
      requires var page := pages[key.page];
               && page.Valid()
               && page.live == old(page.live) - {key.slot}
               && live == old(live) - {key}
      ensures PagesOk() && LiveOk()
    {
      OtherPages(key.page);
    }

    method TakeFrom(name: PageName) returns (slot: nat)
      requires Valid() && name in pages && pages[name].free != []
      modifies pages[name], this`live
      ensures Valid() && pages == old(pages)
      ensures slot < Capacity(name.size)
      ensures Key(name, slot) !in old(live) && Key(name, slot) in live
      ensures live == old(live)[Key(name, slot) := live[Key(name, slot)]]
    {
      hide PagesOk, LiveOk, ClassesOk, Page.Valid, Capacity;
      PageFacts(name);
      LiveFacts(name);
      slot := pages[name].Pop();
      live := live[Key(name, slot) := pages[name].live[slot]];
      SlotSet(Key(name, slot));
    }

    method WriteRecord(key: Key, body: seq<Byte>, n: nat)
      requires Valid() && key in live && |body| == key.page.size && n <= |body|
      modifies Repr, this`live
      ensures Valid() && Repr == old(Repr)
      ensures key in live && live == old(live)[key := live[key]]
      ensures n == |body| ==> live[key] == body
    {
      hide PagesOk, ClassesOk, LiveOk, Page.Valid, Capacity;
      PageOfLive(key);
      PageFacts(key.page);
      LiveFacts(key.page);
      pages[key.page].WriteAt(body, key.slot, n);
      live := live[key := pages[key.page].live[key.slot]];
      SlotSet(key);
    }

    lemma PageOfLive(key: Key)
      requires PagesOk() && LiveOk() && key in live
      ensures key.page in pages
    {
    }

    /** Gives a live slot back; a page left without live slots is deleted. */
    method FreeSlot(key: Key)
      requires Valid() && key in live
      modifies Repr, this`live, this`pages
      ensures Valid() && Repr == old(Repr)
      ensures live == old(live) - {key}
      ensures pages == if exists k :: k in live && k.page == key.page then old(pages) else old(pages) - {key.page}
    {
      hide PagesOk, ClassesOk, LiveOk, Page.Valid, Capacity;
      PageOfLive(key);
      PageFacts(key.page);
      LiveFacts(key.page);
      var page := pages[key.page];
      page.Push(key.slot);
      live := live - {key};
      SlotDropped(key);
      if |page.free| >= Capacity(key.page.size) {
        DropEmptyPage(key.page);
      } else {
        ghost var slot :| slot in page.live;
        LiveFacts(key.page);
        assert Key(key.page, slot) in live;
      }
    }

    method DropEmptyPage(name: PageName)
      requires Valid() && name in pages && pages[name].live.Keys == {}
      modifies this`pages
      ensures Valid()
      ensures pages == old(pages) - {name}
      ensures forall k :: k in live ==> k.page != name
    {
      pages := pages - {name};
    }

    /** The bytes of a record that its caller still holds a location for. */
    method Read(size: nat, loc: Loc) returns (body: Option<seq<Byte>>)
      requires Valid()
      ensures KeyOf(size, loc) in live ==> body == Some(live[KeyOf(size, loc)])
      ensures body.Some? <==> PageName(size, loc.page) in pages && loc.slot < Capacity(size)
    {
      hide PagesOk, LiveOk, Capacity, Page.Valid;
      var name := PageName(size, loc.page);
      if size !in classes || name !in pages {
        if KeyOf(size, loc) in live {
          PageOfLive(KeyOf(size, loc));
        }
        return None;
      }
      PageFacts(name);
      LiveFacts(name);
      PageSound(pages[name]);
      body := pages[name].ReadAt(loc.slot, size);
    }

    lemma PageSound(page: Page)
      requires page.Valid()
      ensures page.Sound() && page.file.Length == page.capacity * page.size
    {
    }

    /** Gives a slot back. A location in a page that no longer exists is ignored. */
    method Free(size: nat, loc: Loc)
      requires Valid()
      requires PageName(size, loc.page) in pages ==> KeyOf(size, loc) in live
      modifies Repr, this`live, this`pages
      ensures Valid() && Repr == old(Repr)
      ensures live == old(live) - {KeyOf(size, loc)}
      ensures pages ==
        if exists k :: k in live && k.page == PageName(size, loc.page) then old(pages)
        else old(pages) - {PageName(size, loc.page)}
    {
      hide PagesOk, LiveOk, Capacity, Page.Valid;
      if size !in classes || PageName(size, loc.page) !in pages {
        if KeyOf(size, loc) in live {
          PageOfLive(KeyOf(size, loc));
        }
        assert live - {KeyOf(size, loc)} == live && pages - {PageName(size, loc.page)} == pages;
        return;
      }
      FreeSlot(KeyOf(size, loc));
    }

    // ----- Restart: discover the page files, note the occupied slots, invert them -----

    /** Between discovery and `FinishReconcile` a page's `free` holds its occupied slots. */
    ghost predicate Noting()
      reads this, Repr
    {
      ClassesOk() && PagesShape()
    }

    ghost predicate Noted(key: Key)
      requires PagesShape()
      reads this, Repr
    {
      key.page in pages && key.slot in pages[key.page].free
    }

    function Directory(): map<PageName, array<Byte>>
      reads this, Repr
    {
      map name | name in pages :: pages[name].file
    }

    constructor (maxRecordBytes: nat, pageBytes: nat)
      requires 0 < maxRecordBytes <= pageBytes
      ensures Noting() && Repr == {} && pages == map[] && classes == map[] && counts == map[]
      ensures this.maxRecordBytes == maxRecordBytes && this.pageBytes == pageBytes && breakeven == pageBytes / 4096
    {
      this.maxRecordBytes, this.pageBytes, this.breakeven := maxRecordBytes, pageBytes, pageBytes / 4096;
      classes, counts, pages, live, Repr := map[], map[], map[], map[], {};
    }

    ghost predicate Opened(dir: map<PageName, array<Byte>>, names: set<PageName>)
      requires names <= dir.Keys
      reads this, pages.Values
    {
      && pages.Keys == names
      && (forall name :: name in pages ==> pages[name].file == dir[name] && pages[name].free == [])
      && (forall s :: s in classes ==> exists p :: PageName(s, p) in pages)
    }

    /** Opens every page file of the directory, in any order. */
    method DiscoverPages(dir: map<PageName, array<Byte>>)
      requires Noting() && Opened(dir, {}) && Repr == {} && counts == map[]
      requires IsDirectory(dir, pageBytes)
      modifies this`classes, this`pages, this`Repr
      ensures Noting() && fresh(Repr - dir.Values)
      ensures Opened(dir, dir.Keys)
    {
      hide PagesShape, ClassesOk, PageCapacity, Opened;
      var todo := dir.Keys;
      assert dir.Keys - todo == {};
      while todo != {}
        invariant todo <= dir.Keys
        invariant Noting() && Opened(dir, dir.Keys - todo)
        invariant fresh(Repr - dir.Values) && counts == map[]
        decreases |todo|
      {
        var name :| name in todo;
        OpenPage(name, dir[name], dir, dir.Keys - todo);
        assert dir.Keys - (todo - {name}) == dir.Keys - todo + {name};
        todo := todo - {name};
      }
      assert dir.Keys - todo == dir.Keys;
    }

    method OpenPage(name: PageName, file: array<Byte>, ghost dir: map<PageName, array<Byte>>,
                    ghost names: set<PageName>)
      requires Noting() && counts == map[] && IsDirectory(dir, pageBytes)
      requires names <= dir.Keys && name in dir && name !in names && dir[name] == file && Opened(dir, names)
      modifies this`classes, this`pages, this`Repr
      ensures Noting() && Opened(dir, names + {name})
      ensures fresh(Repr - old(Repr) - {file})
    {
      hide PagesShape, ClassesOk, PageCapacity;
      RegisterPage(name, file);
    }

    method RegisterPage(name: PageName, file: array<Byte>)
      requires Noting() && counts == map[] && name !in pages
      requires 0 < name.size <= pageBytes && 1 <= name.page && file.Length == Capacity(name.size) * name.size
      requires forall m :: m in pages ==> pages[m].file != file
      modifies this`classes, this`pages, this`Repr
      ensures Noting()
      ensures name in pages && fresh(pages[name]) && pages == old(pages)[name := pages[name]]
      ensures Repr == old(Repr) + {pages[name], file}
      ensures pages[name].file == file && pages[name].free == []
      ensures classes.Keys == old(classes.Keys) + {name.size}
    {
      hide Capacity;
      NoteClass(name);
      hide PagesShape;
      var page := new Page.Open(file, name.size, Capacity(name.size));
      pages := pages[name := page];
      Repr := Repr + {page, file};
      ShapeAdded(name, page);
    }

    /** Finds or adds the class of a page, which is at least its highest. */
    method NoteClass(name: PageName)
      requires ClassesOk() && counts == map[] && 0 < name.size <= pageBytes
      modifies this`classes
      ensures ClassesOk() && name.size in classes && name.page <= classes[name.size].nextPage
      ensures classes.Keys == old(classes.Keys) + {name.size}
    {
      hide PageCapacity;
      var c := if name.size in classes then classes[name.size] else SizeClass(Capacity(name.size), 0);
      classes := classes[name.size := if name.page > c.nextPage then c.(nextPage := name.page) else c];
    }

    twostate lemma ShapeAdded(name: PageName, new page: Page)
      requires old(PagesShape()) && name !in old(pages) && fresh(page)
      requires forall m :: m in old(pages) ==> old(pages)[m].file != page.file
      requires page.size == name.size && page.capacity == Capacity(name.size)
        && page.file.Length == page.capacity * page.size
      requires pages == old(pages)[name := page] && Repr == old(Repr) + {page, page.file}
      ensures PagesShape()
    {
      hide Capacity;
      assert forall m :: m in old(pages) ==> old(pages)[m] != page;
      assert this !in {page as object, page.file};
    }

    /** Whether a persisted location still resolves to a page and slot; the zero location always does. */
    predicate Resolves(size: int, loc: Loc)
      reads this`pages
    {
      loc.IsZero() || (0 <= size && PageName(size, loc.page) in pages && loc.slot < Capacity(size))
    }

    method NoteOccupied(size: int, loc: Loc)
      requires Noting() && Resolves(size, loc)
      modifies pages.Values
      ensures Noting() && Directory() == old(Directory())
      ensures forall k :: Noted(k) <==> old(Noted(k)) || (!loc.IsZero() && k == KeyOf(size, loc))
    {
      if loc.IsZero() {
        return;
      }
      var page := pages[PageName(size, loc.page)];
      page.free := page.free + [loc.slot];
    }

    method NoteUnpromoted(size: int)
      requires Noting()
      modifies this`counts
      ensures Noting()
      ensures counts == if size in classes then old(counts) else old(counts)[size := old(Count(size)) + 1]
    {
      if size in classes {
        return;
      }
      counts := counts[size := Count(size) + 1];
    }

    method FinishReconcile()
      requires Noting()
      requires forall k :: Noted(k) ==> k.slot < Capacity(k.page.size)
      modifies pages.Values, this`live
      ensures Valid() && pages == old(pages) && Repr == old(Repr) && Directory() == old(Directory())
      ensures classes == old(classes) && counts == old(counts)
      ensures forall k :: k in live <==> old(Noted(k))
    {
      forall name, k | name in pages && k in pages[name].free
        ensures k < Capacity(name.size)
      {
        assert Noted(Key(name, k));
      }
      InvertAll();
      CollectLive();
    }

    /** While the pages are being inverted: those in `todo` still hold their occupied slots. */
    ghost predicate Inverting(noted: map<PageName, seq<nat>>, todo: set<PageName>)
      requires PagesShape()
      reads this`pages, this`Repr, Repr
    {
      && noted.Keys == pages.Keys
      && forall name :: name in pages ==>
           if name in todo then pages[name].free == noted[name] else pages[name].Finished(noted[name])
    }

    method InvertAll()
      requires PagesShape()
      requires forall name, k :: name in pages && k in pages[name].free ==> k < Capacity(name.size)
      modifies pages.Values
      ensures PagesOk()
      ensures forall name, slot :: name in pages ==> (slot in pages[name].live <==> slot in old(pages[name].free))
    {
      ghost var noted := map name | name in pages :: pages[name].free;
      assert Inverting(noted, pages.Keys);
      assert forall name, k :: name in noted && k in noted[name] ==> k < Capacity(name.size);
      InvertPages(noted);
      hide Page.Valid;
      assert forall name :: name in pages ==> pages[name].Finished(noted[name]);
    }

    method InvertPages(ghost noted: map<PageName, seq<nat>>)
      requires PagesShape() && Inverting(noted, pages.Keys) && noted.Keys == pages.Keys
      requires forall name, k :: name in noted && k in noted[name] ==> k < Capacity(name.size)
      modifies pages.Values
      ensures PagesShape() && Inverting(noted, {})
    {
      hide Inverting, PagesShape, Capacity;
      var todo := pages.Keys;
      while todo != {}
        invariant todo <= pages.Keys && PagesShape() && Inverting(noted, todo)
        decreases |todo|
      {
        var name :| name in todo;
        FinishOne(name, noted, todo);
        todo := todo - {name};
      }
    }

    method FinishOne(name: PageName, ghost noted: map<PageName, seq<nat>>, ghost todo: set<PageName>)
      requires PagesShape() && name in pages && name in todo && Inverting(noted, todo)
      requires forall k :: k in noted[name] ==> k < Capacity(name.size)
      modifies pages[name]
      ensures PagesShape() && Inverting(noted, todo - {name})
    {
      hide Page.Valid;
      pages[name].Finish(Capacity(name.size));
      forall m | m in pages && m != name && m !in todo
        ensures pages[m].Finished(noted[m])
      {
        assert old(pages[m].Finished(noted[m])) && unchanged(pages[m]) && unchanged(pages[m].file);
      }
    }

    ghost method CollectLive()
      requires PagesOk()
      modifies this`live
      ensures PagesOk() && LiveOk()
      ensures forall name, slot :: Key(name, slot) in live <==> name in pages && slot in pages[name].live
    {
      live := map name, slot | name in pages && slot in pages[name].live :: Key(name, slot) := pages[name].live[slot];
    }
  }

  method EmptyPool() returns (pool: Pool)
    ensures fresh(pool) && fresh(pool.Repr) && pool.Valid()
    ensures pool.live == map[] && pool.pages == map[] && pool.classes == map[] && pool.counts == map[]
    ensures pool.maxRecordBytes == 4096 && pool.pageBytes == 8192 && pool.breakeven == 2
  {
    hide Pool.PagesOk, Pool.LiveOk, PageCapacity;
    pool := new Pool(4096, 8192);
    assert forall k :: !pool.Noted(k);
    pool.FinishReconcile();
    assert pool.live == map[];
  }

  /** A pool that promotes a size at its second record, once that record has gone again: the size has
      its class, but no page and no record in the pool. */
  method PromotedAndEmptied(body: seq<Byte>) returns (pool: Pool)
    requires 0 < |body| <= 4096
    ensures fresh(pool) && fresh(pool.Repr) && pool.Valid()
    ensures |body| in pool.classes && pool.live == map[] && forall name :: name in pool.pages ==> name.size != |body|
    ensures pool.Count(|body|) + 1 < pool.breakeven && pool.maxRecordBytes == 4096
  {
    hide Pool.Valid, PageCapacity;
    pool := EmptyPool();
    var first := pool.Put(|body|, body, NoFault);
    var second := pool.Put(|body|, body, NoFault);
    assert pool.live.Keys == {KeyOf(|body|, second.loc)};
    pool.Free(|body|, second.loc);
    assert pool.live == map[];
  }

  /** A class outlives its pages: the next record of the size is stored in the pool, although there are
      fewer of that size than it takes to promote it. */
  method ClassOutlivesItsPages(body: seq<Byte>) returns (pool: Pool, r: PutResult)
    requires 0 < |body| <= 4096
    ensures fresh(pool) && pool.Valid() && r.Stored? && pool.live == map[KeyOf(|body|, r.loc) := body]
    ensures |pool.live| < pool.breakeven && pool.pages.Keys >= {PageName(|body|, r.loc.page)}
  {
    hide Pool.Valid, PageCapacity;
    pool := PromotedAndEmptied(body);
    r := pool.Put(|body|, body, NoFault);
  }

  /** The page files a pool leaves behind: full-length, one array each. */
  ghost predicate IsDirectory(dir: map<PageName, array<Byte>>, pageBytes: nat) {
    && (forall name :: name in dir ==>
          && 0 < name.size <= pageBytes && 1 <= name.page
          && dir[name].Length == PageCapacity(pageBytes, name.size) * name.size)
    && (forall a, b :: a in dir && b in dir && a != b ==> dir[a] != dir[b])
  }

  /** What a pool holds is on disk: `live` is determined by the page files. */
  lemma LiveIsOnDisk(pool: Pool, key: Key)
    requires pool.Valid() && key in pool.live
    ensures key.page in pool.pages
    ensures pool.live[key] == Record(pool.pages[key.page].file[..], key.slot, key.page.size)
  {
  }
}
