/** The content-addressed store: many ActionIDs share one OutputID, whose bytes are stored once, in
    a pool slot or a plain file, until the last ActionID that references them goes. */
module LocalStore {
  import opened Common
  import opened RecordPool
  import opened StoredForm

  const EVICTION_MARGIN_FRACTION := 10

  datatype Entry = Entry(outputID: string, size: int, wireSize: int, compressed: bool,
                         timeMicro: int, accessTimeMicro: int, loc: Loc)

  type Index = map<string, Entry>

  function StoredSize(ie: Entry): int {
    if ie.wireSize > 0 then ie.wireSize else ie.size
  }

  function LruTime(ie: Entry): int {
    if ie.accessTimeMicro != 0 then ie.accessTimeMicro else ie.timeMicro
  }

  /** Which of two entries was last used no later: the time of its last hit, or without one that of its save. */
  ghost predicate UsedNoLater(a: Entry, b: Entry) {
    && (a.accessTimeMicro != 0 && b.accessTimeMicro != 0 ==> a.accessTimeMicro <= b.accessTimeMicro)
    && (a.accessTimeMicro != 0 && b.accessTimeMicro == 0 ==> a.accessTimeMicro <= b.timeMicro)
    && (a.accessTimeMicro == 0 && b.accessTimeMicro != 0 ==> a.timeMicro <= b.accessTimeMicro)
    && (a.accessTimeMicro == 0 && b.accessTimeMicro == 0 ==> a.timeMicro <= b.timeMicro)
  }

  lemma LeastIsUsedNoLater(index: Index, victim: string)
    requires victim in index && forall a :: a in index ==> LruTime(index[victim]) <= LruTime(index[a])
    ensures forall a :: a in index ==> UsedNoLater(index[victim], index[a])
  {
    forall a | a in index
      ensures UsedNoLater(index[victim], index[a])
    {
      assert LruTime(index[victim]) <= LruTime(index[a]);
    }
  }

  /** No entry that is left was used before one that went. */
  ghost predicate InOrder(before: Index, after: Index) {
    forall a, b :: a in before && a !in after && b in after ==> UsedNoLater(before[a], after[b])
  }

  /** What an entry's removal gives back: its output's bytes, if no other entry shares them. */
  ghost function Freed(index: Index, a: string): int
    requires a in index
  {
    var ie := index[a];
    if exists b :: b in index && b != a && index[b].outputID == ie.outputID then 0
    else if ie.wireSize > 0 then ie.wireSize else ie.size
  }

  /** The entry that went last was needed: it was the last one for its output, and with those bytes there
      would still be too many. */
  ghost predicate LastWasNeeded(before: Index, after: Index, bytes: int, margin: int) {
    exists a :: a in before && a !in after
      && (forall b :: b in after ==> after[b].outputID != before[a].outputID)
      && bytes + (if before[a].wireSize > 0 then before[a].wireSize else before[a].size) > margin
      && forall b :: b in before && b !in after ==> UsedNoLater(before[b], before[a])
  }

  lemma OneMoreInOrder(start: Index, before: Index, after: Index, victim: string)
    requires Shrunk(start, before) && InOrder(start, before)
    requires victim in before && after == before - {victim}
    requires forall a :: a in before ==> UsedNoLater(before[victim], before[a])
    ensures Shrunk(start, after) && InOrder(start, after)
  {
    hide UsedNoLater;
  }

  lemma NeededOneMore(start: Index, before: Index, after: Index, victim: string, bytes: int, margin: int)
    requires Shrunk(start, before) && InOrder(start, before)
    requires victim in before && after == before - {victim}
    requires bytes <= margin < bytes + Freed(before, victim)
    ensures LastWasNeeded(start, after, bytes, margin)
  {
    assert victim in start && victim !in after;
    assert UsedNoLater(start[victim], start[victim]);
  }

  // ----- Reference counts -----

  /** The ActionIDs that reference an output. */
  ghost function Users(index: Index, o: string): set<string> {
    set a | a in index && index[a].outputID == o
  }

  ghost predicate RefsMatch(index: Index, refs: map<string, nat>) {
    && (forall o :: o in refs ==> refs[o] == |Users(index, o)| && refs[o] > 0)
    && (forall a :: a in index ==> index[a].outputID in refs)
  }

  function Dropped(refs: map<string, nat>, o: string): map<string, nat> {
    if o in refs && refs[o] > 1 then refs[o := refs[o] - 1] else refs - {o}
  }

  function Raised(refs: map<string, nat>, o: string): map<string, nat> {
    refs[o := 1 + if o in refs then refs[o] else 0]
  }

  lemma UsersAfterRemove(index: Index, a: string, o: string)
    requires a in index
    ensures Users(index - {a}, o) == Users(index, o) - {a}
    ensures |Users(index - {a}, o)| == |Users(index, o)| - if index[a].outputID == o then 1 else 0
  {
    assert Users(index - {a}, o) == Users(index, o) - {a};
    assert a in Users(index, o) <==> index[a].outputID == o;
  }

  lemma RefsAfterRemove(index: Index, refs: map<string, nat>, a: string)
    requires RefsMatch(index, refs) && a in index
    ensures RefsMatch(index - {a}, Dropped(refs, index[a].outputID))
    ensures index[a].outputID in refs
    ensures refs[index[a].outputID] <= 1 <==> forall b :: b in index && b != a ==>
      index[b].outputID != index[a].outputID
  {
    var o := index[a].outputID;
    forall p
      ensures |Users(index - {a}, p)| == |Users(index, p)| - if o == p then 1 else 0
    {
      UsersAfterRemove(index, a, p);
    }
    UsersAfterRemove(index, a, o);
    forall b | b in index - {a}
      ensures index[b].outputID in Dropped(refs, o)
    {
      if index[b].outputID == o {
        assert b in Users(index - {a}, o);
      }
    }
    if refs[o] > 1 {
      assert Users(index - {a}, o) != {};
      var b :| b in Users(index - {a}, o);
    }
  }

  lemma RefsAfterInsert(index: Index, refs: map<string, nat>, a: string, ie: Entry)
    requires RefsMatch(index, refs) && a !in index
    ensures RefsMatch(index[a := ie], Raised(refs, ie.outputID))
  {
    var after := index[a := ie];
    assert after - {a} == index;
    forall p
      ensures |Users(after, p)| == |Users(index, p)| + if ie.outputID == p then 1 else 0
    {
      UsersAfterRemove(after, a, p);
    }
    if ie.outputID !in refs {
      assert Users(index, ie.outputID) == {};
    }
  }

  /** Replacing an entry by one for the same output moves no reference. */
  lemma RefsAfterSameOutput(index: Index, refs: map<string, nat>, a: string, ie: Entry)
    requires RefsMatch(index, refs) && a in index && index[a].outputID == ie.outputID
    ensures RefsMatch(index[a := ie], refs)
  {
    forall o
      ensures Users(index[a := ie], o) == Users(index, o)
    {
    }
  }

  // ----- Storage -----

  /** What is stored, and where the store thinks it is. */
  datatype Disk = Disk(sizes: map<string, int>, locs: map<string, Loc>,
                       live: map<Key, seq<Byte>>, files: map<string, seq<Byte>>)

  function LocOf(locs: map<string, Loc>, o: string): Loc {
    if o in locs then locs[o] else Loc(0, 0)
  }

  function SlotKey(size: int, loc: Loc): Key {
    KeyOf(if size < 0 then 0 else size, loc)
  }

  /** The slot of each pool-backed output. */
  ghost function OutputSlots(d: Disk): map<string, Key> {
    map o | o in d.locs && o in d.sizes :: SlotKey(d.sizes[o], d.locs[o])
  }

  ghost predicate OneToOne(slots: map<string, Key>, live: set<Key>) {
    && (forall o :: o in slots ==> slots[o] in live)
    && (forall o, p :: o in slots && p in slots && o != p ==> slots[o] != slots[p])
    && (forall k :: k in live ==> exists o :: o in slots && slots[o] == k)
  }

  lemma OneToOneRemove(slots: map<string, Key>, live: set<Key>, o: string)
    requires OneToOne(slots, live) && o in slots
    ensures OneToOne(slots - {o}, live - {slots[o]})
  {
    forall k | k in live - {slots[o]}
      ensures exists p :: p in slots - {o} && (slots - {o})[p] == k
    {
      var p :| p in slots && slots[p] == k;
      assert p in slots - {o};
    }
  }

  lemma OneToOneInsert(slots: map<string, Key>, live: set<Key>, o: string, key: Key)
    requires OneToOne(slots, live) && o !in slots && key !in live
    ensures OneToOne(slots[o := key], live + {key})
  {
    var after := slots[o := key];
    forall k | k in live + {key}
      ensures exists p :: p in after && after[p] == k
    {
      if k in live {
        var p :| p in slots && slots[p] == k;
        assert p in after && after[p] == k;
      } else {
        assert o in after;
      }
    }
  }

  ghost predicate Sized(d: Disk, bodies: map<string, seq<Byte>>) {
    && d.sizes.Keys == bodies.Keys && d.locs.Keys <= bodies.Keys
    && forall o :: o in bodies ==> d.sizes[o] == |bodies[o]|
  }

  ghost predicate PoolHolds(d: Disk, bodies: map<string, seq<Byte>>) {
    forall o :: o in d.locs ==>
      && o in d.sizes && o in bodies && !d.locs[o].IsZero() && 0 < d.sizes[o]
      && SlotKey(d.sizes[o], d.locs[o]) in d.live && d.live[SlotKey(d.sizes[o], d.locs[o])] == bodies[o]
  }

  ghost predicate FilesHold(d: Disk, bodies: map<string, seq<Byte>>) {
    forall o :: o in bodies && o !in d.locs ==> o in d.files && d.files[o] == bodies[o]
  }

  /** Each output is stored once, at its full size: pool-backed ones map one-to-one onto the
      occupied slots, the others have their file. */
  ghost predicate Holds(d: Disk, bodies: map<string, seq<Byte>>) {
    Sized(d, bodies) && OneToOne(OutputSlots(d), d.live.Keys) && PoolHolds(d, bodies) && FilesHold(d, bodies)
  }

  /** The disk once an output's storage is released. */
  function Without(d: Disk, o: string): Disk {
    if o in d.locs && o in d.sizes then
      Disk(d.sizes - {o}, d.locs - {o}, d.live - {SlotKey(d.sizes[o], d.locs[o])}, d.files)
    else
      Disk(d.sizes - {o}, d.locs, d.live, d.files - {o})
  }

  /** The disk once one reference to an output is dropped. */
  function Released(d: Disk, refs: map<string, nat>, o: string): Disk {
    if o in refs && refs[o] > 1 then d else Without(d, o)
  }

  lemma HoldsWithout(d: Disk, bodies: map<string, seq<Byte>>, o: string)
    requires Holds(d, bodies)
    ensures Holds(Without(d, o), bodies - {o})
  {
    hide OneToOne, PoolHolds, FilesHold, SlotKey;
    SlotsWithout(d, bodies, o);
    PoolHoldsWithout(d, bodies, o);
    FilesHoldWithout(d, bodies, o);
  }

  lemma SlotsWithout(d: Disk, bodies: map<string, seq<Byte>>, o: string)
    requires Sized(d, bodies) && OneToOne(OutputSlots(d), d.live.Keys)
    ensures OneToOne(OutputSlots(Without(d, o)), Without(d, o).live.Keys)
  {
    hide OneToOne, SlotKey;
    var after := Without(d, o);
    if o in d.locs {
      assert OutputSlots(after) == OutputSlots(d) - {o};
      assert after.live.Keys == d.live.Keys - {OutputSlots(d)[o]};
      OneToOneRemove(OutputSlots(d), d.live.Keys, o);
    } else {
      assert OutputSlots(after) == OutputSlots(d);
    }
  }

  lemma PoolHoldsWithout(d: Disk, bodies: map<string, seq<Byte>>, o: string)
    requires Sized(d, bodies) && OneToOne(OutputSlots(d), d.live.Keys) && PoolHolds(d, bodies)
    ensures PoolHolds(Without(d, o), bodies - {o})
  {
    hide SlotKey;
    if o in d.locs {
      forall p | p in d.locs && p != o
        ensures SlotKey(d.sizes[p], d.locs[p]) != SlotKey(d.sizes[o], d.locs[o])
      {
        assert OutputSlots(d)[p] != OutputSlots(d)[o];
      }
    }
    hide OneToOne;
  }

  lemma FilesHoldWithout(d: Disk, bodies: map<string, seq<Byte>>, o: string)
    requires Sized(d, bodies) && FilesHold(d, bodies)
    ensures FilesHold(Without(d, o), bodies - {o})
  {
  }

  /** The disk with an output in a fresh pool slot. */
  function WithSlot(d: Disk, o: string, loc: Loc, body: seq<Byte>): Disk {
    Disk(d.sizes[o := |body|], d.locs[o := loc], d.live[KeyOf(|body|, loc) := body], d.files)
  }

  lemma HoldsWithSlot(d: Disk, bodies: map<string, seq<Byte>>, o: string, loc: Loc, body: seq<Byte>)
    requires Holds(d, bodies) && o !in bodies
    requires !loc.IsZero() && body != [] && KeyOf(|body|, loc) !in d.live
    ensures Holds(WithSlot(d, o, loc, body), bodies[o := body])
  {
    hide OneToOne, PoolHolds, FilesHold;
    var after := WithSlot(d, o, loc, body);
    OneToOneInsert(OutputSlots(d), d.live.Keys, o, KeyOf(|body|, loc));
    assert OutputSlots(after) == OutputSlots(d)[o := KeyOf(|body|, loc)];
    assert after.live.Keys == d.live.Keys + {KeyOf(|body|, loc)};
    PoolHoldsWithSlot(d, bodies, o, loc, body);
    FilesHoldWithSlot(d, bodies, o, loc, body);
  }

  lemma PoolHoldsWithSlot(d: Disk, bodies: map<string, seq<Byte>>, o: string, loc: Loc, body: seq<Byte>)
    requires PoolHolds(d, bodies) && o !in bodies
    requires !loc.IsZero() && body != [] && KeyOf(|body|, loc) !in d.live
    ensures PoolHolds(WithSlot(d, o, loc, body), bodies[o := body])
  {
  }

  lemma FilesHoldWithSlot(d: Disk, bodies: map<string, seq<Byte>>, o: string, loc: Loc, body: seq<Byte>)
    requires FilesHold(d, bodies)
    ensures FilesHold(WithSlot(d, o, loc, body), bodies[o := body])
  {
  }

  /** The disk with an output in a plain file. */
  function WithFile(d: Disk, o: string, body: seq<Byte>): Disk {
    Disk(d.sizes[o := |body|], d.locs, d.live, d.files[o := body])
  }

  lemma HoldsWithFile(d: Disk, bodies: map<string, seq<Byte>>, o: string, body: seq<Byte>)
    requires Holds(d, bodies) && o !in bodies
    ensures Holds(WithFile(d, o, body), bodies[o := body])
  {
    hide OneToOne, SlotKey, OutputSlots, PoolHolds, FilesHold;
    assert d.locs.Keys <= bodies.Keys && o !in d.locs;
    SizedWithFile(d, bodies, o, body);
    SlotsWithFile(d, o, body);
    PoolHoldsWithFile(d, bodies, o, body);
    FilesHoldWithFile(d, bodies, o, body);
    hide Sized;
  }

  lemma SizedWithFile(d: Disk, bodies: map<string, seq<Byte>>, o: string, body: seq<Byte>)
    requires Sized(d, bodies)
    ensures Sized(WithFile(d, o, body), bodies[o := body])
  {
  }

  lemma FilesHoldWithFile(d: Disk, bodies: map<string, seq<Byte>>, o: string, body: seq<Byte>)
    requires FilesHold(d, bodies)
    ensures FilesHold(WithFile(d, o, body), bodies[o := body])
  {
  }

  lemma SlotsWithFile(d: Disk, o: string, body: seq<Byte>)
    requires o !in d.locs
    ensures OutputSlots(WithFile(d, o, body)) == OutputSlots(d)
  {
    hide SlotKey;
  }

  lemma PoolHoldsWithFile(d: Disk, bodies: map<string, seq<Byte>>, o: string, body: seq<Byte>)
    requires PoolHolds(d, bodies) && o !in d.locs
    ensures PoolHolds(WithFile(d, o, body), bodies[o := body])
  {
    hide SlotKey;
  }

  /** The disk once a new output's size and place are recorded. */
  function Added(d: Disk, o: string, size: int, loc: Loc): Disk {
    d.(sizes := d.sizes[o := size], locs := if loc.IsZero() then d.locs else d.locs[o := loc])
  }

  lemma ReleasedKeys(d: Disk, refs: map<string, nat>, o: string)
    requires d.sizes.Keys == refs.Keys && o in refs
    ensures Released(d, refs, o).sizes.Keys == Dropped(refs, o).Keys
  {
  }

  /** There is no plain file but those of plain outputs. */
  ghost predicate NoStrays(d: Disk) {
    forall o :: o in d.files ==> o in d.sizes && o !in d.locs
  }

  lemma NoStraysWithout(d: Disk, refs: map<string, nat>, o: string)
    requires NoStrays(d)
    ensures NoStrays(Without(d, o)) && NoStrays(Released(d, refs, o))
  {
  }

  /** Every entry agrees with its output about size and place. */
  ghost predicate EntriesMatch(index: Index, bodies: map<string, seq<Byte>>, locs: map<string, Loc>) {
    forall a :: a in index ==>
      && index[a].outputID in bodies
      && StoredSize(index[a]) == |bodies[index[a].outputID]|
      && index[a].loc == LocOf(locs, index[a].outputID)
  }

  lemma EntriesAfterRemove(index: Index, bodies: map<string, seq<Byte>>, d: Disk, a: string)
    requires EntriesMatch(index, bodies, d.locs) && a in index
    ensures EntriesMatch(index - {a}, bodies, d.locs)
    ensures var o := index[a].outputID;
            && Without(d, o).sizes == d.sizes - {o}
            && ((forall b :: b in index && b != a ==> index[b].outputID != o) ==>
                  EntriesMatch(index - {a}, bodies - {o}, Without(d, o).locs))
  {
  }

  lemma EntriesAfterTouch(index: Index, bodies: map<string, seq<Byte>>, locs: map<string, Loc>, a: string, ie: Entry)
    requires EntriesMatch(index, bodies, locs) && a in index
    requires ie == index[a].(accessTimeMicro := ie.accessTimeMicro)
    ensures EntriesMatch(index[a := ie], bodies, locs)
  {
  }

  /** What a release needs to know about the storage it gives back. */
  lemma Releasable(d: Disk, bodies: map<string, seq<Byte>>, o: string)
    requires Holds(d, bodies)
    ensures d.locs.Keys <= d.sizes.Keys
    ensures o in d.locs ==> 0 < d.sizes[o] && SlotKey(d.sizes[o], d.locs[o]) in d.live
  {
    hide OneToOne, FilesHold;
  }

  lemma NothingStored(index: Index, refs: map<string, nat>)
    requires RefsMatch(index, refs) && index == map[]
    ensures refs == map[]
  {
    forall o
      ensures o !in refs
    {
      assert Users(index, o) == {};
    }
  }

  lemma WrongOutputReleased(index: Index, refs: map<string, nat>, a: string, o: string)
    requires RefsMatch(index, refs) && a in index && index[a].outputID != o
    ensures !RefsMatch(index - {a}, Dropped(refs, o))
  {
    UsersAfterRemove(index, a, index[a].outputID);
    assert index[a].outputID in Dropped(refs, o);
  }

  // ----- File names -----

  /** The name of an output's plain file. */
  function OutputName(o: string): (name: string)
    ensures |name| == |o|
  {
    if o == "" then "" else [if o[0] == '/' then '_' else o[0]] + OutputName(o[1..])
  }

  /** Two outputs have the same file exactly if they differ at most where one has "/" and the other "_". */
  lemma {:induction false} SameOutputName(a: string, b: string)
    ensures OutputName(a) == OutputName(b) <==>
            |a| == |b| && forall i :: 0 <= i < |a| ==> a[i] == b[i] || (a[i] in "/_" && b[i] in "/_")
  {
    if a != "" && |a| == |b| {
      SameOutputName(a[1..], b[1..]);
      assert OutputName(a)[1..] == OutputName(a[1..]) && OutputName(b)[1..] == OutputName(b[1..]);
      assert OutputName(a) == [OutputName(a)[0]] + OutputName(a)[1..];
      assert OutputName(b) == [OutputName(b)[0]] + OutputName(b)[1..];
      assert forall i :: 0 <= i < |a| - 1 ==> a[1..][i] == a[i + 1] && b[1..][i] == b[i + 1];
      assert (forall i :: 0 <= i < |a| ==> a[i] == b[i] || (a[i] in "/_" && b[i] in "/_")) <==>
             (a[0] == b[0] || (a[0] in "/_" && b[0] in "/_"))
             && forall i :: 0 <= i < |a| - 1 ==> a[1..][i] == b[1..][i] || (a[1..][i] in "/_" && b[1..][i] in "/_") by {
        assert forall i :: 1 <= i < |a| ==> a[i] == a[1..][i - 1] && b[i] == b[1..][i - 1];
      }
    }
  }

  /** Outputs whose IDs have no "_" have files of their own. */
  lemma OutputNamesDiffer(a: string, b: string)
    requires '_' !in a && '_' !in b && OutputName(a) == OutputName(b)
    ensures a == b
  {
    SameOutputName(a, b);
    assert forall i :: 0 <= i < |a| ==> a[i] in a && b[i] in b;
  }

  // ----- Puts -----

  /** The disk once a body is written, before anything records where. */
  function Pending(d: Disk, o: string, loc: Loc, body: seq<Byte>): Disk {
    if loc.IsZero() then d.(files := d.files[o := body]) else d.(live := d.live[KeyOf(|body|, loc) := body])
  }

  ghost predicate IsPending(d: Disk, bodies: map<string, seq<Byte>>, o: string, size: int, loc: Loc, body: seq<Byte>,
                            now: Disk)
  {
    if o in bodies then now == d && loc == LocOf(d.locs, o)
    else
      && now == Pending(d, o, loc, body) && size == |body|
      && if loc.IsZero() then loc == Loc(0, 0) else body != [] && KeyOf(|body|, loc) !in d.live
  }

  /** An output's body counts as saved once it is written; until then it stays what it was. */
  function Recorded(bodies: map<string, seq<Byte>>, o: string, body: seq<Byte>): map<string, seq<Byte>> {
    if o in bodies then bodies else bodies[o := body]
  }

  /** Index, disk and saved bodies fit together. */
  ghost predicate Fits(index: Index, d: Disk, bodies: map<string, seq<Byte>>) {
    Holds(d, bodies) && EntriesMatch(index, bodies, d.locs)
  }

  lemma FitsAfterRelease(index: Index, refs: map<string, nat>, d: Disk, bodies: map<string, seq<Byte>>, a: string)
    requires RefsMatch(index, refs) && Fits(index, d, bodies) && a in index
    ensures var o := index[a].outputID;
            Fits(index - {a}, Released(d, refs, o), if o in refs && refs[o] > 1 then bodies else bodies - {o})
  {
    hide RefsMatch, Holds, EntriesMatch, Without;
    HoldsWithout(d, bodies, index[a].outputID);
    EntriesAfterRemove(index, bodies, d, a);
    RefsAfterRemove(index, refs, a);
  }

  /** An entry for an output that is already stored fits exactly when the sizes agree. */
  lemma FitsAfterShare(index: Index, d: Disk, bodies: map<string, seq<Byte>>, a: string, ie: Entry)
    requires Fits(index, d, bodies) && a !in index && ie.outputID in bodies && ie.loc == LocOf(d.locs, ie.outputID)
    ensures Fits(index[a := ie], d, bodies) <==> StoredSize(ie) == |bodies[ie.outputID]|
  {
    hide Holds, LocOf, StoredSize;
    if Fits(index[a := ie], d, bodies) {
      assert a in index[a := ie];
    }
  }

  lemma FitsAfterStore(index: Index, d: Disk, bodies: map<string, seq<Byte>>, a: string, ie: Entry, body: seq<Byte>)
    requires Fits(index, d, bodies) && a !in index && ie.outputID !in bodies && StoredSize(ie) == |body|
    requires if ie.loc.IsZero() then ie.loc == Loc(0, 0) else body != [] && KeyOf(|body|, ie.loc) !in d.live
    ensures Fits(index[a := ie], Added(Pending(d, ie.outputID, ie.loc, body), ie.outputID, |body|, ie.loc),
                 bodies[ie.outputID := body])
  {
    hide StoredSize, KeyOf, OneToOne, PoolHolds, FilesHold, EntriesMatch;
    var o := ie.outputID;
    EntriesAfterInsert(index, bodies, d.locs, a, ie, body);
    assert d.locs.Keys <= bodies.Keys;
    if ie.loc.IsZero() {
      HoldsWithFile(d, bodies, o, body);
      assert Added(Pending(d, o, ie.loc, body), o, |body|, ie.loc) == WithFile(d, o, body);
    } else {
      HoldsWithSlot(d, bodies, o, ie.loc, body);
      assert Added(Pending(d, o, ie.loc, body), o, |body|, ie.loc) == WithSlot(d, o, ie.loc, body);
    }
  }

  lemma EntriesAfterInsert(index: Index, bodies: map<string, seq<Byte>>, locs: map<string, Loc>, a: string, ie: Entry,
                           body: seq<Byte>)
    requires EntriesMatch(index, bodies, locs) && a !in index && StoredSize(ie) == |body|
    requires locs.Keys <= bodies.Keys && ie.outputID !in bodies && (ie.loc.IsZero() ==> ie.loc == Loc(0, 0))
    ensures EntriesMatch(index[a := ie], bodies[ie.outputID := body],
                         if ie.loc.IsZero() then locs else locs[ie.outputID := ie.loc])
  {
    hide StoredSize;
  }

  lemma ReleaseThenPending(d: Disk, refs: map<string, nat>, bodies: map<string, seq<Byte>>, was: string,
                           o: string, loc: Loc, body: seq<Byte>)
    requires Holds(d, bodies) && was != o
    requires !loc.IsZero() ==> KeyOf(|body|, loc) !in d.live
    ensures Released(Pending(d, o, loc, body), refs, was) == Pending(Released(d, refs, was), o, loc, body)
  {
    Releasable(d, bodies, was);
    hide Holds, KeyOf, SlotKey;
    if !loc.IsZero() && was in d.locs {
      SetThenRemove(d.live, KeyOf(|body|, loc), body, SlotKey(d.sizes[was], d.locs[was]));
    }
    SetThenRemove(d.files, o, body, was);
  }

  lemma SetThenRemove<K, V>(m: map<K, V>, k: K, v: V, j: K)
    requires k != j
    ensures m[k := v] - {j} == (m - {j})[k := v]
  {
  }

  /** The same output again, under a new size. */
  lemma FitsAfterResize(index: Index, d: Disk, bodies: map<string, seq<Byte>>, a: string, ie: Entry)
    requires Fits(index, d, bodies) && a in index && index[a].outputID == ie.outputID
      && ie.loc == LocOf(d.locs, ie.outputID)
    ensures ie.outputID in bodies
    ensures Fits(index[a := ie], d.(sizes := d.sizes[ie.outputID := StoredSize(ie)]), bodies) <==>
            StoredSize(ie) == |bodies[ie.outputID]|
  {
    hide OneToOne, PoolHolds, FilesHold, LocOf, StoredSize;
    var o := ie.outputID;
    if StoredSize(ie) == |bodies[o]| {
      assert d.sizes[o := StoredSize(ie)] == d.sizes;
    } else {
      assert !Sized(d.(sizes := d.sizes[o := StoredSize(ie)]), bodies) by {
        assert o in bodies;
      }
    }
  }

  /** Overwriting this entry drops the last reference to another output. */
  ghost predicate DropsAnOutput(index: Index, a: string, o: string) {
    a in index && index[a].outputID != o && forall b :: b in index && b != a ==> index[b].outputID != index[a].outputID
  }

  /** What is saved once an entry for `o` is put. */
  ghost function SavedAfterPut(index: Index, bodies: map<string, seq<Byte>>, a: string, o: string,
                               body: seq<Byte>): map<string, seq<Byte>>
  {
    Recorded(if DropsAnOutput(index, a, o) then bodies - {index[a].outputID} else bodies, o, body)
  }

  /** Content addressing, for one upload: an output that is already stored has this size. */
  ghost predicate SameContentSize(bodies: map<string, seq<Byte>>, o: string, size: int) {
    o in bodies ==> size == |bodies[o]|
  }

  ghost predicate Putting(index: Index, refs: map<string, nat>, d: Disk, bodies: map<string, seq<Byte>>,
                          a: string, ie: Entry, body: seq<Byte>, now: Disk)
  {
    && RefsMatch(index, refs) && Fits(index, d, bodies) && refs.Keys == bodies.Keys
    && IsPending(d, bodies, ie.outputID, StoredSize(ie), ie.loc, body, now)
  }

  lemma PutNewAction(index: Index, refs: map<string, nat>, d: Disk, bodies: map<string, seq<Byte>>,
                     a: string, ie: Entry, body: seq<Byte>, now: Disk)
    requires Putting(index, refs, d, bodies, a, ie, body, now) && a !in index
    ensures RefsMatch(index[a := ie], Raised(refs, ie.outputID))
    ensures SameContentSize(bodies, ie.outputID, StoredSize(ie)) ==
            Fits(index[a := ie], if ie.outputID in refs then now else Added(now, ie.outputID, StoredSize(ie), ie.loc),
                 SavedAfterPut(index, bodies, a, ie.outputID, body))
  {
    hide RefsMatch, Fits, Added, Pending, LocOf, StoredSize;
    RefsAfterInsert(index, refs, a, ie);
    if ie.outputID in bodies {
      FitsAfterShare(index, d, bodies, a, ie);
    } else {
      FitsAfterStore(index, d, bodies, a, ie, body);
    }
  }

  lemma PutSameOutput(index: Index, refs: map<string, nat>, d: Disk, bodies: map<string, seq<Byte>>,
                      a: string, ie: Entry, body: seq<Byte>, now: Disk)
    requires Putting(index, refs, d, bodies, a, ie, body, now) && a in index && index[a].outputID == ie.outputID
    ensures RefsMatch(index[a := ie], refs) && ie.outputID in refs
    ensures SameContentSize(bodies, ie.outputID, StoredSize(ie)) ==
            Fits(index[a := ie], now.(sizes := now.sizes[ie.outputID := StoredSize(ie)]),
                 SavedAfterPut(index, bodies, a, ie.outputID, body))
  {
    RefsAfterSameOutput(index, refs, a, ie);
    assert ie.outputID in refs;
    hide RefsMatch, Fits, Pending, LocOf, StoredSize;
    FitsAfterResize(index, d, bodies, a, ie);
  }

  lemma PutOtherOutput(index: Index, refs: map<string, nat>, d: Disk, bodies: map<string, seq<Byte>>,
                       a: string, ie: Entry, body: seq<Byte>, now: Disk)
    requires Putting(index, refs, d, bodies, a, ie, body, now) && a in index && index[a].outputID != ie.outputID
    ensures index[a].outputID in refs
      && RefsMatch(index[a := ie], Raised(Dropped(refs, index[a].outputID), ie.outputID))
    ensures var disk := Released(now, refs, index[a].outputID);
            SameContentSize(bodies, ie.outputID, StoredSize(ie)) ==
            Fits(index[a := ie], if ie.outputID in Dropped(refs, index[a].outputID) then disk
                 else Added(disk, ie.outputID, StoredSize(ie), ie.loc),
                 SavedAfterPut(index, bodies, a, ie.outputID, body))
  {
    hide Fits, IsPending, Added, Pending, LocOf, StoredSize, Released, Without, Dropped, Raised, SavedAfterPut;
    var was := index[a].outputID;
    RefsAfterRemove(index, refs, a);
    FitsAfterRelease(index, refs, d, bodies, a);
    RefsAfterInsert(index - {a}, Dropped(refs, was), a, ie);
    assert (index - {a})[a := ie] == index[a := ie];
    hide RefsMatch;
    OtherOutputsStay(d, refs, was, ie.outputID);
    SavedWithoutOld(index, refs, bodies, a, ie.outputID, body);
    PutAfterRelease(index, refs, d, bodies, a, ie, body, now, if refs[was] > 1 then bodies else bodies - {was});
  }

  lemma SavedWithoutOld(index: Index, refs: map<string, nat>, bodies: map<string, seq<Byte>>, a: string, o: string,
                        body: seq<Byte>)
    requires RefsMatch(index, refs) && a in index && index[a].outputID != o
    ensures index[a].outputID in refs
    ensures SavedAfterPut(index, bodies, a, o, body) ==
            Recorded(if refs[index[a].outputID] > 1 then bodies else bodies - {index[a].outputID}, o, body)
  {
    RefsAfterRemove(index, refs, a);
    hide RefsMatch;
  }

  lemma PutAfterRelease(index: Index, refs: map<string, nat>, d: Disk, bodies: map<string, seq<Byte>>,
                        a: string, ie: Entry, body: seq<Byte>, now: Disk, left: map<string, seq<Byte>>)
    requires a in index && index[a].outputID != ie.outputID && Fits(index, d, bodies)
    requires IsPending(d, bodies, ie.outputID, StoredSize(ie), ie.loc, body, now)
    requires Fits(index - {a}, Released(d, refs, index[a].outputID), left)
    requires left == bodies || left == bodies - {index[a].outputID}
    ensures var disk := Released(now, refs, index[a].outputID);
            SameContentSize(bodies, ie.outputID, StoredSize(ie)) ==
            Fits(index[a := ie], if ie.outputID in bodies then disk
                 else Added(disk, ie.outputID, StoredSize(ie), ie.loc),
                 Recorded(left, ie.outputID, body))
  {
    hide EntriesMatch, Holds, Added, StoredSize, Released, Pending, LocOf;
    var o, was := ie.outputID, index[a].outputID;
    assert (index - {a})[a := ie] == index[a := ie];
    OtherOutputsStay(d, refs, was, o);
    if o in bodies {
      FitsAfterShare(index - {a}, Released(d, refs, was), left, a, ie);
    } else {
      ReleaseThenPending(d, refs, bodies, was, o, ie.loc, body);
      FitsAfterStore(index - {a}, Released(d, refs, was), left, a, ie, body);
    }
  }

  lemma OtherOutputsStay(d: Disk, refs: map<string, nat>, was: string, o: string)
    requires was != o
    ensures o in Dropped(refs, was) <==> o in refs
    ensures LocOf(Released(d, refs, was).locs, o) == LocOf(d.locs, o)
    ensures Released(d, refs, was).live.Keys <= d.live.Keys
  {
  }

  lemma NoStraysRecorded(d: Disk, o: string, size: int, loc: Loc, body: seq<Byte>)
    requires NoStrays(d) && o !in d.locs && o !in d.sizes
    ensures NoStrays(Added(Pending(d, o, loc, body), o, size, loc))
  {
  }

  lemma NoStraysResized(d: Disk, o: string, size: int)
    requires NoStrays(d)
    ensures NoStrays(d.(sizes := d.sizes[o := size]))
  {
  }

  /** Putting leaves no stray file, whichever way the references move. */
  lemma NoStraysAfterPut(index: Index, refs: map<string, nat>, d: Disk, bodies: map<string, seq<Byte>>,
                         a: string, ie: Entry, body: seq<Byte>, now: Disk)
    requires Putting(index, refs, d, bodies, a, ie, body, now) && NoStrays(d)
    ensures a !in index ==>
      NoStrays(if ie.outputID in refs then now else Added(now, ie.outputID, StoredSize(ie), ie.loc))
    ensures a in index && index[a].outputID == ie.outputID && ie.outputID in refs ==>
      NoStrays(now.(sizes := now.sizes[ie.outputID := StoredSize(ie)]))
    ensures a in index && index[a].outputID != ie.outputID ==>
      var rest, disk := Dropped(refs, index[a].outputID), Released(now, refs, index[a].outputID);
      NoStrays(if ie.outputID in rest then disk else Added(disk, ie.outputID, StoredSize(ie), ie.loc))
  {
    var o := ie.outputID;
    assert d.locs.Keys <= bodies.Keys && d.sizes.Keys == bodies.Keys;
    hide RefsMatch, EntriesMatch, Holds, StoredSize, LocOf, NoStrays, Pending;
    if o !in bodies {
      NoStraysRecorded(d, o, StoredSize(ie), ie.loc, body);
    } else {
      NoStraysResized(d, o, StoredSize(ie));
    }
    if a in index && index[a].outputID != o {
      NoStraysMoved(refs, d, bodies, index[a].outputID, o, StoredSize(ie), ie.loc, body, now);
    }
    hide Added, Released, Dropped;
  }

  lemma NoStraysMoved(refs: map<string, nat>, d: Disk, bodies: map<string, seq<Byte>>, was: string, o: string,
                      size: int,
                      loc: Loc, body: seq<Byte>, now: Disk)
    requires Holds(d, bodies) && NoStrays(d) && was != o && refs.Keys == bodies.Keys
    requires d.locs.Keys <= bodies.Keys && d.sizes.Keys == bodies.Keys
    requires IsPending(d, bodies, o, size, loc, body, now)
    ensures var disk := Released(now, refs, was);
            NoStrays(if o in Dropped(refs, was) then disk else Added(disk, o, size, loc))
  {
    hide Holds, Added, Pending, Released, NoStrays, Without;
    NoStraysWithout(d, refs, was);
    OtherOutputsStay(d, refs, was, o);
    ReleasedLocs(d, refs, was);
    if o !in bodies {
      ReleaseThenPending(d, refs, bodies, was, o, loc, body);
      NoStraysRecorded(Released(d, refs, was), o, size, loc, body);
    }
  }

  lemma ReleasedLocs(d: Disk, refs: map<string, nat>, o: string)
    ensures Released(d, refs, o).locs.Keys <= d.locs.Keys && Released(d, refs, o).sizes.Keys <= d.sizes.Keys
  {
  }

  lemma SameOutputs(index: Index, refs: map<string, nat>, d: Disk, bodies: map<string, seq<Byte>>)
    requires Holds(d, bodies) && d.sizes.Keys == refs.Keys
    ensures refs.Keys == bodies.Keys
  {
  }

  /** Writing and removing the file of an output that is not stored harms nothing. */
  lemma HoldsWithoutFile(d: Disk, bodies: map<string, seq<Byte>>, o: string, body: seq<Byte>)
    requires Holds(d, bodies) && o !in bodies
    ensures Holds(d.(files := d.files[o := body] - {o}), bodies)
  {
    hide OneToOne;
    assert OutputSlots(d.(files := d.files[o := body] - {o})) == OutputSlots(d);
  }

  lemma PendingIsWhole(d: Disk, bodies: map<string, seq<Byte>>, o: string, form: Form, loc: Loc, now: Disk)
    requires IsPending(d, bodies, o, FormSize(form), loc, form.body, now)
    ensures o !in bodies ==> |form.body| == FormSize(form)
  {
  }

  lemma StillReleasable(index: Index, d: Disk, now: Disk, bodies: map<string, seq<Byte>>, ie: Entry, body: seq<Byte>,
                        was: string)
    requires Fits(index, d, bodies) && IsPending(d, bodies, ie.outputID, StoredSize(ie), ie.loc, body, now)
    ensures now.locs == d.locs && now.sizes == d.sizes && now.locs.Keys <= now.sizes.Keys
    ensures was in now.locs ==> 0 < now.sizes[was] && SlotKey(now.sizes[was], now.locs[was]) in now.live
  {
    hide Holds, EntriesMatch;
    Releasable(d, bodies, was);
  }

  datatype Outcome = Saved | Skipped | Rejected

  class Store {
    const compress: bool
    const zstd: Zstd
    const poolDisabled: bool
    const maxDiskBytes: int
    const maxFileBytes: int
    const pool: Pool
    var index: Index
    var outputRefs: map<string, nat>
    var outputSizes: map<string, int>
    var outputLocs: map<string, Loc>
    var currentDiskBytes: int
    /** The plain files on disk, by OutputID. */
    var files: map<string, seq<Byte>>
    /** What each referenced output was saved with. */
    ghost var bodies: map<string, seq<Byte>>

    /** `outputRefs[o]` is the number of entries for `o`, and the total is over distinct outputs. */
    ghost predicate Counted()
      reads this`index, this`outputRefs, this`outputSizes, this`currentDiskBytes
    {
      RefsMatch(index, outputRefs) && outputRefs.Keys == outputSizes.Keys && currentDiskBytes == Total(outputSizes)
    }

    ghost function OnDisk(): Disk
      reads this`outputSizes, this`outputLocs, this`files, pool`live
    {
      Disk(outputSizes, outputLocs, pool.live, files)
    }

    ghost predicate Placed()
      reads this`index, this`outputSizes, this`outputLocs, this`files, this`bodies, pool`live
    {
      Holds(OnDisk(), bodies) && EntriesMatch(index, bodies, outputLocs)
    }

    /** No entry is over the file size limit. */
    ghost predicate Limited()
      reads this`index
    {
      forall a :: a in index ==> !TooLarge(index[a].size)
    }

    ghost predicate PoolOk()
      reads pool, pool.Repr
    {
      pool.Valid() && this !in pool.Repr
    }

    ghost predicate Valid()
      reads this, pool, pool.Repr
    {
      Counted() && Placed() && PoolOk() && Limited()
    }

    constructor (compress: bool, zstd: Zstd, poolDisabled: bool, maxDiskBytes: int, maxFileBytes: int, pool: Pool,
                 index: Index, files: map<string, seq<Byte>>)
      ensures this.compress == compress && this.zstd == zstd && this.poolDisabled == poolDisabled
      ensures this.maxDiskBytes == maxDiskBytes && this.maxFileBytes == maxFileBytes && this.pool == pool
      ensures this.index == index && this.files == files && currentDiskBytes == 0
      ensures outputRefs == map[] && outputSizes == map[] && outputLocs == map[] && bodies == map[]
    {
      this.compress, this.zstd, this.poolDisabled, this.pool := compress, zstd, poolDisabled, pool;
      this.maxDiskBytes, this.maxFileBytes, this.index, this.files := maxDiskBytes, maxFileBytes, index, files;
      currentDiskBytes, outputRefs, outputSizes, outputLocs, bodies := 0, map[], map[], map[], map[];
    }

    /** Drops one reference; the last one takes the output's storage with it. */
    method Release(o: string)
      requires PoolOk() && currentDiskBytes == Total(outputSizes) && outputLocs.Keys <= outputSizes.Keys
      requires outputSizes.Keys == outputRefs.Keys
      requires o in outputLocs ==> 0 < outputSizes[o] && SlotKey(outputSizes[o], outputLocs[o]) in pool.live
      modifies this`outputRefs, this`outputSizes, this`outputLocs, this`currentDiskBytes, this`files
      modifies pool`live, pool`pages, pool.Repr
      ensures PoolOk() && pool.Repr == old(pool.Repr) && currentDiskBytes == Total(outputSizes)
      ensures outputRefs == Dropped(old(outputRefs), o)
      ensures OnDisk() == Released(old(OnDisk()), old(outputRefs), o)
    {
      hide Pool.Valid;
      var refCount := if o in outputRefs then outputRefs[o] else 0;
      if refCount <= 1 {
        outputRefs := outputRefs - {o};
        var size := if o in outputSizes then outputSizes[o] else 0;
        if o in outputSizes {
          TotalRemove(outputSizes, o);
        } else {
          assert outputSizes - {o} == outputSizes;
        }
        currentDiskBytes := currentDiskBytes - size;
        outputSizes := outputSizes - {o};
        if o in outputLocs {
          pool.Free(size, outputLocs[o]);
          outputLocs := outputLocs - {o};
          return;
        }
        files := files - {o};
        return;
      }
      outputRefs := outputRefs[o := refCount - 1];
    }

    /** Drops an entry; its output's storage goes exactly when no other entry references it. */
    method Remove(a: string)
      requires Valid() && a in index
      modifies this, pool, pool.Repr
      ensures Valid() && pool.Repr == old(pool.Repr)
      ensures index == old(index) - {a} && outputRefs == Dropped(old(outputRefs), old(index)[a].outputID)
      ensures StorageAfterRemove(old(index), a, old(OnDisk()), old(bodies), OnDisk(), bodies)
    {
      hide RefsMatch, Holds, EntriesMatch, Pool.Valid, Without, Dropped;
      var o := index[a].outputID;
      Releasable(OnDisk(), bodies, o);
      RefsAfterRemove(index, outputRefs, a);
      EntriesAfterRemove(index, bodies, OnDisk(), a);
      HoldsWithout(OnDisk(), bodies, o);
      ReleasedKeys(OnDisk(), outputRefs, o);
      ghost var last := outputRefs[o] <= 1;
      index := index - {a};
      if last {
        bodies := bodies - {o};
      }
      Release(o);
    }

    /** Adds a reference; the first one brings the output's size and place. */
    method AddRef(o: string, size: int, loc: Loc)
      requires currentDiskBytes == Total(outputSizes) && outputRefs.Keys == outputSizes.Keys
      modifies this`outputRefs, this`outputSizes, this`outputLocs, this`currentDiskBytes
      ensures currentDiskBytes == Total(outputSizes) && outputRefs.Keys == outputSizes.Keys
      ensures outputRefs == Raised(old(outputRefs), o)
      ensures OnDisk() == if o in old(outputRefs) then old(OnDisk()) else Added(old(OnDisk()), o, size, loc)
    {
      if o !in outputRefs {
        TotalInsert(outputSizes, o, size);
        assert outputSizes - {o} == outputSizes;
        outputSizes := outputSizes[o := size];
        currentDiskBytes := currentDiskBytes + size;
        if !loc.IsZero() {
          outputLocs := outputLocs[o := loc];
        }
      }
      outputRefs := outputRefs[o := 1 + if o in outputRefs then outputRefs[o] else 0];
    }

    /** Moves an entry's reference from its old output to its new one. */
    method ReplaceRef(was: string, o: string, size: int, loc: Loc)
      requires PoolOk() && currentDiskBytes == Total(outputSizes) && outputLocs.Keys <= outputSizes.Keys
      requires outputSizes.Keys == outputRefs.Keys && was in outputRefs
      requires was in outputLocs ==> 0 < outputSizes[was] && SlotKey(outputSizes[was], outputLocs[was]) in pool.live
      modifies this`outputRefs, this`outputSizes, this`outputLocs, this`currentDiskBytes, this`files
      modifies pool`live, pool`pages, pool.Repr
      ensures PoolOk() && pool.Repr == old(pool.Repr)
      ensures currentDiskBytes == Total(outputSizes) && outputRefs.Keys == outputSizes.Keys
      ensures was == o ==>
        outputRefs == old(outputRefs) && OnDisk() == old(OnDisk()).(sizes := old(outputSizes)[o := size])
      ensures was != o ==>
        var refs, disk := Dropped(old(outputRefs), was), Released(old(OnDisk()), old(outputRefs), was);
        outputRefs == Raised(refs, o) && OnDisk() == if o in refs then disk else Added(disk, o, size, loc)
    {
      hide Pool.Valid, Without;
      if was == o {
        var oldSize := outputSizes[o];
        TotalRemove(outputSizes, o);
        TotalInsert(outputSizes, o, size);
        outputSizes := outputSizes[o := size];
        currentDiskBytes := currentDiskBytes + size - oldSize;
        return;
      }
      ReleasedKeys(OnDisk(), outputRefs, was);
      Release(was);
      AddRef(o, size, loc);
    }

    predicate TooLarge(size: int) {
      maxFileBytes > 0 && size > maxFileBytes
    }

    /** Looks an action up; a hit moves it to the end of the eviction order. */
    method GetOne(a: string, now: int) returns (hit: Option<Entry>)
      requires Valid()
      modifies this`index
      ensures Valid() && bodies == old(bodies)
      ensures hit.Some? <==> a in old(index) && (maxFileBytes <= 0 || old(index)[a].size <= maxFileBytes)
      ensures hit.Some? ==> hit.value == old(index)[a].(accessTimeMicro := now) && index == old(index)[a := hit.value]
      ensures hit.None? ==> index == old(index)
    {
      hide RefsMatch, EntriesMatch, Holds, Pool.Valid;
      if a !in index {
        return None;
      }
      var ie := index[a];
      if TooLarge(ie.size) {
        return None;
      }
      ie := ie.(accessTimeMicro := now);
      RefsAfterSameOutput(index, outputRefs, a, ie);
      EntriesAfterTouch(index, bodies, outputLocs, a, ie);
      index := index[a := ie];
      return Some(ie);
    }

    /** The bytes behind an entry: what its output was saved with. */
    method ReadOutput(a: string) returns (body: Option<seq<Byte>>)
      requires Valid() && a in index
      ensures index[a].outputID in bodies && body == Some(bodies[index[a].outputID])
    {
      hide RefsMatch, Pool.Valid, OneToOne;
      var ie := index[a];
      if !ie.loc.IsZero() {
        body := pool.Read(StoredSize(ie), ie.loc);
      } else {
        body := if ie.outputID in files then Some(files[ie.outputID]) else None;
      }
    }

    /** Evicts the least recently used entry, scanning the index in any order. */
    method EvictOne() returns (evicted: bool, victim: string)
      requires Valid()
      modifies this, pool, pool.Repr
      ensures Valid() && pool.Repr == old(pool.Repr)
      ensures evicted <==> old(index) != map[]
      ensures !evicted ==> index == old(index) && bodies == old(bodies) && OnDisk() == old(OnDisk())
      ensures evicted ==> victim in old(index) && index == old(index) - {victim}
      ensures evicted ==> forall a :: a in old(index) ==> UsedNoLater(old(index)[victim], old(index)[a])
      ensures evicted ==> forall a :: a in old(index) ==> LruTime(old(index)[victim]) <= LruTime(old(index)[a])
      ensures currentDiskBytes == old(currentDiskBytes) - if evicted then Freed(old(index), victim) else 0
      ensures evicted ==> StorageAfterRemove(old(index), victim, old(OnDisk()), old(bodies), OnDisk(), bodies)
    {
      hide RefsMatch, Holds, EntriesMatch, Pool.Valid, StorageAfterRemove, LruTime, Freed, UsedNoLater;
      victim, evicted := "", false;
      var todo := index.Keys;
      while todo != {}
        invariant todo <= index.Keys
        invariant evicted ==> victim in index && victim !in todo
        invariant evicted ==> forall a :: a in index && a !in todo ==> LruTime(index[victim]) <= LruTime(index[a])
        invariant !evicted ==> todo == index.Keys
        decreases |todo|
      {
        var a :| a in todo;
        todo := todo - {a};
        if !evicted || LruTime(index[a]) < LruTime(index[victim]) {
          victim, evicted := a, true;
        }
      }
      if evicted {
        LeastIsUsedNoLater(index, victim);
        ghost var before, disk, saved := index, OnDisk(), bodies;
        Remove(victim);
        BytesAfterRemove(before, victim, disk, saved, OnDisk(), bodies);
      }
    }

    predicate PoolEligible(size: int) {
      !poolDisabled && 0 < size <= pool.maxRecordBytes
    }

    /** The size has, or is about to get, a class of the pool. */
    ghost predicate IsPromoted(size: int)
      reads pool
    {
      size in pool.classes || (if size in pool.counts then pool.counts[size] else 0) + 1 >= pool.breakeven
    }

    /** Writes an upload's bytes, unless its output is already stored: then those are kept. */
    method StoreBody(o: string, form: Form, fault: Fault) returns (ok: bool, loc: Loc)
      requires Valid()
      modifies this`files, pool, pool.Repr
      ensures PoolOk() && fresh(pool.Repr - old(pool.Repr))
      ensures fault == NoFault ==> (ok <==> o in bodies || |form.body| == FormSize(form))
      ensures ok ==> IsPending(old(OnDisk()), bodies, o, FormSize(form), loc, form.body, OnDisk())
      ensures ok && o !in bodies ==>
        (loc.IsZero() <==>
         poolDisabled || !(0 < |form.body| <= pool.maxRecordBytes) || !old(IsPromoted(|form.body|)))
      ensures !ok ==> Valid()
      ensures !ok && old(NoStrays(OnDisk())) ==> NoStrays(OnDisk())
    {
      hide RefsMatch, EntriesMatch, Pool.Valid, Holds, Limited, FormSize;
      SameOutputs(index, outputRefs, OnDisk(), bodies);
      if o in outputRefs {
        return true, LocOf(outputLocs, o);
      }
      if PoolEligible(FormSize(form)) {
        ok, loc := StorePoolEligible(o, form, fault);
        return;
      }
      ok := WriteFile(o, form.body, FormSize(form), fault);
      HoldsWithoutFile(old(OnDisk()), bodies, o, form.body);
      return ok, Loc(0, 0);
    }

    /** A record small enough for the pool goes to a plain file while its size is not promoted. */
    method StorePoolEligible(o: string, form: Form, fault: Fault) returns (ok: bool, loc: Loc)
      requires Valid() && o !in bodies && PoolEligible(FormSize(form))
      modifies this`files, pool, pool.Repr
      ensures PoolOk() && fresh(pool.Repr - old(pool.Repr))
      ensures fault == NoFault ==> (ok <==> |form.body| == FormSize(form))
      ensures ok ==> IsPending(old(OnDisk()), bodies, o, FormSize(form), loc, form.body, OnDisk())
      ensures ok ==> (loc.IsZero() <==> !old(IsPromoted(|form.body|)))
      ensures !ok ==> Valid()
      ensures !ok && old(NoStrays(OnDisk())) ==> NoStrays(OnDisk())
    {
      hide RefsMatch, EntriesMatch, Pool.Valid, Holds, Limited, FormSize;
      var size := FormSize(form);
      if |form.body| != size {
        return false, Loc(0, 0);
      }
      var put := pool.Put(size, form.body, fault);
      if put.Failed? {
        return false, Loc(0, 0);
      }
      if put.Stored? {
        return true, put.loc;
      }
      ok := WriteFile(o, form.body, size, fault);
      HoldsWithoutFile(old(OnDisk()), bodies, o, form.body);
      return ok, Loc(0, 0);
    }

    /** Writes a plain file, and removes it again if the body turns out truncated. */
    method WriteFile(o: string, body: seq<Byte>, size: int, fault: Fault) returns (ok: bool)
      modifies this`files
      ensures fault == NoFault ==> (ok <==> |body| == size)
      ensures ok ==> |body| == size && files == old(files)[o := body]
      ensures !ok ==> files == old(files) || files == old(files)[o := body] - {o}
    {
      if fault != NoFault {
        return false;
      }
      files := files[o := body];
      if |body| != size {
        files := files - {o};
        return false;
      }
      return true;
    }

    /** Moves the references, once an upload's bytes are in place. `disk` is what was stored until then. */
    method Commit(a: string, ie: Entry, ghost body: seq<Byte>, ghost disk: Disk)
      requires Counted() && PoolOk() && outputSizes == disk.sizes && outputLocs == disk.locs
      requires Putting(index, outputRefs, disk, bodies, a, ie, body, OnDisk())
      modifies this, pool, pool.Repr
      ensures Counted() && PoolOk() && pool.Repr == old(pool.Repr)
      ensures index == old(index)[a := ie] && bodies == SavedAfterPut(old(index), old(bodies), a, ie.outputID, body)
      ensures SameContentSize(old(bodies), ie.outputID, StoredSize(ie)) == Fits(index, OnDisk(), bodies)
      ensures NoStrays(disk) ==> NoStrays(OnDisk())
    {
      hide Fits, RefsMatch, Pool.Valid, IsPending, SavedAfterPut, Released, Added, Dropped, Raised, SameContentSize,
        StoredSize, NoStrays;
      if NoStrays(disk) {
        NoStraysAfterPut(index, outputRefs, disk, bodies, a, ie, body, OnDisk());
      }
      ghost var saved := SavedAfterPut(index, bodies, a, ie.outputID, body);
      if a in index {
        var was := index[a].outputID;
        if was == ie.outputID {
          PutSameOutput(index, outputRefs, disk, bodies, a, ie, body, OnDisk());
        } else {
          PutOtherOutput(index, outputRefs, disk, bodies, a, ie, body, OnDisk());
        }
        StillReleasable(index, disk, OnDisk(), bodies, ie, body, was);
        ReplaceRef(was, ie.outputID, StoredSize(ie), ie.loc);
      } else {
        PutNewAction(index, outputRefs, disk, bodies, a, ie, body, OnDisk());
        AddRef(ie.outputID, StoredSize(ie), ie.loc);
      }
      index := index[a := ie];
      bodies := saved;
    }

    /** Stores one upload for an action, atomically with respect to other operations. */
    method PutOne(a: string, o: string, upload: Upload, now: int, fault: Fault) returns (r: Outcome)
      requires Valid()
      modifies this, pool, pool.Repr
      ensures Counted() && PoolOk() && fresh(pool.Repr - old(pool.Repr))
      ensures r.Skipped? <==> 0 < maxFileBytes < upload.size
      ensures fault == NoFault ==>
        (r.Saved? <==>
          && !TooLarge(upload.size) && o != "" && FormForPut(upload, compress, zstd).Some?
          && (o in old(bodies) || Admitted(upload, compress, zstd).Some?))
      ensures !r.Saved? ==> Valid() && index == old(index) && bodies == old(bodies)
      ensures old(NoStrays(OnDisk())) ==> NoStrays(OnDisk())
      ensures r.Saved? ==> FormForPut(upload, compress, zstd).Some? && a in index
      ensures r.Saved? && o !in old(bodies) ==> Admitted(upload, compress, zstd).Some?
      ensures r.Saved? ==>
        var form, ie := FormForPut(upload, compress, zstd).value, index[a];
        && ie.outputID == o && ie.size == upload.size && StoredSize(ie) == FormSize(form)
           && ie.compressed == form.compressed
        && ie.timeMicro == now && ie.accessTimeMicro == now
        && index == old(index)[a := ie] && bodies == SavedAfterPut(old(index), old(bodies), a, o, form.body)
        // A new output goes to the pool if it is small enough and its size is, or is about to be, promoted.
        && (o !in old(bodies) ==>
              (ie.loc.IsZero() <==>
               poolDisabled || !(0 < |form.body| <= pool.maxRecordBytes) || !old(IsPromoted(|form.body|))))
        // Sizes, locations and slots stay consistent exactly when the upload respects content addressing.
        && (Valid() <==> SameContentSize(old(bodies), o, FormSize(form)))
    {
      hide RefsMatch, EntriesMatch, Holds, Pool.Valid, IsPending, SavedAfterPut, SameContentSize, NoStrays;
      if TooLarge(upload.size) {
        return Skipped;
      }
      if o == "" {
        return Rejected;
      }
      var chosen := FormForPut(upload, compress, zstd);
      if chosen.None? {
        return Rejected;
      }
      var form := chosen.value;
      SameOutputs(index, outputRefs, OnDisk(), bodies);
      ghost var disk := OnDisk();
      var ok, loc := StoreBody(o, form, fault);
      if !ok {
        return Rejected;
      }
      PendingIsWhole(disk, bodies, o, form, loc, OnDisk());
      Commit(a, Entry(o, form.size, form.wireSize, form.compressed, now, now, loc), form.body, disk);
      return Saved;
    }

    /** One eviction on behalf of a budget that spans stores. */
    method EvictForBudget() returns (evicted: bool, ghost victim: string)
      requires Valid()
      modifies this, pool, pool.Repr
      ensures Valid() && pool.Repr == old(pool.Repr)
      ensures evicted <==> old(index) != map[]
      ensures !evicted ==> index == old(index) && currentDiskBytes == old(currentDiskBytes)
      ensures evicted ==> victim in old(index) && index == old(index) - {victim}
      ensures evicted ==>
        && currentDiskBytes == old(currentDiskBytes) - Freed(old(index), victim)
        && forall a :: a in old(index) ==> UsedNoLater(old(index)[victim], old(index)[a])
    {
      hide Valid, StorageAfterRemove, UsedNoLater, Freed;
      evicted, victim := EvictOne();
    }

    predicate OverBudget()
      reads this`currentDiskBytes
    {
      maxDiskBytes > 0 && currentDiskBytes > maxDiskBytes
    }

    function Target(): int {
      maxDiskBytes - maxDiskBytes / EVICTION_MARGIN_FRACTION
    }

    /** Budget eviction: nothing at or below the limit, else down to the margin. */
    method EvictIfNeeded()
      requires Valid()
      modifies this, pool, pool.Repr
      ensures Valid() && pool.Repr == old(pool.Repr)
      ensures maxDiskBytes <= 0 || old(currentDiskBytes) <= maxDiskBytes ==>
        index == old(index) && OnDisk() == old(OnDisk())
      // Exactly as much goes as is needed to have a tenth of the limit free, in order of last use.
      ensures 0 < maxDiskBytes < old(currentDiskBytes) ==>
        && currentDiskBytes <= maxDiskBytes - maxDiskBytes / 10
        && LastWasNeeded(old(index), index, currentDiskBytes, maxDiskBytes - maxDiskBytes / 10)
        && InOrder(old(index), index)
      ensures index.Keys <= old(index.Keys) && forall a :: a in index ==> index[a] == old(index)[a]
      ensures FewerBodies(old(bodies), bodies)
      ensures old(NoStrays(OnDisk())) ==> NoStrays(OnDisk())
    {
      hide RefsMatch, Holds, EntriesMatch, Pool.Valid, StorageAfterRemove, NoStrays;
      hide UsedNoLater, LastWasNeeded, Freed;
      if !OverBudget() {
        return;
      }
      assert 0 <= Target() == maxDiskBytes - maxDiskBytes / 10 < currentDiskBytes;
      hide Target;
      while currentDiskBytes > Target()
        invariant InOrder(old(index), index)
        invariant currentDiskBytes > Target() || LastWasNeeded(old(index), index, currentDiskBytes, Target())
        invariant Valid() && pool.Repr == old(pool.Repr)
        invariant index.Keys <= old(index.Keys) && forall a :: a in index ==> index[a] == old(index)[a]
        invariant FewerBodies(old(bodies), bodies)
        invariant old(NoStrays(OnDisk())) ==> NoStrays(OnDisk())
        decreases |index|
      {
        ghost var before, disk, saved := index, OnDisk(), bodies;
        var evicted, victim := EvictOne();
        if !evicted {
          NothingStored(index, outputRefs);
          break;
        }
        BodiesAfterRemove(before, victim, disk, saved, OnDisk(), bodies);
        OneMoreInOrder(old(index), before, index, victim);
        if currentDiskBytes <= Target() {
          NeededOneMore(old(index), before, index, victim, currentDiskBytes, Target());
        }
        assert |index| < |before|;
      }
    }

    /** Drops what an integrity scan found broken, unless it has been replaced meanwhile. */
    method RemoveIfUnchanged(a: string, expected: Entry) returns (removed: bool)
      requires Valid()
      modifies this, pool, pool.Repr
      ensures Valid() && pool.Repr == old(pool.Repr)
      ensures removed <==> a in old(index) && old(index)[a] == expected
      ensures index == if removed then old(index) - {a} else old(index)
      ensures !removed ==> bodies == old(bodies) && OnDisk() == old(OnDisk())
      ensures removed ==> StorageAfterRemove(old(index), a, old(OnDisk()), old(bodies), OnDisk(), bodies)
    {
      hide Counted, Placed, PoolOk, StorageAfterRemove;
      if a !in index || index[a] != expected {
        return false;
      }
      Remove(a);
      return true;
    }

    /** Drops what a preload found broken, releasing the output of the entry the preload saw. The
        counts survive exactly when the current entry still references that output. */
    method RemoveBrokenActionEntry(a: string, seen: Entry)
      requires Valid()
      modifies this, pool, pool.Repr
      ensures index == old(index) - {a}
      ensures a in old(index) ==> outputRefs == Dropped(old(outputRefs), seen.outputID)
      ensures a !in old(index) ==> Valid()
      ensures a in old(index) ==> (Counted() <==> old(index)[a].outputID == seen.outputID)
      ensures a in old(index) && old(index)[a].outputID == seen.outputID ==> Valid()
    {
      hide RefsMatch, Holds, EntriesMatch, Pool.Valid;
      if a !in index {
        assert index - {a} == index;
        return;
      }
      if index[a].outputID == seen.outputID {
        Remove(a);
        return;
      }
      Releasable(OnDisk(), bodies, seen.outputID);
      WrongOutputReleased(index, outputRefs, a, seen.outputID);
      index := index - {a};
      Release(seen.outputID);
    }
  }

  ghost predicate FewerBodies(before: map<string, seq<Byte>>, after: map<string, seq<Byte>>) {
    forall o :: o in after ==> o in before && after[o] == before[o]
  }

  lemma BodiesAfterRemove(index: Index, a: string, disk: Disk, bodies: map<string, seq<Byte>>,
                          diskNow: Disk, bodiesNow: map<string, seq<Byte>>)
    requires a in index && StorageAfterRemove(index, a, disk, bodies, diskNow, bodiesNow)
    ensures FewerBodies(bodies, bodiesNow)
    ensures NoStrays(disk) ==> NoStrays(diskNow)
  {
  }

  lemma BytesAfterRemove(index: Index, a: string, disk: Disk, bodies: map<string, seq<Byte>>,
                         diskNow: Disk, bodiesNow: map<string, seq<Byte>>)
    requires a in index && EntriesMatch(index, bodies, disk.locs) && Holds(disk, bodies)
    requires StorageAfterRemove(index, a, disk, bodies, diskNow, bodiesNow)
    ensures Total(diskNow.sizes) == Total(disk.sizes) - Freed(index, a)
  {
    hide OneToOne, PoolHolds, FilesHold;
    TotalRemove(disk.sizes, index[a].outputID);
  }

  /** What removing an entry leaves stored. */
  ghost predicate StorageAfterRemove(index: Index, a: string, disk: Disk, bodies: map<string, seq<Byte>>,
                                     diskNow: Disk, bodiesNow: map<string, seq<Byte>>)
    requires a in index
  {
    var o := index[a].outputID;
    if exists b :: b in index && b != a && index[b].outputID == o then diskNow == disk && bodiesNow == bodies
    else diskNow == Without(disk, o) && bodiesNow == bodies - {o}
  }

  /** A whole body for a new output, saved without a fault. */
  method SaveOutput(s: Store, a: string, o: string, body: seq<Byte>, now: int)
    requires s.Valid() && o != "" && o !in s.bodies && !s.compress && s.maxFileBytes <= 0
    modifies s, s.pool, s.pool.Repr
    ensures s.Valid() && fresh(s.pool.Repr - old(s.pool.Repr))
    ensures a in s.index && s.index == old(s.index)[a := s.index[a]] && s.index[a].outputID == o
    ensures s.bodies == SavedAfterPut(old(s.index), old(s.bodies), a, o, body)
  {
    hide RefsMatch, Holds, EntriesMatch, Pool.Valid, NoStrays, SavedAfterPut, Store.Counted, Store.Placed,
      Store.Limited;
    var r := s.PutOne(a, o, Upload(|body|, 0, false, body), now, NoFault);
  }

  /** A hit outlives whatever was neither saved nor hit since. */
  method HitIsEvictedLater(s: Store, a: string, unused: string, now: int) returns (evicted: bool, victim: string)
    requires s.Valid() && a in s.index && unused in s.index && unused != a && now != 0
    requires s.maxFileBytes <= 0 || s.index[a].size <= s.maxFileBytes
    requires s.index[unused].accessTimeMicro == 0 ==> s.index[unused].timeMicro < now
    requires s.index[unused].accessTimeMicro != 0 ==> s.index[unused].accessTimeMicro < now
    modifies s, s.pool, s.pool.Repr
    ensures s.Valid() && evicted && victim != a && a in s.index && s.index[a].accessTimeMicro == now
  {
    hide Store.Valid, StorageAfterRemove, Freed, LruTime;
    var hit := s.GetOne(a, now);
    ghost var before := s.index;
    assert unused in before;
    evicted, victim := s.EvictOne();
    assert UsedNoLater(before[victim], before[unused]);
  }

  /** An action that gets another output after a preload has looked at it, and before the preload drops
      it as broken: nothing references the new output any more, and it stays counted. */
  method StaleRemovalMiscounts(s: Store, a: string, body: seq<Byte>, now: int)
    requires s.Valid() && s.index == map[] && !s.compress && s.maxFileBytes <= 0
    modifies s, s.pool, s.pool.Repr
    ensures s.index == map[] && s.outputRefs == map["y" := 1] && !s.Counted()
  {
    hide Store.Valid, Store.Counted, SavedAfterPut;
    NothingSaved(s);
    SaveOutput(s, a, "x", body, now);
    OnlySaved(a, "x", body);
    var seen := s.index[a];
    SaveOutput(s, a, "y", body, now);
    OneReferenced(s, a);
    s.RemoveBrokenActionEntry(a, seen);
    assert s.index == map[];
  }

  lemma OneReferenced(s: Store, a: string)
    requires s.Valid() && s.index.Keys == {a}
    ensures s.outputRefs == map[s.index[a].outputID := 1]
  {
    hide Pool.Valid, Holds, EntriesMatch;
    OneCounted(s.index, s.outputRefs, a);
  }

  lemma OnlySaved(a: string, o: string, body: seq<Byte>)
    ensures SavedAfterPut(map[], map[], a, o, body).Keys == {o}
  {
  }

  lemma OneCounted(index: Index, refs: map<string, nat>, a: string)
    requires RefsMatch(index, refs) && index.Keys == {a}
    ensures refs == map[index[a].outputID := 1]
  {
    assert Users(index, index[a].outputID) == {a};
  }

  lemma NothingSaved(s: Store)
    requires s.Valid() && s.index == map[]
    ensures s.bodies == map[]
  {
    hide Pool.Valid;
  }
}
