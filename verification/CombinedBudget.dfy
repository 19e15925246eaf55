/** One disk budget over both stores, either of which may be absent. */
module CombinedBudget {
  import opened Common
  import LocalStore
  import GocacheStore
  import EvictionHeap

  const EVICTION_MARGIN_FRACTION := 10

  /** What the two stores index, and the bytes each has on disk. */
  datatype Holdings = Holdings(local: LocalStore.Index, gocache: GocacheStore.Index,
                               localBytes: int, gocacheBytes: int)

  /** The least recently used entry of the content-addressed store is gone, and nothing else. */
  ghost predicate LocalWent(before: Holdings, after: Holdings) {
    exists a :: a in before.local
      && after ==
           before.(local := before.local - {a}, localBytes := before.localBytes - LocalStore.Freed(before.local, a))
      && forall b :: b in before.local ==> LocalStore.UsedNoLater(before.local[a], before.local[b])
  }

  function Bytes(ie: GocacheStore.IndexEntry): int {
    if ie.wireSize > 0 then ie.wireSize else ie.size
  }

  /** The entry of the native store that goes first is gone, and nothing else. */
  ghost predicate GocacheWent(before: Holdings, after: Holdings, bucket: EvictionHeap.Bucket) {
    exists p :: p in before.gocache
      && after ==
           before.(gocache := before.gocache - {p}, gocacheBytes := before.gocacheBytes - Bytes(before.gocache[p]))
      && forall q :: q in before.gocache ==> GocacheStore.GoesNoLater(before.gocache[p], before.gocache[q], bucket)
  }

  /** One entry is gone, from the store that held the most bytes unless that one was empty. */
  ghost predicate OneWent(before: Holdings, after: Holdings, bucket: EvictionHeap.Bucket) {
    || (LocalWent(before, after) && (before.localBytes >= before.gocacheBytes || before.gocache == map[]))
    || (GocacheWent(before, after, bucket) && (before.gocacheBytes >= before.localBytes || before.local == map[]))
  }

  /** Each store has given up its entries in its own order. */
  ghost predicate InOrder(before: Holdings, after: Holdings, bucket: EvictionHeap.Bucket) {
    && Shrunk(before.local, after.local) && LocalStore.InOrder(before.local, after.local)
    && Shrunk(before.gocache, after.gocache) && GocacheStore.InOrder(before.gocache, after.gocache, bucket)
  }

  /** What a store holds above its share, or above the other store while that one has entries, is what
      makes it the one to evict from. */
  function Threshold(margin: int, otherBytes: int, otherEmpty: bool): int {
    if otherEmpty || otherBytes - 1 <= margin - otherBytes then margin - otherBytes else otherBytes - 1
  }

  /** The entry that went last was needed, and came from the store that then held the most bytes unless
      the other one was empty. */
  ghost predicate LastWasNeeded(before: Holdings, after: Holdings, margin: int, bucket: EvictionHeap.Bucket) {
    || LocalStore.LastWasNeeded(before.local, after.local, after.localBytes,
                                Threshold(margin, after.gocacheBytes, after.gocache == map[]))
    || GocacheStore.LastWasNeeded(before.gocache, after.gocache, after.gocacheBytes,
                                  Threshold(margin, after.localBytes, after.local == map[]), bucket)
  }

  lemma NoneGone(held: Holdings, bucket: EvictionHeap.Bucket)
    ensures InOrder(held, held, bucket)
  {
  }

  lemma FewerLeft(before: Holdings, after: Holdings, bucket: EvictionHeap.Bucket)
    requires OneWent(before, after, bucket)
    ensures |after.local| + |after.gocache| == |before.local| + |before.gocache| - 1
  {
    hide LocalStore.UsedNoLater, GocacheStore.GoesNoLater, LocalStore.Freed;
  }

  lemma OneMoreInOrder(start: Holdings, before: Holdings, after: Holdings, bucket: EvictionHeap.Bucket)
    requires InOrder(start, before, bucket) && OneWent(before, after, bucket)
    ensures InOrder(start, after, bucket)
  {
    hide LocalStore.InOrder, GocacheStore.InOrder, LocalStore.UsedNoLater, GocacheStore.GoesNoLater, LocalStore.Freed;
    if LocalWent(before, after) {
      var a :| a in before.local && after.local == before.local - {a}
        && forall b :: b in before.local ==> LocalStore.UsedNoLater(before.local[a], before.local[b]);
      LocalStore.OneMoreInOrder(start.local, before.local, after.local, a);
    } else {
      var p :| p in before.gocache && after.gocache == before.gocache - {p}
        && forall q :: q in before.gocache ==> GocacheStore.GoesNoLater(before.gocache[p], before.gocache[q], bucket);
      GocacheStore.InOrderFurther(start.gocache, before.gocache, after.gocache, p, bucket);
    }
  }

  lemma NeededOneMore(start: Holdings, before: Holdings, after: Holdings, margin: int, bucket: EvictionHeap.Bucket)
    requires InOrder(start, before, bucket) && OneWent(before, after, bucket)
    requires after.localBytes + after.gocacheBytes <= margin < before.localBytes + before.gocacheBytes
    ensures LastWasNeeded(start, after, margin, bucket)
  {
    hide LocalStore.InOrder, GocacheStore.InOrder, LocalStore.UsedNoLater, GocacheStore.GoesNoLater, LocalStore.Freed;
    hide LocalStore.LastWasNeeded, GocacheStore.LastWasNeeded;
    if LocalWent(before, after) && (before.localBytes >= before.gocacheBytes || before.gocache == map[]) {
      var a :| a in before.local && after.local == before.local - {a}
        && after.localBytes == before.localBytes - LocalStore.Freed(before.local, a);
      LocalStore.NeededOneMore(start.local, before.local, after.local, a, after.localBytes,
                               Threshold(margin, after.gocacheBytes, after.gocache == map[]));
    } else {
      var p :| p in before.gocache && after.gocache == before.gocache - {p}
        && after.gocacheBytes == before.gocacheBytes - Bytes(before.gocache[p]);
      GocacheStore.NeededOneMore(start.gocache, before.gocache, after.gocache, p, after.gocacheBytes,
                                 Threshold(margin, after.localBytes, after.local == map[]), bucket);
    }
  }

  class Handler {
    const combinedMaxDiskBytes: int
    const store: LocalStore.Store?
    const gocacheStore: GocacheStore.Store?

    constructor (combinedMaxDiskBytes: int, store: LocalStore.Store?, gocacheStore: GocacheStore.Store?)
      ensures this.combinedMaxDiskBytes == combinedMaxDiskBytes && this.store == store
        && this.gocacheStore == gocacheStore
    {
      this.combinedMaxDiskBytes, this.store, this.gocacheStore := combinedMaxDiskBytes, store, gocacheStore;
    }

    ghost function StoreFootprint(): set<object>
      reads if store == null then {} else {store, store.pool}
    {
      if store == null then {} else {store, store.pool} + store.pool.Repr
    }

    ghost function GocacheFootprint(): set<object>
      reads if gocacheStore == null then {} else {gocacheStore, gocacheStore.pool}
    {
      if gocacheStore == null then {}
      else {gocacheStore, gocacheStore.pool, gocacheStore.evictHeap} + gocacheStore.pool.Repr
    }

    /** The stores share no storage. */
    static ghost predicate Apart(l: LocalStore.Store, g: GocacheStore.Store)
      reads l.pool`Repr, g.pool`Repr
    {
      && l.pool != g.pool && l.pool.Repr !! g.pool.Repr
      && l !in g.pool.Repr && l.pool !in g.pool.Repr
      && g !in l.pool.Repr && g.pool !in l.pool.Repr && g.evictHeap !in l.pool.Repr
    }

    ghost predicate Valid()
      reads StoreFootprint(), GocacheFootprint()
    {
      && (store == null || gocacheStore == null || Apart(store, gocacheStore))
      && (store == null || store.Valid())
      && (gocacheStore == null || (gocacheStore.Valid() && gocacheStore.Covered()))
    }

    function StoreBytes(): int
      reads if store == null then {} else {store}
    {
      if store == null then 0 else store.currentDiskBytes
    }

    function GocacheBytes(): int
      reads if gocacheStore == null then {} else {gocacheStore}
    {
      if gocacheStore == null then 0 else gocacheStore.currentDiskBytes
    }

    /** What there is to evict. */
    ghost function Held(): Holdings
      reads if store == null then {} else {store}, if gocacheStore == null then {} else {gocacheStore}
    {
      Holdings(if store == null then map[] else store.index,
               if gocacheStore == null then map[] else gocacheStore.index,
               if store == null then 0 else store.currentDiskBytes,
               if gocacheStore == null then 0 else gocacheStore.currentDiskBytes)
    }

    /** The recency window of the native store. */
    ghost function Window(): EvictionHeap.Bucket {
      if gocacheStore == null then 0 else gocacheStore.evictHeap.bucket
    }

    /** Evicts from the content-addressed store, if there is one. */
    method EvictStore() returns (evicted: bool)
      requires Valid()
      modifies StoreFootprint()
      ensures Valid() && SameFootprints()
      ensures evicted <==> old(Held()).local != map[]
      ensures if evicted then LocalWent(old(Held()), Held()) else Held() == old(Held())
    {
      hide LocalStore.Store.Valid, GocacheStore.Store.Valid, GocacheStore.Store.Covered;
      hide LocalStore.UsedNoLater, LocalStore.Freed;
      if store == null {
        return false;
      }
      ghost var victim;
      evicted, victim := store.EvictForBudget();
      OnlyStoreChanged();
      hide Valid, SameFootprints;
    }

    method EvictGocacheStore() returns (evicted: bool)
      requires Valid()
      modifies GocacheFootprint()
      ensures Valid() && SameFootprints()
      ensures evicted <==> old(Held()).gocache != map[]
      ensures if evicted then GocacheWent(old(Held()), Held(), Window()) else Held() == old(Held())
    {
      hide LocalStore.Store.Valid, GocacheStore.Store.Valid, GocacheStore.Store.Covered;
      hide GocacheStore.GoesNoLater;
      if gocacheStore == null {
        return false;
      }
      ghost var victim;
      evicted, victim := gocacheStore.EvictForBudget();
      OnlyGocacheStoreChanged();
      hide Valid, SameFootprints;
    }

    twostate predicate SameFootprints()
      reads StoreFootprint(), GocacheFootprint()
    {
      StoreFootprint() == old(StoreFootprint()) && GocacheFootprint() == old(GocacheFootprint())
    }

    twostate lemma OnlyStoreChanged()
      requires old(Valid()) && store != null && store.Valid() && store.pool.Repr == old(store.pool.Repr)
      requires gocacheStore != null ==>
        && unchanged(gocacheStore) && unchanged(gocacheStore.evictHeap)
        && unchanged(gocacheStore.pool) && unchanged(gocacheStore.pool.Repr)
      ensures Valid() && SameFootprints()
    {
      hide LocalStore.Store.Valid, GocacheStore.Store.Valid, GocacheStore.Store.Covered;
      if gocacheStore != null {
        assert old(gocacheStore.Valid() && gocacheStore.Covered());
        assert gocacheStore.Valid();
        assert gocacheStore.Covered();
      }
    }

    twostate lemma OnlyGocacheStoreChanged()
      requires old(Valid()) && gocacheStore != null && gocacheStore.Valid() && gocacheStore.Covered()
      requires gocacheStore.pool.Repr == old(gocacheStore.pool.Repr)
      requires store != null ==>
        unchanged(store) && unchanged(store.pool) && unchanged(store.pool.Repr)
      ensures Valid() && SameFootprints()
    {
      hide LocalStore.Store.Valid, GocacheStore.Store.Valid, GocacheStore.Store.Covered;
      if store != null {
        assert old(store.Valid());
        assert store.Valid();
      }
    }

    lemma NothingLeft()
      requires Valid()
      ensures Held().local == map[] ==> Held().localBytes == 0
      ensures Held().gocache == map[] ==> Held().gocacheBytes == 0
    {
      if store != null && store.index == map[] {
        LocalStore.NothingStored(store.index, store.outputRefs);
        assert store.outputSizes == map[];
      }
      if gocacheStore != null && gocacheStore.index == map[] {
        assert GocacheStore.Sizes(gocacheStore.index) == map[];
      }
    }

    function TotalBytes(): int
      reads if store == null then {} else {store}, if gocacheStore == null then {} else {gocacheStore}
    {
      StoreBytes() + GocacheBytes()
    }

    /** The margin an eviction pass clears down to. */
    function Target(): int {
      combinedMaxDiskBytes - combinedMaxDiskBytes / EVICTION_MARGIN_FRACTION
    }

    /** Evicts one entry from the store that holds the most bytes, or from the other if it is empty. */
    method EvictFromLargest() returns (evicted: bool)
      requires Valid()
      modifies StoreFootprint(), GocacheFootprint()
      ensures Valid() && SameFootprints()
      ensures evicted ==> OneWent(old(Held()), Held(), Window())
      ensures !evicted ==> Held() == old(Held()) && Held().localBytes == 0 && Held().gocacheBytes == 0
    {
      hide Valid, StoreFootprint, GocacheFootprint, LocalWent, GocacheWent;
      var storeFirst :| (storeFirst ==> StoreBytes() >= GocacheBytes())
        && (!storeFirst ==> GocacheBytes() >= StoreBytes());
      if storeFirst {
        evicted := EvictStore();
        if !evicted {
          evicted := EvictGocacheStore();
        }
      } else {
        evicted := EvictGocacheStore();
        if !evicted {
          evicted := EvictStore();
        }
      }
      NothingLeft();
    }

    /** At or below the real limit nothing is evicted; above it, exactly as much goes as is needed to have a
        tenth of the limit free, each entry from the store that then holds the most. */
    method EnforceCombinedBudget()
      requires Valid()
      modifies StoreFootprint(), GocacheFootprint()
      ensures Valid()
      ensures var before := old(Held());
              if 0 < combinedMaxDiskBytes < before.localBytes + before.gocacheBytes then
                var margin := combinedMaxDiskBytes - combinedMaxDiskBytes / 10;
                && Held().localBytes + Held().gocacheBytes <= margin
                && LastWasNeeded(before, Held(), margin, Window())
                && InOrder(before, Held(), Window())
              else
                Held() == before
    {
      hide Valid, StoreFootprint, GocacheFootprint, OneWent, LastWasNeeded;
      if combinedMaxDiskBytes <= 0 || (store == null && gocacheStore == null) {
        return;
      }
      if TotalBytes() <= combinedMaxDiskBytes {
        return;
      }
      assert 0 <= Target() == combinedMaxDiskBytes - combinedMaxDiskBytes / 10 < TotalBytes();
      NoneGone(Held(), Window());
      hide InOrder, Target;
      while TotalBytes() > Target()
        invariant Valid() && SameFootprints()
        invariant InOrder(old(Held()), Held(), Window())
        invariant TotalBytes() > Target() || LastWasNeeded(old(Held()), Held(), Target(), Window())
        decreases |Held().local| + |Held().gocache|
      {
        ghost var before := Held();
        var evicted := EvictFromLargest();
        if !evicted {
          return;
        }
        FewerLeft(before, Held(), Window());
        OneMoreInOrder(old(Held()), before, Held(), Window());
        if TotalBytes() <= Target() {
          NeededOneMore(old(Held()), before, Held(), Target(), Window());
        }
      }
    }
  }
}
