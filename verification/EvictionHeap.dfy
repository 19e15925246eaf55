/** The eviction order of the native GOCACHE store and the binary heap that serves it:
    `moreEvictable` and `evictionHeap` over the sift-up and sift-down of container/heap. */
module EvictionHeap {

  /** A recency window in nanoseconds. Zero or less means strict LRU; a window of less than a
      microsecond would make the source divide by zero. */
  type Bucket = b: int | b <= 0 || 1000 <= b

  datatype Entry = Entry(path: string, size: int, modTimeMicro: int)

  /** Integer division of the source language: it truncates towards zero. */
  function TruncDiv(a: int, b: int): int
    requires 0 < b
  {
    if 0 <= a then a / b else -((-a) / b)
  }

  /** The quotient of the magnitudes, negative for a negative dividend. */
  lemma TruncatesTowardsZero(a: int, b: int)
    requires 0 < b
    ensures TruncDiv(-a, b) == -TruncDiv(a, b)
    ensures 0 <= a ==> 0 <= TruncDiv(a, b) && TruncDiv(a, b) * b <= a < TruncDiv(a, b) * b + b
  {
  }

  /** Whether an object saved at `modA` of `sizeA` bytes goes before one saved at `modB` of `sizeB` bytes. */
  predicate MoreEvictable(modA: int, sizeA: int, modB: int, sizeB: int, bucket: Bucket) {
    if bucket <= 0 then
      modA < modB
    else
      var micros := bucket / 1000;
      var bucketA, bucketB := TruncDiv(modA, micros), TruncDiv(modB, micros);
      if bucketA != bucketB then bucketA < bucketB else sizeA > sizeB
  }

  predicate Less(a: Entry, b: Entry, bucket: Bucket) {
    MoreEvictable(a.modTimeMicro, a.size, b.modTimeMicro, b.size, bucket)
  }

  /** `Less` is a strict weak order: irreflexive, and "not less" composes. */
  lemma LessIsStrictWeakOrder(a: Entry, b: Entry, c: Entry, bucket: Bucket)
    ensures !Less(a, a, bucket)
    ensures Less(a, b, bucket) && Less(b, c, bucket) ==> Less(a, c, bucket)
    ensures !Less(a, b, bucket) && !Less(b, c, bucket) ==> !Less(a, c, bucket)
  {
  }

  /** Preferring size over age is bounded: what is evicted first is never newer by a whole window,
      and anything older by a whole window does go first. */
  lemma EvictionRespectsAge(a: Entry, b: Entry, bucket: Bucket)
    requires 0 <= a.modTimeMicro && 0 <= b.modTimeMicro
    requires 1000 <= bucket
    ensures Less(a, b, bucket) ==> a.modTimeMicro < b.modTimeMicro + bucket / 1000
    ensures a.modTimeMicro + bucket / 1000 <= b.modTimeMicro ==> Less(a, b, bucket)
  {
    var m := bucket / 1000;
    var qa, qb := a.modTimeMicro / m, b.modTimeMicro / m;
    assert a.modTimeMicro == qa * m + a.modTimeMicro % m;
    assert b.modTimeMicro == qb * m + b.modTimeMicro % m;
    if qa < qb {
      MulLe(qa + 1, qb, m);
    }
    if qb < qa {
      MulLe(qb + 1, qa, m);
    }
  }

  lemma MulLe(x: int, y: int, m: int)
    requires x <= y && 0 <= m
    ensures x * m <= y * m
  {
  }

  function Parent(i: nat): nat {
    if i == 0 then 0 else (i - 1) / 2
  }

  ghost predicate IsHeap(items: seq<Entry>, bucket: Bucket) {
    forall i :: 1 <= i < |items| ==> !Less(items[i], items[Parent(i)], bucket)
  }

  /** No item of a heap goes before its root. */
  lemma {:induction false} RootGoesFirst(items: seq<Entry>, bucket: Bucket, i: nat)
    requires IsHeap(items, bucket) && i < |items|
    ensures !Less(items[i], items[0], bucket)
  {
    if i != 0 {
      RootGoesFirst(items, bucket, Parent(i));
      LessIsStrictWeakOrder(items[i], items[Parent(i)], items[0], bucket);
    }
  }

  function Swapped(items: seq<Entry>, i: nat, j: nat): (r: seq<Entry>)
    requires i < |items| && j < |items|
    ensures |r| == |items|
    ensures multiset(r) == multiset(items)
  {
    var r := items[i := items[j]][j := items[i]];
    SwapKeepsItems(items, i, j);
    r
  }

  lemma SwapKeepsItems(items: seq<Entry>, i: nat, j: nat)
    requires i < |items| && j < |items|
    ensures multiset(items[i := items[j]][j := items[i]]) == multiset(items)
  {
  }

  class Heap {
    var items: seq<Entry>
    const bucket: Bucket

    ghost predicate Valid()
      reads this
    {
      IsHeap(items, bucket)
    }

    constructor (bucket: Bucket)
      ensures Valid() && items == [] && this.bucket == bucket
    {
      this.items, this.bucket := [], bucket;
    }

    method Push(e: Entry)
      requires Valid()
      modifies this
      ensures Valid()
      ensures multiset(items) == multiset(old(items)) + multiset{e}
    {
      items := items + [e];
      Up(|items| - 1);
    }

    /** Removes an item that no other item goes before. */
    method Pop() returns (e: Entry, ok: bool)
      requires Valid()
      modifies this
      ensures Valid()
      ensures ok == (old(items) != [])
      ensures !ok ==> items == []
      ensures ok ==> multiset(old(items)) == multiset(items) + multiset{e}
      ensures ok ==> forall x :: x in old(items) ==> !Less(x, e, bucket)
    {
      if items == [] {
        return Entry("", 0, 0), false;
      }
      forall i | 0 <= i < |items|
        ensures !Less(items[i], items[0], bucket)
      {
        RootGoesFirst(items, bucket, i);
      }
      ghost var before := items;
      var n := |items| - 1;
      items := Swapped(items, 0, n);
      assert forall i {:trigger items[i]} :: 1 <= i < n ==> items[i] == before[i];
      Down(n);
      e, ok := items[n], true;
      assert items == items[..n] + [e];
      items := items[..n];
    }

    /** Sift-up of the last item. */
    method Up(last: nat)
      requires last < |items|
      requires forall i :: 1 <= i < |items| && i != last ==> !Less(items[i], items[Parent(i)], bucket)
      requires last == |items| - 1
      modifies this
      ensures Valid()
      ensures multiset(items) == multiset(old(items))
    {
      var j: nat := last;
      while true
        invariant j < |items|
        invariant multiset(items) == multiset(old(items))
        invariant forall i :: 1 <= i < |items| && i != j ==> !Less(items[i], items[Parent(i)], bucket)
        invariant forall i :: 1 <= i < |items| && Parent(i) == j ==> !Less(items[i], items[Parent(j)], bucket)
        decreases j
      {
        var i := Parent(j);
        if i == j || !Less(items[j], items[i], bucket) {
          break;
        }
        ghost var before := items;
        items := Swapped(items, i, j);
        UpStep(before, items, j, bucket);
        j := i;
      }
    }

    /** Sift-down of the root among the first `n` items. */
    method Down(n: nat)
      requires n < |items|
      requires DownFrom(items, 0, n, bucket)
      modifies this
      ensures |items| == |old(items)|
      ensures IsHeap(items[..n], bucket)
      ensures items[n..] == old(items)[n..]
      ensures multiset(items) == multiset(old(items))
    {
      hide DownFrom, LeastChild, IsHeap, Less;
      var i: nat := 0;
      while true
        invariant |items| == |old(items)|
        invariant i < n || i == 0
        invariant items[n..] == old(items)[n..]
        invariant multiset(items) == multiset(old(items))
        invariant DownFrom(items, i, n, bucket)
        decreases n - i
      {
        var j1: nat := 2 * i + 1;
        if j1 >= n {
          DownEnds(items, i, n, bucket);
          break;
        }
        var j := j1;
        var j2 := j1 + 1;
        if j2 < n && Less(items[j2], items[j1], bucket) {
          j := j2;
        }
        LesserChild(items, i, j, n, bucket);
        if !Less(items[j], items[i], bucket) {
          DownStops(items, i, j, n, bucket);
          break;
        }
        ghost var before := items;
        items := Swapped(items, i, j);
        DownStep(before, items, i, j, n, bucket);
        i := j;
      }
    }
  }

  /** Heap order among the first `n` items, except possibly between `i` and its children. */
  ghost predicate DownFrom(items: seq<Entry>, i: nat, n: nat, bucket: Bucket)
    requires n <= |items|
  {
    && (forall k :: 1 <= k < n && Parent(k) != i ==> !Less(items[k], items[Parent(k)], bucket))
    && (forall k :: 1 <= k < n && Parent(k) == i && 0 < i < n ==> !Less(items[k], items[Parent(i)], bucket))
  }

  ghost predicate LeastChild(items: seq<Entry>, i: nat, j: nat, n: nat, bucket: Bucket)
    requires n <= |items|
  {
    && i < j < n
    && Parent(j) == i
    && forall k :: 1 <= k < n && Parent(k) == i ==> !Less(items[k], items[j], bucket)
  }

  lemma LesserChild(items: seq<Entry>, i: nat, j: nat, n: nat, bucket: Bucket)
    requires n <= |items| && 2 * i + 1 < n
    requires j == if 2 * i + 2 < n && Less(items[2 * i + 2], items[2 * i + 1], bucket) then 2 * i + 2 else 2 * i + 1
    ensures LeastChild(items, i, j, n, bucket) && i < j < n
  {
    forall k | 1 <= k < n && Parent(k) == i
      ensures !Less(items[k], items[j], bucket)
    {
      assert k == 2 * i + 1 || k == 2 * i + 2;
      LessIsStrictWeakOrder(items[2 * i + 2 - (k % 2)], items[2 * i + 1], items[j], bucket);
    }
  }

  /** One sift-up swap moves the only possible violation to the parent. */
  lemma UpStep(a: seq<Entry>, b: seq<Entry>, j: nat, bucket: Bucket)
    requires 0 < j < |a| && b == Swapped(a, Parent(j), j)
    requires Less(a[j], a[Parent(j)], bucket)
    requires forall i :: 1 <= i < |a| && i != j ==> !Less(a[i], a[Parent(i)], bucket)
    requires forall i :: 1 <= i < |a| && Parent(i) == j ==> !Less(a[i], a[Parent(j)], bucket)
    ensures forall i :: 1 <= i < |b| && i != Parent(j) ==> !Less(b[i], b[Parent(i)], bucket)
    ensures forall i :: 1 <= i < |b| && Parent(i) == Parent(j) ==> !Less(b[i], b[Parent(Parent(j))], bucket)
  {
  }

  /** One sift-down swap with the lesser child moves the only possible violation to that child. */
  lemma DownStep(a: seq<Entry>, b: seq<Entry>, i: nat, j: nat, n: nat, bucket: Bucket)
    requires n <= |a| && LeastChild(a, i, j, n, bucket) && b == Swapped(a, i, j)
    requires Less(a[j], a[i], bucket)
    requires DownFrom(a, i, n, bucket)
    ensures DownFrom(b, j, n, bucket)
  {
  }

  lemma DownStops(a: seq<Entry>, i: nat, j: nat, n: nat, bucket: Bucket)
    requires n <= |a| && LeastChild(a, i, j, n, bucket)
    requires !Less(a[j], a[i], bucket)
    requires DownFrom(a, i, n, bucket)
    ensures IsHeap(a[..n], bucket)
  {
    forall k | 1 <= k < n
      ensures !Less(a[k], a[Parent(k)], bucket)
    {
      if Parent(k) == i {
        LessIsStrictWeakOrder(a[k], a[j], a[i], bucket);
      }
    }
  }

  lemma DownEnds(a: seq<Entry>, i: nat, n: nat, bucket: Bucket)
    requires n <= |a| && n <= 2 * i + 1
    requires DownFrom(a, i, n, bucket)
    ensures IsHeap(a[..n], bucket)
  {
  }
}
