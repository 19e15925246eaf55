/** Trimming a preload response to a byte budget: `trimToPreloadBudget`. */
module PreloadTrim {
  import opened Common
  import EvictionHeap

  /** `timeMicro` is absent for an item that was never stamped. */
  datatype Item = Item(actionID: string, size: int, wireSize: int, timeMicro: Option<int>)

  const BUCKET_MICRO := 3600000000

  function SizeOf(item: Item): int {
    if item.wireSize > 0 then item.wireSize else item.size
  }

  function BucketOf(item: Item): int {
    if item.timeMicro.None? then 0 else EvictionHeap.TruncDiv(item.timeMicro.value, BUCKET_MICRO)
  }

  /** Dropped first: the oldest bucket, then the largest item. */
  predicate Before(a: Item, b: Item) {
    if BucketOf(a) != BucketOf(b) then BucketOf(a) < BucketOf(b) else SizeOf(a) > SizeOf(b)
  }

  /** The order mirrors the eviction order of the native store with its default one-hour window. */
  lemma MirrorsEvictionOrder(a: Item, b: Item)
    ensures var timeA := if a.timeMicro.None? then 0 else a.timeMicro.value;
            var timeB := if b.timeMicro.None? then 0 else b.timeMicro.value;
            Before(a, b) <==> EvictionHeap.MoreEvictable(timeA, SizeOf(a), timeB, SizeOf(b), 1000 * BUCKET_MICRO)
  {
  }

  function Sum(items: seq<Item>): int {
    if items == [] then 0 else Sum(items[..|items| - 1]) + SizeOf(items[|items| - 1])
  }

  /** What each item costs: its wire size, or without one its size. */
  ghost function Costs(items: seq<Item>): map<nat, int> {
    map i: nat | i < |items| :: if items[i].wireSize > 0 then items[i].wireSize else items[i].size
  }

  lemma {:induction false} SumIs(items: seq<Item>)
    ensures Sum(items) == Total(Costs(items))
  {
    if items == [] {
      assert Costs(items) == map[];
    } else {
      var front, last: nat := items[..|items| - 1], |items| - 1;
      SumIs(front);
      TotalInsert(Costs(front), last, SizeOf(items[last]));
      assert Costs(front) - {last} == Costs(front) && Costs(front)[last := SizeOf(items[last])] == Costs(items);
    }
  }

  /** Which of two items goes first, spelled out: that of the older hour, counted from the epoch, where one without
      a time is; of two of the same hour the larger. So since the epoch never one that is newer by an hour. */
  ghost predicate GoesNoLater(a: Item, b: Item) {
    var timeA := if a.timeMicro.None? then 0 else a.timeMicro.value;
    var timeB := if b.timeMicro.None? then 0 else b.timeMicro.value;
    var hourA := if 0 <= timeA then timeA / 3600000000 else -((-timeA) / 3600000000);
    var hourB := if 0 <= timeB then timeB / 3600000000 else -((-timeB) / 3600000000);
    && hourA <= hourB
    && (hourA == hourB ==>
          (if a.wireSize > 0 then a.wireSize else a.size) >= (if b.wireSize > 0 then b.wireSize else b.size))
    && (0 <= timeA && 0 <= timeB ==> timeA < timeB + 3600000000)
  }

  lemma NotBeforeGoesNoLater(a: Item, b: Item)
    requires !Before(b, a)
    ensures GoesNoLater(a, b)
  {
  }

  /** The survivors are the items at these positions, in their order. */
  ghost predicate AreAt(survivors: seq<Item>, items: seq<Item>, kept: seq<nat>) {
    && |kept| == |survivors| && (forall i, j :: 0 <= i < j < |kept| ==> kept[i] < kept[j])
    && forall i :: 0 <= i < |kept| ==> kept[i] < |items| && survivors[i] == items[kept[i]]
  }

  /** The items go in order until the rest fits: whatever is dropped goes no later than what is kept, and with
      the one dropped last there would be too much. */
  ghost predicate IsTrimmed(items: seq<Item>, survivors: seq<Item>, limitBytes: int) {
    exists kept: seq<nat> :: IsTrimmedTo(items, kept, survivors, limitBytes)
  }

  ghost predicate IsTrimmedTo(items: seq<Item>, kept: seq<nat>, survivors: seq<Item>, limitBytes: int) {
    && AreAt(survivors, items, kept)
    && OthersGoFirst(items, kept)
    && if limitBytes <= 0 || Total(Costs(items)) <= limitBytes then survivors == items
       else Total(Costs(survivors)) <= limitBytes && LastWasNeeded(items, survivors, kept, limitBytes)
  }

  ghost predicate OthersGoFirst(items: seq<Item>, kept: seq<nat>) {
    forall i: nat, k: nat :: i < |items| && i !in kept && k < |items| && k in kept ==> GoesNoLater(items[i], items[k])
  }

  ghost predicate LastWasNeeded(items: seq<Item>, survivors: seq<Item>, kept: seq<nat>, limitBytes: int) {
    exists last: nat ::
      && last < |items| && last !in kept && Total(Costs(survivors)) + Costs(items)[last] > limitBytes
      && forall i: nat :: i < |items| && i !in kept ==> GoesNoLater(items[i], items[last])
  }

  /** The items at the other positions, in their order. */
  function Keep(items: seq<Item>, drop: set<nat>): seq<Item> {
    if items == [] then []
    else
      var last: nat := |items| - 1;
      Keep(items[..last], drop) + if last in drop then [] else [items[last]]
  }

  lemma {:induction false} KeepAll(items: seq<Item>)
    ensures Keep(items, {}) == items
  {
    if items != [] {
      KeepAll(items[..|items| - 1]);
    }
  }

  lemma SumAppend(items: seq<Item>, item: Item)
    ensures Sum(items + [item]) == Sum(items) + SizeOf(item)
  {
    assert (items + [item])[..|items|] == items;
  }

  lemma SumKeep(items: seq<Item>, drop: set<nat>)
    requires items != []
    ensures var last: nat := |items| - 1;
            Sum(Keep(items, drop)) == Sum(Keep(items[..last], drop)) + if last in drop then 0 else SizeOf(items[last])
  {
    var last: nat := |items| - 1;
    SumAppend(Keep(items[..last], drop), items[last]);
    assert Keep(items[..last], drop) + [] == Keep(items[..last], drop);
  }

  /** Dropping one more item takes exactly its size off the total. */
  lemma {:induction false} KeepOneLess(items: seq<Item>, drop: set<nat>, i: nat)
    requires i !in drop
    ensures Sum(Keep(items, drop + {i})) == Sum(Keep(items, drop)) - if i < |items| then SizeOf(items[i]) else 0
  {
    if items != [] {
      KeepOneLess(items[..|items| - 1], drop, i);
      SumKeep(items, drop);
      SumKeep(items, drop + {i});
      hide Keep, Sum, SizeOf;
    }
  }

  lemma {:induction false} KeepNone(items: seq<Item>, drop: set<nat>)
    requires forall i: nat :: i < |items| ==> i in drop
    ensures Keep(items, drop) == []
  {
    if items != [] {
      KeepNone(items[..|items| - 1], drop);
    }
  }

  /** Every position once, first to be dropped first; ties in whatever order the sort left them. */
  ghost predicate IsRanking(order: seq<nat>, items: seq<Item>) {
    && NoDup(order) && |order| == |items|
    && (forall a :: 0 <= a < |order| ==> order[a] < |items|)
    && forall a, b :: 0 <= a < b < |order| ==> !Before(items[order[b]], items[order[a]])
  }

  /** Some position is dropped before none of these. */
  lemma {:induction false} FirstExists(items: seq<Item>, todo: set<nat>)
    requires todo != {} && forall i :: i in todo ==> i < |items|
    ensures exists first :: first in todo && forall i :: i in todo ==> !Before(items[i], items[first])
  {
    var one: nat :| one in todo;
    var rest := todo - {one};
    if rest == {} {
      assert todo == {one} && !Before(items[one], items[one]);
    } else {
      FirstExists(items, rest);
      var first: nat :| first in rest && forall i :: i in rest ==> !Before(items[i], items[first]);
      var best := if Before(items[one], items[first]) then one else first;
      assert forall i :: i in todo ==> i == one || i in rest;
      assert best in todo && forall i :: i in todo ==> !Before(items[i], items[best]);
    }
  }

  /** A ranking so far: the positions in `todo` still follow. */
  ghost predicate IsRankingOf(order: seq<nat>, todo: set<nat>, items: seq<Item>) {
    && NoDup(order) && |order| + |todo| == |items|
    && (forall i :: i in todo ==> i < |items| && i !in order)
    && (forall i :: i in order ==> i < |items|) && (forall a :: 0 <= a < |order| ==> order[a] < |items|)
    && (forall a, b :: 0 <= a < b < |order| ==> !Before(items[order[b]], items[order[a]]))
    && forall i, j :: i in order && j in todo ==> !Before(items[j], items[i])
  }

  lemma RankedOneMore(order: seq<nat>, todo: set<nat>, items: seq<Item>, first: nat)
    requires IsRankingOf(order, todo, items) && first in todo
    requires forall i :: i in todo ==> !Before(items[i], items[first])
    ensures IsRankingOf(order + [first], todo - {first}, items)
  {
    hide Before;
    assert forall i :: i in order + [first] <==> i in order || i == first;
  }

  /** The sort, which may leave ties in any order. */
  method Rank(items: seq<Item>) returns (order: seq<nat>)
    ensures IsRanking(order, items)
  {
    hide Before;
    var todo := Below(|items|);
    order := [];
    while todo != {}
      invariant IsRankingOf(order, todo, items)
      decreases |todo|
    {
      FirstExists(items, todo);
      var first: nat :| first in todo && forall i :: i in todo ==> !Before(items[i], items[first]);
      RankedOneMore(order, todo, items, first);
      order := order + [first];
      todo := todo - {first};
    }
  }

  function Dropped(order: seq<nat>, n: nat): set<nat>
    requires n <= |order|
  {
    set i | i in order[..n]
  }

  /** The items left once the first `n` of the ranking are dropped. */
  function Survivors(items: seq<Item>, order: seq<nat>, n: nat): seq<Item>
    requires n <= |order|
  {
    Keep(items, Dropped(order, n))
  }

  method TotalSize(items: seq<Item>) returns (total: int)
    ensures total == Sum(items)
  {
    total := 0;
    for i := 0 to |items|
      invariant total == Sum(items[..i])
    {
      assert items[..i + 1][..i] == items[..i];
      total := total + SizeOf(items[i]);
    }
    assert items[..|items|] == items;
  }

  method Collect(items: seq<Item>, drop: set<nat>) returns (survivors: seq<Item>)
    ensures survivors == Keep(items, drop)
  {
    survivors := [];
    for i := 0 to |items|
      invariant survivors == Keep(items[..i], drop)
    {
      assert items[..i + 1][..i] == items[..i];
      if i in drop {
        continue;
      }
      survivors := survivors + [items[i]];
    }
    assert items[..|items|] == items;
  }

  /** Drops the first `n` items of the ranking, for the least `n` that fits the limit. */
  method TrimToPreloadBudget(items: seq<Item>, limitBytes: int)
    returns (survivors: seq<Item>, ghost order: seq<nat>, ghost n: nat)
    ensures IsRanking(order, items) && n <= |order| && survivors == Survivors(items, order, n)
    ensures limitBytes <= 0 || Sum(items) <= limitBytes ==> survivors == items
    ensures limitBytes > 0 ==> Sum(survivors) <= limitBytes
    ensures forall m :: 0 <= m < n ==> Sum(Survivors(items, order, m)) > limitBytes
    ensures IsTrimmed(items, survivors, limitBytes)
  {
    hide Keep, Sum, SizeOf, Before, IsRanking, IsTrimmed;
    var ranking := Rank(items);
    order := ranking;
    RankingLength(order, items);
    KeepAll(items);
    assert Dropped(order, 0) == {};
    NothingLeft(items, order);
    if limitBytes <= 0 || |items| == 0 {
      SurvivorsAreTrimmed(items, order, 0, limitBytes);
      return items, order, 0;
    }
    var total := TotalSize(items);
    if total <= limitBytes {
      SurvivorsAreTrimmed(items, order, 0, limitBytes);
      return items, order, 0;
    }
    var drop: set<nat> := {};
    var k := 0;
    while k < |ranking| && total > limitBytes
      invariant k <= |ranking| && drop == Dropped(order, k)
      invariant total == Sum(Survivors(items, order, k))
      invariant forall m :: 0 <= m < k ==> Sum(Survivors(items, order, m)) > limitBytes
    {
      DropNext(items, order, k);
      drop := drop + {ranking[k]};
      total := total - SizeOf(items[ranking[k]]);
      k := k + 1;
    }
    n := k;
    survivors := Collect(items, drop);
    SurvivorsAreTrimmed(items, order, n, limitBytes);
  }

  lemma RankingLength(order: seq<nat>, items: seq<Item>)
    requires IsRanking(order, items)
    ensures |order| == |items| && forall a :: 0 <= a < |order| ==> order[a] < |items|
  {
  }

  lemma DropNext(items: seq<Item>, order: seq<nat>, k: nat)
    requires IsRanking(order, items) && k < |order|
    ensures Dropped(order, k + 1) == Dropped(order, k) + {order[k]}
    ensures Sum(Survivors(items, order, k + 1)) == Sum(Survivors(items, order, k)) - SizeOf(items[order[k]])
  {
    assert order[..k + 1] == order[..k] + [order[k]];
    assert Dropped(order, k + 1) == Dropped(order, k) + {order[k]};
    KeepOneLess(items, Dropped(order, k), order[k]);
  }

  lemma NothingLeft(items: seq<Item>, order: seq<nat>)
    requires IsRanking(order, items)
    ensures Survivors(items, order, |order|) == [] && Sum([]) == 0
  {
    AllSlotsListed(order, |items|);
    assert order[..|order|] == order;
    KeepNone(items, Dropped(order, |order|));
  }

  /** Whatever is dropped ranks at or before whatever survives, and putting the last dropped item
      back would exceed the limit. */
  lemma DroppedRanksFirst(items: seq<Item>, order: seq<nat>, n: nat, limitBytes: int)
    requires IsRanking(order, items) && n <= |order|
    requires forall m :: 0 <= m < n ==> Sum(Survivors(items, order, m)) > limitBytes
    ensures forall a: nat, j: nat :: a < n && j < |items| && j !in Dropped(order, n) ==>
      !Before(items[j], items[order[a]])
    ensures n > 0 ==> Sum(Survivors(items, order, n)) + SizeOf(items[order[n - 1]]) > limitBytes
  {
    AllSlotsListed(order, |items|);
    forall a | 0 <= a < n
      ensures order[a] in Dropped(order, n)
    {
      assert order[..n][a] == order[a];
    }
    forall a: nat, j: nat | a < n && j < |items| && j !in Dropped(order, n)
      ensures !Before(items[j], items[order[a]])
    {
      assert j in order;
      var b :| 0 <= b < |order| && order[b] == j;
    }
    if n > 0 {
      DropNext(items, order, n - 1);
    }
  }

  function KeptPositions(n: nat, drop: set<nat>): seq<nat> {
    if n == 0 then [] else KeptPositions(n - 1, drop) + if n - 1 in drop then [] else [n - 1]
  }

  lemma {:induction false} KeptAre(n: nat, drop: set<nat>)
    ensures forall i: nat :: i in KeptPositions(n, drop) <==> i < n && i !in drop
  {
    if n != 0 {
      KeptAre(n - 1, drop);
    }
  }

  lemma {:induction false} KeepIsAt(items: seq<Item>, drop: set<nat>)
    ensures AreAt(Keep(items, drop), items, KeptPositions(|items|, drop))
  {
    if items != [] {
      var last: nat := |items| - 1;
      KeepIsAt(items[..last], drop);
      var front := KeptPositions(last, drop);
      KeptAre(last, drop);
      assert forall i :: 0 <= i < |front| ==> front[i] in front;
    }
  }

  lemma DroppedGoFirst(items: seq<Item>, order: seq<nat>, n: nat, i: nat)
    requires IsRanking(order, items) && n <= |order| && i in Dropped(order, n)
    ensures i < |items| && 0 < n && order[n - 1] in Dropped(order, n)
    ensures GoesNoLater(items[i], items[order[n - 1]])
    ensures forall k: nat :: k < |items| && k !in Dropped(order, n) ==> GoesNoLater(items[i], items[k])
  {
    hide Before, GoesNoLater;
    var a :| 0 <= a < n && order[..n][a] == i;
    assert order[..n][n - 1] == order[n - 1];
    assert !Before(items[order[n - 1]], items[i]) by {
      if a == n - 1 {
        NeverBeforeItself(items[i]);
      }
    }
    NotBeforeGoesNoLater(items[i], items[order[n - 1]]);
    AllSlotsListed(order, |items|);
    assert forall b :: 0 <= b < n ==> order[..n][b] == order[b];
    forall k: nat | k < |items| && k !in Dropped(order, n)
      ensures GoesNoLater(items[i], items[k])
    {
      assert k in order;
      var b :| 0 <= b < |order| && order[b] == k;
      NotBeforeGoesNoLater(items[i], items[k]);
    }
  }

  lemma NeverBeforeItself(item: Item)
    ensures !Before(item, item)
  {
  }

  lemma KeptGoLater(items: seq<Item>, order: seq<nat>, n: nat)
    requires IsRanking(order, items) && n <= |order|
    ensures OthersGoFirst(items, KeptPositions(|items|, Dropped(order, n)))
  {
    hide IsRanking, GoesNoLater, Dropped, KeptPositions;
    var kept := KeptPositions(|items|, Dropped(order, n));
    KeptAre(|items|, Dropped(order, n));
    forall i: nat, k: nat | i < |items| && i !in kept && k < |items| && k in kept
      ensures GoesNoLater(items[i], items[k])
    {
      DroppedGoFirst(items, order, n, i);
    }
  }

  /** The ranked drops, spelled out. */
  lemma SurvivorsAreTrimmed(items: seq<Item>, order: seq<nat>, n: nat, limitBytes: int)
    requires IsRanking(order, items) && n <= |order|
    requires limitBytes <= 0 || Sum(items) <= limitBytes ==> Survivors(items, order, n) == items
    requires limitBytes > 0 ==> Sum(Survivors(items, order, n)) <= limitBytes
    requires n == 0 || Sum(Survivors(items, order, n - 1)) > limitBytes
    ensures IsTrimmed(items, Survivors(items, order, n), limitBytes)
  {
    var survivors, drop := Survivors(items, order, n), Dropped(order, n);
    var kept := KeptPositions(|items|, drop);
    hide Keep, Sum, SizeOf, Before, IsRanking, OthersGoFirst, AreAt, LastWasNeeded, Dropped, Costs, Total;
    KeepIsAt(items, drop);
    SumIs(items);
    SumIs(survivors);
    KeptGoLater(items, order, n);
    hide KeptPositions, Survivors, Total;
    if limitBytes <= 0 || Sum(items) <= limitBytes {
      assert IsTrimmedTo(items, kept, survivors, limitBytes);
      return;
    }
    NoneDropped(items, order);
    LastOfDropped(items, order, n, limitBytes);
    assert IsTrimmedTo(items, kept, survivors, limitBytes);
  }

  lemma LastOfDropped(items: seq<Item>, order: seq<nat>, n: nat, limitBytes: int)
    requires IsRanking(order, items) && 0 < n <= |order|
    requires Sum(Survivors(items, order, n - 1)) > limitBytes
    ensures LastWasNeeded(items, Survivors(items, order, n), KeptPositions(|items|, Dropped(order, n)), limitBytes)
  {
    var kept := KeptPositions(|items|, Dropped(order, n));
    hide Keep, Sum, Before, IsRanking, GoesNoLater, Dropped, Costs, KeptPositions;
    KeptAre(|items|, Dropped(order, n));
    LastIsNeeded(items, order, n, limitBytes);
    SumIs(Survivors(items, order, n));
    forall i: nat | i < |items| && i !in kept
      ensures GoesNoLater(items[i], items[order[n - 1]])
    {
      DroppedGoFirst(items, order, n, i);
    }
  }

  lemma NoneDropped(items: seq<Item>, order: seq<nat>)
    ensures Survivors(items, order, 0) == items
  {
    KeepAll(items);
    assert Dropped(order, 0) == {};
  }

  lemma LastIsNeeded(items: seq<Item>, order: seq<nat>, n: nat, limitBytes: int)
    requires IsRanking(order, items) && 0 < n <= |order|
    requires Sum(Survivors(items, order, n - 1)) > limitBytes
    ensures order[n - 1] in Dropped(order, n) && order[n - 1] < |items|
    ensures Sum(Survivors(items, order, n)) + Costs(items)[order[n - 1]] > limitBytes
  {
    hide Keep, Sum, Before;
    DropNext(items, order, n - 1);
    assert order[..n][n - 1] == order[n - 1];
  }
}
