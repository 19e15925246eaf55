/** The batched response: one header that lists every item, then the bodies back to back. */
module ResponseWire {
  import opened Common
  import opened StreamWire
  import opened StreamIO

  datatype RMeta = RMeta(actionID: string, miss: bool, outputID: string, size: int, wireSize: int, isCompressed: bool)

  datatype RItem = RItem(meta: RMeta, body: seq<Byte>)

  function Metas(items: seq<RItem>): (r: seq<RMeta>)
    ensures |r| == |items| && forall i :: 0 <= i < |items| ==> r[i] == items[i].meta
  {
    seq(|items|, i requires 0 <= i < |items| => items[i].meta)
  }

  /** Its body is as long as it declares. A longer body is cut. */
  predicate BodyFits(item: RItem) {
    0 <= item.meta.size && 0 <= item.meta.wireSize <= |item.body|
  }

  predicate BodiesFit(items: seq<RItem>) {
    forall i :: 0 <= i < |items| ==> BodyFits(items[i])
  }

  predicate Sendable(items: seq<RItem>, c: Codec<seq<RMeta>>) {
    |c.encode(Metas(items))| <= MAX_INT32 && BodiesFit(items)
  }

  function Bodies(items: seq<RItem>): seq<Byte> {
    if items == [] then [] else Take(items[0].body, items[0].meta.wireSize) + Bodies(items[1..])
  }

  function Bytes(items: seq<RItem>, c: Codec<seq<RMeta>>): seq<Byte>
    requires Sendable(items, c)
  {
    Head(|c.encode(Metas(items))|) + c.encode(Metas(items)) + Bodies(items)
  }

  function Received(item: RItem): RItem {
    RItem(item.meta, Take(item.body, item.meta.wireSize))
  }

  function AllReceived(items: seq<RItem>): (r: seq<RItem>)
    ensures |r| == |items| && forall i :: 0 <= i < |items| ==> r[i] == Received(items[i])
  {
    seq(|items|, i requires 0 <= i < |items| => Received(items[i]))
  }

  // ----- Length -----

  function Claimed(items: seq<RItem>): int {
    if items == [] then 0
    else (if items[0].meta.wireSize != 0 then items[0].meta.wireSize else items[0].meta.size) + Claimed(items[1..])
  }

  function ContentLength(items: seq<RItem>, c: Codec<seq<RMeta>>): int {
    4 + |c.encode(Metas(items))| + Claimed(items)
  }

  /** Every non-empty item says how long it is on the wire. */
  predicate WireSizesKnown(items: seq<RItem>) {
    forall i :: 0 <= i < |items| ==> items[i].meta.wireSize == 0 ==> items[i].meta.size == 0
  }

  lemma {:induction false} BodiesLength(items: seq<RItem>)
    requires BodiesFit(items)
    ensures |Bodies(items)| <= Claimed(items)
    ensures |Bodies(items)| == Claimed(items) <==> WireSizesKnown(items)
  {
    if items != [] {
      BodiesLength(items[1..]);
      assert WireSizesKnown(items) <==>
        WireSizesKnown(items[1..]) && (items[0].meta.wireSize == 0 ==> items[0].meta.size == 0) by {
        assert forall i :: 0 <= i < |items[1..]| ==> items[1..][i] == items[i + 1];
        assert forall i :: 1 <= i < |items| ==> items[i] == items[1..][i - 1];
      }
    }
  }

  /** The announced length is the number of bytes written exactly when every non-empty item has a
      wire size: the length falls back to the plain size, the writer does not. */
  lemma LengthIsRight(items: seq<RItem>, c: Codec<seq<RMeta>>)
    requires Sendable(items, c)
    ensures |Bytes(items, c)| == ContentLength(items, c) <==> WireSizesKnown(items)
  {
    BodiesLength(items);
  }

  /** An item of one byte that does not say its wire size. */
  lemma LengthCanBeWrong(c: Codec<seq<RMeta>>)
    requires |c.encode([RMeta("a", false, "o", 1, 0, false)])| <= MAX_INT32
    ensures var items := [RItem(RMeta("a", false, "o", 1, 0, false), [7])];
            Sendable(items, c) && |Bytes(items, c)| + 1 == ContentLength(items, c)
  {
    var meta := RMeta("a", false, "o", 1, 0, false);
    var items := [RItem(meta, [7])];
    assert Metas(items) == [meta];
    assert items[1..] == [];
  }

  // ----- Reading -----

  /** The items handed out whole, the one handed out short, and what is left unread after them. */
  datatype HandOut = HandOut(whole: seq<RItem>, short: Option<RItem>, rest: seq<Byte>)

  /** Handing out that resumes after some whole items. */
  function Then(whole: seq<RItem>, h: HandOut): HandOut {
    h.(whole := whole + h.whole)
  }

  function Hand(metas: seq<RMeta>, s: seq<Byte>): (r: HandOut)
    ensures r.short.None? ==> |r.whole| == |metas|
  {
    if metas == [] then HandOut([], None, s)
    else
      var wireSize := metas[0].wireSize;
      if wireSize < 0 || |s| < wireSize then HandOut([], Some(RItem(metas[0], Take(s, wireSize))), Drop(s, wireSize))
      else Then([RItem(metas[0], Take(s, wireSize))], Hand(metas[1..], Drop(s, wireSize)))
  }

  /** Everything the callback gets to see, in order. */
  function Shown(h: HandOut): seq<RItem> {
    h.whole + if h.short.Some? then [h.short.value] else []
  }

  /** The header and what follows it, if it can be read. */
  function Opened(s: seq<Byte>, c: Codec<seq<RMeta>>): Option<(seq<RMeta>, seq<Byte>)> {
    if |s| < 4 || Int32(s[..4]) < 0 || |s| - 4 < Int32(s[..4]) then None
    else
      match c.decode(s[4..4 + Int32(s[..4])])
      case None => None
      case Some(metas) => Some((metas, s[4 + Int32(s[..4])..]))
  }

  /** Of bodies cut after `n` bytes, `k` were handed out whole; if the next one was handed out short,
      it was the last to be handed out at all. Nothing is left unread. */
  ghost predicate HandedOut(items: seq<RItem>, n: nat, h: HandOut, k: nat) {
    && (h.short.None? <==> n == |Bodies(items)|)
    && k <= |items| && h.whole == AllReceived(items[..k]) && h.rest == []
    && (h.short.Some? ==>
        k < |items| && h.short.value.meta == items[k].meta && h.short.value.body < Received(items[k]).body)
  }

  lemma {:induction false} HandAll(items: seq<RItem>, n: nat) returns (k: nat)
    requires BodiesFit(items) && n <= |Bodies(items)|
    ensures HandedOut(items, n, Hand(Metas(items), Bodies(items)[..n]), k)
    decreases |items|
  {
    if items == [] {
      assert items[..0] == [];
      return 0;
    }
    var size, rest := items[0].meta.wireSize, items[1..];
    assert BodyFits(items[0]);
    if n < size {
      HandCut(items, n);
      CutFirst(items, n);
      return 0;
    }
    BodiesCut(items, n);
    hide HandedOut, Hand, Bodies, Metas, Received, Take, BodyFits;
    HandFirst(items, Bodies(rest)[..n - size]);
    var i := HandAll(rest, n - size);
    HandedOneMore(items, n, Hand(Metas(rest), Bodies(rest)[..n - size]), i);
    return i + 1;
  }

  lemma BodiesCut(items: seq<RItem>, n: nat)
    requires items != [] && BodyFits(items[0]) && items[0].meta.wireSize <= n <= |Bodies(items)|
    ensures var size, rest := items[0].meta.wireSize, Bodies(items[1..]);
            && |Bodies(items)| == size + |rest|
            && Bodies(items)[..n] == Take(items[0].body, size) + rest[..n - size]
  {
  }

  lemma CutFirst(items: seq<RItem>, n: nat)
    requires items != [] && BodyFits(items[0]) && n < items[0].meta.wireSize && n <= |Bodies(items)|
    ensures HandedOut(items, n,
                      HandOut([], Some(RItem(items[0].meta, Take(items[0].body, items[0].meta.wireSize)[..n])), []), 0)
  {
    assert items[..0] == [];
  }

  lemma HandedOneMore(items: seq<RItem>, n: nat, h: HandOut, i: nat)
    requires items != [] && BodyFits(items[0]) && items[0].meta.wireSize <= n
    requires HandedOut(items[1..], n - items[0].meta.wireSize, h, i)
    ensures HandedOut(items, n, Then([Received(items[0])], h), i + 1)
  {
    hide Received;
    assert items[..i + 1] == [items[0]] + items[1..][..i];
    assert AllReceived(items[..i + 1]) == [Received(items[0])] + AllReceived(items[1..][..i]);
  }

  lemma {:induction false} HandCut(items: seq<RItem>, n: nat)
    requires items != [] && BodyFits(items[0]) && n < items[0].meta.wireSize && n <= |Bodies(items)|
    ensures Hand(Metas(items), Bodies(items)[..n]) ==
            HandOut([], Some(RItem(items[0].meta, Take(items[0].body, items[0].meta.wireSize)[..n])), [])
  {
    assert Bodies(items)[..n] == Take(items[0].body, items[0].meta.wireSize)[..n];
  }

  lemma HandFirst(items: seq<RItem>, tail: seq<Byte>)
    requires items != [] && BodyFits(items[0])
    ensures Hand(Metas(items), Take(items[0].body, items[0].meta.wireSize) + tail) ==
            Then([Received(items[0])], Hand(Metas(items[1..]), tail))
  {
    var first := Take(items[0].body, items[0].meta.wireSize);
    assert Metas(items)[1..] == Metas(items[1..]);
    assert Take(first + tail, |first|) == first && Drop(first + tail, |first|) == tail;
  }

  lemma HeaderOpens(items: seq<RItem>, n: nat, c: Codec<seq<RMeta>>)
    requires Lawful(c) && Sendable(items, c) && n <= |Bytes(items, c)|
    ensures var h := 4 + |c.encode(Metas(items))|;
            Opened(Bytes(items, c)[..n], c) == if n < h then None else Some((Metas(items), Bodies(items)[..n - h]))
  {
    var json := c.encode(Metas(items));
    HeadRoundTrip(|json|);
    hide Head, Int32, Bodies, Metas;
    ThreeParts(Head(|json|), json, Bodies(items), n);
  }

  /** A response cut anywhere short of its end is never taken for a whole one: either the header
      cannot be read, or the items handed out whole are a prefix of those sent and nothing is handed
      out after a short one. */
  lemma ResponseTruncation(items: seq<RItem>, n: nat, c: Codec<seq<RMeta>>) returns (k: nat)
    requires Lawful(c) && Sendable(items, c) && n <= |Bytes(items, c)|
    ensures var h, cut := 4 + |c.encode(Metas(items))|, Opened(Bytes(items, c)[..n], c);
            if n < h then cut.None?
            else cut.Some? && HandedOut(items, n - h, Hand(cut.value.0, cut.value.1), k)
  {
    hide Lawful, HandedOut, Hand, Bodies, Metas, Opened;
    var h := 4 + |c.encode(Metas(items))|;
    HeaderOpens(items, n, c);
    if n < h {
      return 0;
    }
    assert |Bytes(items, c)| == h + |Bodies(items)|;
    k := HandAll(items, n - h);
  }

  lemma {:induction false} HandThenMore(items: seq<RItem>, more: seq<Byte>)
    requires BodiesFit(items)
    ensures Hand(Metas(items), Bodies(items) + more) == HandOut(AllReceived(items), None, more)
  {
    if items == [] {
      assert Bodies(items) + more == more;
    } else {
      var rest := Bodies(items[1..]) + more;
      assert BodyFits(items[0]);
      assert Bodies(items) + more == Take(items[0].body, items[0].meta.wireSize) + rest;
      HandFirst(items, rest);
      hide Hand, Metas, Bodies, Received;
      HandThenMore(items[1..], more);
      assert AllReceived(items) == [Received(items[0])] + AllReceived(items[1..]);
    }
  }

  /** A whole response is handed out exactly as it was sent; every byte of it is read, and none of
      what follows it. */
  lemma ResponseRoundTrip(items: seq<RItem>, more: seq<Byte>, c: Codec<seq<RMeta>>)
    requires Lawful(c) && Sendable(items, c)
    ensures var read := Opened(Bytes(items, c) + more, c);
            read.Some? && Hand(read.value.0, read.value.1) == HandOut(AllReceived(items), None, more)
  {
    var json, tail := c.encode(Metas(items)), Bodies(items) + more;
    HeadRoundTrip(|json|);
    HandThenMore(items, more);
    hide Head, Int32, Bodies, Metas, Hand;
    assert Bytes(items, c) + more == Head(|json|) + json + tail;
    var n := 4 + |json| + |tail|;
    ThreeParts(Head(|json|), json, tail, n);
    assert (Head(|json|) + json + tail)[..n] == Head(|json|) + json + tail && tail[..|tail|] == tail;
  }

  /** Reads a response, handing each item to a callback that consumes `want(k)` bytes of it. */
  method ReaderFrom(src: Source, c: Codec<seq<RMeta>>, want: nat -> nat, fails: nat -> bool)
    returns (seen: seq<RItem>, total: int, ok: bool)
    modifies src
    ensures var parts := Opened(old(src.Rest()), c);
            && (parts.None? ==> !ok && seen == [])
            && (parts.Some? ==>
                  var h := Hand(parts.value.0, parts.value.1);
                  && seen <= Shown(h)
                  && (ok ==> h.short.None? && seen == h.whole && src.Rest() == h.rest)
                  && ((forall k: nat :: k < |Shown(h)| ==> !fails(k)) ==> seen == Shown(h) && (ok <==> h.short.None?)))
    ensures ok ==> total == |old(src.Rest())| - |src.Rest()|
  {
    ghost var s := src.Rest();
    seen, total := [], 0;
    var head := src.ReadFull(4);
    if |head| < 4 {
      return [], 0, false;
    }
    var jsonLength := Int32(head);
    if jsonLength < 0 {
      return [], 4, false;
    }
    var json := src.ReadFull(jsonLength);
    total := 4 + |json|;
    if |json| < jsonLength {
      return [], total, false;
    }
    assert json == s[4..4 + jsonLength];
    var decoded := c.decode(json);
    if decoded.None? {
      return [], total, false;
    }
    var n;
    seen, n, ok := ReadBodies(src, decoded.value, want, fails);
    total := total + n;
  }

  method ReadBodies(src: Source, metas: seq<RMeta>, want: nat -> nat, fails: nat -> bool)
    returns (seen: seq<RItem>, total: int, ok: bool)
    modifies src
    ensures var h := Hand(metas, old(src.Rest()));
            && seen <= Shown(h)
            && (ok ==> h.short.None? && seen == h.whole && src.Rest() == h.rest)
            && ((forall k: nat :: k < |Shown(h)| ==> !fails(k)) ==> seen == Shown(h) && (ok <==> h.short.None?))
    ensures ok ==> total == |old(src.Rest())| - |src.Rest()|
  {
    hide Hand;
    ghost var s := src.Rest();
    seen, total := [], 0;
    for i := 0 to |metas|
      invariant |seen| == i && total == |s| - |src.Rest()|
      invariant Hand(metas, s) == Then(seen, Hand(metas[i..], src.Rest()))
    {
      HandStep(metas[i..], src.Rest(), seen);
      assert metas[i..][1..] == metas[i + 1..];
      var item := metas[i];
      if item.wireSize == 0 {
        seen := seen + [RItem(item, [])];
        if fails(i) {
          return seen, total, false;
        }
        continue;
      }
      var _, body, whole := ReadItemBody(src, if item.wireSize < 0 then 0 else item.wireSize, want(i));
      seen := seen + [RItem(item, body)];
      total := total + |body|;
      if fails(i) || !whole || item.wireSize < 0 {
        return seen, total, false;
      }
    }
    HandStep([], src.Rest(), seen);
    assert metas[|metas|..] == [];
    return seen, total, true;
  }

  lemma HandStep(metas: seq<RMeta>, s: seq<Byte>, seen: seq<RItem>)
    ensures metas == [] ==> Then(seen, Hand(metas, s)) == HandOut(seen, None, s)
    ensures metas != [] ==>
      var wireSize := metas[0].wireSize;
      var item := RItem(metas[0], Take(s, wireSize));
      Then(seen, Hand(metas, s)) ==
      if wireSize < 0 || |s| < wireSize then HandOut(seen, Some(item), Drop(s, wireSize))
      else Then(seen + [item], Hand(metas[1..], Drop(s, wireSize)))
  {
    if metas != [] && !(metas[0].wireSize < 0 || |s| < metas[0].wireSize) {
      var item, rest := RItem(metas[0], Take(s, metas[0].wireSize)), Hand(metas[1..], Drop(s, metas[0].wireSize));
      assert seen + ([item] + rest.whole) == seen + [item] + rest.whole;
    }
  }

  /** Appends an item's body; fails if it falls short. */
  method WriteBody(item: RItem, out: seq<Byte>) returns (r: seq<Byte>, ok: bool)
    requires 0 <= item.meta.size && 0 <= item.meta.wireSize
    ensures ok <==> BodyFits(item)
    ensures ok ==> r == out + Take(item.body, item.meta.wireSize)
  {
    if item.meta.size == 0 && item.meta.wireSize == 0 {
      return out, true;
    }
    if |item.body| < item.meta.wireSize {
      return out, false;
    }
    return out + item.body[..item.meta.wireSize], true;
  }

  predicate NonNegative(items: seq<RItem>) {
    forall i :: 0 <= i < |items| ==> 0 <= items[i].meta.size && 0 <= items[i].meta.wireSize
  }

  /** Writes a response; fails exactly if the header is too long or some body falls short. */
  method WriteTo(items: seq<RItem>, c: Codec<seq<RMeta>>) returns (out: seq<Byte>, ok: bool)
    requires NonNegative(items)
    ensures ok <==> Sendable(items, c)
    ensures ok ==> out == Bytes(items, c)
  {
    var json := c.encode(Metas(items));
    if |json| > MAX_INT32 {
      return [], false;
    }
    hide Head, Bodies, Take, BodyFits, Metas;
    var bodies;
    bodies, ok := WriteBodies(items);
    out := Head(|json|) + json + bodies;
  }

  method WriteBodies(items: seq<RItem>) returns (out: seq<Byte>, ok: bool)
    requires NonNegative(items)
    ensures ok <==> BodiesFit(items)
    ensures ok ==> out == Bodies(items)
  {
    out := [];
    NoBodies(items);
    hide Bodies, Take, BodyFits;
    for i := 0 to |items|
      invariant BodiesFit(items[..i]) && out == Bodies(items[..i])
    {
      BodiesAppend(items[..i], items[i]);
      assert items[..i + 1] == items[..i] + [items[i]];
      out, ok := WriteBody(items[i], out);
      if !ok {
        return;
      }
    }
    assert items[..|items|] == items;
    ok := true;
  }

  lemma NoBodies(items: seq<RItem>)
    ensures Bodies(items[..0]) == []
  {
  }

  lemma {:induction false} BodiesAppend(items: seq<RItem>, item: RItem)
    ensures Bodies(items + [item]) == Bodies(items) + Take(item.body, item.meta.wireSize)
  {
    if items == [] {
      assert [item][1..] == [];
    } else {
      assert (items + [item])[1..] == items[1..] + [item];
      BodiesAppend(items[1..], item);
    }
  }

  /** Reading a response back from however its bytes arrive: the bytes read are the bytes written,
      which are as many as were announced exactly when every non-empty item has a wire size. */
  method ReadBack(items: seq<RItem>, more: seq<Byte>, c: Codec<seq<RMeta>>, src: Source, want: nat -> nat)
    returns (seen: seq<RItem>, total: int, ok: bool)
    requires Lawful(c) && Sendable(items, c) && src.Rest() == Bytes(items, c) + more
    modifies src
    ensures ok && seen == AllReceived(items) && src.Rest() == more
    ensures total == |Bytes(items, c)|
    ensures total == ContentLength(items, c) <==> WireSizesKnown(items)
  {
    hide Lawful, Hand, Opened, Bytes, Bodies, Metas, Received;
    ResponseRoundTrip(items, more, c);
    LengthIsRight(items, c);
    seen, total, ok := ReaderFrom(src, c, want, _ => false);
  }
}
