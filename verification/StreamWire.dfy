/** The length-prefixed item stream: `StreamWriter` writes it, `ReadStream` reads it back, however
    the bytes are chunked on the way and whatever part of each body its callback consumes. */
module StreamWire {
  import opened Common

  const MAX_INT32 := 0x7fff_ffff

  /** JSON, opaque: `decode` may fail. */
  datatype Codec<!T> = Codec(encode: T -> seq<Byte>, decode: seq<Byte> -> Option<T>)

  ghost predicate Lawful<T(!new)>(c: Codec<T>) {
    forall x :: c.encode(x) != [] && c.decode(c.encode(x)) == Some(x)
  }

  datatype Meta = Meta(path: string, size: int, wireSize: int, isCompressed: bool)

  datatype Item = Item(meta: Meta, body: seq<Byte>)

  /** How many body bytes follow an item's header. */
  function Wire(meta: Meta): int {
    if meta.wireSize == 0 then meta.size else meta.wireSize
  }

  function Take(s: seq<Byte>, n: int): seq<Byte> {
    if n <= 0 then [] else if n <= |s| then s[..n] else s
  }

  function Drop(s: seq<Byte>, n: int): seq<Byte> {
    if n <= 0 then s else if n <= |s| then s[n..] else []
  }

  // ----- Four-byte heads -----

  function Head(n: nat): (r: seq<Byte>)
    requires n <= MAX_INT32
    ensures |r| == 4
  {
    [n / 0x100_0000, n / 0x1_0000 % 0x100, n / 0x100 % 0x100, n % 0x100]
  }

  /** A signed 32-bit big-endian integer. */
  function Int32(b: seq<Byte>): (r: int)
    requires |b| == 4
  {
    var u := b[0] as int * 0x100_0000 + b[1] as int * 0x1_0000 + b[2] as int * 0x100 + b[3] as int;
    if u <= MAX_INT32 then u else u - 0x1_0000_0000
  }

  /** A head is big-endian: the most significant byte comes first. */
  lemma HeadRoundTrip(n: nat)
    requires n <= MAX_INT32
    ensures Int32(Head(n)) == n
    ensures var h := Head(n);
            n == ((h[0] as int * 256 + h[1] as int) * 256 + h[2] as int) * 256 + h[3] as int
  {
    var a, b := n / 0x100, n / 0x1_0000;
    assert b == a / 0x100 && n / 0x100_0000 == b / 0x100;
  }

  // ----- What is on the wire -----

  /** Its header fits, and its body is as long as it declares. A longer body is cut. */
  predicate Writable(item: Item, c: Codec<Meta>) {
    |c.encode(item.meta)| <= MAX_INT32 && 0 <= item.meta.size && 0 <= item.meta.wireSize
      && Wire(item.meta) <= |item.body|
  }

  function Frame(item: Item, c: Codec<Meta>): (r: seq<Byte>)
    requires Writable(item, c)
    ensures |r| >= 4
  {
    Head(|c.encode(item.meta)|) + c.encode(item.meta) + Take(item.body, Wire(item.meta))
  }

  /** An item on the wire: the length of its header, the header, and as many body bytes as that says. */
  lemma FrameIs(item: Item, c: Codec<Meta>)
    requires Writable(item, c)
    ensures var f, h := Frame(item, c), |c.encode(item.meta)|;
            var w := if item.meta.wireSize == 0 then item.meta.size else item.meta.wireSize;
            && |f| == 4 + h + w && h == ((f[0] as int * 256 + f[1] as int) * 256 + f[2] as int) * 256 + f[3] as int
            && f[4..4 + h] == c.encode(item.meta) && f[4 + h..] == item.body[..w]
  {
    var f, head, h := Frame(item, c), Head(|c.encode(item.meta)|), c.encode(item.meta);
    HeadRoundTrip(|h|);
    hide Head;
    assert f == head + (h + Take(item.body, Wire(item.meta)));
    assert f[0] == head[0] && f[1] == head[1] && f[2] == head[2] && f[3] == head[3];
  }

  /** A stream ends with four zero bytes. */
  lemma StreamEnds(items: seq<Item>, c: Codec<Meta>)
    requires AllWritable(items, c)
    ensures |Stream(items, c)| >= 4 && Stream(items, c)[|Stream(items, c)| - 4..] == [0, 0, 0, 0]
  {
    hide Frames;
  }

  predicate AllWritable(items: seq<Item>, c: Codec<Meta>) {
    forall i :: 0 <= i < |items| ==> Writable(items[i], c)
  }

  function Frames(items: seq<Item>, c: Codec<Meta>): seq<Byte>
    requires AllWritable(items, c)
  {
    if items == [] then [] else Frame(items[0], c) + Frames(items[1..], c)
  }

  function Stream(items: seq<Item>, c: Codec<Meta>): seq<Byte>
    requires AllWritable(items, c)
  {
    Frames(items, c) + Head(0)
  }

  /** An item as its reader gets it. */
  function OnWire(item: Item): Item {
    Item(item.meta, Take(item.body, Wire(item.meta)))
  }

  function AllOnWire(items: seq<Item>): (r: seq<Item>)
    ensures |r| == |items| && forall i :: 0 <= i < |items| ==> r[i] == OnWire(items[i])
  {
    seq(|items|, i requires 0 <= i < |items| => OnWire(items[i]))
  }

  // ----- Reading -----

  /** What comes next: the end of the stream, reached properly or not; an item and what follows it;
      or an item whose body falls short. */
  datatype Next = End(clean: bool) | Whole(item: Item, rest: seq<Byte>) | Short(item: Item)

  function NextOf(s: seq<Byte>, c: Codec<Meta>): (r: Next)
    ensures r.Whole? ==> |r.rest| < |s|
  {
    if s == [] then End(true)
    else if |s| < 4 then End(false)
    else
      var n := Int32(s[..4]);
      if n == 0 then End(true)
      else if n < 0 || |s| - 4 < n then End(false)
      else
        match c.decode(s[4..4 + n])
        case None => End(false)
        case Some(meta) =>
          var rest := s[4 + n..];
          if |rest| < Wire(meta) then Short(Item(meta, rest))
          else Whole(Item(meta, Take(rest, Wire(meta))), Drop(rest, Wire(meta)))
  }

  /** The items handed out whole, the one handed out short, and whether the stream ended properly. */
  datatype Parsed = Parsed(whole: seq<Item>, short: Option<Item>, clean: bool)

  function Parse(s: seq<Byte>, c: Codec<Meta>): Parsed
    decreases |s|
  {
    match NextOf(s, c)
    case End(clean) => Parsed([], None, clean)
    case Short(item) => Parsed([], Some(item), false)
    case Whole(item, rest) =>
      var p := Parse(rest, c);
      p.(whole := [item] + p.whole)
  }

  /** What a reader leaves unread once the stream has ended: what follows the terminator. */
  function Leftover(s: seq<Byte>, c: Codec<Meta>): seq<Byte>
    decreases |s|
  {
    var next := NextOf(s, c);
    if next.Whole? then Leftover(next.rest, c) else Drop(s, 4)
  }

  /** The stream goes on to its terminator. A stream may also end properly without one, between two items. */
  predicate Terminated(s: seq<Byte>, c: Codec<Meta>)
    decreases |s|
  {
    var next := NextOf(s, c);
    if next.Whole? then Terminated(next.rest, c) else next == End(true) && s != []
  }

  /** Everything the callback gets to see, in order. */
  function Seen(p: Parsed): seq<Item> {
    p.whole + if p.short.Some? then [p.short.value] else []
  }

  // ----- Round trip and truncation -----

  /** Three parts of a byte string, seen through a cut. */
  lemma ThreeParts(a: seq<Byte>, b: seq<Byte>, c: seq<Byte>, n: nat)
    requires n <= |a| + |b| + |c|
    ensures var s := (a + b + c)[..n];
            && |s| == n
            && (|a| <= n ==> s[..|a|] == a)
            && (|a| + |b| <= n ==> s[|a|..|a| + |b|] == b && s[|a| + |b|..] == c[..n - |a| - |b|])
  {
    var s := (a + b + c)[..n];
    if |a| <= n {
      assert s[..|a|] == a;
    }
    if |a| + |b| <= n {
      assert s[|a|..|a| + |b|] == b;
      assert s[|a| + |b|..] == c[..n - |a| - |b|];
    }
  }

  lemma NextOfFrame(item: Item, tail: seq<Byte>, c: Codec<Meta>)
    requires Lawful(c) && Writable(item, c)
    ensures NextOf(Frame(item, c) + tail, c) == Whole(OnWire(item), tail)
  {
    var j, body := c.encode(item.meta), Take(item.body, Wire(item.meta));
    HeadRoundTrip(|j|);
    hide Head, Int32;
    var s := Head(|j|) + j + (body + tail);
    assert Frame(item, c) + tail == s;
    ThreeParts(Head(|j|), j, body + tail, |s|);
    assert s[..|s|] == s && (body + tail)[..|s| - 4 - |j|] == body + tail;
    assert Take(body + tail, Wire(item.meta)) == body;
    assert Drop(body + tail, Wire(item.meta)) == tail;
  }

  lemma NextOfTerminator(c: Codec<Meta>)
    ensures NextOf(Head(0), c) == End(true)
    ensures forall n :: 0 < n < 4 ==> NextOf(Head(0)[..n], c) == End(false)
    ensures NextOf([], c) == End(true)
  {
    HeadRoundTrip(0);
    assert Head(0)[..4] == Head(0);
  }

  lemma TerminatorThenMore(more: seq<Byte>, c: Codec<Meta>)
    ensures NextOf(Head(0) + more, c) == End(true) && Leftover(Head(0) + more, c) == more
      && Terminated(Head(0) + more, c)
  {
    HeadRoundTrip(0);
    assert (Head(0) + more)[..4] == Head(0);
  }

  /** The items written are read back whatever follows the stream, and nothing of that is read. */
  lemma {:induction false} NothingBeyond(items: seq<Item>, more: seq<Byte>, c: Codec<Meta>)
    requires Lawful(c) && AllWritable(items, c)
    ensures Parse(Stream(items, c) + more, c) == Parsed(AllOnWire(items), None, true)
    ensures Leftover(Stream(items, c) + more, c) == more && Terminated(Stream(items, c) + more, c)
  {
    hide Lawful, Writable, Take, Wire, NextOf, Frame, Head, Int32, Drop;
    if items == [] {
      TerminatorThenMore(more, c);
      assert Stream(items, c) == Head(0);
    } else {
      var rest := items[1..];
      assert Stream(items, c) + more == Frame(items[0], c) + (Stream(rest, c) + more);
      NextOfFrame(items[0], Stream(rest, c) + more, c);
      NothingBeyond(rest, more, c);
      assert AllOnWire(items) == [OnWire(items[0])] + AllOnWire(rest);
    }
  }

  /** Reading back a written stream hands out exactly the items written, in order. */
  lemma RoundTrip(items: seq<Item>, c: Codec<Meta>)
    requires Lawful(c) && AllWritable(items, c)
    ensures Parse(Stream(items, c), c) == Parsed(AllOnWire(items), None, true)
  {
    NothingBeyond(items, [], c);
    assert Stream(items, c) + [] == Stream(items, c);
  }

  /** A frame cut short is never taken for a whole one, nor for the end of the stream. */
  lemma CutFrame(item: Item, n: nat, c: Codec<Meta>)
    requires Lawful(c) && Writable(item, c) && 0 < n < |Frame(item, c)|
    ensures var next := NextOf(Frame(item, c)[..n], c);
            next == End(false) || (next.Short? && next.item.meta == item.meta && next.item.body < OnWire(item).body)
  {
    var j, body := c.encode(item.meta), Take(item.body, Wire(item.meta));
    HeadRoundTrip(|j|);
    hide Head, Int32;
    ThreeParts(Head(|j|), j, body, n);
  }

  /** Whether a stream cut after `n` bytes ends between two items, or just after the terminator. */
  predicate OnBoundary(items: seq<Item>, n: nat, c: Codec<Meta>)
    requires AllWritable(items, c)
  {
    n == |Stream(items, c)| || exists k :: 0 <= k <= |items| && n == |Frames(items[..k], c)|
  }

  lemma {:induction false} FramesSplit(items: seq<Item>, k: nat, c: Codec<Meta>)
    requires AllWritable(items, c) && k < |items|
    ensures Frames(items[..k + 1], c) == Frame(items[0], c) + Frames(items[1..][..k], c)
  {
    assert items[..k + 1][1..] == items[1..][..k];
  }

  lemma BoundaryShifts(items: seq<Item>, n: nat, c: Codec<Meta>)
    requires AllWritable(items, c) && items != []
    ensures var f := |Frame(items[0], c)|;
            if n < f then OnBoundary(items, n, c) <==> n == 0
            else OnBoundary(items, n, c) <==> OnBoundary(items[1..], n - f, c)
  {
    hide Frame, Writable;
    var f, rest := |Frame(items[0], c)|, items[1..];
    assert Stream(items, c) == Frame(items[0], c) + Stream(rest, c);
    assert |Stream(items, c)| == f + |Stream(rest, c)|;
    if n == 0 {
      BoundaryAt(items, 0, c);
    }
    if n >= f && OnBoundary(rest, n - f, c) {
      BoundaryUp(items, n, c);
    }
    if n == |Stream(items, c)| {
      assert n - f == |Stream(rest, c)|;
    } else if OnBoundary(items, n, c) {
      BoundaryDown(items, n, c);
    }
  }

  lemma BoundaryAt(items: seq<Item>, k: nat, c: Codec<Meta>)
    requires AllWritable(items, c) && k <= |items|
    ensures OnBoundary(items, |Frames(items[..k], c)|, c)
    ensures Frames(items[..0], c) == []
  {
    assert items[..0] == [];
  }

  lemma BoundaryUp(items: seq<Item>, n: nat, c: Codec<Meta>)
    requires AllWritable(items, c) && items != [] && |Frame(items[0], c)| <= n
    requires OnBoundary(items[1..], n - |Frame(items[0], c)|, c)
    ensures OnBoundary(items, n, c)
  {
    hide Frame, Writable;
    var f, rest := |Frame(items[0], c)|, items[1..];
    if n - f != |Stream(rest, c)| {
      var k :| 0 <= k <= |rest| && n - f == |Frames(rest[..k], c)|;
      FramesSplit(items, k, c);
      BoundaryAt(items, k + 1, c);
    }
  }

  lemma BoundaryDown(items: seq<Item>, n: nat, c: Codec<Meta>)
    requires AllWritable(items, c) && items != [] && OnBoundary(items, n, c) && n != |Stream(items, c)|
    ensures n == 0 || (|Frame(items[0], c)| <= n && OnBoundary(items[1..], n - |Frame(items[0], c)|, c))
  {
    hide Frame, Writable;
    var k :| 0 <= k <= |items| && n == |Frames(items[..k], c)|;
    if k > 0 {
      FramesSplit(items, k - 1, c);
      BoundaryAt(items[1..], k - 1, c);
    } else {
      BoundaryAt(items, 0, c);
    }
  }

  lemma EmptyStreamCut(n: nat, c: Codec<Meta>)
    requires n <= |Stream([], c)|
    ensures |Stream([], c)| == 4 && Parse(Stream([], c)[..n], c) == Parsed([], None, n == 0 || n == 4)
    ensures OnBoundary([], n, c) <==> n == 0 || n == 4
  {
    hide NextOf;
    NextOfTerminator(c);
    var none: seq<Item> := [];
    assert Stream([], c) == Head(0);
    assert n == 4 ==> Head(0)[..n] == Head(0);
    assert n == 0 ==> Head(0)[..n] == [];
    assert none[..0] == [] && |Frames(none[..0], c)| == 0;
  }

  lemma CutInFirst(items: seq<Item>, n: nat, c: Codec<Meta>)
    requires Lawful(c) && AllWritable(items, c) && items != [] && n < |Frame(items[0], c)|
    ensures Parse(Stream(items, c)[..n], c).whole == [] && (Parse(Stream(items, c)[..n], c).clean <==> n == 0)
  {
    hide NextOf, Writable, Frame;
    assert Stream(items, c) == Frame(items[0], c) + Stream(items[1..], c);
    assert Stream(items, c)[..n] == Frame(items[0], c)[..n];
    NextOfTerminator(c);
    if n > 0 {
      CutFrame(items[0], n, c);
    }
  }

  lemma CutBeyondFirst(items: seq<Item>, n: nat, c: Codec<Meta>)
    requires Lawful(c) && AllWritable(items, c) && items != [] && |Frame(items[0], c)| <= n <= |Stream(items, c)|
    ensures var m := n - |Frame(items[0], c)|;
            && m <= |Stream(items[1..], c)|
            && var rest := Parse(Stream(items[1..], c)[..m], c);
               Parse(Stream(items, c)[..n], c) == rest.(whole := [OnWire(items[0])] + rest.whole)
  {
    hide NextOf, Writable, Frame;
    var frame, rest := Frame(items[0], c), Stream(items[1..], c);
    assert Stream(items, c) == frame + rest;
    assert Stream(items, c)[..n] == frame + rest[..n - |frame|];
    NextOfFrame(items[0], rest[..n - |frame|], c);
  }

  /** A cut after `n` bytes leaves the first `k` frames whole, and no more. */
  predicate CutsAfter(items: seq<Item>, n: nat, k: nat, c: Codec<Meta>)
    requires AllWritable(items, c)
  {
    && k <= |items| && |Frames(items[..k], c)| <= n
    && (k < |items| ==> n < |Frames(items[..k + 1], c)|)
  }

  lemma CutsAfterNone(items: seq<Item>, n: nat, c: Codec<Meta>)
    requires AllWritable(items, c) && (items == [] || n < |Frame(items[0], c)|)
    ensures CutsAfter(items, n, 0, c)
  {
    hide Frame, Writable;
    assert items[..0] == [];
    if items != [] {
      FramesSplit(items, 0, c);
      assert items[1..][..0] == [];
    }
  }

  lemma CutsAfterOneMore(items: seq<Item>, n: nat, k: nat, c: Codec<Meta>)
    requires AllWritable(items, c) && items != [] && |Frame(items[0], c)| <= n
    requires CutsAfter(items[1..], n - |Frame(items[0], c)|, k, c)
    ensures CutsAfter(items, n, k + 1, c)
  {
    hide Frame, Writable, Frames;
    FramesSplit(items, k, c);
    if k + 1 < |items| {
      FramesSplit(items, k + 1, c);
    }
  }

  /** Of a stream cut anywhere, the items handed out whole are a prefix of those written, and the
      end is taken for a proper one exactly when the cut falls on an item boundary. */
  lemma {:induction false} Truncation(items: seq<Item>, n: nat, c: Codec<Meta>) returns (k: nat)
    requires Lawful(c) && AllWritable(items, c) && n <= |Stream(items, c)|
    ensures CutsAfter(items, n, k, c) && Parse(Stream(items, c)[..n], c).whole == AllOnWire(items[..k])
    ensures Parse(Stream(items, c)[..n], c).clean <==> OnBoundary(items, n, c)
    decreases |items|
  {
    hide Lawful, Writable, NextOf, Frame, OnWire, OnBoundary, Parse, Stream, Frames;
    if items == [] {
      EmptyStreamCut(n, c);
      CutsAfterNone(items, n, c);
      return 0;
    }
    BoundaryShifts(items, n, c);
    var rest := items[1..];
    if n < |Frame(items[0], c)| {
      CutInFirst(items, n, c);
      CutsAfterNone(items, n, c);
      return 0;
    }
    CutBeyondFirst(items, n, c);
    var i := Truncation(rest, n - |Frame(items[0], c)|, c);
    CutsAfterOneMore(items, n, i, c);
    assert items[..i + 1] == [items[0]] + rest[..i];
    hide CutsAfter;
    assert AllOnWire(items[..i + 1]) == [OnWire(items[0])] + AllOnWire(rest[..i]);
    k := i + 1;
  }

  /** A stream that is cut anywhere short of its end never reaches its terminator. */
  lemma {:induction false} CutIsNotTerminated(items: seq<Item>, n: nat, c: Codec<Meta>)
    requires Lawful(c) && AllWritable(items, c) && n <= |Stream(items, c)|
    ensures Terminated(Stream(items, c)[..n], c) <==> n == |Stream(items, c)|
    decreases |items|
  {
    hide Lawful, Writable, NextOf, Frame, Head;
    NextOfTerminator(c);
    if items == [] {
      var s := Stream(items, c);
      assert s == Head(0) && (n == 4 ==> s[..n] == s) && (n == 0 ==> s[..n] == []);
    } else {
      var frame, rest := Frame(items[0], c), Stream(items[1..], c);
      assert Stream(items, c) == frame + rest;
      if n < |frame| {
        assert Stream(items, c)[..n] == frame[..n];
        if n > 0 {
          CutFrame(items[0], n, c);
        }
      } else {
        assert Stream(items, c)[..n] == frame + rest[..n - |frame|];
        NextOfFrame(items[0], rest[..n - |frame|], c);
        CutIsNotTerminated(items[1..], n - |frame|, c);
      }
    }
  }
}
