/** Writers and readers of the item stream, over byte sources that deliver it in arbitrary pieces. */
module StreamIO {
  import opened Common
  import opened StreamWire

  function Flatten(chunks: seq<seq<Byte>>): seq<Byte> {
    if chunks == [] then [] else chunks[0] + Flatten(chunks[1..])
  }

  lemma {:induction false} FlattenAppend(chunks: seq<seq<Byte>>, chunk: seq<Byte>)
    ensures Flatten(chunks + [chunk]) == Flatten(chunks) + chunk
  {
    if chunks == [] {
      assert [chunk][1..] == [];
    } else {
      assert (chunks + [chunk])[1..] == chunks[1..] + [chunk];
      FlattenAppend(chunks[1..], chunk);
    }
  }

  /** A byte source that hands out its bytes in pieces of its own choosing, some of them empty. After
      the last one it ends, or fails if it was aborted. */
  class Source {
    var chunks: seq<seq<Byte>>
    const aborted: bool

    constructor (chunks: seq<seq<Byte>>, aborted: bool)
      ensures this.chunks == chunks && this.aborted == aborted
    {
      this.chunks, this.aborted := chunks, aborted;
    }

    function Rest(): seq<Byte>
      reads this
    {
      Flatten(chunks)
    }

    /** At most `max` bytes, and none only at the end. */
    method Read(max: nat) returns (b: seq<Byte>)
      requires 0 < max
      modifies this
      ensures b + Rest() == old(Rest()) && |b| <= max
      ensures b == [] <==> old(Rest()) == []
    {
      while chunks != [] && chunks[0] == []
        invariant Rest() == old(Rest())
        decreases |chunks|
      {
        chunks := chunks[1..];
      }
      if chunks == [] {
        return [];
      }
      var first := chunks[0];
      if |first| <= max {
        b := first;
        chunks := chunks[1..];
      } else {
        b := first[..max];
        chunks := [first[max..]] + chunks[1..];
        assert first == b + first[max..];
      }
    }

    /** Exactly `n` bytes, or all there are if there are fewer. */
    method ReadFull(n: nat) returns (b: seq<Byte>)
      modifies this
      ensures b == Take(old(Rest()), n) && Rest() == Drop(old(Rest()), n)
    {
      b := [];
      while |b| < n
        invariant b + Rest() == old(Rest()) && |b| <= n
        decreases n - |b|
      {
        var piece := Read(n - |b|);
        if piece == [] {
          return;
        }
        b := b + piece;
      }
    }
  }

  predicate NonNegative(items: seq<Item>) {
    forall i :: 0 <= i < |items| ==> 0 <= items[i].meta.size && 0 <= items[i].meta.wireSize
  }

  class StreamWriter {
    var out: seq<Byte>
    const codec: Codec<Meta>

    constructor (codec: Codec<Meta>)
      ensures out == [] && this.codec == codec
    {
      this.out, this.codec := [], codec;
    }

    /** Appends one frame, or fails; a body that falls short fails after the header is out. */
    method WriteItem(item: Item) returns (ok: bool)
      requires 0 <= item.meta.size && 0 <= item.meta.wireSize
      modifies this
      ensures ok <==> Writable(item, codec)
      ensures ok ==> out == old(out) + Frame(item, codec)
      ensures !ok ==> old(out) <= out
    {
      var json := codec.encode(item.meta);
      if |json| > MAX_INT32 {
        return false;
      }
      out := out + Head(|json|);
      out := out + json;
      if item.meta.size == 0 && item.meta.wireSize == 0 {
        return true;
      }
      var wireSize := item.meta.wireSize;
      if wireSize == 0 {
        wireSize := item.meta.size;
      }
      if |item.body| < wireSize {
        return false;
      }
      out := out + item.body[..wireSize];
      return true;
    }

    method Close()
      modifies this
      ensures out == old(out) + Head(0)
    {
      out := out + Head(0);
    }

    /** Writes all the items and the terminator; fails exactly if some item cannot be written. */
    method WriteAll(items: seq<Item>) returns (ok: bool)
      requires out == [] && NonNegative(items)
      modifies this
      ensures ok <==> AllWritable(items, codec)
      ensures ok ==> out == Stream(items, codec)
    {
      NoFrames(items, codec);
      hide Writable, Frame, Frames, Head, AllWritable;
      for i := 0 to |items|
        invariant AllWritable(items[..i], codec) && out == Frames(items[..i], codec)
      {
        FramesAppend(items, i, codec);
        var w := WriteItem(items[i]);
        if !w {
          return false;
        }
      }
      assert items[..|items|] == items;
      Close();
      return true;
    }
  }

  lemma NoFrames(items: seq<Item>, c: Codec<Meta>)
    ensures AllWritable(items[..0], c) && Frames(items[..0], c) == []
  {
  }

  lemma FramesAppend(items: seq<Item>, i: nat, c: Codec<Meta>)
    requires i < |items| && AllWritable(items[..i], c)
    ensures AllWritable(items[..i + 1], c) <==> Writable(items[i], c)
    ensures AllWritable(items, c) ==> Writable(items[i], c)
    ensures Writable(items[i], c) ==> Frames(items[..i + 1], c) == Frames(items[..i], c) + Frame(items[i], c)
  {
    hide Writable, Frame, Frames;
    assert items[..i + 1] == items[..i] + [items[i]];
    if Writable(items[i], c) {
      FramesSnoc(items[..i], items[i], c);
    }
  }

  lemma {:induction false} FramesSnoc(items: seq<Item>, item: Item, c: Codec<Meta>)
    requires AllWritable(items, c) && Writable(item, c)
    ensures Frames(items + [item], c) == Frames(items, c) + Frame(item, c)
  {
    hide Writable, Frame;
    if items == [] {
      assert [item][1..] == [];
    } else {
      assert (items + [item])[1..] == items[1..] + [item];
      FramesSnoc(items[1..], item, c);
    }
  }

  /** What a header announces, or that the stream is over. */
  datatype Header = Over(clean: bool) | Announced(meta: Meta)

  /** What comes next, in the order in which it is read. */
  lemma NextOfParts(s: seq<Byte>, c: Codec<Meta>)
    ensures var head, tail := Take(s, 4), Drop(s, 4);
            NextOf(s, c) == if head == [] then End(true) else if |head| < 4 || Int32(head) < 0 then End(false)
            else if Int32(head) == 0 then End(true) else
              var json, rest := Take(tail, Int32(head)), Drop(tail, Int32(head));
              if |json| < Int32(head) then End(false) else match c.decode(json)
              case None => End(false)
              case Some(meta) =>
                if |rest| < Wire(meta) then Short(Item(meta, rest))
                else Whole(Item(meta, Take(rest, Wire(meta))), Drop(rest, Wire(meta)))
  {
    hide Int32, Wire;
    if |s| >= 4 {
      var n := Int32(s[..4]);
      if 0 < n <= |s| - 4 {
        assert s[4..][..n] == s[4..4 + n] && s[4..][n..] == s[4 + n..];
      }
    }
  }

  /** Reads the next header. */
  method ReadHeader(src: Source, c: Codec<Meta>) returns (h: Header, n: nat)
    modifies src
    ensures match NextOf(old(src.Rest()), c)
            case End(clean) => h == Over(clean)
            case Short(item) => h == Announced(item.meta) && src.Rest() == item.body && |item.body| < Wire(item.meta)
            case Whole(item, rest) =>
              h == Announced(item.meta) && item.body == Take(src.Rest(), Wire(item.meta))
              && rest == Drop(src.Rest(), Wire(item.meta)) && Wire(item.meta) <= |src.Rest()|
    ensures h != Over(false) ==> n <= |old(src.Rest())| && src.Rest() == old(src.Rest())[n..]
    ensures h == Over(true) ==> n == 4 || (n == 0 && old(src.Rest()) == [])
  {
    hide Int32, Wire, Flatten, NextOf;
    ghost var s := src.Rest();
    NextOfParts(s, c);
    var head := src.ReadFull(4);
    if head == [] {
      return Over(true), 0;
    }
    if |head| < 4 {
      return Over(false), 0;
    }
    n := 4;
    var jsonLength := Int32(head);
    if jsonLength == 0 {
      return Over(true), n;
    }
    if jsonLength < 0 {
      return Over(false), n;
    }
    var json := src.ReadFull(jsonLength);
    n := n + |json|;
    if |json| < jsonLength {
      return Over(false), n;
    }
    var decoded := c.decode(json);
    if decoded.None? {
      return Over(false), n;
    }
    return Announced(decoded.value), n;
  }

  /** Lets the callback consume `want` bytes of a body, then drains the rest of it. `body` is what
      the callback could have read. */
  method ReadItemBody(src: Source, wireSize: nat, want: nat) returns (consumed: seq<Byte>, body: seq<Byte>, whole: bool)
    modifies src
    ensures whole <==> wireSize <= |old(src.Rest())|
    ensures src.Rest() == Drop(old(src.Rest()), wireSize)
    ensures body == Take(old(src.Rest()), wireSize) && consumed == Take(body, want)
  {
    ghost var s := src.Rest();
    var first := if want < wireSize then want else wireSize;
    consumed := src.ReadFull(first);
    var drained := src.ReadFull(wireSize - first);
    TakeTwice(s, first, wireSize - first);
    TakeOfTake(s, wireSize, want);
    hide Take, Drop, Flatten;
    body := consumed + drained;
    whole := |body| == wireSize;
  }

  lemma TakeTwice(s: seq<Byte>, m: nat, n: nat)
    ensures Take(s, m) + Take(Drop(s, m), n) == Take(s, m + n)
    ensures Drop(Drop(s, m), n) == Drop(s, m + n)
  {
  }

  lemma TakeOfTake(s: seq<Byte>, m: nat, n: nat)
    ensures Take(Take(s, m), n) == Take(s, if n < m then n else m)
    ensures |Take(s, m)| == m <==> m <= |s|
  {
  }

  datatype Got = Stopped(clean: bool) | Handed(item: Item, whole: bool)

  /** Reads the next item, of whose body the callback consumes `want` bytes. */
  method ReadNext(src: Source, c: Codec<Meta>, want: nat) returns (got: Got, n: nat)
    modifies src
    ensures var next := NextOf(old(src.Rest()), c);
            && (next.End? ==> got == Stopped(next.clean) && (next.clean ==> src.Rest() == Drop(old(src.Rest()), 4)))
            && (next.Short? ==> got == Handed(next.item, false))
            && (next.Whole? ==> got == Handed(next.item, true) && src.Rest() == next.rest)
    ensures got == Stopped(true) || (got.Handed? && got.whole) ==>
      n <= |old(src.Rest())| && |src.Rest()| == |old(src.Rest())| - n
    ensures got == Stopped(true) ==> (n == 0 <==> old(src.Rest()) == [])
  {
    hide NextOf, Wire;
    var h;
    h, n := ReadHeader(src, c);
    if h.Over? {
      return Stopped(h.clean), n;
    }
    var wireSize := Wire(h.meta);
    if wireSize <= 0 {
      return Handed(Item(h.meta, []), true), n;
    }
    var _, body, whole := ReadItemBody(src, wireSize, want);
    return Handed(Item(h.meta, body), whole), n + wireSize;
  }

  /** A source that was aborted ends well only once the terminator has been read. */
  predicate EndsWell(s: seq<Byte>, aborted: bool, c: Codec<Meta>) {
    Parse(s, c).clean && (aborted ==> Terminated(s, c))
  }

  /** Hands every item to a callback that consumes `want(k)` bytes of the k-th body, and may fail.
      What the callback gets to see does not depend on how much of it it consumes. */
  method ReadStream(src: Source, c: Codec<Meta>, want: nat -> nat, fails: nat -> bool)
    returns (seen: seq<Item>, total: nat, ok: bool)
    modifies src
    ensures seen <= Seen(Parse(old(src.Rest()), c))
    ensures (forall k: nat :: k < |Seen(Parse(old(src.Rest()), c))| ==> !fails(k)) ==>
      seen == Seen(Parse(old(src.Rest()), c)) && (ok <==> EndsWell(old(src.Rest()), src.aborted, c))
    ensures ok ==> EndsWell(old(src.Rest()), src.aborted, c) && seen == Parse(old(src.Rest()), c).whole
    ensures ok ==> src.Rest() == Leftover(old(src.Rest()), c) && total == |old(src.Rest())| - |src.Rest()|
  {
    hide NextOf, Parse, Leftover, Terminated, Drop;
    seen, total := [], 0;
    ghost var s := src.Rest();
    while true
      invariant Parse(s, c) == After(seen, Parse(src.Rest(), c))
      invariant Leftover(s, c) == Leftover(src.Rest(), c) && (Terminated(s, c) <==> Terminated(src.Rest(), c))
      invariant total == |s| - |src.Rest()|
      decreases |src.Rest()|
    {
      ParseStep(src.Rest(), c, seen);
      var got, n := ReadNext(src, c, want(|seen|));
      total := total + n;
      if got.Stopped? {
        return seen, total, got.clean && !(n == 0 && src.aborted);
      }
      seen := seen + [got.item];
      if fails(|seen| - 1) || !got.whole {
        return seen, total, false;
      }
    }
  }

  /** A parse that resumes after some whole items. */
  function After(whole: seq<Item>, p: Parsed): Parsed {
    p.(whole := whole + p.whole)
  }

  lemma ParseStep(s: seq<Byte>, c: Codec<Meta>, seen: seq<Item>)
    ensures var next := NextOf(s, c);
            && Leftover(s, c) == (if next.Whole? then Leftover(next.rest, c) else Drop(s, 4))
            && (Terminated(s, c) <==> if next.Whole? then Terminated(next.rest, c) else next == End(true) && s != [])
            && (next.End? ==> After(seen, Parse(s, c)) == Parsed(seen, None, next.clean))
            && (next.Short? ==> After(seen, Parse(s, c)) == Parsed(seen, Some(next.item), false))
            && (next.Whole? ==>
                  |next.rest| < |s| && After(seen, Parse(s, c)) == After(seen + [next.item], Parse(next.rest, c)))
  {
    hide NextOf;
    var next := NextOf(s, c);
    if next.Whole? {
      var rest := Parse(next.rest, c).whole;
      assert seen + ([next.item] + rest) == seen + [next.item] + rest;
    }
  }

  /** Reading a stream back from however its bytes arrive: the bytes read are the bytes written. */
  method ReadBack(items: seq<Item>, more: seq<Byte>, c: Codec<Meta>, src: Source, want: nat -> nat)
    returns (seen: seq<Item>, total: nat, ok: bool)
    requires Lawful(c) && AllWritable(items, c) && src.Rest() == Stream(items, c) + more
    modifies src
    ensures ok && seen == AllOnWire(items) && src.Rest() == more && total == |Stream(items, c)|
  {
    hide Lawful, Writable, Parse, Stream, Leftover, Terminated, OnWire;
    NothingBeyond(items, more, c);
    seen, total, ok := ReadStream(src, c, want, _ => false);
  }
}
