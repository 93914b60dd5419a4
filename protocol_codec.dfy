/**
 * protocol/codec.ts: the first reading loop. Each read peeks one byte: 0xFF
 * (the signature's first byte) starts a 64-byte greeting, anything else a
 * frame. LONG frames are not sized yet: the source leaves that branch
 * empty, so such a frame is read as its flags byte alone.
 */
module ProtocolCodec {
  import opened Bytes
  import opened Results
  import opened Io
  import opened ProtocolFrame
  import ProtoGreeting
  import ProtocolDataFrame
  import ProtocolConnection

  /** `Greeting | Frame`: what a read yields and a write accepts. */
  datatype Item = GreetingItem(greeting: Greeting) | FrameItem(frame: Frame)
  {
    function Bytes(): seq<byte>
    {
      match this
      case GreetingItem(g) => g.body
      case FrameItem(f) => f.body
    }
  }

  /** The size `readFrame` reads: `2 + b[1]`, or 1 on a LONG frame. */
  function FrameSize(b: seq<byte>): (n: nat)
    requires |b| == 2
    ensures n >= 1
  {
    if !HasFlag(b[0], FLAG_LONG) then 1 + 1 + b[1] as nat else 1
  }

  /** `readFrame(reader)`: a stream with fewer than two bytes left is
      `EOFError`; otherwise `FrameSize` bytes, or the partial-read failure. */
  function ReadFrame(r: Reader): (res: (Result<Frame>, Reader))
    requires r.Valid()
    ensures res.1.Valid() && res.1.stream == r.stream && r.pos <= res.1.pos
    ensures res.0.Err? ==> res.0.error == EndOfFile || res.0.error == PartialRead
    ensures res.0.Ok? ==> |res.0.value.body| >= 1 && res.1.pos == r.pos + |res.0.value.body|
    ensures res.0.Ok? ==> res.0.value.body == r.stream[r.pos..res.1.pos]
  {
    match Peek(r, 2)
    case None => (Err(EndOfFile), r)
    case Some(b) =>
      var size := FrameSize(b);
      match ReadFull(r, size)
      case Err(e) => (Err(e), Advance(r, size))
      case Ok(body) => (Ok(Frame(body)), Advance(r, size))
  }

  /** `readOnce(reader)`: `EOFError` at the end of the stream; a greeting
      when the next byte is 0xFF; a frame otherwise. */
  function ReadOnce(r: Reader): (res: (Result<Item>, Reader))
    requires r.Valid()
    ensures res.1.Valid() && res.1.stream == r.stream && r.pos <= res.1.pos
    ensures res.0.Ok? ==> r.pos + |res.0.value.Bytes()| == res.1.pos && |res.0.value.Bytes()| >= 1
    ensures res.0.Ok? ==> res.0.value.Bytes() == r.stream[r.pos..res.1.pos]
    ensures res.0.Ok? ==> (res.0.value.GreetingItem? <==> r.stream[r.pos] == 0xFF)
  {
    match Peek(r, 1)
    case None => (Err(EndOfFile), r)
    case Some(first) =>
      if first[0] == 0xFF then
        var (g, r') := ProtocolConnection.ReadGreetingFrom(r);
        match g
        case Err(e) => (Err(e), r')
        case Ok(greeting) => (Ok(GreetingItem(greeting)), r')
      else
        var (f, r') := ReadFrame(r);
        match f
        case Err(e) => (Err(e), r')
        case Ok(frame) => (Ok(FrameItem(frame)), r')
  }

  /** The async iterator run to its end: the items read one after the other,
      and the failure that ends them. */
  function ReadItems(r: Reader): (res: (seq<Item>, Error))
    requires r.Valid()
    decreases |r.stream| - r.pos
  {
    var (item, r') := ReadOnce(r);
    match item
    case Err(e) => ([], e)
    case Ok(i) =>
      var (rest, e) := ReadItems(r');
      ([i] + rest, e)
  }

  lemma ReadItemsStep(r: Reader)
    requires r.Valid()
    ensures var (item, r') := ReadOnce(r);
      && (item.Err? ==> ReadItems(r) == ([], item.error))
      && (item.Ok? ==> ReadItems(r) == ([item.value] + ReadItems(r').0, ReadItems(r').1))
  {
  }

  lemma AppendItem(done: seq<Item>, i: Item, rest: seq<Item>)
    ensures done + ([i] + rest) == (done + [i]) + rest
  {
  }

  /** One turn of the iterator: the items read so far from `r0` and those
      still to come from `r` make up all of `r0`'s items, one read later. */
  lemma ItemsStep(all: (seq<Item>, Error), items: seq<Item>, r: Reader)
    requires r.Valid()
    requires all == (items + ReadItems(r).0, ReadItems(r).1)
    ensures var (item, r') := ReadOnce(r);
      && (item.Err? ==> all == (items, item.error))
      && (item.Ok? ==> all == ((items + [item.value]) + ReadItems(r').0, ReadItems(r').1))
  {
    ReadItemsStep(r);
    var (item, r') := ReadOnce(r);
    if item.Err? {
      assert items + [] == items;
    } else {
      AppendItem(items, item.value, ReadItems(r').0);
    }
  }

  /** `ConnectionImpl`: the reader, the buffered writer it was given, and
      what that writer took. */
  class Connection {
    var reader: Reader
    /** What the writer took, in order. */
    var out: seq<Event>
    var writer: Writer
    /** Whether the underlying connection still takes bytes. */
    var open: bool

    ghost predicate Valid()
      reads this
    {
      reader.Valid() && writer.Valid()
    }

    constructor (stream: seq<byte>, writer: Writer, open: bool)
      requires writer.Valid()
      ensures Valid() && reader == Reader(stream, 0) && out == [] && this.writer == writer && this.open == open
    {
      reader := Reader(stream, 0);
      out := [];
      this.writer := writer;
      this.open := open;
    }

    /** `flush`: the writer's buffered bytes go to the connection. */
    method Flush() returns (r: Result<()>)
      modifies this
      ensures writer == Step(old(writer), open, Event.Flush)
      ensures r == (if Takes(old(writer), open, Event.Flush) then Ok(()) else Err(FlushFailed))
      ensures out == old(out) + (if r.Ok? then [Event.Flush] else [])
      ensures reader == old(reader) && open == old(open)
    {
      var taken := Takes(writer, open, Event.Flush);
      writer := Step(writer, open, Event.Flush);
      if !taken {
        return Err(FlushFailed);
      }
      out := out + [Event.Flush];
      r := Ok(());
    }

    /** `write`: a greeting's or a frame's bytes, unchanged, handed to the
        writer. */
    method Write(message: Item) returns (r: Result<nat>)
      modifies this
      ensures var e := Event.Write(message.Bytes());
        && writer == Step(old(writer), open, e)
        && r == (if Takes(old(writer), open, e) then Ok(|message.Bytes()|) else Err(WriteFailed))
        && out == old(out) + (if r.Ok? then [e] else [])
      ensures reader == old(reader) && open == old(open)
    {
      var b := message.Bytes();
      var taken := Takes(writer, open, Event.Write(b));
      writer := Step(writer, open, Event.Write(b));
      if !taken {
        return Err(WriteFailed);
      }
      out := out + [Event.Write(b)];
      r := Ok(|b|);
    }

    method Read() returns (r: Result<Item>)
      requires Valid()
      modifies this
      ensures Valid() && (r, reader) == ReadOnce(old(reader))
      ensures out == old(out) && writer == old(writer) && open == old(open)
    {
      var res := ReadOnce(reader);
      r, reader := res.0, res.1;
    }

    /** The async iterator run to its end. */
    method Items() returns (items: seq<Item>, e: Error)
      requires Valid()
      modifies this
      ensures Valid() && (items, e) == ReadItems(old(reader))
      ensures out == old(out) && writer == old(writer) && open == old(open)
    {
      items := [];
      ghost var all := ReadItems(reader);
      assert [] + all.0 == all.0;
      while true
        invariant Valid() && reader.stream == old(reader).stream
        invariant all == (items + ReadItems(reader).0, ReadItems(reader).1)
        invariant out == old(out) && writer == old(writer) && open == old(open)
        decreases |reader.stream| - reader.pos
      {
        var r := Next(all, items);
        if r.Err? {
          return items, r.error;
        }
        items := items + [r.value];
      }
    }

    /** One turn of the iterator, with the items already read from `r0`. */
    method Next(ghost all: (seq<Item>, Error), ghost items: seq<Item>) returns (r: Result<Item>)
      requires Valid() && all == (items + ReadItems(reader).0, ReadItems(reader).1)
      modifies this
      ensures Valid() && reader.stream == old(reader).stream && out == old(out) && writer == old(writer) && open == old(open)
      ensures r.Err? ==> all == (items, r.error)
      ensures r.Ok? ==> old(reader).pos < reader.pos
      ensures r.Ok? ==> all == ((items + [r.value]) + ReadItems(reader).0, ReadItems(reader).1)
    {
      ghost var before := reader;
      r := Read();
      ItemsStep(all, items, before);
    }
  }

  /** A LONG frame whose flags byte is not 0xFF is read as that one byte, and
      the reader moves on by one: the 64-bit length is not looked at. */
  lemma {:induction false} LongFrameIsOneByte(r: Reader)
    requires r.Valid() && r.pos + 2 <= |r.stream|
    requires HasFlag(r.stream[r.pos], FLAG_LONG) && r.stream[r.pos] != 0xFF
    ensures ReadOnce(r) == (Ok(FrameItem(Frame([r.stream[r.pos]]))), Reader(r.stream, r.pos + 1))
  {
    assert Peek(r, 2) == Some(r.stream[r.pos..r.pos + 2]);
    assert ReadFull(r, 1) == Ok(r.stream[r.pos..r.pos + 1]);
    assert r.stream[r.pos..r.pos + 1] == [r.stream[r.pos]];
  }

  /** A data frame never starts with 0xFF (its flags are at most 3), so it
      is never taken for a greeting. */
  lemma DataFrameNotGreeting(more: bool, p: seq<byte>)
    ensures ProtocolDataFrame.DataFrameBytes(more, p)[0] < 4
  {
  }

  /** A built data frame of at most 255 payload bytes is read whole, as a
      frame, whatever follows it. */
  lemma {:induction false} ReadShortDataFrame(more: bool, p: seq<byte>, rest: seq<byte>)
    requires |p| <= 0xFF
    ensures var b := ProtocolDataFrame.DataFrameBytes(more, p);
      ReadOnce(Reader(b + rest, 0)) == (Ok(FrameItem(Frame(b))), Reader(b + rest, |b|))
  {
    var b := ProtocolDataFrame.DataFrameBytes(more, p);
    var r := Reader(b + rest, 0);
    ProtocolDataFrame.BuiltShape(more, p);
    assert (b + rest)[..2] == b[..2];
    assert (b + rest)[0] == b[0];
    assert Peek(r, 2) == Some(b[..2]);
    assert FrameSize(b[..2]) == |b|;
    assert (b + rest)[0..|b|] == b;
  }

  /** A greeting (64 bytes starting with 0xFF) followed by a short data frame
      is read as that greeting and then that frame. */
  lemma {:induction false} GreetingThenFrame(g: seq<byte>, more: bool, p: seq<byte>, rest: seq<byte>)
    requires |g| == GREETING_SIZE && g[0] == 0xFF && |p| <= 0xFF
    ensures var f := ProtocolDataFrame.DataFrameBytes(more, p);
      var items := ReadItems(Reader(g + f + rest, 0)).0;
      |items| >= 2 && items[0] == GreetingItem(Greeting(g)) && items[1] == FrameItem(Frame(f))
  {
    var f := ProtocolDataFrame.DataFrameBytes(more, p);
    var s := g + (f + rest);
    assert g + f + rest == s;
    ReadGreetingFirst(g, f + rest);
    ReadItemsStep(Reader(s, 0));
    ReadOneAfter(g, f + rest, more, p, rest);
    ReadItemsStep(Reader(s, GREETING_SIZE));
  }

  /** 64 bytes starting with 0xFF are read as a greeting, whatever follows. */
  lemma {:induction false} ReadGreetingFirst(g: seq<byte>, tail: seq<byte>)
    requires |g| == GREETING_SIZE && g[0] == 0xFF
    ensures ReadOnce(Reader(g + tail, 0)) == (Ok(GreetingItem(Greeting(g))), Reader(g + tail, GREETING_SIZE))
  {
    var s := g + tail;
    assert s[0] == 0xFF;
    assert s[0..GREETING_SIZE] == g;
  }

  /** The short data frame after a 64-byte prefix is read whole. */
  lemma {:induction false} ReadOneAfter(g: seq<byte>, tail: seq<byte>, more: bool, p: seq<byte>, rest: seq<byte>)
    requires |g| == GREETING_SIZE && |p| <= 0xFF
    requires tail == ProtocolDataFrame.DataFrameBytes(more, p) + rest
    ensures var f := ProtocolDataFrame.DataFrameBytes(more, p);
      ReadOnce(Reader(g + tail, GREETING_SIZE)) == (Ok(FrameItem(Frame(f))), Reader(g + tail, GREETING_SIZE + |f|))
  {
    var f := ProtocolDataFrame.DataFrameBytes(more, p);
    var s := g + tail;
    var r := Reader(s, GREETING_SIZE);
    ProtocolDataFrame.BuiltShape(more, p);
    assert s[GREETING_SIZE..] == tail;
    assert s[GREETING_SIZE] == f[0] < 4;
    assert s[GREETING_SIZE..GREETING_SIZE + 2] == f[..2];
    assert Peek(r, 2) == Some(f[..2]);
    assert FrameSize(f[..2]) == |f|;
    assert s[GREETING_SIZE..GREETING_SIZE + |f|] == f;
  }

  /** The greeting a server sends by default starts with 0xFF, so it is read
      as a greeting. */
  lemma DefaultGreetingIsRead(major: int, minor: int, m: ProtoGreeting.SecurityMechanism, asServer: bool, rest: seq<byte>)
    ensures var g := ProtoGreeting.GreetingBytes(major, minor, ProtoGreeting.MechanismField(m), asServer);
      ReadOnce(Reader(g + rest, 0)).0 == Ok(GreetingItem(Greeting(g)))
  {
    var name := ProtoGreeting.MechanismField(m);
    ProtoGreeting.MechanismFieldBytes(m);
    ProtoGreeting.LayoutIndices(major, minor, name, asServer);
    var g := ProtoGreeting.GreetingBytes(major, minor, name, asServer);
    assert g[0] == ProtoGreeting.SIGNATURE[0] == 0xFF;
    ReadGreetingFirst(g, rest);
  }
}
