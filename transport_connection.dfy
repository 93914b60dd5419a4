/**
 * transport/connection.ts: a connection over a buffered reader and writer,
 * reading whole frames, caching the peeked signature and major version,
 * carrying tags, and running its close handlers once when an operation
 * fails.
 */
module TransportConnection {
  import opened Bytes
  import opened Results
  import opened Io
  import Buffer
  import opened ProtoFrame
  import ProtoGreeting
  import ProtocolDataFrame

  /** What `write` accepts: a greeting, a frame, or raw bytes. */
  datatype Message = GreetingMessage(greeting: ProtoGreeting.Greeting) | FrameMessage(frame: Frame) | Raw(bytes: seq<byte>)
  {
    /** The bytes handed to the writer: `bytes()` of a greeting or a frame,
        raw bytes as they are. */
    function Bytes(): seq<byte>
    {
      match this
      case GreetingMessage(g) => g.body
      case FrameMessage(f) => f.body
      case Raw(b) => b
    }
  }

  /**
   * The number of bytes `read` takes for the frame at the read position:
   * `2 + b[1]` for a short frame; for a LONG frame, 9 plus the 64-bit number
   * the source reads through `DataView(b.buffer)` at offset 2 of the reader's
   * buffer. A stream that ends before the peeked bytes is `EOFError`.
   */
  function FrameSize(r: Reader): (res: Result<nat>)
    requires r.Valid()
    ensures res.Ok? ==> res.value >= 2 && r.pos < |r.stream|
    ensures res.Ok? && HasFlag(r.stream[r.pos], FLAG_LONG) ==> res.value >= 9
    ensures res.Err? ==> res.error == EndOfFile
  {
    match Peek(r, 2)
    case None => Err(EndOfFile)
    case Some(b) =>
      if !HasFlag(b[0], FLAG_LONG) then Ok(1 + 1 + b[1] as nat)
      else
        match Peek(r, 10)
        case None => Err(EndOfFile)
        case Some(_) =>
          match Buffer.ReadUint64(PeekView(r, 10), 2)
          case Some(n) => Ok(1 + 8 + n)
          case None => Err(EndOfFile)
  }

  /** A frame holds every byte its `size` getter reads: two, or nine when
      LONG. */
  predicate Whole(f: Frame)
  {
    |f.body| >= 2 && (f.IsLong() ==> |f.body| >= 9)
  }

  /** What `read` does to reader `r`: the frame or the failure, and the reader
      after it. A frame read is whole. */
  function ReadFrame(r: Reader): (res: (Result<Frame>, Reader))
    requires r.Valid()
    ensures res.1.Valid() && res.1.stream == r.stream && r.pos <= res.1.pos
    ensures res.0.Ok? ==> Whole(res.0.value) && res.1.pos == r.pos + |res.0.value.body|
    ensures res.0.Ok? ==> res.0.value.body == r.stream[r.pos..res.1.pos]
    ensures res.0.Err? ==> res.0.error == EndOfFile || res.0.error == PartialRead
  {
    match FrameSize(r)
    case Err(e) => (Err(e), r)
    case Ok(size) =>
      match ReadFull(r, size)
      case Err(e) => (Err(e), Advance(r, size))
      case Ok(body) => (Ok(Frame(body)), Advance(r, size))
  }

  /**
   * The connection's async iterator: the frames `read` returns one after
   * the other, and the failure that ends them.
   */
  function ReadAll(r: Reader): (res: (seq<Frame>, Error))
    requires r.Valid()
    ensures forall i :: 0 <= i < |res.0| ==> Whole(res.0[i])
    decreases |r.stream| - r.pos
  {
    var (f, r') := ReadFrame(r);
    match f
    case Err(e) => ([], e)
    case Ok(frame) =>
      var (rest, e) := ReadAll(r');
      ([frame] + rest, e)
  }

  class Connection<H> {
    /** The bytes the peer sends and the read position. */
    var reader: Reader
    /** What the writer took, in order. */
    var out: seq<Event>
    /** The buffered writer over the connection. */
    var writer: Writer
    /** Whether the underlying connection still takes bytes: `false` once
        the peer has gone or the connection was closed. */
    var open: bool
    var closeHandlers: Option<seq<H>>
    /** The close handlers that have run, in the order they ran. */
    var fired: seq<H>
    var sig: Option<seq<byte>>
    var major: Option<byte>
    var tags: Option<set<string>>

    ghost predicate Valid()
      reads this
    {
      reader.Valid() && writer.Valid()
    }

    /** The handlers registered and not yet run. */
    function PendingHandlers(): seq<H>
      reads this
    {
      if closeHandlers.Some? then closeHandlers.value else []
    }

    /** `createConnection`: a fresh connection reading `stream`. */
    constructor (stream: seq<byte>, open: bool)
      ensures Valid() && reader == Reader(stream, 0) && out == [] && writer == FRESH && this.open == open
      ensures closeHandlers == None && fired == [] && sig == None && major == None && tags == None
    {
      reader := Reader(stream, 0);
      out := [];
      writer := FRESH;
      this.open := open;
      closeHandlers := None;
      fired := [];
      sig := None;
      major := None;
      tags := None;
    }

    function ListTags(): Option<set<string>>
      reads this
    {
      tags
    }

    /** `setTag`: adds the tag to the set, creating it on first use; returns
        the same connection. */
    method SetTag(tag: string) returns (c: Connection<H>)
      modifies this
      ensures c == this
      ensures tags == Some((if old(tags).Some? then old(tags).value else {}) + {tag})
      ensures reader == old(reader) && out == old(out) && writer == old(writer) && open == old(open)
      ensures closeHandlers == old(closeHandlers) && fired == old(fired)
      ensures sig == old(sig) && major == old(major)
    {
      if tags.None? {
        assert {} + {tag} == {tag};
        tags := Some({tag});
      } else {
        tags := Some(tags.value + {tag});
      }
      c := this;
    }

    predicate HasTag(tag: string)
      reads this
    {
      tags.Some? && tag in tags.value
    }

    /** `close`: closes the underlying connection; later writes fail. */
    method Close()
      modifies this
      ensures out == old(out) + [Event.Close] && !open && writer == old(writer)
      ensures reader == old(reader) && closeHandlers == old(closeHandlers) && fired == old(fired)
      ensures sig == old(sig) && major == old(major) && tags == old(tags)
    {
      out := out + [Event.Close];
      open := false;
    }

    /** `onceClose`: registers a handler after those already registered. */
    method OnceClose(handler: H)
      modifies this
      ensures closeHandlers == Some(old(PendingHandlers()) + [handler])
      ensures reader == old(reader) && out == old(out) && writer == old(writer) && open == old(open) && fired == old(fired)
      ensures sig == old(sig) && major == old(major) && tags == old(tags)
    {
      if closeHandlers.None? {
        assert [] + [handler] == [handler];
        closeHandlers := Some([handler]);
      } else {
        closeHandlers := Some(closeHandlers.value + [handler]);
      }
    }

    /**
     * `notifyClose`: takes the handlers off the list one at a time, oldest
     * first, and runs each; a handler that throws is logged and the rest
     * still run. Afterwards none is left to run again.
     */
    method NotifyClose()
      modifies this
      ensures fired == old(fired) + old(PendingHandlers()) && PendingHandlers() == []
      ensures closeHandlers.Some? <==> old(closeHandlers).Some?
      ensures reader == old(reader) && out == old(out) && writer == old(writer) && open == old(open)
      ensures sig == old(sig) && major == old(major) && tags == old(tags)
    {
      var stop := false;
      while !stop
        invariant fired + PendingHandlers() == old(fired) + old(PendingHandlers())
        invariant closeHandlers.Some? <==> old(closeHandlers).Some?
        invariant stop ==> PendingHandlers() == []
        invariant reader == old(reader) && out == old(out) && writer == old(writer) && open == old(open)
        invariant sig == old(sig) && major == old(major) && tags == old(tags)
        decreases |PendingHandlers()| + (if stop then 0 else 1)
      {
        var fn: Option<H> := None;
        if closeHandlers.Some? && closeHandlers.value != [] {
          fn := Some(closeHandlers.value[0]);
          closeHandlers := Some(closeHandlers.value[1..]);
        }
        if fn.None? {
          stop := true;
        } else {
          fired := fired + [fn.value];
        }
      }
    }

    /**
     * `peekVersionMajor`: byte 10, peeked without consuming. The cache is
     * used only when it holds a non-zero byte, so a major version of 0 is
     * peeked again every time.
     */
    method PeekVersionMajor() returns (r: Result<byte>)
      requires Valid()
      modifies this
      ensures Valid() && reader == old(reader) && out == old(out) && writer == old(writer) && open == old(open)
      ensures sig == old(sig) && tags == old(tags)
      ensures r.Ok? ==> closeHandlers == old(closeHandlers)
      ensures old(major).Some? && old(major).value != 0 ==>
                r == Ok(old(major).value) && major == old(major) && fired == old(fired)
      ensures !(old(major).Some? && old(major).value != 0) ==>
                match Peek(reader, 11)
                case Some(b) => r == Ok(b[10]) && major == Some(b[10]) && fired == old(fired)
                case None => r == Err(EndOfFile) && major == old(major)
                             && fired == old(fired) + old(PendingHandlers()) && PendingHandlers() == []
    {
      if major.Some? && major.value != 0 {
        return Ok(major.value);
      }
      var b := Peek(reader, 11);
      if b.None? {
        NotifyClose();
        return Err(EndOfFile);
      }
      major := Some(b.value[10]);
      r := Ok(b.value[10]);
    }

    /** `readGreeting`: exactly 64 bytes, or the failure after running the
        close handlers. */
    method ReadGreeting() returns (r: Result<ProtoGreeting.Greeting>)
      requires Valid()
      modifies this
      ensures Valid() && reader == Advance(old(reader), ProtoGreeting.SIZE)
      ensures out == old(out) && writer == old(writer) && open == old(open) && sig == old(sig) && major == old(major) && tags == old(tags)
      ensures match ReadFull(old(reader), ProtoGreeting.SIZE)
              case Ok(b) => r == Ok(ProtoGreeting.Greeting(b)) && r.value.Valid() && fired == old(fired)
                            && closeHandlers == old(closeHandlers)
              case Err(e) => r == Err(e) && fired == old(fired) + old(PendingHandlers()) && PendingHandlers() == []
    {
      var b := ReadFull(reader, ProtoGreeting.SIZE);
      reader := Advance(reader, ProtoGreeting.SIZE);
      if b.Err? {
        NotifyClose();
        return Err(b.error);
      }
      r := Ok(ProtoGreeting.Greeting(b.value));
    }

    /** `peekSignature`: the first 10 bytes, peeked once and then served from
        the cache. */
    method PeekSignature() returns (r: Result<seq<byte>>)
      requires Valid()
      modifies this
      ensures Valid() && reader == old(reader) && out == old(out) && writer == old(writer) && open == old(open)
      ensures major == old(major) && tags == old(tags)
      ensures r.Ok? ==> closeHandlers == old(closeHandlers)
      ensures old(sig).Some? ==> r == Ok(old(sig).value) && sig == old(sig) && fired == old(fired)
      ensures old(sig).None? ==>
                match Peek(reader, 10)
                case Some(b) => r == Ok(b) && sig == Some(b) && fired == old(fired)
                case None => r == Err(EndOfFile) && sig == None && fired == old(fired) + old(PendingHandlers())
                             && PendingHandlers() == []
    {
      if sig.Some? {
        return Ok(sig.value);
      }
      var res := Peek(reader, 10);
      if res.None? {
        NotifyClose();
        return Err(EndOfFile);
      }
      sig := res;
      r := Ok(res.value);
    }

    /**
     * `flush`: the writer's buffered bytes go to the connection. A failure
     * is thrown as it is: `flush` does not run the close handlers, so a
     * connection whose peer has gone stays registered until a later
     * `write` fails.
     */
    method Flush() returns (r: Result<()>)
      modifies this
      ensures writer == Step(old(writer), open, Event.Flush)
      ensures r == (if Takes(old(writer), open, Event.Flush) then Ok(()) else Err(FlushFailed))
      ensures out == old(out) + (if r.Ok? then [Event.Flush] else [])
      ensures reader == old(reader) && open == old(open) && closeHandlers == old(closeHandlers) && fired == old(fired)
      ensures sig == old(sig) && major == old(major) && tags == old(tags)
    {
      var taken := Takes(writer, open, Event.Flush);
      writer := Step(writer, open, Event.Flush);
      if !taken {
        return Err(FlushFailed);
      }
      out := out + [Event.Flush];
      r := Ok(());
    }

    /** `write`: the message's bytes, unchanged, handed to the writer; a
        failed write runs the close handlers and is rethrown. */
    method Write(message: Message) returns (r: Result<nat>)
      modifies this
      ensures var e := Event.Write(message.Bytes());
        && writer == Step(old(writer), open, e)
        && (Takes(old(writer), open, e) ==>
              && r == Ok(|message.Bytes()|) && out == old(out) + [e]
              && fired == old(fired) && closeHandlers == old(closeHandlers))
        && (!Takes(old(writer), open, e) ==>
              && r == Err(WriteFailed) && out == old(out)
              && fired == old(fired) + old(PendingHandlers()) && PendingHandlers() == [])
      ensures reader == old(reader) && open == old(open) && sig == old(sig) && major == old(major) && tags == old(tags)
    {
      var b := message.Bytes();
      var taken := Takes(writer, open, Event.Write(b));
      writer := Step(writer, open, Event.Write(b));
      if !taken {
        NotifyClose();
        return Err(WriteFailed);
      }
      out := out + [Event.Write(b)];
      r := Ok(|b|);
    }

    /** `read`: one frame sized by `FrameSize`; a failure runs the close
        handlers and is rethrown. */
    method Read() returns (r: Result<Frame>)
      requires Valid()
      modifies this
      ensures Valid() && r == ReadFrame(old(reader)).0 && reader == ReadFrame(old(reader)).1
      ensures r.Ok? ==> fired == old(fired) && closeHandlers == old(closeHandlers)
      ensures r.Err? ==> fired == old(fired) + old(PendingHandlers()) && PendingHandlers() == []
      ensures out == old(out) && writer == old(writer) && open == old(open) && sig == old(sig) && major == old(major) && tags == old(tags)
    {
      var size := FrameSize(reader);
      if size.Err? {
        NotifyClose();
        return Err(size.error);
      }
      var body := ReadFull(reader, size.value);
      reader := Advance(reader, size.value);
      if body.Err? {
        NotifyClose();
        return Err(body.error);
      }
      r := Ok(Frame(body.value));
    }

    /**
     * The async iterator run to its end: `read` until it fails; the failure
     * runs the close handlers, and the iterator's own `notifyClose` before
     * rethrowing finds none left.
     */
    method Frames() returns (frames: seq<Frame>, e: Error)
      requires Valid()
      modifies this
      ensures Valid() && (frames, e) == ReadAll(old(reader))
      ensures fired == old(fired) + old(PendingHandlers()) && PendingHandlers() == []
      ensures out == old(out) && writer == old(writer) && open == old(open) && sig == old(sig) && major == old(major) && tags == old(tags)
    {
      frames := [];
      assert [] + ReadAll(reader).0 == ReadAll(reader).0;
      while true
        invariant Valid() && reader.stream == old(reader).stream
        invariant ReadAll(old(reader)) == (frames + ReadAll(reader).0, ReadAll(reader).1)
        invariant fired == old(fired) && closeHandlers == old(closeHandlers)
        invariant out == old(out) && writer == old(writer) && open == old(open) && sig == old(sig) && major == old(major) && tags == old(tags)
        decreases |reader.stream| - reader.pos
      {
        ghost var before := reader;
        var r := Read();
        ReadAllStep(before);
        if r.Err? {
          assert frames + [] == frames;
          NotifyClose();
          return frames, r.error;
        }
        AppendFrame(frames, r.value, ReadAll(reader).0);
        frames := frames + [r.value];
      }
    }
  }

  /** One step of the iterator: a failed read ends it, a frame read comes
      first. */
  lemma ReadAllStep(r: Reader)
    requires r.Valid()
    ensures var (f, r') := ReadFrame(r);
      && (f.Err? ==> ReadAll(r) == ([], f.error))
      && (f.Ok? ==> ReadAll(r) == ([f.value] + ReadAll(r').0, ReadAll(r').1))
  {
  }

  lemma AppendFrame(done: seq<Frame>, f: Frame, rest: seq<Frame>)
    ensures done + ([f] + rest) == (done + [f]) + rest
  {
  }

  /** Peeks never consume: the signature and the major version are the bytes
      at the read position, and reading the greeting after them sees the
      same bytes. */
  lemma {:induction false} PeeksAreGreetingPrefix(r: Reader)
    requires r.Valid() && r.pos + ProtoGreeting.SIZE <= |r.stream|
    ensures Peek(r, 10).Some? && Peek(r, 11).Some? && ReadFull(r, ProtoGreeting.SIZE).Ok?
    ensures Peek(r, 10).value == ReadFull(r, ProtoGreeting.SIZE).value[..10]
    ensures Peek(r, 11).value[10] == ReadFull(r, ProtoGreeting.SIZE).value[10]
  {
  }

  /** A short frame takes `2 + b[1]` bytes, all of them present or not. */
  lemma {:induction false} ShortFrameSize(r: Reader)
    requires r.Valid() && r.pos + 2 <= |r.stream| && !HasFlag(r.stream[r.pos], FLAG_LONG)
    ensures FrameSize(r) == Ok(2 + r.stream[r.pos + 1] as nat)
    ensures var n := 2 + r.stream[r.pos + 1] as nat;
      r.pos + n <= |r.stream| ==>
        ReadFrame(r) == (Ok(Frame(r.stream[r.pos..r.pos + n])), Reader(r.stream, r.pos + n))
  {
  }

  /**
   * A LONG frame's size comes from bytes 2-9 of the reader's buffer, which
   * are not its length bytes (those follow its flags at the read position).
   */
  lemma {:induction false} LongFrameSize(r: Reader)
    requires r.Valid() && r.pos + 10 <= |r.stream| && HasFlag(r.stream[r.pos], FLAG_LONG)
    ensures FrameSize(r) == Ok(9 + BigEndian(r.stream[2..10]))
  {
  }

  /**
   * For example, a LONG frame at the start of the stream with a payload of
   * fewer than 2^56 bytes is sized from its length shifted one byte up,
   * plus its first payload byte.
   */
  lemma {:induction false} LongFrameMisread(more: bool, p: seq<byte>, rest: seq<byte>)
    requires 0xFF < |p| < Pow256(7)
    ensures var s := ProtocolDataFrame.DataFrameBytes(more, p) + rest;
      FrameSize(Reader(s, 0)) == Ok(9 + |p| * 256 + p[0])
  {
    var f := ProtocolDataFrame.DataFrameBytes(more, p);
    var s := f + rest;
    ProtocolDataFrame.LongLayout(more, p);
    ProtocolDataFrame.DataFlagsBits(more, |p|);
    assert s[2..10] == ToBigEndian(|p|, 8)[1..] + [p[0]];
    ToBigEndianDropFirst(|p|, 7);
    BigEndianAppend(ToBigEndian(|p|, 7), p[0]);
    BigEndianRoundTrip(|p|, 7);
    LongFrameSize(Reader(s, 0));
  }

  /** A short frame built by the data-frame builder is read back whole, with
      the reader moved past it. */
  lemma {:induction false} ReadBuiltFrame(before: seq<byte>, more: bool, p: seq<byte>, rest: seq<byte>)
    requires |p| <= 0xFF
    ensures var f := ProtocolDataFrame.DataFrameBytes(more, p);
      ReadFrame(Reader(before + f + rest, |before|))
        == (Ok(Frame(f)), Reader(before + f + rest, |before| + |f|))
  {
    var f := ProtocolDataFrame.DataFrameBytes(more, p);
    var s := before + f + rest;
    ProtocolDataFrame.BuiltShape(more, p);
    ProtocolDataFrame.DataFlagsBits(more, |p|);
    assert s[|before|] == f[0] && s[|before| + 1] == f[1];
    assert s[|before|..|before| + |f|] == f;
    ShortFrameSize(Reader(s, |before|));
  }

  /** Running the close handlers twice runs each of them once. */
  method NotifyTwice<H>(c: Connection<H>) returns (ran: seq<H>)
    modifies c
    ensures ran == c.fired && c.fired == old(c.fired) + old(c.PendingHandlers())
  {
    c.NotifyClose();
    c.NotifyClose();
    ran := c.fired;
  }

  /** Tags accumulate: after `setTag(a)` then `setTag(b)` both are held. */
  method TagTwice<H>(c: Connection<H>, a: string, b: string) returns (both: bool)
    modifies c
    ensures both && c.HasTag(a) && c.HasTag(b)
  {
    var c1 := c.SetTag(a);
    var c2 := c1.SetTag(b);
    both := c.HasTag(a) && c.HasTag(b);
  }
}
