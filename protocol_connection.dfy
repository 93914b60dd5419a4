/**
 * protocol/connection.ts: the earlier connection draft, with frame reading
 * as free functions over the reader, peek caches, and a single `onClose`
 * handler that a failed `read` runs once.
 */
module ProtocolConnection {
  import opened Bytes
  import opened Results
  import opened Io
  import Buffer
  import opened ProtocolFrame
  import TransportConnection

  /** What `write` accepts: a greeting, a frame, or raw bytes. */
  datatype Message = GreetingMessage(greeting: Greeting) | FrameMessage(frame: Frame) | Raw(bytes: seq<byte>)
  {
    function Bytes(): seq<byte>
    {
      match this
      case GreetingMessage(g) => g.body
      case FrameMessage(f) => f.body
      case Raw(b) => b
    }
  }

  /** `readGreeting(reader)`: exactly 64 bytes; a stream already at its end
      is `EOFError`. */
  function ReadGreetingFrom(r: Reader): (res: (Result<Greeting>, Reader))
    requires r.Valid()
    ensures res.1 == Advance(r, GREETING_SIZE)
    ensures res.0.Ok? ==> r.pos + GREETING_SIZE <= |r.stream| && res.0.value.Valid() && res.0.value.body == r.stream[r.pos..r.pos + GREETING_SIZE]
  {
    match ReadFull(r, GREETING_SIZE)
    case Err(e) => (Err(e), Advance(r, GREETING_SIZE))
    case Ok(b) => (Ok(Greeting(b)), Advance(r, GREETING_SIZE))
  }

  /** The size `readFrame` allocates: `2 + b[1]` for a short frame, and for a
      LONG frame 9 plus the 64-bit number at offset 2 of the reader's
      buffer. */
  function FrameSize(r: Reader): (res: Result<nat>)
    requires r.Valid()
    ensures res.Ok? ==> res.value >= 2
  {
    match Peek(r, 2)
    case None => Err(EndOfFile)
    case Some(b) =>
      if !HasFlag(b[0], FLAG_LONG) then Ok(1 + 1 + b[1] as nat)
      else
        match Peek(r, 10)
        case None => Err(EndOfFile)
        case Some(_) =>
          match Buffer.ReadUint64(PeekView(r, 10), 2)
          case Some(n) => Ok(1 + 8 + n)
          case None => Err(EndOfFile)
  }

  /** `readFrame(reader)`: the frame or the failure, and the reader after it. */
  function ReadFrame(r: Reader): (res: (Result<Frame>, Reader))
    requires r.Valid()
    ensures res.1.Valid() && res.1.stream == r.stream && r.pos <= res.1.pos
    ensures res.0.Ok? ==> |res.0.value.body| >= 2 && res.1.pos == r.pos + |res.0.value.body|
    ensures res.0.Ok? ==> res.0.value.body == r.stream[r.pos..res.1.pos]
  {
    match FrameSize(r)
    case Err(e) => (Err(e), r)
    case Ok(size) =>
      match ReadFull(r, size)
      case Err(e) => (Err(e), Advance(r, size))
      case Ok(body) => (Ok(Frame(body)), Advance(r, size))
  }

  /** `genFrames(reader)` run to its end: the frames read one after the
      other, and the failure that ends them. */
  function GenFrames(r: Reader): (res: (seq<Frame>, Error))
    requires r.Valid()
    decreases |r.stream| - r.pos
  {
    var (f, r') := ReadFrame(r);
    match f
    case Err(e) => ([], e)
    case Ok(frame) =>
      var (rest, e) := GenFrames(r');
      ([frame] + rest, e)
  }

  lemma GenFramesStep(r: Reader)
    requires r.Valid()
    ensures var (f, r') := ReadFrame(r);
      && (f.Err? ==> GenFrames(r) == ([], f.error))
      && (f.Ok? ==> GenFrames(r) == ([f.value] + GenFrames(r').0, GenFrames(r').1))
  {
  }

  /** The two connection drafts size frames alike, so they read the same
      bytes and leave the reader at the same place. */
  lemma {:induction false} SameFrames(r: Reader)
    requires r.Valid()
    ensures FrameSize(r) == TransportConnection.FrameSize(r)
    ensures ReadFrame(r).1 == TransportConnection.ReadFrame(r).1
    ensures ReadFrame(r).0.Ok? <==> TransportConnection.ReadFrame(r).0.Ok?
    ensures ReadFrame(r).0.Ok? ==> ReadFrame(r).0.value.body == TransportConnection.ReadFrame(r).0.value.body
  {
  }

  class Connection<H> {
    var reader: Reader
    /** What the writer took, in order. */
    var out: seq<Event>
    /** The buffered writer the connection was given. */
    var writer: Writer
    /** Whether the underlying connection still takes bytes. */
    var open: bool
    /** Whether a `closer` was given. */
    var hasCloser: bool
    var onClose: Option<H>
    /** The `onClose` handlers that have run, in order. */
    var fired: seq<H>
    var sig: Option<seq<byte>>
    var major: Option<byte>

    ghost predicate Valid()
      reads this
    {
      reader.Valid() && writer.Valid()
    }

    /** `createConnection(reader, writer, closer?)`. */
    constructor (stream: seq<byte>, writer: Writer, open: bool, hasCloser: bool)
      requires writer.Valid()
      ensures Valid() && reader == Reader(stream, 0) && out == [] && this.writer == writer && this.open == open
      ensures this.hasCloser == hasCloser && onClose == None && fired == [] && sig == None && major == None
    {
      reader := Reader(stream, 0);
      out := [];
      this.writer := writer;
      this.open := open;
      this.hasCloser := hasCloser;
      onClose := None;
      fired := [];
      sig := None;
      major := None;
    }

    /** `close`: calls the closer, if one was given. */
    method Close()
      modifies this
      ensures out == old(out) + (if hasCloser then [Event.Close] else [])
      ensures open == (old(open) && !hasCloser) && writer == old(writer)
      ensures reader == old(reader) && hasCloser == old(hasCloser) && onClose == old(onClose)
      ensures fired == old(fired) && sig == old(sig) && major == old(major)
    {
      if hasCloser {
        out := out + [Event.Close];
        open := false;
      }
    }

    /** `peekVersionMajor`: byte 10, peeked; the cache serves only a non-zero
        byte. A failure is thrown without running `onClose`. */
    method PeekVersionMajor() returns (r: Result<byte>)
      requires Valid()
      modifies this
      ensures reader == old(reader) && out == old(out) && writer == old(writer) && open == old(open) && hasCloser == old(hasCloser)
      ensures onClose == old(onClose) && fired == old(fired) && sig == old(sig)
      ensures old(major).Some? && old(major).value != 0 ==> r == Ok(old(major).value) && major == old(major)
      ensures !(old(major).Some? && old(major).value != 0) ==>
                match Peek(reader, 11)
                case Some(b) => r == Ok(b[10]) && major == Some(b[10])
                case None => r == Err(EndOfFile) && major == old(major)
    {
      if major.Some? && major.value != 0 {
        return Ok(major.value);
      }
      var b := Peek(reader, 11);
      if b.None? {
        return Err(EndOfFile);
      }
      major := Some(b.value[10]);
      r := Ok(b.value[10]);
    }

    method ReadGreeting() returns (r: Result<Greeting>)
      requires Valid()
      modifies this
      ensures Valid() && (r, reader) == ReadGreetingFrom(old(reader))
      ensures out == old(out) && writer == old(writer) && open == old(open) && hasCloser == old(hasCloser)
      ensures onClose == old(onClose) && fired == old(fired) && sig == old(sig) && major == old(major)
    {
      var res := ReadGreetingFrom(reader);
      r, reader := res.0, res.1;
    }

    /** `peekSignature`: the first 10 bytes, peeked once and then served from
        the cache. */
    method PeekSignature() returns (r: Result<seq<byte>>)
      requires Valid()
      modifies this
      ensures reader == old(reader) && out == old(out) && writer == old(writer) && open == old(open) && hasCloser == old(hasCloser)
      ensures onClose == old(onClose) && fired == old(fired) && major == old(major)
      ensures old(sig).Some? ==> r == Ok(old(sig).value) && sig == old(sig)
      ensures old(sig).None? ==>
                match Peek(reader, 10)
                case Some(b) => r == Ok(b) && sig == Some(b)
                case None => r == Err(EndOfFile) && sig == None
    {
      if sig.Some? {
        return Ok(sig.value);
      }
      var res := Peek(reader, 10);
      if res.None? {
        return Err(EndOfFile);
      }
      sig := res;
      r := Ok(res.value);
    }

    /** `onClose`: the handler replaces any registered before. */
    method OnClose(handler: H)
      modifies this
      ensures onClose == Some(handler)
      ensures reader == old(reader) && out == old(out) && writer == old(writer) && open == old(open) && hasCloser == old(hasCloser)
      ensures fired == old(fired) && sig == old(sig) && major == old(major)
    {
      onClose := Some(handler);
    }

    /** `flush`: the writer's buffered bytes go to the connection; a
        failure is thrown as it is. */
    method Flush() returns (r: Result<()>)
      modifies this
      ensures writer == Step(old(writer), open, Event.Flush)
      ensures r == (if Takes(old(writer), open, Event.Flush) then Ok(()) else Err(FlushFailed))
      ensures out == old(out) + (if r.Ok? then [Event.Flush] else [])
      ensures reader == old(reader) && open == old(open) && hasCloser == old(hasCloser)
      ensures onClose == old(onClose) && fired == old(fired) && sig == old(sig) && major == old(major)
    {
      var taken := Takes(writer, open, Event.Flush);
      writer := Step(writer, open, Event.Flush);
      if !taken {
        return Err(FlushFailed);
      }
      out := out + [Event.Flush];
      r := Ok(());
    }

    /** `write`: the message's bytes, unchanged, handed to the writer; a
        failure is thrown as it is, without running `onClose`. */
    method Write(message: Message) returns (r: Result<nat>)
      modifies this
      ensures var e := Event.Write(message.Bytes());
        && writer == Step(old(writer), open, e)
        && r == (if Takes(old(writer), open, e) then Ok(|message.Bytes()|) else Err(WriteFailed))
        && out == old(out) + (if r.Ok? then [e] else [])
      ensures reader == old(reader) && open == old(open) && hasCloser == old(hasCloser)
      ensures onClose == old(onClose) && fired == old(fired) && sig == old(sig) && major == old(major)
    {
      var b := message.Bytes();
      var taken := Takes(writer, open, Event.Write(b));
      writer := Step(writer, open, Event.Write(b));
      if !taken {
        return Err(WriteFailed);
      }
      out := out + [Event.Write(b)];
      r := Ok(|b|);
    }

    /** `read`: one frame; on a failure the registered handler, if any, is
        cleared and then run, and the failure rethrown. */
    method Read() returns (r: Result<Frame>)
      requires Valid()
      modifies this
      ensures Valid() && r == ReadFrame(old(reader)).0 && reader == ReadFrame(old(reader)).1
      ensures r.Ok? ==> onClose == old(onClose) && fired == old(fired)
      ensures r.Err? ==> onClose == None
      ensures r.Err? ==> fired == old(fired) + (if old(onClose).Some? then [old(onClose).value] else [])
      ensures out == old(out) && writer == old(writer) && open == old(open) && hasCloser == old(hasCloser) && sig == old(sig) && major == old(major)
    {
      var res := ReadFrame(reader);
      reader := res.1;
      if res.0.Err? {
        if onClose.Some? {
          var fn := onClose.value;
          onClose := None;
          fired := fired + [fn];
        }
        return res.0;
      }
      r := res.0;
    }

    /** The async iterator (`genFrames`) run to its end: frames until the
        first failure, which does not run `onClose`. */
    method Frames() returns (frames: seq<Frame>, e: Error)
      requires Valid()
      modifies this
      ensures Valid() && (frames, e) == GenFrames(old(reader))
      ensures out == old(out) && writer == old(writer) && open == old(open) && hasCloser == old(hasCloser)
      ensures onClose == old(onClose) && fired == old(fired) && sig == old(sig) && major == old(major)
    {
      frames := [];
      assert [] + GenFrames(reader).0 == GenFrames(reader).0;
      while true
        invariant Valid() && reader.stream == old(reader).stream
        invariant GenFrames(old(reader)) == (frames + GenFrames(reader).0, GenFrames(reader).1)
        invariant out == old(out) && writer == old(writer) && open == old(open) && hasCloser == old(hasCloser)
        invariant onClose == old(onClose) && fired == old(fired) && sig == old(sig) && major == old(major)
        decreases |reader.stream| - reader.pos
      {
        var res := ReadFrame(reader);
        GenFramesStep(reader);
        if res.0.Err? {
          assert frames + [] == frames;
          return frames, res.0.error;
        }
        assert frames + ([res.0.value] + GenFrames(res.1).0) == (frames + [res.0.value]) + GenFrames(res.1).0;
        frames := frames + [res.0.value];
        reader := res.1;
      }
    }
  }

  /** A handler registered with `onClose` runs on the first failed `read` only:
      a second failure finds none. */
  method FailTwice<H>(c: Connection<H>, h: H) returns (first: Result<Frame>, second: Result<Frame>)
    requires c.Valid() && c.reader.pos == |c.reader.stream|
    modifies c
    ensures first.Err? && second.Err?
    ensures c.fired == old(c.fired) + [h] && c.onClose == None
  {
    c.OnClose(h);
    first := c.Read();
    second := c.Read();
  }

  /** Registering twice keeps only the second handler, which is the one a
      failed `read` runs. */
  method ReplaceHandler<H>(c: Connection<H>, h1: H, h2: H) returns (r: Result<Frame>)
    requires c.Valid() && c.reader.pos == |c.reader.stream|
    modifies c
    ensures r.Err? && c.fired == old(c.fired) + [h2]
  {
    c.OnClose(h1);
    c.OnClose(h2);
    r := c.Read();
  }
}
