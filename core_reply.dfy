/**
 * core/reply.ts: the REP socket. Every accepted connection's frames are cut
 * into requests, which wait in one queue shared by all connections; taking
 * a request makes its connection the active one, and replies go to the
 * active connection.
 */
module CoreReply {
  import opened Bytes
  import opened Results
  import opened Io
  import ProtoFrame
  import ProtocolDataFrame
  import TransportConnection
  import MiscUnboundedQueue
  import CoreUtils
  import opened CoreSocket

  /** A request and the connection it came from. */
  datatype Chunk = Chunk(conn: Conn, reqs: seq<seq<byte>>)

  /**
   * `genChunk` over the frames a connection yields, as views, and the error
   * that ends them, with `reqs` collected so far: the requests cut out, and
   * the error that escapes (`None` when the frames end with `EOFError`). A
   * frame without MORE ends a request and its payload is kept even when
   * empty; a MORE frame adds its payload only when its size is not zero.
   */
  function GenChunk(vs: seq<CoreUtils.View>, e: Error, reqs: seq<seq<byte>>): (res: (seq<seq<seq<byte>>>, Option<Error>))
    decreases |vs|
  {
    if vs == [] then ([], if e == EndOfFile then None else Some(e))
    else if !vs[0].more then
      match vs[0].payload
      case None => ([], Some(RangeError))
      case Some(p) =>
        var rest := GenChunk(vs[1..], e, []);
        ([reqs + [p]] + rest.0, rest.1)
    else
      match vs[0].size
      case None => ([], Some(RangeError))
      case Some(n) =>
        if n == 0 then GenChunk(vs[1..], e, reqs)
        else match vs[0].payload
          case None => ([], Some(RangeError))
          case Some(p) => GenChunk(vs[1..], e, reqs + [p])
  }

  /** On frames read from a connection the only error that can escape
      `genChunk` is the one that ended the reads, and `EOFError` does not. */
  lemma {:induction false} GenChunkFailure(vs: seq<CoreUtils.View>, e: Error, reqs: seq<seq<byte>>)
    requires forall i :: 0 <= i < |vs| ==> CoreUtils.Readable(vs[i])
    ensures GenChunk(vs, e, reqs).1 == if e == EndOfFile then None else Some(e)
    decreases |vs|
  {
    if vs != [] {
      assert forall i :: 0 <= i < |vs[1..]| ==> CoreUtils.Readable(vs[1..][i]);
      var p := vs[0].payload.value;
      if !vs[0].more {
        GenChunkFailure(vs[1..], e, []);
      } else if vs[0].size.value == 0 {
        GenChunkFailure(vs[1..], e, reqs);
      } else {
        GenChunkFailure(vs[1..], e, reqs + [p]);
      }
    }
  }

  /** The request one message's parts make: the payloads of all but the
      last part that are not empty, then the last part's payload. */
  function Request(ps: seq<CoreUtils.Part>): seq<seq<byte>>
    requires ps != []
  {
    if |ps| == 1 then [ps[0].payload]
    else (if ps[0].payload == [] then [] else [ps[0].payload]) + Request(ps[1..])
  }

  /**
   * The frames of one message, as a peer writes them, followed by any
   * frames: `genChunk` cuts the message into one request, then goes on with
   * the frames after it.
   */
  lemma {:induction false} GenChunkParts(ps: seq<CoreUtils.Part>, vs: seq<CoreUtils.View>, e: Error, reqs: seq<seq<byte>>)
    requires OneMessage(ps)
    requires |ps| <= |vs| && forall i :: 0 <= i < |ps| ==> vs[i] == CoreUtils.PartView(ps[i])
    ensures var after := GenChunk(vs[|ps|..], e, []);
      GenChunk(vs, e, reqs) == ([reqs + Request(ps)] + after.0, after.1)
    decreases |ps|
  {
    var p := ps[0];
    if |ps| > 1 {
      var head := if p.payload == [] then [] else [p.payload];
      assert GenChunk(vs, e, reqs) == GenChunk(vs[1..], e, reqs + head) by {
        assert vs[0] == CoreUtils.PartView(p);
        assert reqs + [] == reqs;
      }
      assert p.more && OneMessage(ps[1..]) by {
        assert forall i :: 0 <= i < |ps| - 1 ==> ps[1..][i] == ps[i + 1];
      }
      assert forall i :: 0 <= i < |ps| - 1 ==> vs[1..][i] == CoreUtils.PartView(ps[1..][i]) by {
        assert forall i :: 0 <= i < |ps| - 1 ==> vs[1..][i] == vs[i + 1] && ps[1..][i] == ps[i + 1];
      }
      GenChunkParts(ps[1..], vs[1..], e, reqs + head);
      assert vs[1..][|ps| - 1..] == vs[|ps|..];
      assert Request(ps) == head + Request(ps[1..]);
      assert (reqs + head) + Request(ps[1..]) == reqs + (head + Request(ps[1..]));
    } else {
      assert vs[0] == CoreUtils.PartView(p);
    }
  }

  /** Messages none of which encodes to nothing: a MORE part with an empty
      payload would be dropped from the request. */
  predicate NonEmpty(msgs: seq<CoreUtils.MessageLike>)
  {
    forall i :: 0 <= i < |msgs| ==> msgs[i].Encoded() != []
  }

  lemma {:induction false} RequestOfMessages(msgs: seq<CoreUtils.MessageLike>)
    requires |msgs| > 0 && NonEmpty(msgs)
    ensures Request(CoreUtils.MessageParts(msgs)) == CoreUtils.Encodings(msgs)
  {
    CoreUtils.EncodingsCons(msgs);
    if |msgs| > 1 {
      CoreUtils.PartsTail(msgs);
      RequestOfMessages(msgs[1..]);
    }
  }

  /**
   * What a REQ socket's `send` writes after the handshake, read by the REP
   * socket's connection up to the end of the stream: exactly one request,
   * the messages' encodings in order, and no error escapes. The two empty
   * delimiters are skipped.
   */
  lemma {:induction false} RequestRoundTrip(before: seq<byte>, msgs: seq<CoreUtils.MessageLike>)
    requires |msgs| > 0 && CoreUtils.ShortMessages(msgs) && NonEmpty(msgs)
    ensures var s := before + ProtoFrame.EMPTY_HAS_MORE.body + CoreUtils.Sent(CoreUtils.Envelope(msgs));
      var (fs, e) := TransportConnection.ReadAll(Reader(s, |before|));
      GenChunk(CoreUtils.Views(fs), e, []) == ([CoreUtils.Encodings(msgs)], None)
  {
    var ps := Delimited(msgs);
    SentParts(before, msgs);
    CoreUtils.BuiltViews(ps);
    OneRequest(ps);
    DelimitedRequest(msgs);
  }

  /** The frames of one message and nothing after them make one request. */
  lemma OneRequest(ps: seq<CoreUtils.Part>)
    requires OneMessage(ps)
    ensures GenChunk(CoreUtils.PartViews(ps), EndOfFile, []) == ([Request(ps)], None)
  {
    var vs := CoreUtils.PartViews(ps);
    GenChunkParts(ps, vs, EndOfFile, []);
    var after := GenChunk(vs[|ps|..], EndOfFile, []);
    assert after == ([], None) by {
      assert vs[|ps|..] == [];
    }
    assert [] + Request(ps) == Request(ps);
    assert [Request(ps)] + after.0 == [Request(ps)];
  }

  /** The empty delimiters add nothing to the request. */
  lemma DelimitedRequest(msgs: seq<CoreUtils.MessageLike>)
    requires |msgs| > 0 && NonEmpty(msgs)
    ensures Request(Delimited(msgs)) == CoreUtils.Encodings(msgs)
  {
    var ps := Delimited(msgs);
    assert ps[1..][1..] == CoreUtils.MessageParts(msgs);
    RequestOfMessages(msgs);
  }

  /** The chunks of `conn`, as queued. */
  function Queued(conn: Conn, chunks: seq<seq<seq<byte>>>): (q: seq<Option<Chunk>>)
    ensures |q| == |chunks|
    ensures forall i :: 0 <= i < |chunks| ==> q[i] == Some(Chunk(conn, chunks[i]))
  {
    seq(|chunks|, i requires 0 <= i < |chunks| => Some(Chunk(conn, chunks[i])))
  }

  /** What the consumer loop of `iter` gets: a request, the end (the queue's
      `null`), or a wait until a connection queues one. */
  datatype Step = Requests(reqs: seq<seq<byte>>) | End | Suspended

  /** `ReplierImpl`: a `ServerSocket` of type REP, the active connection and
      the shared queue of requests. */
  class Replier {
    const base: ServerSocket
    const store: MiscUnboundedQueue.Unbounded<Chunk>
    var active: Option<Conn>

    /** The queue is never closed. */
    ghost predicate Valid()
      reads this, store
    {
      store.Valid() && !store.closed && base.socketType == REP
    }

    constructor ()
      ensures Valid() && fresh(base) && fresh(store)
      ensures !base.bound && base.conns == {} && active == None && store.Contents() == []
    {
      base := new ServerSocket(REP);
      store := new MiscUnboundedQueue.Unbounded<Chunk>();
      active := None;
    }

    /**
     * `send(...msg)`: only to the active connection; a delimiter, then
     * `sendMessages` with its own, handed to the writer until it refuses
     * one. A refused write runs the connection's close handlers, so the
     * connection leaves the socket's connections; a refused flush does not.
     */
    method Send(msgs: seq<CoreUtils.MessageLike>) returns (r: Result<()>)
      requires Valid()
      modifies base, if active.Some? then {active.value} else {}
      ensures Valid() && base.bound == old(base.bound)
      ensures old(active).None? ==> r == Err(NoActiveConnection) && base.conns == old(base.conns)
      ensures old(active).Some? ==> var c := active.value;
        var es := CoreSocket.SendEvents(msgs);
        var run := Run(old(c.writer), c.open, es);
        && c.reader == old(c.reader) && c.open == old(c.open)
        && c.out == old(c.out) + es[..run.0] && c.writer == run.1
        && r == (if |msgs| == 0 && run.0 == 1 then Err(NoMessages) else Outcome(old(c.writer), c.open, es))
        && c.fired == old(c.fired) + (if r == Err(WriteFailed) then old(c.PendingHandlers()) else [])
        && base.conns == if r == Err(WriteFailed) && DropConn in old(c.PendingHandlers())
                         then old(base.conns) - {c} else old(base.conns)
    {
      if active.None? {
        return Err(NoActiveConnection);
      }
      var c := active.value;
      var mark := |c.fired|;
      r := CoreSocket.SendOn(c, msgs);
      assert c.fired[mark..] == if r == Err(WriteFailed) then old(c.PendingHandlers()) else [];
      base.ApplyDrop(c, mark);
    }

    /** One turn of `iter`: `load`, then `next`; a request makes its
        connection the active one before it is handed out. */
    method NextRequest() returns (r: Step)
      requires Valid()
      modifies this, store
      ensures Valid()
      ensures old(store.Contents()) == [] ==> r == Suspended && active == old(active) && store.Contents() == []
      ensures old(store.Contents()) != [] ==>
        && store.Contents() == old(store.Contents())[1..]
        && match old(store.Contents())[0]
           case None => r == End && active == old(active)
           case Some(c) => r == Requests(c.reqs) && active == Some(c.conn)
    {
      var next := MiscUnboundedQueue.Take(store);
      if next.Waiting? || next.Failed? {
        return Suspended;
      }
      if next.item.None? {
        return End;
      }
      active := Some(next.item.value.conn);
      r := Requests(next.item.value.reqs);
    }

    /**
     * `onConnect`: every request `genChunk` cuts from the connection is
     * queued, in order. Reading to the end runs the connection's close
     * handlers, so it leaves the socket's connections.
     */
    method OnConnect(conn: Conn) returns (failure: Option<Error>)
      requires Valid() && conn.Valid()
      modifies base, conn, store
      ensures Valid() && active == old(active) && base.bound == old(base.bound)
      ensures var (fs, e) := TransportConnection.ReadAll(old(conn.reader));
        && failure == (if e == EndOfFile then None else Some(e))
        && store.Contents() == old(store.Contents()) + Queued(conn, GenChunk(CoreUtils.Views(fs), e, []).0)
      ensures conn.fired == old(conn.fired) + old(conn.PendingHandlers())
      ensures base.conns == if DropConn in old(conn.PendingHandlers()) then old(base.conns) - {conn} else old(base.conns)
      ensures conn.out == old(conn.out) && conn.open == old(conn.open)
    {
      var mark := |conn.fired|;
      var frames, e := conn.Frames();
      assert conn.fired[mark..] == old(conn.PendingHandlers());
      base.ApplyDrop(conn, mark);
      var chunks := GenChunk(CoreUtils.Views(frames), e, []);
      CoreUtils.ReadableFrames(frames);
      GenChunkFailure(CoreUtils.Views(frames), e, []);
      PushAll(conn, chunks.0);
      failure := chunks.1;
    }

    /**
     * An accepted connection, from `handleConn` to the end of its stream:
     * after the handshake every request it sends is queued in order, and
     * the end of the stream takes it out of the socket's connections.
     */
    method Accept(conn: Conn) returns (r: Result<ProtoFrame.Frame>, failure: Option<Error>)
      requires Valid() && conn.Valid() && conn.sig.None? && conn.major.None?
      requires conn.closeHandlers.None? && conn.fired == []
      modifies base, conn, store
      ensures Valid() && active == old(active) && base.bound == old(base.bound)
      ensures r == ServerHandshake(old(conn.reader), old(conn.writer), old(conn.open))
      ensures conn.out == old(conn.out) + ServerOut(old(conn.reader), old(conn.writer), old(conn.open), REP)
      ensures r.Err? ==> failure == None && store.Contents() == old(store.Contents())
      ensures r.Err? ==> (conn in base.conns <==> !RanHandlers(r))
      ensures r.Ok? ==> var (fs, e) := TransportConnection.ReadAll(AfterHandshake(old(conn.reader)));
        && failure == (if e == EndOfFile then None else Some(e))
        && store.Contents() == old(store.Contents()) + Queued(conn, GenChunk(CoreUtils.Views(fs), e, []).0)
        && conn.fired == [DropConn] && base.conns == old(base.conns) - {conn}
    {
      r := base.HandleConn(conn);
      failure := None;
      if r.Ok? {
        failure := OnConnect(conn);
      }
    }

    /** The loop of `onConnect`: each request pushed onto the queue. */
    method PushAll(conn: Conn, chunks: seq<seq<seq<byte>>>)
      requires Valid()
      modifies store
      ensures Valid() && store.Contents() == old(store.Contents()) + Queued(conn, chunks)
    {
      var i := 0;
      while i < |chunks|
        invariant 0 <= i <= |chunks|
        invariant Valid() && store.Contents() == old(store.Contents()) + Queued(conn, chunks[..i])
      {
        var pushed := store.Push(Chunk(conn, chunks[i]));
        assert Queued(conn, chunks[..i + 1]) == Queued(conn, chunks[..i]) + [Some(Chunk(conn, chunks[i]))];
        i := i + 1;
      }
      assert chunks[..i] == chunks;
    }
  }
}
