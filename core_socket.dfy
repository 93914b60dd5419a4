/**
 * core/socket.ts: the two socket bases. A `ServerSocket` registers every
 * accepted connection and runs the server side of the handshake on it; a
 * client `Socket` holds the one connection it connected, runs the client
 * side of the handshake, and sends and receives envelopes on it.
 */
module CoreSocket {
  import opened Bytes
  import opened Results
  import opened Io
  import Text
  import ProtoFrame
  import ProtoCommand
  import ProtoReady
  import ProtoGreeting
  import ProtocolDataFrame
  import TransportConnection
  import CoreUtils

  /** types.ts: the socket types, sent as READY metadata by their names. */
  datatype SocketType = REQ | REP | PULL | PUSH | PUB | SUB
  {
    function Text(): string
    {
      match this
      case REQ => "REQ"
      case REP => "REP"
      case PULL => "PULL"
      case PUSH => "PUSH"
      case PUB => "PUB"
      case SUB => "SUB"
    }
  }

  /** The metadata keys of ZMTP 3.0's READY command. */
  const SOCKET_TYPE_KEY: string := "Socket-Type"
  const IDENTITY_KEY: string := "Identity"

  /**
   * The close handlers the sockets register on a connection: the server
   * base forgets the connection, a publisher takes it out of its topics.
   * The connection records which ran, and the socket applies them.
   */
  datatype Handler = DropConn | LeaveTopics

  type Conn = TransportConnection.Connection<Handler>

  /** The greeting `Greeting.builder().build()` gives: version 3.0, NULL,
      not a server. */
  function DefaultGreeting(): seq<byte>
  {
    ProtoGreeting.GreetingBytes(3, 0, ProtoGreeting.MechanismField(ProtoGreeting.NULL), false)
  }

  function ServerMetadata(t: SocketType): seq<string>
  {
    [SOCKET_TYPE_KEY, t.Text()]
  }

  function ClientMetadata(t: SocketType): seq<string>
  {
    [SOCKET_TYPE_KEY, t.Text(), IDENTITY_KEY, ""]
  }

  /** The handshake's check of the first frame after the greetings: a command
      frame whose name is READY. */
  predicate IsReady(f: ProtoFrame.Frame)
  {
    f.Type() == ProtoFrame.Command && ProtoCommand.Name(f) == ProtoCommand.CommandName.Ready.Text()
  }

  /** The handshake's verdict on the first frame after the greetings. */
  function CheckReady(f: Result<ProtoFrame.Frame>): (r: Result<ProtoFrame.Frame>)
    ensures r.Ok? <==> f.Ok? && IsReady(f.value)
    ensures r.Ok? ==> r == f
    ensures f.Err? ==> r == f
    ensures f.Ok? && !IsReady(f.value) ==> r == Err(HandshakeFailed)
  {
    match f
    case Err(e) => Err(e)
    case Ok(frame) => if IsReady(frame) then Ok(frame) else Err(HandshakeFailed)
  }

  /** Reading the peer's 64-byte greeting and then its first frame, which
      must be READY. */
  function ReadAfterGreeting(r: Reader): Result<ProtoFrame.Frame>
    requires r.Valid()
  {
    match ReadFull(r, ProtoGreeting.SIZE)
    case Err(e) => Err(e)
    case Ok(_) => CheckReady(TransportConnection.ReadFrame(Advance(r, ProtoGreeting.SIZE)).0)
  }

  /** The greeting a side writes, then the flush after it. */
  function GreetEvents(): seq<Event>
  {
    [Write(DefaultGreeting()), Flush]
  }

  /** The greeting and its flush get through only to a live connection, and
      then leave the writer empty and healthy, so that READY is taken. */
  lemma {:induction false} GreetedLive(w: Writer, open: bool)
    ensures Outcome(w, open, GreetEvents()).Ok? ==> open && Run(w, open, GreetEvents()).1 == FRESH
  {
    var es := GreetEvents();
    if w.failed {
      StickyError(w, open, es[0]);
    } else if open {
      LiveTakesAll(w, es);
    } else {
      assert es[0].Write? && es[0].bytes != [];
      assert WriterEvents(es);
      DeadNeverFlushes(w, es);
    }
  }

  /**
   * The server's handshake on a connection reading `r` and writing through
   * `w` to a connection that is `open` or not: the signature must be there
   * to peek, then the greeting is written and flushed, the peer's major
   * version peeked, its greeting read, READY written and flushed, and the
   * next frame must be READY.
   */
  function ServerHandshake(r: Reader, w: Writer, open: bool): Result<ProtoFrame.Frame>
    requires r.Valid()
  {
    match PeerGreeted(r, w, open)
    case Err(e) => Err(e)
    case Ok(_) => CheckReady(TransportConnection.ReadFrame(Advance(r, ProtoGreeting.SIZE)).0)
  }

  /** The server's handshake up to the peer's greeting: the signature
      peeked, the greeting written and flushed, the peer's major version
      peeked and its whole greeting read. */
  function PeerGreeted(r: Reader, w: Writer, open: bool): Result<()>
    requires r.Valid()
  {
    if Peek(r, 10).None? then Err(EndOfFile)
    else if Outcome(w, open, GreetEvents()).Err? then Outcome(w, open, GreetEvents())
    else if Peek(r, 11).None? then Err(EndOfFile)
    else match ReadFull(r, ProtoGreeting.SIZE)
      case Err(e) => Err(e)
      case Ok(_) => Ok(())
  }

  /** The READY frame and the flush a side writes after reading the peer's
      greeting. */
  function ReadyOut(m: seq<string>): seq<Event>
  {
    [Write(ProtoReady.ReadyBytes(m)), Flush]
  }

  /** What the writer takes of the server's greeting and its flush, handed
      over once the signature is peeked. */
  function GreetOut(r: Reader, w: Writer, open: bool): seq<Event>
    requires r.Valid()
  {
    if Peek(r, 10).None? then [] else GreetEvents()[..Run(w, open, GreetEvents()).0]
  }

  /** The server's writer after its greeting and flush, if handed over. */
  function GreetWriter(r: Reader, w: Writer, open: bool): Writer
    requires r.Valid()
  {
    if Peek(r, 10).None? then w else Run(w, open, GreetEvents()).1
  }

  /** What the server writes during its handshake: its greeting once the
      signature is peeked, and READY once the peer's greeting is read. */
  function ServerOut(r: Reader, w: Writer, open: bool, t: SocketType): seq<Event>
    requires r.Valid()
  {
    GreetOut(r, w, open) + (if PeerGreeted(r, w, open).Ok? then ReadyOut(ServerMetadata(t)) else [])
  }

  /** The client's handshake: its greeting written and flushed, the
      server's greeting read, the next frame required to be READY, then
      READY written and flushed. */
  function ClientHandshake(r: Reader, w: Writer, open: bool): Result<ProtoFrame.Frame>
    requires r.Valid()
  {
    match Outcome(w, open, GreetEvents())
    case Err(e) => Err(e)
    case Ok(_) => ReadAfterGreeting(r)
  }

  function ClientOut(r: Reader, w: Writer, open: bool, t: SocketType): seq<Event>
    requires r.Valid()
  {
    GreetEvents()[..Run(w, open, GreetEvents()).0]
      + (if ClientHandshake(r, w, open).Ok? then ReadyOut(ClientMetadata(t)) else [])
  }

  /**
   * Whether a handshake step that ended with `r` ran the connection's close
   * handlers: every failure of the connection does except a refused flush,
   * and a peer that does not answer READY is no failure of the connection.
   */
  predicate RanHandlers<T>(r: Result<T>)
  {
    r.Err? && r.error != HandshakeFailed && r.error != FlushFailed
  }

  /** The reader after a handshake that got as far as the peer's first
      frame. */
  function AfterHandshake(r: Reader): Reader
    requires r.Valid()
  {
    TransportConnection.ReadFrame(Advance(r, ProtoGreeting.SIZE)).1
  }

  /** A handshake passes only on a READY command, and the two sides accept
      and reject the same streams once the server's peeks succeed. */
  lemma {:induction false} HandshakesAgree(r: Reader, w: Writer, open: bool)
    requires r.Valid() && r.pos + 11 <= |r.stream|
    ensures ServerHandshake(r, w, open) == ClientHandshake(r, w, open)
    ensures ServerHandshake(r, w, open).Ok? ==> IsReady(ServerHandshake(r, w, open).value)
  {
    assert Peek(r, 10).Some? && Peek(r, 11).Some?;
  }

  /** A READY frame as the builder makes it passes the handshake's check. */
  lemma {:induction false} BuiltReadyPasses(m: seq<string>)
    ensures IsReady(ProtoFrame.Frame(ProtoReady.ReadyBytes(m)))
  {
    ProtoReady.ReadyFrameShape(m);
  }

  lemma SocketTypeAscii(t: SocketType)
    ensures Text.IsAscii(t.Text())
  {
  }

  lemma {:induction false} MetadataAscii(t: SocketType)
    ensures ProtoReady.AllAscii(ServerMetadata(t)) && ProtoReady.AllAscii(ClientMetadata(t))
  {
    SocketTypeAscii(t);
    assert Text.IsAscii(SOCKET_TYPE_KEY) && Text.IsAscii(IDENTITY_KEY) && Text.IsAscii("");
    var s := ServerMetadata(t);
    var c := ClientMetadata(t);
    assert forall i :: 0 <= i < |s| ==> s[i] == SOCKET_TYPE_KEY || s[i] == t.Text();
    assert forall i :: 0 <= i < |c| ==> c[i] == SOCKET_TYPE_KEY || c[i] == t.Text() || c[i] == IDENTITY_KEY || c[i] == "";
  }

  /** The greeting both sides write. */
  method BuildGreeting() returns (g: ProtoGreeting.Greeting)
    ensures g.body == DefaultGreeting()
  {
    var builder := new ProtoGreeting.GreetingBuilder();
    g := builder.Build();
  }

  /** `ReadyCommandFrame.builder()` given the entries of `m` pair by pair,
      then built. */
  method BuildReady(m: seq<string>) returns (f: ProtoFrame.Frame)
    requires |m| % 2 == 0 && ProtoReady.AllAscii(m)
    ensures f.body == ProtoReady.ReadyBytes(m)
  {
    var builder := new ProtoReady.ReadyBuilder();
    var k := 0;
    while k < |m|
      invariant 0 <= k <= |m| && k % 2 == 0
      invariant builder.metadata == m[..k]
    {
      builder.Set(m[k], m[k + 1]);
      assert m[..k + 2] == m[..k] + [m[k], m[k + 1]];
      k := k + 2;
    }
    assert m[..|m|] == m;
    f := builder.Build();
  }

  class ServerSocket {
    const socketType: SocketType
    /** Whether `bind` has created the transport. */
    var bound: bool
    /** `conns`: the connections accepted and not yet dropped. */
    var conns: set<Conn>

    constructor (socketType: SocketType)
      ensures this.socketType == socketType && !bound && conns == {}
    {
      this.socketType := socketType;
      bound := false;
      conns := {};
    }

    /** `bind(addr)`: only once. Listening and the accept loop belong to the
        transport, which hands each connection to `HandleConn`. */
    method Bind() returns (r: Result<()>)
      modifies this
      ensures r == (if old(bound) then Err(AlreadyBound) else Ok(()))
      ensures bound && conns == old(conns)
    {
      if bound {
        return Err(AlreadyBound);
      }
      bound := true;
      r := Ok(());
    }

    /** The effect of the `DropConn` handler, if it ran on `conn` since
        `mark`. */
    method ApplyDrop(conn: Conn, mark: nat)
      requires mark <= |conn.fired|
      modifies this
      ensures conns == if DropConn in conn.fired[mark..] then old(conns) - {conn} else old(conns)
      ensures bound == old(bound)
    {
      if DropConn in conn.fired[mark..] {
        conns := conns - {conn};
      }
    }

    /**
     * `handleConn`: the connection registers `DropConn` and joins `conns`,
     * then the handshake runs. A failure of the connection runs its
     * handlers, so the connection leaves `conns`, except a failed flush,
     * which throws without running them; a peer that answers with anything
     * but READY fails the handshake by a plain throw. In both of those the
     * connection stays registered. `onConnect` follows a success.
     */
    method HandleConn(conn: Conn) returns (r: Result<ProtoFrame.Frame>)
      requires conn.Valid() && conn.sig.None? && conn.major.None?
      requires conn.closeHandlers.None? && conn.fired == []
      modifies this, conn
      ensures r == ServerHandshake(old(conn.reader), old(conn.writer), old(conn.open))
      ensures conn.out == old(conn.out) + ServerOut(old(conn.reader), old(conn.writer), old(conn.open), socketType)
      ensures conn.writer == GreetWriter(old(conn.reader), old(conn.writer), old(conn.open))
      ensures conn in conns <==> !RanHandlers(r)
      ensures conns - {conn} == old(conns) - {conn} && bound == old(bound)
      ensures conn.fired == if RanHandlers(r) then [DropConn] else []
      ensures conn.Valid() && conn.open == old(conn.open) && conn.tags == old(conn.tags)
      ensures r.Ok? ==> conn.reader == AfterHandshake(old(conn.reader)) && conn.closeHandlers == Some([DropConn])
    {
      Register(conn);
      r := RunServerHandshake(conn, socketType);
      assert conn.fired[0..] == conn.fired == if RanHandlers(r) then [DropConn] else [];
      ApplyDrop(conn, 0);
    }

    /** The start of `handleConn`: `DropConn` registered on the connection,
        and the connection added to `conns`. */
    method Register(conn: Conn)
      requires conn.closeHandlers.None?
      modifies this, conn
      ensures conns == old(conns) + {conn} && bound == old(bound)
      ensures conn.closeHandlers == Some([DropConn]) && conn.PendingHandlers() == [DropConn]
      ensures conn.reader == old(conn.reader) && conn.out == old(conn.out) && conn.writer == old(conn.writer) && conn.open == old(conn.open)
      ensures conn.fired == old(conn.fired) && conn.sig == old(conn.sig) && conn.major == old(conn.major)
      ensures conn.tags == old(conn.tags)
    {
      conn.OnceClose(DropConn);
      assert [] + [DropConn] == [DropConn];
      conns := conns + {conn};
    }
  }

  /** The handshake steps of `handleConn`, after the handler is registered:
      a failure of the connection runs the handlers, a failed flush and a
      peer that does not answer READY do not. */
  method RunServerHandshake<H>(conn: TransportConnection.Connection<H>, t: SocketType) returns (r: Result<ProtoFrame.Frame>)
    requires conn.Valid() && conn.sig.None? && conn.major.None?
    modifies conn
    ensures r == ServerHandshake(old(conn.reader), old(conn.writer), old(conn.open))
    ensures conn.out == old(conn.out) + ServerOut(old(conn.reader), old(conn.writer), old(conn.open), t)
    ensures conn.writer == GreetWriter(old(conn.reader), old(conn.writer), old(conn.open))
    ensures conn.fired == old(conn.fired) + (if RanHandlers(r) then old(conn.PendingHandlers()) else [])
    ensures conn.Valid() && conn.open == old(conn.open) && conn.tags == old(conn.tags)
    ensures r.Ok? ==> conn.reader == AfterHandshake(old(conn.reader)) && conn.closeHandlers == old(conn.closeHandlers)
  {
    ghost var r0, w0, o0, out0 := conn.reader, conn.writer, conn.open, conn.out;
    var peer := GreetPeer(conn);
    if peer.Err? {
      GreetFailure(r0, w0, o0, t);
      r := Err(peer.error);
      assert RanHandlers(r) == RanHandlers(peer);
      return;
    }
    GreetSuccess(r0, w0, o0, t);
    assert conn.fired == old(conn.fired) && conn.PendingHandlers() == old(conn.PendingHandlers());
    r := AnswerReady(conn, t, r0, w0, o0);
    EventsAssoc(out0, GreetOut(r0, w0, o0), ReadyOut(ServerMetadata(t)));
  }

  /** Once the peer's greeting is read, the greeting went out whole on a
      live connection, leaving the writer empty, and READY follows it. */
  lemma GreetSuccess(r: Reader, w: Writer, open: bool, t: SocketType)
    requires r.Valid() && PeerGreeted(r, w, open).Ok?
    ensures open && GreetWriter(r, w, open) == FRESH
    ensures ServerOut(r, w, open, t) == GreetOut(r, w, open) + ReadyOut(ServerMetadata(t))
  {
    GreetedLive(w, open);
  }

  /** A handshake that fails before the peer's greeting is read fails with
      that error and writes at most the greeting. */
  lemma GreetFailure(r: Reader, w: Writer, open: bool, t: SocketType)
    requires r.Valid() && PeerGreeted(r, w, open).Err?
    ensures ServerHandshake(r, w, open) == Err(PeerGreeted(r, w, open).error)
    ensures ServerOut(r, w, open, t) == GreetOut(r, w, open)
  {
    assert GreetOut(r, w, open) + [] == GreetOut(r, w, open);
  }

  /** `handleConn` once the peer's greeting is read: READY written, and the
      peer's first frame read and required to be READY. */
  method AnswerReady<H>(conn: TransportConnection.Connection<H>, t: SocketType, ghost r0: Reader, ghost w0: Writer, ghost o0: bool)
    returns (r: Result<ProtoFrame.Frame>)
    requires r0.Valid() && PeerGreeted(r0, w0, o0).Ok?
    requires conn.Valid() && conn.open && conn.writer == FRESH && conn.reader == Advance(r0, ProtoGreeting.SIZE)
    modifies conn
    ensures r == ServerHandshake(r0, w0, o0)
    ensures conn.out == old(conn.out) + ReadyOut(ServerMetadata(t)) && conn.writer == FRESH
    ensures conn.fired == old(conn.fired) + (if RanHandlers(r) then old(conn.PendingHandlers()) else [])
    ensures conn.Valid() && conn.open && conn.tags == old(conn.tags)
    ensures r.Ok? ==> conn.reader == AfterHandshake(r0) && conn.closeHandlers == old(conn.closeHandlers)
  {
    MetadataAscii(t);
    r := ServerReady(conn, ServerMetadata(t));
  }

  /** `handleConn` up to the peer's greeting. */
  method GreetPeer<H>(conn: TransportConnection.Connection<H>) returns (r: Result<()>)
    requires conn.Valid() && conn.sig.None? && conn.major.None?
    modifies conn
    ensures r == PeerGreeted(old(conn.reader), old(conn.writer), old(conn.open))
    ensures conn.out == old(conn.out) + GreetOut(old(conn.reader), old(conn.writer), old(conn.open))
    ensures conn.writer == GreetWriter(old(conn.reader), old(conn.writer), old(conn.open))
    ensures conn.fired == old(conn.fired) + (if RanHandlers(r) then old(conn.PendingHandlers()) else [])
    ensures r.Ok? ==> conn.reader == Advance(old(conn.reader), ProtoGreeting.SIZE) && conn.closeHandlers == old(conn.closeHandlers)
    ensures conn.Valid() && conn.open == old(conn.open) && conn.tags == old(conn.tags)
  {
    var greeted := ServerGreet(conn);
    if greeted.Err? {
      return Err(greeted.error);
    }
    r := ReadPeerGreeting(conn);
  }

  /** The start of `handleConn`: the signature peeked (and accepted: the
      base `validateSignature` accepts any), the greeting written and
      flushed. A refused write runs the handlers; a refused flush does
      not. */
  method ServerGreet<H>(conn: TransportConnection.Connection<H>) returns (r: Result<()>)
    requires conn.Valid() && conn.sig.None?
    modifies conn
    ensures r == if Peek(old(conn.reader), 10).None? then Err(EndOfFile)
                 else Outcome(old(conn.writer), old(conn.open), GreetEvents())
    ensures conn.out == old(conn.out) + GreetOut(old(conn.reader), old(conn.writer), old(conn.open))
    ensures conn.writer == GreetWriter(old(conn.reader), old(conn.writer), old(conn.open))
    ensures conn.fired == old(conn.fired) + (if RanHandlers(r) then old(conn.PendingHandlers()) else [])
    ensures !RanHandlers(r) ==> conn.closeHandlers == old(conn.closeHandlers)
    ensures RanHandlers(r) ==> conn.PendingHandlers() == []
    ensures conn.Valid() && conn.reader == old(conn.reader) && conn.open == old(conn.open)
    ensures conn.major == old(conn.major) && conn.tags == old(conn.tags)
  {
    ghost var w0, open, out0 := conn.writer, conn.open, conn.out;
    var sig := conn.PeekSignature();
    if sig.Err? {
      return Err(sig.error);
    }
    var g := BuildGreeting();
    GreetSteps(w0, open);
    var w := conn.Write(TransportConnection.Raw(g.body));
    if w.Err? {
      return Err(w.error);
    }
    r := conn.Flush();
  }

  /** The greeting and its flush handed to the writer one at a time. */
  lemma GreetSteps(w: Writer, open: bool)
    ensures var g := Write(DefaultGreeting());
      var w1 := Step(w, open, g);
      Run(w, open, GreetEvents()) ==
        if !Takes(w, open, g) then (0, w1)
        else if !Takes(w1, open, Flush) then (1, Step(w1, open, Flush))
        else (2, Step(w1, open, Flush))
    ensures var g := Write(DefaultGreeting());
      var w1 := Step(w, open, g);
      Outcome(w, open, GreetEvents()) ==
        if !Takes(w, open, g) then Err(WriteFailed)
        else if !Takes(w1, open, Flush) then Err(FlushFailed)
        else Ok(())
    ensures GreetEvents()[..0] == [] && GreetEvents()[..1] == [Write(DefaultGreeting())]
    ensures GreetEvents()[..2] == GreetEvents()
  {
    var g := Write(DefaultGreeting());
    assert GreetEvents() == [g] + [Flush];
    RunCons(w, open, g, [Flush]);
  }

  /** The peer's major version peeked, then its whole greeting read. */
  method ReadPeerGreeting<H>(conn: TransportConnection.Connection<H>) returns (r: Result<()>)
    requires conn.Valid() && conn.major.None?
    modifies conn
    ensures r == if Peek(old(conn.reader), 11).None? then Err(EndOfFile)
                 else match ReadFull(old(conn.reader), ProtoGreeting.SIZE)
                      case Err(e) => Err(e)
                      case Ok(_) => Ok(())
    ensures r.Ok? ==> conn.reader == Advance(old(conn.reader), ProtoGreeting.SIZE)
    ensures conn.fired == old(conn.fired) + (if r.Ok? then [] else old(conn.PendingHandlers()))
    ensures r.Ok? ==> conn.closeHandlers == old(conn.closeHandlers)
    ensures r.Err? ==> conn.PendingHandlers() == []
    ensures conn.Valid() && conn.out == old(conn.out) && conn.writer == old(conn.writer)
    ensures conn.open == old(conn.open) && conn.tags == old(conn.tags)
  {
    var major := conn.PeekVersionMajor();
    if major.Err? {
      return Err(major.error);
    }
    var greeting := conn.ReadGreeting();
    if greeting.Err? {
      return Err(greeting.error);
    }
    r := Ok(());
  }

  /** The end of `handleConn`: READY with the metadata `m` written and
      flushed, which a live writer with nothing buffered always takes, then
      the peer's first frame read and checked. */
  method ServerReady<H>(conn: TransportConnection.Connection<H>, m: seq<string>) returns (r: Result<ProtoFrame.Frame>)
    requires conn.Valid() && conn.open && conn.writer == FRESH && |m| % 2 == 0 && ProtoReady.AllAscii(m)
    modifies conn
    ensures r == CheckReady(TransportConnection.ReadFrame(old(conn.reader)).0)
    ensures conn.reader == TransportConnection.ReadFrame(old(conn.reader)).1
    ensures conn.out == old(conn.out) + ReadyOut(m) && conn.writer == FRESH
    ensures var failed := TransportConnection.ReadFrame(old(conn.reader)).0.Err?;
      && conn.fired == old(conn.fired) + (if failed then old(conn.PendingHandlers()) else [])
      && (!failed ==> conn.closeHandlers == old(conn.closeHandlers))
    ensures conn.Valid() && conn.open && conn.tags == old(conn.tags)
  {
    var ready := BuildReady(m);
    var w := conn.Write(TransportConnection.FrameMessage(ready));
    var flushed := conn.Flush();
    var first := conn.Read();
    r := CheckReady(first);
  }

  /** One frame of `receive`: a frame with a payload adds it to `acc`; a
      `size` or `payload` read past the frame is a `RangeError`. */
  function Take(f: ProtoFrame.Frame, acc: seq<seq<byte>>): Result<seq<seq<byte>>>
  {
    match f.Size()
    case None => Err(RangeError)
    case Some(n) =>
      if n == 0 then Ok(acc)
      else match ProtocolDataFrame.DataFrame(f.body).Payload()
        case None => Err(RangeError)
        case Some(p) => Ok(acc + [p])
  }

  /** `receive` from `r` with `acc` already collected: frames are read up to
      and including the first without MORE; the result and the reader after
      the last frame read. */
  function Collect(r: Reader, acc: seq<seq<byte>>): (res: (Result<seq<seq<byte>>>, Reader))
    requires r.Valid()
    ensures res.1.Valid() && res.1.stream == r.stream
    decreases |r.stream| - r.pos
  {
    var (f, next) := TransportConnection.ReadFrame(r);
    match f
    case Err(e) => (Err(e), next)
    case Ok(frame) =>
      match Take(frame, acc)
      case Err(e) => (Err(e), next)
      case Ok(acc') => if frame.More() then Collect(next, acc') else (Ok(acc'), next)
  }

  /** The payloads of the parts that have one, in order. */
  function Payloads(ps: seq<CoreUtils.Part>): seq<seq<byte>>
  {
    if ps == [] then [] else (if ps[0].payload == [] then [] else [ps[0].payload]) + Payloads(ps[1..])
  }

  /** Parts that make up one message on the wire: MORE on all but the last. */
  predicate OneMessage(ps: seq<CoreUtils.Part>)
  {
    ps != [] && (forall i :: 0 <= i < |ps| - 1 ==> ps[i].more) && !ps[|ps| - 1].more
  }

  /** `receive` over the frames a reader yields, `e` being the error that
      ends them. */
  function CollectFrames(fs: seq<ProtoFrame.Frame>, e: Error, acc: seq<seq<byte>>): Result<seq<seq<byte>>>
  {
    if fs == [] then Err(e)
    else match Take(fs[0], acc)
      case Err(x) => Err(x)
      case Ok(acc') => if fs[0].More() then CollectFrames(fs[1..], e, acc') else Ok(acc')
  }

  /** `receive` depends on the stream only through the frames read from it. */
  lemma {:induction false} CollectAll(r: Reader, acc: seq<seq<byte>>)
    requires r.Valid()
    ensures Collect(r, acc).0 == CollectFrames(TransportConnection.ReadAll(r).0, TransportConnection.ReadAll(r).1, acc)
    decreases |r.stream| - r.pos
  {
    TransportConnection.ReadAllStep(r);
    var (f, next) := TransportConnection.ReadFrame(r);
    if f.Ok? {
      var fs := TransportConnection.ReadAll(r).0;
      assert fs[0] == f.value && fs[1..] == TransportConnection.ReadAll(next).0;
      match Take(f.value, acc)
      case Err(x) =>
      case Ok(acc') =>
        if f.value.More() {
          CollectAll(next, acc');
        }
    }
  }

  /**
   * The frames of one message, as a socket writes them, are collected into
   * the payloads that are not empty; whatever error would end the stream
   * is never reached.
   */
  lemma {:induction false} CollectParts(ps: seq<CoreUtils.Part>, e: Error, acc: seq<seq<byte>>)
    requires CoreUtils.AllShort(ps) && OneMessage(ps)
    ensures CollectFrames(CoreUtils.Frames(ps), e, acc) == Ok(acc + Payloads(ps))
    decreases |ps|
  {
    var p := ps[0];
    var head := if p.payload == [] then [] else [p.payload];
    var fs := CoreUtils.Frames(ps);
    TakeBuilt(p, acc);
    CollectStep(fs, e, acc, acc + head);
    assert Payloads(ps) == head + Payloads(ps[1..]);
    if |ps| == 1 {
      assert Payloads(ps[1..]) == [];
      assert head + [] == head;
    } else {
      assert p.more;
      assert OneMessage(ps[1..]) && CoreUtils.AllShort(ps[1..]);
      assert fs[1..] == CoreUtils.Frames(ps[1..]);
      CollectParts(ps[1..], e, acc + head);
      PayloadsAssoc(acc, head, Payloads(ps[1..]));
    }
  }

  /** The first frame taken, then the rest collected when it has MORE set. */
  lemma CollectStep(fs: seq<ProtoFrame.Frame>, e: Error, acc: seq<seq<byte>>, acc': seq<seq<byte>>)
    requires fs != [] && Take(fs[0], acc) == Ok(acc')
    ensures CollectFrames(fs, e, acc) == if fs[0].More() then CollectFrames(fs[1..], e, acc') else Ok(acc')
  {
  }

  lemma PayloadsAssoc(a: seq<seq<byte>>, b: seq<seq<byte>>, c: seq<seq<byte>>)
    ensures (a + b) + c == a + (b + c)
  {
  }

  lemma {:induction false} TakeBuilt(p: CoreUtils.Part, acc: seq<seq<byte>>)
    requires |p.payload| <= 0xFF
    ensures var frame := ProtoFrame.Frame(p.Bytes());
      && Take(frame, acc) == Ok(acc + (if p.payload == [] then [] else [p.payload]))
      && (frame.More() <==> p.more)
  {
    var frame := ProtoFrame.Frame(p.Bytes());
    ProtocolDataFrame.SizeOfBuilt(p.more, p.payload);
    ProtocolDataFrame.ShortRoundTrip(p.more, p.payload);
    assert frame.Size() == Some(|p.payload|);
    assert ProtocolDataFrame.DataFrame(frame.body).Payload() == Some(p.payload);
    if p.payload == [] {
      assert Take(frame, acc) == Ok(acc);
      assert acc + [] == acc;
    } else {
      assert Take(frame, acc) == Ok(acc + [p.payload]);
    }
    assert frame.More() <==> p.more;
  }

  /** With no empty message, the payloads of an envelope's messages are the
      messages' encodings. */
  lemma {:induction false} PayloadsOfMessages(msgs: seq<CoreUtils.MessageLike>)
    requires forall i :: 0 <= i < |msgs| ==> msgs[i].Encoded() != []
    ensures Payloads(CoreUtils.MessageParts(msgs)) == seq(|msgs|, i requires 0 <= i < |msgs| => msgs[i].Encoded())
  {
    var ps := CoreUtils.MessageParts(msgs);
    if msgs != [] {
      assert CoreUtils.MessageParts(msgs)[1..] == CoreUtils.MessageParts(msgs[1..]) by {
        assert forall i :: 0 <= i < |msgs| - 1 ==> ps[1..][i] == CoreUtils.MessageParts(msgs[1..])[i];
      }
      PayloadsOfMessages(msgs[1..]);
    }
  }

  /**
   * What a socket's `send` puts on the wire (the delimiter it writes, then
   * `sendMessages`' envelope) is received back by `receive` as the
   * messages, the empty delimiters and empty messages skipped.
   */
  lemma {:induction false} ReceiveSent(msgs: seq<CoreUtils.MessageLike>)
    requires |msgs| > 0 && CoreUtils.ShortMessages(msgs)
    ensures var s := ProtoFrame.EMPTY_HAS_MORE.body + CoreUtils.Sent(CoreUtils.Envelope(msgs));
      Collect(Reader(s, 0), []).0 == Ok(Payloads(CoreUtils.MessageParts(msgs)))
  {
    var ms := CoreUtils.MessageParts(msgs);
    var ps := Delimited(msgs);
    var s := ProtoFrame.EMPTY_HAS_MORE.body + CoreUtils.Sent(CoreUtils.Envelope(msgs));
    SentParts([], msgs);
    assert [] + s == s;
    var r := Reader(s, 0);
    CollectAll(r, []);
    CollectParts(ps, EndOfFile, []);
    assert ps[1..][1..] == ms;
    calc {
      Collect(r, []).0;
      Ok([] + Payloads(ps));
      { assert [] + Payloads(ps) == Payloads(ps[1..]) == Payloads(ps[1..][1..]); }
      Ok(Payloads(ms));
    }
  }

  /**
   * What `send` writes after whatever came `before`, read by the peer to the
   * end of the stream: the frames of both delimiters and of every message,
   * one message's worth, then `EOFError`.
   */
  lemma {:induction false} SentParts(before: seq<byte>, msgs: seq<CoreUtils.MessageLike>)
    requires |msgs| > 0 && CoreUtils.ShortMessages(msgs)
    ensures var ps := Delimited(msgs);
      var s := before + ProtoFrame.EMPTY_HAS_MORE.body + CoreUtils.Sent(CoreUtils.Envelope(msgs));
      && CoreUtils.AllShort(ps) && OneMessage(ps)
      && TransportConnection.ReadAll(Reader(s, |before|)) == (CoreUtils.Frames(ps), EndOfFile)
  {
    var ps := Delimited(msgs);
    DelimitedWire(before, msgs);
    DelimitedShape(msgs);
    CoreUtils.ReadWire(before, ps);
  }

  /** Both delimiters, then the parts of the messages. */
  function Delimited(msgs: seq<CoreUtils.MessageLike>): seq<CoreUtils.Part>
  {
    [CoreUtils.DELIMITER, CoreUtils.DELIMITER] + CoreUtils.MessageParts(msgs)
  }

  lemma DelimitedWire(before: seq<byte>, msgs: seq<CoreUtils.MessageLike>)
    ensures before + CoreUtils.Wire(Delimited(msgs))
      == before + ProtoFrame.EMPTY_HAS_MORE.body + CoreUtils.Sent(CoreUtils.Envelope(msgs))
  {
    var ps := Delimited(msgs);
    CoreUtils.EnvelopeWire(msgs);
    CoreUtils.DelimiterIsEmptyHasMore();
    assert ps[1..] == [CoreUtils.DELIMITER] + CoreUtils.MessageParts(msgs);
    assert CoreUtils.Wire(ps) == ProtoFrame.EMPTY_HAS_MORE.body + CoreUtils.Wire(ps[1..]);
    Bytes.AppendAssoc(before, ProtoFrame.EMPTY_HAS_MORE.body, CoreUtils.Wire(ps[1..]));
  }

  lemma DelimitedShape(msgs: seq<CoreUtils.MessageLike>)
    requires |msgs| > 0 && CoreUtils.ShortMessages(msgs)
    ensures CoreUtils.AllShort(Delimited(msgs)) && OneMessage(Delimited(msgs))
  {
    var ms := CoreUtils.MessageParts(msgs);
    var ps := Delimited(msgs);
    assert forall i :: 2 <= i < |ps| ==> ps[i] == ms[i - 2];
  }

  /** `receive`'s loop on a connection: frames read until one without MORE,
      the payloads of those with a size collected. */
  method ReceiveFrom<H>(c: TransportConnection.Connection<H>) returns (r: Result<seq<seq<byte>>>)
    requires c.Valid() && c.PendingHandlers() == []
    modifies c
    ensures c.Valid() && (r, c.reader) == Collect(old(c.reader), [])
    ensures c.out == old(c.out) && c.open == old(c.open) && c.fired == old(c.fired) && c.PendingHandlers() == []
    ensures c.sig == old(c.sig) && c.major == old(c.major) && c.tags == old(c.tags)
  {
    var res: seq<seq<byte>> := [];
    var done := false;
    r := Ok([]);
    while !done
      invariant c.Valid() && c.reader.stream == old(c.reader).stream
      invariant !done ==> Collect(c.reader, res) == Collect(old(c.reader), [])
      invariant done ==> (r, c.reader) == Collect(old(c.reader), [])
      invariant c.out == old(c.out) && c.open == old(c.open) && c.fired == old(c.fired) && c.PendingHandlers() == []
      invariant c.sig == old(c.sig) && c.major == old(c.major) && c.tags == old(c.tags)
      decreases if done then 0 else 1, |c.reader.stream| - c.reader.pos
    {
      var next := c.Read();
      if next.Err? {
        r, done := Err(next.error), true;
      } else {
        var hasMore := next.value.More();
        var size := next.value.Size();
        if size.None? {
          r, done := Err(RangeError), true;
        } else if size.value > 0 {
          var payload := ProtocolDataFrame.DataFrame(next.value.body).Payload();
          if payload.None? {
            r, done := Err(RangeError), true;
          } else {
            res := res + [payload.value];
          }
        }
        if !done && !hasMore {
          r, done := Ok(res), true;
        }
      }
    }
  }

  /** `Socket`: the client base, holding the connection its transport
      connected. */
  class Socket {
    const socketType: SocketType
    /** Whether `connect` has created the transport. */
    var transport: bool
    /** The transport's `connected()`. */
    var conn: Option<Conn>

    /** A connection only once connected, and nobody registers close
        handlers on a client's connection. */
    ghost predicate Valid()
      reads this, if conn.Some? then {conn.value} else {}
    {
      conn.Some? ==> transport && conn.value.Valid() && conn.value.PendingHandlers() == []
    }

    constructor (socketType: SocketType)
      ensures Valid() && this.socketType == socketType && !transport && conn == None
    {
      this.socketType := socketType;
      transport := false;
      conn := None;
    }

    /** `mustGetConn`: `ConnectionNotReadyError` before a connection. */
    function MustGetConn(): (r: Result<Conn>)
      reads this
      ensures conn.Some? ==> r == Ok(conn.value)
      ensures conn.None? ==> r == Err(ConnectionNotReady)
    {
      if conn.Some? then Ok(conn.value) else Err(ConnectionNotReady)
    }

    /**
     * `connect(addr)`: only once; `c` is the connection the transport
     * connects, and the handshake runs on it.
     */
    method Connect(c: Conn) returns (r: Result<()>)
      requires Valid() && c.Valid() && c.PendingHandlers() == []
      modifies this, c
      ensures Valid()
      ensures old(transport) ==> r == Err(AlreadyConnected) && unchanged(this) && unchanged(c)
      ensures !old(transport) ==>
        && transport && conn == Some(c)
        && r == (match ClientHandshake(old(c.reader), old(c.writer), old(c.open)) case Ok(_) => Ok(()) case Err(e) => Err(e))
        && c.out == old(c.out) + ClientOut(old(c.reader), old(c.writer), old(c.open), socketType)
        && c.writer == Run(old(c.writer), old(c.open), GreetEvents()).1
        && (r.Ok? ==> c.reader == AfterHandshake(old(c.reader)))
    {
      if transport {
        return Err(AlreadyConnected);
      }
      transport := true;
      conn := Some(c);
      var h := Handshake(c);
      r := if h.Ok? then Ok(()) else Err(h.error);
    }

    /** `handshake`: the greeting written and flushed, the server's greeting
        read, its READY required, then READY with the socket type and an
        empty identity written and flushed. */
    method Handshake(c: Conn) returns (r: Result<ProtoFrame.Frame>)
      requires c.Valid() && c.PendingHandlers() == []
      modifies c
      ensures r == ClientHandshake(old(c.reader), old(c.writer), old(c.open))
      ensures c.out == old(c.out) + ClientOut(old(c.reader), old(c.writer), old(c.open), socketType)
      ensures c.writer == Run(old(c.writer), old(c.open), GreetEvents()).1
      ensures r.Ok? ==> c.reader == AfterHandshake(old(c.reader))
      ensures c.Valid() && c.open == old(c.open) && c.fired == old(c.fired) && c.PendingHandlers() == []
    {
      ghost var w0, o0, out0 := c.writer, c.open, c.out;
      var greeted := ClientGreet(c);
      if greeted.Err? {
        return Err(greeted.error);
      }
      GreetedLive(w0, o0);
      var greeting := c.ReadGreeting();
      if greeting.Err? {
        return Err(greeting.error);
      }
      assert c.fired == old(c.fired) && c.PendingHandlers() == [];
      r := ClientReady(c, socketType);
      EventsAssoc(out0, GreetEvents(), if r.Ok? then ReadyOut(ClientMetadata(socketType)) else []);
    }

    /**
     * `send(...msgs)`: a delimiter, then `sendMessages`, which writes its
     * own delimiter; all handed to the writer until it refuses one. With no
     * message the first delimiter is written and the call then fails.
     */
    method Send(msgs: seq<CoreUtils.MessageLike>) returns (r: Result<()>)
      requires Valid()
      modifies if conn.Some? then {conn.value} else {}
      ensures Valid() && conn == old(conn) && transport == old(transport)
      ensures old(conn).None? ==> r == Err(NoConnection)
      ensures old(conn).Some? ==> var c := conn.value;
        var es := SendEvents(msgs);
        var run := Run(old(c.writer), c.open, es);
        && c.reader == old(c.reader) && c.open == old(c.open) && c.fired == old(c.fired)
        && c.out == old(c.out) + es[..run.0] && c.writer == run.1
        && r == (if |msgs| == 0 && run.0 == 1 then Err(NoMessages) else Outcome(old(c.writer), c.open, es))
    {
      if conn.None? {
        return Err(NoConnection);
      }
      var c := conn.value;
      r := SendOn(c, msgs);
    }

    /** `receive()`: `ConnectionNotReadyError` before `connect`, then one
        message's payloads. */
    method Receive() returns (r: Result<seq<seq<byte>>>)
      requires Valid()
      modifies if conn.Some? then {conn.value} else {}
      ensures Valid() && conn == old(conn) && transport == old(transport)
      ensures !transport ==> r == Err(ConnectionNotReady)
      ensures transport && conn.None? ==> r == Err(NoConnection)
      ensures transport && conn.Some? ==> var c := conn.value;
        && (r, c.reader) == Collect(old(c.reader), [])
        && c.out == old(c.out) && c.open == old(c.open) && c.fired == old(c.fired)
    {
      if !transport {
        return Err(ConnectionNotReady);
      }
      if conn.None? {
        return Err(NoConnection);
      }
      r := ReceiveFrom(conn.value);
    }
  }

  /** The start of the client's `handshake`: the greeting written and
      flushed. */
  method ClientGreet<H>(c: TransportConnection.Connection<H>) returns (r: Result<()>)
    requires c.Valid() && c.PendingHandlers() == []
    modifies c
    ensures r == Outcome(old(c.writer), c.open, GreetEvents())
    ensures c.out == old(c.out) + GreetEvents()[..Run(old(c.writer), c.open, GreetEvents()).0]
    ensures c.writer == Run(old(c.writer), c.open, GreetEvents()).1
    ensures c.Valid() && c.reader == old(c.reader) && c.open == old(c.open)
    ensures c.fired == old(c.fired) && c.PendingHandlers() == []
  {
    var g := BuildGreeting();
    GreetSteps(c.writer, c.open);
    var w := c.Write(TransportConnection.GreetingMessage(g));
    if w.Err? {
      return Err(w.error);
    }
    r := c.Flush();
  }

  /** The end of the client's `handshake`: the server's first frame read and
      checked, then READY with the client's metadata written and flushed,
      which a live writer with nothing buffered always takes. */
  method ClientReady<H>(c: TransportConnection.Connection<H>, t: SocketType) returns (r: Result<ProtoFrame.Frame>)
    requires c.Valid() && c.open && c.writer == FRESH && c.PendingHandlers() == []
    modifies c
    ensures r == CheckReady(TransportConnection.ReadFrame(old(c.reader)).0)
    ensures c.reader == TransportConnection.ReadFrame(old(c.reader)).1
    ensures c.out == old(c.out) + (if r.Ok? then ReadyOut(ClientMetadata(t)) else []) && c.writer == FRESH
    ensures c.Valid() && c.open && c.fired == old(c.fired) && c.PendingHandlers() == []
  {
    var first := c.Read();
    r := CheckReady(first);
    if r.Err? {
      return;
    }
    assert c.fired == old(c.fired) && c.PendingHandlers() == [];
    MetadataAscii(t);
    var ready := BuildReady(ClientMetadata(t));
    var w := c.Write(TransportConnection.FrameMessage(ready));
    var flushed := c.Flush();
  }

  /** What a socket's `send` hands to the writer: a delimiter, then, when
      there are messages, `sendMessages`' envelope. */
  function SendEvents(msgs: seq<CoreUtils.MessageLike>): seq<Event>
  {
    [Write(ProtoFrame.EMPTY_HAS_MORE.body)] + (if |msgs| == 0 then [] else CoreUtils.Envelope(msgs))
  }

  /** The body of a socket's `send` on its connection `c`. */
  method SendOn<H>(c: TransportConnection.Connection<H>, msgs: seq<CoreUtils.MessageLike>) returns (r: Result<()>)
    modifies c
    ensures var es := SendEvents(msgs);
      var run := Run(old(c.writer), c.open, es);
      && c.out == old(c.out) + es[..run.0] && c.writer == run.1
      && r == (if |msgs| == 0 && run.0 == 1 then Err(NoMessages) else Outcome(old(c.writer), c.open, es))
      && c.fired == old(c.fired) + (if r == Err(WriteFailed) then old(c.PendingHandlers()) else [])
      && (r != Err(WriteFailed) ==> c.closeHandlers == old(c.closeHandlers))
      && (r == Err(WriteFailed) ==> c.PendingHandlers() == [])
    ensures old(c.Valid()) ==> c.Valid()
    ensures c.reader == old(c.reader) && c.open == old(c.open)
    ensures c.sig == old(c.sig) && c.major == old(c.major) && c.tags == old(c.tags)
  {
    ghost var w0, out0, open := c.writer, c.out, c.open;
    ghost var d := Write(ProtoFrame.EMPTY_HAS_MORE.body);
    ghost var env := if |msgs| == 0 then [] else CoreUtils.Envelope(msgs);
    ghost var es := SendEvents(msgs);
    RunCons(w0, open, d, env);
    var w := c.Write(TransportConnection.FrameMessage(ProtoFrame.EMPTY_HAS_MORE));
    if w.Err? {
      assert es[..0] == [];
      return Err(w.error);
    }
    ghost var w1, out1, fired1 := c.writer, c.out, c.fired;
    r := CoreUtils.SendMessages(c, msgs);
    ghost var k := Run(w1, open, env).0;
    assert es[..1 + k] == [d] + env[..k];
    EventsAssoc(out0, [d], env[..k]);
  }
}
