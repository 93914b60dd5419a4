/**
 * core/pub.ts: the PUB socket. A connection subscribes with its first
 * frame; the socket keeps, per topic, the set of connections subscribed to
 * it, and a message whose first part names a topic goes to every
 * connection in that topic's set. A connection that fails leaves every
 * topic it is tagged with.
 */
module CorePub {
  import opened Bytes
  import opened Results
  import opened Io
  import Text
  import ProtoFrame
  import ProtocolDataFrame
  import TransportConnection
  import CoreUtils
  import opened CoreSocket

  type Topics = map<string, set<Conn>>

  /**
   * The topic `onConnect` reads from a connection's first frame: the UTF-8
   * decoding of the payload after its first byte, which is not checked.
   * A frame that is not a message subscribes to nothing.
   */
  function SubscribedTopic(f: ProtoFrame.Frame): (t: Option<string>)
    requires TransportConnection.Whole(f)
    ensures t.Some? <==> f.Type() == ProtoFrame.Message
  {
    if f.Type() != ProtoFrame.Message then None
    else
      CoreUtils.WholeReadable(f);
      var p := CoreUtils.PayloadOf(f).value;
      Some(Text.Decode(if |p| == 0 then [] else p[1..]))
  }

  /** `c` joins topic `t`; the set is created on first use. */
  function Join(topics: Topics, t: string, c: Conn): Topics
  {
    topics[t := (if t in topics then topics[t] else {}) + {c}]
  }

  /** The close handler: `c` leaves the set of every topic it is tagged
      with; sets left empty stay in the map. No tags, no change. */
  function Leave(topics: Topics, c: Conn, tags: Option<set<string>>): (r: Topics)
    ensures r.Keys == topics.Keys
    ensures forall u :: u in r ==> r[u] == if tags.Some? && u in tags.value then topics[u] - {c} else topics[u]
  {
    if tags.None? then topics
    else map u | u in topics :: if u in tags.value then topics[u] - {c} else topics[u]
  }

  /** Every set `c` is in is one of its tags. */
  predicate TaggedBy(topics: Topics, c: Conn, tags: Option<set<string>>)
  {
    forall t :: t in topics && c in topics[t] ==> tags.Some? && t in tags.value
  }

  /** `onConnect` tags the connection with the topic it joins, so the tags
      keep covering its sets. */
  lemma {:induction false} JoinTagged(topics: Topics, t: string, c: Conn, tags: Option<set<string>>)
    requires TaggedBy(topics, c, tags)
    ensures TaggedBy(Join(topics, t, c), c, Some((if tags.Some? then tags.value else {}) + {t}))
  {
  }

  /** With the tags covering its sets, the close handler takes the
      connection out of every set and leaves the others' membership as it
      was. */
  lemma {:induction false} LeaveRemovesAll(topics: Topics, c: Conn, tags: Option<set<string>>)
    requires TaggedBy(topics, c, tags)
    ensures var r := Leave(topics, c, tags);
      && (forall t :: t in r ==> c !in r[t])
      && (forall t, d :: t in r && d != c ==> (d in r[t] <==> d in topics[t]))
  {
  }

  /** Leaving undoes joining for a connection that was in no set, except
      that the topic's entry stays, possibly empty. */
  lemma {:induction false} LeaveUndoesJoin(topics: Topics, t: string, c: Conn)
    requires forall u :: u in topics ==> c !in topics[u]
    ensures Leave(Join(topics, t, c), c, Some({t})) == topics[t := if t in topics then topics[t] else {}]
  {
    var j := Join(topics, t, c);
    var l := Leave(j, c, Some({t}));
    var e := topics[t := if t in topics then topics[t] else {}];
    assert l.Keys == e.Keys;
    forall u | u in l
      ensures l[u] == e[u]
    {
      if u == t {
        assert l[u] == ((if t in topics then topics[t] else {}) + {c}) - {c};
      }
    }
  }

  /** `findConns`' key: the first message as a string, or its bytes decoded
      as UTF-8. With no message the key is `decode(undefined)`, the empty
      string. */
  function Key(msgs: seq<CoreUtils.MessageLike>): string
  {
    if msgs == [] then ""
    else match msgs[0]
      case Str(s) => s
      case Raw(b) => Text.Decode(b)
  }

  /** `findConns`: the set of the key's topic, when there is one. */
  function FindConns(topics: Topics, msgs: seq<CoreUtils.MessageLike>): (r: Option<set<Conn>>)
    ensures r.Some? <==> Key(msgs) in topics
    ensures r.Some? ==> r.value == topics[Key(msgs)]
  {
    var k := Key(msgs);
    if k in topics then Some(topics[k]) else None
  }

  /** A joined connection is found under its topic. A topic given as its
      UTF-8 bytes is decoded, which drops a leading byte-order mark: it
      finds what the topic without the mark finds, and so what the topic
      itself finds whenever the topic does not start with the mark. */
  lemma {:induction false} FindJoined(topics: Topics, t: string, c: Conn, rest: seq<CoreUtils.MessageLike>)
    ensures var j := Join(topics, t, c);
      && FindConns(j, [ProtocolDataFrame.Str(t)] + rest).Some?
      && c in FindConns(j, [ProtocolDataFrame.Str(t)] + rest).value
      && FindConns(j, [ProtocolDataFrame.Raw(Text.Encode(t))] + rest) == FindConns(j, [ProtocolDataFrame.Str(Text.StripBom(t))] + rest)
      && (t == [] || t[0] != Text.BOM ==>
            FindConns(j, [ProtocolDataFrame.Raw(Text.Encode(t))] + rest) == FindConns(j, [ProtocolDataFrame.Str(t)] + rest))
  {
    Text.DecodeEncode(t);
  }

  /** `encodeMessages`: each message as a data frame, MORE on all but the
      last, back to back, without a delimiter. */
  function EncodeMessages(msgs: seq<CoreUtils.MessageLike>): seq<byte>
  {
    CoreUtils.Wire(CoreUtils.MessageParts(msgs))
  }

  /** What `send` reads and changes of one connection, at one moment. */
  datatype Peer = Peer(reader: Reader, out: seq<Event>, writer: Writer, open: bool, fired: seq<Handler>,
                       pending: seq<Handler>, tags: Option<set<string>>)

  function PeerOf(c: Conn): Peer
    reads c
  {
    Peer(c.reader, c.out, c.writer, c.open, c.fired, c.PendingHandlers(), c.tags)
  }

  /** What `send` hands a subscriber's writer: the encoded messages, then a
      flush. */
  function PubEvents(b: seq<byte>): seq<Event>
  {
    [Write(b), Flush]
  }

  /** Whether the writer of a connection that was `p` refuses the write of
      `b`, which runs the connection's handlers. */
  predicate WriteRefused(p: Peer, b: seq<byte>)
  {
    !Takes(p.writer, p.open, Write(b))
  }

  /**
   * What `send` does to a subscribed connection that was `p` and is now
   * `q`: the write and the flush handed to its writer until it refuses
   * one. A refused write runs the pending handlers; a refused flush is
   * caught like it, but runs none.
   */
  predicate Delivered(p: Peer, q: Peer, b: seq<byte>)
  {
    var run := Run(p.writer, p.open, PubEvents(b));
    && q.reader == p.reader && q.open == p.open && q.tags == p.tags
    && q.out == p.out + PubEvents(b)[..run.0] && q.writer == run.1
    && (WriteRefused(p, b) ==> q.fired == p.fired + p.pending && q.pending == [])
    && (!WriteRefused(p, b) ==> q.fired == p.fired && q.pending == p.pending)
  }

  /** Whether writing `b` takes a connection that was `p` out of topic `t`:
      the write is refused, the socket's handler is pending and the
      connection is tagged with `t`. */
  predicate Leaves(p: Peer, b: seq<byte>, t: string)
  {
    WriteRefused(p, b) && LeaveTopics in p.pending && p.tags.Some? && t in p.tags.value
  }

  /** Whether writing `b` takes a connection that was `p` out of the
      socket's connections. */
  predicate Drops(p: Peer, b: seq<byte>)
  {
    WriteRefused(p, b) && DropConn in p.pending
  }

  /** A subscriber on a live connection whose writer has no error gets the
      messages and the flush, and stays. */
  lemma {:induction false} LiveSubscriberServed(p: Peer, q: Peer, b: seq<byte>)
    requires Delivered(p, q, b) && p.open && !p.writer.failed
    ensures q.out == p.out + PubEvents(b) && q.writer == FRESH && q.fired == p.fired
    ensures !Drops(p, b) && forall t :: !Leaves(p, b, t)
  {
    LiveTakesAll(p.writer, PubEvents(b));
    assert PubEvents(b)[..2] == PubEvents(b);
  }

  /**
   * A subscriber whose connection is gone, but whose writer has room for
   * `b`, survives the send that writes `b`: the bytes are buffered, and
   * only the flush fails, which runs no handler. The error sticks to its
   * writer, so the next send's write is refused, and that one drops it.
   */
  lemma {:induction false} DeadSubscriberLingers(p: Peer, q: Peer, b: seq<byte>, b': seq<byte>)
    requires Delivered(p, q, b)
    requires !p.open && !p.writer.failed && b != [] && p.writer.used + |b| <= BUF_SIZE
    ensures !Drops(p, b) && (forall t :: !Leaves(p, b, t))
    ensures q.out == p.out + [Write(b)] && q.fired == p.fired && q.pending == p.pending
    ensures DropConn in p.pending ==> Drops(q, b')
    ensures forall t :: Leaves(q, b', t) <==> LeaveTopics in p.pending && p.tags.Some? && t in p.tags.value
  {
    var w1 := Step(p.writer, false, Write(b));
    DeadBuffers(p.writer, b);
    DeadBuffers(w1, []);
    RunCons(p.writer, false, Write(b), [Flush]);
    assert PubEvents(b) == [Write(b)] + [Flush];
    assert Run(w1, false, [Flush]) == (0, Writer(w1.used, true));
    assert PubEvents(b)[..1] == [Write(b)];
    StickyError(q.writer, false, Write(b'));
  }

  /** The connections of `done` that leave topic `t`, each judged by its
      state in `snap`. */
  ghost function LeftOf(snap: map<Conn, Peer>, done: set<Conn>, b: seq<byte>, t: string): set<Conn>
  {
    set c | c in done && c in snap && Leaves(snap[c], b, t)
  }

  /** The connections of `done` that leave the socket. */
  ghost function DroppedOf(snap: map<Conn, Peer>, done: set<Conn>, b: seq<byte>): set<Conn>
  {
    set c | c in done && c in snap && Drops(snap[c], b)
  }

  /** The topics once the connections in `done`, each written to from its
      state in `snap`, have been through `send`'s loop. */
  ghost predicate TopicsAfter(topics0: Topics, topics: Topics, snap: map<Conn, Peer>, done: set<Conn>, b: seq<byte>)
  {
    && (forall t :: t in topics <==> t in topics0)
    && forall t :: t in topics && t in topics0 ==> topics[t] == topics0[t] - LeftOf(snap, done, b, t)
  }

  /** One more connection through the loop keeps `TopicsAfter`. */
  lemma TopicsStep(topics0: Topics, before: Topics, after: Topics, snap: map<Conn, Peer>, done: set<Conn>,
                   c: Conn, b: seq<byte>)
    requires TopicsAfter(topics0, before, snap, done, b) && c in snap && c !in done
    requires forall t :: t in after <==> t in before
    requires forall t :: t in after && t in before ==>
      after[t] == if Leaves(snap[c], b, t) then before[t] - {c} else before[t]
    ensures TopicsAfter(topics0, after, snap, done + {c}, b)
  {
    forall t | t in after && t in topics0
      ensures after[t] == topics0[t] - LeftOf(snap, done + {c}, b, t)
    {
      assert LeftOf(snap, done + {c}, b, t) == LeftOf(snap, done, b, t) + (if Leaves(snap[c], b, t) then {c} else {});
    }
  }

  /** One more connection through the loop: the socket's connections lose
      it exactly when it drops. */
  lemma ConnsStep(snap: map<Conn, Peer>, done: set<Conn>, c: Conn, b: seq<byte>)
    requires c in snap && c !in done
    ensures DroppedOf(snap, done + {c}, b) == DroppedOf(snap, done, b) + (if Drops(snap[c], b) then {c} else {})
  {
  }

  /** `PublisherImpl`: a `ServerSocket` of type PUB and its topics. */
  class Publisher {
    const base: ServerSocket
    var topics: Topics

    ghost predicate Valid()
      reads this
    {
      base.socketType == PUB
    }

    constructor ()
      ensures Valid() && fresh(base) && !base.bound && base.conns == {} && topics == map[]
    {
      base := new ServerSocket(PUB);
      topics := map[];
    }

    /** The effect of the socket's own close handler, when it ran after
        `mark`. */
    method ApplyLeave(conn: Conn, mark: nat)
      requires mark <= |conn.fired|
      modifies this
      ensures topics == if LeaveTopics in conn.fired[mark..] then Leave(old(topics), conn, conn.ListTags()) else old(topics)
    {
      if LeaveTopics in conn.fired[mark..] {
        topics := Leave(topics, conn, conn.ListTags());
      }
    }

    /**
     * `onConnect`: the close handler registered, then the first frame read.
     * A message frame subscribes the connection: it is tagged with the
     * topic and joins the topic's set. A failed read runs the handlers, and
     * the error escapes.
     */
    method OnConnect(conn: Conn) returns (failure: Option<Error>)
      requires Valid() && conn.Valid()
      modifies this, base, conn
      ensures Valid() && base.bound == old(base.bound) && conn.Valid()
      ensures conn.reader == TransportConnection.ReadFrame(old(conn.reader)).1
      ensures conn.out == old(conn.out) && conn.open == old(conn.open)
      ensures var res := TransportConnection.ReadFrame(old(conn.reader)).0;
        && (res.Err? ==>
              && failure == Some(res.error)
              && conn.fired == old(conn.fired) + old(conn.PendingHandlers()) + [LeaveTopics]
              && conn.tags == old(conn.tags)
              && topics == Leave(old(topics), conn, old(conn.tags))
              && base.conns == if DropConn in old(conn.PendingHandlers()) then old(base.conns) - {conn} else old(base.conns))
        && (res.Ok? ==>
              && failure == None && conn.fired == old(conn.fired) && base.conns == old(base.conns)
              && conn.closeHandlers == Some(old(conn.PendingHandlers()) + [LeaveTopics])
              && match SubscribedTopic(res.value)
                 case None => topics == old(topics) && conn.tags == old(conn.tags)
                 case Some(t) =>
                   && topics == Join(old(topics), t, conn)
                   && conn.tags == Some((if old(conn.tags).Some? then old(conn.tags).value else {}) + {t}))
    {
      conn.OnceClose(LeaveTopics);
      var mark := |conn.fired|;
      var next := conn.Read();
      if next.Err? {
        assert conn.fired[mark..] == old(conn.PendingHandlers()) + [LeaveTopics];
        base.ApplyDrop(conn, mark);
        ApplyLeave(conn, mark);
        return Some(next.error);
      }
      failure := None;
      var topic := SubscribedTopic(next.value);
      if topic.None? {
        return;
      }
      var same := conn.SetTag(topic.value);
      topics := Join(topics, topic.value, conn);
    }

    /**
     * `send(...messages)`: the first message picks the topic; without a
     * set nothing is written. Otherwise every connection in the set gets
     * the encoded messages and a flush. A connection whose write fails is
     * skipped: its handlers run, taking it out of the socket's connections
     * and out of its topics. One whose flush fails is skipped too, but
     * stays. Each connection is written independently, so the order of the
     * set does not change the outcome.
     */
    method Send(msgs: seq<CoreUtils.MessageLike>)
      requires Valid()
      modifies this, base, if Key(msgs) in topics then topics[Key(msgs)] else {}
      ensures Valid() && base.bound == old(base.bound)
      ensures forall t :: t in topics <==> t in old(topics)
      ensures Key(msgs) !in old(topics) ==> topics == old(topics) && base.conns == old(base.conns)
      ensures Key(msgs) in old(topics) ==> var subs := old(topics)[Key(msgs)];
        && (forall c :: c in subs ==> Delivered(old(PeerOf(c)), PeerOf(c), EncodeMessages(msgs)))
        && (forall t, c :: t in topics ==>
              (c in topics[t] <==> c in old(topics)[t] && !(c in subs && Leaves(old(PeerOf(c)), EncodeMessages(msgs), t))))
        && (forall c :: c in base.conns <==> c in old(base.conns) && !(c in subs && Drops(old(PeerOf(c)), EncodeMessages(msgs))))
    {
      var key := Key(msgs);
      if key !in topics {
        return;
      }
      var subs := topics[key];
      var b := EncodeMessages(msgs);
      ghost var snap := map c | c in subs :: PeerOf(c);
      DeliverAll(subs, b, snap);
    }

    /** `send`'s loop over the topic's set `subs`, each connection as it was
        in `snap`. */
    method DeliverAll(subs: set<Conn>, b: seq<byte>, ghost snap: map<Conn, Peer>)
      requires Sending(subs, subs, {}, snap, topics, base.conns, b)
      modifies this, base, subs
      ensures Sending(subs, {}, subs, snap, old(topics), old(base.conns), b) && base.bound == old(base.bound)
    {
      var todo: set<Conn> := subs;
      ghost var done: set<Conn> := {};
      while todo != {}
        invariant Sending(subs, todo, done, snap, old(topics), old(base.conns), b)
        invariant base.bound == old(base.bound)
        decreases |todo|
      {
        var c :| c in todo;
        DeliverNext(c, b, subs, todo, done, snap, old(topics), old(base.conns));
        todo := todo - {c};
        done := done + {c};
      }
    }

    /** The state of `send`'s loop once the connections in `done` were
        written to and those in `todo` were not yet touched; `snap` holds
        each subscriber as it was before the loop. */
    ghost predicate Sending(subs: set<Conn>, todo: set<Conn>, done: set<Conn>, snap: map<Conn, Peer>,
                            topics0: Topics, conns0: set<Conn>, b: seq<byte>)
      reads this, base, subs
    {
      && todo + done == subs && todo !! done && Valid()
      && (forall c :: c in subs ==> c in snap)
      && (forall c :: c in todo ==> PeerOf(c) == snap[c])
      && (forall c :: c in done ==> Delivered(snap[c], PeerOf(c), b))
      && TopicsAfter(topics0, topics, snap, done, b)
      && base.conns == conns0 - DroppedOf(snap, done, b)
    }

    /** One turn of `send`'s loop: `Deliver` to a connection not yet
        touched keeps `Sending`. */
    method DeliverNext(c: Conn, b: seq<byte>, ghost subs: set<Conn>, ghost todo: set<Conn>, ghost done: set<Conn>,
                       ghost snap: map<Conn, Peer>, ghost topics0: Topics, ghost conns0: set<Conn>)
      requires Sending(subs, todo, done, snap, topics0, conns0, b) && c in todo
      modifies this, base, c
      ensures Sending(subs, todo - {c}, done + {c}, snap, topics0, conns0, b)
      ensures base.bound == old(base.bound)
    {
      ghost var before := topics;
      Deliver(c, b);
      TopicsStep(topics0, before, topics, snap, done, c, b);
      ConnsStep(snap, done, c, b);
    }

    /** One connection of `send`'s loop: write and flush; a refused write
        runs the handlers, whose effects reach the socket, and a refused
        flush is caught. */
    method Deliver(c: Conn, b: seq<byte>)
      requires Valid()
      modifies this, base, c
      ensures Valid() && base.bound == old(base.bound)
      ensures Delivered(old(PeerOf(c)), PeerOf(c), b)
      ensures forall t :: t in topics <==> t in old(topics)
      ensures forall t :: t in topics && t in old(topics) ==>
        topics[t] == if Leaves(old(PeerOf(c)), b, t) then old(topics)[t] - {c} else old(topics)[t]
      ensures base.conns == if Drops(old(PeerOf(c)), b) then old(base.conns) - {c} else old(base.conns)
    {
      ghost var es := PubEvents(b);
      RunCons(c.writer, c.open, Write(b), [Flush]);
      assert es == [Write(b)] + [Flush];
      var mark := |c.fired|;
      var w := c.Write(TransportConnection.Raw(b));
      if w.Ok? {
        var flushed := c.Flush();
        assert es[..1] == [Write(b)] && es[..2] == es;
        return;
      }
      assert es[..0] == [];
      assert c.fired[mark..] == old(c.PendingHandlers());
      base.ApplyDrop(c, mark);
      ApplyLeave(c, mark);
    }

    /**
     * An accepted connection, from `handleConn` through `onConnect`: after
     * the handshake its first frame subscribes it.
     */
    method Accept(conn: Conn) returns (r: Result<ProtoFrame.Frame>, failure: Option<Error>)
      requires Valid() && conn.Valid() && conn.sig.None? && conn.major.None?
      requires conn.closeHandlers.None? && conn.fired == []
      modifies this, base, conn
      ensures Valid() && base.bound == old(base.bound)
      ensures r == ServerHandshake(old(conn.reader), old(conn.writer), old(conn.open))
      ensures r.Err? ==> failure == None && topics == old(topics)
      ensures r.Ok? ==> var res := TransportConnection.ReadFrame(AfterHandshake(old(conn.reader))).0;
        && (res.Err? ==> failure == Some(res.error) && conn.fired == [DropConn, LeaveTopics] && conn !in base.conns)
        && (res.Ok? && SubscribedTopic(res.value).Some? ==>
              && failure == None && conn in base.conns && conn.HasTag(SubscribedTopic(res.value).value)
              && SubscribedTopic(res.value).value in topics && conn in topics[SubscribedTopic(res.value).value])
    {
      ghost var r0 := conn.reader;
      r := base.HandleConn(conn);
      failure := None;
      if r.Ok? {
        failure := Handshaken(conn, r0);
      }
    }

    /** `onConnect` on a connection that has just completed its handshake. */
    method Handshaken(conn: Conn, ghost r0: Reader) returns (failure: Option<Error>)
      requires Valid() && conn.Valid() && conn in base.conns && conn.fired == []
      requires r0.Valid() && conn.closeHandlers == Some([DropConn]) && conn.reader == AfterHandshake(r0)
      modifies this, base, conn
      ensures Valid() && base.bound == old(base.bound)
      ensures var res := TransportConnection.ReadFrame(AfterHandshake(r0)).0;
        && (res.Err? ==> failure == Some(res.error) && conn.fired == [DropConn, LeaveTopics] && conn !in base.conns)
        && (res.Ok? && SubscribedTopic(res.value).Some? ==>
              && failure == None && conn in base.conns && conn.HasTag(SubscribedTopic(res.value).value)
              && SubscribedTopic(res.value).value in topics && conn in topics[SubscribedTopic(res.value).value])
    {
      failure := OnConnect(conn);
    }
  }
}
