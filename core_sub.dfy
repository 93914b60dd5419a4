/**
 * core/sub.ts: the SUB socket. A client socket that subscribes by sending
 * a frame holding 0x01 and the topic, then reads the PUB socket's
 * messages: MORE frames collect parts, a frame without MORE ends a message
 * when its size is not zero.
 */
module CoreSub {
  import opened Bytes
  import opened Results
  import opened Io
  import Text
  import ProtoFrame
  import ProtocolDataFrame
  import TransportConnection
  import CoreUtils
  import opened CoreSocket
  import CorePub

  /**
   * `iter` over the frames the connection yields, as views, and the error
   * that ends them, with the parts collected so far in `acc`: the messages
   * yielded, and the error that escapes (`None` when the frames end with
   * `EOFError`). A MORE frame adds its payload, even an empty one. A frame
   * without MORE whose size is not zero adds its payload and ends the
   * message; one of size zero is skipped, and what was collected carries
   * over to the next message.
   */
  function Iter(vs: seq<CoreUtils.View>, e: Error, acc: seq<seq<byte>>): (res: (seq<seq<seq<byte>>>, Option<Error>))
    decreases |vs|
  {
    if vs == [] then ([], if e == EndOfFile then None else Some(e))
    else if vs[0].more then
      match vs[0].payload
      case None => ([], Some(RangeError))
      case Some(p) => Iter(vs[1..], e, acc + [p])
    else
      match vs[0].size
      case None => ([], Some(RangeError))
      case Some(n) =>
        if n == 0 then Iter(vs[1..], e, acc)
        else match vs[0].payload
          case None => ([], Some(RangeError))
          case Some(p) =>
            var rest := Iter(vs[1..], e, []);
            ([acc + [p]] + rest.0, rest.1)
  }

  /** Every message `iter` yields has at least one part: the one whose
      frame ended it. */
  lemma {:induction false} IterNonEmpty(vs: seq<CoreUtils.View>, e: Error, acc: seq<seq<byte>>)
    ensures forall i :: 0 <= i < |Iter(vs, e, acc).0| ==> Iter(vs, e, acc).0[i] != []
    decreases |vs|
  {
    if vs != [] {
      var p := vs[0].payload;
      if vs[0].more {
        if p.Some? {
          IterNonEmpty(vs[1..], e, acc + [p.value]);
        }
      } else if vs[0].size.Some? {
        if vs[0].size.value == 0 {
          IterNonEmpty(vs[1..], e, acc);
        } else if p.Some? {
          IterNonEmpty(vs[1..], e, []);
        }
      }
    }
  }

  /** On frames read from a connection the only error that can escape
      `iter` is the one that ended the reads, and `EOFError` does not. */
  lemma {:induction false} IterFailure(vs: seq<CoreUtils.View>, e: Error, acc: seq<seq<byte>>)
    requires forall i :: 0 <= i < |vs| ==> CoreUtils.Readable(vs[i])
    ensures Iter(vs, e, acc).1 == if e == EndOfFile then None else Some(e)
    decreases |vs|
  {
    if vs != [] {
      assert forall i :: 0 <= i < |vs[1..]| ==> CoreUtils.Readable(vs[1..][i]);
      var p := vs[0].payload.value;
      if vs[0].more {
        IterFailure(vs[1..], e, acc + [p]);
      } else if vs[0].size.value == 0 {
        IterFailure(vs[1..], e, acc);
      } else {
        IterFailure(vs[1..], e, []);
      }
    }
  }

  /** The payloads of the parts, in order, empty ones included. */
  function Bodies(ps: seq<CoreUtils.Part>): (bs: seq<seq<byte>>)
    ensures |bs| == |ps| && forall i :: 0 <= i < |ps| ==> bs[i] == ps[i].payload
  {
    seq(|ps|, i requires 0 <= i < |ps| => ps[i].payload)
  }

  /** Frames that all have MORE and carry the payloads `bs` add them to the
      message being collected. */
  lemma {:induction false} IterMore(vs: seq<CoreUtils.View>, bs: seq<seq<byte>>, e: Error, acc: seq<seq<byte>>)
    requires |bs| <= |vs| && forall i :: 0 <= i < |bs| ==> vs[i].more && vs[i].payload == Some(bs[i])
    ensures Iter(vs, e, acc) == Iter(vs[|bs|..], e, acc + bs)
    decreases |bs|
  {
    if bs == [] {
      assert acc + bs == acc;
    } else {
      assert forall i :: 0 <= i < |bs| - 1 ==> vs[1..][i].more && vs[1..][i].payload == Some(bs[1..][i]) by {
        assert forall i :: 0 <= i < |bs| - 1 ==> vs[1..][i] == vs[i + 1] && bs[1..][i] == bs[i + 1];
      }
      IterMore(vs[1..], bs[1..], e, acc + [bs[0]]);
      assert vs[1..][|bs| - 1..] == vs[|bs|..];
      assert (acc + [bs[0]]) + bs[1..] == acc + bs;
    }
  }

  /**
   * The frames of one message whose last part is not empty, followed by
   * any frames: `iter` yields the message, every payload in order, then
   * goes on with the frames after it.
   */
  lemma {:induction false} IterParts(ps: seq<CoreUtils.Part>, vs: seq<CoreUtils.View>, e: Error, acc: seq<seq<byte>>)
    requires OneMessage(ps) && ps[|ps| - 1].payload != []
    requires |ps| <= |vs| && forall i :: 0 <= i < |ps| ==> vs[i] == CoreUtils.PartView(ps[i])
    ensures var after := Iter(vs[|ps|..], e, []);
      Iter(vs, e, acc) == ([acc + Bodies(ps)] + after.0, after.1)
  {
    var k := |ps| - 1;
    var init := Bodies(ps)[..k];
    IterMore(vs, init, e, acc);
    var rest := vs[k..];
    assert rest[0] == CoreUtils.PartView(ps[k]);
    assert rest[1..] == vs[|ps|..];
    assert Bodies(ps) == init + [ps[k].payload];
    assert (acc + init) + [ps[k].payload] == acc + Bodies(ps);
  }

  /** The parts of a list of messages carry the messages' encodings. */
  lemma {:induction false} BodiesOfMessages(msgs: seq<CoreUtils.MessageLike>)
    ensures Bodies(CoreUtils.MessageParts(msgs)) == CoreUtils.Encodings(msgs)
  {
    assert |Bodies(CoreUtils.MessageParts(msgs))| == |CoreUtils.Encodings(msgs)|;
    assert forall i :: 0 <= i < |msgs| ==> Bodies(CoreUtils.MessageParts(msgs))[i] == CoreUtils.Encodings(msgs)[i];
  }

  /**
   * What a PUB socket's `send` writes to a subscriber, read by the SUB
   * socket's connection up to the end of the stream: exactly one message,
   * the encodings in order, and no error escapes, provided the last
   * message does not encode to nothing.
   */
  lemma {:induction false} PublishRoundTrip(before: seq<byte>, msgs: seq<CoreUtils.MessageLike>)
    requires |msgs| > 0 && CoreUtils.ShortMessages(msgs) && msgs[|msgs| - 1].Encoded() != []
    ensures var (fs, e) := TransportConnection.ReadAll(Reader(before + CorePub.EncodeMessages(msgs), |before|));
      Iter(CoreUtils.Views(fs), e, []) == ([CoreUtils.Encodings(msgs)], None)
  {
    var ps := CoreUtils.MessageParts(msgs);
    assert CoreUtils.AllShort(ps);
    CoreUtils.ReadViews(before, ps);
    assert Iter(CoreUtils.PartViews(ps), EndOfFile, []) == ([Bodies(ps)], None) by {
      IterParts(ps, CoreUtils.PartViews(ps), EndOfFile, []);
      assert CoreUtils.PartViews(ps)[|ps|..] == [];
      assert Iter([], EndOfFile, []) == ([], None);
      assert [] + Bodies(ps) == Bodies(ps);
      assert [Bodies(ps)] + [] == [Bodies(ps)];
    }
    BodiesOfMessages(msgs);
  }

  /** The bytes of parts written one after the other. */
  lemma {:induction false} WireAppend(ps: seq<CoreUtils.Part>, qs: seq<CoreUtils.Part>)
    ensures CoreUtils.Wire(ps + qs) == CoreUtils.Wire(ps) + CoreUtils.Wire(qs)
    decreases |ps|
  {
    if ps == [] {
      assert ps + qs == qs;
    } else {
      assert (ps + qs)[1..] == ps[1..] + qs;
      WireAppend(ps[1..], qs);
      assert ps[0].Bytes() + (CoreUtils.Wire(ps[1..]) + CoreUtils.Wire(qs))
          == (ps[0].Bytes() + CoreUtils.Wire(ps[1..])) + CoreUtils.Wire(qs);
    }
  }

  /** A message whose last part is an empty frame without MORE, then a
      message whose last part is not empty: the first message's other
      parts are yielded in front of the second message. */
  lemma {:induction false} IterCarry(ps: seq<CoreUtils.Part>, qs: seq<CoreUtils.Part>)
    requires OneMessage(ps) && ps[|ps| - 1].payload == []
    requires OneMessage(qs) && qs[|qs| - 1].payload != []
    ensures Iter(CoreUtils.PartViews(ps + qs), EndOfFile, []) == ([Bodies(ps)[..|ps| - 1] + Bodies(qs)], None)
  {
    CarryPrefix(ps, qs);
    ConcatViews(ps, qs);
    IterWhole(qs, CoreUtils.PartViews(ps + qs)[|ps|..], Bodies(ps)[..|ps| - 1]);
  }

  /** The parts of a message that ends with an empty part are carried over
      past its frames. */
  lemma CarryPrefix(ps: seq<CoreUtils.Part>, qs: seq<CoreUtils.Part>)
    requires OneMessage(ps) && ps[|ps| - 1].payload == []
    ensures var vs := CoreUtils.PartViews(ps + qs);
      Iter(vs, EndOfFile, []) == Iter(vs[|ps|..], EndOfFile, Bodies(ps)[..|ps| - 1])
  {
    var k := |ps| - 1;
    var vs := CoreUtils.PartViews(ps + qs);
    var init := Bodies(ps)[..k];
    ConcatViews(ps, qs);
    assert forall i :: 0 <= i < k ==> vs[i].more && vs[i].payload == Some(init[i]);
    assert vs[k] == CoreUtils.PartView(ps[k]);
    SkipAfterMore(vs, init);
  }

  /** MORE frames carrying `init`, then a frame of size zero without MORE:
      `iter` goes on after them with `init` collected. */
  lemma SkipAfterMore(vs: seq<CoreUtils.View>, init: seq<seq<byte>>)
    requires |init| < |vs|
    requires forall i :: 0 <= i < |init| ==> vs[i].more && vs[i].payload == Some(init[i])
    requires !vs[|init|].more && vs[|init|].size == Some(0)
    ensures Iter(vs, EndOfFile, []) == Iter(vs[|init| + 1..], EndOfFile, init)
  {
    var k := |init|;
    IterMore(vs, init, EndOfFile, []);
    assert [] + init == init;
    assert vs[k..][0] == vs[k] && vs[k..][1..] == vs[k + 1..];
  }

  /** The views of two runs of parts: those of the first, then those of the
      second. */
  lemma ConcatViews(ps: seq<CoreUtils.Part>, qs: seq<CoreUtils.Part>)
    ensures var vs := CoreUtils.PartViews(ps + qs);
      && |vs| == |ps| + |qs|
      && (forall i :: 0 <= i < |ps| ==> vs[i] == CoreUtils.PartView(ps[i]))
      && (forall i :: 0 <= i < |qs| ==> vs[|ps|..][i] == CoreUtils.PartView(qs[i]))
  {
    var vs := CoreUtils.PartViews(ps + qs);
    assert forall i :: 0 <= i < |ps| ==> (ps + qs)[i] == ps[i];
    assert forall i :: 0 <= i < |qs| ==> vs[|ps|..][i] == vs[|ps| + i] && (ps + qs)[|ps| + i] == qs[i];
  }

  /** The frames of one message and nothing after them: `iter` yields that
      message, after the parts `acc` carried over. */
  lemma IterWhole(qs: seq<CoreUtils.Part>, ws: seq<CoreUtils.View>, acc: seq<seq<byte>>)
    requires OneMessage(qs) && qs[|qs| - 1].payload != []
    requires |ws| == |qs| && forall i :: 0 <= i < |qs| ==> ws[i] == CoreUtils.PartView(qs[i])
    ensures Iter(ws, EndOfFile, acc) == ([acc + Bodies(qs)], None)
  {
    IterParts(qs, ws, EndOfFile, acc);
    assert ws[|qs|..] == [];
    assert Iter([], EndOfFile, []) == ([], None);
    assert [acc + Bodies(qs)] + [] == [acc + Bodies(qs)];
  }

  /**
   * A published message whose last part encodes to nothing ends with a
   * frame of size zero, which `iter` skips: nothing is yielded for it, and
   * its other parts come first in the next message.
   */
  lemma {:induction false} EmptyLastCarriesOver(before: seq<byte>, first: seq<CoreUtils.MessageLike>, next: seq<CoreUtils.MessageLike>)
    requires |first| > 0 && CoreUtils.ShortMessages(first) && first[|first| - 1].Encoded() == []
    requires |next| > 0 && CoreUtils.ShortMessages(next) && next[|next| - 1].Encoded() != []
    ensures var s := before + CorePub.EncodeMessages(first) + CorePub.EncodeMessages(next);
      var (fs, e) := TransportConnection.ReadAll(Reader(s, |before|));
      Iter(CoreUtils.Views(fs), e, []) == ([CoreUtils.Encodings(first[..|first| - 1]) + CoreUtils.Encodings(next)], None)
  {
    var ps := CoreUtils.MessageParts(first);
    var qs := CoreUtils.MessageParts(next);
    TwoMessagesWire(before, first, next);
    CoreUtils.ReadViews(before, ps + qs);
    IterCarry(ps, qs);
    BodiesOfMessages(next);
    BodiesBeforeLast(first);
  }

  /** Two published messages are the wire form of their parts, all short. */
  lemma TwoMessagesWire(before: seq<byte>, first: seq<CoreUtils.MessageLike>, next: seq<CoreUtils.MessageLike>)
    requires CoreUtils.ShortMessages(first) && CoreUtils.ShortMessages(next)
    ensures var ps := CoreUtils.MessageParts(first);
      var qs := CoreUtils.MessageParts(next);
      && before + CorePub.EncodeMessages(first) + CorePub.EncodeMessages(next) == before + CoreUtils.Wire(ps + qs)
      && CoreUtils.AllShort(ps + qs)
  {
    var ps := CoreUtils.MessageParts(first);
    var qs := CoreUtils.MessageParts(next);
    WireAppend(ps, qs);
    AppendAssoc(before, CoreUtils.Wire(ps), CoreUtils.Wire(qs));
    ShortAppend(ps, qs);
  }

  lemma ShortAppend(ps: seq<CoreUtils.Part>, qs: seq<CoreUtils.Part>)
    requires CoreUtils.AllShort(ps) && CoreUtils.AllShort(qs)
    ensures CoreUtils.AllShort(ps + qs)
  {
    forall i | 0 <= i < |ps + qs|
      ensures |(ps + qs)[i].payload| <= 0xFF
    {
      if i < |ps| {
        assert (ps + qs)[i] == ps[i];
      } else {
        assert (ps + qs)[i] == qs[i - |ps|];
      }
    }
  }

  /** Every part of a message but the last carries its own encoding. */
  lemma BodiesBeforeLast(msgs: seq<CoreUtils.MessageLike>)
    requires |msgs| > 0
    ensures Bodies(CoreUtils.MessageParts(msgs))[..|msgs| - 1] == CoreUtils.Encodings(msgs[..|msgs| - 1])
  {
    BodiesOfMessages(msgs);
  }

  /** The payload of a subscription: 0x01, then the topic's UTF-8 bytes. */
  function SubscriptionPayload(topic: string): seq<byte>
  {
    [1] + Text.Encode(topic)
  }

  /**
   * The frame `subscribe` writes, read by the PUB socket's `onConnect`,
   * subscribes to the same topic, as long as the frame is not LONG and
   * the topic does not start with a byte-order mark, which the decoder
   * drops.
   */
  lemma {:induction false} SubscribeRoundTrip(topic: string)
    requires |Text.Encode(topic)| < 0xFF
    ensures var f := ProtoFrame.Frame(ProtocolDataFrame.DataFrameBytes(false, SubscriptionPayload(topic)));
      && TransportConnection.Whole(f) && CorePub.SubscribedTopic(f) == Some(Text.StripBom(topic))
      && (CorePub.SubscribedTopic(f) == Some(topic) <==> topic == [] || topic[0] != Text.BOM)
  {
    var p := SubscriptionPayload(topic);
    ProtocolDataFrame.BuiltShape(false, p);
    ProtocolDataFrame.ShortRoundTrip(false, p);
    assert p[1..] == Text.Encode(topic);
    Text.DecodeEncode(topic);
  }

  /** A subscription accepted by a PUB socket makes the connection one of
      those a message on that topic goes to, when the topic does not start
      with a byte-order mark; otherwise one on the topic without the mark. */
  lemma {:induction false} SubscribeThenFind(topics: CorePub.Topics, topic: string, c: Conn, rest: seq<CoreUtils.MessageLike>)
    requires |Text.Encode(topic)| < 0xFF
    ensures var f := ProtoFrame.Frame(ProtocolDataFrame.DataFrameBytes(false, SubscriptionPayload(topic)));
      && TransportConnection.Whole(f) && CorePub.SubscribedTopic(f).Some?
      && var j := CorePub.Join(topics, CorePub.SubscribedTopic(f).value, c);
      && CorePub.FindConns(j, [ProtocolDataFrame.Str(Text.StripBom(topic))] + rest).Some?
      && c in CorePub.FindConns(j, [ProtocolDataFrame.Str(Text.StripBom(topic))] + rest).value
      && (topic == [] || topic[0] != Text.BOM ==>
            && CorePub.FindConns(j, [ProtocolDataFrame.Str(topic)] + rest).Some?
            && c in CorePub.FindConns(j, [ProtocolDataFrame.Str(topic)] + rest).value)
  {
    SubscribeRoundTrip(topic);
    CorePub.FindJoined(topics, Text.StripBom(topic), c, rest);
  }

  /** The mark is lost on the way: the only subscriber to "\uFEFFx" is not
      among those a message on "\uFEFFx" goes to. */
  lemma SubscribeBomLost(c: Conn)
    ensures var topic := [Text.BOM, 'x'];
      var f := ProtoFrame.Frame(ProtocolDataFrame.DataFrameBytes(false, SubscriptionPayload(topic)));
      && TransportConnection.Whole(f) && CorePub.SubscribedTopic(f) == Some("x")
      && CorePub.FindConns(CorePub.Join(map[], "x", c), [ProtocolDataFrame.Str(topic)]) == None
  {
    var topic := [Text.BOM, 'x'];
    assert |Text.Encode(topic)| == 4 by {
      assert Text.Encode(topic) == Text.EncodeChar(Text.BOM) + Text.Encode(topic[1..]);
      assert topic[1..] == "x";
      assert Text.Encode("x") == Text.EncodeChar('x') + Text.Encode([]) by { assert "x"[1..] == []; }
    }
    SubscribeRoundTrip(topic);
    assert topic[1..] == "x";
  }

  /** `SubscriberImpl`: a client socket of type SUB. */
  class Subscriber {
    const base: Socket

    ghost predicate Valid()
      reads this, base, if base.conn.Some? then {base.conn.value} else {}
    {
      base.Valid() && base.socketType == SUB
    }

    constructor ()
      ensures Valid() && fresh(base) && !base.transport && base.conn == None
    {
      base := new Socket(SUB);
    }

    /**
     * `iter`, run to its end: `ConnectionNotReadyError` without a
     * connection; otherwise the connection's frames, read until the
     * stream fails, cut into messages.
     */
    method Messages() returns (yielded: seq<seq<seq<byte>>>, failure: Option<Error>)
      requires Valid()
      modifies if base.conn.Some? then {base.conn.value} else {}
      ensures Valid()
      ensures old(base.conn).None? ==> yielded == [] && failure == Some(ConnectionNotReady)
      ensures old(base.conn).Some? ==> var c := base.conn.value;
        var (fs, e) := TransportConnection.ReadAll(old(c.reader));
        && (yielded, failure) == Iter(CoreUtils.Views(fs), e, [])
        && failure == (if e == EndOfFile then None else Some(e))
        && c.out == old(c.out) && c.open == old(c.open) && c.fired == old(c.fired)
    {
      var got := base.MustGetConn();
      if got.Err? {
        return [], Some(got.error);
      }
      var c := got.value;
      var frames, e := c.Frames();
      assert c.fired == old(c.fired) + [];
      CoreUtils.ReadableFrames(frames);
      IterFailure(CoreUtils.Views(frames), e, []);
      yielded, failure := Iter(CoreUtils.Views(frames), e, []).0, Iter(CoreUtils.Views(frames), e, []).1;
    }

    /**
     * `subscribe(topic)`: `ConnectionNotReadyError` without a connection;
     * otherwise the subscription frame written, then a flush, handed to
     * the writer until it refuses one.
     */
    method Subscribe(topic: string) returns (r: Result<()>)
      requires Valid()
      modifies if base.conn.Some? then {base.conn.value} else {}
      ensures Valid()
      ensures old(base.conn).None? ==> r == Err(ConnectionNotReady)
      ensures old(base.conn).Some? ==> var c := base.conn.value;
        var es := SubscribeEvents(topic);
        var run := Run(old(c.writer), c.open, es);
        && c.reader == old(c.reader) && c.open == old(c.open) && c.fired == old(c.fired)
        && r == Outcome(old(c.writer), c.open, es)
        && c.out == old(c.out) + es[..run.0] && c.writer == run.1
    {
      var got := base.MustGetConn();
      if got.Err? {
        return Err(got.error);
      }
      var c := got.value;
      ghost var w0, open := c.writer, c.open;
      ghost var es := SubscribeEvents(topic);
      RunCons(w0, open, es[0], [Flush]);
      assert es == [es[0]] + [Flush];
      var sub := ProtocolDataFrame.BuildMessage(ProtocolDataFrame.Raw(SubscriptionPayload(topic)), false);
      var w := c.Write(TransportConnection.FrameMessage(ProtoFrame.Frame(sub.body)));
      if w.Err? {
        assert c.fired == old(c.fired) + [];
        assert es[..0] == [];
        return Err(w.error);
      }
      r := c.Flush();
      assert es[..1] == [es[0]] && es[..2] == es;
    }
  }

  /** What `subscribe(topic)` hands to the writer: the subscription frame,
      then a flush. */
  function SubscribeEvents(topic: string): seq<Event>
  {
    [Write(ProtocolDataFrame.DataFrameBytes(false, SubscriptionPayload(topic))), Flush]
  }

  /** With no error stuck to the writer, a subscription gets through exactly
      when the connection is live, and then leaves the writer empty. */
  lemma {:induction false} SubscribeGetsThrough(w: Writer, open: bool, topic: string)
    requires !w.failed
    ensures Outcome(w, open, SubscribeEvents(topic)).Ok? <==> open
    ensures open ==> Run(w, open, SubscribeEvents(topic)).1 == FRESH
  {
    var es := SubscribeEvents(topic);
    if open {
      LiveTakesAll(w, es);
    } else {
      assert es[0].Write? && es[0].bytes != [];
      assert WriterEvents(es);
      DeadNeverFlushes(w, es);
    }
  }
}
