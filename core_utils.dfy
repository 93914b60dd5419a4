/**
 * core/utils.ts: `sendMessages`, the envelope every socket writes: the empty
 * MORE delimiter, each message as a data frame with MORE on all but the
 * last, then a flush.
 */
module CoreUtils {
  import opened Bytes
  import opened Results
  import opened Io
  import ProtoFrame
  import ProtocolDataFrame
  import TransportConnection

  type MessageLike = ProtocolDataFrame.MessageLike

  /** One data frame to be written: its MORE flag and its payload. */
  datatype Part = Part(more: bool, payload: seq<byte>)
  {
    function Bytes(): seq<byte>
    {
      ProtocolDataFrame.DataFrameBytes(more, payload)
    }
  }

  /** The delimiter is the data frame with MORE and no payload. */
  const DELIMITER: Part := Part(true, [])

  lemma DelimiterIsEmptyHasMore()
    ensures DELIMITER.Bytes() == ProtoFrame.EMPTY_HAS_MORE.body
  {
  }

  /** The messages as parts: MORE on every one but the last. */
  function MessageParts(msgs: seq<MessageLike>): (ps: seq<Part>)
    ensures |ps| == |msgs|
    ensures forall i :: 0 <= i < |msgs| ==> ps[i] == Part(i < |msgs| - 1, msgs[i].Encoded())
  {
    seq(|msgs|, i requires 0 <= i < |msgs| => Part(i < |msgs| - 1, msgs[i].Encoded()))
  }

  /** One write per part, in order. */
  function Writes(ps: seq<Part>): (ws: seq<Event>)
    ensures |ws| == |ps|
  {
    if ps == [] then [] else [Write(ps[0].Bytes())] + Writes(ps[1..])
  }

  /** What `sendMessages` hands to the writer for a non-empty list: the
      delimiter, the messages, and a flush. */
  function Envelope(msgs: seq<MessageLike>): seq<Event>
  {
    Writes([DELIMITER] + MessageParts(msgs)) + [Flush]
  }

  /** The bytes of the writes in a trace, in order. */
  function Sent(events: seq<Event>): seq<byte>
  {
    if events == [] then []
    else (if events[0].Write? then events[0].bytes else []) + Sent(events[1..])
  }

  /** The bytes of the parts, one frame after the other. */
  function Wire(ps: seq<Part>): seq<byte>
  {
    if ps == [] then [] else ps[0].Bytes() + Wire(ps[1..])
  }

  /**
   * `sendMessages(conn, ...messages)`: no message is an error before anything
   * is written. Otherwise the envelope's writes and its flush are handed to
   * the writer one after the other until it refuses one, whose error ends
   * the call: a refused write runs the connection's close handlers, a
   * refused flush does not.
   */
  method SendMessages<H>(conn: TransportConnection.Connection<H>, msgs: seq<MessageLike>) returns (r: Result<()>)
    modifies conn
    ensures |msgs| == 0 ==> r == Err(NoMessages) && unchanged(conn)
    ensures |msgs| > 0 ==> var env := Envelope(msgs);
      var run := Run(old(conn.writer), conn.open, env);
      && r == Outcome(old(conn.writer), conn.open, env)
      && conn.out == old(conn.out) + env[..run.0] && conn.writer == run.1
      && conn.fired == old(conn.fired) + (if r == Err(WriteFailed) then old(conn.PendingHandlers()) else [])
      && (r != Err(WriteFailed) ==> conn.closeHandlers == old(conn.closeHandlers))
      && (r == Err(WriteFailed) ==> conn.PendingHandlers() == [])
    ensures conn.reader == old(conn.reader) && conn.open == old(conn.open)
    ensures conn.sig == old(conn.sig) && conn.major == old(conn.major) && conn.tags == old(conn.tags)
  {
    if |msgs| < 1 {
      return Err(NoMessages);
    }
    ghost var w0, open, out0, fired0 := conn.writer, conn.open, conn.out, conn.fired;
    ghost var ws := Writes(MessageParts(msgs));
    ghost var d := Write(DELIMITER.Bytes());
    var delimiter := TransportConnection.FrameMessage(ProtoFrame.EMPTY_HAS_MORE);
    assert delimiter.Bytes() == DELIMITER.Bytes() by {
      DelimiterIsEmptyHasMore();
    }
    var w := conn.Write(delimiter);
    if w.Err? {
      DelimiterRefused(w0, open, msgs);
      return Err(w.error);
    }
    assert conn.out == out0 + [d] && conn.writer == Step(w0, open, d);
    r := WriteMessages(conn, msgs);
    if r.Err? {
      MessageRefused(w0, open, msgs);
      ghost var k := Run(Step(w0, open, d), open, ws).0;
      assert conn.out == out0 + [d] + ws[..k];
      EventsAssoc(out0, [d], ws[..k]);
      return;
    }
    assert ws[..|ws|] == ws;
    assert conn.out == out0 + [d] + ws && conn.fired == fired0;
    r := conn.Flush();
    MessagesTaken(w0, open, msgs);
    ghost var tail := if r.Ok? then [Flush] else [];
    assert conn.out == out0 + [d] + ws + tail;
    TraceAssoc(out0, [d], ws, tail);
  }

  lemma TraceAssoc(a: seq<Event>, b: seq<Event>, c: seq<Event>, d: seq<Event>)
    ensures a + b + c + d == a + (b + c + d)
  {
  }

  /** The envelope is the delimiter's write, then the messages' writes, then
      the flush. */
  lemma EnvelopeShapeOf(msgs: seq<MessageLike>)
    requires |msgs| > 0
    ensures Envelope(msgs) == [Write(DELIMITER.Bytes())] + (Writes(MessageParts(msgs)) + [Flush])
  {
    var ps := [DELIMITER] + MessageParts(msgs);
    assert ps[1..] == MessageParts(msgs);
  }

  /** A refused delimiter is where an envelope stops. */
  lemma DelimiterRefused(w: Writer, live: bool, msgs: seq<MessageLike>)
    requires |msgs| > 0 && !Takes(w, live, Write(DELIMITER.Bytes()))
    ensures Run(w, live, Envelope(msgs)) == (0, Step(w, live, Write(DELIMITER.Bytes())))
    ensures Outcome(w, live, Envelope(msgs)) == Err(WriteFailed)
  {
    EnvelopeShapeOf(msgs);
  }

  /** A refused message write is where an envelope stops, after the
      delimiter and the messages before it. */
  lemma MessageRefused(w: Writer, live: bool, msgs: seq<MessageLike>)
    requires |msgs| > 0 && Takes(w, live, Write(DELIMITER.Bytes()))
    requires var w1 := Step(w, live, Write(DELIMITER.Bytes()));
      Run(w1, live, Writes(MessageParts(msgs))).0 < |msgs|
    ensures var w1 := Step(w, live, Write(DELIMITER.Bytes()));
      var ws := Writes(MessageParts(msgs));
      var run := Run(w1, live, ws);
      && Run(w, live, Envelope(msgs)) == (run.0 + 1, run.1)
      && Outcome(w, live, Envelope(msgs)) == Err(WriteFailed)
      && Envelope(msgs)[..run.0 + 1] == [Write(DELIMITER.Bytes())] + ws[..run.0]
  {
    var d := Write(DELIMITER.Bytes());
    var w1 := Step(w, live, d);
    var ws := Writes(MessageParts(msgs));
    var env := Envelope(msgs);
    EnvelopeShapeOf(msgs);
    RunCons(w, live, d, ws + [Flush]);
    RunStopped(w1, live, ws, [Flush]);
    var k := Run(w1, live, ws).0;
    assert env[k + 1] == ws[k] && ws[k].Write? by {
      WritesAt(MessageParts(msgs));
    }
    assert env[..k + 1] == [d] + ws[..k];
  }

  /** With every message taken, the flush decides: taken, the whole
      envelope went; refused, all but the flush did. */
  lemma MessagesTaken(w: Writer, live: bool, msgs: seq<MessageLike>)
    requires |msgs| > 0 && Takes(w, live, Write(DELIMITER.Bytes()))
    requires var w1 := Step(w, live, Write(DELIMITER.Bytes()));
      Run(w1, live, Writes(MessageParts(msgs))).0 == |msgs|
    ensures var w1 := Step(w, live, Write(DELIMITER.Bytes()));
      var ws := Writes(MessageParts(msgs));
      var wn := Run(w1, live, ws).1;
      var env := Envelope(msgs);
      var k := if Takes(wn, live, Flush) then |env| else |env| - 1;
      && Run(w, live, env) == (k, Step(wn, live, Flush))
      && Outcome(w, live, env) == (if Takes(wn, live, Flush) then Ok(()) else Err(FlushFailed))
      && env[..k] == [Write(DELIMITER.Bytes())] + ws + (if Takes(wn, live, Flush) then [Flush] else [])
  {
    var d := Write(DELIMITER.Bytes());
    var w1 := Step(w, live, d);
    var ws := Writes(MessageParts(msgs));
    var env := Envelope(msgs);
    EnvelopeShapeOf(msgs);
    RunOneMore(w1, live, ws, Flush);
    assert env[..|env| - 1] == [d] + ws;
    assert env[..|env|] == [d] + ws + [Flush];
  }

  /** The loop and the last write of `sendMessages`, as one loop: the
      messages' writes handed over until the writer refuses one. */
  method WriteMessages<H>(conn: TransportConnection.Connection<H>, msgs: seq<MessageLike>) returns (r: Result<()>)
    requires |msgs| > 0
    modifies conn
    ensures var ws := Writes(MessageParts(msgs));
      var run := Run(old(conn.writer), conn.open, ws);
      && r == Outcome(old(conn.writer), conn.open, ws)
      && conn.out == old(conn.out) + ws[..run.0] && conn.writer == run.1
      && (r.Ok? ==> conn.fired == old(conn.fired) && conn.closeHandlers == old(conn.closeHandlers))
      && (r.Err? ==> r == Err(WriteFailed) && conn.fired == old(conn.fired) + old(conn.PendingHandlers())
                     && conn.PendingHandlers() == [])
    ensures conn.open == old(conn.open) && conn.reader == old(conn.reader) && conn.sig == old(conn.sig)
    ensures conn.major == old(conn.major) && conn.tags == old(conn.tags)
  {
    ghost var parts := MessageParts(msgs);
    ghost var ws := Writes(parts);
    ghost var w0 := conn.writer;
    WritesAt(parts);
    var i := 0;
    while i < |msgs|
      invariant 0 <= i <= |msgs|
      invariant Run(w0, conn.open, ws[..i]).0 == i && Run(w0, conn.open, ws[..i]).1 == conn.writer
      invariant conn.out == old(conn.out) + ws[..i]
      invariant conn.fired == old(conn.fired) && conn.closeHandlers == old(conn.closeHandlers)
      invariant conn.open == old(conn.open) && conn.reader == old(conn.reader) && conn.sig == old(conn.sig)
      invariant conn.major == old(conn.major) && conn.tags == old(conn.tags)
    {
      var w := WriteData(conn, msgs[i], i < |msgs| - 1);
      WriteTurn(w0, conn.open, ws, i, old(conn.out));
      if w.Err? {
        return w;
      }
      i := i + 1;
    }
    assert ws[..i] == ws;
    r := Ok(());
  }

  /** One turn of `sendMessages`' loop, the first `i` writes taken: a
      taken write extends the run by one, a refused one ends it. */
  lemma WriteTurn(w: Writer, live: bool, ws: seq<Event>, i: nat, before: seq<Event>)
    requires i < |ws| && Run(w, live, ws[..i]).0 == i && ws[i].Write?
    ensures var wi := Run(w, live, ws[..i]).1;
      && (Takes(wi, live, ws[i]) ==>
            Run(w, live, ws[..i + 1]) == (i + 1, Step(wi, live, ws[i]))
            && before + ws[..i + 1] == before + ws[..i] + [ws[i]])
      && (!Takes(wi, live, ws[i]) ==>
            Run(w, live, ws) == (i, Step(wi, live, ws[i])) && Outcome(w, live, ws) == Err(WriteFailed))
  {
    assert ws[..i] + [ws[i]] == ws[..i + 1];
    RunOneMore(w, live, ws[..i], ws[i]);
    if !Takes(Run(w, live, ws[..i]).1, live, ws[i]) {
      RunStopped(w, live, ws[..i + 1], ws[i + 1..]);
      assert ws[..i + 1] + ws[i + 1..] == ws;
    } else {
      EventsAssoc(before, ws[..i], [ws[i]]);
    }
  }

  /** One message built into a data frame and handed to `write`. */
  method WriteData<H>(conn: TransportConnection.Connection<H>, m: MessageLike, more: bool) returns (r: Result<()>)
    modifies conn
    ensures var e := Write(Part(more, m.Encoded()).Bytes());
      && conn.writer == Step(old(conn.writer), conn.open, e)
      && (r.Ok? <==> Takes(old(conn.writer), conn.open, e))
      && (r.Ok? ==> conn.out == old(conn.out) + [e] && conn.fired == old(conn.fired)
                    && conn.closeHandlers == old(conn.closeHandlers))
      && (r.Err? ==> r == Err(WriteFailed) && conn.out == old(conn.out)
                     && conn.fired == old(conn.fired) + old(conn.PendingHandlers()) && conn.PendingHandlers() == [])
    ensures conn.open == old(conn.open) && conn.reader == old(conn.reader) && conn.sig == old(conn.sig)
    ensures conn.major == old(conn.major) && conn.tags == old(conn.tags)
  {
    var f := ProtocolDataFrame.BuildMessage(m, more);
    var w := conn.Write(TransportConnection.FrameMessage(ProtoFrame.Frame(f.body)));
    r := if w.Ok? then Ok(()) else Err(w.error);
  }

  /** Writing one more part appends its write. */
  lemma {:induction false} WritesSnoc(ps: seq<Part>, k: nat)
    requires k < |ps|
    ensures Writes(ps[..k + 1]) == Writes(ps[..k]) + [Write(ps[k].Bytes())]
  {
    if k > 0 {
      var longer, shorter := ps[..k + 1][1..], ps[..k][1..];
      assert |longer| == k && |shorter| == k - 1;
      forall i | 0 <= i < k
        ensures longer[i] == ps[i + 1]
      {
      }
      forall i | 0 <= i < k - 1
        ensures shorter[i] == ps[i + 1]
      {
      }
      assert longer == ps[1..][..k];
      assert shorter == ps[1..][..k - 1];
      WritesSnoc(ps[1..], k - 1);
    }
  }

  /** An envelope of `n` messages is `n + 2` events: the delimiter, one
      write per message with MORE on all but the last, and a final flush. */
  lemma {:induction false} EnvelopeShape(msgs: seq<MessageLike>)
    requires |msgs| > 0
    ensures var e := Envelope(msgs);
      && |e| == |msgs| + 2
      && e[0] == Write(ProtoFrame.EMPTY_HAS_MORE.body)
      && e[|msgs| + 1] == Flush
      && forall k :: 1 <= k <= |msgs| ==>
           e[k] == Write(ProtocolDataFrame.DataFrameBytes(k < |msgs|, msgs[k - 1].Encoded()))
  {
    var ps := [DELIMITER] + MessageParts(msgs);
    WritesAt(ps);
    DelimiterIsEmptyHasMore();
  }

  /** The `k`-th write is the `k`-th part's bytes. */
  lemma {:induction false} WritesAt(ps: seq<Part>)
    ensures forall k :: 0 <= k < |ps| ==> Writes(ps)[k] == Write(ps[k].Bytes())
  {
    if ps != [] {
      WritesAt(ps[1..]);
    }
  }

  /** The bytes an envelope sends are its parts' frames, back to back. */
  lemma {:induction false} SentWrites(ps: seq<Part>, tail: seq<Event>)
    requires forall i :: 0 <= i < |tail| ==> !tail[i].Write?
    ensures Sent(Writes(ps) + tail) == Wire(ps)
  {
    if ps == [] {
      assert Writes(ps) + tail == tail;
      SentNoWrites(tail);
    } else {
      assert (Writes(ps) + tail)[1..] == Writes(ps[1..]) + tail;
      SentWrites(ps[1..], tail);
    }
  }

  lemma {:induction false} SentNoWrites(tail: seq<Event>)
    requires forall i :: 0 <= i < |tail| ==> !tail[i].Write?
    ensures Sent(tail) == []
  {
    if tail != [] {
      SentNoWrites(tail[1..]);
    }
  }

  /** The bytes on the wire for an envelope. */
  lemma EnvelopeWire(msgs: seq<MessageLike>)
    ensures Sent(Envelope(msgs)) == Wire([DELIMITER] + MessageParts(msgs))
  {
    SentWrites([DELIMITER] + MessageParts(msgs), [Flush]);
  }

  /** The `payload` getter on a frame read from a connection; `None` is the
      `RangeError` of a 64-bit read past the end. */
  function PayloadOf(f: ProtoFrame.Frame): Option<seq<byte>>
  {
    ProtocolDataFrame.DataFrame(f.body).Payload()
  }

  /** The getters never read past a frame that was read whole. */
  lemma {:induction false} WholeReadable(f: ProtoFrame.Frame)
    requires TransportConnection.Whole(f)
    ensures f.Size().Some? && PayloadOf(f).Some?
  {
  }

  /** The encodings of the messages, in order. */
  function Encodings(msgs: seq<MessageLike>): (es: seq<seq<byte>>)
    ensures |es| == |msgs| && forall i :: 0 <= i < |msgs| ==> es[i] == msgs[i].Encoded()
  {
    seq(|msgs|, i requires 0 <= i < |msgs| => msgs[i].Encoded())
  }

  /** Without its first message, the parts of the rest. */
  lemma PartsTail(msgs: seq<MessageLike>)
    requires |msgs| > 1
    ensures MessageParts(msgs)[1..] == MessageParts(msgs[1..])
  {
    var ps := MessageParts(msgs);
    assert forall i :: 0 <= i < |msgs| - 1 ==> ps[1..][i] == MessageParts(msgs[1..])[i];
  }

  lemma EncodingsCons(msgs: seq<MessageLike>)
    requires |msgs| > 0
    ensures Encodings(msgs) == [msgs[0].Encoded()] + Encodings(msgs[1..])
  {
    var es := [msgs[0].Encoded()] + Encodings(msgs[1..]);
    assert forall i :: 0 <= i < |msgs| ==> Encodings(msgs)[i] == es[i];
  }

  predicate AllShort(ps: seq<Part>)
  {
    forall i :: 0 <= i < |ps| ==> |ps[i].payload| <= 0xFF
  }

  function Frames(ps: seq<Part>): (fs: seq<ProtoFrame.Frame>)
    ensures |fs| == |ps|
    ensures forall i :: 0 <= i < |ps| ==> fs[i] == ProtoFrame.Frame(ps[i].Bytes())
  {
    seq(|ps|, i requires 0 <= i < |ps| => ProtoFrame.Frame(ps[i].Bytes()))
  }

  /**
   * Frames of at most 255 payload bytes written back to back are read back
   * by the connection as the same frames, one by one, and the stream then
   * ends with `EOFError`.
   */
  lemma {:induction false} ReadWire(before: seq<byte>, ps: seq<Part>)
    requires AllShort(ps)
    ensures TransportConnection.ReadAll(Reader(before + Wire(ps), |before|)) == (Frames(ps), EndOfFile)
    decreases |ps|
  {
    if ps == [] {
      ReadAtEnd(before);
    } else {
      var f := ps[0].Bytes();
      var rest := Wire(ps[1..]);
      assert before + Wire(ps) == before + f + rest by {
        Bytes.AppendAssoc(before, f, rest);
      }
      assert AllShort(ps[1..]) by {
        assert forall i :: 0 <= i < |ps| - 1 ==> ps[1..][i] == ps[i + 1];
      }
      ReadWire(before + f, ps[1..]);
      ReadBuiltPart(before, ps[0], rest);
      FramesCons(ps);
    }
  }

  lemma FramesCons(ps: seq<Part>)
    requires ps != []
    ensures Frames(ps) == [ProtoFrame.Frame(ps[0].Bytes())] + Frames(ps[1..])
  {
    var xs := [ProtoFrame.Frame(ps[0].Bytes())] + Frames(ps[1..]);
    assert |xs| == |ps|;
    forall i | 0 <= i < |ps|
      ensures Frames(ps)[i] == xs[i]
    {
      if i > 0 {
        assert xs[i] == Frames(ps[1..])[i - 1];
      }
    }
  }

  /** At the end of the stream there is no frame, only `EOFError`. */
  lemma ReadAtEnd(s: seq<byte>)
    ensures TransportConnection.ReadAll(Reader(s, |s|)) == ([], EndOfFile)
  {
    TransportConnection.ReadAllStep(Reader(s, |s|));
    assert Peek(Reader(s, |s|), 2) == None;
  }

  /** A built frame of a short part is read whole, and the reads go on right
      after it. */
  lemma ReadBuiltPart(before: seq<byte>, p: Part, rest: seq<byte>)
    requires |p.payload| <= 0xFF
    ensures var s := before + p.Bytes() + rest;
      var tail := TransportConnection.ReadAll(Reader(s, |before + p.Bytes()|));
      TransportConnection.ReadAll(Reader(s, |before|)) == ([ProtoFrame.Frame(p.Bytes())] + tail.0, tail.1)
  {
    var s := before + p.Bytes() + rest;
    TransportConnection.ReadAllStep(Reader(s, |before|));
    TransportConnection.ReadBuiltFrame(before, p.more, p.payload, rest);
  }

  /** Messages of at most 255 encoded bytes each. */
  predicate ShortMessages(msgs: seq<MessageLike>)
  {
    forall i :: 0 <= i < |msgs| ==> |msgs[i].Encoded()| <= 0xFF
  }

  /** The receiving connection reads the delimiter and then one frame per
      message, MORE on all but the last, each carrying its message. */
  lemma {:induction false} EnvelopeReadBack(msgs: seq<MessageLike>)
    requires |msgs| > 0 && ShortMessages(msgs)
    ensures var (fs, e) := TransportConnection.ReadAll(Reader(Sent(Envelope(msgs)), 0));
      && e == EndOfFile && |fs| == |msgs| + 1
      && fs[0] == ProtoFrame.EMPTY_HAS_MORE
      && forall k :: 1 <= k <= |msgs| ==>
           fs[k] == ProtoFrame.Frame(ProtocolDataFrame.DataFrameBytes(k < |msgs|, msgs[k - 1].Encoded()))
  {
    var ps := [DELIMITER] + MessageParts(msgs);
    EnvelopeWire(msgs);
    assert AllShort(ps);
    ReadWire([], ps);
    assert [] + Wire(ps) == Wire(ps);
    DelimiterIsEmptyHasMore();
  }

  /** What `iter` and `genChunk` read of a frame through a `DataFrame`: `more()`, the
      `size` getter and the `payload` getter, `None` where a getter throws
      `RangeError`. */
  datatype View = View(more: bool, size: Option<nat>, payload: Option<seq<byte>>)

  function ViewOf(f: ProtoFrame.Frame): View
  {
    View(f.More(), f.Size(), PayloadOf(f))
  }

  function Views(fs: seq<ProtoFrame.Frame>): (vs: seq<View>)
    ensures |vs| == |fs| && forall i :: 0 <= i < |fs| ==> vs[i] == ViewOf(fs[i])
  {
    seq(|fs|, i requires 0 <= i < |fs| => ViewOf(fs[i]))
  }

  /** A frame the connection read has a size and a payload. */
  predicate Readable(v: View)
  {
    v.size.Some? && v.payload.Some?
  }

  lemma ReadableFrames(fs: seq<ProtoFrame.Frame>)
    requires forall i :: 0 <= i < |fs| ==> TransportConnection.Whole(fs[i])
    ensures forall i :: 0 <= i < |fs| ==> Readable(Views(fs)[i])
  {
    forall i | 0 <= i < |fs|
      ensures Readable(Views(fs)[i])
    {
      WholeReadable(fs[i]);
    }
  }

  /** How `iter` and `genChunk` see the frame of a part: its MORE flag, its payload's
      length and its payload. */
  function PartView(p: Part): View
  {
    View(p.more, Some(|p.payload|), Some(p.payload))
  }

  /** How `iter` and `genChunk` see the frames of the parts. */
  function PartViews(ps: seq<Part>): (vs: seq<View>)
    ensures |vs| == |ps| && forall i :: 0 <= i < |ps| ==> vs[i] == PartView(ps[i])
  {
    seq(|ps|, i requires 0 <= i < |ps| => PartView(ps[i]))
  }

  /** Built frames of at most 255 payload bytes read back as their parts. */
  lemma {:induction false} BuiltViews(ps: seq<Part>)
    requires AllShort(ps)
    ensures Views(Frames(ps)) == PartViews(ps)
  {
    forall i | 0 <= i < |ps|
      ensures Views(Frames(ps))[i] == PartViews(ps)[i]
    {
      ProtocolDataFrame.SizeOfBuilt(ps[i].more, ps[i].payload);
      ProtocolDataFrame.ShortRoundTrip(ps[i].more, ps[i].payload);
    }
  }

  /** Built frames written back to back read back, through the readers' eyes,
      as their parts, and the stream then ends with `EOFError`. */
  lemma {:induction false} ReadViews(before: seq<byte>, ps: seq<Part>)
    requires AllShort(ps)
    ensures var (fs, e) := TransportConnection.ReadAll(Reader(before + Wire(ps), |before|));
      e == EndOfFile && Views(fs) == PartViews(ps)
  {
    ReadWire(before, ps);
    BuiltViews(ps);
  }
}
