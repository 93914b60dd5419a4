/**
 * The stream collaborators of a connection: a buffered reader seen as the
 * bytes the peer sends plus the position of the next unread byte, and a
 * buffered writer (`BufWriter` of the Deno standard library, 0.84) seen as
 * how full its buffer is and whether an error has stuck to it.
 */
module Io {
  import opened Bytes
  import opened Results
  import Buffer

  datatype Reader = Reader(stream: seq<byte>, pos: nat)
  {
    predicate Valid()
    {
      pos <= |stream|
    }
  }

  /** One effect on the writer side of a connection. */
  datatype Event = Write(bytes: seq<byte>) | Flush | Close

  lemma EventsAssoc(a: seq<Event>, b: seq<Event>, c: seq<Event>)
    ensures a + b + c == a + (b + c)
  {
  }

  /** `BufWriter`'s default buffer size. */
  const BUF_SIZE: nat := 4096

  /**
   * A `BufWriter`: how many bytes its buffer holds, and whether a write to
   * the underlying connection has failed. The writer keeps that error and
   * throws it from every later `write` and `flush`.
   */
  datatype Writer = Writer(used: nat, failed: bool)
  {
    predicate Valid()
    {
      used <= BUF_SIZE
    }
  }

  /** A new writer: an empty buffer and no error. */
  const FRESH: Writer := Writer(0, false)

  /**
   * Whether the writer takes `e`, `live` saying whether the underlying
   * connection still takes bytes. Only writing to the connection can fail:
   * a write that fits in the buffer and a flush of an empty buffer never
   * touch it. A stuck error refuses everything. A close is not the
   * writer's.
   */
  predicate Takes(w: Writer, live: bool, e: Event)
  {
    match e
    case Write(b) => !w.failed && (|b| == 0 || w.used + |b| <= BUF_SIZE || live)
    case Flush => !w.failed && (w.used == 0 || live)
    case Close => true
  }

  /**
   * The writer after `e`, taken or refused. A write that does not fit
   * fills the buffer and flushes it, or, with the buffer empty, goes to the
   * connection directly; what is left after that is buffered when it fits
   * and written directly when not. A refused write or flush keeps its
   * error, and a failed flush keeps its bytes.
   */
  function Step(w: Writer, live: bool, e: Event): (w': Writer)
    ensures w.Valid() ==> w'.Valid()
  {
    match e
    case Write(b) =>
      if w.failed || |b| == 0 then w
      else if w.used + |b| <= BUF_SIZE then Writer(w.used + |b|, false)
      else if !live then Writer(if w.used == 0 then 0 else BUF_SIZE, true)
      else if w.used == 0 then w
      else if w.used + |b| - BUF_SIZE > BUF_SIZE then Writer(0, false)
      else Writer(w.used + |b| - BUF_SIZE, false)
    case Flush =>
      if w.failed || w.used == 0 then w
      else if live then Writer(0, false)
      else Writer(w.used, true)
    case Close => w
  }

  /** The events of `es` handed to the writer one after the other until it
      refuses one: how many it took, and the writer after the last one
      handed over. */
  function Run(w: Writer, live: bool, es: seq<Event>): (r: (nat, Writer))
    ensures r.0 <= |es|
    ensures w.Valid() ==> r.1.Valid()
    decreases |es|
  {
    if es == [] then (0, w)
    else if !Takes(w, live, es[0]) then (0, Step(w, live, es[0]))
    else
      var (k, w') := Run(Step(w, live, es[0]), live, es[1..]);
      (k + 1, w')
  }

  /** The error a refused event is reported with. */
  function Refusal(e: Event): Error
  {
    if e.Flush? then FlushFailed else WriteFailed
  }

  /** The outcome of handing `es` over until one is refused. */
  function Outcome(w: Writer, live: bool, es: seq<Event>): (r: Result<()>)
    ensures r.Ok? <==> Run(w, live, es).0 == |es|
  {
    var (k, _) := Run(w, live, es);
    if k == |es| then Ok(()) else Err(Refusal(es[k]))
  }

  /** Only the writer's own events, no close. */
  predicate WriterEvents(es: seq<Event>)
  {
    forall i :: 0 <= i < |es| ==> !es[i].Close?
  }

  /** The error sticks: once a write or flush has failed, every later write
      and flush fails too, and the writer stays as it is. */
  lemma StickyError(w: Writer, live: bool, e: Event)
    requires w.failed && !e.Close?
    ensures !Takes(w, live, e) && Step(w, live, e) == w
  {
  }

  /** A writer with no error refuses only when the connection is gone, and
      from then on keeps the error; what it takes leaves it healthy. */
  lemma RefusedOnlyWhenDead(w: Writer, live: bool, e: Event)
    requires !w.failed && !e.Close?
    ensures !Takes(w, live, e) ==> !live && Step(w, live, e).failed
    ensures Takes(w, live, e) ==> !Step(w, live, e).failed
  {
  }

  /** On a live connection the writer takes everything, and a flush leaves
      its buffer empty. */
  lemma {:induction false} LiveTakesAll(w: Writer, es: seq<Event>)
    requires !w.failed
    ensures Run(w, true, es).0 == |es| && !Run(w, true, es).1.failed
    ensures es != [] && es[|es| - 1] == Flush ==> Run(w, true, es).1 == FRESH
    decreases |es|
  {
    if es != [] {
      LiveTakesAll(Step(w, true, es[0]), es[1..]);
      if |es| == 1 && es[0] == Flush {
        assert Run(w, true, es).1 == Step(w, true, Flush);
      } else if es[|es| - 1] == Flush {
        assert es[1..][|es[1..]| - 1] == Flush;
      }
    }
  }

  /** On a connection that is gone, the bytes written stay in the buffer:
      a taken write adds its length, and a flush with anything buffered
      fails. */
  lemma DeadBuffers(w: Writer, b: seq<byte>)
    requires !w.failed
    ensures Takes(w, false, Write(b)) ==> Step(w, false, Write(b)) == Writer(w.used + |b|, false)
    ensures w.used > 0 ==> !Takes(w, false, Flush) && Step(w, false, Flush) == Writer(w.used, true)
  {
  }

  /** Bytes written and then flushed never all get through to a connection
      that is gone: one of the writes or the flush is refused. */
  lemma {:induction false} DeadNeverFlushes(w: Writer, es: seq<Event>)
    requires !w.failed && WriterEvents(es) && es != [] && es[|es| - 1] == Flush
    requires w.used > 0 || exists i :: 0 <= i < |es| && es[i].Write? && es[i].bytes != []
    ensures Run(w, false, es).0 < |es|
    decreases |es|
  {
    var e := es[0];
    if Takes(w, false, e) {
      var w' := Step(w, false, e);
      if |es| == 1 {
        assert false;
      } else {
        assert !w'.failed && es[1..][|es[1..]| - 1] == Flush && WriterEvents(es[1..]);
        if w.used == 0 && !(exists i :: 0 <= i < |es[1..]| && es[1..][i].Write? && es[1..][i].bytes != []) {
          var i :| 0 <= i < |es| && es[i].Write? && es[i].bytes != [];
          assert i == 0 && w'.used == |e.bytes| > 0;
        }
        DeadNeverFlushes(w', es[1..]);
      }
    }
  }

  /** Handing over `a` and then `b`: once one event of `a` is refused,
      nothing of `b` is handed over; otherwise `b` starts from the writer
      `a` left. */
  lemma {:induction false} RunAppend(w: Writer, live: bool, a: seq<Event>, b: seq<Event>)
    ensures var ra := Run(w, live, a);
      Run(w, live, a + b) ==
        if ra.0 < |a| then ra else (|a| + Run(ra.1, live, b).0, Run(ra.1, live, b).1)
    decreases |a|
  {
    if a == [] {
      assert a + b == b;
    } else {
      assert (a + b)[0] == a[0] && (a + b)[1..] == a[1..] + b;
      RunAppend(Step(w, live, a[0]), live, a[1..], b);
    }
  }

  /** Handing over `e` first: refused, it ends the run with its error;
      taken, the rest starts from the writer it left. */
  lemma RunCons(w: Writer, live: bool, e: Event, es: seq<Event>)
    ensures var w1 := Step(w, live, e);
      Run(w, live, [e] + es) ==
        if !Takes(w, live, e) then (0, w1) else (1 + Run(w1, live, es).0, Run(w1, live, es).1)
    ensures Outcome(w, live, [e] + es) ==
      if !Takes(w, live, e) then Err(Refusal(e)) else Outcome(Step(w, live, e), live, es)
  {
    var s := [e] + es;
    assert s[0] == e && s[1..] == es;
    var w1 := Step(w, live, e);
    if Takes(w, live, e) && Run(w1, live, es).0 < |es| {
      assert s[Run(w1, live, es).0 + 1] == es[Run(w1, live, es).0];
    }
  }

  /** One more event after all of `a` was taken. */
  lemma RunOneMore(w: Writer, live: bool, a: seq<Event>, e: Event)
    requires Run(w, live, a).0 == |a|
    ensures var w' := Run(w, live, a).1;
      Run(w, live, a + [e]) == (if Takes(w', live, e) then |a| + 1 else |a|, Step(w', live, e))
  {
    RunAppend(w, live, a, [e]);
  }

  /** Once an event of `a` is refused, what follows is never handed over. */
  lemma RunStopped(w: Writer, live: bool, a: seq<Event>, b: seq<Event>)
    requires Run(w, live, a).0 < |a|
    ensures Run(w, live, a + b) == Run(w, live, a)
  {
    RunAppend(w, live, a, b);
  }

  /**
   * `peek(n)`: the next `n` bytes, not consumed; `None` (the reader's `null`)
   * when the stream ends first.
   */
  function Peek(r: Reader, n: nat): (p: Option<seq<byte>>)
    requires r.Valid()
    ensures p.Some? ==> |p.value| == n
  {
    if r.pos + n <= |r.stream| then Some(r.stream[r.pos..r.pos + n]) else None
  }

  /**
   * `readFull` of an `n`-byte array: a zero-length read succeeds at once,
   * a stream already at its end gives `null` (reported by the callers as
   * `EOFError`), a stream that ends part way through fails.
   */
  function ReadFull(r: Reader, n: nat): (res: Result<seq<byte>>)
    requires r.Valid()
    ensures res.Ok? ==> |res.value| == n
    ensures res.Err? ==> res.error == EndOfFile || res.error == PartialRead
  {
    if n == 0 then Ok([])
    else if r.pos == |r.stream| then Err(EndOfFile)
    else if r.pos + n > |r.stream| then Err(PartialRead)
    else Ok(r.stream[r.pos..r.pos + n])
  }

  /** The reader after `readFull(n)`, whether or not it succeeded. */
  function Advance(r: Reader, n: nat): (r': Reader)
    requires r.Valid()
    ensures r'.Valid() && r'.stream == r.stream
  {
    Reader(r.stream, if r.pos + n <= |r.stream| then r.pos + n else |r.stream|)
  }

  /**
   * The array `peek(n)` returns, as a view: `n` bytes of the reader's buffer
   * at the read position. Its `.buffer` is the reader's whole buffer, taken
   * to hold the stream from its first byte on.
   */
  function PeekView(r: Reader, n: nat): (v: Buffer.View)
    requires r.Valid() && r.pos + n <= |r.stream|
    ensures v.Valid() && Peek(r, n) == Some(v.Bytes())
    ensures v.backing == r.stream
  {
    Buffer.View(r.stream, r.pos, n)
  }
}
