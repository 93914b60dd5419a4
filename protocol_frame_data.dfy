/**
 * protocol/frame_data.ts: message frames of the earlier draft, built from a
 * payload and a MORE flag and read back by the `payload` getter.
 */
module ProtocolDataFrame {
  import opened Bytes
  import opened Results
  import Text
  import Buffer
  import ProtoFrame
  import opened ProtocolFrame

  /** `Uint8Array | string`: what a payload or a message may be given as. */
  datatype MessageLike = Raw(bytes: seq<byte>) | Str(text: string)
  {
    /** The bytes sent: a string goes through the UTF-8 encoder. */
    function Encoded(): seq<byte>
    {
      match this
      case Raw(b) => b
      case Str(s) => Text.Encode(s)
    }
  }

  /** The flags byte `build` computes: MORE when asked for, LONG for a payload
      longer than 255 bytes, never COMMAND. */
  function DataFlags(more: bool, len: nat): byte
  {
    (if more then FLAG_MORE else 0) + (if len > 0xFF then FLAG_LONG else 0)
  }

  /** The flags byte has exactly the bits asked for. */
  lemma DataFlagsBits(more: bool, len: nat)
    ensures HasFlag(DataFlags(more, len), FLAG_MORE) <==> more
    ensures HasFlag(DataFlags(more, len), FLAG_LONG) <==> len > 0xFF
    ensures !HasFlag(DataFlags(more, len), FLAG_COMMAND)
  {
    var f := DataFlags(more, len);
    assert f == 0 || f == 1 || f == 2 || f == 3;
  }

  /**
   * The bytes of a built frame: the flags, then the length as one byte or,
   * above 255, as a big-endian 64-bit number, then the payload.
   */
  function DataFrameBytes(more: bool, p: seq<byte>): seq<byte>
  {
    [DataFlags(more, |p|)] + LengthHeader(|p|) + p
  }

  /** The length as one byte, or above 255 as eight big-endian bytes. */
  function LengthHeader(len: nat): seq<byte>
  {
    if len > 0xFF then ToBigEndian(len, 8) else [len]
  }

  /** A message frame, with the `payload` getter. */
  datatype DataFrame = DataFrame(body: seq<byte>)
  {
    function AsFrame(): Frame
    {
      Frame(body)
    }

    /**
     * `payload`: the length at byte 1, as a byte or (LONG) as a 64-bit
     * number, then that many bytes (clamped) from the offset after it; the
     * LONG offset moves only 4 bytes past the 64-bit length. A missing length
     * byte is `undefined` and gives an empty subarray; a 64-bit read past the
     * end is a `RangeError` (`None`).
     */
    function Payload(): (r: Option<seq<byte>>)
      ensures !AsFrame().IsLong() ==> r.Some?
      ensures AsFrame().IsLong() ==> (r.Some? <==> |body| >= 9)
    {
      var dec := Buffer.Whole(body);
      if AsFrame().IsLong() then
        match Buffer.ReadUint64(dec, 1)
        case Some(n) => Some(Buffer.ReadUint8Array(dec, n, 1 + 4))
        case None => None
      else
        match Buffer.ReadByte(dec, 1)
        case Some(n) => Some(Buffer.ReadUint8Array(dec, n, 1 + 1))
        case None => Some([])
    }
  }

  /** `DataBuilder`: not MORE and no payload until set. */
  class DataBuilder {
    var more: bool
    var data: Option<seq<byte>>

    constructor ()
      ensures !more && data == None
    {
      more := false;
      data := None;
    }

    /** `payload(data)`: kept as given, or UTF-8 encoded when a string. */
    method Payload(d: MessageLike)
      modifies this
      ensures data == Some(d.Encoded()) && more == old(more)
    {
      match d
      case Raw(b) => data := Some(b);
      case Str(s) => data := Some(Text.Encode(s));
    }

    /** `hasMore(more = true)`; callers that pass no argument pass `true`. */
    method HasMore(more: bool)
      modifies this
      ensures this.more == more && data == old(data)
    {
      this.more := more;
    }

    /** The payload length `build` uses: 0 when none was set. */
    function Length(): nat
      reads this
    {
      if data.Some? then |data.value| else 0
    }

    /** `build`: an encoder sized for the header and the payload, the
        header, then the payload when there is one. */
    method Build() returns (f: DataFrame)
      ensures f.body == DataFrameBytes(more, if data.Some? then data.value else [])
    {
      var len := Length();
      var enc := StartFrame(more, len);
      if len > 0 {
        enc.WriteUint8Array(data.value);
      }
      var bytes := enc.Freeze();
      f := DataFrame(bytes);
    }
  }

  /** The first half of `build`: the flags and the length written into a
      fresh encoder with room for `len` more bytes. */
  method StartFrame(more: bool, len: nat) returns (enc: Buffer.Encoder)
    ensures fresh(enc) && fresh(enc.buf) && enc.Valid()
    ensures enc.buf.Length == enc.cursor + len
    ensures enc.Written() == [DataFlags(more, len)] + LengthHeader(len)
  {
    var flag := 0;
    if more {
      flag := flag + FLAG_MORE;
    }
    if len > 0xFF {
      flag := flag + FLAG_LONG;
      enc := new Buffer.Encoder(1 + 8 + len);
      enc.WriteByte(flag);
      assert enc.Written() == [flag];
      enc.WriteUint64(len);
    } else {
      enc := new Buffer.Encoder(1 + 1 + len);
      enc.WriteByte(flag);
      assert enc.Written() == [flag];
      enc.WriteByte(len);
    }
  }

  /** The flags and the length header of a built frame: MORE iff asked for,
      LONG iff the payload exceeds 255 bytes, a message frame, `2 + len` or
      `9 + len` bytes with the length at byte 1. */
  lemma {:induction false} BuiltShape(more: bool, p: seq<byte>)
    ensures var f := Frame(DataFrameBytes(more, p));
      && (f.IsMore() <==> more)
      && (f.IsLong() <==> |p| > 0xFF)
      && f.Type() == Message
      && (|p| <= 0xFF ==> |f.body| == 2 + |p| && f.body[1] == |p|)
      && (|p| > 0xFF ==> |f.body| == 9 + |p| && BigEndian(f.body[1..9]) == |p| % MAX_LENGTH)
      && f.body[f.PayloadOffset()..] == p
  {
    var b := DataFrameBytes(more, p);
    assert b[0] == DataFlags(more, |p|);
    DataFlagsBits(more, |p|);
    if |p| > 0xFF {
      assert b[1..9] == ToBigEndian(|p|, 8);
      assert b[9..] == p;
      BigEndianOfToBigEndian(|p|, 8);
      Pow256Values();
    } else {
      assert b[2..] == p;
    }
  }

  /** 2^64: the 64-bit length field holds lengths below it (a typed array
      is far shorter). */
  const MAX_LENGTH: nat := 0x1_0000_0000_0000_0000

  /** A frame of at most 255 payload bytes reads back its payload. */
  lemma {:induction false} ShortRoundTrip(more: bool, p: seq<byte>)
    requires |p| <= 0xFF
    ensures DataFrame(DataFrameBytes(more, p)).Payload() == Some(p)
  {
    BuiltShape(more, p);
  }

  /**
   * On a LONG frame the getter starts reading 4 bytes too early: it returns
   * the low half of the 64-bit length followed by all but the last 4 payload
   * bytes.
   */
  lemma {:induction false} LongPayloadAsWritten(more: bool, p: seq<byte>)
    requires 0xFF < |p| < MAX_LENGTH
    ensures DataFrame(DataFrameBytes(more, p)).Payload()
              == Some(ToBigEndian(|p|, 8)[4..] + p[..|p| - 4])
  {
    var b := DataFrameBytes(more, p);
    LongLayout(more, p);
    Pow256Values();
    BigEndianRoundTrip(|p|, 8);
    var dec := Buffer.Whole(b);
    assert Frame(b).IsLong();
    assert Buffer.ReadUint64(dec, 1) == Some(|p|);
    assert Buffer.ReadUint8Array(dec, |p|, 5) == b[5..5 + |p|];
    assert b[5..5 + |p|] == b[5..9] + b[9..5 + |p|];
    assert b[9..5 + |p|] == p[..|p| - 4];
  }

  /** Where the parts of a LONG frame sit. */
  lemma {:induction false} LongLayout(more: bool, p: seq<byte>)
    requires |p| > 0xFF
    ensures var b := DataFrameBytes(more, p);
      && |b| == 9 + |p| && b[0] == DataFlags(more, |p|)
      && b[1..9] == ToBigEndian(|p|, 8) && b[5..9] == ToBigEndian(|p|, 8)[4..]
      && b[9..] == p
  {
  }

  /** For example, 256 bytes of 0xAA come back starting with a zero byte. */
  lemma LongPayloadDiffers()
    ensures var p := seq(256, _ => 0xAA);
      DataFrame(DataFrameBytes(false, p)).Payload() != Some(p)
  {
    var p: seq<byte> := seq(256, _ => 0xAA);
    LongPayloadAsWritten(false, p);
    assert ToBigEndian(256, 8) == [0, 0, 0, 0, 0, 0, 1, 0];
    assert p[0] == 0xAA;
  }

  /** The later draft's `size` getter reads the length this builder wrote,
      short or LONG, and its `more` agrees. */
  lemma {:induction false} SizeOfBuilt(more: bool, p: seq<byte>)
    requires |p| < MAX_LENGTH
    ensures var g := ProtoFrame.Frame(DataFrameBytes(more, p));
      g.Size() == Some(|p|) && (g.More() <==> more) && g.Type() == ProtoFrame.Message
  {
    var b := DataFrameBytes(more, p);
    assert b[0] == DataFlags(more, |p|);
    DataFlagsBits(more, |p|);
    if |p| > 0xFF {
      LongLayout(more, p);
      Pow256Values();
      BigEndianRoundTrip(|p|, 8);
      assert ProtoFrame.Frame(b).IsLong();
    } else {
      assert b[1] == |p|;
    }
  }

  /** A fresh builder given a payload and `hasMore()` builds the frame of that
      payload with MORE set; a string payload is sent UTF-8 encoded. */
  method BuildMessage(d: MessageLike, more: bool) returns (f: DataFrame)
    ensures f.body == DataFrameBytes(more, d.Encoded())
    ensures f.AsFrame().IsMore() <==> more
  {
    var builder := new DataBuilder();
    builder.Payload(d);
    builder.HasMore(more);
    f := builder.Build();
    BuiltShape(more, d.Encoded());
  }
}
