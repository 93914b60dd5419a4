/** proto/frame.ts: the flag bits and the getters of a received or built frame. */
module ProtoFrame {
  import opened Bytes
  import opened Results
  import Buffer

  const FLAG_COMMAND := 4
  const FLAG_LONG := 2
  const FLAG_MORE := 1

  datatype FrameType = Command | Message

  /** A frame: its bytes, flags first. */
  datatype Frame = Frame(body: seq<byte>)
  {
    /** Byte 0; on an empty body `body[0]` is `undefined`, which every flag
        test reads as 0. */
    function Flags(): byte
    {
      if |body| > 0 then body[0] else 0
    }

    predicate IsLong()
    {
      HasFlag(Flags(), FLAG_LONG)
    }

    /** `size`: byte 1, or the 64-bit big-endian number at byte 1 when LONG
        is set; `None` where the source reads past the end. */
    function Size(): (r: Option<nat>)
      ensures !IsLong() ==> (r.Some? <==> |body| >= 2)
      ensures IsLong() ==> (r.Some? <==> |body| >= 9)
      ensures r.Some? && !IsLong() ==> r.value == body[1] < 256
      ensures r.Some? && IsLong() ==> r.value == BigEndian(body[1..9])
    {
      var dec := Buffer.Whole(body);
      if IsLong() then Buffer.ReadUint64(dec, 1)
      else match Buffer.ReadByte(dec, 1)
        case Some(b) => Some(b as nat)
        case None => None
    }

    function Type(): FrameType
    {
      if HasFlag(Flags(), FLAG_COMMAND) then Command else Message
    }

    function PayloadOffset(): nat
    {
      1 + (if IsLong() then 8 else 1)
    }

    predicate More()
    {
      HasFlag(Flags(), FLAG_MORE)
    }

    function Bytes(): seq<byte>
    {
      body
    }
  }

  /** `EMPTY_HAS_MORE`: the empty MORE frame used as the envelope delimiter. */
  const EMPTY_HAS_MORE: Frame := Frame([FLAG_MORE, 0])

  /** The delimiter is a MORE message frame of size 0, two bytes long. */
  lemma EmptyHasMoreShape()
    ensures |EMPTY_HAS_MORE.body| == 2
    ensures EMPTY_HAS_MORE.More() && !EMPTY_HAS_MORE.IsLong()
    ensures EMPTY_HAS_MORE.Size() == Some(0)
    ensures EMPTY_HAS_MORE.Type() == Message
  {
  }

  /** The three flag tests look at three distinct bits of byte 0: a flags
      byte is determined below 8 by which of them are set. */
  lemma FlagBits(f: byte)
    requires f < 8
    ensures f == (if HasFlag(f, FLAG_MORE) then 1 else 0) + (if HasFlag(f, FLAG_LONG) then 2 else 0)
                 + (if HasFlag(f, FLAG_COMMAND) then 4 else 0)
  {
  }
}
