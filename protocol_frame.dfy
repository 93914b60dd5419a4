/**
 * protocol/frame.ts: the earlier draft of the framing layer, with a
 * constant greeting, frames read as commands, and command names decoded as
 * UTF-8.
 */
module ProtocolFrame {
  import opened Bytes
  import Text
  import ProtoGreeting
  import ProtoFrame
  import ProtoCommand
  import ProtoReady

  const FLAG_COMMAND := 4
  const FLAG_LONG := 2
  const FLAG_MORE := 1

  const GREETING_SIZE: nat := 64

  /** The bytes of "NULL". */
  const NULL_NAME: seq<byte> := [0x4E, 0x55, 0x4C, 0x4C]

  /** A greeting as received or as `defaultValue` builds it. */
  datatype Greeting = Greeting(body: seq<byte>)
  {
    predicate Valid()
    {
      |body| == GREETING_SIZE
    }

    function Bytes(): seq<byte>
    {
      body
    }

    /** `signature`: bytes 0-9 (fewer if the body is shorter). */
    function Signature(): (s: seq<byte>)
      ensures |s| == if |body| < 10 then |body| else 10
      ensures s <= body
    {
      if |body| < 10 then body else body[..10]
    }

    function Version(): (byte, byte)
      requires Valid()
    {
      (body[10], body[11])
    }

    /** `securityMechism`: the whole 20-byte mechanism field. */
    function SecurityMechism(): (s: seq<byte>)
      requires Valid()
      ensures |s| == 20
    {
      body[12..32]
    }

    /** `isServer`: any non-zero byte 32 counts. */
    predicate IsServer()
      requires Valid()
    {
      body[32] != 0
    }
  }

  /**
   * `defaultValue`: a zeroed 64-byte array with the signature bytes, major
   * version 3, "NULL" at 12 and the server byte set; it is the layout the
   * later builder produces for version 3.0, NULL, as server.
   */
  method DefaultValue() returns (g: Greeting)
    ensures g.Valid()
    ensures g.body == ProtoGreeting.GreetingBytes(3, 0, ProtoGreeting.MechanismField(ProtoGreeting.NULL), true)
  {
    var b := new byte[GREETING_SIZE](_ => 0);
    assert b[..] == ProtoGreeting.Zeros(ProtoGreeting.SIZE);
    b[0] := 0xFF;
    b[8] := 0x01;
    b[9] := 0x7F;
    b[10] := 0x03;
    ghost var fixed := b[..];
    assert fixed == ProtoGreeting.Zeros(ProtoGreeting.SIZE)[0 := 0xFF][8 := 0x01][9 := 0x7F][10 := 3 % 256][11 := 0 % 256];
    b[12] := 0x4E;
    b[13] := 0x55;
    b[14] := 0x4C;
    b[15] := 0x4C;
    ghost var named := b[..];
    assert named == fixed[..12] + NULL_NAME + fixed[16..];
    b[32] := 0x01;
    g := Greeting(b[..]);
    ProtoGreeting.Layout(fixed, named, g.body, 3, 0, NULL_NAME, true);
    ProtoGreeting.NameBytes("NULL", NULL_NAME);
  }

  /** What the getters of the default greeting return. */
  lemma DefaultGetters(g: Greeting)
    requires g.body == ProtoGreeting.GreetingBytes(3, 0, NULL_NAME, true)
    ensures g.Valid()
    ensures g.Signature() == ProtoGreeting.SIGNATURE
    ensures g.Version() == (3, 0)
    ensures g.SecurityMechism() == NULL_NAME + ProtoGreeting.Zeros(16)
    ensures g.IsServer()
  {
    ProtoGreeting.LayoutIndices(3, 0, NULL_NAME, true);
    assert g.SecurityMechism() == g.body[12..16] + g.body[16..32];
  }

  datatype FrameType = Command | Message

  /** A frame of this draft: its bytes, flags first. */
  datatype Frame = Frame(body: seq<byte>)
  {
    /** Byte 0, read as 0 by the flag tests when the body is empty. */
    function Flags(): byte
    {
      if |body| > 0 then body[0] else 0
    }

    function Bytes(): seq<byte>
    {
      body
    }

    function Type(): FrameType
    {
      if HasFlag(Flags(), FLAG_COMMAND) then Command else Message
    }

    predicate IsLong()
    {
      HasFlag(Flags(), FLAG_LONG)
    }

    predicate IsMore()
    {
      HasFlag(Flags(), FLAG_MORE)
    }

    function PayloadOffset(): nat
    {
      1 + (if IsLong() then 8 else 1)
    }

    /** `decodeAsCommand`: the bytes from the payload offset on (none when
        the body is shorter). */
    function DecodeAsCommand(): (c: CommandBody)
      ensures PayloadOffset() <= |body| ==> c.body == body[PayloadOffset()..]
      ensures PayloadOffset() > |body| ==> c.body == []
    {
      var offset := PayloadOffset();
      CommandBody(if offset <= |body| then body[offset..] else [])
    }
  }

  /** A `Command`: the bytes of a command frame after its size. */
  datatype CommandBody = CommandBody(body: seq<byte>)
  {
    /**
     * `name`: the length at byte 0 and that many following bytes (clamped to
     * the body) through the UTF-8 decoder; an empty body has an undefined
     * length, and `subarray(1, NaN)` is empty.
     */
    function Name(): string
    {
      if body == [] then ""
      else
        var end := if 1 + body[0] <= |body| then 1 + body[0] else |body|;
        Text.Decode(body[1..end])
    }
  }

  /** The name of a command frame is the `body[off]` bytes following the
      length byte at the payload offset, offset 2 or 9. */
  lemma {:induction false} CommandNameAt(f: Frame)
    ensures f.PayloadOffset() == if f.IsLong() then 9 else 2
    ensures var off := f.PayloadOffset();
            off < |f.body| && off + 1 + f.body[off] <= |f.body| ==>
              f.DecodeAsCommand().Name() == Text.Decode(f.body[off + 1..off + 1 + f.body[off]])
    ensures |f.body| <= f.PayloadOffset() ==> f.DecodeAsCommand().Name() == ""
  {
    var off := f.PayloadOffset();
    if off < |f.body| && off + 1 + f.body[off] <= |f.body| {
      var c := f.DecodeAsCommand();
      assert c.body[0] == f.body[off];
      assert c.body[1..1 + c.body[0]] == f.body[off + 1..off + 1 + f.body[off]];
    }
  }

  /** The two drafts read the same flags: type, LONG, MORE and the payload
      offset agree on every body. */
  lemma FlagsAgree(body: seq<byte>)
    ensures var f, g := Frame(body), ProtoFrame.Frame(body);
      && (f.Type() == Command <==> g.Type() == ProtoFrame.Command)
      && (f.IsLong() <==> g.IsLong())
      && (f.IsMore() <==> g.More())
      && f.PayloadOffset() == g.PayloadOffset()
  {
  }

  /** On ASCII name bytes the two drafts decode the same command name (one
      decodes UTF-8, the other one byte per character). */
  lemma {:induction false} NamesAgree(body: seq<byte>)
    requires forall i :: 0 <= i < |body| ==> body[i] < 0x80
    ensures Frame(body).DecodeAsCommand().Name() == ProtoCommand.Name(ProtoFrame.Frame(body))
  {
    var f := Frame(body);
    var off := f.PayloadOffset();
    if off < |body| {
      var size := body[off];
      var end := if off + 1 + size <= |body| then off + 1 + size else |body|;
      var c := f.DecodeAsCommand();
      assert c.body == body[off..];
      assert c.body[1..end - off] == body[off + 1..end] by {
        assert |c.body| == |body| - off;
        forall i | 1 <= i < end - off
          ensures c.body[i] == body[off + i]
        {
        }
      }
      Text.AsciiDecodeOfAscii(body[off + 1..end]);
    }
  }

  /** A READY frame built by the later draft is a command named "READY" in
      this draft too. */
  lemma {:induction false} ReadyIsReady(m: seq<string>)
    ensures var f := Frame(ProtoReady.ReadyBytes(m));
      f.Type() == Command && f.DecodeAsCommand().Name() == "READY"
  {
    var body := ProtoReady.ReadyBytes(m);
    ProtoReady.ReadyNameBytes(m);
    assert body[..8] == ProtoReady.Header(m);
    assert body[0] == 4 && body[2] == 5;
    assert body[3..8] == Text.Encode(ProtoReady.READY);
    FiveByteName(body);
    Text.DecodeEncode(ProtoReady.READY);
  }

  /** A short command frame whose name length byte is 5 is named by bytes 3-7. */
  lemma FiveByteName(body: seq<byte>)
    requires |body| >= 8 && body[0] == 4 && body[2] == 5
    ensures Frame(body).Type() == Command
    ensures Frame(body).DecodeAsCommand().Name() == Text.Decode(body[3..8])
  {
    CommandNameAt(Frame(body));
  }
}
