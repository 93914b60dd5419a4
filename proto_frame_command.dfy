/** proto/frame_command.ts: command names and the name of a command frame. */
module ProtoCommand {
  import opened Bytes
  import opened Results
  import Text
  import opened ProtoFrame

  /** The `CommandName` enumeration. */
  datatype CommandName = Ready | Error
  {
    function Text(): string
    {
      match this
      case Ready => "READY"
      case Error => "ERROR"
    }
  }

  /** The enumeration member whose text is `s`, if any. */
  function ParseCommandName(s: string): (r: Option<CommandName>)
    ensures r.Some? ==> r.value.Text() == s
  {
    if s == "READY" then Some(Ready) else if s == "ERROR" then Some(Error) else None
  }

  /** Every name parses back, so the enumeration has exactly these two
      members with distinct texts. */
  lemma CommandNameRoundTrip(n: CommandName)
    ensures ParseCommandName(n.Text()) == Some(n)
  {
  }

  /**
   * `CommandFrame.name`: the length byte at the payload offset, then that many
   * bytes through the ASCII decoder. A missing length byte is `undefined`, and
   * `subarray(offset, NaN)` is empty.
   */
  function Name(f: Frame): string
  {
    var offset := f.PayloadOffset();
    if offset < |f.body| then
      var size := f.body[offset];
      var start := offset + 1;
      var end := if start + size <= |f.body| then start + size else |f.body|;
      Text.AsciiDecode(f.body[if start <= end then start else end..end])
    else ""
  }

  /** The name is read at byte 3 (length at byte 2) of a short frame and at
      byte 10 (length at byte 9) of a LONG frame: 7 bytes further on. */
  lemma NamePosition(f: Frame)
    ensures f.PayloadOffset() == if f.IsLong() then 9 else 2
    ensures var off := f.PayloadOffset();
            off < |f.body| && off + 1 + f.body[off] <= |f.body| ==>
              Name(f) == Text.AsciiDecode(f.body[off + 1..off + 1 + f.body[off]])
    ensures |f.body| <= f.PayloadOffset() ==> Name(f) == ""
  {
  }
}
