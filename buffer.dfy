/**
 * buffer.ts: the `Decoder` over a byte view and the fixed-capacity
 * `Encoder` with its write cursor.
 */
module Buffer {
  import opened Bytes
  import opened Results
  import Text

  /**
   * A `Uint8Array`: `length` bytes of the `backing` buffer starting at
   * `offset`. Indexing and `subarray` are relative to the view, a `DataView`
   * built on `b.buffer` sees the whole backing buffer.
   */
  datatype View = View(backing: seq<byte>, offset: nat, length: nat)
  {
    predicate Valid()
    {
      offset + length <= |backing|
    }

    function Bytes(): seq<byte>
      requires Valid()
    {
      backing[offset..offset + length]
    }
  }

  /** A fresh array, or the result of `freeze`: a view from byte 0. */
  function Whole(b: seq<byte>): (v: View)
    ensures v.Valid() && v.Bytes() == b && v.offset == 0
  {
    View(b, 0, |b|)
  }

  /** `readByte(o)`: `b[o]`, undefined (`None`) past the end. */
  function ReadByte(d: View, o: nat): (r: Option<byte>)
    requires d.Valid()
    ensures r.Some? <==> o < d.length
    ensures r.Some? ==> r.value == d.Bytes()[o]
  {
    if o < d.length then Some(d.backing[d.offset + o]) else None
  }

  /**
   * A big-endian read of `width` bytes through `new DataView(b.buffer)`:
   * the offset is taken in the backing buffer, and a read past its end is a
   * `RangeError` (`None`).
   */
  function ReadUint(d: View, o: nat, width: nat): (r: Option<nat>)
    requires d.Valid()
    ensures r.Some? ==> r.value < Pow256(width)
  {
    if o + width <= |d.backing| then Some(BigEndian(d.backing[o..o + width])) else None
  }

  function ReadUint16(d: View, o: nat): Option<nat>
    requires d.Valid()
  {
    ReadUint(d, o, 2)
  }

  function ReadUint32(d: View, o: nat): Option<nat>
    requires d.Valid()
  {
    ReadUint(d, o, 4)
  }

  /** `readUint64`, from the decoder module that is not part of this model,
      taken to be the same `DataView` read of 8 bytes. */
  function ReadUint64(d: View, o: nat): Option<nat>
    requires d.Valid()
  {
    ReadUint(d, o, 8)
  }

  function ReadInt16(d: View, o: nat): Option<int>
    requires d.Valid()
  {
    match ReadUint(d, o, 2)
    case Some(v) => Some(Signed(v, 2))
    case None => None
  }

  function ReadInt32(d: View, o: nat): Option<int>
    requires d.Valid()
  {
    match ReadUint(d, o, 4)
    case Some(v) => Some(Signed(v, 4))
    case None => None
  }

  /** `subarray(o, o + len)`: both ends are clamped to the view. */
  function ReadUint8Array(d: View, len: nat, o: nat): (r: seq<byte>)
    requires d.Valid()
    ensures |r| <= len
    ensures o + len <= d.length ==> r == d.Bytes()[o..o + len]
    ensures o >= d.length ==> r == []
  {
    var begin := if o < d.length then o else d.length;
    var end := if o + len < d.length then o + len else d.length;
    d.Bytes()[begin..end]
  }

  /** `readString(len, o)`: the UTF-8 decoding of `readUint8Array(len, o)`. */
  function ReadString(d: View, len: nat, o: nat): string
    requires d.Valid()
  {
    Text.Decode(ReadUint8Array(d, len, o))
  }

  /** The UTF-8 bytes of a string, read inside a whole buffer, decode to
      that string, less a leading byte-order mark. */
  lemma ReadEncoded(b: seq<byte>, len: nat, o: nat, s: string)
    requires o + len <= |b| && b[o..o + len] == Text.Encode(s)
    ensures ReadString(Whole(b), len, o) == Text.StripBom(s)
    ensures ReadString(Whole(b), len, o) == s <==> s == [] || s[0] != Text.BOM
  {
    Text.DecodeEncode(s);
  }

  /** On a view that starts at byte 0 of its buffer, a `DataView` read
      decodes the view's own bytes. */
  lemma ReadUintOfWhole(d: View, o: nat, width: nat)
    requires d.Valid() && d.offset == 0 && o + width <= d.length
    ensures ReadUint(d, o, width) == Some(BigEndian(d.Bytes()[o..o + width]))
  {
    assert d.Bytes()[o..o + width] == d.backing[o..o + width];
  }

  /** The signed reads are the two's-complement reading of the same bytes. */
  lemma ReadSignedOfUnsigned(d: View, o: nat)
    requires d.Valid() && o + 4 <= |d.backing|
    ensures ReadUint32(d, o).Some? && ReadInt32(d, o).Some?
    ensures ReadInt32(d, o).value == (if ReadUint32(d, o).value >= 0x8000_0000
      then ReadUint32(d, o).value - 0x1_0000_0000 else ReadUint32(d, o).value)
    ensures -0x8000_0000 <= ReadInt32(d, o).value < 0x8000_0000
  {
    Pow256Values();
  }

  /**
   * `Encoder`: a `Uint8Array` of fixed capacity and a cursor; every write
   * stores at the cursor and advances it by the width written.
   */
  class Encoder {
    var buf: array<byte>
    var cursor: nat

    ghost predicate Valid()
      reads this
    {
      cursor <= buf.Length
    }

    /** The bytes written so far. */
    ghost function Written(): seq<byte>
      reads this, buf
      requires Valid()
    {
      buf[..cursor]
    }

    constructor (cap: nat)
      ensures Valid() && fresh(buf) && buf.Length == cap && cursor == 0
      ensures Written() == []
    {
      buf := new byte[cap](_ => 0);
      cursor := 0;
    }

    /** `freeze`: exactly the bytes written so far. */
    method Freeze() returns (r: seq<byte>)
      requires Valid()
      ensures r == Written() && |r| == cursor
    {
      r := buf[..cursor];
    }

    method WriteBytes(bytes: seq<byte>)
      requires Valid() && cursor + |bytes| <= buf.Length
      modifies this, buf
      ensures Valid() && buf == old(buf) && cursor == old(cursor) + |bytes|
      ensures Written() == old(Written()) + bytes
    {
      forall i | 0 <= i < |bytes| {
        buf[cursor + i] := bytes[i];
      }
      cursor := cursor + |bytes|;
    }

    /** `writeByte`: stores `value & 0xFF`. */
    method WriteByte(value: int)
      requires Valid() && cursor + 1 <= buf.Length
      modifies this, buf
      ensures Valid() && buf == old(buf) && cursor == old(cursor) + 1
      ensures Written() == old(Written()) + [value % 256]
    {
      buf[cursor] := value % 256;
      cursor := cursor + 1;
    }

    method WriteUint16(value: int)
      requires Valid() && cursor + 2 <= buf.Length
      modifies this, buf
      ensures Valid() && buf == old(buf) && cursor == old(cursor) + 2
      ensures Written() == old(Written()) + ToBigEndian(value, 2)
    {
      WriteBytes(ToBigEndian(value, 2));
    }

    method WriteInt16(value: int)
      requires Valid() && cursor + 2 <= buf.Length
      modifies this, buf
      ensures Valid() && buf == old(buf) && cursor == old(cursor) + 2
      ensures Written() == old(Written()) + ToBigEndian(value, 2)
    {
      WriteBytes(ToBigEndian(value, 2));
    }

    method WriteUint32(value: int)
      requires Valid() && cursor + 4 <= buf.Length
      modifies this, buf
      ensures Valid() && buf == old(buf) && cursor == old(cursor) + 4
      ensures Written() == old(Written()) + ToBigEndian(value, 4)
    {
      WriteBytes(ToBigEndian(value, 4));
    }

    method WriteInt32(value: int)
      requires Valid() && cursor + 4 <= buf.Length
      modifies this, buf
      ensures Valid() && buf == old(buf) && cursor == old(cursor) + 4
      ensures Written() == old(Written()) + ToBigEndian(value, 4)
    {
      WriteBytes(ToBigEndian(value, 4));
    }

    method WriteUint64(value: int)
      requires Valid() && cursor + 8 <= buf.Length
      modifies this, buf
      ensures Valid() && buf == old(buf) && cursor == old(cursor) + 8
      ensures Written() == old(Written()) + ToBigEndian(value, 8)
    {
      WriteBytes(ToBigEndian(value, 8));
    }

    method WriteInt64(value: int)
      requires Valid() && cursor + 8 <= buf.Length
      modifies this, buf
      ensures Valid() && buf == old(buf) && cursor == old(cursor) + 8
      ensures Written() == old(Written()) + ToBigEndian(value, 8)
    {
      WriteBytes(ToBigEndian(value, 8));
    }

    /** `writeString`: the UTF-8 bytes of `value`; the empty string writes
        nothing. */
    method WriteString(value: string)
      requires Valid() && cursor + |Text.Encode(value)| <= buf.Length
      modifies this, buf
      ensures Valid() && buf == old(buf)
      ensures cursor == old(cursor) + |Text.Encode(value)|
      ensures Written() == old(Written()) + Text.Encode(value)
      ensures value == "" ==> cursor == old(cursor)
    {
      if value == "" {
        return;
      }
      WriteBytes(Text.Encode(value));
    }

    /** `writeUint8Array`: the bytes themselves. */
    method WriteUint8Array(value: seq<byte>)
      requires Valid() && cursor + |value| <= buf.Length
      modifies this, buf
      ensures Valid() && buf == old(buf) && cursor == old(cursor) + |value|
      ensures Written() == old(Written()) + value
    {
      WriteBytes(value);
    }
  }

  /**
   * The encoder/decoder round trip of buffer_test.ts: a 1024-byte encoder,
   * the 32-bit length then the string; the frozen bytes decode back to both
 * (the string less a leading byte-order mark, which the decoder drops).
   */
  method LengthPrefixedRoundTrip(s: string) returns (frozen: seq<byte>)
    requires |Text.Encode(s)| <= 1020
    ensures |Whole(frozen).Bytes()| == 4 + |Text.Encode(s)|
    ensures ReadUint32(Whole(frozen), 0) == Some(Text.JsLength(s))
    ensures ReadString(Whole(frozen), |Text.Encode(s)|, 4) == Text.StripBom(s)
    ensures Text.IsAscii(s) ==>
              |frozen| == 4 + Text.JsLength(s) && ReadString(Whole(frozen), Text.JsLength(s), 4) == s
  {
    var enc := new Encoder(1024);
    enc.WriteUint32(Text.JsLength(s));
    enc.WriteString(s);
    frozen := enc.Freeze();
    LengthPrefixedReadBack(frozen, s);
  }

  /** The length then the string, read back from a whole buffer. */
  lemma LengthPrefixedReadBack(frozen: seq<byte>, s: string)
    requires |Text.Encode(s)| <= 1020
    requires frozen == ToBigEndian(Text.JsLength(s), 4) + Text.Encode(s)
    ensures |Whole(frozen).Bytes()| == 4 + |Text.Encode(s)|
    ensures ReadUint32(Whole(frozen), 0) == Some(Text.JsLength(s))
    ensures ReadString(Whole(frozen), |Text.Encode(s)|, 4) == Text.StripBom(s)
    ensures Text.IsAscii(s) ==>
              |frozen| == 4 + Text.JsLength(s) && ReadString(Whole(frozen), Text.JsLength(s), 4) == s
  {
    var n := Text.JsLength(s);
    Text.EncodeLength(s);
    BigEndianRoundTrip(n, 4);
    assert frozen[..4] == ToBigEndian(n, 4);
    ReadUintOfWhole(Whole(frozen), 0, 4);
    assert frozen[4..4 + |Text.Encode(s)|] == Text.Encode(s);
    ReadEncoded(frozen, |Text.Encode(s)|, 4, s);
    if Text.IsAscii(s) {
      Text.EncodeAscii(s);
      assert s == [] || s[0] as int < 0x80;
    }
  }
}
