/**
 * proto/frame_command_ready.ts: building a READY command frame from an
 * ordered key/value list, and reading the list back from a frame.
 */
module ProtoReady {
  import opened Bytes
  import opened Results
  import Text
  import Buffer
  import opened ProtoFrame
  import ProtoCommand

  const READY: string := "READY"

  /** What `build` counts for entry `i`: its `String.length` plus the width of
      its length prefix (1 byte for a key, at an even index, 4 for a value). */
  function CountedSize(s: string, i: nat): nat
  {
    Text.JsLength(s) + (if i % 2 == 0 then 1 else 4)
  }

  /** The sum `build` computes over the first `k` entries. */
  function CountedSizes(m: seq<string>, k: nat): nat
    requires k <= |m|
  {
    if k == 0 then 0 else CountedSizes(m, k - 1) + CountedSize(m[k - 1], k - 1)
  }

  /** `payloadSize`: the name length byte, the name, and the counted entries. */
  function PayloadSize(m: seq<string>): nat
  {
    1 + |READY| + CountedSizes(m, |m|)
  }

  /** The bytes written for entry `i`: its length (one byte for a key, four
      big-endian bytes for a value), then its UTF-8 bytes. */
  function EntryBytes(s: string, i: nat): seq<byte>
  {
    (if i % 2 == 0 then [Text.JsLength(s) % 256] else ToBigEndian(Text.JsLength(s), 4)) + Text.Encode(s)
  }

  lemma {:induction false} EntryBytesLength(s: string, i: nat)
    ensures |EntryBytes(s, i)| == |Text.Encode(s)| + (if i % 2 == 0 then 1 else 4)
  {
  }

  function EntriesBytes(m: seq<string>, k: nat): seq<byte>
    requires k <= |m|
  {
    if k == 0 then [] else EntriesBytes(m, k - 1) + EntryBytes(m[k - 1], k - 1)
  }

  /** Flags, payload size, name length, name. */
  function Header(m: seq<string>): seq<byte>
  {
    [FLAG_COMMAND, PayloadSize(m) % 256, |READY|] + Text.Encode(READY)
  }

  /** The frame `build` produces for the metadata list `m`. */
  function ReadyBytes(m: seq<string>): seq<byte>
  {
    Header(m) + EntriesBytes(m, |m|)
  }

  predicate AllAscii(m: seq<string>)
  {
    AsciiUpTo(m, |m|)
  }

  predicate AsciiUpTo(m: seq<string>, k: nat)
    requires k <= |m|
  {
    forall i :: 0 <= i < k ==> Text.IsAscii(m[i])
  }

  /** The UTF-8 bytes of the command name, and the header's length. */
  lemma {:induction false} ReadyNameBytes(m: seq<string>)
    ensures Text.Encode(READY) == [0x52, 0x45, 0x41, 0x44, 0x59]
    ensures |Header(m)| == 8
  {
    assert Text.Encode(READY) == [0x52, 0x45, 0x41, 0x44, 0x59];
  }

  /** The metadata list `build` can round-trip: ASCII entries, keys shorter
      than 256 and values shorter than 2^32. */
  predicate Encodable(m: seq<string>)
  {
    && AllAscii(m)
    && forall i :: 0 <= i < |m| ==> Text.JsLength(m[i]) < (if i % 2 == 0 then 0x100 else 0x1_0000_0000)
  }

  /** `ReadyCommandFrame.builder()`: collects entries with `set`, then `build`s. */
  class ReadyBuilder {
    var metadata: seq<string>

    constructor ()
      ensures metadata == []
    {
      metadata := [];
    }

    /** `set(key, value)`: appends the key, then the value. */
    method Set(key: string, value: string)
      modifies this
      ensures metadata == old(metadata) + [key, value]
      ensures |metadata| % 2 == |old(metadata)| % 2
    {
      metadata := metadata + [key];
      metadata := metadata + [value];
    }

    /**
     * `build`: an encoder of capacity `2 + payloadSize`, the COMMAND flags
     * byte, the payload size, the name, then every entry with its prefix.
     * The capacity is only right for ASCII entries, whose UTF-8 length is
     * their `String.length`.
     */
    method Build() returns (f: Frame)
      requires AllAscii(metadata)
      ensures f.body == ReadyBytes(metadata)
    {
      var m := metadata;
      var payloadSize := 1 + |READY| + CountedSizes(m, |m|);
      var encoder := new Buffer.Encoder(1 + 1 + payloadSize);
      WriteHeader(encoder, m, payloadSize);
      EntriesLength(m, |m|);
      WriteEntries(encoder, m);
      var frozen := encoder.Freeze();
      f := Frame(frozen);
    }
  }

  /** `build`'s loop: every entry with its length prefix, in order. */
  method WriteEntries(encoder: Buffer.Encoder, m: seq<string>)
    requires encoder.Valid() && encoder.cursor + |EntriesBytes(m, |m|)| <= encoder.buf.Length
    modifies encoder, encoder.buf
    ensures encoder.Valid() && encoder.buf == old(encoder.buf)
    ensures encoder.Written() == old(encoder.Written()) + EntriesBytes(m, |m|)
  {
    ghost var w0 := encoder.Written();
    var i := 0;
    while i < |m|
      invariant 0 <= i <= |m|
      invariant encoder.Valid() && encoder.buf == old(encoder.buf)
      invariant encoder.Written() == w0 + EntriesBytes(m, i)
    {
      EntriesNext(m, i);
      WriteEntry(encoder, m[i], i);
      AppendAssoc(w0, EntriesBytes(m, i), EntryBytes(m[i], i));
      i := i + 1;
    }
  }

  /** One more entry: its bytes follow those of the entries before it, and
      all of them fit within the bytes of every entry. */
  lemma EntriesNext(m: seq<string>, i: nat)
    requires i < |m|
    ensures EntriesBytes(m, i + 1) == EntriesBytes(m, i) + EntryBytes(m[i], i)
    ensures |EntriesBytes(m, i)| + |EntryBytes(m[i], i)| <= |EntriesBytes(m, |m|)|
  {
    EntriesPrefix(m, i + 1, |m|);
  }

  /** The start of `build`: the COMMAND flag, the payload size, the name. */
  method WriteHeader(encoder: Buffer.Encoder, ghost m: seq<string>, payloadSize: nat)
    requires payloadSize == PayloadSize(m)
    requires encoder.Valid() && encoder.cursor == 0 && 8 <= encoder.buf.Length
    modifies encoder, encoder.buf
    ensures encoder.Valid() && encoder.buf == old(encoder.buf) && encoder.cursor == 8
    ensures encoder.Written() == Header(m)
  {
    ReadyNameBytes(m);
    encoder.WriteByte(FLAG_COMMAND);
    encoder.WriteByte(payloadSize);
    encoder.WriteByte(|READY|);
    assert encoder.Written() == [FLAG_COMMAND, payloadSize % 256, |READY|];
    encoder.WriteString(READY);
  }

  /** One turn of `build`'s loop: the entry's length prefix, then the entry. */
  method WriteEntry(encoder: Buffer.Encoder, it: string, i: nat)
    requires encoder.Valid() && encoder.cursor + |EntryBytes(it, i)| <= encoder.buf.Length
    modifies encoder, encoder.buf
    ensures encoder.Valid() && encoder.buf == old(encoder.buf)
    ensures encoder.cursor == old(encoder.cursor) + |EntryBytes(it, i)|
    ensures encoder.Written() == old(encoder.Written()) + EntryBytes(it, i)
  {
    var len := Text.JsLength(it);
    ghost var prefix := if i % 2 == 0 then [len % 256] else ToBigEndian(len, 4);
    assert EntryBytes(it, i) == prefix + Text.Encode(it);
    ghost var w0 := encoder.Written();
    if i % 2 == 0 {
      encoder.WriteByte(len);
    } else {
      encoder.WriteUint32(len);
    }
    assert encoder.Written() == w0 + prefix;
    encoder.WriteString(it);
    assert encoder.Written() == w0 + prefix + Text.Encode(it);
  }

  lemma {:induction false} CountedSizesMonotone(m: seq<string>, k: nat, j: nat)
    requires k <= j <= |m|
    ensures CountedSizes(m, k) <= CountedSizes(m, j)
    decreases j - k
  {
    if k < j {
      CountedSizesMonotone(m, k, j - 1);
    }
  }

  /**
   * `metadata`: from `payloadOffset + 1 + 5`, alternately a one-byte and a
   * four-byte length then that many bytes as UTF-8, until the end of the body.
   */
  function Metadata(f: Frame): Result<seq<string>>
  {
    MetadataFrom(f.body, f.PayloadOffset() + 1 + |READY|, [])
  }

  /** The decoding loop from `cursor`, with the entries `res` read so far. */
  function MetadataFrom(body: seq<byte>, cursor: nat, res: seq<string>): Result<seq<string>>
    decreases |body| - cursor, 1
  {
    if cursor >= |body| then Ok(res)
    else
      var dec := Buffer.Whole(body);
      if |res| % 2 == 0 then
        var n := body[cursor];
        MetadataFrom(body, cursor + 1 + n, res + [Buffer.ReadString(dec, n, cursor + 1)])
      else
        ValueFrom(body, cursor, res, Buffer.ReadUint32(dec, cursor))
  }

  /** An odd-numbered entry: its four-byte length `len` (when present),
      then the string. */
  function ValueFrom(body: seq<byte>, cursor: nat, res: seq<string>, len: Option<nat>): Result<seq<string>>
    requires cursor < |body|
    decreases |body| - cursor, 0
  {
    match len
    case None => Err(RangeError)
    case Some(n) => MetadataFrom(body, cursor + 4 + n, res + [Buffer.ReadString(Buffer.Whole(body), n, cursor + 4)])
  }

  /** The entries counted by `build` take at least the bytes it counted, and
      exactly that many iff they are ASCII. */
  lemma {:induction false} EntriesLength(m: seq<string>, k: nat)
    requires k <= |m|
    ensures |EntriesBytes(m, k)| >= CountedSizes(m, k)
    ensures |EntriesBytes(m, k)| == CountedSizes(m, k) <==> AsciiUpTo(m, k)
  {
    if k > 0 {
      var j := k - 1;
      EntriesLength(m, j);
      EntriesLengthStep(m, j);
    }
  }

  lemma EntriesLengthStep(m: seq<string>, j: nat)
    requires j < |m|
    requires |EntriesBytes(m, j)| >= CountedSizes(m, j)
    requires |EntriesBytes(m, j)| == CountedSizes(m, j) <==> AsciiUpTo(m, j)
    ensures |EntriesBytes(m, j + 1)| >= CountedSizes(m, j + 1)
    ensures |EntriesBytes(m, j + 1)| == CountedSizes(m, j + 1) <==> AsciiUpTo(m, j + 1)
  {
    var s := m[j];
    EntryLength(s, j);
    AsciiUpToStep(m, j + 1);
    var written, counted := |EntriesBytes(m, j)|, CountedSizes(m, j);
    var entry, size := |EntryBytes(s, j)|, CountedSize(s, j);
    assert |EntriesBytes(m, j + 1)| == written + entry;
    assert CountedSizes(m, j + 1) == counted + size;
    ExactSum(written, counted, AsciiUpTo(m, j), entry, size, Text.IsAscii(s));
  }

  /** Two sizes, each at least what was counted and exactly that iff a
      condition holds: their sum is exact iff both conditions hold. */
  lemma ExactSum(a: int, b: int, p: bool, x: int, y: int, q: bool)
    requires a >= b && (a == b <==> p) && x >= y && (x == y <==> q)
    ensures a + x >= b + y && (a + x == b + y <==> p && q)
  {
  }

  /** One entry takes at least the bytes `build` counts for it, and exactly
      that many iff it is ASCII. */
  lemma EntryLength(s: string, i: nat)
    ensures |EntryBytes(s, i)| >= CountedSize(s, i)
    ensures |EntryBytes(s, i)| == CountedSize(s, i) <==> Text.IsAscii(s)
  {
    Text.EncodeLength(s);
    EntryBytesLength(s, i);
  }

  lemma {:induction false} AsciiUpToStep(m: seq<string>, k: nat)
    requires 0 < k <= |m|
    ensures AsciiUpTo(m, k) <==> AsciiUpTo(m, k - 1) && Text.IsAscii(m[k - 1])
  {
  }

  /** For ASCII metadata the precomputed frame length `2 + payloadSize` is
      exact; for any other metadata the bytes written exceed it. */
  lemma {:induction false} ReadyLength(m: seq<string>)
    ensures |ReadyBytes(m)| >= 2 + PayloadSize(m)
    ensures |ReadyBytes(m)| == 2 + PayloadSize(m) <==> AllAscii(m)
  {
    EntriesLength(m, |m|);
    ReadyNameBytes(m);
  }

  /** A built READY frame is a short COMMAND frame without MORE, whose name is
      READY and whose size byte is `payloadSize` truncated to a byte. */
  lemma {:induction false} ReadyFrameShape(m: seq<string>)
    ensures var f := Frame(ReadyBytes(m));
      && |f.body| >= 8
      && f.Flags() == FLAG_COMMAND
      && f.Type() == Command && !f.More() && !f.IsLong()
      && f.Size() == Some(PayloadSize(m) % 256)
      && ProtoCommand.Name(f) == "READY"
      && ProtoCommand.ParseCommandName(ProtoCommand.Name(f)) == Some(ProtoCommand.Ready)
  {
    var f := Frame(ReadyBytes(m));
    ReadyNameBytes(m);
    assert f.body[3..8] == [0x52, 0x45, 0x41, 0x44, 0x59];
    assert Text.AsciiDecode(f.body[3..8]) == "READY";
  }

  lemma {:induction false} EntriesPrefix(m: seq<string>, k: nat, j: nat)
    requires k <= j <= |m|
    ensures |EntriesBytes(m, k)| <= |EntriesBytes(m, j)|
    ensures EntriesBytes(m, j)[..|EntriesBytes(m, k)|] == EntriesBytes(m, k)
    decreases j - k
  {
    if k < j {
      EntriesPrefix(m, k, j - 1);
      assert EntriesBytes(m, j) == EntriesBytes(m, j - 1) + EntryBytes(m[j - 1], j - 1);
    }
  }

  /** One loop turn at an even count of entries: a one-byte length, then the
      string. */
  lemma {:induction false} KeyStep(body: seq<byte>, c: nat, res: seq<string>, s: string, next: nat, res': seq<string>)
    requires |res| % 2 == 0 && c < |body|
    requires Buffer.ReadString(Buffer.Whole(body), body[c], c + 1) == s
    requires next == c + 1 + body[c] && res' == res + [s]
    ensures MetadataFrom(body, c, res) == MetadataFrom(body, next, res')
  {
  }

  /** One loop turn at an odd count of entries: a four-byte length, then the
      string. */
  lemma {:induction false} ValueStep(body: seq<byte>, c: nat, res: seq<string>, s: string, n: nat, next: nat, res': seq<string>)
    requires |res| % 2 == 1 && c < |body|
    requires Buffer.ReadUint32(Buffer.Whole(body), c) == Some(n)
    requires Buffer.ReadString(Buffer.Whole(body), n, c + 4) == s
    requires next == c + 4 + n && res' == res + [s]
    ensures MetadataFrom(body, c, res) == MetadataFrom(body, next, res')
  {
  }

  /** The bytes `build` writes for a key read back as that key. */
  lemma {:induction false} ReadKey(body: seq<byte>, c: nat, s: string)
    requires Text.IsAscii(s) && Text.JsLength(s) < 0x100
    requires c + |EntryBytes(s, 0)| <= |body|
    requires body[c..c + |EntryBytes(s, 0)|] == EntryBytes(s, 0)
    ensures c < |body| && body[c] == Text.JsLength(s)
    ensures Buffer.ReadString(Buffer.Whole(body), body[c], c + 1) == s
  {
    var e := EntryBytes(s, 0);
    var n := Text.JsLength(s);
    Text.EncodeLength(s);
    assert e == [n] + Text.Encode(s);
    assert body[c] == body[c..c + |e|][0] == n;
    SliceAt(body, c, e, 1, |e|);
    assert |e| == 1 + n && e[1..] == Text.Encode(s);
    Text.AsciiDecodeEncode(s);
    Buffer.ReadEncoded(body, n, c + 1, s);
  }

  /** The bytes `build` writes for a value read back as that value. */
  lemma {:induction false} ReadValue(body: seq<byte>, c: nat, s: string)
    requires Text.IsAscii(s) && Text.JsLength(s) < 0x1_0000_0000
    requires c + |EntryBytes(s, 1)| <= |body|
    requires body[c..c + |EntryBytes(s, 1)|] == EntryBytes(s, 1)
    ensures Buffer.ReadUint32(Buffer.Whole(body), c) == Some(Text.JsLength(s))
    ensures Buffer.ReadString(Buffer.Whole(body), Text.JsLength(s), c + 4) == s
  {
    var e := EntryBytes(s, 1);
    var n := Text.JsLength(s);
    Text.EncodeLength(s);
    assert e == ToBigEndian(n, 4) + Text.Encode(s);
    SliceAt(body, c, e, 0, 4);
    SliceAt(body, c, e, 4, |e|);
    assert |e| == 4 + n && e[..4] == ToBigEndian(n, 4) && e[4..] == Text.Encode(s);
    Pow256Values();
    BigEndianRoundTrip(n, 4);
    Buffer.ReadUintOfWhole(Buffer.Whole(body), c, 4);
    Text.AsciiDecodeEncode(s);
    Buffer.ReadEncoded(body, n, c + 4, s);
  }

  /** Reading an entry `build` wrote moves the cursor over exactly its bytes
      and appends the entry itself. */
  lemma {:induction false} ReadEntry(body: seq<byte>, c: nat, res: seq<string>, s: string, next: nat, res': seq<string>)
    requires Text.IsAscii(s)
    requires Text.JsLength(s) < (if |res| % 2 == 0 then 0x100 else 0x1_0000_0000)
    requires next == c + |EntryBytes(s, |res|)| <= |body|
    requires body[c..next] == EntryBytes(s, |res|)
    requires res' == res + [s]
    ensures MetadataFrom(body, c, res) == MetadataFrom(body, next, res')
  {
    EntryBytesLength(s, |res|);
    Text.EncodeLength(s);
    if |res| % 2 == 0 {
      ReadKey(body, c, s);
      KeyStep(body, c, res, s, next, res');
    } else {
      ReadValue(body, c, s);
      ValueStep(body, c, res, s, Text.JsLength(s), next, res');
    }
  }

  /** Entry `k` sits in the frame right after the header and the entries
      before it. */
  lemma {:induction false} EntryAt(m: seq<string>, k: nat)
    requires k < |m|
    ensures |EntriesBytes(m, k + 1)| == |EntriesBytes(m, k)| + |EntryBytes(m[k], k)|
    ensures 8 + |EntriesBytes(m, k + 1)| <= |ReadyBytes(m)|
    ensures ReadyBytes(m)[8 + |EntriesBytes(m, k)|..8 + |EntriesBytes(m, k + 1)|] == EntryBytes(m[k], k)
  {
    var e := EntryBytes(m[k], k);
    var full := EntriesBytes(m, |m|);
    var a := |EntriesBytes(m, k)|;
    var b := |EntriesBytes(m, k + 1)|;
    ReadyNameBytes(m);
    EntriesPrefix(m, k + 1, |m|);
    assert full[..b] == EntriesBytes(m, k) + e;
    assert full[a..b] == e by {
      AppendSlice(EntriesBytes(m, k), e, 0, |e|);
      assert full[a..b] == full[..b][a..b];
    }
    AppendSlice(Header(m), full, a, b);
  }

  /** From the cursor after entry `k`, the decoding loop reads the remaining
      entries and ends exactly at the end of the frame. */
  lemma {:induction false} MetadataRoundTripFrom(m: seq<string>, k: nat, body: seq<byte>, c: nat, res: seq<string>)
    requires Encodable(m) && k <= |m|
    requires body == ReadyBytes(m) && c == 8 + |EntriesBytes(m, k)| && res == m[..k]
    ensures MetadataFrom(body, c, res) == Ok(m)
    decreases |m| - k
  {
    if k == |m| {
      ReadyNameBytes(m);
      assert res == m;
      MetadataAtEnd(body, c, m);
    } else {
      var next := 8 + |EntriesBytes(m, k + 1)|;
      StepFacts(m, k, body, c, next);
      ReadEntry(body, c, res, m[k], next, m[..k + 1]);
      MetadataRoundTripFrom(m, k + 1, body, next, m[..k + 1]);
    }
  }

  /** What reading entry `k` of a built frame relies on. */
  lemma {:induction false} StepFacts(m: seq<string>, k: nat, body: seq<byte>, c: nat, next: nat)
    requires Encodable(m) && k < |m|
    requires body == ReadyBytes(m) && c == 8 + |EntriesBytes(m, k)| && next == 8 + |EntriesBytes(m, k + 1)|
    ensures Text.IsAscii(m[k]) && Text.JsLength(m[k]) < (if k % 2 == 0 then 0x100 else 0x1_0000_0000)
    ensures next == c + |EntryBytes(m[k], k)| <= |body| && body[c..next] == EntryBytes(m[k], k)
    ensures |m[..k]| == k && m[..k] + [m[k]] == m[..k + 1]
  {
    EntryAt(m, k);
    PrefixExtend(m, k);
  }

  /** The decoding loop stops at the end of the frame. */
  lemma {:induction false} MetadataAtEnd(body: seq<byte>, c: nat, res: seq<string>)
    requires c >= |body|
    ensures MetadataFrom(body, c, res) == Ok(res)
  {
  }

  lemma PrefixExtend(m: seq<string>, k: nat)
    requires k < |m|
    ensures |m[..k]| == k && m[..k] + [m[k]] == m[..k + 1]
  {
  }

  /** Reading the metadata of a built frame gives back the list that was set,
      in insertion order. */
  lemma {:induction false} MetadataRoundTrip(m: seq<string>)
    requires Encodable(m)
    ensures Metadata(Frame(ReadyBytes(m))) == Ok(m)
  {
    ReadyFrameShape(m);
    MetadataRoundTripFrom(m, 0, ReadyBytes(m), 8, []);
    assert m[..0] == [];
  }

  /** proto/frames_test.ts: a READY frame built with Socket-Type REQ is a
      command named READY whose metadata reads back as set. */
  method SocketTypeRoundTrip() returns (f: Frame)
    ensures f.Type() == Command
    ensures ProtoCommand.Name(f) == "READY"
    ensures Metadata(f) == Ok(["Socket-Type", "REQ"])
  {
    var builder := new ReadyBuilder();
    builder.Set("Socket-Type", "REQ");
    SocketTypeEncodable(builder.metadata);
    f := builder.Build();
    ReadyFrameShape(builder.metadata);
    MetadataRoundTrip(builder.metadata);
  }

  lemma {:induction false} SocketTypeEncodable(m: seq<string>)
    requires m == [] + ["Socket-Type", "REQ"]
    ensures m == ["Socket-Type", "REQ"] && Encodable(m)
  {
    SocketTypeAscii();
    Text.AsciiJsLength("Socket-Type");
    Text.AsciiJsLength("REQ");
    PairEncodable("Socket-Type", "REQ");
  }

  lemma SocketTypeAscii()
    ensures Text.IsAscii("Socket-Type") && Text.IsAscii("REQ")
  {
  }

  /** One ASCII key/value pair with a key shorter than 256 is encodable. */
  lemma {:induction false} PairEncodable(key: string, value: string)
    requires Text.IsAscii(key) && Text.IsAscii(value)
    requires Text.JsLength(key) < 0x100 && Text.JsLength(value) < 0x1_0000_0000
    ensures Encodable([key, value])
  {
    var m := [key, value];
    assert forall i :: 0 <= i < |m| ==> m[i] == key || m[i] == value;
  }
}
