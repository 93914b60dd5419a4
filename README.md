# deno-zeromq in Dafny

A model of the core of deno-zeromq, a ZeroMQ implementation for Deno that
speaks ZMTP 3.0 over TCP. The model covers:

- the byte codec: `Decoder` views and the fixed-capacity `Encoder`, with the
  UTF-8 text encoding written out (`buffer.ts`);
- the wire formats: frames and their flag bits, commands, the READY command
  and its metadata, the 64-byte greeting and data frames (`proto/`,
  `protocol/frame.ts`, `protocol/frame_data.ts`);
- the three connection readers that cut a byte stream into greetings and
  frames (`protocol/codec.ts`, `protocol/connection.ts`,
  `transport/connection.ts`), with their close handlers;
- the two unbounded queues (`misc/unbounded.ts`, `unbounded.ts`);
- the socket patterns: the server and client handshakes, `sendMessages`,
  REP, PUB and SUB (`core/`).

The repository holds two drafts of the framing layer: the earlier
`protocol/` (with its own codec and connection) and the later `proto/`,
which `transport/` and `core/` use. Both are modelled, and lemmas show that
they read frames and command names alike.

Objects the source mutates in place (encoders, builders, connections,
queues, sockets) are classes whose methods state their whole new state. The
wire formats, the stream readers and the receive loops over frames are
functions, and lemmas relate them. The main properties:

- every builder's output is read back by the matching reader: integers
  written big-endian, length-prefixed strings, READY metadata, greetings,
  data frames;
- what `send` and `sendMessages` write, read by the peer's `receive`, REP
  chunk generator or SUB iterator, gives back the messages;
- the server and client handshakes agree, and either side's READY passes
  the other's check;
- PUB keeps its topic map consistent with the connections' tags, and its
  close handler removes a connection from every topic it joined;
- the queues hand out items first in, first out, with the `null` sentinel
  last.

A byte stream is a sequence of bytes and a position (`Io.Reader`). What a
connection writes is a trace of the `Write` and `Flush` events its writer
took. The writer is the standard library's `BufWriter` (`Io.Writer`): how
many of its 4096 bytes are buffered, and whether an error has stuck to it.
Whether the peer still takes bytes is a field of the connection (`open`),
an input to the model rather than an outcome of the network. A write that
fits in the buffer is taken even when the peer is gone; the failure shows
at the next flush, or at a write that does not fit, and then sticks. Only
a failed `write` runs a connection's close handlers; a failed `flush` does
not.

## Model

| member | source | states |
|---|---|---|
| Buffer.Whole | buffer.ts:7-12 | a decoder over a whole array is a valid view starting at byte 0 whose bytes are the array |
| Buffer.ReadByte | buffer.ts:14-16 | `readByte(o)` is defined exactly when `o` is inside the view and is then byte `o` of the view |
| Buffer.ReadUint | buffer.ts:18-32 | a fixed-width DataView read yields a value below 256^width (it reads the backing buffer, ignoring the view's offset) |
| Buffer.ReadUintOfWhole | buffer.ts:18-20 | on a view that starts at byte 0 of its buffer, a read is the big-endian value of bytes `o..o+width` |
| Buffer.ReadSignedOfUnsigned | buffer.ts:18-24 | `readInt32` is the two's-complement reading of the same four bytes as `readUint32`, in the 32-bit signed range |
| Buffer.ReadUint8Array | buffer.ts:34-36 | `readUint8Array(len, o)` has at most `len` bytes: exactly bytes `o..o+len` when they are inside the view, nothing when `o` is past the end |
| Buffer.ReadEncoded | buffer.ts:38-40 | `readString` over bytes that are the UTF-8 encoding of `s` returns `s` less a leading byte-order mark, which the decoder drops; it returns `s` itself iff `s` does not start with U+FEFF |
| Buffer.Encoder.constructor | buffer.ts:43-49 | a new encoder has a fixed capacity `cap`, cursor 0 and nothing written |
| Buffer.Encoder.Freeze | buffer.ts:51-55 | `freeze` returns exactly the first `cursor` bytes, which are the bytes written so far |
| Buffer.Encoder.WriteByte | buffer.ts:57-59 | `writeByte` appends `value & 0xFF` and advances the cursor by 1 |
| Buffer.Encoder.WriteUint64 | buffer.ts:61-64 | appends the 8 big-endian bytes of the value and advances the cursor by 8 |
| Buffer.Encoder.WriteInt64 | buffer.ts:66-69 | appends the 8 big-endian two's-complement bytes and advances the cursor by 8 |
| Buffer.Encoder.WriteUint32 | buffer.ts:71-74 | appends the 4 big-endian bytes of the value and advances the cursor by 4 |
| Buffer.Encoder.WriteInt32 | buffer.ts:76-79 | appends the 4 big-endian two's-complement bytes and advances the cursor by 4 |
| Buffer.Encoder.WriteUint16 | buffer.ts:81-84 | appends the 2 big-endian bytes of the value and advances the cursor by 2 |
| Buffer.Encoder.WriteInt16 | buffer.ts:86-89 | appends the 2 big-endian two's-complement bytes and advances the cursor by 2 |
| Buffer.Encoder.WriteString | buffer.ts:91-95 | appends the UTF-8 encoding of the string and advances the cursor by its length; the empty string leaves the cursor where it was |
| Buffer.Encoder.WriteUint8Array | buffer.ts:97-100 | appends the array unchanged and advances the cursor by its length |
| Buffer.Encoder.WriteBytes | buffer.ts:97-100 | every write appends its bytes at the cursor, leaves earlier bytes alone and keeps the capacity |
| Buffer.LengthPrefixedRoundTrip | buffer_test.ts:7-17 | writing a 32-bit length then a string and freezing gives `4 + |UTF-8(s)|` bytes whose `readUint32(0)` is the string's length and whose `readString` at 4 is `s` less a leading byte-order mark; for ASCII `s` the frozen size is `4 + s.length` and the string comes back whole |
| Buffer.LengthPrefixedReadBack | buffer_test.ts:12-16 | the length-then-string bytes decode back to the length and to the string less a leading byte-order mark, and to the whole string when it is ASCII |
| Bytes.BigEndianRoundTrip | buffer.ts:71-74 | a value below 256^width written big-endian reads back as itself |
| Bytes.BigEndianOfToBigEndian | buffer.ts:61-89 | writing any integer in `width` bytes keeps it modulo 256^width (DataView setters wrap) |
| Bytes.ToBigEndianOfBigEndian | buffer.ts:18-32 | reading bytes as a big-endian number and writing it back in the same width gives the same bytes |
| Text.DecodeEncode | buffer.ts:38-40 | UTF-8 decoding (`TextDecoder` with its default of dropping a byte-order mark) undoes UTF-8 encoding except for a leading U+FEFF, and gives the string back exactly when it does not start with U+FEFF |
| Text.EncodeLength | buffer.ts:91-95 | a string's UTF-8 length is at least its JavaScript `.length`, and equal iff the string is ASCII |
| Text.AsciiDecodeOfAscii | proto/frame_command.ts:13-16 | on bytes below 0x80 the one-byte-per-character decoder and the UTF-8 decoder agree |
| Text.DecodeStreamEncode | buffer.ts:38-40 | decoding the UTF-8 encoding, before the byte-order mark is dropped, reads back every code point of the string |
| Text.AsciiDecodeEncode | buffer.ts:38-40 | an ASCII string decodes back from its UTF-8 encoding whole |
| Text.BomDropped | buffer.ts:38-40 | the bytes EF BB BF 78 decode to "x": the byte-order mark they begin with is dropped |
| Text.AsciiDecodeStream | proto/frame_command.ts:13-16 | on bytes below 0x80 the one-byte-per-character decoder and the UTF-8 code point reader agree |
| Io.Peek | protocol/codec.ts:34-35 | a peek of `n` bytes, when it succeeds, returns exactly `n` bytes and consumes nothing |
| Io.ReadFull | transport/connection.ts:84-88 | `readFull(n)` returns exactly `n` bytes or fails with end of file or a partial read |
| Io.PeekView | transport/connection.ts:146-149 | peeked bytes seen through a view whose backing buffer is the whole stream from its first byte |
| Text.EncodeChar | buffer.ts:91-95 | one code point encodes to one to four UTF-8 bytes, and to one byte exactly when it is below 0x80 |
| Text.EncodeAscii | buffer.ts:91-95 | an ASCII string encodes to its own character codes, as many bytes as its `.length` |
| Io.Advance | transport/connection.ts:150-151 | `readFull` moves the reader on over the same stream |
| Io.Step | transport/connection.ts:47 | the `BufWriter` after one write or flush never holds more than its 4096-byte buffer |
| Io.Run | transport/connection.ts:116-134 | handing events to the writer until one is refused takes at most all of them and keeps the buffer within its size |
| Io.Outcome | transport/connection.ts:116-134 | a run of writes and flushes succeeds exactly when every event was taken |
| Io.StickyError | transport/connection.ts:116-134 | once a write or flush has failed, every later write and flush fails and the writer stays as it is |
| Io.RefusedOnlyWhenDead | transport/connection.ts:116-134 | a writer without an error refuses a write or flush only when the peer is gone, and then keeps the error; one it takes leaves it without error |
| Io.LiveTakesAll | transport/connection.ts:116-134 | to a live peer every write and flush gets through, and a final flush leaves the buffer empty |
| Io.DeadBuffers | transport/connection.ts:116-134 | to a dead peer a write that fits is buffered without error, and a flush with bytes buffered fails and keeps them |
| Io.DeadNeverFlushes | transport/connection.ts:116-134 | bytes written and then flushed never all get through to a dead peer: a write or the flush is refused |
| Io.RunAppend | transport/connection.ts:116-134 | handing over `a` then `b` stops within `a` at its first refusal, and otherwise hands `b` to the writer `a` left |
| Io.RunCons | transport/connection.ts:116-134 | a refused first event ends the run with its error; a taken one passes the writer it leaves to the rest |
| ProtoFrame.Frame.Size | proto/frame.ts:22-29 | `size` is byte 1 (below 256) when LONG is clear and the big-endian u64 at bytes 1..8 when LONG is set; it is undefined when the body is too short for the field |
| ProtoFrame.EmptyHasMoreShape | proto/frame.ts:13 | `EMPTY_HAS_MORE` is two bytes with MORE set, LONG clear, size 0 and type Message |
| ProtoFrame.FlagBits | proto/frame.ts:3-5 | the three flags are the bits 1, 2 and 4: a flags byte below 8 is exactly the sum of the flags it has |
| ProtoCommand.CommandNameRoundTrip | proto/frame_command.ts:4-7 | `CommandName` has exactly READY and ERROR, and each parses back from its text |
| ProtoCommand.ParseCommandName | proto/frame_command.ts:4-7 | a parsed command name is one whose text is the input |
| ProtoCommand.NamePosition | proto/frame_command.ts:9-17 | the name is the `body[off]` bytes after the length byte at the payload offset (2, or 9 for LONG frames) decoded one byte per character; a body that ends at the offset has the empty name |
| ProtoReady.ReadyBuilder.constructor | proto/frame_command_ready.ts:11-13 | a new builder has no metadata |
| ProtoReady.ReadyBuilder.Set | proto/frame_command_ready.ts:47-51 | `set(k, v)` appends the key then the value, keeping insertion order and an even length |
| ProtoReady.ReadyBuilder.Build | proto/frame_command_ready.ts:53-79 | the built frame's bytes are the header (COMMAND flags, payload size, 5, "READY") followed by every entry with its 1-byte or 4-byte length prefix |
| ProtoReady.WriteHeader | proto/frame_command_ready.ts:60-67 | the first eight bytes written are `0x04`, `payloadSize & 0xFF`, `5` and "READY" |
| ProtoReady.WriteEntries | proto/frame_command_ready.ts:69-77 | the `forEach` appends the entries in order, each as its prefix then its UTF-8 bytes |
| ProtoReady.WriteEntry | proto/frame_command_ready.ts:70-76 | an entry at an even index gets a 1-byte length, at an odd index a 4-byte big-endian length, then its UTF-8 bytes |
| ProtoReady.EntryBytesLength | proto/frame_command_ready.ts:70-76 | an entry takes its UTF-8 length plus 1 (keys) or 4 (values) bytes |
| ProtoReady.EntryLength | proto/frame_command_ready.ts:55 | one entry takes at least the bytes `payloadSize` counts for it, and exactly that many iff it is ASCII |
| ProtoReady.EntriesLength | proto/frame_command_ready.ts:54-58 | the written entries take at least the counted `Σ(len_i + (i even ? 1 : 4))` bytes, and exactly that many iff every entry is ASCII |
| ProtoReady.ReadyLength | proto/frame_command_ready.ts:54-59 | a built frame is at least `2 + payloadSize` bytes long, and exactly that long iff the metadata is ASCII (the encoder's capacity is only right then) |
| ProtoReady.ReadyNameBytes | proto/frame_command_ready.ts:63-67 | "READY" encodes to its five ASCII bytes and the header is 8 bytes |
| ProtoReady.CountedSizesMonotone | proto/frame_command_ready.ts:55-58 | the counted size only grows as entries are added |
| ProtoReady.ReadyFrameShape | proto/frame_command_ready.ts:60-67 | a built frame has flags `0x04` only (COMMAND, never MORE or LONG), size `payloadSize & 0xFF` and the command name READY, which parses as `CommandName.Ready` |
| ProtoReady.EntriesPrefix | proto/frame_command_ready.ts:69-77 | the bytes of the first `k` entries are a prefix of those of the first `j >= k` |
| ProtoReady.EntriesNext | proto/frame_command_ready.ts:69-77 | one more entry appends its own bytes after those already written |
| ProtoReady.EntryAt | proto/frame_command_ready.ts:69-77 | entry `k` sits in the built frame right after the header and the entries before it |
| ProtoReady.KeyStep | proto/frame_command_ready.ts:21-29 | at an even position the loop reads a 1-byte length and that many bytes as the next string |
| ProtoReady.ValueStep | proto/frame_command_ready.ts:24-29 | at an odd position the loop reads a 4-byte big-endian length and that many bytes as the next string |
| ProtoReady.ReadKey | proto/frame_command_ready.ts:21-23 | the key an encoder wrote is read back: its 1-byte length, then the string |
| ProtoReady.ReadValue | proto/frame_command_ready.ts:24-27 | the value an encoder wrote is read back: its 4-byte length, then the string |
| ProtoReady.ReadEntry | proto/frame_command_ready.ts:19-30 | one encoded entry is one turn of the `metadata` loop, which goes on after it |
| ProtoReady.MetadataAtEnd | proto/frame_command_ready.ts:19 | the loop stops once the cursor reaches the end of the body |
| ProtoReady.StepFacts | proto/frame_command_ready.ts:69-77 | entry `k` of an encodable list is ASCII, fits its prefix and lies at its place in the built frame |
| ProtoReady.MetadataRoundTripFrom | proto/frame_command_ready.ts:15-31 | reading the metadata from the start of entry `k` of a built frame yields the whole list |
| ProtoReady.MetadataRoundTrip | proto/frame_command_ready.ts:15-31 | the `metadata` of a frame built from ASCII entries (keys under 256, values under 2^32 characters) is the list it was built from |
| ProtoReady.SocketTypeRoundTrip | proto/frames_test.ts:4-13 | building with `["Socket-Type", "REQ"]` gives a Command frame named READY whose metadata is `["Socket-Type", "REQ"]` |
| ProtoReady.PairEncodable | proto/frame_command_ready.ts:47-51 | one `set` of an ASCII key under 256 and an ASCII value under 2^32 characters gives an encodable list |
| ProtoGreeting.MechanismField | proto/greeting.ts:40-41 | the mechanism field is the UTF-8 name cut to at most 5 bytes |
| ProtoGreeting.Greeting.Signature | proto/greeting.ts:64-66 | `signature` is the first 10 bytes of the body (fewer when the body is shorter) |
| ProtoGreeting.Greeting.Mechism | proto/greeting.ts:74-83 | `mechism` decodes bytes `12..end`, where `end` is at most 17 and bytes `end..17` are zero while byte `end-1` is not (or `end` is 12) |
| ProtoGreeting.GreetingBuilder.constructor | proto/greeting.ts:9-13 | a new builder has version 3.0, mechanism NULL and the server flag clear |
| ProtoGreeting.GreetingBuilder.Version | proto/greeting.ts:15-19 | `version(major, minor)` sets both numbers and nothing else |
| ProtoGreeting.GreetingBuilder.Mechanism | proto/greeting.ts:21-24 | `mechanism(m)` changes nothing: the setter assigns the field to itself |
| ProtoGreeting.GreetingBuilder.AsServer | proto/greeting.ts:26-29 | `asServer(b)` sets the server flag and nothing else |
| ProtoGreeting.GreetingBuilder.Build | proto/greeting.ts:31-47 | `build` gives 64 bytes: 0xFF at 0, 0x01 at 8, 0x7F at 9, `major & 0xFF` and `minor & 0xFF` at 10 and 11, the cut mechanism name at 12, 1 at 32 iff as server, zeros elsewhere |
| ProtoGreeting.Layout | proto/greeting.ts:32-45 | filling a zeroed array slot by slot as `build` does gives that 64-byte layout |
| ProtoGreeting.LayoutIndices | proto/greeting.ts:32-45 | the layout byte by byte: signature, version bytes, the name, zeros up to 32, the server byte, zeros after |
| ProtoGreeting.GettersOfLayout | proto/greeting.ts:60-87 | on a built greeting `signature` is the 10 signature bytes, `version` is `(major & 0xFF, minor & 0xFF)` and `asServer` holds iff the builder's flag was set |
| ProtoGreeting.MechanismFieldBytes | proto/greeting.ts:3-7 | every mechanism name is 4 or 5 ASCII bytes with no zero byte, so the field is never cut and decodes back to the name |
| ProtoGreeting.NameBytes | proto/greeting.ts:40 | an ASCII name encodes to its character codes and decodes back |
| ProtoGreeting.MechanismEndUnique | proto/greeting.ts:74-81 | the end the `mechism` loop stops at is the only one with zeros after it and a non-zero byte before it |
| ProtoGreeting.MechismOfLayout | proto/greeting.ts:74-83 | `mechism` of a greeting laid out with mechanism `m` is `m`'s name |
| ProtoGreeting.BuildWith | proto/greeting.ts:15-47 | a builder given any version, mechanism and server flag yields a valid greeting with that version and flag, whose `mechism` is still "NULL" |
| ProtocolDataFrame.DataFlagsBits | protocol/frame_data.ts:51-58 | the flags byte has MORE iff `hasMore` was set, LONG iff the payload is longer than 255 bytes, and never COMMAND |
| ProtocolDataFrame.DataFrame.Payload | protocol/frame_data.ts:16-29 | the `payload` getter is defined for every short frame, and for a LONG frame iff its 8-byte length field is there |
| ProtocolDataFrame.DataBuilder.constructor | protocol/frame_data.ts:32-34 | a new builder has MORE clear and no payload |
| ProtocolDataFrame.DataBuilder.Payload | protocol/frame_data.ts:36-43 | `payload(d)` stores the bytes as given, or the UTF-8 encoding of a string, and leaves MORE alone |
| ProtocolDataFrame.DataBuilder.HasMore | protocol/frame_data.ts:45-48 | `hasMore(m)` sets MORE to `m` and leaves the payload alone |
| ProtocolDataFrame.DataBuilder.Build | protocol/frame_data.ts:50-71 | `build` yields the flags byte, the 1-byte or 8-byte length and the payload, an unset payload counting as empty |
| ProtocolDataFrame.StartFrame | protocol/frame_data.ts:55-66 | the encoder has room for exactly the payload after the flags byte and the length field it has written |
| ProtocolDataFrame.BuiltShape | protocol/frame_data.ts:50-71 | a built frame has MORE iff `hasMore`, LONG iff the payload exceeds 255 bytes, type Message; it is `2 + len` bytes with byte 1 = len, or `9 + len` bytes with the u64 length at bytes 1..8; the payload follows the header unchanged |
| ProtocolDataFrame.LongLayout | protocol/frame_data.ts:57-61 | a LONG frame is the flags byte, the 8-byte big-endian length and the payload |
| ProtocolDataFrame.ShortRoundTrip | protocol/frame_data.ts:17-28 | for payloads of at most 255 bytes, `payload(build(p)) == p` |
| ProtocolDataFrame.LongPayloadAsWritten | protocol/frame_data.ts:21-23 | for a LONG frame the getter reads from offset 5, so it returns the last 4 bytes of the length field then the payload without its last 4 bytes |
| ProtocolDataFrame.LongPayloadDiffers | protocol/frame_data.ts:21-23 | a 256-byte payload does not come back from its built frame |
| ProtocolDataFrame.SizeOfBuilt | protocol/frame_data.ts:50-71 | the frame reader of the other draft sees a built frame's size as the payload length, its MORE as `hasMore` and its type as Message |
| ProtocolDataFrame.BuildMessage | core/utils.ts:14-21 | a message built with `hasMore(m).payload(d)` has the bytes of `d` and MORE iff `m` |
| ProtocolFrame.DefaultValue | protocol/frame.ts:13-28 | `defaultValue` is 64 bytes: 0xFF at 0, 0x01 at 8, 0x7F at 9, 3 at 10, "NULL" at 12..15, 1 at 32 and zeros elsewhere, the layout the greeting builder of proto/greeting.ts produces for version 3.0, NULL, as server |
| ProtocolFrame.Greeting.Signature | protocol/frame.ts:34-36 | `signature` is the first 10 bytes of the body (fewer when the body is shorter) |
| ProtocolFrame.Greeting.SecurityMechism | protocol/frame.ts:44-46 | `securityMechism` is the 20 bytes `12..32` |
| ProtocolFrame.DefaultGetters | protocol/frame.ts:34-50 | on the default greeting `signature` is the 10 signature bytes, `version` is `(3, 0)`, `securityMechism` is "NULL" padded with zeros and `isServer` holds |
| ProtocolFrame.Frame.DecodeAsCommand | protocol/frame.ts:91-94 | `decodeAsCommand` keeps the bytes from the payload offset on, none when the body is shorter |
| ProtocolFrame.CommandNameAt | protocol/frame.ts:87-105 | the payload offset is 2, or 9 for LONG frames; the command name is the `body[off]` bytes after the length byte at that offset, decoded as UTF-8 with a leading byte-order mark dropped; a body that ends at the offset has the empty name |
| ProtocolFrame.FlagsAgree | protocol/frame.ts:1-3 | this draft and the later one read the same type, LONG, MORE and payload offset from every body |
| ProtocolFrame.NamesAgree | protocol/frame.ts:101-105 | on ASCII bytes this draft's UTF-8 name and the later draft's one-byte-per-character name agree |
| ProtocolFrame.ReadyIsReady | protocol/frame.ts:74-105 | a READY frame built by the later draft is a Command named "READY" in this draft |
| ProtocolFrame.FiveByteName | protocol/frame.ts:101-105 | a short command frame whose name length byte is 5 is named by bytes 3..7 |
| ProtocolCodec.FrameSize | protocol/codec.ts:38-43 | the size `readFrame` takes is `2 + b[1]` for a short frame and 1 for a LONG one (the size is a TODO there) |
| ProtocolCodec.ReadFrame | protocol/codec.ts:33-47 | `readFrame` consumes exactly the frame's bytes, at least one, which are the next bytes of the stream; it fails only with end of file or a partial read |
| ProtocolCodec.ReadOnce | protocol/codec.ts:49-55 | `readOnce` reads a greeting iff the first byte is 0xFF and a frame otherwise, consuming exactly the bytes it returns |
| ProtocolCodec.ReadItemsStep | protocol/codec.ts:57-61 | the iterator yields what `readOnce` returns and goes on from the reader after it, and stops at the first failure |
| ProtocolCodec.ItemsStep | protocol/codec.ts:57-61 | one turn of the iterator moves one item from what is still to be read to what has been read |
| ProtocolCodec.Connection.constructor | protocol/codec.ts:63-65 | a new connection reads from the start of the stream and has written nothing |
| ProtocolCodec.Connection.Flush | protocol/codec.ts:71-73 | `flush` hands a flush to the buffered writer: it fails with the writer's stuck error, or when bytes are buffered and the peer is gone (the error then sticks); an empty buffer flushes without touching the peer |
| ProtocolCodec.Connection.Write | protocol/codec.ts:75-83 | `write` hands `bytes()` of the greeting or frame to the buffered writer unchanged: it is taken when the writer has no stuck error and the bytes fit in its 4096-byte buffer or the peer takes them, and fails otherwise |
| ProtocolCodec.Connection.Read | protocol/codec.ts:85-87 | `read` is `readOnce` on the reader |
| ProtocolCodec.Connection.Items | protocol/codec.ts:57-61 | iterating the connection to its end yields every item `readOnce` reads, in order, and the failure that ends them |
| ProtocolCodec.Connection.Next | protocol/codec.ts:58-60 | one turn of the iterator's loop reads one item and moves the reader forward |
| ProtocolCodec.LongFrameIsOneByte | protocol/codec.ts:41-46 | a LONG frame is read as its flags byte alone and the reader moves on by one byte |
| ProtocolCodec.DataFrameNotGreeting | protocol/codec.ts:52 | a built data frame never starts with 0xFF, so it is never taken for a greeting |
| ProtocolCodec.ReadShortDataFrame | protocol/codec.ts:33-55 | a built short data frame is read back whole as one frame |
| ProtocolCodec.ReadGreetingFirst | protocol/codec.ts:49-54 | 64 bytes starting with 0xFF are read as one greeting |
| ProtocolCodec.ReadOneAfter | protocol/codec.ts:49-55 | a built short data frame after a greeting is read as the next item |
| ProtocolCodec.GreetingThenFrame | protocol/codec.ts:57-61 | a stream holding a greeting then a short data frame yields the greeting then the frame |
| ProtocolCodec.DefaultGreetingIsRead | protocol/codec.ts:49-54 | every greeting the builder makes is read as a greeting |
| ProtocolConnection.ReadGreetingFrom | protocol/connection.ts:36-40 | `readGreeting` takes 64 bytes, and when it succeeds they are the next 64 bytes of the stream |
| ProtocolConnection.FrameSize | protocol/connection.ts:43-54 | the size `readFrame` takes is at least 2 |
| ProtocolConnection.ReadFrame | protocol/connection.ts:42-58 | `readFrame` consumes exactly the frame's bytes, which are the next bytes of the stream |
| ProtocolConnection.GenFramesStep | protocol/connection.ts:60-64 | `genFrames` yields the frame `readFrame` returns and goes on from the reader after it, and stops at the first failure |
| ProtocolConnection.SameFrames | protocol/connection.ts:42-58 | this draft's `readFrame` sizes and reads frames exactly as `transport/connection.ts`'s `read` does, the u64 at offset 2 of the buffer included |
| ProtocolConnection.Connection.constructor | protocol/connection.ts:71-76 | a new connection reads from the start of the stream, has written nothing and has no handler and no caches |
| ProtocolConnection.Connection.Close | protocol/connection.ts:78-80 | `close` calls the closer when there is one and does nothing otherwise |
| ProtocolConnection.Connection.PeekVersionMajor | protocol/connection.ts:82-88 | a cached non-zero major is returned as is; otherwise byte 10 of an 11-byte peek is returned and cached; a short stream fails with `EOFError` without running the handler; the reader never moves |
| ProtocolConnection.Connection.ReadGreeting | protocol/connection.ts:90-92 | `readGreeting` is `ReadGreetingFrom` on the reader and runs no handler |
| ProtocolConnection.Connection.PeekSignature | protocol/connection.ts:94-100 | a cached signature is returned as is; otherwise the 10 peeked bytes are returned and cached; a short stream fails with `EOFError`; the reader never moves |
| ProtocolConnection.Connection.OnClose | protocol/connection.ts:102-104 | `onClose` replaces any handler registered before |
| ProtocolConnection.Connection.Flush | protocol/connection.ts:106-108 | `flush` hands a flush to the buffered writer: it fails with a stuck error, or when bytes are buffered and the peer is gone; it never runs the close handler |
| ProtocolConnection.Connection.Write | protocol/connection.ts:110-120 | `write` hands `bytes()` of a greeting or frame, or raw bytes, to the buffered writer unchanged; a write that fits the buffer is taken even when the peer is gone, one that does not fit fails then, and a stuck error fails every write |
| ProtocolConnection.Connection.Read | protocol/connection.ts:122-133 | `read` is `readFrame` on the reader; on failure the handler, if any, is cleared and then run once |
| ProtocolConnection.Connection.Frames | protocol/connection.ts:135-137 | the async iterator yields `genFrames` of the reader and never runs the handler |
| ProtocolConnection.FailTwice | protocol/connection.ts:122-133 | two failing reads run the handler once: the first clears it |
| ProtocolConnection.ReplaceHandler | protocol/connection.ts:102-104 | after two `onClose` calls a failing read runs only the second handler |
| TransportConnection.FrameSize | transport/connection.ts:138-149 | the size `read` takes is at least 2, and at least 9 for a LONG frame; a stream too short for the peek is `EOFError` |
| TransportConnection.ReadFrame | transport/connection.ts:136-157 | `read` consumes exactly the frame's bytes, which are the next bytes of the stream and hold the whole size field; it fails only with end of file or a partial read |
| TransportConnection.ReadAll | transport/connection.ts:171-180 | every frame the async iterator yields holds its whole size field |
| TransportConnection.ReadAllStep | transport/connection.ts:171-180 | the iterator yields the frame `read` returns and goes on from the reader after it, and stops at the first failure |
| TransportConnection.Connection.constructor | transport/connection.ts:44-48 | a new connection reads from the start of the stream and has written nothing, with no handlers, no caches and no tags |
| TransportConnection.Connection.SetTag | transport/connection.ts:54-61 | `setTag(t)` adds `t` to the tags (creating the set on the first call), keeps earlier tags, changes nothing else and returns the same connection |
| TransportConnection.Connection.Close | transport/connection.ts:67-69 | `close` closes the underlying connection and does not run the close handlers |
| TransportConnection.Connection.OnceClose | transport/connection.ts:108-114 | `onceClose` appends the handler after those already registered |
| TransportConnection.Connection.NotifyClose | transport/connection.ts:159-169 | `notifyClose` runs every pending handler once, in registration order, and leaves none pending |
| TransportConnection.Connection.PeekVersionMajor | transport/connection.ts:71-82 | a cached non-zero major is returned without touching the reader; otherwise byte 10 of an 11-byte peek is returned and cached, and a short stream runs the close handlers and fails with `EOFError`; the reader never moves |
| TransportConnection.Connection.ReadGreeting | transport/connection.ts:84-93 | `readGreeting` consumes 64 bytes and returns them as a greeting; a failed read runs the close handlers and fails |
| TransportConnection.Connection.PeekSignature | transport/connection.ts:95-106 | a cached signature is returned as is; otherwise the 10 peeked bytes are returned and cached, and a short stream runs the close handlers and fails with `EOFError`; the reader never moves |
| TransportConnection.Connection.Flush | transport/connection.ts:116-118 | `flush` hands a flush to the `BufWriter`: with bytes buffered and the peer gone it fails and the error sticks; it never runs the close handlers |
| TransportConnection.Connection.Write | transport/connection.ts:120-134 | `write` hands `bytes()` of a greeting or frame, or raw bytes, to the `BufWriter` unchanged and returns their length; a write that fits the 4096-byte buffer is taken even when the peer is gone; a refused write (stuck error, or peer gone and no room) runs the close handlers and fails |
| TransportConnection.Connection.Read | transport/connection.ts:136-157 | `read` is `ReadFrame` on the reader; on failure the close handlers run |
| TransportConnection.Connection.Frames | transport/connection.ts:171-184 | iterating the connection to its end yields `ReadAll` of the reader and runs the close handlers |
| TransportConnection.PeeksAreGreetingPrefix | transport/connection.ts:71-106 | on a stream holding a greeting, the peeked signature and major are bytes 0..9 and byte 10 of the greeting `readGreeting` returns |
| TransportConnection.ShortFrameSize | transport/connection.ts:143-144 | a short frame is `2 + b[1]` bytes, and `read` returns exactly those bytes when the stream holds them |
| TransportConnection.LongFrameSize | transport/connection.ts:146-148 | a LONG frame is 9 plus the u64 read at offset 2 of the reader's whole buffer, not at offset 1 of the frame |
| TransportConnection.LongFrameMisread | transport/connection.ts:148 | for a built LONG frame at the start of the stream, the size read is `9 + len*256 + p[0]`, not `9 + len` |
| TransportConnection.ReadBuiltFrame | transport/connection.ts:136-152 | a built short data frame anywhere in the stream is read back whole, and the reader moves past it |
| TransportConnection.NotifyTwice | transport/connection.ts:159-169 | running the handlers twice runs each registered handler only once |
| TransportConnection.TagTwice | transport/connection.ts:54-65 | after `setTag(a).setTag(b)` both tags are present |
| MiscUnboundedQueue.Unbounded.constructor | misc/unbounded.ts:3-7 | a new queue has a pending head, is neither loaded nor closed, and holds nothing |
| MiscUnboundedQueue.Unbounded.InnerPush | misc/unbounded.ts:9-17 | on a closed queue `innerPush` fails and changes nothing; otherwise the item joins the end of the queue's contents, resolving a pending head (and setting `loaded`) when there is one |
| MiscUnboundedQueue.Unbounded.Close | misc/unbounded.ts:19-23 | `close` appends the `null` sentinel once and marks the queue closed; closing again changes nothing |
| MiscUnboundedQueue.Unbounded.Push | misc/unbounded.ts:25-27 | `push` after `close` fails; otherwise the item joins the end of the contents |
| MiscUnboundedQueue.Unbounded.Load | misc/unbounded.ts:29-44 | `load` returns 0 and changes nothing when loaded; otherwise it creates a missing head, and returns 1 iff the backlog was not empty, moving its oldest item into the head; afterwards `loaded` holds iff the queue holds something; the contents never change |
| MiscUnboundedQueue.Unbounded.Next | misc/unbounded.ts:46-54 | with no head `next` gives `null` when closed and fails when not; a pending head suspends; a loaded head yields the oldest item and clears both the head and `loaded` |
| MiscUnboundedQueue.Take | misc/unbounded_test.ts:22-24 | one `load` then `next` takes the oldest item, or suspends on an empty queue |
| MiscUnboundedQueue.PushCloseDrain | misc/unbounded_test.ts:7-33 | pushing 0..total-1, closing, then draining with `load` + `next` until `null` yields each item exactly once in push order |
| UnboundedQueue.Unbounded.constructor | unbounded.ts:3-6 | a new queue has a pending head, is not loaded and holds nothing |
| UnboundedQueue.Unbounded.Push | unbounded.ts:8-15 | `push` resolves a pending head (setting `loaded`), or else appends to the backlog; either way the item joins the end of the contents |
| UnboundedQueue.Unbounded.Load | unbounded.ts:17-32 | `load` returns 0 and changes nothing when loaded; otherwise it creates a missing head, and returns 1 iff the backlog was not empty, moving its oldest item into the head; the contents never change |
| UnboundedQueue.Unbounded.Next | unbounded.ts:34-40 | with no head `next` fails with "call load first"; a pending head suspends; a loaded head yields the oldest item and clears the head and `loaded`, so a new `load` is needed |
| UnboundedQueue.Take | unbounded_test.ts:6-9 | one `load` then `next` takes the oldest item, or suspends on an empty queue |
| UnboundedQueue.PushThree | unbounded_test.ts:15-19 | three pushes onto an empty queue leave the three counter values in order |
| UnboundedQueue.TakeThree | unbounded_test.ts:6-9 | three `load` + `next` turns take the three items in push order and empty the queue |
| UnboundedQueue.PushInRounds | unbounded_test.ts:1-22 | rounds of three pushes each followed by a consumer draining them yield 1, 2, 3, … in order, each once, and the consumer then waits |
| CoreUtils.DelimiterIsEmptyHasMore | core/utils.ts:11 | the delimiter part is written as the bytes of `EMPTY_HAS_MORE` |
| CoreUtils.MessageParts | core/utils.ts:14-21 | one part per message, in order, each the message's bytes, with MORE on all but the last |
| CoreUtils.SendMessages | core/utils.ts:5-24 | no messages fails before anything is written; otherwise `EMPTY_HAS_MORE`, one data frame per message (MORE on all but the last) and one flush are handed to the buffered writer until it refuses one; a refused write runs the close handlers, a refused flush does not |
| CoreUtils.WriteMessages | core/utils.ts:14-21 | the loop and the last write hand one data frame per message to the writer, in order, until it refuses one; the refusal runs the close handlers and stops the loop |
| CoreUtils.WriteData | core/utils.ts:15-16 | a message is written as the data frame built with its MORE flag and its bytes; the write fails exactly when the writer refuses it, and then runs the close handlers |
| CoreUtils.WritesSnoc | core/utils.ts:14-17 | each turn of the loop appends the next part's frame to the writes |
| CoreUtils.DelimiterRefused | core/utils.ts:11 | when the delimiter write is refused, nothing else is handed over and the result is a write error |
| CoreUtils.MessageRefused | core/utils.ts:14-21 | when one part's write is refused, the delimiter and the parts before it were taken and the result is a write error |
| CoreUtils.MessagesTaken | core/utils.ts:11-23 | when every write was taken, the result is that of the final flush, a flush error when it is refused |
| CoreUtils.WriteTurn | core/utils.ts:14-17 | one turn of the loop either extends the taken writes by the next part or ends the run with a write error |
| CoreUtils.EnvelopeShape | core/utils.ts:11-23 | exactly `n + 2` events: `EMPTY_HAS_MORE`, then the `n` data frames with MORE on all but the last, then a single flush after all writes |
| CoreUtils.WritesAt | core/utils.ts:14-21 | the `k`-th write is the `k`-th part's frame |
| CoreUtils.SentWrites | core/utils.ts:14-23 | the bytes sent are the parts' frames one after the other; the flush adds none |
| CoreUtils.EnvelopeWire | core/utils.ts:11-23 | the bytes `sendMessages` sends are the delimiter then the message parts |
| CoreUtils.WholeReadable | core/socket.ts:125-129 | a frame `read` returns has a size and a payload a reader can take |
| CoreUtils.Encodings | core/utils.ts:15 | the bytes of each message, in order |
| CoreUtils.PartsTail | core/utils.ts:14-21 | the parts after the first are the parts of the messages after the first |
| CoreUtils.EncodingsCons | core/utils.ts:15 | the bytes of the messages are those of the first, then those of the rest |
| CoreUtils.Frames | core/utils.ts:15-21 | the frame each part is written as |
| CoreUtils.ReadWire | transport/connection.ts:171-180 | the parts' bytes, all short, are read back as exactly their frames, and then the stream ends |
| CoreUtils.FramesCons | core/utils.ts:14-21 | the frames of the parts are the first part's frame then those of the rest |
| CoreUtils.ReadAtEnd | transport/connection.ts:138-139 | at the end of the stream the iterator yields nothing and ends with `EOFError` |
| CoreUtils.ReadBuiltPart | transport/connection.ts:136-157 | a short part's frame in the stream is read whole, and the iterator goes on after it |
| CoreUtils.EnvelopeReadBack | core/utils.ts:11-23 | the bytes `sendMessages` sends, read by a peer, are `EMPTY_HAS_MORE` then the data frames with MORE on all but the last |
| CoreUtils.Views | core/reply.ts:55-77 | what the receive loops look at in each frame: MORE, `size` and `payload` |
| CoreUtils.ReadableFrames | core/reply.ts:55-77 | every frame `read` returns has a readable size and payload |
| CoreUtils.PartViews | core/utils.ts:14-21 | what the receive loops see in each written part |
| CoreUtils.BuiltViews | protocol/frame_data.ts:16-29 | the frames of short parts show their MORE flag, their length as size and their bytes as payload |
| CoreUtils.ReadViews | core/utils.ts:11-23 | the parts' bytes read back show each part's MORE flag, size and payload, and then the stream ends |
| CoreUtils.Writes | core/utils.ts:14-21 | one write per part |
| CoreUtils.SentNoWrites | core/utils.ts:23 | a flush sends no bytes |
| CoreSocket.CheckReady | core/socket.ts:71-79 | the first frame after the greetings passes exactly when it was read and is a READY command; a frame that is not fails with the handshake error, a failed read keeps its error |
| CoreSocket.HandshakesAgree | core/socket.ts:43-84 | once eleven bytes can be peeked, the server's and the client's handshakes, given the same writer, read the same greeting and first frame and agree on the outcome, and success means a READY command |
| CoreSocket.BuiltReadyPasses | core/socket.ts:65-79 | the READY frame either side builds passes the other side's READY check |
| CoreSocket.SocketTypeAscii | core/socket.ts:66 | every socket-type name is ASCII |
| CoreSocket.MetadataAscii | core/socket.ts:65-67 | the metadata both sides put in READY is ASCII, so the builder accepts it |
| CoreSocket.BuildGreeting | core/socket.ts:56 | the greeting the sockets send is the default greeting's bytes |
| CoreSocket.BuildReady | core/socket.ts:65-67 | the READY frame built from the metadata has the READY command's bytes |
| CoreSocket.ServerSocket.constructor | core/socket.ts:30-35 | a new server socket has its type, is not bound and has no connections |
| CoreSocket.ServerSocket.Bind | core/socket.ts:86-96 | a second bind fails with `bind already!`; a first one marks the socket bound; neither changes the connections |
| CoreSocket.ServerSocket.ApplyDrop | core/socket.ts:44 | the close handler removes the connection from the set once it has run, and nothing else |
| CoreSocket.ServerSocket.HandleConn | core/socket.ts:43-84 | the connection joins the set with a close handler registered first; the outcome, the bytes written and the writer left are those of the server handshake; a failed read or a refused write runs the handler, which drops it from the set; a failed flush or a READY check failure leaves it in the set |
| CoreSocket.ServerSocket.Register | core/socket.ts:44-46 | registers the close handler and adds the connection to the set, changing nothing else |
| CoreSocket.RunServerHandshake | core/socket.ts:48-79 | runs peekSignature, the greeting reply and its flush, peekVersionMajor, readGreeting, the READY exchange and the READY check; the result, the bytes written, the writer left and the handlers run follow the server handshake function |
| CoreSocket.GreetFailure | core/socket.ts:48-62 | when the greeting stage fails, the handshake fails with that read, write or flush error and nothing beyond the greeting stage is written |
| CoreSocket.AnswerReady | core/socket.ts:65-79 | after the greetings got through, the server writes its READY to an empty healthy writer, reads the peer's first frame and checks it; the writer is left empty |
| CoreSocket.GreetPeer | core/socket.ts:48-62 | the greeting stage: a short stream fails with end of file; otherwise the greeting and its flush go to the writer, and a refusal fails with a write error (handlers run) or a flush error (none run); on success the peer's 64-byte greeting is consumed |
| CoreSocket.ServerGreet | core/socket.ts:48-58 | the signature peek needs ten bytes; then the default greeting is written and flushed until the writer refuses one: to a dead peer the 64-byte write is buffered and the flush fails without running the close handlers |
| CoreSocket.ReadPeerGreeting | core/socket.ts:60-62 | the version peek needs eleven bytes; then the peer's greeting is read whole; any failure runs the close handlers |
| CoreSocket.ServerReady | core/socket.ts:65-79 | on a live connection with an empty writer the READY frame with the metadata is written and flushed, then the first frame is read and checked; only a failed read runs the close handlers |
| CoreSocket.GreetedLive | core/socket.ts:56-58 | the greeting and its flush get through only to a live peer, and then leave the writer empty and without error |
| CoreSocket.GreetSuccess | core/socket.ts:48-65 | when the greeting stage succeeds the peer is live, the writer is empty, and the server writes its greeting then its READY |
| CoreSocket.GreetSteps | core/socket.ts:56-58 | the greeting stage refuses at the write (write error), at the flush (flush error), or takes both |
| CoreSocket.Collect | core/socket.ts:117-133 | the receive loop leaves the reader on the same stream |
| CoreSocket.CollectAll | core/socket.ts:117-133 | the receive loop over the stream is the same as the loop over the frames the connection reads from it and the error that ends them |
| CoreSocket.CollectParts | core/socket.ts:124-131 | the frames of one written message are received as exactly the non-empty payloads, in order |
| CoreSocket.CollectStep | core/socket.ts:124-131 | one turn of the receive loop keeps the payload and goes on exactly while the frame has MORE |
| CoreSocket.PayloadsAssoc | core/socket.ts:129 | payloads gathered in pieces join into one list |
| CoreSocket.TakeBuilt | core/socket.ts:126-130 | a short part's frame adds its payload exactly when it is non-empty, and has MORE exactly when the part does |
| CoreSocket.PayloadsOfMessages | core/utils.ts:14-21 | when no message is empty, the received payloads are the messages' bytes |
| CoreSocket.ReceiveSent | core/socket.ts:111-133 | what `send` writes (delimiter, delimiter and message parts), read by `receive`, is the messages' non-empty payloads |
| CoreSocket.SentParts | core/socket.ts:111-115 | the bytes `send` writes are short parts forming one message, and reading them yields exactly their frames, then end of file |
| CoreSocket.DelimitedWire | core/socket.ts:111-115 | the bytes `send` writes are the wire form of two delimiters followed by the message parts |
| CoreSocket.DelimitedShape | core/socket.ts:111-115 | the parts `send` writes are short and only the last lacks MORE |
| CoreSocket.ReceiveFrom | core/socket.ts:117-133 | the receive loop reads frames while MORE is set, keeping each non-empty payload; result and new reader follow the receive function |
| CoreSocket.Socket.constructor | core/socket.ts:99-103 | a new client socket has its type and no transport or connection |
| CoreSocket.Socket.MustGetConn | core/socket.ts:105-109 | the connection when there is one, otherwise `ConnectionNotReadyError` |
| CoreSocket.Socket.Connect | core/socket.ts:135-140 | a second connect fails with `connect already!` and changes nothing; a first one records the connection and runs the client handshake, with its result, bytes written and writer |
| CoreSocket.Socket.Handshake | core/socket.ts:142-165 | the client writes and flushes its greeting, and a refused write or flush fails the handshake; it then reads the peer's greeting and first frame, checks that it is READY and only then writes its READY; result, bytes and writer follow the client handshake function |
| CoreSocket.Socket.Send | core/socket.ts:111-115 | without a connection it fails; otherwise a delimiter, then `sendMessages` (a second delimiter, the parts, a flush) go to the writer until it refuses one; no messages fails after the first delimiter |
| CoreSocket.Socket.Receive | core/socket.ts:117-133 | without a transport it fails with `ConnectionNotReadyError`; otherwise the payloads and the new reader follow the receive function |
| CoreSocket.ClientReady | core/socket.ts:150-164 | reads and checks the first frame; only after a READY arrives is the client's READY written and flushed, to a writer left empty |
| CoreSocket.ClientGreet | core/socket.ts:144-145 | the client writes and flushes its greeting until the writer refuses one, whose error is the result; no handler runs |
| CoreSocket.SendOn | core/socket.ts:111-115 | on one connection: a delimiter, then `sendMessages`, go to the writer until it refuses one; a refused write runs the close handlers; no messages fails after the first delimiter |
| CoreReply.GenChunkFailure | core/reply.ts:71-76 | the chunk generator ends quietly on end of file and rethrows any other error |
| CoreReply.GenChunkParts | core/reply.ts:58-69 | the frames of one message yield one request, after any payloads already gathered, and the generator goes on with an empty list |
| CoreReply.RequestOfMessages | core/reply.ts:58-69 | when no message is empty, the request is the messages' bytes |
| CoreReply.RequestRoundTrip | core/reply.ts:30-34 | what `send` writes (delimiter, delimiter and message parts), read by the chunk generator, is one request holding the messages' bytes |
| CoreReply.OneRequest | core/reply.ts:55-77 | the frames of one message, then end of file, yield exactly one request and end quietly |
| CoreReply.DelimitedRequest | core/reply.ts:67-69 | the empty delimiter frames add nothing to the request |
| CoreReply.Queued | core/reply.ts:80-82 | one queued chunk per request, each carrying the connection |
| CoreReply.Replier.constructor | core/reply.ts:22-28 | a new REP socket is unbound, has no connections, no active connection and an empty store |
| CoreReply.Replier.Send | core/reply.ts:30-34 | without an active connection it fails; otherwise a delimiter then `sendMessages` go to the active connection's writer until it refuses one; a refused write runs the close handlers, which drop the connection, while a refused flush runs none and the connection stays |
| CoreReply.Replier.NextRequest | core/reply.ts:36-45 | the iterator takes the store's head: a chunk makes its connection the active one and yields its requests; the end marker ends; an empty store suspends |
| CoreReply.Replier.OnConnect | core/reply.ts:79-83 | every request read from the connection is pushed to the store in order; the read error that ends it runs the close handlers, and only a non-EOF error is reported |
| CoreReply.Replier.Accept | core/socket.ts:43-84 | the server handshake; on failure the connection stays in the set exactly when no handler ran (a failed flush or READY check); on success every request read after it is queued and the connection is dropped when its stream ends |
| CoreReply.Replier.PushAll | core/reply.ts:80-82 | pushes each chunk to the store, in order |
| CorePub.Leave | core/pub.ts:24-28 | the close handler removes the connection from every topic it is tagged with and leaves the rest |
| CorePub.JoinTagged | core/pub.ts:39-46 | after a join, the connection's tags still name every topic set it is in |
| CorePub.LeaveRemovesAll | core/pub.ts:24-28 | when the tags name every topic the connection is in, after the close handler it is in none, and the other connections are where they were |
| CorePub.LeaveUndoesJoin | core/pub.ts:24-46 | a connection that joined one topic and then closes leaves the map as before, except that the topic entry may remain empty |
| CorePub.FindConns | core/pub.ts:50-58 | the subscribers of the topic named by the first message, found by its text or by its UTF-8 decoding (a leading byte-order mark dropped); none when that topic has no entry |
| CorePub.FindJoined | core/pub.ts:50-58 | a connection that joined a topic is found by that topic given as text; given as its UTF-8 bytes, the topic finds what the topic less a leading byte-order mark finds, which is the same unless the topic starts with U+FEFF |
| CorePub.TopicsStep | core/pub.ts:68-75 | after one delivery, each topic has lost exactly the connections done so far whose write was refused with the topic-leaving handler pending |
| CorePub.ConnsStep | core/pub.ts:68-75 | after one delivery, the dropped connections are those done so far whose write was refused with the dropping handler pending |
| CorePub.Publisher.constructor | core/pub.ts:16-21 | a new PUB socket is unbound, has no connections and an empty topic map |
| CorePub.SubscribedTopic | core/pub.ts:31-37 | a frame subscribes exactly when it is a MESSAGE frame, to its payload after the first byte, decoded |
| CorePub.LiveSubscriberServed | core/pub.ts:68-74 | a subscriber on a live connection whose writer has no error gets the messages and the flush, stays in the socket and its topics, and runs no handler |
| CorePub.DeadSubscriberLingers | core/pub.ts:68-74 | a subscriber whose peer is gone but whose writer has room is not dropped by this send (the write is buffered, only the flush fails, no handler runs); the error sticks, so the next send's write is refused and drops it from the socket and its topics |
| CorePub.Publisher.ApplyLeave | core/pub.ts:24-28 | once the close handler has run, the connection leaves its tagged topics; otherwise the map is unchanged |
| CorePub.Publisher.OnConnect | core/pub.ts:23-48 | registers the close handler, reads one frame; a failed read runs the handlers; a MESSAGE frame's payload after its first byte, decoded with a leading byte-order mark dropped, becomes a tag and the connection joins that topic; a command frame changes nothing |
| CorePub.Publisher.Send | core/pub.ts:60-76 | without subscribers to the first message's topic nothing happens; otherwise every subscriber's writer is handed the encoded messages and a flush until it refuses one; a refused write runs that subscriber's close handlers (leaving its topics, leaving the socket), a refused flush runs none, and the loop goes on |
| CorePub.Publisher.DeliverAll | core/pub.ts:68-75 | the loop over the subscribers delivers to each exactly once |
| CorePub.Publisher.DeliverNext | core/pub.ts:68-75 | one turn of the loop delivers to one more subscriber |
| CorePub.Publisher.Deliver | core/pub.ts:69-74 | write then flush to one subscriber, swallowing the failure; only a refused write runs its close handlers, which take it out of its tagged topics and the socket |
| CorePub.Publisher.Accept | core/socket.ts:43-84 | the server handshake, then `onConnect`: a subscribed connection is tagged and in the topic map; a failed read drops it from the set and the topics |
| CorePub.Publisher.Handshaken | core/socket.ts:83 | after a successful handshake, `onConnect` leaves a subscribed connection tagged and in its topic, and a failed read drops it |
| CoreSub.IterNonEmpty | core/sub.ts:21-41 | the iterator never yields an empty list |
| CoreSub.IterFailure | core/sub.ts:35-40 | the iterator ends quietly on end of file and rethrows any other error |
| CoreSub.Bodies | core/sub.ts:27-30 | one payload per frame, in order |
| CoreSub.IterMore | core/sub.ts:27-28 | MORE frames add their payloads, whatever their size |
| CoreSub.IterParts | core/sub.ts:26-33 | the frames of one message with a non-empty last part yield one list: the carried payloads then the message's |
| CoreSub.BodiesOfMessages | core/utils.ts:14-21 | the payloads of the parts are the messages' bytes |
| CoreSub.PublishRoundTrip | core/pub.ts:66 | the bytes a publisher sends, read by the iterator, yield the messages' bytes once, when the last message is non-empty |
| CoreSub.WireAppend | core/pub.ts:66 | the wire form of two part lists is the two wire forms one after the other |
| CoreSub.IterCarry | core/sub.ts:26-33 | a message ending in an empty part yields nothing and its other payloads are carried into the next list |
| CoreSub.CarryPrefix | core/sub.ts:26-33 | after a message ending in an empty part, the iterator goes on carrying that message's other payloads |
| CoreSub.SkipAfterMore | core/sub.ts:29 | a final frame with size zero is skipped without yielding |
| CoreSub.ConcatViews | core/sub.ts:25-26 | the frames of two part lists are the frames of each, in order |
| CoreSub.IterWhole | core/sub.ts:26-33 | a whole message, at the end of the stream, yields one list and ends quietly |
| CoreSub.EmptyLastCarriesOver | core/sub.ts:26-33 | a published message whose last part is empty is merged into the next message's list, minus the empty part |
| CoreSub.TwoMessagesWire | core/pub.ts:66 | two publications on the wire are the wire form of their parts joined, all short |
| CoreSub.ShortAppend | core/utils.ts:14-21 | joining short part lists keeps them short |
| CoreSub.BodiesBeforeLast | core/utils.ts:14-21 | the payloads before the last part are the bytes of the messages before the last |
| CoreSub.SubscribeRoundTrip | core/sub.ts:47-57 | the subscribe frame of a topic shorter than 255 bytes is read by the publisher as a subscription to that topic less a leading byte-order mark, so to exactly that topic iff it does not start with U+FEFF |
| CoreSub.SubscribeThenFind | core/sub.ts:47-57 | after the publisher reads the subscribe frame, a send to the topic less a leading byte-order mark finds the subscriber, and so does a send to the topic itself when it does not start with U+FEFF |
| CoreSub.Subscriber.constructor | core/sub.ts:17-19 | a new SUB socket has no transport and no connection |
| CoreSub.Subscriber.Messages | core/sub.ts:21-41 | without a connection it fails with `ConnectionNotReadyError`; otherwise it yields the lists the iterator function gives for the frames read, and only a non-EOF error is reported |
| CoreSub.Subscriber.Subscribe | core/sub.ts:47-57 | without a connection it fails; otherwise one data frame holding `0x01` then the topic's UTF-8 bytes, then a flush, go to the writer until it refuses one, whose error is the result |
| CoreSub.SubscribeBomLost | core/sub.ts:47-57 | a topic "\uFEFFx" is read by the publisher as "x", so a send to the topic as given finds no subscriber |
| CoreSub.SubscribeGetsThrough | core/sub.ts:47-57 | on a writer without error the subscription gets through exactly when the peer is live, leaving the writer empty |

## Left out

- Text: the `toString`/JSON renderings of frames, greetings and commands are not modelled; they are debugging output only.
- Text: the one-byte decoder of `misc/mod.ts` is modelled as mapping each byte to the character with the same code. Its windows-1252 mapping of 0x80-0x9F is not modelled.
- Text: the UTF-8 decoder replaces each malformed byte with U+FFFD one byte at a time. The WHATWG rule, which replaces a maximal malformed subpart at once, is not modelled. The round-trip lemmas only decode well-formed encodings.
- Sizes read from 8-byte fields are exact integers. JavaScript `Number` precision above 2^53 is not modelled.
- Io: `BufReader` is a stream and a position. Its buffer size and compaction are not modelled, and neither is a partial `peek` at end of stream. A `peek` of more bytes than remain is treated as end of file.
- Io: the backing buffer of a peeked view is the stream from its first byte. This is what `new DataView(b.buffer)` sees for LONG frame sizes.
- Concurrency is not modelled: the accept loop of `bind`, the un-awaited `onConnect`, and interleaved async iterators. Each connection is followed by itself, one call after another.
- Sockets, connections and transports are not opened. The listener, dialler and `Deno.Conn` come from `transport.ts`, which is not part of this model. Connections are given to the sockets as values.
- `socket.ts`, `context.ts` and `request.ts` (the older socket API) are not part of this model.
- Close handlers are closures in the source. Here they are tags (`DropConn`, `LeaveTopics`), and each socket applies its own handler's effect after the connection has run it.
- `proto/frame_data.ts`, `protocol/greeting.ts`, `consts.ts`, `misc/mod.ts`, `codec.ts` and `misc.ts` are not part of this model. The core uses the data frame of `protocol/frame_data.ts` in their place.
- Text.Decode: `UTF8_DECODER` of `misc/mod.ts` and the `Decoder`/`Encoder` of `misc/mod.ts` and `codec.ts` are taken to be the `TextDecoder`/`TextEncoder` pair that `buffer.ts` uses: UTF-8, dropping a leading byte-order mark on decode. This is an assumption about files outside the model.
- CorePub.EncodeMessages: `encodeMessages` is not part of this model. It is taken to be the data frames of the messages, MORE on all but the last, with no delimiter.
- Buffer.ReadUint: `readUint64` is not part of this model. It is taken to read big-endian, like the other DataView reads.
- CoreSocket.ServerSocket.HandleConn: `validateSignature` always returns true, so the path that closes the connection on a bad signature is not modelled.
- CoreSocket.ServerSocket.HandleConn: a READY check failure throws without closing the connection. It stays in `conns`, as in the source.
- CoreSocket.Socket.Connect: opening the TCP connection is not modelled, and neither is the state a failed connect leaves behind.
- CoreSocket.ReceiveSent: the round trip is proved only for messages of at most 255 bytes, and only when the stream ends after the message. LONG frames are sized by their 8-byte field.
- CoreReply.RequestRoundTrip: the round trip is proved only for messages of at most 255 bytes, and only when the stream ends after the message.
- CoreSub.PublishRoundTrip: the round trip is proved only for messages of at most 255 bytes, and only when the stream ends after the message.
- CorePub.Publisher.Send: the order in which the subscribers are written to is not modelled. The contract states what each subscriber receives and what the close handlers leave behind, whatever the order.
- CoreSub.Subscriber.Messages: the iterator is run to the end of the stream. The lists it would yield one at a time are returned together.
- CoreSub.SubscribeRoundTrip: proved only for topics under 255 bytes of UTF-8. Longer topics make a LONG frame, which the publisher reads with the 8-byte size.
- MiscUnboundedQueue.Unbounded.Next: a `next` that would suspend on a pending head returns `Waiting` and leaves the queue as it was. A later `push` is what resolves the promise.
- UnboundedQueue.Unbounded.Next: a `next` that would suspend on a pending head returns `Waiting` and leaves the queue as it was. A later `push` is what resolves the promise.
- Logging (`log.debug`, `log.error`) is not modelled.
- ProtoReady.ReadyBuilder.Build: requires ASCII metadata. `payloadSize` counts `.length`, so a non-ASCII entry writes more bytes than were counted. Past the capacity the source cuts strings short or throws a `RangeError`, and that path is not modelled.
- Buffer.LengthPrefixedRoundTrip: proved for strings of at most 1020 UTF-8 bytes, which fit the test's 1024-byte encoder with the 4-byte length.
- Buffer.Encoder.WriteByte: requires room for the byte. Past the capacity the source's typed-array store drops the byte but still moves the cursor; that is not modelled.
- Buffer.Encoder.WriteString: requires room for the whole encoding. Past the capacity `encodeInto` writes only what fits and the cursor moves by that; that is not modelled.
- Buffer.Encoder.WriteUint8Array: requires room for the array. Past the capacity `set` throws a `RangeError`; that is not modelled.
- Buffer.Encoder.WriteUint16: requires room for the value. Past the capacity its DataView setter throws a `RangeError`; that is not modelled.
- Buffer.Encoder.WriteInt16: requires room for the value. Past the capacity its DataView setter throws a `RangeError`; that is not modelled.
- Buffer.Encoder.WriteUint32: requires room for the value. Past the capacity its DataView setter throws a `RangeError`; that is not modelled.
- Buffer.Encoder.WriteInt32: requires room for the value. Past the capacity its DataView setter throws a `RangeError`; that is not modelled.
- Buffer.Encoder.WriteUint64: requires room for the value. Past the capacity its DataView setter throws a `RangeError`; that is not modelled.
- Buffer.Encoder.WriteInt64: requires room for the value. Past the capacity its DataView setter throws a `RangeError`; that is not modelled.
- ProtoGreeting.GreetingBuilder.Version: `version(major = 3, minor = 0)` has default arguments; the model takes both numbers as required parameters, so a call without them is `Version(3, 0)`.
- ProtoGreeting.GreetingBuilder.AsServer: `asServer(asServer = true)` has a default argument; the model takes the flag as a required parameter, so a call without it is `AsServer(true)`.
- Io.Step: a write larger than the buffer that goes to the peer directly is taken or refused as a whole. `BufWriter`'s partial writes (`n < p.length`) and its short-write error are not modelled.
- Io.Step: the peer's liveness is the connection's `open` field and does not change during a call. A peer that goes away half way through a write is not modelled.
- Io.Refusal: a refused write is reported as `WriteFailed` and a refused flush as `FlushFailed`. The error's identity (the stuck `BufWriter.err`) is not modelled.
- CorePub.Publisher.Send: a subscriber whose peer has gone but whose writer still has room stays subscribed after the send; it is dropped by a later send whose write is refused (`CorePub.DeadSubscriberLingers`).
