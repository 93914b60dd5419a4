/**
 * Text encoding as the library uses it: `TextEncoder` (UTF-8), the UTF-8
 * `TextDecoder`, the ASCII decoder, and JavaScript's `String.length`
 * (UTF-16 code units), which the READY builder uses as a byte count.
 */
module Text {
  import opened Bytes

  predicate IsAscii(s: string)
  {
    forall i :: 0 <= i < |s| ==> s[i] as int < 0x80
  }

  predicate IsContinuation(b: byte)
  {
    0x80 <= b < 0xC0
  }

  /** The UTF-8 bytes of one code point. */
  function EncodeChar(c: char): (r: seq<byte>)
    ensures 1 <= |r| <= 4
    ensures |r| == 1 <==> c as int < 0x80
  {
    var n := c as int;
    if n < 0x80 then [n]
    else if n < 0x800 then [0xC0 + n / 64, 0x80 + n % 64]
    else if n < 0x10000 then [0xE0 + n / 4096, 0x80 + (n / 64) % 64, 0x80 + n % 64]
    else [0xF0 + n / 262144, 0x80 + (n / 4096) % 64, 0x80 + (n / 64) % 64, 0x80 + n % 64]
  }

  /** `TextEncoder.encode`. */
  function Encode(s: string): seq<byte>
  {
    if s == [] then [] else EncodeChar(s[0]) + Encode(s[1..])
  }

  /**
   * Decodes one code point at the start of `b`, returning it with the number
   * of bytes used; a byte that does not start a well-formed sequence becomes
   * U+FFFD and is skipped alone.
   */
  function DecodeOne(b: seq<byte>): (r: (char, nat))
    requires |b| > 0
    ensures 1 <= r.1 <= |b|
  {
    var b0: int := b[0];
    if b0 < 0x80 then ((b0 as char), 1)
    else if 0xC2 <= b0 < 0xE0 && |b| >= 2 && IsContinuation(b[1]) then
      var n := (b0 - 0xC0) * 64 + (b[1] - 0x80);
      ((n as char), 2)
    else if 0xE0 <= b0 < 0xF0 && |b| >= 3 && IsContinuation(b[1]) && IsContinuation(b[2])
      && Utf8Value3(b0, b[1], b[2]) >= 0x800 && !(0xD800 <= Utf8Value3(b0, b[1], b[2]) < 0xE000) then
      var n := Utf8Value3(b0, b[1], b[2]);
      ((n as char), 3)
    else if 0xF0 <= b0 < 0xF5 && |b| >= 4 && IsContinuation(b[1]) && IsContinuation(b[2])
      && IsContinuation(b[3]) && 0x10000 <= Utf8Value4(b0, b[1], b[2], b[3]) < 0x110000 then
      var n := Utf8Value4(b0, b[1], b[2], b[3]);
      ((n as char), 4)
    else ((0xFFFD as char), 1)
  }

  function Utf8Value3(b0: int, b1: int, b2: int): int
  {
    (b0 - 0xE0) * 4096 + (b1 - 0x80) * 64 + (b2 - 0x80)
  }

  function Utf8Value4(b0: int, b1: int, b2: int, b3: int): int
  {
    (b0 - 0xF0) * 262144 + (b1 - 0x80) * 4096 + (b2 - 0x80) * 64 + (b3 - 0x80)
  }

  /** The code points UTF-8 decoding reads from `b`, one after another. */
  function DecodeStream(b: seq<byte>): string
    decreases |b|
  {
    if b == [] then []
    else
      var r := DecodeOne(b);
      [r.0] + DecodeStream(b[r.1..])
  }

  /** The byte-order mark U+FEFF. */
  const BOM: char := 0xFEFF as char

  /** `s` without one leading byte-order mark. */
  function StripBom(s: string): string
  {
    if s != [] && s[0] == BOM then s[1..] else s
  }

  /** The UTF-8 `TextDecoder.decode` with its default `ignoreBOM: false`:
      a leading byte-order mark (the bytes EF BB BF) is dropped. */
  function Decode(b: seq<byte>): string
  {
    StripBom(DecodeStream(b))
  }

  /** The ASCII decoder: every byte becomes the character with that code. */
  function AsciiDecode(b: seq<byte>): (s: string)
    ensures |s| == |b|
  {
    seq(|b|, i requires 0 <= i < |b| => (b[i] as char))
  }

  /** JavaScript's `String.length`: code points above U+FFFF count twice. */
  function JsLength(s: string): nat
  {
    if s == [] then 0 else (if s[0] as int >= 0x10000 then 2 else 1) + JsLength(s[1..])
  }

  lemma DecodeOneOfEncodeChar(c: char, rest: seq<byte>)
    ensures DecodeOne(EncodeChar(c) + rest) == (c, |EncodeChar(c)|)
  {
    var n := c as int;
    var b := EncodeChar(c) + rest;
    if 0x800 <= n < 0x10000 {
      assert (n / 64) / 64 == n / 4096;
      assert n == (n / 4096) * 4096 + ((n / 64) % 64) * 64 + n % 64;
    } else if n >= 0x10000 {
      assert (n / 64) / 64 == n / 4096;
      assert (n / 4096) / 64 == n / 262144;
      assert n == (n / 262144) * 262144 + ((n / 4096) % 64) * 4096 + ((n / 64) % 64) * 64 + n % 64;
    }
  }

  /** Decoding what the encoder produced reads the original code points. */
  lemma {:induction false} DecodeStreamEncode(s: string)
    ensures DecodeStream(Encode(s)) == s
  {
    if s != [] {
      var e := EncodeChar(s[0]);
      DecodeOneOfEncodeChar(s[0], Encode(s[1..]));
      assert (e + Encode(s[1..]))[|e|..] == Encode(s[1..]);
      DecodeStreamEncode(s[1..]);
    }
  }

  /** Decoding what the encoder produced gives the original string back,
      except that a leading byte-order mark is lost. */
  lemma DecodeEncode(s: string)
    ensures Decode(Encode(s)) == StripBom(s)
    ensures Decode(Encode(s)) == s <==> s == [] || s[0] != BOM
  {
    DecodeStreamEncode(s);
    if s != [] && s[0] == BOM {
      assert |s[1..]| < |s|;
    }
  }

  /** An ASCII string cannot start with the mark, so it decodes back whole. */
  lemma AsciiDecodeEncode(s: string)
    requires IsAscii(s)
    ensures Decode(Encode(s)) == s
  {
    DecodeEncode(s);
    if s != [] {
      assert s[0] as int < 0x80;
    }
  }

  /** The decoder drops the mark: EF BB BF 78 decodes to "x", not "\uFEFFx". */
  lemma BomDropped()
    ensures Decode([0xEF, 0xBB, 0xBF, 0x78]) == "x"
    ensures DecodeStream([0xEF, 0xBB, 0xBF, 0x78]) == [BOM, 'x']
  {
    var b: seq<byte> := [0xEF, 0xBB, 0xBF, 0x78];
    assert DecodeOne(b) == (BOM, 3);
    assert b[3..] == [0x78];
    assert DecodeStream([0x78]) == ['x'] by {
      assert [0x78][1..] == [];
    }
  }

  /** The encoding is never shorter than `String.length`, and has exactly that
      length iff the string is ASCII. */
  lemma {:induction false} EncodeLength(s: string)
    ensures |Encode(s)| >= JsLength(s)
    ensures |Encode(s)| == JsLength(s) <==> IsAscii(s)
  {
    if s != [] {
      EncodeLength(s[1..]);
      if IsAscii(s) {
        assert IsAscii(s[1..]) by {
          forall i | 0 <= i < |s[1..]| ensures s[1..][i] as int < 0x80 {
            assert s[1..][i] == s[i + 1];
          }
        }
      } else if IsAscii(s[1..]) {
        assert s[0] as int >= 0x80 by {
          if s[0] as int < 0x80 {
            forall i | 0 <= i < |s| ensures s[i] as int < 0x80 {
              if i > 0 { assert s[i] == s[1..][i - 1]; }
            }
          }
        }
      } else {
        assert !IsAscii(s[1..]);
      }
    }
  }

  /** An ASCII string has one UTF-16 unit per character. */
  lemma {:induction false} AsciiJsLength(s: string)
    requires IsAscii(s)
    ensures JsLength(s) == |s|
  {
    if s != [] {
      assert IsAscii(s[1..]) by {
        forall i | 0 <= i < |s[1..]| ensures s[1..][i] as int < 0x80 {
          assert s[1..][i] == s[i + 1];
        }
      }
      AsciiJsLength(s[1..]);
    }
  }

  /** An ASCII string encodes to its own character codes. */
  lemma {:induction false} EncodeAscii(s: string)
    requires IsAscii(s)
    ensures |Encode(s)| == |s| == JsLength(s)
    ensures forall i :: 0 <= i < |s| ==> Encode(s)[i] == s[i] as int
  {
    EncodeLength(s);
    if s != [] {
      assert IsAscii(s[1..]) by {
        forall i | 0 <= i < |s[1..]| ensures s[1..][i] as int < 0x80 {
          assert s[1..][i] == s[i + 1];
        }
      }
      EncodeAscii(s[1..]);
    }
  }

  /** On ASCII bytes the ASCII decoder and the UTF-8 decoder agree. */
  lemma AsciiDecodeOfAscii(b: seq<byte>)
    requires forall i :: 0 <= i < |b| ==> b[i] < 0x80
    ensures AsciiDecode(b) == Decode(b)
  {
    AsciiDecodeStream(b);
  }

  lemma {:induction false} AsciiDecodeStream(b: seq<byte>)
    requires forall i :: 0 <= i < |b| ==> b[i] < 0x80
    ensures AsciiDecode(b) == DecodeStream(b)
  {
    if b != [] {
      AsciiDecodeStream(b[1..]);
      assert AsciiDecode(b) == [b[0] as char] + AsciiDecode(b[1..]);
    }
  }
}
