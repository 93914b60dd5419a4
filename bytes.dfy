/** Bytes, big-endian integers and flag bits. */
module Bytes {

  type byte = x: int | 0 <= x < 256

  function Pow256(n: nat): (r: nat)
    ensures r > 0
  {
    if n == 0 then 1 else 256 * Pow256(n - 1)
  }

  /** The unsigned big-endian number written in `s`. */
  function BigEndian(s: seq<byte>): (v: nat)
    ensures v < Pow256(|s|)
  {
    if s == [] then 0
    else
      var p := BigEndian(s[..|s| - 1]);
      assert p <= Pow256(|s| - 1) - 1;
      assert p * 256 <= Pow256(|s|) - 256;
      p * 256 + s[|s| - 1]
  }

  /**
   * The `width` low-order bytes of `v`, most significant first: what a
   * `DataView.setUintN`/`setIntN` stores (the value taken modulo 256^width,
   * so a negative value becomes its two's complement).
   */
  function ToBigEndian(v: int, width: nat): (s: seq<byte>)
    ensures |s| == width
    decreases width
  {
    if width == 0 then [] else ToBigEndian(v / 256, width - 1) + [v % 256]
  }

  /** Two's-complement reading of an unsigned `width`-byte value. */
  function Signed(v: nat, width: nat): int
  {
    if 2 * v >= Pow256(width) then v - Pow256(width) else v
  }

  lemma Pow256Values()
    ensures Pow256(1) == 0x100 && Pow256(2) == 0x1_0000
    ensures Pow256(4) == 0x1_0000_0000 && Pow256(8) == 0x1_0000_0000_0000_0000
  {
    assert Pow256(1) == 0x100;
    assert Pow256(2) == 0x1_0000;
    assert Pow256(3) == 0x100_0000;
    assert Pow256(4) == 0x1_0000_0000;
    assert Pow256(5) == 0x100_0000_0000;
    assert Pow256(6) == 0x1_0000_0000_0000;
    assert Pow256(7) == 0x100_0000_0000_0000;
  }

  /** `flags & f !== 0` for a single-bit mask `f` (1, 2 or 4). */
  predicate HasFlag(flags: byte, f: nat)
    requires f == 1 || f == 2 || f == 4
  {
    (flags / f) % 2 == 1
  }

  lemma DivModUnique(v: int, m: int, q: int, r: int)
    requires m > 0 && 0 <= r < m && v == m * q + r
    ensures v / m == q && v % m == r
  {
    var d := v / m - q;
    assert m * d == r - v % m;
    if d > 0 {
      MulAtLeast(m, d);
    } else if d < 0 {
      MulAtLeast(m, -d);
    }
  }

  /** Concatenation of byte strings is associative. */
  lemma AppendAssoc(a: seq<byte>, b: seq<byte>, c: seq<byte>)
    ensures a + b + c == a + (b + c)
  {
  }

  /** A slice of the tail of a concatenation is a slice of the tail. */
  lemma AppendSlice(h: seq<byte>, x: seq<byte>, i: nat, j: nat)
    requires i <= j <= |x|
    ensures (h + x)[|h| + i..|h| + j] == x[i..j]
  {
  }

  /** A slice of bytes found at `c` holds each of its own slices. */
  lemma SliceAt(b: seq<byte>, c: nat, x: seq<byte>, i: nat, j: nat)
    requires c + |x| <= |b| && b[c..c + |x|] == x && i <= j <= |x|
    ensures b[c + i..c + j] == x[i..j]
  {
    forall k | 0 <= k < j - i
      ensures b[c + i..c + j][k] == x[i..j][k]
    {
      assert b[c..c + |x|][i + k] == x[i + k];
    }
  }

  lemma MulAtLeast(m: int, d: int)
    requires m > 0 && d > 0
    ensures m * d >= m
  {
  }

  lemma ModSplit(v: int, p: nat)
    requires p > 0
    ensures v % (256 * p) == ((v / 256) % p) * 256 + v % 256
  {
    var q, r := v / 256, v % 256;
    var a, b := q / p, q % p;
    assert v == 256 * q + r;
    assert q == p * a + b;
    assert v == (256 * p) * a + (b * 256 + r);
    assert b * 256 + r < 256 * p by {
      assert b <= p - 1;
      assert b * 256 <= (p - 1) * 256;
    }
    DivModUnique(v, 256 * p, a, b * 256 + r);
  }

  /** Reading back what `ToBigEndian` wrote yields the value modulo 256^width. */
  lemma {:induction false} BigEndianOfToBigEndian(v: int, width: nat)
    ensures BigEndian(ToBigEndian(v, width)) == v % Pow256(width)
    decreases width
  {
    if width > 0 {
      var s := ToBigEndian(v, width);
      assert s[..width - 1] == ToBigEndian(v / 256, width - 1);
      BigEndianOfToBigEndian(v / 256, width - 1);
      ModSplit(v, Pow256(width - 1));
    }
  }

  /** Writing back a value read from `s` reproduces `s`. */
  lemma {:induction false} ToBigEndianOfBigEndian(s: seq<byte>)
    ensures ToBigEndian(BigEndian(s), |s|) == s
  {
    if s != [] {
      var p := s[..|s| - 1];
      DivModUnique(BigEndian(s), 256, BigEndian(p), s[|s| - 1]);
      ToBigEndianOfBigEndian(p);
      assert s == p + [s[|s| - 1]];
    }
  }

  /** A value that fits in `width` bytes reads back unchanged. */
  lemma BigEndianRoundTrip(v: nat, width: nat)
    requires v < Pow256(width)
    ensures BigEndian(ToBigEndian(v, width)) == v
  {
    BigEndianOfToBigEndian(v, width);
    DivModUnique(v, Pow256(width), 0, v);
  }

  /** Dropping the most significant byte of a `width + 1`-byte encoding
      leaves the `width`-byte encoding. */
  lemma {:induction false} ToBigEndianDropFirst(v: int, width: nat)
    ensures ToBigEndian(v, width + 1)[1..] == ToBigEndian(v, width)
    decreases width
  {
    if width > 0 {
      ToBigEndianDropFirst(v / 256, width - 1);
      assert ToBigEndian(v, width + 1) == ToBigEndian(v / 256, width) + [v % 256];
    }
  }

  /** Appending a byte shifts the number one byte up. */
  lemma BigEndianAppend(s: seq<byte>, x: byte)
    ensures BigEndian(s + [x]) == BigEndian(s) * 256 + x
  {
    assert (s + [x])[..|s|] == s;
  }
}
