/** Bytes, and the numbers they spell in either order. */
module Bytes {
  type byte = x: int | 0 <= x < 256

  /** The number the bytes spell, least significant byte first. */
  function LittleEndian(s: seq<byte>): (n: nat) {
    if s == [] then 0 else s[0] + 256 * LittleEndian(s[1..])
  }

  /** n on the given number of bytes, least significant first. */
  function LittleEndianBytes(n: nat, width: nat): (s: seq<byte>)
    ensures |s| == width
  {
    if width == 0 then [] else [n % 256] + LittleEndianBytes(n / 256, width - 1)
  }

  function Power256(k: nat): (n: nat)
    ensures n > 0
  {
    if k == 0 then 1 else 256 * Power256(k - 1)
  }

  lemma {:induction false} LittleEndianRoundTrip(n: nat, width: nat)
    requires n < Power256(width)
    ensures LittleEndian(LittleEndianBytes(n, width)) == n
  {
    if width > 0 {
      LittleEndianRoundTrip(n / 256, width - 1);
    }
  }

  lemma {:induction false} LittleEndianBytesRoundTrip(s: seq<byte>)
    ensures LittleEndian(s) < Power256(|s|)
    ensures LittleEndianBytes(LittleEndian(s), |s|) == s
  {
    if s != [] {
      LittleEndianBytesRoundTrip(s[1..]);
      assert s == [s[0]] + s[1..];
    }
  }

  /** n on the given number of bytes, most significant first. */
  function BigEndianBytes(n: nat, width: nat): (s: seq<byte>)
    ensures |s| == width
  {
    if width == 0 then [] else BigEndianBytes(n / 256, width - 1) + [n % 256]
  }

  /** The number the bytes spell, most significant byte first. */
  function BigEndian(s: seq<byte>): (n: nat) {
    if s == [] then 0 else 256 * BigEndian(s[..|s| - 1]) + s[|s| - 1]
  }

  lemma {:induction false} BigEndianRoundTrip(n: nat, width: nat)
    requires n < Power256(width)
    ensures BigEndian(BigEndianBytes(n, width)) == n
  {
    if width > 0 {
      BigEndianRoundTrip(n / 256, width - 1);
    }
  }

  lemma {:induction false} BigEndianBytesRoundTrip(s: seq<byte>)
    ensures BigEndian(s) < Power256(|s|)
    ensures BigEndianBytes(BigEndian(s), |s|) == s
  {
    if s != [] {
      BigEndianBytesRoundTrip(s[..|s| - 1]);
      assert s == s[..|s| - 1] + [s[|s| - 1]];
    }
  }

  /** Which byte counts for how much, either way. */
  lemma FourByteNumbers(a: byte, b: byte, c: byte, d: byte)
    ensures BigEndian([a, b, c, d]) == 0x100_0000 * a + 0x1_0000 * b + 0x100 * c + d
    ensures LittleEndian([a, b, c, d]) == a + 0x100 * b + 0x1_0000 * c + 0x100_0000 * d
  {
    assert [a, b, c, d][..3] == [a, b, c] && [a, b, c][..2] == [a, b] && [a, b][..1] == [a] && [a][..0] == [];
    assert [a, b, c, d][1..] == [b, c, d] && [b, c, d][1..] == [c, d] && [c, d][1..] == [d] && [d][1..] == [];
    assert BigEndian([a]) == a && BigEndian([a, b]) == 0x100 * a + b;
    assert LittleEndian([d]) == d && LittleEndian([c, d]) == c + 0x100 * d;
  }

  function Concat(parts: seq<seq<byte>>): seq<byte> {
    if parts == [] then [] else parts[0] + Concat(parts[1..])
  }

  lemma {:induction false} ConcatSplit(a: seq<seq<byte>>, b: seq<seq<byte>>)
    ensures Concat(a + b) == Concat(a) + Concat(b)
  {
    if a == [] {
      assert a + b == b;
    } else {
      assert (a + b)[1..] == a[1..] + b;
      ConcatSplit(a[1..], b);
    }
  }
}
