/** Bytes and the little-endian integers of the wire format. */
module Bytes {

  type byte = x: int | 0 <= x < 256

  datatype Option<+T> = None | Some(value: T)

  const TWO31 := 0x8000_0000
  const TWO32 := 0x1_0000_0000

  /** The low 16 bits of `v`, least significant byte first. Euclidean `%` gives the
      two's-complement truncation for negative `v`. */
  function U16(v: int): (w: seq<byte>)
    ensures |w| == 2
  {
    [v % 256, v / 256 % 256]
  }

  /** The low 32 bits of `v`, least significant byte first. */
  function U32(v: int): (w: seq<byte>)
    ensures |w| == 4
  {
    U16(v) + U16(v / 65536)
  }

  function U64(v: int): seq<byte> {
    U32(v) + U32(v / TWO32)
  }

  function ReadU16(s: seq<byte>, i: nat): nat
    requires i + 2 <= |s|
  {
    (s[i] as int) + 256 * (s[i + 1] as int)
  }

  function ReadU32(s: seq<byte>, i: nat): nat
    requires i + 4 <= |s|
  {
    ReadU16(s, i) + 65536 * ReadU16(s, i + 2)
  }

  /** The signed reading of an unsigned n-bit pattern. */
  function Signed8(u: int): int { if u < 128 then u else u - 256 }
  function Signed16(u: int): int { if u < 32768 then u else u - 65536 }
  function Signed32(u: int): int { if u < TWO31 then u else u - TWO32 }

  lemma Halves16(v: int)
    ensures v % 65536 == v % 256 + 256 * (v / 256 % 256)
  {
    var q := v / 256;
    var w := 256 * (q % 256) + v % 256;
    assert v == 65536 * (q / 256) + w && 0 <= w < 65536;
  }

  lemma Halves32(v: int)
    ensures v % TWO32 == v % 65536 + 65536 * (v / 65536 % 65536)
  {
    var q := v / 65536;
    var w := 65536 * (q % 65536) + v % 65536;
    assert v == TWO32 * (q / 65536) + w && 0 <= w < TWO32;
  }

  lemma ReadU16OfU16(s: seq<byte>, i: nat, v: int)
    requires i + 2 <= |s|
    requires s[i..i + 2] == U16(v)
    ensures ReadU16(s, i) == v % 65536
  {
    Halves16(v);
    var t := s[i..i + 2];
    assert s[i] == t[0] && s[i + 1] == t[1];
  }

  lemma ReadU32OfU32(s: seq<byte>, i: nat, v: int)
    requires i + 4 <= |s|
    requires s[i..i + 4] == U32(v)
    ensures ReadU32(s, i) == v % TWO32
  {
    assert s[i..i + 2] == s[i..i + 4][..2] == U16(v);
    assert s[i + 2..i + 4] == s[i..i + 4][2..] == U16(v / 65536);
    ReadU16OfU16(s, i, v);
    ReadU16OfU16(s, i + 2, v / 65536);
    Halves32(v);
  }

  lemma U16Of(lo: byte, hi: byte, k: int)
    ensures U16(lo + 256 * (hi + 256 * k)) == [lo, hi]
  {
    var v := lo + 256 * (hi + 256 * k);
    assert v / 256 == hi + 256 * k;
  }

  /** Reading and writing are mutually inverse on 32-bit words. */
  lemma U32OfReadU32(s: seq<byte>, i: nat)
    requires i + 4 <= |s|
    ensures U32(ReadU32(s, i)) == s[i..i + 4]
    ensures ReadU32(s, i) < TWO32
  {
    var v, hi := ReadU32(s, i), ReadU16(s, i + 2);
    assert v / 65536 == hi;
    U16Of(s[i], s[i + 1], hi);
    U16Of(s[i + 2], s[i + 3], 0);
    assert s[i..i + 4] == [s[i], s[i + 1]] + [s[i + 2], s[i + 3]];
  }

  // ------------------------------------------------------------------ what is on the wire

  /** Least significant byte first, written and read. */
  lemma LittleEndian(a: byte, b: byte, c: byte, d: byte)
    ensures U16(a + 256 * b) == [a, b] && ReadU16([a, b], 0) == a + 256 * b
    ensures U32(a + 256 * b + 65536 * c + 16777216 * d) == [a, b, c, d]
    ensures ReadU32([a, b, c, d], 0) == a + 256 * b + 65536 * c + 16777216 * d
  {
    Pair(a, b);
    Pair(c, d);
    var low, high := a + 256 * b, c + 256 * d;
    var v := low + 65536 * high;
    assert v / 65536 == high;
    assert v % 256 == a && v / 256 % 256 == b by {
      assert v == 256 * (b + 256 * high) + a;
      assert b + 256 * high == v / 256;
    }
  }

  lemma Pair(a: byte, b: byte)
    ensures var v := a + 256 * b; v % 256 == a && v / 256 % 256 == b && v / 256 == b
  {
  }

  /** Eight bytes are the low word and then the high one. */
  lemma U64Bytes(low: nat, high: nat)
    requires low < 4294967296
    ensures U64(low + 4294967296 * high) == U32(low) + U32(high)
  {
    hide U32;
    var v := low + 4294967296 * high;
    assert v / TWO32 == high;
    U32Low(low, high);
  }

  lemma U32Low(low: nat, high: nat)
    requires low < 4294967296
    ensures U32(low + 4294967296 * high) == U32(low)
  {
    var v := low + 4294967296 * high;
    assert v == 256 * (low / 256 + 16777216 * high) + low % 256;
    assert v / 256 == low / 256 + 16777216 * high;
    assert v / 65536 == low / 65536 + 65536 * high;
    Halves16Sum(low, high);
  }

  lemma AddMultiple(x: nat, k: nat)
    ensures (x + 256 * k) % 256 == x % 256 && (x + 256 * k) / 256 == x / 256 + k
  {
  }

  lemma Halves16Sum(low: nat, high: nat)
    ensures (low / 256 + 16777216 * high) % 256 == low / 256 % 256
    ensures (low / 65536 + 65536 * high) % 256 == low / 65536 % 256
    ensures (low / 65536 + 65536 * high) / 256 % 256 == low / 65536 / 256 % 256
  {
    var l, m := low / 256, low / 65536;
    AddMultiple(l, 65536 * high);
    AddMultiple(m, 256 * high);
    AddMultiple(m / 256, high);
    assert l + 256 * (65536 * high) == l + 16777216 * high && m + 256 * (256 * high) == m + 65536 * high;
  }

  /** Two's complement. */
  lemma SignedReadings(v: int)
    ensures -128 <= v < 128 ==> Signed8(v % 256) == v
    ensures -32768 <= v < 32768 ==> Signed16(v % 65536) == v
    ensures -2147483648 <= v < 2147483648 ==> Signed32(v % 4294967296) == v
  {
  }
}
