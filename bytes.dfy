/** Machine integer types of the Qt program and the UTF-8 encoding that
    QString::toUtf8 applies to the delimiter strings and to console input. */
module Bytes {

  /** An 8-bit unsigned value (quint8, one element of a QByteArray). */
  newtype byte = x: int | 0 <= x < 0x100

  /** The 16- and 32-bit unsigned results of the checksum primitives. */
  newtype uint16 = x: int | 0 <= x < 0x1_0000
  newtype uint32 = x: int | 0 <= x < 0x1_0000_0000

  /** The received-bytes counter (quint64). */
  newtype uint64 = x: int | 0 <= x < 0x1_0000_0000_0000_0000

  /** The bytes of an ASCII literal such as "crc8:", written out. */
  function Ascii(s: string): (r: seq<byte>)
    requires forall i :: 0 <= i < |s| ==> s[i] as int < 0x80
    ensures |r| == |s|
    ensures forall i :: 0 <= i < |s| ==> r[i] as int == s[i] as int
  {
    if s == [] then [] else [s[0] as int as byte] + Ascii(s[1..])
  }

  /** UTF-8 encoding of one Unicode scalar value. */
  function EncodeChar(c: char): (r: seq<byte>)
    ensures 1 <= |r| <= 4
    ensures |r| == 1 <==> c as int < 0x80
    ensures |r| == 1 ==> r[0] as int == c as int
    ensures |r| > 1 ==> forall i :: 0 <= i < |r| ==> r[i] as int >= 0x80
  {
    var n := c as int;
    assert n < 0x11_0000;
    if n < 0x80 then [n as byte]
    else if n < 0x800 then
      [(0xC0 + n / 0x40) as byte, (0x80 + n % 0x40) as byte]
    else if n < 0x1_0000 then
      [(0xE0 + n / 0x1000) as byte, (0x80 + (n / 0x40) % 0x40) as byte, (0x80 + n % 0x40) as byte]
    else
      [(0xF0 + n / 0x4_0000) as byte, (0x80 + (n / 0x1000) % 0x40) as byte,
       (0x80 + (n / 0x40) % 0x40) as byte, (0x80 + n % 0x40) as byte]
  }

  /** QString::toUtf8 for a string of scalar values. Every character yields at
      least one byte, so a non-empty string never encodes to an empty array. */
  function Utf8(s: string): (r: seq<byte>)
    ensures |r| >= |s|
    ensures s != [] ==> r != []
    ensures (forall i :: 0 <= i < |s| ==> s[i] as int < 0x80) ==> r == Ascii(s)
  {
    if s == [] then [] else EncodeChar(s[0]) + Utf8(s[1..])
  }

  /** The unsigned value of a big-endian byte string: the first byte is the most
      significant. */
  function BigEndian(bs: seq<byte>): (v: nat)
    ensures v < Pow256(|bs|)
  {
    if bs == [] then 0 else BigEndian(bs[..|bs| - 1]) * 0x100 + bs[|bs| - 1] as int
  }

  /** Two and four bytes read most significant first. */
  lemma BigEndianPair(a: byte, b: byte)
    ensures BigEndian([a, b]) == a as int * 0x100 + b as int
  {
    assert [a, b][..1] == [a];
    assert [a][..0] == [];
  }

  lemma BigEndianQuad(a: byte, b: byte, c: byte, d: byte)
    ensures BigEndian([a, b, c, d]) == a as int * 0x100_0000 + b as int * 0x1_0000 + c as int * 0x100 + d as int
  {
    assert [a, b, c, d][..3] == [a, b, c];
    assert [a, b, c][..2] == [a, b];
    BigEndianPair(a, b);
  }

  lemma BigEndianSingle(a: byte)
    ensures BigEndian([a]) == a as int
  {
    assert [a][..0] == [];
  }

  function Pow256(n: nat): (p: nat)
    ensures p >= 1
  {
    if n == 0 then 1 else 0x100 * Pow256(n - 1)
  }
}
