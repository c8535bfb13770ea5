/** Byte strings and the fixed-width little-endian integers of the archive format. */
module Bytes {

  type byte = n: int | 0 <= n < 256
  type Bytes = seq<byte>

  const U64_LIMIT := 0x1_0000_0000_0000_0000
  type u64 = n: int | 0 <= n < 0x1_0000_0000_0000_0000

  /** The bytes of an ASCII literal. */
  function Ascii(text: string): (bs: Bytes)
    ensures |bs| == |text|
  {
    seq(|text|, i requires 0 <= i < |text| => (text[i] as int) % 256)
  }

  function Zeros(n: nat): (bs: Bytes)
    ensures |bs| == n
  {
    seq(n, _ => 0)
  }

  function Pow256(width: nat): (p: nat)
    ensures p >= 1
  {
    if width == 0 then 1 else 256 * Pow256(width - 1)
  }

  lemma Pow256Values()
    ensures Pow256(2) == 0x1_0000
    ensures Pow256(4) == 0x1_0000_0000
    ensures Pow256(8) == U64_LIMIT
  {
    assert Pow256(1) == 256;
    assert Pow256(3) == 0x100_0000;
    assert Pow256(5) == 0x100_0000_0000;
    assert Pow256(6) == 0x1_0000_0000_0000;
    assert Pow256(7) == 0x100_0000_0000_0000;
  }

  function LittleEndian(n: nat, width: nat): (bs: Bytes)
    ensures |bs| == width
  {
    if width == 0 then [] else [n % 256] + LittleEndian(n / 256, width - 1)
  }

  function FromLittleEndian(bs: Bytes): (n: nat)
    ensures n < Pow256(|bs|)
  {
    if bs == [] then 0 else bs[0] + 256 * FromLittleEndian(bs[1..])
  }

  lemma {:induction false} LittleEndianDecodes(n: nat, width: nat)
    requires n < Pow256(width)
    ensures FromLittleEndian(LittleEndian(n, width)) == n
  {
    if width > 0 {
      LittleEndianDecodes(n / 256, width - 1);
      assert LittleEndian(n, width)[1..] == LittleEndian(n / 256, width - 1);
    }
  }

  lemma {:induction false} LittleEndianEncodes(bs: Bytes)
    ensures LittleEndian(FromLittleEndian(bs), |bs|) == bs
  {
    if bs != [] {
      LittleEndianEncodes(bs[1..]);
      var n := FromLittleEndian(bs);
      assert n % 256 == bs[0] && n / 256 == FromLittleEndian(bs[1..]);
      assert bs == [bs[0]] + bs[1..];
    }
  }

  function Flatten(chunks: seq<Bytes>): (bs: Bytes)
  {
    if chunks == [] then [] else Flatten(chunks[..|chunks| - 1]) + chunks[|chunks| - 1]
  }

  /** `prefix` is an initial segment of `whole`. */
  predicate StartsWith(whole: Bytes, prefix: Bytes) {
    |prefix| <= |whole| && whole[..|prefix|] == prefix
  }

  // ---------------------------------------------------------------------- UTF-8

  /** The encoding of section 3 of RFC 3629. */
  function Utf8(c: char): (bs: Bytes)
    ensures 1 <= |bs| <= 4
  {
    var n := c as int;
    var m := n / 0x40;
    var q := m / 0x40;
    if n <= 0x7F then [n]
    else if n <= 0x7FF then [0xC0 + m, 0x80 + n % 0x40]
    else if n <= 0xFFFF then [0xE0 + q, 0x80 + m % 0x40, 0x80 + n % 0x40]
    else [0xF0 + q / 0x40, 0x80 + q % 0x40, 0x80 + m % 0x40, 0x80 + n % 0x40]
  }

  /** The code point of an encoded character, by the bits of its bytes. */
  function CodePoint(bytes: seq<int>): int {
    match |bytes|
    case 1 => bytes[0]
    case 2 => (bytes[0] - 0xC0) * 64 + (bytes[1] - 0x80)
    case 3 => ((bytes[0] - 0xE0) * 64 + (bytes[1] - 0x80)) * 64 + (bytes[2] - 0x80)
    case 4 => (((bytes[0] - 0xF0) * 64 + (bytes[1] - 0x80)) * 64 + (bytes[2] - 0x80)) * 64 + (bytes[3] - 0x80)
    case _ => -1
  }

  lemma Utf8Decodes(c: char)
    ensures CodePoint(Utf8(c)) == c as int
    ensures forall i :: 0 < i < |Utf8(c)| ==> 0x80 <= Utf8(c)[i] < 0xC0
  {
  }

  function Utf8Text(text: string): Bytes {
    if text == [] then [] else Utf8(text[0]) + Utf8Text(text[1..])
  }
}
