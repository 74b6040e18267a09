/** Bytes and the fixed-width integer fields that `struct` packs and unpacks. */
module Bytes {

  type byte = x: int | 0 <= x < 0x100
  type bytes = seq<byte>
  type uint16 = x: int | 0 <= x < 0x1_0000
  type uint32 = x: int | 0 <= x < 0x1_0000_0000

  datatype Option<+T> = None | Some(value: T)

  /** The `H` field of a big-endian `struct` format. */
  function Big16(n: uint16): (s: bytes)
    ensures |s| == 2
  {
    [n / 0x100, n % 0x100]
  }

  function ReadBig16(s: bytes): uint16
    requires |s| == 2
  {
    s[0] as int * 0x100 + s[1]
  }

  /** The `I` field of a big-endian `struct` format. */
  function Big32(n: uint32): (s: bytes)
    ensures |s| == 4
  {
    Big16(n / 0x1_0000) + Big16(n % 0x1_0000)
  }

  function ReadBig32(s: bytes): uint32
    requires |s| == 4
  {
    ReadBig16(s[..2]) * 0x1_0000 + ReadBig16(s[2..])
  }

  lemma Big16RoundTrip(n: uint16)
    ensures ReadBig16(Big16(n)) == n
  {
  }

  lemma Big16Inverse(s: bytes)
    requires |s| == 2
    ensures Big16(ReadBig16(s)) == s
  {
  }

  lemma Big32RoundTrip(n: uint32)
    ensures ReadBig32(Big32(n)) == n
  {
    assert Big32(n)[..2] == Big16(n / 0x1_0000);
    assert Big32(n)[2..] == Big16(n % 0x1_0000);
  }

  lemma Big32Inverse(s: bytes)
    requires |s| == 4
    ensures Big32(ReadBig32(s)) == s
  {
    var hi, lo := ReadBig16(s[..2]), ReadBig16(s[2..]);
    assert ReadBig32(s) / 0x1_0000 == hi && ReadBig32(s) % 0x1_0000 == lo;
    Big16Inverse(s[..2]);
    Big16Inverse(s[2..]);
    assert s == s[..2] + s[2..];
  }

  /** The number a byte string spells with its most significant byte first (network order). */
  function BigEndian(s: bytes): nat
  {
    if s == [] then 0 else BigEndian(s[..|s| - 1]) * 0x100 + s[|s| - 1]
  }

  lemma BigEndianSnoc(s: bytes, b: byte)
    ensures BigEndian(s + [b]) == BigEndian(s) * 0x100 + b
  {
    assert (s + [b])[..|s|] == s;
  }

  lemma BigEndianTwo(s: bytes)
    requires |s| == 2
    ensures BigEndian(s) == ReadBig16(s)
  {
    BigEndianSnoc([], s[0]);
    BigEndianSnoc([s[0]], s[1]);
    assert s == [s[0]] + [s[1]] && [] + [s[0]] == [s[0]];
  }

  lemma BigEndianFour(s: bytes)
    requires |s| == 4
    ensures BigEndian(s) == ReadBig32(s)
  {
    BigEndianTwo(s[..2]);
    BigEndianSnoc(s[..2], s[2]);
    BigEndianSnoc(s[..2] + [s[2]], s[3]);
    assert s == s[..2] + [s[2]] + [s[3]];
  }

  /** The bytes of printable text; anything else is no byte of the protocol and stands as 0. */
  function Ascii(s: string): (r: bytes)
    ensures |r| == |s|
  {
    seq(|s|, i requires 0 <= i < |s| => AsciiCode(s[i]))
  }

  function AsciiCode(c: char): byte
  {
    if ' ' <= c <= '~' then c as int else 0
  }

  /** The bytes of a list of buffers, back to back (`b"".join`). */
  function Concat(parts: seq<bytes>): bytes
  {
    if parts == [] then [] else parts[0] + Concat(parts[1..])
  }
}
