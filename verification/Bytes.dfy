/** Byte strings and the four-byte big-endian lengths that both wire formats use. */
module Bytes {
  type byte = b: int | 0 <= b < 256

  type ByteString = seq<byte>

  const U32_LIMIT: nat := 0x1_0000_0000

  /** struct.pack(">I", n), for the lengths it accepts. */
  function PackU32(n: nat): (r: ByteString)
    requires n < U32_LIMIT
    ensures |r| == 4
  {
    [n / 0x100_0000, n / 0x1_0000 % 256, n / 256 % 256, n % 256]
  }

  /** struct.unpack(">I", b)[0]. */
  function UnpackU32(b: ByteString): (n: nat)
    requires |b| == 4
    ensures n < U32_LIMIT
  {
    var b0: int, b1: int, b2: int, b3: int := b[0], b[1], b[2], b[3];
    ((b0 * 256 + b1) * 256 + b2) * 256 + b3
  }

  lemma UnpackPack(n: nat)
    requires n < U32_LIMIT
    ensures UnpackU32(PackU32(n)) == n
  {
    var a, b, c := n / 0x100_0000, n / 0x1_0000, n / 256;
    assert n == c * 256 + n % 256;
    assert c == b * 256 + c % 256;
    assert b == a * 256 + b % 256;
  }

  /** The most significant byte comes first. */
  lemma NetworkByteOrder(a: byte, b: byte, c: byte, d: byte)
    ensures var n := 16777216 * a as int + 65536 * b as int + 256 * c as int + d as int;
            0 <= n < U32_LIMIT && UnpackU32([a, b, c, d]) == n && PackU32(n) == [a, b, c, d]
  {
    PackUnpack([a, b, c, d]);
  }

  lemma PackUnpack(b: ByteString)
    requires |b| == 4
    ensures PackU32(UnpackU32(b)) == b
  {
    var b0: int, b1: int, b2: int, b3: int := b[0], b[1], b[2], b[3];
    var n := UnpackU32(b);
    assert n / 256 == (b0 * 256 + b1) * 256 + b2;
    assert n / 0x1_0000 == b0 * 256 + b1;
    assert n / 0x100_0000 == b0;
  }

  function Flatten(parts: seq<ByteString>): (r: ByteString)
  {
    if parts == [] then [] else parts[0] + Flatten(parts[1..])
  }

  lemma Associative(a: ByteString, b: ByteString, c: ByteString)
    ensures a + b + c == a + (b + c)
  {
  }

  lemma FlattenFirst(before: ByteString, parts: seq<ByteString>)
    requires parts != []
    ensures before + Flatten(parts) == before + parts[0] + Flatten(parts[1..])
  {
  }

  lemma {:induction false} FlattenAppend(a: seq<ByteString>, b: seq<ByteString>)
    ensures Flatten(a + b) == Flatten(a) + Flatten(b)
  {
    if a == [] {
      assert a + b == b;
    } else {
      assert (a + b)[0] == a[0] && (a + b)[1..] == a[1..] + b;
      FlattenAppend(a[1..], b);
    }
  }
}
