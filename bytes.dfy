/**
  Byte-level helpers shared by the key server and its client: big-endian
  32-bit integers as written by ByteBuffer.putInt and read back by
  ByteBuffer.getInt, and the US-ASCII charset used for names and PEM text.
*/
module Bytes {

  /** A Java byte taken as its unsigned value. */
  type byte = b: int | 0 <= b < 256

  /** 256^k, the number of values k bytes can hold. */
  function Pow256(k: nat): (p: nat)
    ensures p >= 1
  {
    if k == 0 then 1 else 256 * Pow256(k - 1)
  }

  /** The k-byte big-endian representation of n (most significant byte first). */
  function BigEndian(n: nat, k: nat): (bs: seq<byte>)
    requires n < Pow256(k)
    ensures |bs| == k
  {
    if k == 0 then []
    else
      DivBound(n, Pow256(k - 1));
      BigEndian(n / 256, k - 1) + [n % 256]
  }

  lemma DivBound(n: nat, p: nat)
    requires n < 256 * p
    ensures n / 256 < p
  {
  }

  /** The unsigned value of a big-endian byte string. */
  function FromBigEndian(bs: seq<byte>): (n: nat)
    ensures n < Pow256(|bs|)
  {
    if bs == [] then 0
    else FromBigEndian(bs[..|bs| - 1]) * 256 + bs[|bs| - 1]
  }

  lemma {:induction false} BigEndianRoundTrip(n: nat, k: nat)
    requires n < Pow256(k)
    ensures FromBigEndian(BigEndian(n, k)) == n
  {
    if k > 0 {
      var q, r := n / 256, n % 256;
      DivBound(n, Pow256(k - 1));
      var front := BigEndian(q, k - 1);
      var bs := front + [r];
      assert BigEndian(n, k) == bs;
      assert bs[..k - 1] == front;
      BigEndianRoundTrip(q, k - 1);
      assert FromBigEndian(bs) == FromBigEndian(front) * 256 + r;
      assert n == q * 256 + r;
    }
  }

  lemma {:induction false} FromBigEndianInjective(a: seq<byte>, b: seq<byte>)
    requires |a| == |b| && FromBigEndian(a) == FromBigEndian(b)
    ensures a == b
  {
    if a != [] {
      var k := |a| - 1;
      assert a[k] == FromBigEndian(a) % 256 == b[k];
      FromBigEndianInjective(a[..k], b[..k]);
      assert a == a[..k] + [a[k]];
      assert b == b[..k] + [b[k]];
    }
  }

  /** A Java int (32 bits) written by ByteBuffer.putInt: four bytes, big-endian. */
  function PutInt(n: nat): (bs: seq<byte>)
    requires n < 0x8000_0000
    ensures |bs| == 4
  {
    BigEndian(n, 4)
  }

  /** ByteBuffer.getInt on four bytes: the big-endian value read as a signed 32-bit int. */
  function GetInt(bs: seq<byte>): (v: int)
    requires |bs| == 4
    ensures -0x8000_0000 <= v < 0x8000_0000
    ensures v >= 0 <==> bs[0] < 0x80
  {
    var u := FromBigEndian(bs);
    assert u < 0x1_0000_0000 by { assert Pow256(4) == 0x1_0000_0000; }
    FirstByteBound(bs);
    if u >= 0x8000_0000 then u - 0x1_0000_0000 else u
  }

  lemma FirstByteBound(bs: seq<byte>)
    requires |bs| == 4
    ensures FromBigEndian(bs) >= 0x8000_0000 <==> bs[0] >= 0x80
  {
    var b0, b1, b2, b3: int := bs[0], bs[1], bs[2], bs[3];
    assert bs[..3][..2][..1][..0] == [];
    assert bs[..3][..2][..1] == [bs[0]];
    assert bs[..3][..2] == [bs[0], bs[1]];
    assert bs[..3] == [bs[0], bs[1], bs[2]];
    assert FromBigEndian(bs) == ((b0 * 256 + b1) * 256 + b2) * 256 + b3;
  }

  /** getInt reads back what putInt wrote, for every non-negative Java int. */
  lemma GetIntPutInt(n: nat)
    requires n < 0x8000_0000
    ensures GetInt(PutInt(n)) == n
  {
    assert Pow256(4) == 0x1_0000_0000;
    BigEndianRoundTrip(n, 4);
  }

  /** A char that US-ASCII can encode. */
  predicate IsAscii(c: char)
  {
    c < 128 as char
  }

  /** String.getBytes(US_ASCII): one byte per char, '?' for a char outside US-ASCII. */
  function AsciiBytes(s: string): (bs: seq<byte>)
    ensures |bs| == |s|
    ensures forall i :: 0 <= i < |s| ==> bs[i] == (if IsAscii(s[i]) then s[i] as int else '?' as int)
  {
    if s == [] then []
    else [if IsAscii(s[0]) then s[0] as int else '?' as int] + AsciiBytes(s[1..])
  }

  /** new String(bytes, US_ASCII): one char per byte, U+FFFD for a byte above 0x7F. */
  function DecodeAscii(bs: seq<byte>): (s: string)
    ensures |s| == |bs|
    ensures forall i :: 0 <= i < |bs| ==> s[i] == (if bs[i] < 0x80 then bs[i] as char else '\U{FFFD}')
  {
    if bs == [] then []
    else [if bs[0] < 0x80 then bs[0] as char else '\U{FFFD}'] + DecodeAscii(bs[1..])
  }

  /** Encoding then decoding US-ASCII text gives the text back. */
  lemma DecodeAsciiBytes(s: string)
    requires forall i :: 0 <= i < |s| ==> IsAscii(s[i])
    ensures DecodeAscii(AsciiBytes(s)) == s
  {
  }
}
