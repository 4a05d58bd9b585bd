/**
 * Big-endian encodings of Java's DataOutputStream / DataInputStream:
 * writeInt/readInt (4 bytes), writeLong/readLong (8 bytes), two's complement.
 */
module ByteCodec {
  import opened JavaInts
  import opened Bits

  function Pow256(n: nat): (r: nat)
    ensures r >= 1
  {
    if n == 0 then 1 else 256 * Pow256(n - 1)
  }

  function Zeros(n: nat): (r: seq<byte>)
    ensures |r| == n && forall i :: 0 <= i < n ==> r[i] == 0
  {
    seq(n, _ => 0)
  }

  /** The n-byte big-endian representation of an unsigned value. */
  function EncodeUnsigned(x: nat, n: nat): (r: seq<byte>)
    ensures |r| == n
  {
    if n == 0 then [] else EncodeUnsigned(x / 256, n - 1) + [(x % 256) as byte]
  }

  function DecodeUnsigned(s: seq<byte>): (r: nat)
    ensures r < Pow256(|s|)
  {
    if |s| == 0 then 0 else DecodeUnsigned(s[..|s| - 1]) * 256 + s[|s| - 1] as int
  }

  lemma {:induction false} DecodeEncodeUnsigned(x: nat, n: nat)
    requires x < Pow256(n)
    ensures DecodeUnsigned(EncodeUnsigned(x, n)) == x
  {
    if n > 0 {
      var q, r := x / 256, x % 256;
      var e := EncodeUnsigned(x, n);
      assert e == EncodeUnsigned(q, n - 1) + [r as byte];
      assert e[..n - 1] == EncodeUnsigned(q, n - 1);
      assert q < Pow256(n - 1);
      DecodeEncodeUnsigned(q, n - 1);
      assert DecodeUnsigned(e) == DecodeUnsigned(e[..n - 1]) * 256 + r;
    }
  }

  lemma {:induction false} EncodeDecodeUnsigned(s: seq<byte>)
    ensures EncodeUnsigned(DecodeUnsigned(s), |s|) == s
  {
    if |s| > 0 {
      var p := s[..|s| - 1];
      EncodeDecodeUnsigned(p);
      assert s == p + [s[|s| - 1]];
    }
  }

  /** Zero bytes read as the value zero. */
  lemma {:induction false} DecodeZeros(n: nat)
    ensures DecodeUnsigned(Zeros(n)) == 0
  {
    if n > 0 {
      assert Zeros(n)[..n - 1] == Zeros(n - 1);
      DecodeZeros(n - 1);
    }
  }

  /** Half the range of n bytes: the bound of a signed n-byte value. */
  function Half(n: nat): int { Pow256(n) / 2 }

  /** Two's-complement n-byte encoding of a signed value. */
  function EncodeSigned(x: int, n: nat): (r: seq<byte>)
    requires n > 0 && -Half(n) <= x < Half(n)
    ensures |r| == n
  {
    EncodeUnsigned(if x < 0 then x + Pow256(n) else x, n)
  }

  function DecodeSigned(s: seq<byte>): (r: int)
    requires |s| > 0
    ensures -Half(|s|) <= r < Half(|s|)
  {
    Pow256Even(|s|);
    var u := DecodeUnsigned(s);
    if u >= Half(|s|) then u - Pow256(|s|) else u
  }

  lemma {:induction false} Pow256Even(n: nat)
    requires n > 0
    ensures Pow256(n) % 2 == 0
  {
  }

  lemma {:induction false} DecodeEncodeSigned(x: int, n: nat)
    requires n > 0 && -Half(n) <= x < Half(n)
    ensures DecodeSigned(EncodeSigned(x, n)) == x
  {
    Pow256Even(n);
    DecodeEncodeUnsigned(if x < 0 then x + Pow256(n) else x, n);
  }

  lemma {:induction false} EncodeDecodeSigned(s: seq<byte>)
    requires |s| > 0
    ensures EncodeSigned(DecodeSigned(s), |s|) == s
  {
    Pow256Even(|s|);
    EncodeDecodeUnsigned(s);
  }

  lemma {:induction false} Pow256Four()
    ensures Pow256(4) == 0x1_0000_0000
  {
  }

  lemma {:induction false} Pow256Eight()
    ensures Pow256(8) == 0x1_0000_0000_0000_0000
  {
  }

  /** writeInt: four big-endian bytes. */
  function EncodeInt(x: int32): (r: seq<byte>)
    ensures |r| == 4
  {
    Pow256Four();
    EncodeSigned(x as int, 4)
  }

  /** readInt of the four bytes at `pos`. */
  function DecodeInt(s: seq<byte>, pos: nat): (r: int32)
    requires pos + 4 <= |s|
  {
    Pow256Four();
    DecodeSigned(s[pos..pos + 4]) as int32
  }

  /** writeLong: eight big-endian bytes. */
  function EncodeLong(x: int64): (r: seq<byte>)
    ensures |r| == 8
  {
    Pow256Eight();
    EncodeSigned(x as int, 8)
  }

  function DecodeLong(s: seq<byte>, pos: nat): (r: int64)
    requires pos + 8 <= |s|
  {
    Pow256Eight();
    DecodeSigned(s[pos..pos + 8]) as int64
  }

  /** readInt inverts writeInt wherever the four bytes sit in a stream. */
  lemma {:induction false} IntRoundTrip(x: int32, pre: seq<byte>, post: seq<byte>)
    ensures DecodeInt(pre + EncodeInt(x) + post, |pre|) == x
  {
    Pow256Four();
    var s := pre + EncodeInt(x) + post;
    assert s[|pre|..|pre| + 4] == EncodeInt(x);
    DecodeEncodeSigned(x as int, 4);
  }

  lemma {:induction false} LongRoundTrip(x: int64, pre: seq<byte>, post: seq<byte>)
    ensures DecodeLong(pre + EncodeLong(x) + post, |pre|) == x
  {
    Pow256Eight();
    var s := pre + EncodeLong(x) + post;
    assert s[|pre|..|pre| + 8] == EncodeLong(x);
    DecodeEncodeSigned(x as int, 8);
  }

  /** Any four bytes are the writeInt image of what readInt makes of them. */
  lemma {:induction false} IntBytesRoundTrip(s: seq<byte>, pos: nat)
    requires pos + 4 <= |s|
    ensures EncodeInt(DecodeInt(s, pos)) == s[pos..pos + 4]
  {
    Pow256Four();
    EncodeDecodeSigned(s[pos..pos + 4]);
  }
}
