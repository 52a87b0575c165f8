/** Bytes and the unsigned little-endian integers `int.from_bytes(..., 'little')`
    reads from them. */
module Bytes {

  /** One element of a Python `bytes` value. */
  type Byte = b: int | 0 <= b < 256

  /** 256 to the power n: one more than the largest n-byte value. */
  function Pow256(n: nat): (r: nat)
    ensures r >= 1
  {
    if n == 0 then 1 else 256 * Pow256(n - 1)
  }

  /** `int.from_bytes(bs, byteorder='little')`: the first byte is the least
      significant; the empty sequence decodes to 0. */
  function FromBytesLE(bs: seq<Byte>): (v: nat)
    ensures v < Pow256(|bs|)
    ensures |bs| >= 1 ==> v % 256 == bs[0]
  {
    if |bs| == 0 then 0 else bs[0] + 256 * FromBytesLE(bs[1..])
  }

  /** The n-byte little-endian encoding of v (the lowest n bytes of v). */
  function ToBytesLE(v: nat, n: nat): (bs: seq<Byte>)
    ensures |bs| == n
  {
    if n == 0 then [] else [v % 256] + ToBytesLE(v / 256, n - 1)
  }

  /** Encoding a value that fits in n bytes and decoding it gives it back. */
  lemma {:induction false} FromToBytesLE(v: nat, n: nat)
    requires v < Pow256(n)
    ensures FromBytesLE(ToBytesLE(v, n)) == v
  {
    if n > 0 {
      var bs := ToBytesLE(v, n);
      assert bs[1..] == ToBytesLE(v / 256, n - 1);
      FromToBytesLE(v / 256, n - 1);
    }
  }

  /** Decoding and re-encoding at the same width gives the bytes back. */
  lemma {:induction false} ToFromBytesLE(bs: seq<Byte>)
    ensures ToBytesLE(FromBytesLE(bs), |bs|) == bs
  {
    if |bs| > 0 {
      var v := FromBytesLE(bs);
      assert v / 256 == FromBytesLE(bs[1..]);
      ToFromBytesLE(bs[1..]);
    }
  }

  /** The values of the short fields the bitmap header holds. */
  lemma SmallFields(bs: seq<Byte>)
    ensures |bs| == 1 ==> FromBytesLE(bs) == bs[0]
    ensures |bs| == 2 ==> FromBytesLE(bs) == bs[0] as int + 256 * bs[1] as int
    ensures |bs| <= 2 ==> FromBytesLE(bs) < 65536
  {
    if |bs| == 2 {
      assert FromBytesLE(bs[1..]) == bs[1] + 256 * FromBytesLE(bs[1..][1..]);
    }
  }

  /** The value of a four-byte field. */
  lemma FromBytesLE4(bs: seq<Byte>)
    requires |bs| == 4
    ensures FromBytesLE(bs) == bs[0] as int + 256 * bs[1] as int + 65536 * bs[2] as int + 16777216 * bs[3] as int
  {
    assert bs[1..][1..][1..][1..] == [];
  }
}
