/** Bytes and the little-endian encoding of unsigned integers, as both the
    message header and the topic message use it. */
module Bytes {

  type Byte = b: int | 0 <= b < 256

  /** 256 to the power `width`: the number of values that fit in `width` bytes. */
  function Range(width: nat): (r: nat)
    ensures r > 0
  {
    if width == 0 then 1 else 256 * Range(width - 1)
  }

  /** The `width` low bytes of `n`, least significant byte first. */
  function ToBytes(n: nat, width: nat): (bs: seq<Byte>)
    ensures |bs| == width
  {
    if width == 0 then [] else [n % 256] + ToBytes(n / 256, width - 1)
  }

  /** The value of a little-endian byte string. */
  function FromBytes(bs: seq<Byte>): (n: nat)
    ensures n < Range(|bs|)
  {
    if bs == [] then 0 else bs[0] + 256 * FromBytes(bs[1..])
  }

  lemma {:induction false} FromToBytes(n: nat, width: nat)
    requires n < Range(width)
    ensures FromBytes(ToBytes(n, width)) == n
  {
    if width > 0 {
      FromToBytes(n / 256, width - 1);
      assert ToBytes(n, width)[1..] == ToBytes(n / 256, width - 1);
    }
  }

  lemma {:induction false} ToFromBytes(bs: seq<Byte>)
    ensures ToBytes(FromBytes(bs), |bs|) == bs
  {
    if bs != [] {
      ToFromBytes(bs[1..]);
      assert bs == [bs[0]] + bs[1..];
    }
  }
}
