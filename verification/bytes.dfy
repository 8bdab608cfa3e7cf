/**
 Bytes as a Node `Buffer` holds them, and the little-endian integer layout
 that `readUInt16LE`/`writeUInt16LE` and their 32-bit siblings use.
 */
module Bytes {
  import opened Results

  /** One octet. */
  type byte = b: int | 0 <= b < 256

  /** 256 to the power `width`: how many distinct values `width` bytes hold. */
  function Pow256(width: nat): (p: nat)
    ensures p >= 1
    ensures width >= 1 ==> p >= 256
  {
    if width == 0 then 1 else 256 * Pow256(width - 1)
  }

  /** Little-endian decoding: byte `i` carries weight 256^i. */
  function FromLE(bs: seq<byte>): (n: nat)
    ensures n < Pow256(|bs|)
    ensures |bs| > 0 ==> n % 256 == bs[0]
  {
    if |bs| == 0 then 0
    else
      var rest := FromLE(bs[1..]);
      assert rest <= Pow256(|bs| - 1) - 1;
      assert 256 * rest <= 256 * Pow256(|bs| - 1) - 256;
      bs[0] + 256 * rest
  }

  /** Little-endian encoding of `n` into exactly `width` bytes (higher digits are dropped). */
  function ToLE(n: nat, width: nat): (bs: seq<byte>)
    ensures |bs| == width
  {
    if width == 0 then [] else [n % 256] + ToLE(n / 256, width - 1)
  }

  /** Encoding a value that fits and decoding it gives the value back. */
  lemma {:induction false} FromLEToLE(n: nat, width: nat)
    requires n < Pow256(width)
    ensures FromLE(ToLE(n, width)) == n
  {
    if width > 0 {
      var bs := ToLE(n, width);
      assert bs[1..] == ToLE(n / 256, width - 1);
      assert n / 256 < Pow256(width - 1);
      FromLEToLE(n / 256, width - 1);
    }
  }

  /** Decoding some bytes and encoding the number at the same width gives the bytes back. */
  lemma {:induction false} ToLEFromLE(bs: seq<byte>)
    ensures ToLE(FromLE(bs), |bs|) == bs
  {
    if |bs| > 0 {
      var n := FromLE(bs);
      assert n % 256 == bs[0];
      assert n / 256 == FromLE(bs[1..]);
      ToLEFromLE(bs[1..]);
    }
  }

  /** `n` zero bytes, as `Buffer.alloc(n)` returns them. */
  function Zeros(n: nat): (z: seq<byte>)
    ensures |z| == n
    ensures forall i :: 0 <= i < n ==> z[i] == 0
  {
    seq(n, _ => 0)
  }

  /**
   The first position at or after `from` holding `0x00`, scanning forward
   one byte at a time; `None` when there is none.
   */
  function FirstZero(s: seq<byte>, from: nat): (i: Option<nat>)
    ensures i.Some? ==> from <= i.value < |s| && s[i.value] == 0
    ensures i.Some? ==> forall j :: from <= j < i.value ==> s[j] != 0
    ensures i.None? ==> forall j :: from <= j < |s| ==> s[j] != 0
    decreases |s| - from
  {
    if from >= |s| then None
    else if s[from] == 0 then Some(from)
    else FirstZero(s, from + 1)
  }
}
