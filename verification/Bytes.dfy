/** Bytes and the little-endian layout that the marshaller and `BitConverter` use (HvGin/Utilities.cs). */
module Bytes {

  type byte = b: int | 0 <= b < 256

  const INT32_LIMIT: int := 0x8000_0000
  const UINT32_LIMIT: int := 0x1_0000_0000

  /** The number of values that fit in `n` bytes. */
  function Pow256(n: nat): (p: nat)
    ensures p > 0
  {
    if n == 0 then 1 else 256 * Pow256(n - 1)
  }

  /** The low `n` bytes of `v`, least significant first. */
  function ToLE(v: nat, n: nat): (s: seq<byte>)
    ensures |s| == n
  {
    if n == 0 then [] else [v % 256] + ToLE(v / 256, n - 1)
  }

  function FromLE(s: seq<byte>): nat {
    if s == [] then 0 else s[0] + 256 * FromLE(s[1..])
  }

  lemma {:induction false} DecodeEncode(v: nat, n: nat)
    requires v < Pow256(n)
    ensures FromLE(ToLE(v, n)) == v
  {
    if n > 0 {
      DecodeEncode(v / 256, n - 1);
      assert ToLE(v, n)[1..] == ToLE(v / 256, n - 1);
    }
  }

  lemma {:induction false} EncodeDecode(s: seq<byte>)
    ensures FromLE(s) < Pow256(|s|)
    ensures ToLE(FromLE(s), |s|) == s
  {
    if s != [] {
      EncodeDecode(s[1..]);
      assert s == [s[0]] + s[1..];
    }
  }

  /** `x` reduced to the signed 32-bit range, as unchecked `int` arithmetic does for one carry. */
  function WrapInt32(x: int): int {
    if x >= INT32_LIMIT then x - UINT32_LIMIT else x
  }

  /** `GetAlignedSize(size, 8)`. */
  function Align8(size: nat): nat {
    (size + 7) / 8 * 8
  }

  /** Alignment yields the least multiple of eight that is not below the size. */
  lemma Align8IsLeast(size: nat, m: nat)
    requires m % 8 == 0
    ensures Align8(size) % 8 == 0
    ensures size <= m <==> Align8(size) <= m
  {
    assert size % 8 == size - size / 8 * 8;
  }
}
