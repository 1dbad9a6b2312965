/** Fixed-width unsigned integers, raw public keys and little-endian byte order. */
module Bytes {

  type u8 = x: int | 0 <= x < 0x100
  type u32 = x: int | 0 <= x < 0x1_0000_0000
  type u64 = x: int | 0 <= x < 0x1_0000_0000_0000_0000

  /** Width in bytes of a public key. */
  const KEY_LEN: nat := 32

  /** A public key: 32 raw bytes, compared only for equality. */
  type Pubkey = s: seq<u8> | |s| == KEY_LEN witness seq(32, _ => 0)

  /** 256 to the power k: the number of values k bytes can hold. */
  function Pow256(k: nat): (r: nat)
    ensures r >= 1
  {
    if k == 0 then 1 else 256 * Pow256(k - 1)
  }

  lemma Pow256Values()
    ensures Pow256(4) == 0x1_0000_0000
    ensures Pow256(8) == 0x1_0000_0000_0000_0000
  {
    assert Pow256(1) == 0x100;
    assert Pow256(2) == 0x1_0000;
    assert Pow256(4) == 0x1_0000_0000;
    assert Pow256(6) == 0x1_0000_0000_0000;
  }

  /** The unsigned integer a little-endian byte string denotes (least significant byte first). */
  function FromLE(bs: seq<u8>): (n: nat)
    ensures n < Pow256(|bs|)
  {
    if |bs| == 0 then 0
    else
      var high := FromLE(bs[1..]);
      assert high + 1 <= Pow256(|bs| - 1);
      assert 256 * (high + 1) <= 256 * Pow256(|bs| - 1);
      bs[0] + 256 * high
  }

  /** The k-byte little-endian representation of n. */
  function ToLE(n: nat, k: nat): (r: seq<u8>)
    requires n < Pow256(k)
    ensures |r| == k
  {
    if k == 0 then []
    else
      assert n / 256 < Pow256(k - 1) by {
        assert n < 256 * Pow256(k - 1);
      }
      [n % 256] + ToLE(n / 256, k - 1)
  }

  /** Reading back a k-byte little-endian representation yields the number written. */
  lemma {:induction false} FromToLE(n: nat, k: nat)
    requires n < Pow256(k)
    ensures FromLE(ToLE(n, k)) == n
  {
    if k > 0 {
      var r := ToLE(n, k);
      assert r[1..] == ToLE(n / 256, k - 1);
      FromToLE(n / 256, k - 1);
    }
  }

  /** Every byte string is the little-endian representation of the number it denotes. */
  lemma {:induction false} ToFromLE(bs: seq<u8>)
    ensures ToLE(FromLE(bs), |bs|) == bs
  {
    if |bs| > 0 {
      var n := FromLE(bs);
      var high := FromLE(bs[1..]);
      assert n % 256 == bs[0] && n / 256 == high;
      ToFromLE(bs[1..]);
    }
  }
}
