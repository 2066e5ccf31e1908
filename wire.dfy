/**
 * The little-endian fixed-width integers of the wire format: the 8-byte
 * length, count and integer fields that `binary.LittleEndian.PutUint64`
 * writes and `binary.LittleEndian.Uint64` reads back.
 */
module Wire {

  /** One byte of the wire. */
  type byte = x: int | 0 <= x < 256

  /** 2^64: the range of a `uint64`, hence of every length, count and integer field. */
  const TWO_64: nat := 0x1_0000_0000_0000_0000

  /** 256^k, the number of values k bytes can hold. */
  function Pow256(k: nat): nat {
    if k == 0 then 1 else 256 * Pow256(k - 1)
  }

  /** The k-byte little-endian representation of n (least significant byte first). */
  function ToLE(n: nat, k: nat): (r: seq<byte>)
    ensures |r| == k
  {
    if k == 0 then [] else [n % 256] + ToLE(n / 256, k - 1)
  }

  /** The number whose little-endian representation is bs. */
  function FromLE(bs: seq<byte>): nat {
    if bs == [] then 0 else bs[0] + 256 * FromLE(bs[1..])
  }

  /** k bytes hold a number below 256^k. */
  lemma {:induction false} FromLEBound(bs: seq<byte>)
    ensures FromLE(bs) < Pow256(|bs|)
  {
    if bs != [] {
      FromLEBound(bs[1..]);
    }
  }

  /** `PutUint64`: an 8-byte little-endian field holding n. */
  function U64(n: nat): (r: seq<byte>)
    requires n < TWO_64
    ensures |r| == 8
  {
    ToLE(n, 8)
  }

  lemma Pow256Eight()
    ensures Pow256(8) == TWO_64
  {
    calc {
      Pow256(8);
      256 * Pow256(7);
      256 * (256 * Pow256(6));
      256 * (256 * (256 * (256 * Pow256(4))));
      256 * (256 * (256 * (256 * (256 * (256 * (256 * (256 * Pow256(0))))))));
    }
  }

  /** Reading back what ToLE wrote gives the number again. */
  lemma {:induction false} FromToLE(n: nat, k: nat)
    requires n < Pow256(k)
    ensures FromLE(ToLE(n, k)) == n
  {
    if k > 0 {
      var r := ToLE(n, k);
      assert r[1..] == ToLE(n / 256, k - 1);
      FromToLE(n / 256, k - 1);
    }
  }

  /** Writing back what FromLE read gives the bytes again. */
  lemma {:induction false} ToFromLE(bs: seq<byte>)
    ensures ToLE(FromLE(bs), |bs|) == bs
  {
    if bs != [] {
      var n := FromLE(bs);
      assert n % 256 == bs[0] && n / 256 == FromLE(bs[1..]);
      ToFromLE(bs[1..]);
    }
  }

  /** `Uint64(PutUint64(n)) == n`: an 8-byte field reads back as the number written. */
  lemma U64RoundTrip(n: nat)
    requires n < TWO_64
    ensures FromLE(U64(n)) == n
  {
    Pow256Eight();
    FromToLE(n, 8);
  }

  /** Every 8-byte field reads as a `uint64`. */
  lemma U64Bound(bs: seq<byte>)
    requires |bs| == 8
    ensures FromLE(bs) < TWO_64
  {
    FromLEBound(bs);
    Pow256Eight();
  }
}
