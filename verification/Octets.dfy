/** Numbers as big-endian octets of a given width, as encoding/binary writes and reads them. */
module Octets {
  type Byte = b: nat | b < 256

  function Pow256(k: nat): (p: nat)
    ensures p > 0
  {
    if k == 0 then 1 else 256 * Pow256(k - 1)
  }

  function BigEndian(bs: seq<Byte>): nat {
    if bs == [] then 0 else BigEndian(bs[..|bs| - 1]) * 256 + bs[|bs| - 1]
  }

  function ToBytes(n: nat, k: nat): (bs: seq<Byte>)
    ensures |bs| == k
  {
    if k == 0 then [] else ToBytes(n / 256, k - 1) + [n % 256]
  }

  lemma FrontFits(n: nat, p: nat)
    requires n < 256 * p
    ensures n / 256 < p && n == n / 256 * 256 + n % 256
  {
  }

  lemma LastOctet(front: seq<Byte>, last: Byte)
    ensures BigEndian(front + [last]) == BigEndian(front) * 256 + last
  {
    assert (front + [last])[..|front|] == front;
  }

  lemma {:induction false} BytesRoundTrip(n: nat, k: nat)
    requires n < Pow256(k)
    ensures BigEndian(ToBytes(n, k)) == n
  {
    if k != 0 {
      var front, last := ToBytes(n / 256, k - 1), n % 256;
      FrontFits(n, Pow256(k - 1));
      BytesRoundTrip(n / 256, k - 1);
      LastOctet(front, last);
    }
  }

  lemma {:induction false} NatRoundTrip(bs: seq<Byte>)
    ensures BigEndian(bs) < Pow256(|bs|) && ToBytes(BigEndian(bs), |bs|) == bs
  {
    if bs != [] {
      var front, last := bs[..|bs| - 1], bs[|bs| - 1];
      NatRoundTrip(front);
      var n := BigEndian(bs);
      assert n / 256 == BigEndian(front) && n % 256 == last;
      assert bs == front + [last];
    }
  }

  lemma Pow256Of8()
    ensures Pow256(8) == 0x1_0000_0000_0000_0000
  {
    assert Pow256(4) == 0x1_0000_0000;
  }
}
