/** Octets, and the little-endian integers packet headers hold. */
module Bytes {
  import opened Division

  type byte = b: int | 0 <= b < 256

  function FromU16(lo: byte, hi: byte): nat {
    lo + 256 * hi
  }

  /** A `uint16_t` in memory, low octet first; larger numbers are cut off. */
  function U16(x: nat): (s: seq<byte>)
    ensures |s| == 2
    ensures x < 0x1_0000 ==> FromU16(s[0], s[1]) == x
  {
    var hi := Quot(x, 256);
    QuotTimes(x, 256);
    Small(hi, 256);
    [Rem(x, 256), Rem(hi, 256)]
  }

  function FromU32(s: seq<byte>): nat
    requires |s| == 4
  {
    FromU16(s[0], s[1]) + 0x1_0000 * FromU16(s[2], s[3])
  }

  lemma Halves(a: seq<byte>, b: seq<byte>)
    requires |a| == |b| == 2
    ensures FromU32(a + b) == FromU16(a[0], a[1]) + 0x1_0000 * FromU16(b[0], b[1])
  {
  }

  /** A `uint32_t` in memory, low octet first; larger numbers are cut off. */
  function U32(x: nat): (s: seq<byte>)
    ensures |s| == 4
  {
    U16(Rem(x, 0x1_0000)) + U16(Quot(x, 0x1_0000))
  }

  lemma Joined(x: nat, lo: nat, hi: nat)
    requires x == hi * 0x1_0000 + lo < 0x1_0000_0000 && lo < 0x1_0000
    ensures FromU32(U16(lo) + U16(hi)) == x
  {
    assert hi < 0x1_0000;
    Halves(U16(lo), U16(hi));
  }

  lemma U32Exact(x: nat)
    requires x < 0x1_0000_0000
    ensures FromU32(U32(x)) == x
  {
    QuotTimes(x, 0x1_0000);
    Joined(x, Rem(x, 0x1_0000), Quot(x, 0x1_0000));
  }
}
