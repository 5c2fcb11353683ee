/** Bytes and the big-endian integers of frame headers and WAL records. */
module Bytes {
  type Byte = x: int | 0 <= x < 256

  function Pow256(width: nat): (p: nat)
    ensures p >= 1
  {
    if width == 0 then 1 else 256 * Pow256(width - 1)
  }

  /** The `width` low-order bytes of `n`, most significant first. */
  function ToBE(n: nat, width: nat): (s: seq<Byte>)
    ensures |s| == width
  {
    if width == 0 then [] else ToBE(n / 256, width - 1) + [n % 256]
  }

  function FromBE(s: seq<Byte>): nat {
    if s == [] then 0 else FromBE(s[..|s| - 1]) * 256 + s[|s| - 1]
  }

  lemma {:induction false} FromToBE(n: nat, width: nat)
    requires n < Pow256(width)
    ensures FromBE(ToBE(n, width)) == n
  {
    if width > 0 {
      FromToBE(n / 256, width - 1);
      assert ToBE(n, width)[..width - 1] == ToBE(n / 256, width - 1);
    }
  }

  lemma {:induction false} ToFromBE(s: seq<Byte>)
    ensures FromBE(s) < Pow256(|s|) && ToBE(FromBE(s), |s|) == s
  {
    if s != [] {
      var n := |s| - 1;
      ToFromBE(s[..n]);
      assert FromBE(s) / 256 == FromBE(s[..n]) && FromBE(s) % 256 == s[n];
      assert s == s[..n] + [s[n]];
    }
  }

  /** The first byte is the most significant one. */
  lemma {:induction false} MostSignificantFirst(b: Byte, s: seq<Byte>)
    ensures FromBE([b] + s) == b * Pow256(|s|) + FromBE(s)
  {
    if s == [] {
      assert [b] + s == [b];
    } else {
      var n := |s| - 1;
      MostSignificantFirst(b, s[..n]);
      assert ([b] + s)[..n + 1] == [b] + s[..n];
      assert (b * Pow256(n) + FromBE(s[..n])) * 256 == b * (256 * Pow256(n)) + FromBE(s[..n]) * 256;
    }
  }

  lemma Widths()
    ensures Pow256(1) == 0x100 && Pow256(2) == 0x1_0000 && Pow256(4) == 0x1_0000_0000
    ensures Pow256(8) == 0x1_0000_0000_0000_0000
  {
    assert Pow256(3) == 0x100_0000;
    assert Pow256(6) == 0x1_0000_0000_0000;
  }
}
