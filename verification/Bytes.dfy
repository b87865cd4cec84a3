/** Bytes and the little-endian numbers of the on-disk formats. */
module Bytes {

  type byte = x: int | 0 <= x < 256

  const TWO_31: nat := 0x8000_0000
  const TWO_32: nat := 0x1_0000_0000
  const TWO_64: nat := 0x1_0000_0000_0000_0000

  function LE(n: nat, width: nat): (s: seq<byte>)
    ensures |s| == width
  {
    if width == 0 then [] else [n % 256] + LE(n / 256, width - 1)
  }

  function Num(s: seq<byte>): nat { if s == [] then 0 else s[0] + 256 * Num(s[1..]) }

  function Pow256(width: nat): nat { if width == 0 then 1 else 256 * Pow256(width - 1) }

  /** Storing a number keeps its low bytes. */
  lemma {:induction false} NumLE(n: nat, width: nat)
    ensures n < Pow256(width) ==> Num(LE(n, width)) == n
  {
    if width > 0 {
      NumLE(n / 256, width - 1);
      assert LE(n, width)[1..] == LE(n / 256, width - 1);
      assert n < Pow256(width) ==> n / 256 < Pow256(width - 1);
    }
  }

  lemma Widths()
    ensures Pow256(4) == TWO_32 && Pow256(8) == TWO_64
  {
    assert Pow256(2) == 0x1_0000;
    assert Pow256(3) == 0x100_0000;
    assert Pow256(4) == TWO_32;
    assert Pow256(5) == 0x100_0000_0000;
    assert Pow256(6) == 0x1_0000_0000_0000;
    assert Pow256(7) == 0x100_0000_0000_0000;
  }
}
