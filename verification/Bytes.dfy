/** Fixed-width numbers as bytes, least significant byte first. */
module Bytes {
  type Byte = x: nat | x < 256

  function Pow256(width: nat): (p: nat)
    ensures p > 0
  {
    if width == 0 then 1 else 256 * Pow256(width - 1)
  }

  function Le(n: nat, width: nat): (b: seq<Byte>)
    ensures |b| == width
  {
    if width == 0 then [] else [n % 256] + Le(n / 256, width - 1)
  }

  function FromLe(b: seq<Byte>): nat {
    if b == [] then 0 else b[0] + 256 * FromLe(b[1..])
  }

  lemma {:induction false} LeRoundTrip(n: nat, width: nat)
    requires n < Pow256(width)
    ensures FromLe(Le(n, width)) == n
  {
    if width > 0 {
      LeRoundTrip(n / 256, width - 1);
      assert Le(n, width)[1..] == Le(n / 256, width - 1);
    }
  }

  lemma Pow256Values()
    ensures Pow256(4) == 0x1_0000_0000 && Pow256(8) == 0x1_0000_0000_0000_0000
  {
    assert Pow256(2) == 0x1_0000;
    assert Pow256(6) == 0x1_0000 * Pow256(4);
  }

  /** The four bytes of a word. */
  lemma Le4(n: nat)
    ensures Le(n, 4) == [n % 256, n / 256 % 256, n / 0x1_0000 % 256, n / 0x100_0000 % 256]
  {
    assert Le(n / 0x100_0000, 1) == [n / 0x100_0000 % 256];
    assert Le(n / 0x1_0000, 2) == [n / 0x1_0000 % 256, n / 0x100_0000 % 256];
    assert Le(n / 256, 3) == [n / 256 % 256, n / 0x1_0000 % 256, n / 0x100_0000 % 256];
  }

  /** Eight bytes are the low four and the high four. */
  lemma Le8(n: nat)
    ensures Le(n, 8) == Le(n, 4) + Le(n / 0x1_0000_0000, 4)
  {
    LeSplit(n, 4, 4);
    assert Drop(n / 0x100_0000, 1) == n / 0x1_0000_0000;
    assert Drop(n / 0x1_0000, 2) == n / 0x1_0000_0000;
    assert Drop(n / 256, 3) == n / 0x1_0000_0000;
  }

  function Drop(n: nat, bytes: nat): nat {
    if bytes == 0 then n else Drop(n / 256, bytes - 1)
  }

  lemma {:induction false} LeSplit(n: nat, w: nat, v: nat)
    ensures Le(n, w + v) == Le(n, w) + Le(Drop(n, w), v)
    decreases w
  {
    if w > 0 {
      LeSplit(n / 256, w - 1, v);
    }
  }
}
