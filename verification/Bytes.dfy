/** Octets, unsigned widths, and little-endian numbers. */
module Bytes {

  type Byte = x: int | 0 <= x < 0x100
  type U16 = x: int | 0 <= x < 0x1_0000
  type U32 = x: int | 0 <= x < 0x1_0000_0000
  type U64 = x: int | 0 <= x < 0x1_0000_0000_0000_0000

  function Pow256(k: nat): (p: nat)
    ensures p > 0
  {
    if k == 0 then 1 else 256 * Pow256(k - 1)
  }

  /** The number stored in `b`, least significant byte first. */
  function LE(b: seq<Byte>): (n: nat)
    ensures n < Pow256(|b|)
  {
    if b == [] then 0 else b[0] + 256 * LE(b[1..])
  }

  /** The `k` low bytes of `n`, least significant first. */
  function ToLE(n: nat, k: nat): (b: seq<Byte>)
    ensures |b| == k
  {
    if k == 0 then [] else [n % 256] + ToLE(n / 256, k - 1)
  }

  lemma {:induction false} ToLEInverse(b: seq<Byte>)
    ensures ToLE(LE(b), |b|) == b
  {
    if b != [] {
      ToLEInverse(b[1..]);
      assert LE(b) / 256 == LE(b[1..]) && LE(b) % 256 == b[0];
    }
  }

  lemma {:induction false} LEInverse(n: nat, k: nat)
    requires n < Pow256(k)
    ensures LE(ToLE(n, k)) == n
    decreases k
  {
    if k > 0 {
      LEInverse(n / 256, k - 1);
      assert ToLE(n, k)[1..] == ToLE(n / 256, k - 1);
    }
  }

  lemma Pow256Values()
    ensures Pow256(2) == 0x1_0000 && Pow256(4) == 0x1_0000_0000 && Pow256(8) == 0x1_0000_0000_0000_0000
  {
    assert Pow256(2) == 256 * Pow256(1) && Pow256(1) == 256 * Pow256(0);
    assert Pow256(4) == 256 * Pow256(3) && Pow256(3) == 256 * Pow256(2);
    assert Pow256(8) == 256 * Pow256(7) && Pow256(7) == 256 * Pow256(6);
    assert Pow256(6) == 256 * Pow256(5) && Pow256(5) == 256 * Pow256(4);
  }

  function LE16(b: seq<Byte>): U16
    requires |b| == 2
  {
    Pow256Values();
    LE(b)
  }

  function LE32(b: seq<Byte>): U32
    requires |b| == 4
  {
    Pow256Values();
    LE(b)
  }

  function LE64(b: seq<Byte>): U64
    requires |b| == 8
  {
    Pow256Values();
    LE(b)
  }

  lemma LE64Halves(b: seq<Byte>)
    requires |b| == 8
    ensures LE64(b) == LE32(b[..4]) + 0x1_0000_0000 * LE32(b[4..])
  {
    LESplit4(b);
  }

  lemma LESplit4(b: seq<Byte>)
    requires |b| >= 4
    ensures LE(b) == LE(b[..4]) + 0x1_0000_0000 * LE(b[4..])
  {
    LESplit1(b, 4);
    LESplit1(b[1..], 3);
    LESplit1(b[1..][1..], 2);
    LESplit1(b[1..][1..][1..], 1);
    assert b[1..][1..][1..][1..] == b[4..];
    assert b[1..][1..][1..][..1][1..] == [];
  }

  /** Taking the first byte off both a number and its prefix. */
  lemma LESplit1(b: seq<Byte>, k: nat)
    requires 1 <= k <= |b|
    ensures LE(b) == b[0] + 256 * LE(b[1..])
    ensures LE(b[..k]) == b[0] + 256 * LE(b[1..][..k - 1])
  {
    assert b[..k][1..] == b[1..][..k - 1];
  }

  lemma LE16Inverse(x: U16)
    ensures LE16(ToLE(x, 2)) == x
  {
    Pow256Values();
    LEInverse(x, 2);
  }

  lemma LE32Inverse(x: U32)
    ensures LE32(ToLE(x, 4)) == x
  {
    Pow256Values();
    LEInverse(x, 4);
  }

  lemma LE64Inverse(x: U64)
    ensures LE64(ToLE(x, 8)) == x
  {
    Pow256Values();
    LEInverse(x, 8);
  }
}
