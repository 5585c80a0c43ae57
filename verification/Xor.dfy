/** Exclusive or of natural numbers, bit by bit. */
module Xor {
  import opened Bytes

  function Xor(a: nat, b: nat): nat {
    if a == 0 && b == 0 then 0 else (a + b) % 2 + 2 * Xor(a / 2, b / 2)
  }

  function Pow2(n: nat): (p: nat)
    ensures p > 0
  {
    if n == 0 then 1 else 2 * Pow2(n - 1)
  }

  lemma {:induction false} XorBound(a: nat, b: nat, n: nat)
    requires a < Pow2(n) && b < Pow2(n)
    ensures Xor(a, b) < Pow2(n)
    decreases n
  {
    if n > 0 {
      XorBound(a / 2, b / 2, n - 1);
    }
  }

  /** The low bit and the rest are combined separately. */
  lemma {:induction false} XorStep(a: nat, b: nat)
    ensures Xor(a, b) % 2 == (a + b) % 2 && Xor(a, b) / 2 == Xor(a / 2, b / 2)
  {
    LowBit((a + b) % 2, Xor(a / 2, b / 2));
  }

  lemma LowBit(bit: nat, rest: nat)
    requires bit < 2
    ensures (bit + 2 * rest) % 2 == bit && (bit + 2 * rest) / 2 == rest
  {
  }

  lemma Parity(a: nat, k: nat, x: nat)
    requires x % 2 == (a + k) % 2
    ensures (x + k) % 2 == a % 2
  {
  }

  lemma {:induction false} XorInvolution(a: nat, k: nat)
    ensures Xor(Xor(a, k), k) == a
    decreases a + k
  {
    if a != 0 || k != 0 {
      XorInvolution(a / 2, k / 2);
      var x := Xor(a, k);
      XorStep(a, k);
      XorStep(x, k);
      Parity(a, k, x);
    }
  }

  lemma {:induction false} Pow2Add(m: nat, n: nat)
    ensures Pow2(m + n) == Pow2(m) * Pow2(n)
  {
    if m > 0 {
      Pow2Add(m - 1, n);
      Doubled(Pow2(m - 1), Pow2(n));
    }
  }

  lemma Doubled(x: nat, y: nat)
    ensures 2 * x * y == 2 * (x * y)
  {
  }

  lemma Pow2Of32()
    ensures Pow2(32) == 0x1_0000_0000
  {
    assert Pow2(4) == 2 * (2 * (2 * (2 * Pow2(0))));
    Pow2Add(4, 4);
    Pow2Add(8, 8);
    Pow2Add(16, 16);
  }

  /** Exclusive or of 32-bit numbers. */
  function Xor32(a: nat, b: nat): (x: nat)
    requires a < 0x1_0000_0000 && b < 0x1_0000_0000
    ensures x < 0x1_0000_0000
  {
    Pow2Of32();
    XorBound(a, b, 32);
    Xor(a, b)
  }

  //////////////////////////////////////////////////////////////////////////////
  // Byte by byte
  //////////////////////////////////////////////////////////////////////////////

  lemma Half(a: nat, x: nat)
    ensures (a + 2 * x) % 2 == a % 2 && (a + 2 * x) / 2 == a / 2 + x
  {
  }

  /** The low byte and what is above it are combined separately. */
  lemma XorConcat(a: Byte, b: Byte, x: nat, y: nat)
    ensures Xor(a + 256 * x, b + 256 * y) == Xor(a, b) + 256 * Xor(x, y)
  {
    Pow2Of8();
    XorConcatBits(a, b, 8, x, y, Xor(x, y), 256 * x, 256 * y, 256 * Xor(x, y));
  }

  /** The same for `n` low bits, with what is above them, and its combination t, shifted. */
  lemma {:induction false} XorConcatBits(a: nat, b: nat, n: nat, x: nat, y: nat, t: nat, u: nat, v: nat, w: nat)
    requires a < Pow2(n) && b < Pow2(n) && t == Xor(x, y) && u == Pow2(n) * x && v == Pow2(n) * y && w == Pow2(n) * t
    ensures Xor(a + u, b + v) == Xor(a, b) + w
    decreases n
  {
    if n == 0 {
      NothingBelow(a, b, x, y, u, v);
    } else {
      var p := Pow2(n - 1);
      var i, j, k := p * x, p * y, p * t;
      assert Pow2(n) == 2 * p;
      Halves(a, b, p);
      ShiftedOnce(p, Pow2(n), x, y, t);
      XorConcatBits(a / 2, b / 2, n - 1, x, y, t, i, j, k);
      XorConcatShifted(a, b, i, j, k, u, v, w);
    }
  }

  lemma NothingBelow(a: nat, b: nat, x: nat, y: nat, u: nat, v: nat)
    requires a == b == 0 && u == 1 * x && v == 1 * y
    ensures Xor(a + u, b + v) == Xor(a, b) + Xor(x, y)
  {
  }

  lemma Halves(a: nat, b: nat, p: nat)
    requires a < 2 * p && b < 2 * p
    ensures a / 2 < p && b / 2 < p
  {
  }

  lemma ShiftedOnce(p: nat, q: nat, x: nat, y: nat, t: nat)
    requires q == 2 * p
    ensures q * x == 2 * (p * x) && q * y == 2 * (p * y) && q * t == 2 * (p * t)
  {
    Doubled(p, x);
    Doubled(p, y);
    Doubled(p, t);
  }

  lemma XorConcatShifted(a: nat, b: nat, i: nat, j: nat, k: nat, u: nat, v: nat, w: nat)
    requires Xor(a / 2 + i, b / 2 + j) == Xor(a / 2, b / 2) + k && u == 2 * i && v == 2 * j && w == 2 * k
    ensures Xor(a + u, b + v) == Xor(a, b) + w
  {
    XorConcatStep(a, b, i, j, k);
  }

  lemma XorConcatStep(a: nat, b: nat, x: nat, y: nat, z: nat)
    requires Xor(a / 2 + x, b / 2 + y) == Xor(a / 2, b / 2) + z
    ensures Xor(a + 2 * x, b + 2 * y) == Xor(a, b) + 2 * z
  {
    Half(a, x);
    Half(b, y);
    var u, v := a + 2 * x, b + 2 * y;
    XorStep(u, v);
    XorStep(a, b);
    Parities(a, b, u, v);
    Recombine(Xor(u, v));
    Recombine(Xor(a, b));
  }

  lemma Parities(a: nat, b: nat, u: nat, v: nat)
    requires a % 2 == u % 2 && b % 2 == v % 2
    ensures (a + b) % 2 == (u + v) % 2
  {
  }

  lemma Recombine(x: nat)
    ensures x == x % 2 + 2 * (x / 2)
  {
  }

  function XorByte(a: Byte, b: Byte): Byte {
    Pow2Of8();
    XorBound(a, b, 8);
    Xor(a, b)
  }

  lemma Pow2Of8()
    ensures Pow2(8) == 256
  {
    assert Pow2(4) == 2 * (2 * (2 * (2 * Pow2(0))));
    Pow2Add(4, 4);
  }

  function XorBytes(a: seq<Byte>, b: seq<Byte>): (c: seq<Byte>)
    requires |a| == |b|
    ensures |c| == |a|
  {
    seq(|a|, i requires 0 <= i < |a| => XorByte(a[i], b[i]))
  }

  /** Masking a number masks each of its bytes. */
  lemma {:induction false} XorOfBytes(a: nat, b: nat, k: nat)
    ensures ToLE(Xor(a, b), k) == XorBytes(ToLE(a, k), ToLE(b, k))
    decreases k
  {
    if k > 0 {
      XorConcat(a % 256, b % 256, a / 256, b / 256);
      LowByte(XorByte(a % 256, b % 256), Xor(a / 256, b / 256));
      XorOfBytes(a / 256, b / 256, k - 1);
    }
  }

  lemma LowByte(b: Byte, rest: nat)
    ensures (b + 256 * rest) % 256 == b && (b + 256 * rest) / 256 == rest
  {
  }
}
