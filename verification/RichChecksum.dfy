/**
 The checksum of the RICH header: rotated bytes of everything before it, except the offset
 of the PE header, and rotated tool identifiers, added modulo 2^32.
 */
module RichChecksum {
  import opened Bytes
  import opened Sequences
  import opened Xor
  import opened RichHeader

  /** x << n | x >> (32 - n), written with p == 2^n and q == 2^(32 - n): the parts share no bit. */
  function Rotate(x: nat, p: nat, q: nat): nat
    requires q > 0
  {
    (x * p) % 0x1_0000_0000 + x / q
  }

  /** rol32. For n % 32 == 0 the second part is empty here, where the source repeats the first. */
  function Rol32(x: U32, n: nat): nat {
    Rotate(x, Pow2(n % 32), Pow2(32 - n % 32))
  }

  //////////////////////////////////////////////////////////////////////////////
  // Rotation is a permutation of the 32-bit numbers
  //////////////////////////////////////////////////////////////////////////////

  lemma {:induction false} Gap(a: nat, b: nat, d: nat)
    requires a < b
    ensures b * d >= a * d + d
  {
    Monotone(1, b - a, d);
    assert b * d == (a + (b - a)) * d == a * d + (b - a) * d;
  }

  lemma Monotone(a: nat, b: nat, d: nat)
    requires a <= b
    ensures a * d <= b * d
  {
  }

  lemma DivModIs(x: nat, q: nat, d: nat, r: nat)
    requires d > 0 && r < d && x == q * d + r
    ensures x / d == q && x % d == r
  {
    var q' := x / d;
    assert x == q' * d + x % d;
    if q' != q {
      Gap(if q' < q then q' else q, if q' < q then q else q', d);
    }
  }

  lemma PartsFit(a: nat, b: nat, p: nat, q: nat)
    requires p * q == 0x1_0000_0000 && a * q + b < 0x1_0000_0000 && b < q
    ensures a < p && b * p + p <= 0x1_0000_0000
  {
    if a >= p {
      Monotone(p, a, q);
    }
    Gap(b, q, p);
    assert q * p == p * q;
  }

  lemma Shifted(a: nat, b: nat, p: nat, q: nat)
    requires p * q == 0x1_0000_0000
    ensures (a * q + b) * p == a * 0x1_0000_0000 + b * p
  {
    assert (a * q + b) * p == a * q * p + b * p;
    assert a * q * p == a * (q * p) && q * p == p * q;
  }

  /** The top bits a move below the other bits b. */
  lemma RotateParts(a: nat, b: nat, p: nat, q: nat)
    requires p * q == 0x1_0000_0000 && p > 0 && b < q && a * q + b < 0x1_0000_0000
    ensures Rotate(a * q + b, p, q) == b * p + a && a < p && b * p + a < 0x1_0000_0000
  {
    PartsFit(a, b, p, q);
    Shifted(a, b, p, q);
    DivModIs(a * q + b, a, q, b);
    DivModIs(a * 0x1_0000_0000 + b * p, a, 0x1_0000_0000, b * p);
  }

  lemma PartsOf(x: nat, q: nat)
    requires q > 0
    ensures x == x / q * q + x % q && x % q < q
  {
  }

  lemma PartsInjective(a: nat, b: nat, c: nat, d: nat, p: nat)
    requires p > 0 && a < p && c < p && b * p + a == d * p + c
    ensures a == c && b == d
  {
    DivModIs(b * p + a, b, p, a);
    DivModIs(b * p + a, d, p, c);
  }

  lemma RotatedPartsInjective(a: nat, b: nat, c: nat, d: nat, p: nat, q: nat)
    requires p * q == 0x1_0000_0000 && p > 0 && b < q && a * q + b < 0x1_0000_0000 && d < q && c * q + d < 0x1_0000_0000
    ensures Rotate(a * q + b, p, q) < 0x1_0000_0000
    ensures Rotate(a * q + b, p, q) == Rotate(c * q + d, p, q) ==> a == c && b == d
  {
    RotateParts(a, b, p, q);
    RotateParts(c, d, p, q);
    if b * p + a == d * p + c {
      PartsInjective(a, b, c, d, p);
    }
  }

  lemma RotateInjective(x: U32, y: U32, p: nat, q: nat)
    requires p * q == 0x1_0000_0000 && p > 0 && q > 0
    ensures Rotate(x, p, q) < 0x1_0000_0000
    ensures Rotate(x, p, q) == Rotate(y, p, q) ==> x == y
  {
    PartsOf(x, q);
    PartsOf(y, q);
    RotatedPartsInjective(x / q, x % q, y / q, y % q, p, q);
  }

  lemma RotateBack(x: U32, p: nat, q: nat)
    requires p * q == 0x1_0000_0000 && p > 0 && q > 0
    ensures Rotate(Rotate(x, p, q), q, p) == x
  {
    PartsOf(x, q);
    RotatePartsBack(x / q, x % q, p, q);
  }

  lemma RotatePartsBack(a: nat, b: nat, p: nat, q: nat)
    requires p * q == 0x1_0000_0000 && p > 0 && b < q && a * q + b < 0x1_0000_0000
    ensures Rotate(Rotate(a * q + b, p, q), q, p) == a * q + b
  {
    RotateParts(a, b, p, q);
    assert q * p == p * q;
    RotateParts(b, a, q, p);
  }

  /** Rotating by n and then by the complement of n brings every number back. */
  lemma RolBack(x: U32, n: nat, y: U32)
    requires y == Rol32(x, n)
    ensures Rol32(y, 32 - n % 32) == x
  {
    if n % 32 == 0 {
      RolByWords(x, n);
      RolByWords(y, 32);
    } else {
      RolBackWithin(x, n, n % 32, y);
    }
  }

  lemma RolBackWithin(x: U32, n: nat, m: nat, y: U32)
    requires n % 32 == m && 0 < m < 32 && y == Rol32(x, n)
    ensures Rol32(y, 32 - m) == x
  {
    RolIs(x, n, m);
    RolIs(y, 32 - m, 32 - m);
    RolBackBy(x, m, y);
  }

  lemma RolIs(x: U32, n: nat, m: nat)
    requires n % 32 == m
    ensures Rol32(x, n) == Rotate(x, Pow2(m), Pow2(32 - m))
  {
  }

  lemma RolByWords(x: U32, n: nat)
    requires n % 32 == 0
    ensures Rol32(x, n) == x
  {
    Pow2Of32();
    NoRotation(x);
  }

  lemma RolBackBy(x: U32, m: nat, y: U32)
    requires 0 < m < 32 && y == Rotate(x, Pow2(m), Pow2(32 - m))
    ensures Rotate(y, Pow2(32 - m), Pow2(m)) == x
  {
    Pow2Add(m, 32 - m);
    Pow2Of32();
    RotateBack(x, Pow2(m), Pow2(32 - m));
  }

  lemma NoRotation(x: U32)
    ensures Rotate(x, 1, 0x1_0000_0000) == x
  {
  }

  /** Rotating once more moves the top bit to the bottom. */
  lemma RolStep(x: U32, n: nat)
    ensures Rol32(x, 0) == x
    ensures Rol32(x, n + 1) == Rol32(x, n) * 2 % 0x1_0000_0000 + Rol32(x, n) / 0x8000_0000
  {
    RolByWords(x, 0);
    var m := n % 32;
    var p, r := Pow2(m), Pow2(31 - m);
    Pow2Add(m, 32 - m);
    Pow2Of32();
    Halved(p, r);
    RolIs(x, n, m);
    NextRotation(x, n, m, p, r);
    RotatedOnce(x, p, r, Rol32(x, n), Rol32(x, n + 1));
  }

  lemma Halved(p: nat, r: nat)
    requires p * (2 * r) == 0x1_0000_0000
    ensures p * r == 0x8000_0000 && p > 0 && r > 0
  {
    assert p * (2 * r) == 2 * (p * r);
  }

  lemma NextRotation(x: U32, n: nat, m: nat, p: nat, r: nat)
    requires n % 32 == m && p == Pow2(m) && r == Pow2(31 - m)
    ensures Rol32(x, n + 1) == Rotate(x, 2 * p, r)
  {
    NextPlace(n, m);
    if m < 31 {
      RolIs(x, n + 1, m + 1);
    } else {
      RolByWords(x, n + 1);
      Pow2Of32();
      LastPlace(p, r);
      WholeRotation(x);
    }
  }

  lemma NextPlace(n: nat, m: nat)
    requires n % 32 == m
    ensures (n + 1) % 32 == if m < 31 then m + 1 else 0
  {
  }

  lemma LastPlace(p: nat, r: nat)
    requires p == Pow2(31) && r == Pow2(0)
    ensures 2 * p == Pow2(32) && r == 1
  {
  }

  lemma WholeRotation(x: U32)
    ensures Rotate(x, 0x1_0000_0000, 1) == x
  {
  }

  lemma RotatedOnce(x: U32, p: nat, r: nat, y: nat, z: nat)
    requires p * r == 0x8000_0000 && p > 0 && r > 0 && y == Rotate(x, p, 2 * r) && z == Rotate(x, 2 * p, r)
    ensures z == y * 2 % 0x1_0000_0000 + y / 0x8000_0000
  {
    var c, d := x / r, x % r;
    PartsOf(x, r);
    CutAndRotated(c / 2, c % 2, d, p, r, x, y, z);
  }

  lemma CutAndRotated(a: nat, t: nat, d: nat, p: nat, r: nat, x: U32, y: nat, z: nat)
    requires p * r == 0x8000_0000 && p > 0 && r > 0 && y == Rotate(x, p, 2 * r) && z == Rotate(x, 2 * p, r)
    requires t < 2 && d < r && x == (2 * a + t) * r + d
    ensures z == y * 2 % 0x1_0000_0000 + y / 0x8000_0000
  {
    TopPart(a, t, d, p, r);
    Twice(p, r);
    RotateParts(a, t * r + d, p, 2 * r);
    RotateParts(2 * a + t, d, 2 * p, r);
    TopBit(t, d * p, a, p, y, z);
  }

  lemma Twice(p: nat, r: nat)
    ensures p * (2 * r) == 2 * (p * r) && 2 * p * r == 2 * (p * r)
  {
  }

  /** Two ways to cut a number, one bit apart. */
  lemma TopPart(a: nat, t: nat, d: nat, p: nat, r: nat)
    requires p * r == 0x8000_0000 && t < 2 && d < r
    ensures (2 * a + t) * r + d == a * (2 * r) + (t * r + d) && t * r + d < 2 * r
    ensures (t * r + d) * p == t * 0x8000_0000 + d * p && d * (2 * p) == 2 * (d * p) && d * p + p <= 0x8000_0000
  {
    Monotone(t, 1, r);
    Gap(d, r, p);
    assert (t * r + d) * p == t * (p * r) + d * p;
  }

  lemma TopBit(t: nat, low: nat, a: nat, p: nat, y: nat, z: nat)
    requires t < 2 && a < p && low + p <= 0x8000_0000 && y == t * 0x8000_0000 + low + a && z == 2 * low + (2 * a + t)
    ensures z == y * 2 % 0x1_0000_0000 + y / 0x8000_0000
  {
  }

  lemma RolInjective(x: U32, y: U32, n: nat)
    ensures Rol32(x, n) < 0x1_0000_0000
    ensures Rol32(x, n) == Rol32(y, n) ==> x == y
  {
    var m := n % 32;
    Pow2Add(m, 32 - m);
    Pow2Of32();
    RotateInjective(x, y, Pow2(m), Pow2(32 - m));
  }

  //////////////////////////////////////////////////////////////////////////////
  // The checksum
  //////////////////////////////////////////////////////////////////////////////

  /** Bytes 0x3c to 0x3f hold the offset of the PE header and are left out. */
  predicate IsSkipped(i: nat) {
    0x3c <= i < 0x40
  }

  function HeaderSum(bytes: seq<Byte>, n: nat): nat
    requires n <= |bytes|
  {
    if n == 0 then 0 else HeaderSum(bytes, n - 1) + HeaderTerm(bytes, n - 1)
  }

  function Term(v: CompId): nat {
    Rol32(Id(v), v.count)
  }

  function ValueSum(values: seq<CompId>): nat {
    Sum(Term, values)
  }

  function Checksum(bytes: seq<Byte>, offset: nat, values: seq<CompId>): U32
    requires offset <= |bytes|
  {
    (offset + HeaderSum(bytes, offset) + ValueSum(values)) % 0x1_0000_0000
  }

  lemma AddMod(a: nat, b: nat)
    ensures (a % 0x1_0000_0000 + b) % 0x1_0000_0000 == (a + b) % 0x1_0000_0000
  {
  }

  function HeaderTerm(bytes: seq<Byte>, i: nat): nat
    requires i < |bytes|
  {
    if IsSkipped(i) then 0 else Rol32(bytes[i], i)
  }

  /** The loop over the bytes, in 32-bit arithmetic. */
  method AddHeader(bytes: seq<Byte>, offset: U32) returns (checksum: U32)
    requires offset <= |bytes|
    ensures checksum == (offset + HeaderSum(bytes, offset)) % 0x1_0000_0000
  {
    checksum := offset;
    for i := 0 to offset
      invariant checksum == (offset + HeaderSum(bytes, i)) % 0x1_0000_0000
    {
      HeaderStep(bytes, offset, i, checksum);
      if IsSkipped(i) {
        continue;
      }
      checksum := (checksum + Rol32(bytes[i], i)) % 0x1_0000_0000;
    }
  }

  lemma HeaderStep(bytes: seq<Byte>, offset: nat, i: nat, checksum: U32)
    requires i < |bytes| && checksum == (offset + HeaderSum(bytes, i)) % 0x1_0000_0000
    ensures (checksum + HeaderTerm(bytes, i)) % 0x1_0000_0000 == (offset + HeaderSum(bytes, i + 1)) % 0x1_0000_0000
  {
    AddMod(offset + HeaderSum(bytes, i), HeaderTerm(bytes, i));
  }

  lemma SumStep(f: CompId -> nat, values: seq<CompId>, i: nat, start: nat, checksum: U32)
    requires i < |values| && checksum == (start + Sum(f, values[..i])) % 0x1_0000_0000
    ensures (checksum + f(values[i])) % 0x1_0000_0000 == (start + Sum(f, values[..i + 1])) % 0x1_0000_0000
  {
    SumNext(f, values, i);
    AddMod(start + Sum(f, values[..i]), f(values[i]));
  }

  ghost predicate Added(f: CompId -> nat, values: seq<CompId>, i: nat, start: nat, checksum: U32) {
    i <= |values| && checksum == (start + Sum(f, values[..i])) % 0x1_0000_0000
  }

  lemma AddedNext(f: CompId -> nat, values: seq<CompId>, i: nat, start: nat, checksum: U32, term: nat)
    requires Added(f, values, i, start, checksum) && i < |values| && term == f(values[i])
    ensures Added(f, values, i + 1, start, (checksum + term) % 0x1_0000_0000)
  {
    SumStep(f, values, i, start, checksum);
  }

  lemma AddedAll(f: CompId -> nat, values: seq<CompId>, start: nat, checksum: U32)
    requires Added(f, values, |values|, start, checksum)
    ensures checksum == (start + Sum(f, values)) % 0x1_0000_0000
  {
    assert values[..|values|] == values;
  }

  /** The loop over the tool identifiers. */
  method AddValues(start: U32, values: seq<CompId>) returns (checksum: U32)
    ensures checksum == (start + ValueSum(values)) % 0x1_0000_0000
  {
    checksum := start;
    for i := 0 to |values|
      invariant Added(Term, values, i, start, checksum)
    {
      var term := Rol32(values[i].id * 0x1_0000 + values[i].product, values[i].count);
      AddedNext(Term, values, i, start, checksum, term);
      checksum := (checksum + term) % 0x1_0000_0000;
    }
    AddedAll(Term, values, start, checksum);
  }

  /** Whether rich_header_tests finds the stored key to be the checksum. */
  method ChecksumIsValid(bytes: seq<Byte>, h: Header) returns (ok: bool)
    requires h.fileOffset < 0x1_0000_0000 && h.fileOffset <= |bytes|
    ensures ok <==> Checksum(bytes, h.fileOffset, h.values) == h.xorKey
  {
    var header := AddHeader(bytes, h.fileOffset);
    var checksum := AddValues(header, h.values);
    AddMod(h.fileOffset + HeaderSum(bytes, h.fileOffset), ValueSum(h.values));
    ok := checksum == h.xorKey;
  }

  //////////////////////////////////////////////////////////////////////////////
  // Sensitivity
  //////////////////////////////////////////////////////////////////////////////

  /** The sum depends only on the bytes that are not skipped. */
  lemma {:induction false} SkippedBytesDoNotMatter(a: seq<Byte>, b: seq<Byte>, n: nat)
    requires n <= |a| && n <= |b|
    requires forall i :: 0 <= i < n && !IsSkipped(i) ==> a[i] == b[i]
    ensures HeaderSum(a, n) == HeaderSum(b, n)
  {
    if n > 0 {
      SkippedBytesDoNotMatter(a, b, n - 1);
    }
  }

  lemma {:induction false} OneByteMoves(a: seq<Byte>, b: seq<Byte>, n: nat, k: nat)
    requires n <= |a| && n <= |b| && k < n && !IsSkipped(k)
    requires forall i :: 0 <= i < n && i != k ==> a[i] == b[i]
    ensures HeaderSum(a, n) - HeaderSum(b, n) == Rol32(a[k], k) - Rol32(b[k], k)
  {
    if n - 1 == k {
      SkippedBytesDoNotMatter(a, b, n - 1);
    } else {
      OneByteMoves(a, b, n - 1, k);
    }
  }

  lemma CloseAreDifferent(x: nat, y: nat)
    requires x != y && -0x1_0000_0000 < x - y < 0x1_0000_0000
    ensures x % 0x1_0000_0000 != y % 0x1_0000_0000
  {
  }

  /** Changing exactly one byte before the header changes the checksum, except at 0x3c-0x3f. */
  lemma OneByteChangeIsSeen(a: seq<Byte>, b: seq<Byte>, offset: nat, values: seq<CompId>, k: nat)
    requires offset <= |a| && offset <= |b| && k < offset && a[k] != b[k]
    requires forall i :: 0 <= i < offset && i != k ==> a[i] == b[i]
    ensures Checksum(a, offset, values) != Checksum(b, offset, values) <==> !(0x3c <= k < 0x40)
  {
    if IsSkipped(k) {
      SkippedBytesDoNotMatter(a, b, offset);
      return;
    }
    OneByteMoves(a, b, offset, k);
    RolInjective(a[k], b[k], k);
    RolInjective(b[k], a[k], k);
    MovedSums(offset, HeaderSum(a, offset), HeaderSum(b, offset), ValueSum(values), Rol32(a[k], k), Rol32(b[k], k));
  }

  lemma MovedSums(offset: nat, s: nat, t: nat, v: nat, x: U32, y: U32)
    requires s - t == x - y && x != y
    ensures (offset + s + v) % 0x1_0000_0000 != (offset + t + v) % 0x1_0000_0000
  {
    CloseAreDifferent(offset + s + v, offset + t + v);
  }

  /** A header whose key is its checksum stops matching when any such byte changes. */
  lemma TamperingIsDetected(a: seq<Byte>, b: seq<Byte>, h: Header, k: nat)
    requires h.fileOffset <= |a| && h.fileOffset <= |b| && k < h.fileOffset && !(0x3c <= k < 0x40) && a[k] != b[k]
    requires forall i :: 0 <= i < h.fileOffset && i != k ==> a[i] == b[i]
    requires Checksum(a, h.fileOffset, h.values) == h.xorKey
    ensures Checksum(b, h.fileOffset, h.values) != h.xorKey
  {
    OneByteChangeIsSeen(a, b, h.fileOffset, h.values, k);
  }

  /** An all-zero identifier adds nothing, whatever its count and wherever it stands. */
  lemma ZeroEntryAddsNothing(bytes: seq<Byte>, offset: nat, a: seq<CompId>, count: U32, b: seq<CompId>)
    requires offset <= |bytes|
    ensures Checksum(bytes, offset, a + [CompId(0, 0, count)] + b) == Checksum(bytes, offset, a + b)
  {
    var all := a + [CompId(0, 0, count)] + b;
    assert all[..|a|] + all[|a| + 1..] == a + b;
    SumWithout(Term, all, |a|);
    ZeroRotates(count);
  }

  lemma ZeroRotates(n: nat)
    ensures Rol32(0, n) == 0
  {
    ZeroParts(Pow2(n % 32), Pow2(32 - n % 32));
  }

  lemma ZeroParts(p: nat, q: nat)
    requires q > 0
    ensures Rotate(0, p, q) == 0
  {
    DivModIs(0, 0, q, 0);
  }

  /** Every entry adds its identifier, the first half of it on top, rotated by its count. */
  lemma EntryAdds(bytes: seq<Byte>, offset: nat, a: seq<CompId>, v: CompId)
    requires offset <= |bytes|
    ensures
      Checksum(bytes, offset, a + [v]) ==
      (Checksum(bytes, offset, a) + Rol32(v.id * 0x1_0000 + v.product, v.count)) % 0x1_0000_0000
  {
    var all := a + [v];
    assert all[..|a|] == a && all[..|a| + 1] == all;
    SumNext(Term, all, |a|);
    AddMod(offset + HeaderSum(bytes, offset) + ValueSum(a), Term(v));
  }

  /** And every byte before the header but those at 0x3c-0x3f adds itself, rotated by its position. */
  lemma ByteAdds(bytes: seq<Byte>, n: nat)
    requires n < |bytes|
    ensures HeaderSum(bytes, 0) == 0
    ensures HeaderSum(bytes, n + 1) == HeaderSum(bytes, n) + if 0x3c <= n < 0x40 then 0 else Rol32(bytes[n], n)
  {
  }

  /** The order of the entries does not matter. */
  lemma EntryOrderDoesNotMatter(bytes: seq<Byte>, offset: nat, a: seq<CompId>, b: seq<CompId>)
    requires offset <= |bytes| && multiset(a) == multiset(b)
    ensures Checksum(bytes, offset, a) == Checksum(bytes, offset, b)
  {
    SumOfPermutation(Term, a, b);
  }
}
