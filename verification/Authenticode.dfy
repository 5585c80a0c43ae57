/**
 The bytes that the Authenticode digest is computed over: the file up to the certificate,
 without the two fields that signing changes.  The hash is the sequence of bytes it was fed.
 */
module Authenticode {
  import opened Bytes
  import opened Sequences
  import opened PeFile
  import opened PeImage
  import opened OptionalHeader

  class Digest {
    var fed: seq<Byte>

    constructor ()
      ensures fed == []
    {
      fed := [];
    }

    method Add(data: seq<Byte>)
      modifies this
      ensures fed == old(fed) + data
    {
      fed := fed + data;
    }
  }

  /** Where the certificate starts; a directory that was not read is zero. */
  function CertificateStart(h: Header): U32 {
    if |h.directories| > SECURITY then h.directories[SECURITY].virtualAddress else 0
  }

  function SecurityPos(lfanew: U32, magic: U16): nat {
    DirectoryPos(lfanew, magic, SECURITY)
  }

  /** Bytes that hold the stored checksum or the stored security directory. */
  predicate IsExcluded(lfanew: U32, magic: U16, i: nat) {
    || ChecksumPos(lfanew) <= i < ChecksumPos(lfanew) + 4
    || SecurityPos(lfanew, magic) <= i < SecurityPos(lfanew, magic) + 8
  }

  function Min(a: nat, b: nat): nat {
    if a < b then a else b
  }

  /** The file up to `end`, without the excluded fields. */
  function Kept(bytes: seq<Byte>, lfanew: U32, magic: U16, end: nat): seq<Byte>
    requires SecurityPos(lfanew, magic) + 8 <= end <= |bytes|
  {
    var c, s := ChecksumPos(lfanew), SecurityPos(lfanew, magic);
    bytes[..c] + bytes[c + 4..s] + bytes[s + 8..end]
  }

  //////////////////////////////////////////////////////////////////////////////
  // The digest
  //////////////////////////////////////////////////////////////////////////////

  /** The chunk loop: up to `remaining` bytes from the cursor, or what the file has left. */
  method HashChunks(f: File, remaining: nat, digest: Digest)
    requires f.pos <= |f.bytes|
    modifies f, digest
    ensures digest.fed == old(digest.fed) + f.bytes[old(f.pos)..Min(old(f.pos) + remaining, |f.bytes|)]
  {
    var left := remaining;
    ghost var start := f.pos;
    while left > 0
      invariant left >= 0 && start <= f.pos <= |f.bytes| && f.pos + left == start + remaining
      invariant digest.fed == old(digest.fed) + f.bytes[start..f.pos]
    {
      ghost var pos, fed := f.pos, digest.fed;
      var data := f.Read(Min(left, 4096));
      if data == [] {
        assert f.pos == |f.bytes|;
        break;
      }
      assert data == f.bytes[pos..f.pos];
      digest.Add(data);
      Chunk(f.bytes, start, pos, f.pos, old(digest.fed));
      left := left - |data|;
    }
    assert f.pos == Min(start + remaining, |f.bytes|);
  }

  lemma Chunk(bytes: seq<Byte>, start: nat, mid: nat, end: nat, fed: seq<Byte>)
    requires start <= mid <= end <= |bytes|
    ensures fed + bytes[start..mid] + bytes[mid..end] == fed + bytes[start..end]
  {
    assert bytes[start..mid] + bytes[mid..end] == bytes[start..end];
  }

  /** A certificate that was read from the headers comes with the whole of its directory. */
  lemma SecurityFits(bytes: seq<Byte>, lfanew: U32, h: Header)
    requires Stores(bytes, lfanew, h)
    ensures CertificateStart(h) > 0 ==> SecurityPos(lfanew, h.magic) + 8 <= |bytes|
  {
    if |h.directories| > SECURITY {
      assert HoldsDirectory(bytes, DirectoriesPos(lfanew, h.magic) + 8 * SECURITY, h.directories[SECURITY]);
    }
  }

  /** Hashes `before` bytes, skips four, hashes `between` bytes, skips eight, and hashes the rest up
      to `certificate`, unless the cursor is already past it. */
  method HashAround(f: File, before: nat, between: nat, certificate: nat, digest: Digest)
    requires before + 4 + between <= |f.bytes| && digest.fed == []
    requires before + between + 12 <= certificate ==> before + between + 12 <= |f.bytes|
    modifies f, digest
    ensures
      var s := before + 4 + between;
      var rest := if s + 8 <= certificate then f.bytes[s + 8..Min(certificate, |f.bytes|)] else [];
      digest.fed == f.bytes[..before] + f.bytes[before + 4..s] + rest
  {
    f.Seek(0);
    var first := f.Read(before);
    digest.Add(first);
    f.Seek(f.pos + 4);
    var second := f.Read(between);
    digest.Add(second);
    f.Seek(f.pos + 8);
    if certificate < f.pos {
      return;
    }
    HashChunks(f, certificate - f.pos, digest);
  }

  /** get_authenticode_hash, for a header that was parsed from the same file.  The file must reach
      the security directory, which is implied by five directories. */
  method AuthenticodeHash(f: File, lfanew: U32, h: Header, digest: Digest)
    requires Stores(f.bytes, lfanew, h) && SecurityPos(lfanew, h.magic) <= |f.bytes| && digest.fed == []
    modifies f, digest
    ensures
      var start := if |h.directories| >= 5 then h.directories[4].virtualAddress else 0;
      if SecurityPos(lfanew, h.magic) + 8 <= start then
        && SecurityPos(lfanew, h.magic) + 8 <= |f.bytes|
        && digest.fed == Kept(f.bytes, lfanew, h.magic, Min(start, |f.bytes|))
      else
        digest.fed == f.bytes[..ChecksumPos(lfanew)] + f.bytes[ChecksumPos(lfanew) + 4..SecurityPos(lfanew, h.magic)]
  {
    SecurityFits(f.bytes, lfanew, h);
    var between := if h.magic == PE32_PLUS then 0x3C + 0x10 else 0x3C;
    HashAround(f, lfanew + 24 + 0x40, between, CertificateStart(h), digest);
  }

  //////////////////////////////////////////////////////////////////////////////
  // Exactly the excluded fields do not matter
  //////////////////////////////////////////////////////////////////////////////

  ghost predicate AgreeOn(a: seq<Byte>, b: seq<Byte>, from: nat, to: nat)
    requires to <= |a| && to <= |b|
  {
    forall i :: from <= i < to ==> a[i] == b[i]
  }

  lemma SlicesAgree(a: seq<Byte>, b: seq<Byte>, from: nat, to: nat)
    requires from <= to <= |a| && to <= |b|
    ensures a[from..to] == b[from..to] <==> AgreeOn(a, b, from, to)
  {
    if a[from..to] == b[from..to] {
      forall i | from <= i < to ensures a[i] == b[i] {
        assert a[i] == a[from..to][i - from] && b[i] == b[from..to][i - from];
      }
    }
  }

  lemma ConcatCancels(a: seq<Byte>, b: seq<Byte>, c: seq<Byte>, x: seq<Byte>, y: seq<Byte>, z: seq<Byte>)
    requires |a| == |x| && |b| == |y| && |c| == |z|
    ensures a + b + c == x + y + z <==> a == x && b == y && c == z
  {
    var s, t := a + b + c, x + y + z;
    assert s[..|a|] == a && s[|a|..|a| + |b|] == b && s[|a| + |b|..] == c;
    assert t[..|a|] == x && t[|a|..|a| + |b|] == y && t[|a| + |b|..] == z;
  }

  /** Two files give the digest the same bytes exactly when they agree outside the two fields. */
  lemma DigestSeesExactlyTheRest(a: seq<Byte>, b: seq<Byte>, lfanew: U32, magic: U16, end: nat)
    requires SecurityPos(lfanew, magic) + 8 <= end <= |a| && end <= |b|
    ensures Kept(a, lfanew, magic, end) == Kept(b, lfanew, magic, end)
            <==> forall i: nat :: i < end && !IsExcluded(lfanew, magic, i) ==> a[i] == b[i]
  {
    var c, s := ChecksumPos(lfanew), SecurityPos(lfanew, magic);
    ConcatCancels(a[..c], a[c + 4..s], a[s + 8..end], b[..c], b[c + 4..s], b[s + 8..end]);
    SlicesAgree(a, b, 0, c);
    SlicesAgree(a, b, c + 4, s);
    SlicesAgree(a, b, s + 8, end);
    assert a[0..c] == a[..c] && b[0..c] == b[..c];
    assert (AgreeOn(a, b, 0, c) && AgreeOn(a, b, c + 4, s) && AgreeOn(a, b, s + 8, end))
        <==> forall i: nat :: i < end && !IsExcluded(lfanew, magic, i) ==> a[i] == b[i];
  }

  //////////////////////////////////////////////////////////////////////////////
  // The excluded fields are the ones that the parser stores
  //////////////////////////////////////////////////////////////////////////////

  ghost predicate SameOutside(a: seq<Byte>, b: seq<Byte>, p: nat, n: nat) {
    |a| == |b| && forall i :: 0 <= i < |a| && !(p <= i < p + n) ==> a[i] == b[i]
  }

  lemma SliceOutside(a: seq<Byte>, b: seq<Byte>, p: nat, n: nat, q: nat, k: nat)
    requires SameOutside(a, b, p, n) && q + k <= |a| && (q + k <= p || p + n <= q)
    ensures a[q..q + k] == b[q..q + k]
  {
  }

  /** Numbers that share no byte with the change are still stored. */
  lemma NumberKept(a: seq<Byte>, b: seq<Byte>, p: nat, n: nat, q: nat, x: U32)
    requires SameOutside(a, b, p, n) && HoldsU32(a, q, x) && (q + 4 <= p || p + n <= q)
    ensures HoldsU32(b, q, x)
  {
    SliceOutside(a, b, p, n, q, 4);
  }

  lemma DirectoryKept(a: seq<Byte>, b: seq<Byte>, p: nat, n: nat, q: nat, d: Directory)
    requires SameOutside(a, b, p, n) && HoldsDirectory(a, q, d) && (q + 8 <= p || p + n <= q)
    ensures HoldsDirectory(b, q, d)
  {
    NumberKept(a, b, p, n, q, d.virtualAddress);
    NumberKept(a, b, p, n, q + 4, d.size);
  }

  /** Signing: storing a new checksum and a new certificate size. */
  function Sealed(bytes: seq<Byte>, lfanew: U32, magic: U16, checksum: U32, size: U32): seq<Byte>
    requires SecurityPos(lfanew, magic) + 8 <= |bytes|
  {
    Patch(Patch(bytes, ChecksumPos(lfanew), ToLE(checksum, 4)), SecurityPos(lfanew, magic) + 4, ToLE(size, 4))
  }

  lemma ChecksumPatched(a: seq<Byte>, b: seq<Byte>, lfanew: U32, h: Header, checksum: U32)
    requires Stores(a, lfanew, h) && SameOutside(a, b, ChecksumPos(lfanew), 4)
    requires HoldsU32(b, ChecksumPos(lfanew), checksum)
    ensures Stores(b, lfanew, h.(checksum := checksum))
  {
    var p, start := ChecksumPos(lfanew), DirectoriesPos(lfanew, h.magic);
    SliceOutside(a, b, p, 4, Base(lfanew), 2);
    NumberKept(a, b, p, 4, Base(lfanew) + 32, h.sectionAlignment);
    NumberKept(a, b, p, 4, Base(lfanew) + 36, h.fileAlignment);
    NumberKept(a, b, p, 4, start - 4, h.numberOfRvaAndSizes);
    forall i: nat | i < |h.directories| ensures HoldsDirectory(b, start + 8 * i, h.directories[i]) {
      DirectoryKept(a, b, p, 4, start + 8 * i, h.directories[i]);
    }
  }

  function Resized(h: Header, size: U32): Header
    requires |h.directories| > SECURITY
  {
    h.(directories := h.directories[SECURITY := h.directories[SECURITY].(size := size)])
  }

  lemma DirectoriesPatched(a: seq<Byte>, b: seq<Byte>, start: nat, ds: seq<Directory>, size: U32)
    requires DirectoriesAre(a, start, ds) && |ds| > SECURITY
    requires SameOutside(a, b, start + 36, 4) && HoldsU32(b, start + 36, size)
    ensures DirectoriesAre(b, start, ds[SECURITY := ds[SECURITY].(size := size)])
  {
    var es := ds[SECURITY := ds[SECURITY].(size := size)];
    forall i: nat | i < |es| ensures HoldsDirectory(b, start + 8 * i, es[i]) {
      assert HoldsDirectory(a, start + 8 * i, ds[i]);
      if i == SECURITY {
        NumberKept(a, b, start + 36, 4, start + 8 * i, ds[i].virtualAddress);
      } else {
        DirectoryKept(a, b, start + 36, 4, start + 8 * i, ds[i]);
      }
    }
  }

  lemma SizePatched(a: seq<Byte>, b: seq<Byte>, lfanew: U32, h: Header, size: U32)
    requires Stores(a, lfanew, h) && |h.directories| > SECURITY
    requires SameOutside(a, b, SecurityPos(lfanew, h.magic) + 4, 4)
    requires HoldsU32(b, SecurityPos(lfanew, h.magic) + 4, size)
    ensures Stores(b, lfanew, Resized(h, size))
  {
    var p, start := SecurityPos(lfanew, h.magic) + 4, DirectoriesPos(lfanew, h.magic);
    SliceOutside(a, b, p, 4, Base(lfanew), 2);
    NumberKept(a, b, p, 4, Base(lfanew) + 32, h.sectionAlignment);
    NumberKept(a, b, p, 4, Base(lfanew) + 36, h.fileAlignment);
    NumberKept(a, b, p, 4, ChecksumPos(lfanew), h.checksum);
    NumberKept(a, b, p, 4, start - 4, h.numberOfRvaAndSizes);
    DirectoriesPatched(a, b, start, h.directories, size);
  }

  lemma PatchStores(bytes: seq<Byte>, p: nat, x: U32)
    requires p + 4 <= |bytes|
    ensures SameOutside(bytes, Patch(bytes, p, ToLE(x, 4)), p, 4) && HoldsU32(Patch(bytes, p, ToLE(x, 4)), p, x)
  {
    LE32Inverse(x);
  }

  lemma OutsideIsKept(a: seq<Byte>, b: seq<Byte>, lfanew: U32, magic: U16, p: nat, n: nat, end: nat)
    requires SameOutside(a, b, p, n) && SecurityPos(lfanew, magic) + 8 <= end <= |a|
    requires forall i: nat :: p <= i < p + n ==> IsExcluded(lfanew, magic, i)
    ensures Kept(a, lfanew, magic, end) == Kept(b, lfanew, magic, end)
  {
    DigestSeesExactlyTheRest(a, b, lfanew, magic, end);
  }

  lemma SealedParts(a: seq<Byte>, b: seq<Byte>, c: seq<Byte>, lfanew: U32, h: Header, checksum: U32, size: U32, end: nat)
    requires Stores(a, lfanew, h) && |h.directories| > SECURITY && SecurityPos(lfanew, h.magic) + 8 <= end <= |a|
    requires SameOutside(a, b, ChecksumPos(lfanew), 4) && HoldsU32(b, ChecksumPos(lfanew), checksum)
    requires
      var p := SecurityPos(lfanew, h.magic) + 4;
      SameOutside(b, c, p, 4) && HoldsU32(c, p, size)
    ensures Stores(c, lfanew, Resized(h.(checksum := checksum), size))
    ensures |a| == |b| == |c| && Kept(c, lfanew, h.magic, end) == Kept(a, lfanew, h.magic, end)
  {
    ChecksumPatched(a, b, lfanew, h, checksum);
    SizePatched(b, c, lfanew, h.(checksum := checksum), size);
    OutsideIsKept(a, b, lfanew, h.magic, ChecksumPos(lfanew), 4, end);
    OutsideIsKept(b, c, lfanew, h.magic, SecurityPos(lfanew, h.magic) + 4, 4, end);
  }

  /** After sealing, the parser reads the new checksum and the new size, nothing else that it reads
      has changed, and the digest is fed the same bytes. */
  lemma SealingIsInvisible(bytes: seq<Byte>, lfanew: U32, h: Header, checksum: U32, size: U32, end: nat)
    requires Stores(bytes, lfanew, h) && |h.directories| > SECURITY
    requires SecurityPos(lfanew, h.magic) + 8 <= end <= |bytes|
    ensures
      var sealed := Sealed(bytes, lfanew, h.magic, checksum, size);
      && Stores(sealed, lfanew, Resized(h.(checksum := checksum), size))
      && |sealed| == |bytes| && Kept(sealed, lfanew, h.magic, end) == Kept(bytes, lfanew, h.magic, end)
  {
    PatchStores(bytes, ChecksumPos(lfanew), checksum);
    var one := Patch(bytes, ChecksumPos(lfanew), ToLE(checksum, 4));
    PatchStores(one, SecurityPos(lfanew, h.magic) + 4, size);
    SealedParts(bytes, one, Sealed(bytes, lfanew, h.magic, checksum, size), lfanew, h, checksum, size, end);
  }
}
