/**
 The optional header of a PE file, read piece by piece because PE32 and PE32+ give some of
 its fields different widths.
 */
module OptionalHeader {
  import opened Bytes
  import opened PeFile
  import opened PeImage

  const PE32: U16 := 0x10b
  const PE32_PLUS: U16 := 0x20b

  /** The fields that the parsers and the digest depend on. */
  datatype Header = Header(
    magic: U16,
    sectionAlignment: U32,
    fileAlignment: U32,
    checksum: U32,
    numberOfRvaAndSizes: U32,
    directories: seq<Directory>)

  datatype Outcome = Absent | Malformed | Parsed(header: Header)

  //////////////////////////////////////////////////////////////////////////////
  // The layout, as absolute positions
  //////////////////////////////////////////////////////////////////////////////

  /** The optional header follows the 24 bytes of the PE header. */
  function Base(lfanew: U32): nat {
    lfanew + 24
  }

  function ChecksumPos(lfanew: U32): nat {
    Base(lfanew) + 64
  }

  function DirectoriesPos(lfanew: U32, magic: U16): nat {
    Base(lfanew) + if magic == 0x20b then 112 else 96
  }

  function DirectoryPos(lfanew: U32, magic: U16, i: nat): nat {
    DirectoriesPos(lfanew, magic) + 8 * i
  }

  predicate HoldsU16(bytes: seq<Byte>, p: nat, x: U16) {
    p + 2 <= |bytes| && LE16(bytes[p..p + 2]) == x
  }

  predicate HoldsU32(bytes: seq<Byte>, p: nat, x: U32) {
    p + 4 <= |bytes| && LE32(bytes[p..p + 4]) == x
  }

  predicate HoldsDirectory(bytes: seq<Byte>, p: nat, d: Directory) {
    HoldsU32(bytes, p, d.virtualAddress) && HoldsU32(bytes, p + 4, d.size)
  }

  /** The number of directories read is capped at sixteen. */
  function DirectoryCount(numberOfRvaAndSizes: U32): (n: nat)
    ensures n <= 16
  {
    if numberOfRvaAndSizes <= 16 then numberOfRvaAndSizes else 16
  }

  ghost predicate DirectoriesAre(bytes: seq<Byte>, start: nat, directories: seq<Directory>) {
    forall i: nat :: i < |directories| ==> HoldsDirectory(bytes, start + 8 * i, directories[i])
  }

  /** The file stores the fields of `h`, up to its directories. */
  ghost predicate FixedPartIs(bytes: seq<Byte>, lfanew: U32, h: Header) {
    && HoldsU16(bytes, Base(lfanew), h.magic) && (h.magic == 0x10b || h.magic == 0x20b)
    && HoldsU32(bytes, Base(lfanew) + 32, h.sectionAlignment) && h.sectionAlignment != 0
    && HoldsU32(bytes, Base(lfanew) + 36, h.fileAlignment) && h.fileAlignment != 0
    && HoldsU32(bytes, ChecksumPos(lfanew), h.checksum)
    && HoldsU32(bytes, DirectoriesPos(lfanew, h.magic) - 4, h.numberOfRvaAndSizes)
  }

  /** The file stores a valid optional header, with the fields of `h`. */
  ghost predicate Stores(bytes: seq<Byte>, lfanew: U32, h: Header) {
    && FixedPartIs(bytes, lfanew, h)
    && (if h.numberOfRvaAndSizes > 16 then |h.directories| == 16 else |h.directories| == h.numberOfRvaAndSizes)
    && DirectoriesAre(bytes, DirectoriesPos(lfanew, h.magic), h.directories)
  }

  /** A file stores at most one header. */
  lemma StoresIsUnique(bytes: seq<Byte>, lfanew: U32, g: Header, h: Header)
    requires Stores(bytes, lfanew, g) && Stores(bytes, lfanew, h)
    ensures g == h
  {
    var start := DirectoriesPos(lfanew, h.magic);
    forall i: nat | i < |h.directories| ensures g.directories[i] == h.directories[i] {
      assert HoldsDirectory(bytes, start + 8 * i, g.directories[i]);
      assert HoldsDirectory(bytes, start + 8 * i, h.directories[i]);
    }
    assert g.directories == h.directories;
  }

  //////////////////////////////////////////////////////////////////////////////
  // The parser
  //////////////////////////////////////////////////////////////////////////////

  /** A number read as part of a larger stretch of the file. */
  lemma PartOfRead(bytes: seq<Byte>, p: nat, data: seq<Byte>, k: nat)
    requires p + |data| <= |bytes| && data == bytes[p..p + |data|] && k + 4 <= |data|
    ensures HoldsU32(bytes, p + k, LE32(data[k..k + 4]))
  {
    var a, b := data[k..k + 4], bytes[p + k..p + k + 4];
    forall i | 0 <= i < 4 ensures a[i] == b[i] {
      assert a[i] == data[k + i] == bytes[p + k + i] == b[i];
    }
    assert a == b;
  }

  function DirectoryOf(data: seq<Byte>): Directory
    requires |data| == 8
  {
    Directory(LE32(data[0..4]), LE32(data[4..8]))
  }

  lemma DirectoryRead(bytes: seq<Byte>, p: nat, data: seq<Byte>)
    requires |data| == 8 && p + 8 <= |bytes| && data == bytes[p..p + 8]
    ensures HoldsDirectory(bytes, p, DirectoryOf(data))
  {
    PartOfRead(bytes, p, data, 0);
    PartOfRead(bytes, p, data, 4);
  }

  lemma DirectoriesStep(bytes: seq<Byte>, start: nat, directories: seq<Directory>, d: Directory)
    requires DirectoriesAre(bytes, start, directories) && HoldsDirectory(bytes, start + 8 * |directories|, d)
    ensures DirectoriesAre(bytes, start, directories + [d])
  {
    var all := directories + [d];
    forall i: nat | i < |all| ensures HoldsDirectory(bytes, start + 8 * i, all[i]) {
      if i < |directories| {
        assert HoldsDirectory(bytes, start + 8 * i, directories[i]);
      }
    }
  }

  method ReadDirectories(f: File, count: nat) returns (ok: bool, directories: seq<Directory>)
    modifies f
    ensures ok <==> count == 0 || old(f.pos) + 8 * count <= |f.bytes|
    ensures ok ==> |directories| == count && DirectoriesAre(f.bytes, old(f.pos), directories)
  {
    directories := [];
    var start := f.pos;
    for i := 0 to count
      invariant |directories| == i && f.pos == start + 8 * i
      invariant i == 0 || f.pos <= |f.bytes|
      invariant DirectoriesAre(f.bytes, start, directories)
    {
      var data := f.Read(8);
      if |data| != 8 {
        return false, directories;
      }
      var d := DirectoryOf(data);
      DirectoryRead(f.bytes, start + 8 * i, data);
      DirectoriesStep(f.bytes, start, directories, d);
      directories := directories + [d];
    }
    return true, directories;
  }

  /** The pieces that are read before the directories. */
  datatype Pieces = Pieces(first: seq<Byte>, imageBase: seq<Byte>, common: seq<Byte>, last: seq<Byte>)

  /** The size of the last piece depends on the magic. */
  function LastSize(magic: U16): nat {
    if magic == PE32_PLUS then 40 else 24
  }

  predicate PiecesFit(q: Pieces) {
    |q.first| == 24 && |q.imageBase| == 8 && |q.common| == 40 && |q.last| == LastSize(LE16(q.first[..2]))
  }

  /** The header made of the pieces, without directories yet. */
  function FromPieces(q: Pieces): Header
    requires PiecesFit(q)
  {
    var n := |q.last|;
    Header(LE16(q.first[..2]), LE32(q.common[0..4]), LE32(q.common[4..8]), LE32(q.common[32..36]), LE32(q.last[n - 4..n]), [])
  }

  predicate Accepted(h: Header) {
    (h.magic == 0x10b || h.magic == 0x20b) && h.sectionAlignment != 0 && h.fileAlignment != 0
  }

  /** The pieces stand one after the other in the file. */
  ghost predicate PiecesAt(bytes: seq<Byte>, base: nat, q: Pieces) {
    && PiecesFit(q) && base + 72 + |q.last| <= |bytes|
    && q.first == bytes[base..base + 24]
    && q.common == bytes[base + 32..base + 72]
    && q.last == bytes[base + 72..base + 72 + |q.last|]
  }

  lemma PiecesGiveFields(bytes: seq<Byte>, lfanew: U32, q: Pieces)
    requires PiecesAt(bytes, Base(lfanew), q)
    ensures FixedPartIs(bytes, lfanew, FromPieces(q)) <==> Accepted(FromPieces(q))
  {
    var base := Base(lfanew);
    assert q.first[..2] == bytes[base..base + 2];
    PartOfRead(bytes, base + 32, q.common, 0);
    PartOfRead(bytes, base + 32, q.common, 4);
    PartOfRead(bytes, base + 32, q.common, 32);
    PartOfRead(bytes, base + 72, q.last, |q.last| - 4);
  }

  /** The reads before the directories; `h` is accepted exactly when the file stores such a part. */
  method ReadFixedPart(f: File, lfanew: U32) returns (ok: bool, h: Header)
    requires f.pos == Base(lfanew)
    modifies f
    ensures ok ==> FixedPartIs(f.bytes, lfanew, h) && f.pos == DirectoriesPos(lfanew, h.magic) <= |f.bytes|
    ensures !ok ==> forall g :: !FixedPartIs(f.bytes, lfanew, g)
  {
    h := Header(0, 0, 0, 0, 0, []);
    var first := f.Read(0x18);
    if |first| != 0x18 {
      return false, h;
    }
    var magic := LE16(first[..2]);
    MagicIs(f.bytes, Base(lfanew), first);
    if magic != PE32 && magic != PE32_PLUS {
      return false, h;
    }
    var imageBase := f.Read(8);
    if |imageBase| != 8 {
      return false, h;
    }
    var common := f.Read(0x28);
    if |common| != 0x28 {
      return false, h;
    }
    AlignmentsAre(f.bytes, lfanew, common);
    if LE32(common[0..4]) == 0 || LE32(common[4..8]) == 0 {
      return false, h;
    }
    var last := f.Read(LastSize(magic));
    if |last| != LastSize(magic) {
      return false, h;
    }
    var q := Pieces(first, imageBase, common, last);
    PiecesGiveFields(f.bytes, lfanew, q);
    return true, FromPieces(q);
  }

  lemma MagicIs(bytes: seq<Byte>, p: nat, first: seq<Byte>)
    requires p + 24 <= |bytes| && first == bytes[p..p + 24]
    ensures forall x :: HoldsU16(bytes, p, x) <==> x == LE16(first[..2])
  {
    assert first[..2] == bytes[p..p + 2];
  }

  lemma AlignmentsAre(bytes: seq<Byte>, lfanew: U32, common: seq<Byte>)
    requires Base(lfanew) + 72 <= |bytes| && common == bytes[Base(lfanew) + 32..Base(lfanew) + 72]
    ensures forall g | FixedPartIs(bytes, lfanew, g) ::
      g.sectionAlignment == LE32(common[0..4]) && g.fileAlignment == LE32(common[4..8])
  {
    PartOfRead(bytes, Base(lfanew) + 32, common, 0);
    PartOfRead(bytes, Base(lfanew) + 32, common, 4);
  }

  /** The fixed part of the header determines it. */
  lemma FixedPartIsUnique(bytes: seq<Byte>, lfanew: U32, g: Header, h: Header)
    requires FixedPartIs(bytes, lfanew, g) && FixedPartIs(bytes, lfanew, h)
    ensures g.(directories := []) == h.(directories := [])
  {
  }

  /** The directories of a stored header lie within the file. */
  lemma DirectoriesFit(bytes: seq<Byte>, start: nat, directories: seq<Directory>)
    requires DirectoriesAre(bytes, start, directories) && directories != []
    ensures start + 8 * |directories| <= |bytes|
  {
    var i := |directories| - 1;
    assert HoldsDirectory(bytes, start + 8 * i, directories[i]);
  }

  /** _parse_image_optional_header: it succeeds exactly when the file stores a header, which it
      returns.  Without an optional header there is nothing to parse. */
  method ParseOptionalHeader(f: File, lfanew: U32, sizeOfOptionalHeader: U16) returns (r: Outcome)
    modifies f
    ensures r.Absent? <==> sizeOfOptionalHeader == 0
    ensures r.Parsed? ==> Stores(f.bytes, lfanew, r.header)
    ensures r.Malformed? ==> forall h :: !Stores(f.bytes, lfanew, h)
  {
    if sizeOfOptionalHeader == 0 {
      return Absent;
    }
    f.Seek(Base(lfanew));
    var ok, h := ReadFixedPart(f, lfanew);
    if !ok {
      return Malformed;
    }
    var count := DirectoryCount(h.numberOfRvaAndSizes);
    var start := f.pos;
    var read, directories := ReadDirectories(f, count);
    if !read {
      forall g | Stores(f.bytes, lfanew, g) ensures false {
        FixedPartIsUnique(f.bytes, lfanew, g, h);
        DirectoriesFit(f.bytes, start, g.directories);
      }
      return Malformed;
    }
    return Parsed(h.(directories := directories));
  }
}
