/**
 The resource tree of an executable: directories of entries, on three levels, down to the leaves.
 Where a directory's offset is zero, it is read from wherever the cursor is; so the decoding
 below passes the position along.
 */
module ResourceTree {
  import opened Options
  import opened Bytes
  import opened PeFile
  import opened SectionMap
  import opened PeImage
  import opened PeStrings

  datatype DirEntry = DirEntry(nameOrId: U32, offsetToData: U32, name: seq<Byte>)

  datatype Dir = Dir(timeDateStamp: U32, entries: seq<DirEntry>)

  /** What was read, if anything, and where the cursor is afterwards. */
  datatype Scan<T> = Scan(pos: nat, value: Option<T>)

  predicate IsNamed(e: DirEntry) {
    e.nameOrId >= 0x8000_0000
  }

  /** The 31 low bits. */
  function Low31(x: U32): U32 {
    x % 0x8000_0000
  }

  function Base(pe: Image, va: U32): U32
    requires pe.alignment > 0
  {
    RvaOffset(pe.sections, pe.alignment, va)
  }

  //////////////////////////////////////////////////////////////////////////////
  // Entries
  //////////////////////////////////////////////////////////////////////////////

  /** The eight bytes of an entry as an entry with that name. */
  function EntryOf(data: seq<Byte>, name: seq<Byte>): DirEntry
    requires |data| == 8
  {
    DirEntry(LE32(data[..4]), LE32(data[4..]), name)
  }

  function NameOffset(base: U32, e: DirEntry): U32 {
    (base + Low31(e.nameOrId)) % 0x1_0000_0000
  }

  /** The entry with its name, which a named entry must have. */
  ghost function WithName(pe: Image, base: U32, e: DirEntry): Option<DirEntry> {
    if !IsNamed(e) then Some(e)
    else
      var name := StringAt(pe.bytes, NameOffset(base, e), true);
      if NameOffset(base, e) == 0 || name == [] then None else Some(e.(name := name))
  }

  /** Entries that point beyond the file size are dropped. */
  predicate IsPlausible(pe: Image, e: DirEntry) {
    Low31(e.offsetToData) <= |pe.bytes|
  }

  function Keep(pe: Image, e: DirEntry): seq<DirEntry> {
    if IsPlausible(pe, e) then [e] else []
  }

  /** Puts the entries before the ones of a scan. */
  function Before(done: seq<DirEntry>, rest: Scan<seq<DirEntry>>): Scan<seq<DirEntry>> {
    if rest.value.None? then rest else rest.(value := Some(done + rest.value.value))
  }

  ghost function EntriesAt(pe: Image, base: U32, pos: nat, n: nat): Scan<seq<DirEntry>>
    decreases n
  {
    var data := ReadAt(pe.bytes, pos, 8);
    if n == 0 then Scan(pos, Some([]))
    else if |data| != 8 then Scan(pos + |data|, None)
    else
      var e := WithName(pe, base, EntryOf(data, []));
      if e.None? then Scan(pos + 8, None)
      else Before(Keep(pe, e.value), EntriesAt(pe, base, pos + 8, n - 1))
  }

  /** No entries before, and none after. */
  lemma BeforeNone(entries: seq<DirEntry>, pos: nat, rest: Scan<seq<DirEntry>>)
    ensures Before([], rest) == rest && Before(entries, Scan(pos, Some([]))) == Scan(pos, Some(entries))
  {
    if rest.value.Some? {
      assert [] + rest.value.value == rest.value.value;
    }
    assert entries + [] == entries;
  }

  lemma BeforeBefore(a: seq<DirEntry>, b: seq<DirEntry>, rest: Scan<seq<DirEntry>>)
    ensures Before(a, Before(b, rest)) == Before(a + b, rest)
  {
    if rest.value.Some? {
      assert a + (b + rest.value.value) == (a + b) + rest.value.value;
    }
  }

  /** The name of an entry, for which the cursor is sent away and brought back. */
  method ReadName(pe: Image, f: File, base: U32, e: DirEntry) returns (r: Option<DirEntry>)
    requires f.bytes == pe.bytes
    modifies f
    ensures r == WithName(pe, base, e) && f.pos == old(f.pos)
  {
    if !IsNamed(e) {
      return Some(e);
    }
    var nameOffset := NameOffset(base, e);
    if nameOffset == 0 {
      return None;
    }
    var ok, name := ReadStringAtOffset(f, nameOffset, true);
    if !ok {
      return None;
    }
    return Some(e.(name := name));
  }

  method ReadEntries(pe: Image, f: File, base: U32, n: nat) returns (r: Option<seq<DirEntry>>)
    requires f.bytes == pe.bytes
    modifies f
    ensures EntriesAt(pe, base, old(f.pos), n) == Scan(f.pos, r)
  {
    var entries: seq<DirEntry> := [];
    BeforeNone([], 0, EntriesAt(pe, base, f.pos, n));
    for i := 0 to n
      invariant EntriesAt(pe, base, old(f.pos), n) == Before(entries, EntriesAt(pe, base, f.pos, n - i))
    {
      ghost var pos := f.pos;
      var data := f.Read(8);
      if |data| != 8 {
        return None;
      }
      var e := ReadName(pe, f, base, EntryOf(data, []));
      if e.None? {
        return None;
      }
      BeforeBefore(entries, Keep(pe, e.value), EntriesAt(pe, base, f.pos, n - i - 1));
      if !IsPlausible(pe, e.value) {
        assert entries + Keep(pe, e.value) == entries;
        continue;
      }
      entries := entries + [e.value];
    }
    BeforeNone(entries, f.pos, EntriesAt(pe, base, f.pos, 0));
    return Some(entries);
  }

  //////////////////////////////////////////////////////////////////////////////
  // Directories
  //////////////////////////////////////////////////////////////////////////////

  function Characteristics(header: seq<Byte>): U32
    requires |header| == 16
  {
    LE32(header[..4])
  }

  function Count(header: seq<Byte>): nat
    requires |header| == 16
  {
    LE16(header[14..16]) + LE16(header[12..14])
  }

  /** Large directories with unexpected characteristics are taken to be corrupted. */
  predicate IsCorrupted(header: seq<Byte>)
    requires |header| == 16
  {
    Count(header) > 0x100 && Characteristics(header) != 0
  }

  function Stamped(stamp: U32, entries: Scan<seq<DirEntry>>): Scan<Dir> {
    match entries.value
    case None => Scan(entries.pos, None)
    case Some(es) => Scan(entries.pos, Some(Dir(stamp, es)))
  }

  ghost function DirAtCursor(pe: Image, va: U32, pos: nat): Scan<Dir>
    requires pe.alignment > 0
  {
    var header := ReadAt(pe.bytes, pos, 16);
    if |header| != 16 then Scan(pos + |header|, None)
    else if IsCorrupted(header) then Scan(pos + 16, None)
    else Stamped(LE32(header[4..8]), EntriesAt(pe, Base(pe, va), pos + 16, Count(header)))
  }

  /** The directory at an offset from the start of the tree; at the cursor if the offset is zero. */
  ghost function DirAt(pe: Image, va: U32, pos: nat, offset: U32): Scan<Dir>
    requires pe.alignment > 0
  {
    var p := (Base(pe, va) + offset) % 0x1_0000_0000;
    if offset == 0 then DirAtCursor(pe, va, pos)
    else if p == 0 then Scan(pos, None)
    else DirAtCursor(pe, va, p)
  }

  method ReadDirAtCursor(pe: Image, f: File, va: U32) returns (r: Option<Dir>)
    requires pe.alignment > 0 && f.bytes == pe.bytes
    modifies f
    ensures DirAtCursor(pe, va, old(f.pos)) == Scan(f.pos, r)
  {
    var header := f.Read(16);
    if |header| != 16 || IsCorrupted(header) {
      return None;
    }
    var base := RvaToOffset(pe.sections, pe.alignment, va);
    var entries := ReadEntries(pe, f, base, Count(header));
    match entries {
      case None => return None;
      case Some(es) => return Some(Dir(LE32(header[4..8]), es));
    }
  }

  /** _read_image_resource_directory */
  method ReadDir(pe: Image, f: File, va: U32, offset: U32) returns (r: Option<Dir>)
    requires pe.alignment > 0 && f.bytes == pe.bytes
    modifies f
    ensures DirAt(pe, va, old(f.pos), offset) == Scan(f.pos, r)
  {
    if offset != 0 {
      var base := RvaToOffset(pe.sections, pe.alignment, va);
      var p := (base + offset) % 0x1_0000_0000;
      if p == 0 {
        return None;
      }
      f.Seek(p);
    }
    r := ReadDirAtCursor(pe, f, va);
  }

  /** Every kept entry of a directory is plausible, and a named one has a name. */
  lemma {:induction false} EntriesAreSound(pe: Image, base: U32, pos: nat, n: nat)
    ensures
      var es := EntriesAt(pe, base, pos, n).value;
      es.Some? ==> |es.value| <= n && forall e <- es.value :: IsPlausible(pe, e) && (IsNamed(e) <==> e.name != [])
    decreases n
  {
    if n > 0 {
      EntriesAreSound(pe, base, pos + 8, n - 1);
    }
  }

  //////////////////////////////////////////////////////////////////////////////
  // Stored directories are read back
  //////////////////////////////////////////////////////////////////////////////

  function EntryBytes(e: DirEntry): (b: seq<Byte>)
    ensures |b| == 8
  {
    ToLE(e.nameOrId, 4) + ToLE(e.offsetToData, 4)
  }

  lemma EntryReadBack(e: DirEntry)
    ensures EntryOf(EntryBytes(e), e.name) == e
  {
    LE32Inverse(e.nameOrId);
    LE32Inverse(e.offsetToData);
    assert EntryBytes(e)[..4] == ToLE(e.nameOrId, 4) && EntryBytes(e)[4..] == ToLE(e.offsetToData, 4);
  }

  /** The entries stand from `pos` on, and the names of the named ones where they point. */
  ghost predicate EntriesStored(pe: Image, base: U32, pos: nat, entries: seq<DirEntry>)
    decreases |entries|
  {
    entries == [] || (EntryStored(pe, base, pos, entries[0]) && EntriesStored(pe, base, pos + 8, entries[1..]))
  }

  ghost predicate EntryStored(pe: Image, base: U32, p: nat, e: DirEntry) {
    && ReadAt(pe.bytes, p, 8) == EntryBytes(e)
    && WithName(pe, base, e.(name := [])) == Some(e)
  }

  function KeepAll(pe: Image, entries: seq<DirEntry>): seq<DirEntry> {
    if entries == [] then [] else Keep(pe, entries[0]) + KeepAll(pe, entries[1..])
  }

  lemma FirstReadBack(pe: Image, base: U32, pos: nat, n: nat, e: DirEntry)
    requires EntryStored(pe, base, pos, e) && n > 0
    ensures EntriesAt(pe, base, pos, n) == Before(Keep(pe, e), EntriesAt(pe, base, pos + 8, n - 1))
  {
    EntryReadBack(e.(name := []));
  }

  /** Stored entries are read back in order, without the ones that point beyond the file size. */
  lemma {:induction false} EntriesReadBack(pe: Image, base: U32, pos: nat, entries: seq<DirEntry>)
    requires EntriesStored(pe, base, pos, entries)
    ensures EntriesAt(pe, base, pos, |entries|) == Scan(pos + 8 * |entries|, Some(KeepAll(pe, entries)))
    decreases |entries|
  {
    if entries != [] {
      FirstReadBack(pe, base, pos, |entries|, entries[0]);
      EntriesReadBack(pe, base, pos + 8, entries[1..]);
    }
  }

  function HeaderBytes(characteristics: U32, stamp: U32, version: U32, named: U16, ids: U16): (b: seq<Byte>)
    ensures |b| == 16
  {
    ToLE(characteristics, 4) + ToLE(stamp, 4) + ToLE(version, 4) + ToLE(named, 2) + ToLE(ids, 2)
  }

  lemma HeaderReadBack(characteristics: U32, stamp: U32, version: U32, named: U16, ids: U16)
    ensures
      var h := HeaderBytes(characteristics, stamp, version, named, ids);
      Characteristics(h) == characteristics && LE32(h[4..8]) == stamp && Count(h) == named + ids
  {
    LE32Inverse(characteristics);
    LE32Inverse(stamp);
    LE16Inverse(named);
    LE16Inverse(ids);
    HeaderParts(ToLE(characteristics, 4), ToLE(stamp, 4), ToLE(version, 4), ToLE(named, 2), ToLE(ids, 2));
  }

  lemma HeaderParts(a: seq<Byte>, b: seq<Byte>, c: seq<Byte>, d: seq<Byte>, e: seq<Byte>)
    requires |a| == |b| == |c| == 4 && |d| == |e| == 2
    ensures
      var h := a + b + c + d + e;
      h[..4] == a && h[4..8] == b && h[12..14] == d && h[14..16] == e
  {
  }

  /** A stored directory is read back, unless it is taken to be corrupted. */
  lemma DirReadBack(pe: Image, va: U32, pos: nat, characteristics: U32, stamp: U32, version: U32, named: U16, ids: U16, entries: seq<DirEntry>)
    requires pe.alignment > 0 && |entries| == named + ids
    requires ReadAt(pe.bytes, pos, 16) == HeaderBytes(characteristics, stamp, version, named, ids)
    requires EntriesStored(pe, Base(pe, va), pos + 16, entries)
    ensures
      var r := DirAtCursor(pe, va, pos);
      if named + ids > 0x100 && characteristics != 0 then r == Scan(pos + 16, None)
      else r == Scan(pos + 16 + 8 * |entries|, Some(Dir(stamp, KeepAll(pe, entries))))
  {
    HeaderReadBack(characteristics, stamp, version, named, ids);
    EntriesReadBack(pe, Base(pe, va), pos + 16, entries);
  }
}
