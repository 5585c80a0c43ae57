/**
 The import lookup table: a loop of 4- or 8-byte entries up to a zero one, each of which
 may send the cursor away to read a hint and a name and must bring it back.
 */
module Imports {
  import opened Options
  import opened Bytes
  import opened Sequences
  import opened PeFile
  import opened SectionMap
  import opened PeImage

  datatype Import = Import(addressOfData: U64, hint: U16, name: seq<Byte>)

  const MAX_IMPORTS: nat := 10001

  class ImportedLibrary {
    var imports: seq<Import>

    constructor ()
      ensures imports == []
    {
      imports := [];
    }
  }

  function EntrySize(pe: Image): nat {
    if pe.x64 then 8 else 4
  }

  /** The position of the i-th entry of a table. */
  function EntryPos(pe: Image, offset: nat, i: nat): nat {
    if pe.x64 then offset + 8 * i else offset + 4 * i
  }

  function AddressAt(pe: Image, p: nat): (r: Option<U64>)
    ensures r.Some? <==> p + EntrySize(pe) <= |pe.bytes|
  {
    if p + EntrySize(pe) <= |pe.bytes| then
      Some(if pe.x64 then LE64(pe.bytes[p..p + 8]) else LE32(pe.bytes[p..p + 4]))
    else None
  }

  /** The high bit tells an import by ordinal from one by name. */
  predicate ByName(pe: Image, address: U64) {
    address < if pe.x64 then 0x8000_0000_0000_0000 else 0x8000_0000
  }

  /** The import that an entry stands for, with its hint and name read from the file. */
  function Resolve(pe: Image, address: U64): Option<Import>
    requires pe.alignment > 0
  {
    if !ByName(pe, address) then Some(Import(address, 0, []))
    else
      var table := RvaOffset(pe.sections, pe.alignment, address % 0x8000_0000);
      if table == 0 || |pe.bytes| < table + 2 then None
      else Some(Import(address, LE16(pe.bytes[table..table + 2]), AsciiAt(pe.bytes, table + 2)))
  }

  /** _parse_hint_name_table: on success the cursor is back where it was. */
  method ParseHintNameTable(pe: Image, f: File, address: U64) returns (r: Option<Import>)
    requires pe.alignment > 0 && f.bytes == pe.bytes
    modifies f
    ensures r == Resolve(pe, address)
    ensures r.Some? ==> f.pos == old(f.pos)
  {
    if !ByName(pe, address) {
      return Some(Import(address, 0, []));
    }
    var tableOffset := RvaToOffset(pe.sections, pe.alignment, address % 0x8000_0000);
    if tableOffset == 0 {
      return None;
    }
    var savedOffset := f.pos;
    f.Seek(tableOffset);
    var hint := f.Read(2);
    if |hint| != 2 {
      return None;
    }
    var name := ReadAsciiString(f, 0);
    f.Seek(savedOffset);
    return Some(Import(address, LE16(hint), name));
  }

  //////////////////////////////////////////////////////////////////////////////
  // The pure decoding
  //////////////////////////////////////////////////////////////////////////////

  /** At `p` stands a non-zero entry that resolves to `i`. */
  ghost predicate EntryIs(pe: Image, p: nat, i: Import)
    requires pe.alignment > 0
  {
    AddressAt(pe, p).Some? && AddressAt(pe, p).value != 0 && Resolve(pe, AddressAt(pe, p).value) == Some(i)
  }

  ghost predicate EntriesAre(pe: Image, offset: nat, entries: seq<Import>)
    requires pe.alignment > 0
  {
    forall i :: 0 <= i < |entries| ==> EntryIs(pe, EntryPos(pe, offset, i), entries[i])
  }

  /** The table at `offset` holds exactly `entries`, up to its first zero entry. */
  ghost predicate TableIs(pe: Image, offset: nat, entries: seq<Import>)
    requires pe.alignment > 0
  {
    EntriesAre(pe, offset, entries) && AddressAt(pe, EntryPos(pe, offset, |entries|)) == Some(0)
  }

  /** Entries read from the same place agree as far as both go. */
  lemma EntriesAgree(pe: Image, offset: nat, a: seq<Import>, b: seq<Import>)
    requires pe.alignment > 0 && EntriesAre(pe, offset, a) && EntriesAre(pe, offset, b) && |a| <= |b|
    ensures a == b[..|a|]
  {
    forall i | 0 <= i < |a| ensures a[i] == b[i] {
      assert EntryIs(pe, EntryPos(pe, offset, i), a[i]) && EntryIs(pe, EntryPos(pe, offset, i), b[i]);
    }
  }

  /** The entries read from a table's start never go past its zero entry. */
  lemma EntriesEndWithTable(pe: Image, offset: nat, t: seq<Import>, entries: seq<Import>)
    requires pe.alignment > 0 && TableIs(pe, offset, t) && EntriesAre(pe, offset, entries)
    ensures |entries| <= |t| && entries == t[..|entries|]
  {
    forall i | 0 <= i < |entries| ensures AddressAt(pe, EntryPos(pe, offset, i)) != Some(0) {
      assert EntryIs(pe, EntryPos(pe, offset, i), entries[i]);
    }
    EntriesAgree(pe, offset, entries, t);
  }

  /** A table has only one decoding. */
  lemma TableIsUnique(pe: Image, offset: nat, a: seq<Import>, b: seq<Import>)
    requires pe.alignment > 0 && TableIs(pe, offset, a) && TableIs(pe, offset, b)
    ensures a == b
  {
    EntriesEndWithTable(pe, offset, a, b);
    EntriesEndWithTable(pe, offset, b, a);
  }

  /** A table the parser accepts: decodable, without repetition, and not too long. */
  ghost predicate Acceptable(pe: Image, offset: nat, entries: seq<Import>)
    requires pe.alignment > 0
  {
    TableIs(pe, offset, entries) && Distinct(entries) && |entries| <= MAX_IMPORTS
  }

  /** What an acceptable table must look like after the entries `done`. */
  lemma AcceptableContinues(pe: Image, offset: nat, done: seq<Import>, t: seq<Import>)
    requires pe.alignment > 0 && EntriesAre(pe, offset, done) && Acceptable(pe, offset, t)
    requires AddressAt(pe, EntryPos(pe, offset, |done|)) != Some(0)
    ensures |done| < |t| && t[|done|] !in done && EntryIs(pe, EntryPos(pe, offset, |done|), t[|done|])
  {
    EntriesEndWithTable(pe, offset, t, done);
  }

  /** The parser's state after it has read `done` from the table. */
  ghost predicate Reading(pe: Image, offset: nat, pos: nat, done: seq<Import>)
    requires pe.alignment > 0
  {
    && pos == EntryPos(pe, offset, |done|)
    && EntriesAre(pe, offset, done) && Distinct(done) && |done| <= MAX_IMPORTS
  }

  lemma ReadingStep(pe: Image, offset: nat, pos: nat, done: seq<Import>, i: Import)
    requires pe.alignment > 0 && Reading(pe, offset, pos, done) && |done| < MAX_IMPORTS
    requires EntryIs(pe, pos, i) && i !in done
    ensures Reading(pe, offset, pos + EntrySize(pe), done + [i])
  {
  }

  /** _parse_import_lookup_table.  It succeeds exactly on acceptable tables, and then the library
      holds the table's decoding.  In every case what was added is distinct, bounded, and the
      decoding of the first entries of the table. */
  method ParseImportLookupTable(pe: Image, f: File, offset: U32, library: ImportedLibrary) returns (ok: bool)
    requires pe.alignment > 0 && f.bytes == pe.bytes && library.imports == []
    modifies f, library
    ensures ok <==> offset != 0 && exists t :: Acceptable(pe, offset, t)
    ensures ok ==> TableIs(pe, offset, library.imports) && f.pos == EntryPos(pe, offset, |library.imports| + 1)
    ensures Distinct(library.imports) && |library.imports| <= MAX_IMPORTS
    ensures EntriesAre(pe, offset, library.imports)
  {
    if offset == 0 {
      return false;
    }
    f.Seek(offset);
    while true
      invariant Reading(pe, offset, f.pos, library.imports)
      decreases MAX_IMPORTS - |library.imports|
    {
      ghost var done, pos := library.imports, f.pos;
      var data := f.Read(EntrySize(pe));
      if |data| != EntrySize(pe) {
        NotAcceptable(pe, offset, done);
        return false;
      }
      var address := if pe.x64 then LE64(data) else LE32(data);
      assert AddressAt(pe, pos) == Some(address);
      if address == 0 {
        assert Acceptable(pe, offset, done);
        return true;
      }
      var found := ParseHintNameTable(pe, f, address);
      if found.None? || |library.imports| > 10000 || found.value in library.imports {
        NotAcceptable(pe, offset, done);
        return false;
      }
      ReadingStep(pe, offset, pos, done, found.value);
      library.imports := library.imports + [found.value];
    }
  }

  /** Where the parser stops without a zero entry, no table is acceptable. */
  lemma NotAcceptable(pe: Image, offset: nat, done: seq<Import>)
    requires pe.alignment > 0 && EntriesAre(pe, offset, done)
    requires
      var a := AddressAt(pe, EntryPos(pe, offset, |done|));
      || a.None?
      || (a.value != 0
          && var i := Resolve(pe, a.value);
             i.None? || i.value in done || |done| >= MAX_IMPORTS)
    ensures !exists t :: Acceptable(pe, offset, t)
  {
    forall t | Acceptable(pe, offset, t) ensures false {
      AcceptableContinues(pe, offset, done, t);
    }
  }

  //////////////////////////////////////////////////////////////////////////////
  // Stored tables are read back
  //////////////////////////////////////////////////////////////////////////////

  /** An import as it is meant: an ordinal; or the address, hint and name of a symbol, with whatever
      stands in the bits between the address and the high bit. */
  datatype Meant = Ordinal(ordinal: nat) | Symbol(ignored: nat, rva: nat, hint: U16, name: seq<Byte>)

  const HIGH_BIT_32: nat := 0x8000_0000
  const HIGH_BIT_64: nat := 0x8000_0000_0000_0000

  /** The entry's number: the high bit and the ordinal, or the address of the hint and the name. */
  function Number(x64: bool, m: Meant): nat {
    match m
    case Ordinal(n) => (if x64 then HIGH_BIT_64 else HIGH_BIT_32) + n
    case Symbol(ignored, rva, _, _) => 0x8000_0000 * ignored + rva
  }

  predicate Storable(x64: bool, m: Meant) {
    match m
    case Ordinal(n) => n < if x64 then HIGH_BIT_64 else HIGH_BIT_32
    case Symbol(ignored, rva, _, name) =>
      && rva < 0x8000_0000 && Number(x64, m) != 0 && 0 !in name
      && ignored < if x64 then 0x1_0000_0000 else 1
  }

  /** The entry stands at `p`, and the hint and the name where the address leads. */
  ghost predicate IsStored(pe: Image, p: nat, m: Meant)
    requires pe.alignment > 0
  {
    && Storable(pe.x64, m)
    && (if pe.x64 then ReadAt(pe.bytes, p, 8) == ToLE(Number(true, m), 8)
        else ReadAt(pe.bytes, p, 4) == ToLE(Number(false, m), 4))
    && (m.Symbol? ==>
          var place := RvaOffset(pe.sections, pe.alignment, m.rva);
          var text := ToLE(m.hint, 2) + m.name + [0];
          place != 0 && ReadAt(pe.bytes, place, |text|) == text)
  }

  /** The entries stand one after the other from `offset` on, and a zero entry after them. */
  ghost predicate TableStored(pe: Image, offset: nat, table: seq<Meant>)
    requires pe.alignment > 0
  {
    && (forall i :: 0 <= i < |table| ==> IsStored(pe, EntryPos(pe, offset, i), table[i]))
    && (if pe.x64 then ReadAt(pe.bytes, EntryPos(pe, offset, |table|), 8) == ToLE(0, 8)
        else ReadAt(pe.bytes, EntryPos(pe, offset, |table|), 4) == ToLE(0, 4))
  }

  /** What is to be read: no hint and no name for an ordinal. */
  function Wanted(x64: bool, m: Meant): Import
    requires Storable(x64, m)
  {
    NumberFits(x64, m);
    match m
    case Ordinal(_) => Import(Number(x64, m), 0, [])
    case Symbol(_, _, hint, name) => Import(Number(x64, m), hint, name)
  }

  lemma NumberFits(x64: bool, m: Meant)
    requires Storable(x64, m)
    ensures 0 < Number(x64, m) < if x64 then 0x1_0000_0000_0000_0000 else 0x1_0000_0000
    ensures m.Ordinal? <==> Number(x64, m) >= if x64 then 0x8000_0000_0000_0000 else 0x8000_0000
    ensures m.Symbol? ==> Number(x64, m) % 0x8000_0000 == m.rva && Number(x64, m) / 0x8000_0000 == m.ignored
  {
  }

  lemma {:induction false} AsciiReadBack(bytes: seq<Byte>, p: nat, name: seq<Byte>)
    requires 0 !in name && ReadAt(bytes, p, |name| + 1) == name + [0]
    ensures AsciiAt(bytes, p) == name
    decreases |name|
  {
    var all := name + [0];
    assert bytes[p] == all[0];
    if name != [] {
      assert ReadAt(bytes, p + 1, |name|) == name[1..] + [0] by {
        assert bytes[p + 1..p + 1 + |name|] == all[1..] && all[1..] == name[1..] + [0];
      }
      AsciiReadBack(bytes, p + 1, name[1..]);
    }
  }

  lemma HintNameReadBack(bytes: seq<Byte>, p: nat, hint: U16, name: seq<Byte>)
    requires 0 !in name && ReadAt(bytes, p, |name| + 3) == ToLE(hint, 2) + name + [0]
    ensures p + 2 <= |bytes| && LE16(bytes[p..p + 2]) == hint && AsciiAt(bytes, p + 2) == name
  {
    var text := ToLE(hint, 2) + name + [0];
    assert bytes[p..p + 2] == text[..2] && text[..2] == ToLE(hint, 2);
    LE16Inverse(hint);
    assert bytes[p + 2..p + 2 + |name| + 1] == text[2..] && text[2..] == name + [0];
    AsciiReadBack(bytes, p + 2, name);
  }

  lemma NumberReadBack(pe: Image, p: nat, n: nat)
    requires n < if pe.x64 then 0x1_0000_0000_0000_0000 else 0x1_0000_0000
    requires if pe.x64 then ReadAt(pe.bytes, p, 8) == ToLE(n, 8) else ReadAt(pe.bytes, p, 4) == ToLE(n, 4)
    ensures AddressAt(pe, p) == Some(n)
  {
    if pe.x64 {
      LE64Inverse(n);
    } else {
      LE32Inverse(n);
    }
  }

  lemma OrdinalResolves(pe: Image, address: U64)
    requires pe.alignment > 0 && address >= if pe.x64 then 0x8000_0000_0000_0000 else 0x8000_0000
    ensures Resolve(pe, address) == Some(Import(address, 0, []))
  {
  }

  lemma SymbolResolves(pe: Image, address: U64, place: U32, hint: U16, name: seq<Byte>)
    requires pe.alignment > 0 && address < if pe.x64 then 0x8000_0000_0000_0000 else 0x8000_0000
    requires place == RvaOffset(pe.sections, pe.alignment, address % 0x8000_0000) && place != 0
    requires place + 2 <= |pe.bytes| && LE16(pe.bytes[place..place + 2]) == hint && AsciiAt(pe.bytes, place + 2) == name
    ensures Resolve(pe, address) == Some(Import(address, hint, name))
  {
  }

  lemma EntryReadBack(pe: Image, p: nat, m: Meant)
    requires pe.alignment > 0 && IsStored(pe, p, m)
    ensures EntryIs(pe, p, Wanted(pe.x64, m))
  {
    var n := Number(pe.x64, m);
    NumberFits(pe.x64, m);
    NumberReadBack(pe, p, n);
    if m.Symbol? {
      var place := RvaOffset(pe.sections, pe.alignment, m.rva);
      HintNameReadBack(pe.bytes, place, m.hint, m.name);
      SymbolResolves(pe, n, place, m.hint, m.name);
    } else {
      OrdinalResolves(pe, n);
    }
  }

  /** Different imports are read as different ones. */
  lemma WantedInjective(x64: bool, a: Meant, b: Meant)
    requires Storable(x64, a) && Storable(x64, b) && Wanted(x64, a) == Wanted(x64, b)
    ensures a == b
  {
    NumberFits(x64, a);
    NumberFits(x64, b);
  }

  ghost predicate AllStorable(x64: bool, table: seq<Meant>) {
    forall i :: 0 <= i < |table| ==> Storable(x64, table[i])
  }

  /** What is to be read of a whole table. */
  ghost function WantedTable(x64: bool, table: seq<Meant>): (imports: seq<Import>)
    requires AllStorable(x64, table)
    ensures |imports| == |table| && forall i :: 0 <= i < |table| ==> imports[i] == Wanted(x64, table[i])
  {
    seq(|table|, i requires 0 <= i < |table| => Wanted(x64, table[i]))
  }

  lemma WantedDistinct(x64: bool, table: seq<Meant>)
    requires AllStorable(x64, table) && Distinct(table)
    ensures Distinct(WantedTable(x64, table))
  {
    var imports := WantedTable(x64, table);
    forall i, j | 0 <= i < j < |table| ensures imports[i] != imports[j] {
      if imports[i] == imports[j] {
        WantedInjective(x64, table[i], table[j]);
      }
    }
  }

  lemma StoredTableDecodes(pe: Image, offset: nat, table: seq<Meant>)
    requires pe.alignment > 0 && TableStored(pe, offset, table)
    ensures AllStorable(pe.x64, table) && TableIs(pe, offset, WantedTable(pe.x64, table))
  {
    forall i | 0 <= i < |table| ensures Storable(pe.x64, table[i]) {
      assert IsStored(pe, EntryPos(pe, offset, i), table[i]);
    }
    var imports := WantedTable(pe.x64, table);
    forall i | 0 <= i < |table| ensures EntryIs(pe, EntryPos(pe, offset, i), imports[i]) {
      EntryReadBack(pe, EntryPos(pe, offset, i), table[i]);
    }
    NumberReadBack(pe, EntryPos(pe, offset, |table|), 0);
  }

  /** A stored table is read exactly when it repeats nothing, has at most 10001 entries and is not at
      offset 0; then every import comes back with its number, hint and name, in order. */
  method ReadStoredTable(pe: Image, f: File, offset: U32, library: ImportedLibrary, ghost table: seq<Meant>) returns (ok: bool)
    requires pe.alignment > 0 && f.bytes == pe.bytes && library.imports == []
    requires TableStored(pe, offset, table)
    modifies f, library
    ensures ok <==> offset != 0 && Distinct(table) && |table| <= 10001
    ensures ok ==> AllStorable(pe.x64, table) && library.imports == WantedTable(pe.x64, table)
  {
    StoredTableDecodes(pe, offset, table);
    ghost var imports := WantedTable(pe.x64, table);
    if Distinct(table) {
      WantedDistinct(pe.x64, table);
    }
    if Distinct(table) && |table| <= 10001 {
      assert Acceptable(pe, offset, imports);
    }
    ok := ParseImportLookupTable(pe, f, offset, library);
    if ok {
      TableIsUnique(pe, offset, imports, library.imports);
      DistinctMeant(pe.x64, table);
    }
  }

  lemma DistinctMeant(x64: bool, table: seq<Meant>)
    requires AllStorable(x64, table) && Distinct(WantedTable(x64, table))
    ensures Distinct(table)
  {
    var imports := WantedTable(x64, table);
    assert forall i :: 0 <= i < |table| ==> imports[i] == Wanted(x64, table[i]);
  }
}
