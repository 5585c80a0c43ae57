/**
 From relative virtual addresses to file offsets, through the section table.
 */
module SectionMap {
  import opened Options
  import opened Bytes

  datatype Section = Section(virtualAddress: U32, virtualSize: U32, rawSize: U32, rawPointer: U32)

  /** is_address_in_section; the end of the section is computed modulo 2^32. */
  predicate InSection(rva: U64, s: Section, checkRawSize: bool) {
    var size := if checkRawSize then s.rawSize else s.virtualSize;
    s.virtualAddress <= rva < (s.virtualAddress + size) % 0x1_0000_0000
  }

  /** The first section that contains the address, by virtual or by raw size. */
  function First(sections: seq<Section>, rva: U64, checkRawSize: bool): (r: Option<Section>)
    ensures r.None? <==> forall s <- sections :: !InSection(rva, s, checkRawSize)
    ensures r.Some? ==> r.value in sections && InSection(rva, r.value, checkRawSize)
  {
    if sections == [] then None
    else if InSection(rva, sections[0], checkRawSize) then Some(sections[0])
    else
      assert forall s <- sections :: s == sections[0] || s in sections[1..];
      First(sections[1..], rva, checkRawSize)
  }

  /** The section of an address: the first by virtual size, else the first by raw size. */
  function Pick(sections: seq<Section>, rva: U64): Option<Section> {
    var r := First(sections, rva, false);
    if r.Some? then r else First(sections, rva, true)
  }

  method FirstSection(sections: seq<Section>, rva: U64, checkRawSize: bool) returns (r: Option<Section>)
    ensures r == First(sections, rva, checkRawSize)
  {
    assert sections[0..] == sections;
    for i := 0 to |sections|
      invariant First(sections, rva, checkRawSize) == First(sections[i..], rva, checkRawSize)
    {
      assert sections[i..][0] == sections[i] && sections[i..][1..] == sections[i + 1..];
      if InSection(rva, sections[i], checkRawSize) {
        return Some(sections[i]);
      }
    }
    return None;
  }

  /** find_section */
  method FindSection(rva: U32, sections: seq<Section>) returns (r: Option<Section>)
    ensures r == Pick(sections, rva)
    ensures forall i: nat :: FoundAt(sections, rva, i) ==> r == Some(sections[i])
    ensures NowhereBySize(sections, rva, VirtualSize) && NowhereBySize(sections, rva, RawSize) ==> r == None
  {
    PickIsFound(sections, rva);
    r := FirstSection(sections, rva, false);
    if r.None? {
      r := FirstSection(sections, rva, true);
    }
  }

  function AlignDown(p: U32, alignment: U32): (q: U32)
    requires alignment > 0
    ensures q <= p < q + alignment
  {
    DivMul(p, alignment);
    p / alignment * alignment
  }

  lemma DivMul(p: nat, a: nat)
    requires a > 0
    ensures p / a * a == p - p % a
  {
  }

  /** Where an address of the section lies in the file. */
  function OffsetIn(s: Section, alignment: U32, rva: U64): U32
    requires alignment > 0
  {
    (rva - s.virtualAddress + AlignDown(s.rawPointer, alignment)) % 0x1_0000_0000
  }

  /** The file offset of an address; 0 when no section has it. */
  function RvaOffset(sections: seq<Section>, alignment: U32, rva: U64): U32
    requires alignment > 0
  {
    if sections == [] then rva % 0x1_0000_0000
    else match Pick(sections, rva)
      case None => 0
      case Some(s) => OffsetIn(s, alignment, rva)
  }

  /** A 32-bit number read as a signed one. */
  function AsInt(x: U32): int {
    if x >= 0x8000_0000 then x - 0x1_0000_0000 else x
  }

  /** rva_to_offset, with the 64-bit and signed arithmetic of the original. */
  method RvaToOffset(sections: seq<Section>, alignment: U32, rva: U64) returns (offset: U32)
    requires alignment > 0
    ensures offset == RvaOffset(sections, alignment, rva)
  {
    if sections == [] {
      return rva % 0x1_0000_0000;
    }
    var section := FirstSection(sections, rva, false);
    if section.None? {
      section := FirstSection(sections, rva, true);
      if section.None? {
        return 0;
      }
    }
    offset := Place(section.value, alignment, rva);
  }

  /** The last steps of rva_to_offset, in a given section. */
  method Place(s: Section, alignment: U32, rva: U64) returns (offset: U32)
    requires alignment > 0
    ensures offset == OffsetIn(s, alignment, rva)
  {
    var distance := rva - s.virtualAddress;
    if s.rawPointer % alignment != 0 {
      var aligned := AlignDown(s.rawPointer, alignment);
      SignDoesNotMatter(distance, aligned);
      return ((distance + AsInt(aligned)) % 0x1_0000_0000_0000_0000) % 0x1_0000_0000;
    }
    AlignedStays(s.rawPointer, alignment);
    Narrow(distance + s.rawPointer);
    return ((distance + s.rawPointer) % 0x1_0000_0000_0000_0000) % 0x1_0000_0000;
  }

  lemma SignDoesNotMatter(distance: int, p: U32)
    ensures ((distance + AsInt(p)) % 0x1_0000_0000_0000_0000) % 0x1_0000_0000 == (distance + p) % 0x1_0000_0000
  {
    Narrow(distance + AsInt(p));
    Narrow(distance + p);
  }

  lemma AlignedStays(p: U32, alignment: U32)
    requires alignment > 0 && p % alignment == 0
    ensures AlignDown(p, alignment) == p
  {
    DivMul(p, alignment);
  }

  lemma Mod32Is(x: int, k: int, m: int)
    requires x == k * 0x1_0000_0000 + m && 0 <= m < 0x1_0000_0000
    ensures x % 0x1_0000_0000 == m
  {
  }

  /** Wrapping at 64 bits, or subtracting 2^32, is invisible after wrapping at 32 bits. */
  lemma Narrow(x: int)
    ensures (x % 0x1_0000_0000_0000_0000) % 0x1_0000_0000 == x % 0x1_0000_0000
    ensures (x - 0x1_0000_0000) % 0x1_0000_0000 == x % 0x1_0000_0000
  {
    var r := x % 0x1_0000_0000_0000_0000;
    var k, m := r / 0x1_0000_0000, r % 0x1_0000_0000;
    Mod32Is(x, x / 0x1_0000_0000_0000_0000 * 0x1_0000_0000 + k, m);
    Mod32Is(x - 0x1_0000_0000, x / 0x1_0000_0000 - 1, x % 0x1_0000_0000);
  }

  //////////////////////////////////////////////////////////////////////////////
  // The section of an address, in plain inequalities
  //////////////////////////////////////////////////////////////////////////////

  function VirtualSize(s: Section): U32 { s.virtualSize }
  function RawSize(s: Section): U32 { s.rawSize }

  /** The section reaches from its address to just before the address plus `size`, a 32-bit sum. */
  predicate Reaches(s: Section, size: U32, rva: U64) {
    s.virtualAddress <= rva < (s.virtualAddress + size) % 0x1_0000_0000
  }

  /** Section `i` is the first to reach the address with a size of its own. */
  ghost predicate FirstBySize(sections: seq<Section>, rva: U64, size: Section -> U32, i: nat) {
    && i < |sections| && Reaches(sections[i], size(sections[i]), rva)
    && forall j :: 0 <= j < i ==> !Reaches(sections[j], size(sections[j]), rva)
  }

  ghost predicate NowhereBySize(sections: seq<Section>, rva: U64, size: Section -> U32) {
    forall s <- sections :: !Reaches(s, size(s), rva)
  }

  /** Virtual sizes decide; raw sizes do when no section has the address by virtual size. */
  ghost predicate FoundAt(sections: seq<Section>, rva: U64, i: nat) {
    || FirstBySize(sections, rva, VirtualSize, i)
    || (NowhereBySize(sections, rva, VirtualSize) && FirstBySize(sections, rva, RawSize, i))
  }

  /** The section that has the address moves it by the distance between its virtual address and its
      aligned raw pointer; without one the offset is 0, and without sections it is the address. */
  ghost predicate TranslatesTo(sections: seq<Section>, alignment: U32, rva: U64, offset: U32)
    requires alignment > 0
  {
    && (sections == [] ==> offset == rva % 0x1_0000_0000)
    && (sections != [] && NowhereBySize(sections, rva, VirtualSize) && NowhereBySize(sections, rva, RawSize) ==> offset == 0)
    && forall i: nat :: FoundAt(sections, rva, i) ==> offset == MovedBy(sections[i], alignment, rva)
  }

  /** Where the section puts the address. */
  function MovedBy(s: Section, alignment: U32, rva: U64): U32
    requires alignment > 0
  {
    (rva - s.virtualAddress + (s.rawPointer - s.rawPointer % alignment)) % 0x1_0000_0000
  }

  lemma MovedByIsOffset(s: Section, alignment: U32, rva: U64)
    requires alignment > 0
    ensures MovedBy(s, alignment, rva) == OffsetIn(s, alignment, rva)
  {
    DivMul(s.rawPointer, alignment);
  }

  lemma {:induction false} FirstIsFirst(sections: seq<Section>, rva: U64, checkRawSize: bool, i: nat)
    requires FirstBySize(sections, rva, if checkRawSize then RawSize else VirtualSize, i)
    ensures First(sections, rva, checkRawSize) == Some(sections[i])
    decreases |sections|
  {
    if i > 0 {
      assert !InSection(rva, sections[0], checkRawSize);
      FirstIsFirst(sections[1..], rva, checkRawSize, i - 1);
    }
  }

  lemma NoneIsNowhere(sections: seq<Section>, rva: U64, checkRawSize: bool)
    requires NowhereBySize(sections, rva, if checkRawSize then RawSize else VirtualSize)
    ensures First(sections, rva, checkRawSize) == None
  {
  }

  lemma PickAt(sections: seq<Section>, rva: U64, i: nat)
    requires FoundAt(sections, rva, i)
    ensures Pick(sections, rva) == Some(sections[i])
  {
    if FirstBySize(sections, rva, VirtualSize, i) {
      FirstIsFirst(sections, rva, false, i);
    } else {
      NoneIsNowhere(sections, rva, false);
      FirstIsFirst(sections, rva, true, i);
    }
  }

  lemma PickIsFound(sections: seq<Section>, rva: U64)
    ensures forall i: nat :: FoundAt(sections, rva, i) ==> Pick(sections, rva) == Some(sections[i])
    ensures NowhereBySize(sections, rva, VirtualSize) && NowhereBySize(sections, rva, RawSize) ==> Pick(sections, rva) == None
  {
    forall i: nat | FoundAt(sections, rva, i) ensures Pick(sections, rva) == Some(sections[i]) {
      PickAt(sections, rva, i);
    }
    if NowhereBySize(sections, rva, VirtualSize) && NowhereBySize(sections, rva, RawSize) {
      NoneIsNowhere(sections, rva, false);
      NoneIsNowhere(sections, rva, true);
    }
  }

  lemma TranslationIsFound(sections: seq<Section>, alignment: U32, rva: U64)
    requires alignment > 0
    ensures TranslatesTo(sections, alignment, rva, RvaOffset(sections, alignment, rva))
  {
    PickIsFound(sections, rva);
    forall i: nat | FoundAt(sections, rva, i)
      ensures RvaOffset(sections, alignment, rva) == MovedBy(sections[i], alignment, rva)
    {
      MovedByIsOffset(sections[i], alignment, rva);
    }
  }

  /** Every address is translated in one of these ways, and to one offset only. */
  lemma TranslationExactly(sections: seq<Section>, alignment: U32, rva: U64, offset: U32)
    requires alignment > 0
    ensures TranslatesTo(sections, alignment, rva, offset) <==> offset == RvaOffset(sections, alignment, rva)
  {
    TranslationIsFound(sections, alignment, rva);
    if sections != [] && !NowhereBySize(sections, rva, VirtualSize) {
      var i := SomeIsFirst(sections, rva, VirtualSize);
      assert FoundAt(sections, rva, i);
    } else if sections != [] && !NowhereBySize(sections, rva, RawSize) {
      var i := SomeIsFirst(sections, rva, RawSize);
      assert FoundAt(sections, rva, i);
    }
  }

  lemma {:induction false} SomeIsFirst(sections: seq<Section>, rva: U64, size: Section -> U32) returns (i: nat)
    requires !NowhereBySize(sections, rva, size)
    ensures FirstBySize(sections, rva, size, i)
    decreases |sections|
  {
    if Reaches(sections[0], size(sections[0]), rva) {
      i := 0;
    } else {
      assert forall x <- sections :: x == sections[0] || x in sections[1..];
      var k := SomeIsFirst(sections[1..], rva, size);
      i := k + 1;
    }
  }

  //////////////////////////////////////////////////////////////////////////////
  // Well-formed section tables
  //////////////////////////////////////////////////////////////////////////////

  /** The address lies in the section's virtual range. */
  predicate Covers(s: Section, rva: U32) {
    InSection(rva, s, false)
  }

  ghost predicate Covered(sections: seq<Section>, rva: U32) {
    exists s <- sections :: Covers(s, rva)
  }

  predicate NonWrapping(s: Section) {
    s.virtualAddress + s.virtualSize < 0x1_0000_0000
  }

  /** No virtual range wraps around, and no two of them meet. */
  ghost predicate DisjointRanges(sections: seq<Section>) {
    && (forall s <- sections :: NonWrapping(s))
    && forall i, j, rva: U32 :: 0 <= i < j < |sections| ==> !(Covers(sections[i], rva) && Covers(sections[j], rva))
  }

  /** With disjoint ranges, an address is translated by the one section that covers it. */
  lemma CoveringSectionTranslates(sections: seq<Section>, alignment: U32, rva: U32, s: Section)
    requires alignment > 0 && DisjointRanges(sections) && s in sections && Covers(s, rva)
    ensures RvaOffset(sections, alignment, rva) == OffsetIn(s, alignment, rva)
  {
    var p := First(sections, rva, false);
    assert p.Some?;
    var i :| 0 <= i < |sections| && sections[i] == s;
    var j :| 0 <= j < |sections| && sections[j] == p.value;
    assert Covers(sections[i], rva) && Covers(sections[j], rva);
  }

  /** The order of the section table does not matter for covered addresses. */
  lemma OrderDoesNotMatter(a: seq<Section>, b: seq<Section>, alignment: U32, rva: U32)
    requires alignment > 0 && DisjointRanges(a) && DisjointRanges(b) && multiset(a) == multiset(b)
    requires Covered(a, rva)
    ensures RvaOffset(a, alignment, rva) == RvaOffset(b, alignment, rva)
  {
    var s :| s in a && Covers(s, rva);
    assert s in multiset(b);
    CoveringSectionTranslates(a, alignment, rva, s);
    CoveringSectionTranslates(b, alignment, rva, s);
  }

  /** The offset lies in the part of the file that the section's virtual range is mapped from, which
      may run past 2^32 and go on at 0. */
  predicate InWindow(s: Section, alignment: U32, offset: U32)
    requires alignment > 0
  {
    (offset - AlignDown(s.rawPointer, alignment)) % 0x1_0000_0000 < s.virtualSize
  }

  ghost predicate DisjointWindows(sections: seq<Section>, alignment: U32)
    requires alignment > 0
  {
    forall i, j, offset: U32 :: 0 <= i < j < |sections|
      ==> !(InWindow(sections[i], alignment, offset) && InWindow(sections[j], alignment, offset))
  }

  /** Covered addresses have different offsets. */
  ghost predicate Injective(sections: seq<Section>, alignment: U32)
    requires alignment > 0
  {
    forall x: U32, y: U32 ::
      (Covered(sections, x) && Covered(sections, y)
       && RvaOffset(sections, alignment, x) == RvaOffset(sections, alignment, y)) ==> x == y
  }

  /** Moving around a circle of 2^32 places, and back. */
  lemma Around(d: nat, start: nat)
    requires d < 0x1_0000_0000
    ensures ((d + start) % 0x1_0000_0000 - start) % 0x1_0000_0000 == d
  {
    var q := (d + start) / 0x1_0000_0000;
    Mod32Is((d + start) % 0x1_0000_0000 - start, -q, d);
  }

  lemma AroundBack(offset: U32, start: nat)
    ensures ((offset - start) % 0x1_0000_0000 + start) % 0x1_0000_0000 == offset
  {
    var q := (offset - start) / 0x1_0000_0000;
    Mod32Is((offset - start) % 0x1_0000_0000 + start, -q, offset);
  }

  /** A covered address is translated into the window, from where it can be told. */
  lemma OffsetInWindow(s: Section, alignment: U32, rva: U32)
    requires alignment > 0 && NonWrapping(s) && Covers(s, rva)
    ensures InWindow(s, alignment, OffsetIn(s, alignment, rva))
    ensures rva == s.virtualAddress + (OffsetIn(s, alignment, rva) - AlignDown(s.rawPointer, alignment)) % 0x1_0000_0000
  {
    Around(rva - s.virtualAddress, AlignDown(s.rawPointer, alignment));
  }

  /** Every offset in the window comes from a covered address. */
  lemma WindowIsReached(s: Section, alignment: U32, offset: U32) returns (rva: U32)
    requires alignment > 0 && NonWrapping(s) && InWindow(s, alignment, offset)
    ensures Covers(s, rva) && OffsetIn(s, alignment, rva) == offset
  {
    var start := AlignDown(s.rawPointer, alignment);
    AroundBack(offset, start);
    rva := s.virtualAddress + (offset - start) % 0x1_0000_0000;
  }

  lemma SameOffset(sections: seq<Section>, alignment: U32, i: nat, j: nat, x: U32, y: U32)
    requires alignment > 0 && DisjointRanges(sections) && DisjointWindows(sections, alignment)
    requires i < |sections| && Covers(sections[i], x) && j < |sections| && Covers(sections[j], y)
    requires OffsetIn(sections[i], alignment, x) == OffsetIn(sections[j], alignment, y)
    ensures x == y
  {
    var offset := OffsetIn(sections[i], alignment, x);
    OffsetInWindow(sections[i], alignment, x);
    OffsetInWindow(sections[j], alignment, y);
    assert InWindow(sections[i], alignment, offset) && InWindow(sections[j], alignment, offset);
    assert i == j;
  }

  lemma WindowsImplyInjective(sections: seq<Section>, alignment: U32)
    requires alignment > 0 && DisjointRanges(sections) && DisjointWindows(sections, alignment)
    ensures Injective(sections, alignment)
  {
    forall x: U32, y: U32 | Covered(sections, x) && Covered(sections, y)
                            && RvaOffset(sections, alignment, x) == RvaOffset(sections, alignment, y)
      ensures x == y
    {
      var i :| 0 <= i < |sections| && Covers(sections[i], x);
      var j :| 0 <= j < |sections| && Covers(sections[j], y);
      CoveringSectionTranslates(sections, alignment, x, sections[i]);
      CoveringSectionTranslates(sections, alignment, y, sections[j]);
      SameOffset(sections, alignment, i, j, x, y);
    }
  }

  lemma InjectiveImpliesWindows(sections: seq<Section>, alignment: U32)
    requires alignment > 0 && DisjointRanges(sections) && Injective(sections, alignment)
    ensures DisjointWindows(sections, alignment)
  {
    forall i, j, offset: U32 | 0 <= i < j < |sections|
      ensures !(InWindow(sections[i], alignment, offset) && InWindow(sections[j], alignment, offset))
    {
      if InWindow(sections[i], alignment, offset) && InWindow(sections[j], alignment, offset) {
        var x := WindowIsReached(sections[i], alignment, offset);
        var y := WindowIsReached(sections[j], alignment, offset);
        CoveringSectionTranslates(sections, alignment, x, sections[i]);
        CoveringSectionTranslates(sections, alignment, y, sections[j]);
      }
    }
  }

  /** Translation is injective on covered addresses exactly when no two windows meet. */
  lemma InjectiveExactly(sections: seq<Section>, alignment: U32)
    requires alignment > 0 && DisjointRanges(sections)
    ensures Injective(sections, alignment) <==> DisjointWindows(sections, alignment)
  {
    if DisjointWindows(sections, alignment) {
      WindowsImplyInjective(sections, alignment);
    } else if Injective(sections, alignment) {
      InjectiveImpliesWindows(sections, alignment);
    }
  }
}
