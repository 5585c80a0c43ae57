/**
 Flattening the resource tree: three nested loops that visit its leaves and record each one
 unless the table already has a resource with the same offset and size.
 */
module ResourceTable {
  import opened Options
  import opened Bytes
  import opened PeFile
  import opened SectionMap
  import opened PeImage
  import opened ResourceTree

  datatype Label = Named(name: seq<Byte>) | Numbered(id: U32)

  datatype Leaf = Leaf(
    kind: Label, name: Label, language: Label,
    codepage: U32, size: U32, timeDateStamp: U32, offset: U32)

  function LabelOf(e: DirEntry): Label {
    if IsNamed(e) then Named(e.name) else Numbered(e.nameOrId)
  }

  //////////////////////////////////////////////////////////////////////////////
  // Walking
  //////////////////////////////////////////////////////////////////////////////

  /** A walk over a part of the tree: the accepted leaves in order, where the cursor ends up, and
      whether the walk went through to the end. */
  datatype Walk = Walk(ok: bool, pos: nat, leaves: seq<Leaf>)

  function After(leaves: seq<Leaf>, w: Walk): Walk {
    w.(leaves := leaves + w.leaves)
  }

  /** One step per entry, until one of them fails. */
  ghost function WalkAll(step: (DirEntry, nat) -> Walk, entries: seq<DirEntry>, pos: nat): Walk {
    if entries == [] then Walk(true, pos, [])
    else
      var w := step(entries[0], pos);
      if !w.ok then w else After(w.leaves, WalkAll(step, entries[1..], w.pos))
  }

  /** `i` entries are done; the walk goes on from `pos`. */
  ghost predicate Walking(step: (DirEntry, nat) -> Walk, entries: seq<DirEntry>, start: nat, i: nat, pos: nat, leaves: seq<Leaf>) {
    i <= |entries| && WalkAll(step, entries, start) == After(leaves, WalkAll(step, entries[i..], pos))
  }

  lemma WalkingStart(step: (DirEntry, nat) -> Walk, entries: seq<DirEntry>, start: nat)
    ensures Walking(step, entries, start, 0, start, [])
  {
    assert entries[0..] == entries;
    assert [] + WalkAll(step, entries, start).leaves == WalkAll(step, entries, start).leaves;
  }

  lemma WalkingStep(step: (DirEntry, nat) -> Walk, entries: seq<DirEntry>, start: nat, i: nat, pos: nat, leaves: seq<Leaf>)
    requires Walking(step, entries, start, i, pos, leaves) && i < |entries|
    ensures
      var w := step(entries[i], pos);
      if w.ok then Walking(step, entries, start, i + 1, w.pos, leaves + w.leaves)
      else WalkAll(step, entries, start) == After(leaves, w)
  {
    var w := step(entries[i], pos);
    assert entries[i..][0] == entries[i] && entries[i..][1..] == entries[i + 1..];
    if w.ok {
      var rest := WalkAll(step, entries[i + 1..], w.pos).leaves;
      assert leaves + (w.leaves + rest) == (leaves + w.leaves) + rest;
    }
  }

  lemma WalkingEnd(step: (DirEntry, nat) -> Walk, entries: seq<DirEntry>, start: nat, pos: nat, leaves: seq<Leaf>)
    requires Walking(step, entries, start, |entries|, pos, leaves)
    ensures WalkAll(step, entries, start) == Walk(true, pos, leaves)
  {
    assert entries[|entries|..] == [] && leaves + [] == leaves;
  }

  //////////////////////////////////////////////////////////////////////////////
  // The three levels
  //////////////////////////////////////////////////////////////////////////////

  /** Where the data entry of a leaf is; 0 if it cannot be located. */
  function DataEntryPos(pe: Image, va: U32, e: DirEntry): U32
    requires pe.alignment > 0
  {
    RvaOffset(pe.sections, pe.alignment, (va + Low31(e.offsetToData)) % 0x1_0000_0000)
  }

  /** Where the data is: an address outside all sections is taken for an offset. */
  function DataPos(pe: Image, rva: U32): U32
    requires pe.alignment > 0
  {
    var offset := RvaOffset(pe.sections, pe.alignment, rva);
    if offset == 0 then rva else offset
  }

  /** The type and the name above a leaf, and the time stamp of the directory it is in. */
  datatype Context = Context(kind: Label, name: Label, timeDateStamp: U32)

  function LeafOf(pe: Image, c: Context, e: DirEntry, data: seq<Byte>): Leaf
    requires pe.alignment > 0 && |data| == 16
  {
    Leaf(c.kind, c.name, LabelOf(e), LE32(data[8..12]), LE32(data[4..8]), c.timeDateStamp, DataPos(pe, LE32(data[0..4])))
  }

  /** Neither empty nor larger than the file. */
  predicate IsAccepted(pe: Image, leaf: Leaf) {
    1 <= leaf.size <= |pe.bytes|
  }

  function Accept(pe: Image, leaf: Leaf): seq<Leaf> {
    if IsAccepted(pe, leaf) then [leaf] else []
  }

  function LeafWalk(pe: Image, va: U32, c: Context, e: DirEntry): Walk
    requires pe.alignment > 0
  {
    var p := DataEntryPos(pe, va, e);
    var data := ReadAt(pe.bytes, p, 16);
    if p == 0 || |data| != 16 then Walk(false, 0, [])
    else Walk(true, p + 16, Accept(pe, LeafOf(pe, c, e, data)))
  }

  /** A stored data entry is read back as a leaf of its size and code page, at the place of its data. */
  lemma LeafReadBack(pe: Image, va: U32, c: Context, e: DirEntry, rva: U32, size: U32, codepage: U32, reserved: U32)
    requires pe.alignment > 0 && DataEntryPos(pe, va, e) != 0
    requires ReadAt(pe.bytes, DataEntryPos(pe, va, e), 16) == ToLE(rva, 4) + ToLE(size, 4) + ToLE(codepage, 4) + ToLE(reserved, 4)
    ensures
      var leaf := Leaf(c.kind, c.name, LabelOf(e), codepage, size, c.timeDateStamp, DataPos(pe, rva));
      LeafWalk(pe, va, c, e) == Walk(true, DataEntryPos(pe, va, e) + 16, if 1 <= size <= |pe.bytes| then [leaf] else [])
  {
    LE32Inverse(rva);
    LE32Inverse(size);
    LE32Inverse(codepage);
    FourWords(ToLE(rva, 4), ToLE(size, 4), ToLE(codepage, 4), ToLE(reserved, 4));
  }

  lemma FourWords(a: seq<Byte>, b: seq<Byte>, c: seq<Byte>, d: seq<Byte>)
    requires |a| == |b| == |c| == |d| == 4
    ensures
      var w := a + b + c + d;
      w[0..4] == a && w[4..8] == b && w[8..12] == c
  {
  }

  ghost function LanguageStep(pe: Image, va: U32, c: Context): (DirEntry, nat) -> Walk
    requires pe.alignment > 0
  {
    (e: DirEntry, pos: nat) => LeafWalk(pe, va, c, e)
  }

  ghost function NameWalk(pe: Image, va: U32, kind: Label, e: DirEntry, pos: nat): Walk
    requires pe.alignment > 0
  {
    var d := DirAt(pe, va, pos, Low31(e.offsetToData));
    if d.value.None? then Walk(true, d.pos, [])
    else WalkAll(LanguageStep(pe, va, Context(kind, LabelOf(e), d.value.value.timeDateStamp)), d.value.value.entries, d.pos)
  }

  ghost function NameStep(pe: Image, va: U32, kind: Label): (DirEntry, nat) -> Walk
    requires pe.alignment > 0
  {
    (e: DirEntry, pos: nat) => NameWalk(pe, va, kind, e, pos)
  }

  ghost function TypeWalk(pe: Image, va: U32, e: DirEntry, pos: nat): Walk
    requires pe.alignment > 0
  {
    var d := DirAt(pe, va, pos, Low31(e.offsetToData));
    if d.value.None? then Walk(true, d.pos, []) else WalkAll(NameStep(pe, va, LabelOf(e)), d.value.value.entries, d.pos)
  }

  ghost function TypeStep(pe: Image, va: U32): (DirEntry, nat) -> Walk
    requires pe.alignment > 0
  {
    (e: DirEntry, pos: nat) => TypeWalk(pe, va, e, pos)
  }

  /** The whole tree, whose root is at the cursor.  A bad root ends the walk; a bad directory below
      it is passed over; a leaf that cannot be read ends the walk. */
  ghost function TreeWalk(pe: Image, va: U32, pos: nat): Walk
    requires pe.alignment > 0
  {
    var root := DirAt(pe, va, pos, 0);
    if root.value.None? then Walk(false, root.pos, []) else WalkAll(TypeStep(pe, va), root.value.value.entries, root.pos)
  }

  //////////////////////////////////////////////////////////////////////////////
  // Duplicates
  //////////////////////////////////////////////////////////////////////////////

  predicate SamePlace(a: Leaf, b: Leaf) {
    a.offset == b.offset && a.size == b.size
  }

  predicate Has(table: seq<Leaf>, leaf: Leaf) {
    exists x <- table :: SamePlace(x, leaf)
  }

  /** Records a leaf unless its place is taken. */
  function Record(table: seq<Leaf>, leaf: Leaf): seq<Leaf> {
    if Has(table, leaf) then table else table + [leaf]
  }

  function RecordAll(table: seq<Leaf>, leaves: seq<Leaf>): seq<Leaf>
    decreases |leaves|
  {
    if leaves == [] then table else RecordAll(Record(table, leaves[0]), leaves[1..])
  }

  lemma {:induction false} RecordAllConcat(table: seq<Leaf>, a: seq<Leaf>, b: seq<Leaf>)
    ensures RecordAll(table, a + b) == RecordAll(RecordAll(table, a), b)
    decreases |a|
  {
    if a == [] {
      assert a + b == b;
    } else {
      RecordAllConcat(Record(table, a[0]), a[1..], b);
      assert (a + b)[0] == a[0] && (a + b)[1..] == a[1..] + b;
    }
  }

  /** The i-th visited leaf is the first at its place. */
  ghost predicate IsFirst(visited: seq<Leaf>, i: nat)
    requires i < |visited|
  {
    forall j :: 0 <= j < i ==> !SamePlace(visited[j], visited[i])
  }

  /** The leaves that are the first at their place, in order: an independent account. */
  ghost function Firsts(visited: seq<Leaf>, n: nat): seq<Leaf>
    requires n <= |visited|
  {
    if n == 0 then [] else Firsts(visited, n - 1) + if IsFirst(visited, n - 1) then [visited[n - 1]] else []
  }

  /** Places among the first leaves are exactly the places visited. */
  lemma {:induction false} FirstsCover(visited: seq<Leaf>, n: nat, leaf: Leaf)
    requires n <= |visited|
    ensures Has(Firsts(visited, n), leaf) <==> exists j :: 0 <= j < n && SamePlace(visited[j], leaf)
  {
    if n > 0 {
      FirstsCover(visited, n - 1, leaf);
      var before, last := Firsts(visited, n - 1), visited[n - 1];
      HasAppend(before, last, leaf);
      if !IsFirst(visited, n - 1) && SamePlace(last, leaf) {
        var j :| 0 <= j < n - 1 && SamePlace(visited[j], last);
        assert SamePlace(visited[j], leaf);
      }
    }
  }

  lemma HasAppend(table: seq<Leaf>, last: Leaf, leaf: Leaf)
    ensures Has(table + [last], leaf) <==> Has(table, leaf) || SamePlace(last, leaf)
  {
    var all := table + [last];
    assert all[|table|] == last;
    assert forall x <- all :: x in table || x == last;
    assert forall x <- table :: x in all;
  }

  /** Recording leaves one by one keeps the first of every place, in order of visit. */
  lemma {:induction false} RecordsFirsts(visited: seq<Leaf>, n: nat)
    requires n <= |visited|
    ensures RecordAll([], visited[..n]) == Firsts(visited, n)
  {
    if n > 0 {
      RecordsFirsts(visited, n - 1);
      var last := visited[n - 1];
      assert visited[..n] == visited[..n - 1] + [last];
      RecordAllConcat([], visited[..n - 1], [last]);
      RecordOne(Firsts(visited, n - 1), last);
      FirstsCover(visited, n - 1, last);
    }
  }

  lemma RecordOne(table: seq<Leaf>, leaf: Leaf)
    ensures RecordAll(table, [leaf]) == Record(table, leaf)
  {
    assert [leaf][1..] == [];
  }

  predicate PlacesDistinct(table: seq<Leaf>) {
    forall i, j :: 0 <= i < j < |table| ==> !SamePlace(table[i], table[j])
  }

  lemma {:induction false} RecordKeepsDistinct(table: seq<Leaf>, leaves: seq<Leaf>)
    requires PlacesDistinct(table)
    ensures PlacesDistinct(RecordAll(table, leaves))
    decreases |leaves|
  {
    if leaves != [] {
      RecordKeepsDistinct(Record(table, leaves[0]), leaves[1..]);
    }
  }

  //////////////////////////////////////////////////////////////////////////////
  // The parser
  //////////////////////////////////////////////////////////////////////////////

  class Table {
    var resources: seq<Leaf>

    constructor ()
      ensures resources == []
    {
      resources := [];
    }

    /** The search for a resource at the same place, and the addition. */
    method Add(leaf: Leaf)
      modifies this
      ensures resources == Record(old(resources), leaf)
    {
      for i := 0 to |resources|
        invariant forall j :: 0 <= j < i ==> !SamePlace(resources[j], leaf)
      {
        if SamePlace(resources[i], leaf) {
          return;
        }
      }
      resources := resources + [leaf];
    }

    /** The body of the innermost loop. */
    method ParseLeaf(pe: Image, f: File, va: U32, c: Context, e: DirEntry) returns (ok: bool)
      requires pe.alignment > 0 && f.bytes == pe.bytes
      modifies this, f
      ensures
        var w := LeafWalk(pe, va, c, e);
        ok == w.ok && resources == RecordAll(old(resources), w.leaves) && (ok ==> f.pos == w.pos)
    {
      var offset := RvaToOffset(pe.sections, pe.alignment, (va + Low31(e.offsetToData)) % 0x1_0000_0000);
      if offset == 0 {
        return false;
      }
      f.Seek(offset);
      var data := f.Read(16);
      if |data| != 16 {
        return false;
      }
      var size := LE32(data[4..8]);
      if size > |pe.bytes| {
        return true;
      }
      var rva := LE32(data[0..4]);
      var dataOffset := RvaToOffset(pe.sections, pe.alignment, rva);
      if dataOffset == 0 {
        dataOffset := rva;
      }
      if size == 0 {
        return true;
      }
      var leaf := Leaf(c.kind, c.name, LabelOf(e), LE32(data[8..12]), size, c.timeDateStamp, dataOffset);
      Add(leaf);
      RecordOne(old(resources), leaf);
      return true;
    }

    method ParseLanguages(pe: Image, f: File, va: U32, c: Context, entries: seq<DirEntry>) returns (ok: bool)
      requires pe.alignment > 0 && f.bytes == pe.bytes
      modifies this, f
      ensures
        var w := WalkAll(LanguageStep(pe, va, c), entries, old(f.pos));
        ok == w.ok && resources == RecordAll(old(resources), w.leaves) && (ok ==> f.pos == w.pos)
    {
      ghost var step, start, leaves := LanguageStep(pe, va, c), f.pos, [];
      WalkingStart(step, entries, start);
      for i := 0 to |entries|
        invariant Walking(step, entries, start, i, f.pos, leaves)
        invariant resources == RecordAll(old(resources), leaves)
      {
        ghost var w := LeafWalk(pe, va, c, entries[i]);
        assert step(entries[i], f.pos) == w;
        WalkingStep(step, entries, start, i, f.pos, leaves);
        RecordAllConcat(old(resources), leaves, w.leaves);
        ok := ParseLeaf(pe, f, va, c, entries[i]);
        if !ok {
          return;
        }
        leaves := leaves + w.leaves;
      }
      WalkingEnd(step, entries, start, f.pos, leaves);
      return true;
    }

    method ParseName(pe: Image, f: File, va: U32, kind: Label, e: DirEntry) returns (ok: bool)
      requires pe.alignment > 0 && f.bytes == pe.bytes
      modifies this, f
      ensures
        var w := NameWalk(pe, va, kind, e, old(f.pos));
        ok == w.ok && resources == RecordAll(old(resources), w.leaves) && (ok ==> f.pos == w.pos)
    {
      var name := ReadDir(pe, f, va, Low31(e.offsetToData));
      if name.None? {
        return true;
      }
      ok := ParseLanguages(pe, f, va, Context(kind, LabelOf(e), name.value.timeDateStamp), name.value.entries);
    }

    method ParseNames(pe: Image, f: File, va: U32, kind: Label, entries: seq<DirEntry>) returns (ok: bool)
      requires pe.alignment > 0 && f.bytes == pe.bytes
      modifies this, f
      ensures
        var w := WalkAll(NameStep(pe, va, kind), entries, old(f.pos));
        ok == w.ok && resources == RecordAll(old(resources), w.leaves) && (ok ==> f.pos == w.pos)
    {
      ghost var step, start, leaves := NameStep(pe, va, kind), f.pos, [];
      WalkingStart(step, entries, start);
      for i := 0 to |entries|
        invariant Walking(step, entries, start, i, f.pos, leaves)
        invariant resources == RecordAll(old(resources), leaves)
      {
        ghost var w := NameWalk(pe, va, kind, entries[i], f.pos);
        assert step(entries[i], f.pos) == w;
        WalkingStep(step, entries, start, i, f.pos, leaves);
        RecordAllConcat(old(resources), leaves, w.leaves);
        ok := ParseName(pe, f, va, kind, entries[i]);
        if !ok {
          return;
        }
        leaves := leaves + w.leaves;
      }
      WalkingEnd(step, entries, start, f.pos, leaves);
      return true;
    }

    method ParseType(pe: Image, f: File, va: U32, e: DirEntry) returns (ok: bool)
      requires pe.alignment > 0 && f.bytes == pe.bytes
      modifies this, f
      ensures
        var w := TypeWalk(pe, va, e, old(f.pos));
        ok == w.ok && resources == RecordAll(old(resources), w.leaves) && (ok ==> f.pos == w.pos)
    {
      var kind := ReadDir(pe, f, va, Low31(e.offsetToData));
      if kind.None? {
        return true;
      }
      ok := ParseNames(pe, f, va, LabelOf(e), kind.value.entries);
    }

    method ParseTypes(pe: Image, f: File, va: U32, entries: seq<DirEntry>) returns (ok: bool)
      requires pe.alignment > 0 && f.bytes == pe.bytes
      modifies this, f
      ensures
        var w := WalkAll(TypeStep(pe, va), entries, old(f.pos));
        ok == w.ok && resources == RecordAll(old(resources), w.leaves) && (ok ==> f.pos == w.pos)
    {
      ghost var step, start, leaves := TypeStep(pe, va), f.pos, [];
      WalkingStart(step, entries, start);
      for i := 0 to |entries|
        invariant Walking(step, entries, start, i, f.pos, leaves)
        invariant resources == RecordAll(old(resources), leaves)
      {
        ghost var w := TypeWalk(pe, va, entries[i], f.pos);
        assert step(entries[i], f.pos) == w;
        WalkingStep(step, entries, start, i, f.pos, leaves);
        RecordAllConcat(old(resources), leaves, w.leaves);
        ok := ParseType(pe, f, va, entries[i]);
        if !ok {
          return;
        }
        leaves := leaves + w.leaves;
      }
      WalkingEnd(step, entries, start, f.pos, leaves);
      return true;
    }

    /** _parse_resources.  Whether or not it goes through to the end, the table holds the first
        leaf of every place among the accepted leaves visited, in order of visit. */
    method ParseResources(pe: Image, f: File, directories: Option<seq<Directory>>) returns (ok: bool)
      requires pe.alignment > 0 && f.bytes == pe.bytes && resources == []
      requires directories.Some? ==> |directories.value| == 16
      modifies this, f
      ensures directories.None? ==> !ok && resources == []
      ensures directories.Some? && !Reachable(pe, directories.value[2]) ==> ok && resources == []
      ensures directories.Some? && Reachable(pe, directories.value[2]) ==>
        var va := directories.value[2].virtualAddress;
        var w := TreeWalk(pe, va, Base(pe, va));
        ok == w.ok && resources == Firsts(w.leaves, |w.leaves|)
      ensures PlacesDistinct(resources)
      ensures forall r <- resources :: 1 <= r.size <= |pe.bytes|
    {
      if directories.None? {
        return false;
      }
      var reached := ReachDirectory(pe, f, directories, RESOURCE);
      if !reached {
        return true;
      }
      var va := directories.value[RESOURCE].virtualAddress;
      TableIsSound(pe, va, f.pos);
      var root := ReadDir(pe, f, va, 0);
      if root.None? {
        return false;
      }
      ok := ParseTypes(pe, f, va, root.value.entries);
    }
  }

  //////////////////////////////////////////////////////////////////////////////
  // What every table satisfies
  //////////////////////////////////////////////////////////////////////////////

  ghost predicate AllAccepted(pe: Image, leaves: seq<Leaf>) {
    forall leaf <- leaves :: IsAccepted(pe, leaf)
  }

  /** If every step accepts only good leaves, so does the walk. */
  lemma {:induction false} WalkAccepts(pe: Image, step: (DirEntry, nat) -> Walk, entries: seq<DirEntry>, pos: nat)
    requires forall e, p :: AllAccepted(pe, step(e, p).leaves)
    ensures AllAccepted(pe, WalkAll(step, entries, pos).leaves)
    decreases |entries|
  {
    if entries != [] {
      WalkAccepts(pe, step, entries[1..], step(entries[0], pos).pos);
    }
  }

  lemma NameWalkAccepts(pe: Image, va: U32, kind: Label, e: DirEntry, pos: nat)
    requires pe.alignment > 0
    ensures AllAccepted(pe, NameWalk(pe, va, kind, e, pos).leaves)
  {
    var d := DirAt(pe, va, pos, Low31(e.offsetToData));
    if d.value.Some? {
      var c := Context(kind, LabelOf(e), d.value.value.timeDateStamp);
      WalkAccepts(pe, LanguageStep(pe, va, c), d.value.value.entries, d.pos);
    }
  }

  lemma TypeWalkAccepts(pe: Image, va: U32, e: DirEntry, pos: nat)
    requires pe.alignment > 0
    ensures AllAccepted(pe, TypeWalk(pe, va, e, pos).leaves)
  {
    var d := DirAt(pe, va, pos, Low31(e.offsetToData));
    if d.value.Some? {
      var step := NameStep(pe, va, LabelOf(e));
      forall x, p ensures AllAccepted(pe, step(x, p).leaves) {
        NameWalkAccepts(pe, va, LabelOf(e), x, p);
      }
      WalkAccepts(pe, step, d.value.value.entries, d.pos);
    }
  }

  lemma TreeWalkAccepts(pe: Image, va: U32, pos: nat)
    requires pe.alignment > 0
    ensures AllAccepted(pe, TreeWalk(pe, va, pos).leaves)
  {
    var d := DirAt(pe, va, pos, 0);
    if d.value.Some? {
      var step := TypeStep(pe, va);
      forall x, p ensures AllAccepted(pe, step(x, p).leaves) {
        TypeWalkAccepts(pe, va, x, p);
      }
      WalkAccepts(pe, step, d.value.value.entries, d.pos);
    }
  }

  lemma {:induction false} FirstsAreVisited(visited: seq<Leaf>, n: nat)
    requires n <= |visited|
    ensures forall x <- Firsts(visited, n) :: x in visited
  {
    if n > 0 {
      FirstsAreVisited(visited, n - 1);
    }
  }

  /** Of all visited leaves with one offset and one size, exactly one is in the table. */
  lemma OnePerPlace(visited: seq<Leaf>, leaf: Leaf)
    requires leaf in visited
    ensures
      var table := RecordAll([], visited);
      exists i :: 0 <= i < |table| && table[i] in visited && table[i].offset == leaf.offset && table[i].size == leaf.size
                  && forall j :: 0 <= j < |table| && j != i ==> table[j].offset != leaf.offset || table[j].size != leaf.size
  {
    var n, table := |visited|, RecordAll([], visited);
    assert visited[..n] == visited;
    RecordsFirsts(visited, n);
    RecordKeepsDistinct([], visited);
    FirstsAreVisited(visited, n);
    FirstsCover(visited, n, leaf);
    var k :| 0 <= k < n && visited[k] == leaf;
    assert SamePlace(visited[k], leaf);
    assert Has(table, leaf);
    var i :| 0 <= i < |table| && SamePlace(table[i], leaf);
    assert table[i] in visited;
    forall j | 0 <= j < |table| && j != i ensures table[j].offset != leaf.offset || table[j].size != leaf.size {
      assert !SamePlace(table[if i < j then i else j], table[if i < j then j else i]);
    }
  }

  /** The table of a tree: one resource per place, each of a size between one and the file's. */
  lemma TableIsSound(pe: Image, va: U32, pos: nat)
    requires pe.alignment > 0
    ensures
      var leaves := TreeWalk(pe, va, pos).leaves;
      var table := RecordAll([], leaves);
      table == Firsts(leaves, |leaves|) && PlacesDistinct(table) && AllAccepted(pe, table)
  {
    var leaves := TreeWalk(pe, va, pos).leaves;
    TreeWalkAccepts(pe, va, pos);
    assert leaves[..|leaves|] == leaves;
    RecordsFirsts(leaves, |leaves|);
    FirstsAreVisited(leaves, |leaves|);
    RecordKeepsDistinct([], leaves);
  }
}
