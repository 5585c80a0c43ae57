/**
 Flattening as an inverse of storing: a three-level tree of resources that stands in the file is
 flattened to exactly its leaves, each labelled with what stands above it.  The tree is described by
 its labels and places; how they are put into words is said here, and not taken from the parser.
 */
module ResourceRoundTrip {
  import opened Options
  import opened Bytes
  import opened Sequences
  import opened Utf8Core
  import opened Utf8Codec
  import opened PeFile
  import opened PeStrings
  import opened SectionMap
  import opened PeImage
  import opened ResourceTree
  import opened ResourceTable

  /** What 31 bits can hold. */
  type Low = x: int | 0 <= x < 0x8000_0000

  /** What an entry is called: a number, or a text that stands at a place within the tree. */
  datatype Tag = Id(id: Low) | Text(place: Low, text: seq<CodePoint>)

  /** The sixteen bytes before the entries of a directory. */
  datatype Header = Header(characteristics: U32, stamp: U32, version: U32, named: U16, ids: U16)

  /** A tree as it is meant: what each node is called, where it is within the tree, and what it holds. */
  datatype LeafNode = LeafNode(tag: Tag, place: Low, rva: U32, size: U32, codepage: U32, reserved: U32)
  datatype NameNode = NameNode(tag: Tag, place: Low, header: Header, leaves: seq<LeafNode>)
  datatype TypeNode = TypeNode(tag: Tag, place: Low, header: Header, names: seq<NameNode>)
  datatype Tree = Tree(header: Header, types: seq<TypeNode>)

  //////////////////////////////////////////////////////////////////////////////
  // The leaves of a tree
  //////////////////////////////////////////////////////////////////////////////

  function TagLabel(tag: Tag): Label {
    match tag
    case Id(id) => Numbered(id)
    case Text(_, text) => Named(Encode8(text))
  }

  /** A large directory with characteristics is not read. */
  predicate Refused(h: Header) {
    h.named + h.ids > 0x100 && h.characteristics != 0
  }

  /** A leaf that is empty or larger than the file is no resource, and a node that is said to be
      beyond the file is passed over. */
  function LeafResources(pe: Image, c: Context): LeafNode -> seq<Leaf>
    requires pe.alignment > 0
  {
    (l: LeafNode) =>
      if l.place <= |pe.bytes| && 1 <= l.size <= |pe.bytes| then
        [Leaf(c.kind, c.name, TagLabel(l.tag), l.codepage, l.size, c.timeDateStamp, DataPos(pe, l.rva))]
      else []
  }

  function NameResources(pe: Image, kind: Label): NameNode -> seq<Leaf>
    requires pe.alignment > 0
  {
    (n: NameNode) =>
      if n.place <= |pe.bytes| && !Refused(n.header) then
        FlatMap(LeafResources(pe, Context(kind, TagLabel(n.tag), n.header.stamp)), n.leaves)
      else []
  }

  function TypeResources(pe: Image): TypeNode -> seq<Leaf>
    requires pe.alignment > 0
  {
    (t: TypeNode) =>
      if t.place <= |pe.bytes| && !Refused(t.header) then FlatMap(NameResources(pe, TagLabel(t.tag)), t.names) else []
  }

  function TreeResources(pe: Image, tree: Tree): seq<Leaf>
    requires pe.alignment > 0
  {
    if Refused(tree.header) then [] else FlatMap(TypeResources(pe), tree.types)
  }

  //////////////////////////////////////////////////////////////////////////////
  // How a tree is stored
  //////////////////////////////////////////////////////////////////////////////

  /** The first word of an entry: the number, or the place of the text with the high bit set. */
  function TagWord(tag: Tag): U32 {
    match tag
    case Id(id) => id
    case Text(place, _) => 0x8000_0000 + place
  }

  /** A place within the tree, as a position in the file. */
  function PlaceAt(pe: Image, va: U32, place: Low): U32
    requires pe.alignment > 0
  {
    (RvaOffset(pe.sections, pe.alignment, va) + place) % 0x1_0000_0000
  }

  /** A text is stored as counted UTF-16. */
  ghost predicate TagStored(pe: Image, va: U32, tag: Tag)
    requires pe.alignment > 0
  {
    match tag
    case Id(_) => true
    case Text(place, text) =>
      var units := Encode16(text);
      var p := PlaceAt(pe, va, place);
      && text != [] && AllValid(text) && |units| < 0x1_0000 && p != 0
      && ReadAt(pe.bytes, p, 2 + 2 * |units|) == ToLE(|units|, 2) + UnitBytes(units)
  }

  /** An entry: what it is called, and the word for where it leads. */
  datatype Slot = Slot(tag: Tag, target: U32)

  /** The word for a directory has the high bit set; the one for data has not. */
  function LeafSlot(l: LeafNode): Slot { Slot(l.tag, l.place) }
  function NameSlot(n: NameNode): Slot { Slot(n.tag, 0x8000_0000 + n.place) }
  function TypeSlot(t: TypeNode): Slot { Slot(t.tag, 0x8000_0000 + t.place) }

  ghost predicate SlotStored(pe: Image, va: U32, p: nat, s: Slot)
    requires pe.alignment > 0
  {
    ReadAt(pe.bytes, p, 8) == ToLE(TagWord(s.tag), 4) + ToLE(s.target, 4) && TagStored(pe, va, s.tag)
  }

  /** One after the other. */
  ghost predicate SlotsStored(pe: Image, va: U32, p: nat, slots: seq<Slot>)
    requires pe.alignment > 0
    decreases |slots|
  {
    slots == [] || (SlotStored(pe, va, p, slots[0]) && SlotsStored(pe, va, p + 8, slots[1..]))
  }

  ghost predicate DirStored(pe: Image, va: U32, pos: nat, h: Header, slots: seq<Slot>)
    requires pe.alignment > 0
  {
    && |slots| == h.named + h.ids
    && ReadAt(pe.bytes, pos, 16) == ToLE(h.characteristics, 4) + ToLE(h.stamp, 4) + ToLE(h.version, 4) + ToLE(h.named, 2) + ToLE(h.ids, 2)
    && (!Refused(h) ==> SlotsStored(pe, va, pos + 16, slots))
  }

  ghost predicate LeafStored(pe: Image, va: U32, l: LeafNode)
    requires pe.alignment > 0
  {
    var p := RvaOffset(pe.sections, pe.alignment, (va + l.place) % 0x1_0000_0000);
    p != 0 && ReadAt(pe.bytes, p, 16) == ToLE(l.rva, 4) + ToLE(l.size, 4) + ToLE(l.codepage, 4) + ToLE(l.reserved, 4)
  }

  ghost predicate NameStored(pe: Image, va: U32, n: NameNode)
    requires pe.alignment > 0
  {
    var p := PlaceAt(pe, va, n.place);
    && n.place != 0 && p != 0 && DirStored(pe, va, p, n.header, Map(LeafSlot, n.leaves))
    && (!Refused(n.header) ==> forall l <- n.leaves :: l.place <= |pe.bytes| ==> LeafStored(pe, va, l))
  }

  ghost predicate TypeStored(pe: Image, va: U32, t: TypeNode)
    requires pe.alignment > 0
  {
    var p := PlaceAt(pe, va, t.place);
    && t.place != 0 && p != 0 && DirStored(pe, va, p, t.header, Map(NameSlot, t.names))
    && (!Refused(t.header) ==> forall n <- t.names :: n.place <= |pe.bytes| ==> NameStored(pe, va, n))
  }

  ghost predicate TreeStored(pe: Image, va: U32, pos: nat, tree: Tree)
    requires pe.alignment > 0
  {
    && DirStored(pe, va, pos, tree.header, Map(TypeSlot, tree.types))
    && (!Refused(tree.header) ==> forall t <- tree.types :: t.place <= |pe.bytes| ==> TypeStored(pe, va, t))
  }

  //////////////////////////////////////////////////////////////////////////////
  // The entries that the parser reads
  //////////////////////////////////////////////////////////////////////////////

  function EntryOfSlot(s: Slot): DirEntry {
    DirEntry(TagWord(s.tag), s.target, if s.tag.Id? then [] else Encode8(s.tag.text))
  }

  lemma EntryHasLabel(s: Slot)
    ensures LabelOf(EntryOfSlot(s)) == TagLabel(s.tag)
  {
  }

  lemma TargetIsPlace(place: Low)
    ensures Low31(place) == place && Low31(0x8000_0000 + place) == place
  {
  }

  lemma KeptWithinFile(pe: Image, s: Slot, place: Low)
    requires s.target == place || s.target == 0x8000_0000 + place
    ensures IsPlausible(pe, EntryOfSlot(s)) <==> place <= |pe.bytes|
  {
    TargetIsPlace(place);
  }

  lemma TextIsRead(pe: Image, p: nat, text: seq<CodePoint>, units: Units)
    requires text != [] && AllValid(text) && units == Encode16(text) && |units| < 0x1_0000
    requires ReadAt(pe.bytes, p, 2 + 2 * |units|) == ToLE(|units|, 2) + UnitBytes(units)
    ensures PrefixedString(pe.bytes, p) == Encode8(text) && Encode8(text) != []
  {
    var stored := ToLE(|units|, 2) + UnitBytes(units);
    assert pe.bytes[p..p + 2] == stored[..2] && stored[..2] == ToLE(|units|, 2);
    assert pe.bytes[p + 2..p + 2 + 2 * |units|] == stored[2..] && stored[2..] == UnitBytes(units);
    StoredTextIsReadBack(pe.bytes, p, text);
    assert |Encode(text[0])| >= 1;
  }

  lemma SlotIsEntry(pe: Image, va: U32, p: nat, s: Slot)
    requires pe.alignment > 0 && SlotStored(pe, va, p, s)
    ensures EntryStored(pe, Base(pe, va), p, EntryOfSlot(s))
  {
    if s.tag.Text? {
      TextIsRead(pe, PlaceAt(pe, va, s.tag.place), s.tag.text, Encode16(s.tag.text));
      TargetIsPlace(s.tag.place);
    }
  }

  lemma {:induction false} SlotsAreEntries(pe: Image, va: U32, pos: nat, slots: seq<Slot>)
    requires pe.alignment > 0 && SlotsStored(pe, va, pos, slots)
    ensures EntriesStored(pe, Base(pe, va), pos, Map(EntryOfSlot, slots))
    decreases |slots|
  {
    if slots != [] {
      SlotIsEntry(pe, va, pos, slots[0]);
      SlotsAreEntries(pe, va, pos + 8, slots[1..]);
      assert Map(EntryOfSlot, slots)[1..] == Map(EntryOfSlot, slots[1..]);
    }
  }

  /** What is read of a stored directory: its stamp and the entries that point within the file. */
  function DirOf(pe: Image, h: Header, slots: seq<Slot>): Option<Dir> {
    if Refused(h) then None else Some(Dir(h.stamp, KeepAll(pe, Map(EntryOfSlot, slots))))
  }

  lemma DirIsRead(pe: Image, va: U32, pos: nat, h: Header, slots: seq<Slot>)
    requires pe.alignment > 0 && DirStored(pe, va, pos, h, slots)
    ensures DirAtCursor(pe, va, pos).value == DirOf(pe, h, slots)
  {
    if Refused(h) {
      HeaderReadBack(h.characteristics, h.stamp, h.version, h.named, h.ids);
    } else {
      SlotsAreEntries(pe, va, pos + 16, slots);
      DirReadBack(pe, va, pos, h.characteristics, h.stamp, h.version, h.named, h.ids, Map(EntryOfSlot, slots));
    }
  }

  //////////////////////////////////////////////////////////////////////////////
  // Reading it back
  //////////////////////////////////////////////////////////////////////////////

  /** A directory is read from any position of the cursor. */
  lemma SubdirIsRead(pe: Image, va: U32, place: Low, pos: nat, h: Header, slots: seq<Slot>)
    requires pe.alignment > 0 && place != 0 && PlaceAt(pe, va, place) != 0
    requires DirStored(pe, va, PlaceAt(pe, va, place), h, slots)
    ensures DirAt(pe, va, pos, place).value == DirOf(pe, h, slots)
  {
    DirIsRead(pe, va, PlaceAt(pe, va, place), h, slots);
  }

  /** The name level walks the directory that was read. */
  lemma NameWalkIs(pe: Image, va: U32, kind: Label, e: DirEntry, pos: nat)
    requires pe.alignment > 0
    ensures
      var d := DirAt(pe, va, pos, Low31(e.offsetToData));
      if d.value.None? then NameStep(pe, va, kind)(e, pos) == Walk(true, d.pos, [])
      else
        var c := Context(kind, LabelOf(e), d.value.value.timeDateStamp);
        NameStep(pe, va, kind)(e, pos) == WalkAll(LanguageStep(pe, va, c), d.value.value.entries, d.pos)
  {
  }

  lemma TypeWalkIs(pe: Image, va: U32, e: DirEntry, pos: nat)
    requires pe.alignment > 0
    ensures
      var d := DirAt(pe, va, pos, Low31(e.offsetToData));
      if d.value.None? then TypeStep(pe, va)(e, pos) == Walk(true, d.pos, [])
      else TypeStep(pe, va)(e, pos) == WalkAll(NameStep(pe, va, LabelOf(e)), d.value.value.entries, d.pos)
  {
  }

  /** A step over the entry of a node finds the node's leaves. */
  ghost predicate Brings<N(!new)>(step: (DirEntry, nat) -> Walk, slotOf: N -> Slot, leavesOf: N -> seq<Leaf>, n: N) {
    forall p: nat :: step(EntryOfSlot(slotOf(n)), p).ok && step(EntryOfSlot(slotOf(n)), p).leaves == leavesOf(n)
  }

  /** Or the node has no leaves and its entry is dropped. */
  ghost predicate Accounted<N(!new)>(pe: Image, step: (DirEntry, nat) -> Walk, slotOf: N -> Slot, leavesOf: N -> seq<Leaf>, n: N) {
    if IsPlausible(pe, EntryOfSlot(slotOf(n))) then Brings(step, slotOf, leavesOf, n) else leavesOf(n) == []
  }

  /** The steps over the entries that are kept find the leaves of all nodes. */
  lemma {:induction false} WalkBrings<N(!new)>(
      pe: Image, step: (DirEntry, nat) -> Walk, nodes: seq<N>, slotOf: N -> Slot, leavesOf: N -> seq<Leaf>, pos: nat)
    requires forall n <- nodes :: Accounted(pe, step, slotOf, leavesOf, n)
    ensures
      var w := WalkAll(step, KeepAll(pe, Map(EntryOfSlot, Map(slotOf, nodes))), pos);
      w.ok && w.leaves == FlatMap(leavesOf, nodes)
    decreases |nodes|
  {
    if nodes != [] {
      var n, rest := nodes[0], nodes[1..];
      assert n in nodes && forall x <- rest :: x in nodes;
      var entries := Map(EntryOfSlot, Map(slotOf, nodes));
      assert entries[0] == EntryOfSlot(slotOf(n));
      assert Map(slotOf, nodes)[1..] == Map(slotOf, rest);
      assert entries[1..] == Map(EntryOfSlot, Map(slotOf, rest));
      if IsPlausible(pe, entries[0]) {
        var w := step(entries[0], pos);
        assert Brings(step, slotOf, leavesOf, n);
        WalkBrings(pe, step, rest, slotOf, leavesOf, w.pos);
        WalkOne(step, entries[0], KeepAll(pe, entries[1..]), pos);
      } else {
        WalkBrings(pe, step, rest, slotOf, leavesOf, pos);
        assert KeepAll(pe, entries) == KeepAll(pe, entries[1..]);
        assert FlatMap(leavesOf, nodes) == FlatMap(leavesOf, rest);
      }
    }
  }

  lemma WalkOne(step: (DirEntry, nat) -> Walk, e: DirEntry, entries: seq<DirEntry>, pos: nat)
    ensures
      var w := step(e, pos);
      WalkAll(step, [e] + entries, pos) == if !w.ok then w else After(w.leaves, WalkAll(step, entries, w.pos))
  {
    assert ([e] + entries)[1..] == entries;
  }

  lemma LeafIsRead(pe: Image, va: U32, c: Context, l: LeafNode)
    requires pe.alignment > 0 && l.place <= |pe.bytes| && LeafStored(pe, va, l)
    ensures Brings(LanguageStep(pe, va, c), LeafSlot, LeafResources(pe, c), l)
  {
    var e := EntryOfSlot(LeafSlot(l));
    TargetIsPlace(l.place);
    EntryHasLabel(LeafSlot(l));
    LeafReadBack(pe, va, c, e, l.rva, l.size, l.codepage, l.reserved);
  }

  lemma LeafIsAccounted(pe: Image, va: U32, c: Context, l: LeafNode)
    requires pe.alignment > 0 && (l.place <= |pe.bytes| ==> LeafStored(pe, va, l))
    ensures Accounted(pe, LanguageStep(pe, va, c), LeafSlot, LeafResources(pe, c), l)
  {
    KeptWithinFile(pe, LeafSlot(l), l.place);
    if l.place <= |pe.bytes| {
      LeafIsRead(pe, va, c, l);
    }
  }

  lemma LeavesAreRead(pe: Image, va: U32, c: Context, leaves: seq<LeafNode>, start: nat)
    requires pe.alignment > 0 && forall l <- leaves :: l.place <= |pe.bytes| ==> LeafStored(pe, va, l)
    ensures
      var w := WalkAll(LanguageStep(pe, va, c), KeepAll(pe, Map(EntryOfSlot, Map(LeafSlot, leaves))), start);
      w.ok && w.leaves == FlatMap(LeafResources(pe, c), leaves)
  {
    var step, leavesOf := LanguageStep(pe, va, c), LeafResources(pe, c);
    forall l <- leaves ensures Accounted(pe, step, LeafSlot, leavesOf, l) {
      LeafIsAccounted(pe, va, c, l);
    }
    WalkBrings(pe, step, leaves, LeafSlot, leavesOf, start);
  }

  lemma NameIsRead(pe: Image, va: U32, kind: Label, n: NameNode)
    requires pe.alignment > 0 && n.place <= |pe.bytes| && NameStored(pe, va, n)
    ensures Brings(NameStep(pe, va, kind), NameSlot, NameResources(pe, kind), n)
  {
    var e := EntryOfSlot(NameSlot(n));
    TargetIsPlace(n.place);
    EntryHasLabel(NameSlot(n));
    forall p: nat ensures NameStep(pe, va, kind)(e, p).ok && NameStep(pe, va, kind)(e, p).leaves == NameResources(pe, kind)(n) {
      SubdirIsRead(pe, va, n.place, p, n.header, Map(LeafSlot, n.leaves));
      NameWalkIs(pe, va, kind, e, p);
      if !Refused(n.header) {
        LeavesAreRead(pe, va, Context(kind, TagLabel(n.tag), n.header.stamp), n.leaves, DirAt(pe, va, p, n.place).pos);
      }
    }
  }

  lemma NameIsAccounted(pe: Image, va: U32, kind: Label, n: NameNode)
    requires pe.alignment > 0 && (n.place <= |pe.bytes| ==> NameStored(pe, va, n))
    ensures Accounted(pe, NameStep(pe, va, kind), NameSlot, NameResources(pe, kind), n)
  {
    KeptWithinFile(pe, NameSlot(n), n.place);
    if n.place <= |pe.bytes| {
      NameIsRead(pe, va, kind, n);
    }
  }

  lemma NamesAreRead(pe: Image, va: U32, kind: Label, names: seq<NameNode>, start: nat)
    requires pe.alignment > 0 && forall n <- names :: n.place <= |pe.bytes| ==> NameStored(pe, va, n)
    ensures
      var w := WalkAll(NameStep(pe, va, kind), KeepAll(pe, Map(EntryOfSlot, Map(NameSlot, names))), start);
      w.ok && w.leaves == FlatMap(NameResources(pe, kind), names)
  {
    var step, leavesOf := NameStep(pe, va, kind), NameResources(pe, kind);
    forall n <- names ensures Accounted(pe, step, NameSlot, leavesOf, n) {
      NameIsAccounted(pe, va, kind, n);
    }
    WalkBrings(pe, step, names, NameSlot, leavesOf, start);
  }

  lemma TypeIsRead(pe: Image, va: U32, t: TypeNode)
    requires pe.alignment > 0 && t.place <= |pe.bytes| && TypeStored(pe, va, t)
    ensures Brings(TypeStep(pe, va), TypeSlot, TypeResources(pe), t)
  {
    var e := EntryOfSlot(TypeSlot(t));
    TargetIsPlace(t.place);
    EntryHasLabel(TypeSlot(t));
    forall p: nat ensures TypeStep(pe, va)(e, p).ok && TypeStep(pe, va)(e, p).leaves == TypeResources(pe)(t) {
      SubdirIsRead(pe, va, t.place, p, t.header, Map(NameSlot, t.names));
      TypeWalkIs(pe, va, e, p);
      if !Refused(t.header) {
        NamesAreRead(pe, va, TagLabel(t.tag), t.names, DirAt(pe, va, p, t.place).pos);
      }
    }
  }

  lemma TypeIsAccounted(pe: Image, va: U32, t: TypeNode)
    requires pe.alignment > 0 && (t.place <= |pe.bytes| ==> TypeStored(pe, va, t))
    ensures Accounted(pe, TypeStep(pe, va), TypeSlot, TypeResources(pe), t)
  {
    KeptWithinFile(pe, TypeSlot(t), t.place);
    if t.place <= |pe.bytes| {
      TypeIsRead(pe, va, t);
    }
  }

  lemma TypesAreRead(pe: Image, va: U32, types: seq<TypeNode>, start: nat)
    requires pe.alignment > 0 && forall t <- types :: t.place <= |pe.bytes| ==> TypeStored(pe, va, t)
    ensures
      var w := WalkAll(TypeStep(pe, va), KeepAll(pe, Map(EntryOfSlot, Map(TypeSlot, types))), start);
      w.ok && w.leaves == FlatMap(TypeResources(pe), types)
  {
    var step, leavesOf := TypeStep(pe, va), TypeResources(pe);
    forall t <- types ensures Accounted(pe, step, TypeSlot, leavesOf, t) {
      TypeIsAccounted(pe, va, t);
    }
    WalkBrings(pe, step, types, TypeSlot, leavesOf, start);
  }

  /** A stored tree is walked through to the end, unless its root is refused, and its leaves are
      exactly what is found. */
  lemma StoredTreeIsFlattened(pe: Image, va: U32, pos: nat, tree: Tree)
    requires pe.alignment > 0 && TreeStored(pe, va, pos, tree)
    ensures TreeWalk(pe, va, pos).ok == !Refused(tree.header)
    ensures TreeWalk(pe, va, pos).leaves == TreeResources(pe, tree)
  {
    DirIsRead(pe, va, pos, tree.header, Map(TypeSlot, tree.types));
    if !Refused(tree.header) {
      TypesAreRead(pe, va, tree.types, DirAt(pe, va, pos, 0).pos);
    }
  }

  /** The table that the parser builds of a stored tree: its leaves, without duplicates. */
  method ParseStoredTree(pe: Image, f: File, directories: seq<Directory>, ghost tree: Tree) returns (ok: bool, table: Table)
    requires pe.alignment > 0 && f.bytes == pe.bytes && |directories| == 16 && Reachable(pe, directories[2])
    requires
      var va := directories[2].virtualAddress;
      TreeStored(pe, va, RvaOffset(pe.sections, pe.alignment, va), tree)
    modifies f
    ensures ok == !Refused(tree.header) && fresh(table)
    ensures
      var leaves := TreeResources(pe, tree);
      table.resources == Firsts(leaves, |leaves|)
  {
    table := new Table();
    ghost var va := directories[2].virtualAddress;
    StoredTreeIsFlattened(pe, va, Base(pe, va), tree);
    ok := table.ParseResources(pe, f, Some(directories));
  }
}
