/**
 The relocation directory: blocks of a header and 16-bit entries, until the announced size
 is used up.  The number of entries of a block comes from an unsigned subtraction.
 */
module Relocations {
  import opened Options
  import opened Bytes
  import opened Sequences
  import opened PeFile
  import opened SectionMap
  import opened PeImage

  datatype Block = Block(pageRva: U32, size: U32, entries: seq<U16>)

  /** (BlockSize - header_size) / sizeof(uint16), in 32-bit unsigned arithmetic. */
  function EntryCount(size: U32): nat {
    (size - 8) % 0x1_0000_0000 / 2
  }

  /** A block smaller than its own header announces so many entries that reading it takes a
      file of four gibibytes; a block of one byte needs exactly that. */
  lemma SmallBlocksAreHuge(size: U32)
    requires 0 < size < 8
    ensures 8 + 2 * EntryCount(size) >= 0x1_0000_0000
    ensures size == 1 ==> 8 + 2 * EntryCount(size) == 0x1_0000_0000
  {
  }

  //////////////////////////////////////////////////////////////////////////////
  // What the bytes say
  //////////////////////////////////////////////////////////////////////////////

  function EntryBytes(x: U16): seq<Byte> {
    ToLE(x, 2)
  }

  /** The bytes of a block: header, then entries. */
  function Encode(b: Block): (s: seq<Byte>)
  {
    ToLE(b.pageRva, 4) + ToLE(b.size, 4) + FlatMap(EntryBytes, b.entries)
  }

  function EncodeAll(blocks: seq<Block>): seq<Byte> {
    FlatMap(Encode, blocks)
  }

  function SizeOf(b: Block): nat {
    b.size
  }

  function TotalSize(blocks: seq<Block>): nat {
    Sum(SizeOf, blocks)
  }

  function HeaderSizeAt(bytes: seq<Byte>, p: nat): U32
    requires p + 8 <= |bytes|
  {
    LE32(bytes[p + 4..p + 8])
  }

  /** A zero block size stands at `p`. */
  predicate ZeroBlockAt(bytes: seq<Byte>, p: nat) {
    p + 8 <= |bytes| && HeaderSizeAt(bytes, p) == 0
  }

  /** No whole block that fits the remaining size stands at `p`. */
  predicate BadBlockAt(bytes: seq<Byte>, p: nat, remaining: nat) {
    || |bytes| < p + 8
    || HeaderSizeAt(bytes, p) > remaining
    || (HeaderSizeAt(bytes, p) > 0 && |bytes| < p + 8 + 2 * EntryCount(HeaderSizeAt(bytes, p)))
  }

  /** A block with a non-zero size and the announced number of entries. */
  predicate IsWhole(b: Block) {
    b.size > 0 && |b.entries| == EntryCount(b.size)
  }

  /** The blocks are the ones encoded from `start` on, their sizes are within the directory's,
      and each has the announced number of entries. */
  ghost predicate BlocksAre(bytes: seq<Byte>, start: nat, size: U32, blocks: seq<Block>) {
    && Fits(bytes, start, size, EncodeAll(blocks), TotalSize(blocks))
    && forall b <- blocks :: IsWhole(b)
  }

  /** A whole block, with a non-zero size, stands at `p`. */
  ghost predicate BlockAt(bytes: seq<Byte>, p: nat, b: Block) {
    && p + |Encode(b)| <= |bytes| && Encode(b) == bytes[p..p + |Encode(b)|]
    && IsWhole(b)
  }

  lemma {:induction false} EntriesLength(entries: seq<U16>)
    ensures |FlatMap(EntryBytes, entries)| == 2 * |entries|
  {
    if entries != [] {
      EntriesLength(entries[1..]);
    }
  }

  lemma EntriesStep(bytes: seq<Byte>, start: nat, pos: nat, entries: seq<U16>)
    requires start <= pos && pos + 2 <= |bytes| && FlatMap(EntryBytes, entries) == bytes[start..pos]
    ensures FlatMap(EntryBytes, entries + [LE16(bytes[pos..pos + 2])]) == bytes[start..pos + 2]
  {
    ToLEInverse(bytes[pos..pos + 2]);
    FlatMapAppend(EntryBytes, entries, LE16(bytes[pos..pos + 2]));
    assert bytes[start..pos] + bytes[pos..pos + 2] == bytes[start..pos + 2];
  }

  /** Reads `count` entries, or fails when the file ends first. */
  method ReadEntries(f: File, count: nat) returns (ok: bool, entries: seq<U16>)
    requires f.pos <= |f.bytes|
    modifies f
    ensures ok <==> old(f.pos) + 2 * count <= |f.bytes|
    ensures ok ==> |entries| == count && f.pos == old(f.pos) + 2 * count
    ensures ok ==> FlatMap(EntryBytes, entries) == f.bytes[old(f.pos)..f.pos]
  {
    entries := [];
    var start := f.pos;
    for i := 0 to count
      invariant |entries| == i && f.pos == start + 2 * i <= |f.bytes|
      invariant FlatMap(EntryBytes, entries) == f.bytes[start..f.pos]
    {
      ghost var pos := f.pos;
      var data := f.Read(2);
      if |data| != 2 {
        return false, entries;
      }
      EntriesStep(f.bytes, start, pos, entries);
      entries := entries + [LE16(data)];
    }
    return true, entries;
  }

  lemma BlockBytes(bytes: seq<Byte>, pos: nat, b: Block)
    requires pos + 8 + 2 * |b.entries| <= |bytes|
    requires b.pageRva == LE32(bytes[pos..pos + 4]) && b.size == HeaderSizeAt(bytes, pos)
    requires FlatMap(EntryBytes, b.entries) == bytes[pos + 8..pos + 8 + 2 * |b.entries|]
    ensures Encode(b) == bytes[pos..pos + 8 + 2 * |b.entries|]
  {
    ToLEInverse(bytes[pos..pos + 4]);
    ToLEInverse(bytes[pos + 4..pos + 8]);
    assert bytes[pos..pos + 4] + bytes[pos + 4..pos + 8] == bytes[pos..pos + 8];
  }

  datatype BlockRead = BadBlock | ZeroBlock | ABlock(b: Block)

  /** One round of the loop: a header, and its entries. */
  method ReadBlock(f: File, remaining: nat) returns (r: BlockRead)
    modifies f
    ensures r.BadBlock? ==> BadBlockAt(f.bytes, old(f.pos), remaining)
    ensures r.ZeroBlock? ==> ZeroBlockAt(f.bytes, old(f.pos))
    ensures r.ABlock? ==> BlockAt(f.bytes, old(f.pos), r.b) && r.b.size <= remaining && f.pos == old(f.pos) + |Encode(r.b)|
  {
    ghost var pos := f.pos;
    var header := f.Read(8);
    assert |header| == 8 ==> header[4..] == f.bytes[pos + 4..pos + 8] && header[..4] == f.bytes[pos..pos + 4];
    if |header| != 8 || LE32(header[4..]) > remaining {
      return BadBlock;
    }
    var size := LE32(header[4..]);
    if size == 0 {
      return ZeroBlock;
    }
    var read, entries := ReadEntries(f, EntryCount(size));
    if !read {
      return BadBlock;
    }
    var b := Block(LE32(header[..4]), size, entries);
    BlockBytes(f.bytes, pos, b);
    return ABlock(b);
  }

  lemma BlocksStep(bytes: seq<Byte>, start: nat, size: U32, blocks: seq<Block>, b: Block)
    requires BlocksAre(bytes, start, size, blocks)
    requires BlockAt(bytes, start + |EncodeAll(blocks)|, b) && b.size <= size - TotalSize(blocks)
    ensures BlocksAre(bytes, start, size, blocks + [b])
    ensures TotalSize(blocks + [b]) == TotalSize(blocks) + b.size
    ensures EncodeAll(blocks + [b]) == EncodeAll(blocks) + Encode(b)
  {
    OneMore(blocks + [b], blocks, b);
    ReadAtConcat(bytes, start, EncodeAll(blocks), Encode(b));
  }

  lemma EncodeShape(b: Block) returns (x: seq<Byte>, y: seq<Byte>, z: seq<Byte>)
    ensures |x| == |y| == 4 && |z| == 2 * |b.entries| && Encode(b) == x + y + z
    ensures LE32(x) == b.pageRva && LE32(y) == b.size && z == FlatMap(EntryBytes, b.entries)
  {
    x, y, z := ToLE(b.pageRva, 4), ToLE(b.size, 4), FlatMap(EntryBytes, b.entries);
    EntriesLength(b.entries);
    LE32Inverse(b.pageRva);
    LE32Inverse(b.size);
  }

  /** What a whole block at `p` says about the bytes there: the converse of `BlockBytes`. */
  lemma BlockFields(bytes: seq<Byte>, p: nat, b: Block)
    requires BlockAt(bytes, p, b)
    ensures |Encode(b)| == 8 + 2 * |b.entries| && p + 8 + 2 * |b.entries| <= |bytes|
    ensures b.pageRva == LE32(bytes[p..p + 4]) && b.size == HeaderSizeAt(bytes, p)
    ensures FlatMap(EntryBytes, b.entries) == bytes[p + 8..p + 8 + 2 * |b.entries|]
  {
    var x, y, z := EncodeShape(b);
    EncodedParts(bytes, p, x, y, z);
  }

  lemma EncodedParts(bytes: seq<Byte>, p: nat, x: seq<Byte>, y: seq<Byte>, z: seq<Byte>)
    requires |x| == |y| == 4 && p + 8 + |z| <= |bytes| && x + y + z == bytes[p..p + 8 + |z|]
    ensures x == bytes[p..p + 4] && y == bytes[p + 4..p + 8] && z == bytes[p + 8..p + 8 + |z|]
  {
    var n, s := 8 + |z|, x + y + z;
    assert s[0..4] == x && s[4..8] == y && s[8..n] == z;
    SubSlice(bytes, p, n, 0, 4);
    SubSlice(bytes, p, n, 4, 8);
    SubSlice(bytes, p, n, 8, n);
  }

  lemma {:induction false} EntriesInjective(a: seq<U16>, b: seq<U16>)
    requires |a| == |b| && FlatMap(EntryBytes, a) == FlatMap(EntryBytes, b)
    ensures a == b
  {
    if a != [] {
      SameStart(EntryBytes(a[0]), FlatMap(EntryBytes, a[1..]), EntryBytes(b[0]), FlatMap(EntryBytes, b[1..]));
      LE16Inverse(a[0]);
      LE16Inverse(b[0]);
      EntriesInjective(a[1..], b[1..]);
      assert a == [a[0]] + a[1..] && b == [b[0]] + b[1..];
    }
  }

  /** Only one block can stand at a place. */
  lemma BlockIsUnique(bytes: seq<Byte>, p: nat, b: Block, c: Block)
    requires BlockAt(bytes, p, b) && BlockAt(bytes, p, c)
    ensures b == c
  {
    BlockFields(bytes, p, b);
    BlockFields(bytes, p, c);
    EntriesInjective(b.entries, c.entries);
  }

  /** The block stands right after the others and fits what they leave of the size. */
  ghost predicate NextAt(bytes: seq<Byte>, start: nat, size: U32, blocks: seq<Block>, b: Block) {
    BlockAt(bytes, start + |EncodeAll(blocks)|, b) && b.size <= size - TotalSize(blocks)
  }

  lemma NextIsUnique(bytes: seq<Byte>, start: nat, size: U32, blocks: seq<Block>, b: Block, c: Block)
    requires NextAt(bytes, start, size, blocks, b) && NextAt(bytes, start, size, blocks, c)
    ensures b == c
  {
    BlockIsUnique(bytes, start + |EncodeAll(blocks)|, b, c);
  }

  /** The last of the blocks stands after the others: the converse of `BlocksStep`. */
  lemma LastBlock(bytes: seq<Byte>, start: nat, size: U32, all: seq<Block>, blocks: seq<Block>, b: Block)
    requires BlocksAre(bytes, start, size, all) && all == blocks + [b]
    ensures BlocksAre(bytes, start, size, blocks)
    ensures NextAt(bytes, start, size, blocks, b)
  {
    OneMore(all, blocks, b);
    AllWhole(all, blocks, b);
    LastBytes(bytes, start, size, EncodeAll(blocks), Encode(b), TotalSize(blocks), b.size);
  }

  /** The encoding and the size of blocks, as the directory limits them. */
  ghost predicate Fits(bytes: seq<Byte>, start: nat, size: U32, encoding: seq<Byte>, total: nat) {
    encoding == ReadAt(bytes, start, |encoding|) && total <= size
  }

  lemma LastBytes(bytes: seq<Byte>, start: nat, size: U32, a: seq<Byte>, b: seq<Byte>, s: nat, t: nat)
    requires b != [] && Fits(bytes, start, size, a + b, s + t)
    ensures Fits(bytes, start, size, a, s) && t <= size - s
    ensures start + |a| + |b| <= |bytes| && b == bytes[start + |a|..start + |a| + |b|]
  {
    ReadAtSplit(bytes, start, a, b);
  }

  lemma AllWhole(all: seq<Block>, blocks: seq<Block>, b: Block)
    requires all == blocks + [b] && forall c <- all :: IsWhole(c)
    ensures IsWhole(b) && forall c <- blocks :: IsWhole(c)
  {
    assert b in all && forall c <- blocks :: c in all;
  }

  lemma OneMore(all: seq<Block>, blocks: seq<Block>, b: Block)
    requires all == blocks + [b]
    ensures EncodeAll(all) == EncodeAll(blocks) + Encode(b) && Encode(b) != []
    ensures TotalSize(all) == TotalSize(blocks) + b.size
  {
    FlatMapAppend(Encode, blocks, b);
    assert all[..|all| - 1] == blocks && all[|all| - 1] == b;
  }

  lemma {:induction false} EachBlock(bytes: seq<Byte>, start: nat, size: U32, blocks: seq<Block>, k: nat)
    requires BlocksAre(bytes, start, size, blocks) && k < |blocks|
    ensures BlocksAre(bytes, start, size, blocks[..k])
    ensures NextAt(bytes, start, size, blocks[..k], blocks[k])
    decreases |blocks|
  {
    var n := |blocks| - 1;
    LastBlock(bytes, start, size, blocks, blocks[..n], blocks[n]);
    if k < n {
      EachBlock(bytes, start, size, blocks[..n], k);
      assert blocks[..n][..k] == blocks[..k];
    }
  }

  lemma {:induction false} BlocksAgree(bytes: seq<Byte>, start: nat, size: U32, a: seq<Block>, b: seq<Block>, k: nat)
    requires BlocksAre(bytes, start, size, a) && BlocksAre(bytes, start, size, b) && k <= |a| && k <= |b|
    ensures a[..k] == b[..k]
  {
    if k > 0 {
      BlocksAgree(bytes, start, size, a, b, k - 1);
      EachBlock(bytes, start, size, a, k - 1);
      EachBlock(bytes, start, size, b, k - 1);
      NextIsUnique(bytes, start, size, a[..k - 1], a[k - 1], b[k - 1]);
      LongerPrefix(a, b, k - 1);
    }
  }

  /** The blocks use up the directory's size, or a zero block follows them. */
  ghost predicate Ends(bytes: seq<Byte>, start: nat, size: U32, blocks: seq<Block>) {
    TotalSize(blocks) == size || ZeroBlockAt(bytes, start + |EncodeAll(blocks)|)
  }

  ghost predicate Finished(bytes: seq<Byte>, start: nat, size: U32, blocks: seq<Block>) {
    BlocksAre(bytes, start, size, blocks) && Ends(bytes, start, size, blocks)
  }

  /** Where the blocks end there is no further block. */
  lemma EndHasNoNext(bytes: seq<Byte>, start: nat, size: U32, blocks: seq<Block>, b: Block)
    requires NextAt(bytes, start, size, blocks, b)
    ensures !Ends(bytes, start, size, blocks)
  {
    BlockFields(bytes, start + |EncodeAll(blocks)|, b);
  }

  lemma NothingAfter(bytes: seq<Byte>, start: nat, size: U32, a: seq<Block>, b: seq<Block>)
    requires Finished(bytes, start, size, a) && BlocksAre(bytes, start, size, b)
    ensures |b| <= |a|
  {
    if |a| < |b| {
      BlocksAgree(bytes, start, size, a, b, |a|);
      assert a[..|a|] == a;
      EachBlock(bytes, start, size, b, |a|);
      EndHasNoNext(bytes, start, size, a, b[|a|]);
    }
  }

  /** A directory has only one decoding. */
  lemma BlocksAreUnique(bytes: seq<Byte>, start: nat, size: U32, a: seq<Block>, b: seq<Block>)
    requires Finished(bytes, start, size, a) && Finished(bytes, start, size, b)
    ensures a == b
  {
    NothingAfter(bytes, start, size, a, b);
    NothingAfter(bytes, start, size, b, a);
    BlocksAgree(bytes, start, size, a, b, |a|);
    assert a[..|a|] == a && b[..|b|] == b;
  }

  /** Size remains after the blocks, but no whole block within that size stands there. */
  ghost predicate Breaks(bytes: seq<Byte>, start: nat, size: U32, blocks: seq<Block>) {
    && TotalSize(blocks) < size
    && BadBlockAt(bytes, start + |EncodeAll(blocks)|, size - TotalSize(blocks))
  }

  lemma BreakHasNoNext(bytes: seq<Byte>, start: nat, size: U32, blocks: seq<Block>, b: Block)
    requires NextAt(bytes, start, size, blocks, b)
    ensures !Breaks(bytes, start, size, blocks)
  {
    BlockFields(bytes, start + |EncodeAll(blocks)|, b);
  }

  lemma BreakIsNoEnd(bytes: seq<Byte>, start: nat, size: U32, blocks: seq<Block>)
    requires Breaks(bytes, start, size, blocks)
    ensures !Ends(bytes, start, size, blocks)
  {
  }

  /** Where the blocks break off, the directory has no decoding. */
  lemma BrokenIsUnfinished(bytes: seq<Byte>, start: nat, size: U32, blocks: seq<Block>, t: seq<Block>)
    requires BlocksAre(bytes, start, size, blocks) && Breaks(bytes, start, size, blocks)
    ensures !Finished(bytes, start, size, t)
  {
    if Finished(bytes, start, size, t) {
      NothingAfter(bytes, start, size, t, blocks);
      BlocksAgree(bytes, start, size, blocks, t, |blocks|);
      assert blocks[..|blocks|] == blocks && t[..|t|] == t;
      BreakIsNoEnd(bytes, start, size, blocks);
      if |blocks| < |t| {
        EachBlock(bytes, start, size, t, |blocks|);
        BreakHasNoNext(bytes, start, size, blocks, t[|blocks|]);
      }
    }
  }

  /** In a file under four gibibytes, a whole block is no smaller than its header. */
  lemma BlockSizes(bytes: seq<Byte>, p: nat, b: Block)
    requires BlockAt(bytes, p, b) && |bytes| < 0x1_0000_0000
    ensures b.size >= 8 && |b.entries| == (b.size - 8) / 2
  {
    EntriesLength(b.entries);
    if b.size < 8 {
      SmallBlocksAreHuge(b.size);
    }
  }

  /** In a file under four gibibytes, every recorded block has its natural number of entries. */
  lemma AllBlockSizes(bytes: seq<Byte>, start: nat, size: U32, blocks: seq<Block>)
    requires BlocksAre(bytes, start, size, blocks) && |bytes| < 0x1_0000_0000
    ensures forall k :: 0 <= k < |blocks| ==> blocks[k].size >= 8 && |blocks[k].entries| == (blocks[k].size - 8) / 2
  {
    forall k | 0 <= k < |blocks| ensures blocks[k].size >= 8 && |blocks[k].entries| == (blocks[k].size - 8) / 2 {
      EachBlock(bytes, start, size, blocks, k);
      BlockSizes(bytes, start + |EncodeAll(blocks[..k])|, blocks[k]);
    }
  }

  /** The state of the loop: recorded sizes and remaining size make up the directory's size. */
  ghost predicate Parsing(bytes: seq<Byte>, start: nat, size: U32, blocks: seq<Block>, pos: nat, remaining: nat) {
    BlocksAre(bytes, start, size, blocks) && pos == start + |EncodeAll(blocks)| && TotalSize(blocks) + remaining == size
  }

  class RelocationTable {
    var blocks: seq<Block>

    constructor ()
      ensures blocks == []
    {
      blocks := [];
    }

    /** One round, which records the block if there is one. */
    method RecordBlock(f: File, remaining: nat, ghost start: nat, ghost size: U32) returns (r: BlockRead)
      requires Parsing(f.bytes, start, size, blocks, f.pos, remaining)
      modifies this, f
      ensures r.BadBlock? ==> blocks == old(blocks) && BadBlockAt(f.bytes, old(f.pos), remaining)
      ensures r.ZeroBlock? ==> blocks == old(blocks) && ZeroBlockAt(f.bytes, old(f.pos))
      ensures r.ABlock? ==> 0 < r.b.size <= remaining && Parsing(f.bytes, start, size, blocks, f.pos, remaining - r.b.size)
    {
      r := ReadBlock(f, remaining);
      if r.ABlock? {
        BlocksStep(f.bytes, start, size, blocks, r.b);
        blocks := blocks + [r.b];
      }
    }

    /** _parse_relocations.  It succeeds exactly when the directory has a decoding, which it records.
        Otherwise it has recorded the blocks up to where size remains but no whole block within that
        size stands. */
    method ParseRelocations(pe: Image, f: File, directories: Option<seq<Directory>>) returns (ok: bool)
      requires pe.alignment > 0 && f.bytes == pe.bytes && blocks == []
      requires directories.Some? ==> |directories.value| == 16
      modifies this, f
      ensures directories.None? ==> !ok && blocks == []
      ensures directories.Some? && !Reachable(pe, directories.value[5]) ==> ok && blocks == []
      ensures directories.Some? && Reachable(pe, directories.value[5]) ==>
        var d := directories.value[5];
        var start := RvaOffset(pe.sections, pe.alignment, d.virtualAddress);
        && BlocksAre(pe.bytes, start, d.size, blocks)
        && (ok <==> exists t :: Finished(pe.bytes, start, d.size, t))
        && (ok ==> Finished(pe.bytes, start, d.size, blocks))
        && (!ok ==> Breaks(pe.bytes, start, d.size, blocks))
      ensures |pe.bytes| < 0x1_0000_0000 ==>
        forall k :: 0 <= k < |blocks| ==> blocks[k].size >= 8 && |blocks[k].entries| == (blocks[k].size - 8) / 2
    {
      if directories.None? {
        return false;
      }
      var reached := ReachDirectory(pe, f, directories, BASERELOC);
      if !reached {
        return true;
      }
      ghost var start := f.pos;
      var size := directories.value[BASERELOC].size;
      ok := ParseBlocks(f, size, start);
      if !ok {
        forall t ensures !Finished(pe.bytes, start, size, t) {
          BrokenIsUnfinished(pe.bytes, start, size, blocks, t);
        }
      }
      if |pe.bytes| < 0x1_0000_0000 {
        AllBlockSizes(pe.bytes, start, size, blocks);
      }
    }

    /** The loop. */
    method ParseBlocks(f: File, size: U32, ghost start: nat) returns (ok: bool)
      requires blocks == [] && f.pos == start
      modifies this, f
      ensures BlocksAre(f.bytes, start, size, blocks)
      ensures ok ==> Finished(f.bytes, start, size, blocks)
      ensures !ok ==> Breaks(f.bytes, start, size, blocks)
    {
      var remaining: nat := size;
      while remaining > 0
        invariant Parsing(f.bytes, start, size, blocks, f.pos, remaining)
      {
        var r := RecordBlock(f, remaining, start, size);
        if r.BadBlock? {
          return false;
        } else if r.ZeroBlock? {
          return true;
        }
        remaining := remaining - r.b.size;
      }
      return true;
    }
  }
}
