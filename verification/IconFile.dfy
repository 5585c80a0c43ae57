/**
 Icon files: a directory of fixed-size entries followed by the images.  The executable keeps the
 directory and the images as separate resources, so a file is put together from them.
 */
module IconFile {
  import opened Options
  import opened Bytes
  import opened Sequences

  /** In a group, `id` names an image resource; in an icon file, it is the image's offset. */
  datatype Entry = Entry(
    width: Byte, height: Byte, colorCount: Byte, reserved: Byte,
    planes: U16, bitCount: U16, bytesInRes: U32, id: U32)

  datatype Directory = Directory(reserved: U16, kind: U16, count: U16, entries: seq<Entry>)

  datatype Resource = Resource(kind: string, id: U32, data: seq<Byte>)

  const ICON: U16 := 1
  const CURSOR: U16 := 2

  //////////////////////////////////////////////////////////////////////////////
  // The format
  //////////////////////////////////////////////////////////////////////////////

  /** The first eight bytes of an entry. */
  function EntryStart(e: Entry): (b: seq<Byte>)
    ensures |b| == 8
  {
    [e.width, e.height, e.colorCount, e.reserved] + ToLE(e.planes, 2) + ToLE(e.bitCount, 2)
  }

  function EntryBytes(e: Entry): (b: seq<Byte>)
    ensures |b| == 16
  {
    EntryStart(e) + ToLE(e.bytesInRes, 4) + ToLE(e.id, 4)
  }

  function HeaderBytes(d: Directory): (b: seq<Byte>)
    ensures |b| == 6
  {
    ToLE(d.reserved, 2) + ToLE(d.kind, 2) + ToLE(d.count, 2)
  }

  /** The bytes of the first `n` entries. */
  function EntriesBytes(entries: seq<Entry>, n: nat): (b: seq<Byte>)
    requires n <= |entries|
    ensures |b| == 16 * n
  {
    if n == 0 then [] else EntriesBytes(entries, n - 1) + EntryBytes(entries[n - 1])
  }

  function EntryOf(b: seq<Byte>): Entry
    requires |b| == 16
  {
    Entry(b[0], b[1], b[2], b[3], LE16(b[4..6]), LE16(b[6..8]), LE32(b[8..12]), LE32(b[12..16]))
  }

  /** Which bytes of an entry hold what. */
  lemma EntryLayout(e: Entry)
    ensures
      var b := EntryBytes(e);
      && b[0] == e.width && b[1] == e.height && b[2] == e.colorCount && b[3] == e.reserved
      && b[4..6] == ToLE(e.planes, 2) && b[6..8] == ToLE(e.bitCount, 2)
      && b[8..12] == ToLE(e.bytesInRes, 4) && b[12..16] == ToLE(e.id, 4)
  {
    var start, b := [e.width, e.height, e.colorCount, e.reserved], EntryBytes(e);
    PartsOfEntry(start, ToLE(e.planes, 2), ToLE(e.bitCount, 2), ToLE(e.bytesInRes, 4), ToLE(e.id, 4), b);
    assert b[0] == b[..4][0] && b[1] == b[..4][1] && b[2] == b[..4][2] && b[3] == b[..4][3];
  }

  /** Reading sixteen bytes as an entry loses nothing. */
  lemma EntryBytesOf(b: seq<Byte>)
    requires |b| == 16
    ensures EntryBytes(EntryOf(b)) == b
  {
    ToLEInverse(b[4..6]);
    ToLEInverse(b[6..8]);
    ToLEInverse(b[8..12]);
    ToLEInverse(b[12..16]);
    FourParts(b);
    assert EntryStart(EntryOf(b)) == b[..8];
  }

  lemma FourParts(b: seq<Byte>)
    requires |b| == 16
    ensures b[..8] + b[8..12] + b[12..16] == b
    ensures [b[0], b[1], b[2], b[3]] + b[4..6] + b[6..8] == b[..8]
  {
  }

  lemma PartsOfEntry(start: seq<Byte>, p: seq<Byte>, q: seq<Byte>, r: seq<Byte>, s: seq<Byte>, b: seq<Byte>)
    requires |start| == 4 && |p| == 2 && |q| == 2 && |r| == 4 && |s| == 4 && b == start + p + q + r + s
    ensures b[..4] == start && b[4..6] == p && b[6..8] == q && b[8..12] == r && b[12..16] == s
  {
  }

  lemma EntryOfBytes(e: Entry)
    ensures EntryOf(EntryBytes(e)) == e
  {
    LE16Inverse(e.planes);
    LE16Inverse(e.bitCount);
    LE32Inverse(e.bytesInRes);
    LE32Inverse(e.id);
    EntryLayout(e);
  }

  //////////////////////////////////////////////////////////////////////////////
  // Reading the directory of an icon file
  //////////////////////////////////////////////////////////////////////////////

  /** The directory `d` stands at `p` in the buffer. */
  ghost predicate DirectoryAt(buffer: seq<Byte>, p: nat, d: Directory) {
    && |d.entries| == d.count && p + 6 + 16 * d.count <= |buffer|
    && buffer[p..p + 6] == HeaderBytes(d)
    && buffer[p + 6..p + 6 + 16 * d.count] == EntriesBytes(d.entries, d.count)
  }

  /** ico_header_read: the buffer must hold the whole directory. */
  method IcoHeaderRead(buffer: seq<Byte>, start: nat) returns (d: Directory, next: nat)
    requires start + 6 <= |buffer| && start + 6 + 16 * LE16(buffer[start + 4..start + 6]) <= |buffer|
    ensures DirectoryAt(buffer, start, d) && next == start + 6 + 16 * d.count
  {
    var reserved := LE16(buffer[start..start + 2]);
    var kind := LE16(buffer[start + 2..start + 4]);
    var count := LE16(buffer[start + 4..start + 6]);
    next := start + 6;
    var entries: seq<Entry> := [];
    for i := 0 to count
      invariant |entries| == i && next == start + 6 + 16 * i
      invariant buffer[start + 6..next] == EntriesBytes(entries, i)
    {
      EntriesStep(buffer, start + 6, next, entries);
      entries := entries + [EntryOf(buffer[next..next + 16])];
      next := next + 16;
    }
    d := Directory(reserved, kind, count, entries);
    HeaderRead(buffer, start, d);
  }

  lemma HeaderRead(buffer: seq<Byte>, p: nat, d: Directory)
    requires p + 6 <= |buffer|
    requires d.reserved == LE16(buffer[p..p + 2])
    requires d.kind == LE16(buffer[p + 2..p + 4]) && d.count == LE16(buffer[p + 4..p + 6])
    ensures HeaderBytes(d) == buffer[p..p + 6]
  {
    ToLEInverse(buffer[p..p + 2]);
    ToLEInverse(buffer[p + 2..p + 4]);
    ToLEInverse(buffer[p + 4..p + 6]);
    assert buffer[p..p + 2] + buffer[p + 2..p + 4] + buffer[p + 4..p + 6] == buffer[p..p + 6];
  }

  lemma EntriesStep(buffer: seq<Byte>, from: nat, next: nat, entries: seq<Entry>)
    requires from <= next && next + 16 <= |buffer| && buffer[from..next] == EntriesBytes(entries, |entries|)
    ensures
      var all := entries + [EntryOf(buffer[next..next + 16])];
      EntriesBytes(all, |all|) == buffer[from..next + 16]
  {
    var e := EntryOf(buffer[next..next + 16]);
    EntryBytesOf(buffer[next..next + 16]);
    EntriesPrefix(entries, entries + [e], |entries|);
    assert buffer[from..next] + buffer[next..next + 16] == buffer[from..next + 16];
  }

  lemma {:induction false} EntriesPrefix(a: seq<Entry>, b: seq<Entry>, n: nat)
    requires n <= |a| && n <= |b| && a[..n] == b[..n]
    ensures EntriesBytes(a, n) == EntriesBytes(b, n)
  {
    if n > 0 {
      assert a[..n][n - 1] == a[n - 1] && b[..n][n - 1] == b[n - 1];
      assert a[..n - 1] == a[..n][..n - 1] && b[..n - 1] == b[..n][..n - 1];
      EntriesPrefix(a, b, n - 1);
    }
  }

  lemma {:induction false} EntriesInjective(a: seq<Entry>, b: seq<Entry>, n: nat)
    requires n <= |a| && n <= |b| && EntriesBytes(a, n) == EntriesBytes(b, n)
    ensures a[..n] == b[..n]
  {
    if n > 0 {
      SameStart(EntriesBytes(a, n - 1), EntryBytes(a[n - 1]), EntriesBytes(b, n - 1), EntryBytes(b[n - 1]));
      EntryOfBytes(a[n - 1]);
      EntryOfBytes(b[n - 1]);
      EntriesInjective(a, b, n - 1);
      assert a[..n] == a[..n - 1] + [a[n - 1]] && b[..n] == b[..n - 1] + [b[n - 1]];
    }
  }

  lemma HeaderInjective(d: Directory, e: Directory)
    requires HeaderBytes(d) == HeaderBytes(e)
    ensures d.reserved == e.reserved && d.kind == e.kind && d.count == e.count
  {
    LE16Inverse(d.reserved);
    LE16Inverse(e.reserved);
    LE16Inverse(d.kind);
    LE16Inverse(e.kind);
    LE16Inverse(d.count);
    LE16Inverse(e.count);
    var a, b, c := ToLE(d.reserved, 2), ToLE(d.kind, 2), ToLE(d.count, 2);
    var x, y, z := ToLE(e.reserved, 2), ToLE(e.kind, 2), ToLE(e.count, 2);
    SameStart(a + b, c, x + y, z);
    SameStart(a, b, x, y);
  }

  /** Only one directory can be read at a place. */
  lemma DirectoryIsUnique(buffer: seq<Byte>, p: nat, d: Directory, e: Directory)
    requires DirectoryAt(buffer, p, d) && DirectoryAt(buffer, p, e)
    ensures d == e
  {
    HeaderInjective(d, e);
    EntriesInjective(d.entries, e.entries, d.count);
    assert d.entries == d.entries[..d.count] && e.entries == e.entries[..d.count];
  }

  //////////////////////////////////////////////////////////////////////////////
  // Putting an icon file together
  //////////////////////////////////////////////////////////////////////////////

  /** The resource type of the images of a group. */
  predicate Matches(r: Resource, kind: U16, id: U32) {
    r.id == id && ((r.kind == "RT_ICON" && kind == ICON) || (r.kind == "RT_CURSOR" && kind == CURSOR))
  }

  /** The first matching resource. */
  function Locate(resources: seq<Resource>, kind: U16, id: U32): (r: Option<Resource>)
    ensures r.None? <==> forall x <- resources :: !Matches(x, kind, id)
    ensures r.Some? ==> r.value in resources && Matches(r.value, kind, id)
  {
    if resources == [] then None
    else if Matches(resources[0], kind, id) then Some(resources[0])
    else
      assert forall x <- resources :: x == resources[0] || x in resources[1..];
      Locate(resources[1..], kind, id)
  }

  method LocateResource(resources: seq<Resource>, kind: U16, id: U32) returns (r: Option<Resource>)
    ensures r == Locate(resources, kind, id)
  {
    assert resources[0..] == resources;
    for i := 0 to |resources|
      invariant Locate(resources, kind, id) == Locate(resources[i..], kind, id)
    {
      assert resources[i..][0] == resources[i] && resources[i..][1..] == resources[i + 1..];
      if Matches(resources[i], kind, id) {
        return Some(resources[i]);
      }
    }
    return None;
  }

  /** The type that the images of icon groups, 1, and of cursor groups, 2, have among the resources. */
  function ImageType(kind: U16): string {
    if kind == 1 then "RT_ICON" else "RT_CURSOR"
  }

  /** Resource `k` is the first of the right type and identifier. */
  ghost predicate FirstImage(resources: seq<Resource>, kind: U16, id: U32, k: nat) {
    && k < |resources| && 1 <= kind <= 2
    && resources[k].kind == ImageType(kind) && resources[k].id == id
    && forall j :: 0 <= j < k ==> resources[j].kind != ImageType(kind) || resources[j].id != id
  }

  lemma {:induction false} LocateFirst(resources: seq<Resource>, kind: U16, id: U32, k: nat)
    requires FirstImage(resources, kind, id, k)
    ensures Locate(resources, kind, id) == Some(resources[k])
    decreases k
  {
    if k > 0 {
      LocateFirst(resources[1..], kind, id, k - 1);
    }
  }

  lemma {:induction false} LocateNone(resources: seq<Resource>, kind: U16, id: U32)
    requires !exists k: nat :: FirstImage(resources, kind, id, k)
    ensures Locate(resources, kind, id) == None
  {
    if Locate(resources, kind, id).Some? {
      var k := SomeFirst(resources, kind, id);
    }
  }

  lemma {:induction false} SomeFirst(resources: seq<Resource>, kind: U16, id: U32) returns (k: nat)
    requires Locate(resources, kind, id).Some?
    ensures FirstImage(resources, kind, id, k)
    decreases |resources|
  {
    if Matches(resources[0], kind, id) {
      k := 0;
    } else {
      var j := SomeFirst(resources[1..], kind, id);
      k := j + 1;
    }
  }

  predicate Found(g: Directory, resources: seq<Resource>, i: nat)
    requires i < |g.entries|
  {
    Locate(resources, g.kind, g.entries[i].id).Some?
  }

  /** A cursor needs more than the four bytes of its hotspot, in fact and in its entry. */
  predicate Usable(kind: U16, e: Entry, data: seq<Byte>) {
    kind == ICON || (|data| > 4 && e.bytesInRes > 4)
  }

  predicate UsableAt(g: Directory, resources: seq<Resource>, i: nat)
    requires i < |g.entries| && Found(g, resources, i)
  {
    Usable(g.kind, g.entries[i], Locate(resources, g.kind, g.entries[i].id).value.data)
  }

  /** The part of a resource that goes into the file: cursors lose their hotspot. */
  function Image(kind: U16, data: seq<Byte>): seq<Byte> {
    if kind == ICON then data else if |data| > 4 then data[4..] else []
  }

  function ImageOf(g: Directory, resources: seq<Resource>, i: nat): seq<Byte>
    requires i < |g.entries|
  {
    match Locate(resources, g.kind, g.entries[i].id)
    case None => []
    case Some(r) => Image(g.kind, r.data)
  }

  /** Which bytes of which resource make the image of an entry: all of them for an icon, and those
      after the hotspot for a cursor. */
  lemma ImageIsData(g: Directory, resources: seq<Resource>, i: nat, k: nat)
    requires i < |g.entries| && FirstImage(resources, g.kind, g.entries[i].id, k)
    ensures g.kind == 1 ==> ImageOf(g, resources, i) == resources[k].data
    ensures g.kind == 2 && |resources[k].data| > 4 ==> ImageOf(g, resources, i) == resources[k].data[4..]
  {
    LocateFirst(resources, g.kind, g.entries[i].id, k);
  }

  function Images(g: Directory, resources: seq<Resource>): (images: seq<seq<Byte>>)
    ensures |images| == |g.entries|
  {
    seq(|g.entries|, i requires 0 <= i < |g.entries| => ImageOf(g, resources, i))
  }

  /** The first `n` images, one after the other. */
  function Joined(images: seq<seq<Byte>>, n: nat): seq<Byte>
    requires n <= |images|
  {
    if n == 0 then [] else Joined(images, n - 1) + images[n - 1]
  }

  /** Where the i-th image starts. */
  function Offset(images: seq<seq<Byte>>, i: nat): nat
    requires i <= |images|
  {
    6 + 16 * |images| + |Joined(images, i)|
  }

  /** The entry as written: the offset, as a 32-bit number, takes the place of the id. */
  function Placed(kind: U16, e: Entry, offset: nat): Entry {
    var size := if kind != ICON && e.bytesInRes > 4 then e.bytesInRes - 4 else e.bytesInRes;
    e.(bytesInRes := size, id := offset % 0x1_0000_0000)
  }

  function PlacedEntries(g: Directory, images: seq<seq<Byte>>): (entries: seq<Entry>)
    requires |images| == |g.entries|
    ensures |entries| == |g.entries|
  {
    seq(|g.entries|, i requires 0 <= i < |g.entries| => Placed(g.kind, g.entries[i], Offset(images, i)))
  }

  /** The directory of the icon file. */
  function PlacedDirectory(g: Directory, images: seq<seq<Byte>>): Directory
    requires |images| == |g.entries|
  {
    g.(entries := PlacedEntries(g, images))
  }

  function Zeros(n: nat): (z: seq<Byte>)
    ensures |z| == n
  {
    seq(n, _ => 0)
  }

  /** The buffer after `i` rounds: the entries still to come are zero. */
  function Buffer(g: Directory, images: seq<seq<Byte>>, i: nat): seq<Byte>
    requires i <= |images| == |g.entries|
  {
    HeaderBytes(g) + EntriesBytes(PlacedEntries(g, images), i) + Zeros(16 * (|images| - i)) + Joined(images, i)
  }

  lemma Regroup(a: seq<Byte>, b: seq<Byte>, c: seq<Byte>, d: seq<Byte>, e: seq<Byte>, f: seq<Byte>)
    ensures a + b + c + (d + e + f) == a + (b + c + d) + e + f
  {
    var abc := a + b + c;
    Assoc(a, b, c);
    Assoc(a, b + c, d);
    Assoc(abc, d, e);
    Assoc(abc, d + e, f);
  }

  /** One round on its parts: `a` is done, `z` is to be overwritten, `j` are the images so far. */
  lemma PatchEntry(a: seq<Byte>, z: seq<Byte>, j: seq<Byte>, start: seq<Byte>, size: seq<Byte>, offset: seq<Byte>)
    requires |start| == 8 && |size| == 4 && |offset| == 4 && |z| >= 16
    ensures Patch(Patch(a + z + j, |a|, start + size), |a| + 12, offset) == a + (start + size + offset) + z[16..] + j
  {
    var x, y := z[..12], z[12..16];
    assert z == x + (y + z[16..]);
    Assoc(a, x, y + z[16..]);
    Assoc(a + x, y + z[16..], j);
    PatchMiddle(a, x, y + z[16..] + j, start + size);
    Assoc(y, z[16..], j);
    Assoc(a + (start + size), y, z[16..] + j);
    PatchMiddle(a + (start + size), y, z[16..] + j, offset);
    Assoc(a, start + size, offset);
    Assoc(a + (start + size + offset), z[16..], j);
  }

  /** The size of a cursor is patched once more, when its image is already in place. */
  lemma PatchSize(a: seq<Byte>, start: seq<Byte>, size: seq<Byte>, offset: seq<Byte>, z: seq<Byte>, j: seq<Byte>, other: seq<Byte>)
    requires |start| == 8 && |size| == |other| == 4
    ensures Patch(a + (start + size + offset) + z + j, |a| + 8, other) == a + (start + other + offset) + z + j
  {
    Regroup(a, start, size, offset, z, j);
    PatchMiddle(a + start, size, offset + z + j, other);
    Regroup(a, start, other, offset, z, j);
  }

  /** The buffer once the i-th entry is written with `size` and its image appended. */
  function AfterImage(g: Directory, images: seq<seq<Byte>>, i: nat, size: U32): seq<Byte>
    requires i < |images| == |g.entries|
  {
    HeaderBytes(g) + EntriesBytes(PlacedEntries(g, images), i)
    + EntryBytes(g.entries[i].(bytesInRes := size, id := Offset(images, i) % 0x1_0000_0000))
    + Zeros(16 * (|images| - i - 1)) + Joined(images, i + 1)
  }

  /** The two patches and the append of a round. */
  function RoundOnce(res: seq<Byte>, i: nat, e: Entry, image: seq<Byte>): seq<Byte>
    requires 6 + 16 * (i + 1) <= |res|
  {
    var copied := Patch(res, 6 + 16 * i, EntryStart(e) + ToLE(e.bytesInRes, 4));
    Patch(copied, 6 + 16 * (i + 1) - 4, ToLE(|res| % 0x1_0000_0000, 4)) + image
  }

  lemma BufferSize(g: Directory, images: seq<seq<Byte>>, i: nat)
    requires i <= |images| == |g.entries|
    ensures |Buffer(g, images, i)| == Offset(images, i)
  {
  }

  lemma RoundParts(
      h: seq<Byte>, es: seq<Byte>, z: seq<Byte>, j: seq<Byte>, i: nat,
      start: seq<Byte>, size: seq<Byte>, offset: seq<Byte>, image: seq<Byte>)
    requires |h| == 6 && |es| == 16 * i && |z| >= 16 && |start| == 8 && |size| == 4 && |offset| == 4
    ensures Patch(Patch(h + es + z + j, 6 + 16 * i, start + size), 6 + 16 * (i + 1) - 4, offset) + image
         == h + es + (start + size + offset) + z[16..] + (j + image)
  {
    PatchEntry(h + es, z, j, start, size, offset);
    Assoc(h + es + (start + size + offset) + z[16..], j, image);
  }

  lemma RoundWrites(g: Directory, images: seq<seq<Byte>>, i: nat)
    requires i < |images| == |g.entries|
    ensures 6 + 16 * (i + 1) <= |Buffer(g, images, i)|
    ensures RoundOnce(Buffer(g, images, i), i, g.entries[i], images[i]) == AfterImage(g, images, i, g.entries[i].bytesInRes)
  {
    var e := g.entries[i];
    var z := Zeros(16 * (|images| - i));
    BufferSize(g, images, i);
    assert z[16..] == Zeros(16 * (|images| - i - 1));
    RoundParts(HeaderBytes(g), EntriesBytes(PlacedEntries(g, images), i), z, Joined(images, i), i,
               EntryStart(e), ToLE(e.bytesInRes, 4), ToLE(Offset(images, i) % 0x1_0000_0000, 4), images[i]);
  }

  /** With the right size, the round is complete. */
  lemma RoundCompletes(g: Directory, images: seq<seq<Byte>>, i: nat)
    requires i < |images| == |g.entries|
    ensures AfterImage(g, images, i, Placed(g.kind, g.entries[i], 0).bytesInRes) == Buffer(g, images, i + 1)
  {
    var es := PlacedEntries(g, images);
    Assoc(HeaderBytes(g), EntriesBytes(es, i), EntryBytes(es[i]));
  }

  lemma RoundResizes(g: Directory, images: seq<seq<Byte>>, i: nat, size: U32)
    requires i < |images| == |g.entries|
    ensures 6 + 16 * i + 12 <= |AfterImage(g, images, i, g.entries[i].bytesInRes)|
    ensures Patch(AfterImage(g, images, i, g.entries[i].bytesInRes), 6 + 16 * i + 8, ToLE(size, 4)) == AfterImage(g, images, i, size)
  {
    var e := g.entries[i];
    PatchSize(HeaderBytes(g) + EntriesBytes(PlacedEntries(g, images), i), EntryStart(e), ToLE(e.bytesInRes, 4),
              ToLE(Offset(images, i) % 0x1_0000_0000, 4), Zeros(16 * (|images| - i - 1)), Joined(images, i + 1), ToLE(size, 4));
  }

  lemma BufferAtStart(g: Directory, images: seq<seq<Byte>>)
    requires |images| == |g.entries|
    ensures Patch(Zeros(6 + 16 * |images|), 0, HeaderBytes(g)) == Buffer(g, images, 0)
  {
    assert Zeros(6 + 16 * |images|)[6..] == Zeros(16 * |images|);
  }

  datatype Outcome = Failed | Built(bytes: seq<Byte>)

  ghost predicate FoundUpTo(g: Directory, resources: seq<Resource>, n: nat)
    requires n <= |g.entries|
  {
    forall i: nat :: i < n ==> Found(g, resources, i)
  }

  /** After an unusable cursor the source empties the buffer and then writes the next entry into it,
      out of bounds; so such a cursor, when it is reached, may only come last. */
  ghost predicate Defined(g: Directory, resources: seq<Resource>) {
    |g.entries| <= |resources| ==>
      forall i: nat :: i + 1 < |g.entries| && FoundUpTo(g, resources, i + 1) ==> UsableAt(g, resources, i)
  }

  ghost predicate UsableUpTo(g: Directory, resources: seq<Resource>, n: nat)
    requires n <= |g.entries|
  {
    forall i: nat :: i < n ==> Found(g, resources, i) && UsableAt(g, resources, i)
  }

  /** One round of the loop, on a buffer that has the first `i` entries and images. */
  method AddImage(g: Directory, resources: seq<Resource>, i: nat, res: seq<Byte>, data: seq<Byte>) returns (r: seq<Byte>)
    requires i < |g.entries| && Found(g, resources, i) && data == Locate(resources, g.kind, g.entries[i].id).value.data
    requires res == Buffer(g, Images(g, resources), i)
    ensures r == if UsableAt(g, resources, i) then Buffer(g, Images(g, resources), i + 1) else []
  {
    var e := g.entries[i];
    ghost var images := Images(g, resources);
    RoundWrites(g, images, i);
    RoundCompletes(g, images, i);
    var sizeFix := |res| % 0x1_0000_0000;
    r := Patch(res, 6 + 16 * i, EntryStart(e) + ToLE(e.bytesInRes, 4));
    r := Patch(r, 6 + 16 * (i + 1) - 4, ToLE(sizeFix, 4));
    if g.kind == ICON {
      r := r + data;
    } else if |data| > 4 && e.bytesInRes > 4 {
      r := r + data[4..];
      RoundResizes(g, images, i, e.bytesInRes - 4);
      r := Patch(r, 6 + 16 * i + 8, ToLE(e.bytesInRes - 4, 4));
    } else {
      r := [];
    }
  }

  /** The state before round `i`. */
  ghost predicate Progress(g: Directory, resources: seq<Resource>, i: nat, res: seq<Byte>)
    requires i <= |g.entries|
  {
    && FoundUpTo(g, resources, i)
    && res == if UsableUpTo(g, resources, i) then Buffer(g, Images(g, resources), i) else []
  }

  /** There is a next round only after usable images. */
  lemma StillUsable(g: Directory, resources: seq<Resource>, i: nat, res: seq<Byte>)
    requires i < |g.entries| <= |resources| && Defined(g, resources) && Progress(g, resources, i, res)
    ensures UsableUpTo(g, resources, i) && res == Buffer(g, Images(g, resources), i)
  {
    forall j: nat | j < i ensures Found(g, resources, j) && UsableAt(g, resources, j) {
      assert FoundUpTo(g, resources, j + 1);
    }
  }

  lemma ProgressStep(g: Directory, resources: seq<Resource>, i: nat, res: seq<Byte>)
    requires i < |g.entries| && UsableUpTo(g, resources, i) && Found(g, resources, i)
    requires res == if UsableAt(g, resources, i) then Buffer(g, Images(g, resources), i + 1) else []
    ensures Progress(g, resources, i + 1, res)
  {
    if UsableAt(g, resources, i) {
      assert UsableUpTo(g, resources, i + 1);
    } else {
      assert !UsableUpTo(g, resources, i + 1);
    }
  }

  /** reconstruct_icon.  It fails exactly when there are fewer resources than entries or an image is
      missing; otherwise the buffer holds the placed directory and all the images, or nothing when
      the last cursor is unusable. */
  method ReconstructIcon(g: Directory, resources: seq<Resource>) returns (r: Outcome)
    requires |g.entries| == g.count && Defined(g, resources)
    ensures r.Failed? <==> g.count > |resources| || !FoundUpTo(g, resources, g.count)
    ensures r.Built? && UsableUpTo(g, resources, g.count) ==> r.bytes == Buffer(g, Images(g, resources), g.count)
    ensures r.Built? && !UsableUpTo(g, resources, g.count) ==> r.bytes == []
  {
    if g.count > |resources| {
      return Failed;
    }
    var res := Zeros(6 + 16 * g.count);
    BufferAtStart(g, Images(g, resources));
    res := Patch(res, 0, HeaderBytes(g));
    for i := 0 to g.count
      invariant Progress(g, resources, i, res)
    {
      var icon := LocateResource(resources, g.kind, g.entries[i].id);
      if icon.None? {
        assert !Found(g, resources, i);
        return Failed;
      }
      StillUsable(g, resources, i, res);
      res := AddImage(g, resources, i, res, icon.value.data);
      ProgressStep(g, resources, i, res);
    }
    return Built(res);
  }

  //////////////////////////////////////////////////////////////////////////////
  // Round trip
  //////////////////////////////////////////////////////////////////////////////

  /** The images tile the buffer after the directory, in order and without gaps. */
  lemma {:induction false} ImagesTile(images: seq<seq<Byte>>, i: nat, n: nat)
    requires i < n <= |images|
    ensures Offset(images, 0) == 6 + 16 * |images|
    ensures Offset(images, i + 1) == Offset(images, i) + |images[i]| <= Offset(images, n)
    ensures Joined(images, n)[|Joined(images, i)|..|Joined(images, i + 1)|] == images[i]
  {
    if n == i + 1 {
      assert Joined(images, n) == Joined(images, i) + images[i];
    } else {
      ImagesTile(images, i, n - 1);
      var a, b := |Joined(images, i)|, |Joined(images, i + 1)|;
      assert Joined(images, n)[a..b] == Joined(images, n - 1)[a..b];
    }
  }

  lemma SliceOfTail(a: seq<Byte>, b: seq<Byte>, x: nat, y: nat)
    requires x <= y <= |b|
    ensures (a + b)[|a| + x..|a| + y] == b[x..y]
  {
  }

  /** The i-th image stands at its offset, whatever was patched later. */
  lemma ImageInPlace(g: Directory, images: seq<seq<Byte>>, i: nat)
    requires i < |images| == |g.entries|
    ensures Offset(images, i + 1) <= |Buffer(g, images, |images|)| == Offset(images, |images|)
    ensures Buffer(g, images, |images|)[Offset(images, i)..Offset(images, i + 1)] == images[i]
  {
    var n := |images|;
    BufferSize(g, images, n);
    ImagesTile(images, i, n);
    var a := HeaderBytes(g) + EntriesBytes(PlacedEntries(g, images), n) + Zeros(0);
    SliceOfTail(a, Joined(images, n), |Joined(images, i)|, |Joined(images, i + 1)|);
  }

  lemma BufferHasDirectory(g: Directory, images: seq<seq<Byte>>)
    requires |images| == |g.entries| == g.count
    ensures DirectoryAt(Buffer(g, images, |images|), 0, PlacedDirectory(g, images))
  {
    var h, es, j := HeaderBytes(g), EntriesBytes(PlacedEntries(g, images), |images|), Joined(images, |images|);
    assert Zeros(0) == [];
    HeadAndBody(h, es, j);
    assert h == HeaderBytes(PlacedDirectory(g, images));
  }

  lemma HeadAndBody(h: seq<Byte>, es: seq<Byte>, j: seq<Byte>)
    ensures (h + es + [] + j)[0..|h|] == h && (h + es + [] + j)[|h|..|h| + |es|] == es
  {
  }

  /** A file that was put together meets what ico_header_read asks of its buffer. */
  lemma BufferIsReadable(g: Directory, images: seq<seq<Byte>>)
    requires |images| == |g.entries| == g.count
    ensures
      var buffer := Buffer(g, images, g.count);
      6 <= |buffer| && 6 + 16 * LE16(buffer[4..6]) <= |buffer|
  {
    var buffer := Buffer(g, images, g.count);
    BufferSize(g, images, g.count);
    BufferHasDirectory(g, images);
    CountInHeader(g, buffer);
  }

  lemma CountInHeader(g: Directory, buffer: seq<Byte>)
    requires 6 <= |buffer| && buffer[0..6] == HeaderBytes(g)
    ensures LE16(buffer[4..6]) == g.count
  {
    LE16Inverse(g.count);
    var h := ToLE(g.reserved, 2) + ToLE(g.kind, 2);
    assert (h + ToLE(g.count, 2))[4..6] == ToLE(g.count, 2);
    assert buffer[0..6][4..6] == buffer[4..6];
  }

  /** The offset of the i-th entry leads to the image, which ends where the next one starts. */
  ghost predicate EntryLeadsTo(buffer: seq<Byte>, d: Directory, i: nat, image: seq<Byte>)
    requires i < |d.entries|
  {
    var offset := d.entries[i].id;
    var end := offset + |image|;
    && end <= |buffer| && buffer[offset..end] == image
    && end == if i + 1 < |d.entries| then d.entries[i + 1].id else |buffer|
  }

  lemma PlacedAt(g: Directory, images: seq<seq<Byte>>, i: nat)
    requires i < |images| == |g.entries| && Offset(images, |images|) < 0x1_0000_0000
    ensures PlacedDirectory(g, images).entries[i].id == Offset(images, i)
  {
    ImagesTile(images, i, |images|);
  }

  lemma PlacedLeadsTo(g: Directory, images: seq<seq<Byte>>, i: nat)
    requires i < |images| == |g.entries| && Offset(images, |images|) < 0x1_0000_0000
    ensures EntryLeadsTo(Buffer(g, images, |images|), PlacedDirectory(g, images), i, images[i])
  {
    ImageInPlace(g, images, i);
    ImagesTile(images, i, |images|);
    PlacedAt(g, images, i);
    if i + 1 < |images| {
      PlacedAt(g, images, i + 1);
    }
  }

  /** Reading back a file that was put together gives the group's directory with each id replaced
      by the place of its image, where exactly that image stands; the images fill the rest. */
  lemma IconRoundTrip(g: Directory, images: seq<seq<Byte>>, d: Directory)
    requires |images| == |g.entries| == g.count
    requires DirectoryAt(Buffer(g, images, g.count), 0, d)
    ensures d == PlacedDirectory(g, images)
    ensures |Buffer(g, images, g.count)| == Offset(images, g.count) && Offset(images, 0) == 6 + 16 * g.count
    ensures |Buffer(g, images, g.count)| < 0x1_0000_0000 ==>
      forall i: nat :: i < g.count ==> EntryLeadsTo(Buffer(g, images, g.count), d, i, images[i])
  {
    var buffer := Buffer(g, images, g.count);
    BufferHasDirectory(g, images);
    DirectoryIsUnique(buffer, 0, d, PlacedDirectory(g, images));
    BufferSize(g, images, g.count);
    if |buffer| < 0x1_0000_0000 {
      forall i: nat | i < g.count ensures EntryLeadsTo(buffer, d, i, images[i]) {
        PlacedLeadsTo(g, images, i);
      }
    }
  }
}
