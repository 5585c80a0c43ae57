/**
 The RICH header: found forwards by its magic, then read backwards, two words at a time and
 masked with a key, to its start marker.
 */
module RichHeader {
  import opened Options
  import opened Bytes
  import opened Sequences
  import opened PeFile
  import opened Xor

  const RICH: U32 := 0x68636952
  const DANS: U32 := 0x536E6144

  /** One tool: its identifier, product identifier and use count. */
  datatype CompId = CompId(id: U16, product: U16, count: U32)

  datatype Header = Header(xorKey: U32, fileOffset: nat, values: seq<CompId>)

  function Word(bytes: seq<Byte>, p: nat): U32
    requires p + 4 <= |bytes|
  {
    LE32(bytes[p..p + 4])
  }

  //////////////////////////////////////////////////////////////////////////////
  // Finding the magic
  //////////////////////////////////////////////////////////////////////////////

  predicate IsMagic(bytes: seq<Byte>, p: nat) {
    p + 4 <= |bytes| && Word(bytes, p) == RICH
  }

  ghost predicate NoMagicBefore(bytes: seq<Byte>, p: nat) {
    forall q: nat :: q < p && q % 4 == 0 ==> !IsMagic(bytes, q)
  }

  /** `m` is the first aligned position with the magic, and it is at 0 or before the PE header. */
  ghost predicate MagicAt(bytes: seq<Byte>, lfanew: int, m: nat) {
    m % 4 == 0 && IsMagic(bytes, m) && (m > 0 ==> m < lfanew) && NoMagicBefore(bytes, m)
  }

  lemma NoMagicStep(bytes: seq<Byte>, p: nat)
    requires p % 4 == 0 && NoMagicBefore(bytes, p) && !IsMagic(bytes, p)
    ensures NoMagicBefore(bytes, p + 4)
  {
  }

  /** From `p` on, the file or the room before the PE header is too short for a magic. */
  lemma NoMagicLeft(bytes: seq<Byte>, lfanew: int, p: nat)
    requires p % 4 == 0 && NoMagicBefore(bytes, p)
    requires |bytes| < p + 4 || (p > 0 && lfanew <= p)
    ensures forall m: nat :: !MagicAt(bytes, lfanew, m)
  {
    forall m: nat ensures !MagicAt(bytes, lfanew, m) {
      assert m < p && m % 4 == 0 ==> !IsMagic(bytes, m);
    }
  }

  method FindMagic(f: File, lfanew: int) returns (r: Option<nat>)
    modifies f
    ensures r.Some? ==> MagicAt(f.bytes, lfanew, r.value) && f.pos == r.value + 4
    ensures r.None? ==> forall m: nat :: !MagicAt(f.bytes, lfanew, m)
  {
    f.Seek(0);
    var p: nat := 0;
    while true
      invariant p % 4 == 0 && f.pos == p && p <= |f.bytes| && (p > 0 ==> p < lfanew)
      invariant NoMagicBefore(f.bytes, p)
      decreases |f.bytes| - p
    {
      var data := f.Read(4);
      if |data| != 4 {
        NoMagicLeft(f.bytes, lfanew, p);
        return None;
      }
      if LE32(data) == RICH {
        return Some(p);
      }
      NoMagicStep(f.bytes, p);
      if lfanew - (p + 4) <= 0 {
        NoMagicLeft(f.bytes, lfanew, p + 4);
        return None;
      }
      p := p + 4;
    }
  }

  //////////////////////////////////////////////////////////////////////////////
  // Walking backwards
  //////////////////////////////////////////////////////////////////////////////

  function Id(v: CompId): U32 {
    v.id * 0x1_0000 + v.product
  }

  /** The identifier is the upper half of the word, the product the lower. */
  lemma HalvesOfId(v: CompId)
    ensures Id(v) / 0x1_0000 == v.id && Id(v) % 0x1_0000 == v.product
  {
  }

  /** The eight bytes that stand for a value under a key. */
  function EncodeValue(key: U32, v: CompId): seq<Byte> {
    ToLE(Xor32(Id(v), key), 4) + ToLE(Xor32(v.count, key), 4)
  }

  function EncodeValues(key: U32, values: seq<CompId>): seq<Byte> {
    FlatMap(v => EncodeValue(key, v), values)
  }

  function Decode(key: U32, data: seq<Byte>): CompId
    requires |data| == 8
  {
    // The 64-bit word is split into its halves before unmasking.
    var count := Xor32(LE64(data) / 0x1_0000_0000, key);
    var id := Xor32(LE64(data) % 0x1_0000_0000, key);
    CompId(id / 0x1_0000, id % 0x1_0000, count)
  }

  predicate StartMarkerAt(bytes: seq<Byte>, key: U32, q: int) {
    0 <= q && q + 8 <= |bytes| && Xor32(Word(bytes, q), key) == DANS
  }

  lemma DecodeHalves(data: seq<Byte>, key: U32)
    requires |data| == 8
    ensures Id(Decode(key, data)) == Xor32(LE32(data[..4]), key)
    ensures Decode(key, data).count == Xor32(LE32(data[4..]), key)
  {
    LE64Halves(data);
    Halves(LE64(data), LE32(data[..4]), LE32(data[4..]));
  }

  lemma Halves(x: nat, lo: U32, hi: U32)
    requires x == lo + 0x1_0000_0000 * hi
    ensures x % 0x1_0000_0000 == lo && x / 0x1_0000_0000 == hi
  {
  }

  /** Decoding loses nothing. */
  lemma EncodeDecode(key: U32, data: seq<Byte>)
    requires |data| == 8
    ensures EncodeValue(key, Decode(key, data)) == data
  {
    DecodeHalves(data, key);
    XorInvolution(LE32(data[..4]), key);
    XorInvolution(LE32(data[4..]), key);
    ToLEInverse(data[..4]);
    ToLEInverse(data[4..]);
    assert data == data[..4] + data[4..];
  }

  /** The walk has decoded everything from `p` to the magic at `m`, without meeting a marker. */
  ghost predicate Walked(bytes: seq<Byte>, key: U32, m: nat, p: nat, values: seq<CompId>) {
    && p + 8 * |values| == m <= |bytes|
    && EncodeValues(key, values) == bytes[p..m]
    && forall v <- values :: Id(v) != DANS
  }

  lemma WalkedStep(bytes: seq<Byte>, key: U32, m: nat, p: nat, values: seq<CompId>)
    requires Walked(bytes, key, m, p, values) && 8 <= p && !StartMarkerAt(bytes, key, p - 8)
    ensures Walked(bytes, key, m, p - 8, [Decode(key, bytes[p - 8..p])] + values)
  {
    var data := bytes[p - 8..p];
    var v := Decode(key, data);
    EncodeDecode(key, data);
    MarkerIsDecoded(bytes, key, p);
    assert ([v] + values)[1..] == values;
    assert bytes[p - 8..p] + bytes[p..m] == bytes[p - 8..m];
  }

  /** A header of `n` values ends at `m`. */
  ghost predicate HeaderIs(bytes: seq<Byte>, m: nat, h: Header) {
    && m + 8 <= |bytes| && h.xorKey == Word(bytes, m + 4)
    && h.fileOffset + 8 * (|h.values| + 1) == m
    && StartMarkerAt(bytes, h.xorKey, h.fileOffset)
    && Walked(bytes, h.xorKey, m, h.fileOffset + 8, h.values)
  }

  /** Some start marker lies a whole number of blocks before the magic. */
  ghost predicate HasStart(bytes: seq<Byte>, m: nat) {
    m + 8 <= |bytes| && exists n: nat :: n >= 1 && StartMarkerAt(bytes, Word(bytes, m + 4), m - 8 * n)
  }

  /** No start marker among the first `n` blocks before `m`. */
  ghost predicate NoStartWithin(bytes: seq<Byte>, key: U32, m: nat, n: nat) {
    forall i: nat :: 1 <= i <= n ==> !StartMarkerAt(bytes, key, m - 8 * i)
  }

  /** One step of the walk: the block before `p`. */
  lemma MarkerIsDecoded(bytes: seq<Byte>, key: U32, p: nat)
    requires 8 <= p <= |bytes|
    ensures Id(Decode(key, bytes[p - 8..p])) == DANS <==> StartMarkerAt(bytes, key, p - 8)
  {
    var data := bytes[p - 8..p];
    DecodeHalves(data, key);
    assert data[..4] == bytes[p - 8..p - 8 + 4];
  }

  /** The walk has gone back to `p` without meeting a start marker. */
  ghost predicate WalkedTo(bytes: seq<Byte>, key: U32, m: nat, p: nat, values: seq<CompId>) {
    Walked(bytes, key, m, p, values) && NoStartWithin(bytes, key, m, |values|)
  }

  lemma WalkedOne(bytes: seq<Byte>, key: U32, m: nat, p: nat, values: seq<CompId>)
    requires WalkedTo(bytes, key, m, p, values) && 8 <= p
    ensures
      var v := Decode(key, bytes[p - 8..p]);
      if StartMarkerAt(bytes, key, p - 8) then Id(v) == DANS
      else Id(v) != DANS && WalkedTo(bytes, key, m, p - 8, [v] + values)
  {
    MarkerIsDecoded(bytes, key, p);
    if !StartMarkerAt(bytes, key, p - 8) {
      WalkedStep(bytes, key, m, p, values);
    }
  }

  /** Too close to the start of the file for another block, there is no marker. */
  lemma WalkedOut(bytes: seq<Byte>, m: nat, p: nat, values: seq<CompId>)
    requires m + 8 <= |bytes| && WalkedTo(bytes, Word(bytes, m + 4), m, p, values) && p < 8
    ensures !HasStart(bytes, m)
  {
  }

  /** The backwards loop, from just after the key. */
  method WalkBack(f: File, key: U32, m: nat) returns (r: Option<Header>)
    requires m + 8 <= |f.bytes| && f.pos == m + 8 && key == Word(f.bytes, m + 4)
    modifies f
    ensures r.Some? ==> HeaderIs(f.bytes, m, r.value)
    ensures r.None? ==> !HasStart(f.bytes, m)
  {
    var values: seq<CompId> := [];
    while true
      invariant f.pos >= 8 && WalkedTo(f.bytes, key, m, f.pos - 8, values)
      decreases f.pos
    {
      ghost var p := f.pos - 8;
      var ok := f.SeekBack(16);
      if !ok {
        WalkedOut(f.bytes, m, p, values);
        return None;
      }
      var data := f.Read(8);
      assert data == f.bytes[p - 8..p];
      WalkedOne(f.bytes, key, m, p, values);
      var v := Decode(key, data);
      if Id(v) == DANS {
        return Some(Header(key, f.pos - 8, values));
      }
      values := [v] + values;
    }
  }

  /** _parse_rich_header, given the offset of the PE header as a signed number.  A header is found
      exactly when the magic has a start marker a whole number of blocks before it. */
  method ParseRichHeader(f: File, lfanew: int) returns (r: Option<Header>)
    modifies f
    ensures r.Some? ==> exists m: nat :: MagicAt(f.bytes, lfanew, m) && HeaderIs(f.bytes, m, r.value)
    ensures r.None? ==> forall m: nat :: MagicAt(f.bytes, lfanew, m) ==> !HasStart(f.bytes, m)
  {
    var magic := FindMagic(f, lfanew);
    if magic.None? {
      return None;
    }
    var m := magic.value;
    OnlyMagic(f.bytes, lfanew, m);
    var keyData := f.Read(4);
    if |keyData| != 4 {
      return None;
    }
    r := WalkBack(f, LE32(keyData), m);
  }

  lemma OnlyMagic(bytes: seq<Byte>, lfanew: int, m: nat)
    requires MagicAt(bytes, lfanew, m)
    ensures forall q: nat :: MagicAt(bytes, lfanew, q) ==> q == m
  {
  }

  //////////////////////////////////////////////////////////////////////////////
  // The header in the file, byte by byte
  //////////////////////////////////////////////////////////////////////////////

  /** The bytes of a value without the mask: product, identifier and count, each low byte first. */
  function PlainValue(v: CompId): (b: seq<Byte>)
    ensures |b| == 8
  {
    ToLE(v.product, 2) + ToLE(v.id, 2) + ToLE(v.count, 4)
  }

  lemma TwoHalves(hi: U16, lo: U16)
    ensures ToLE(hi * 0x1_0000 + lo, 4) == ToLE(lo, 2) + ToLE(hi, 2)
  {
    var x := hi * 0x1_0000 + lo;
    HalfBytes(hi, lo, x);
    ToLETwo(x, 2);
    ToLETwo(lo, 0);
  }

  lemma HalfBytes(hi: U16, lo: U16, x: nat)
    requires x == hi * 0x1_0000 + lo
    ensures x / 256 / 256 == hi && x % 256 == lo % 256 && x / 256 % 256 == lo / 256 % 256
  {
    assert x / 256 == hi * 256 + lo / 256;
  }

  lemma ToLETwo(x: nat, k: nat)
    ensures ToLE(x, k + 2) == [x % 256, x / 256 % 256] + ToLE(x / 256 / 256, k)
  {
    var y := x / 256;
    ToLEOne(x, y, k + 1);
    ToLEOne(y, y / 256, k);
    TwoBytes(x % 256, y % 256, ToLE(y / 256, k));
  }

  lemma ToLEOne(x: nat, y: nat, k: nat)
    requires y == x / 256
    ensures ToLE(x, k + 1) == [x % 256] + ToLE(y, k)
  {
  }

  lemma TwoBytes(a: Byte, b: Byte, rest: seq<Byte>)
    ensures [a] + ([b] + rest) == [a, b] + rest
  {
  }

  lemma XorBytesConcat(a: seq<Byte>, b: seq<Byte>, c: seq<Byte>, d: seq<Byte>)
    requires |a| == |b| && |c| == |d|
    ensures XorBytes(a, b) + XorBytes(c, d) == XorBytes(a + c, b + d)
  {
  }

  lemma ValueIsMasked(key: U32, v: CompId)
    ensures EncodeValue(key, v) == XorBytes(PlainValue(v), ToLE(key, 4) + ToLE(key, 4))
  {
    XorOfBytes(Id(v), key, 4);
    XorOfBytes(v.count, key, 4);
    TwoHalves(v.id, v.product);
    XorBytesConcat(ToLE(Id(v), 4), ToLE(key, 4), ToLE(v.count, 4), ToLE(key, 4));
  }

  lemma {:induction false} ValueInPlace(key: U32, values: seq<CompId>, i: nat)
    requires i < |values|
    ensures 8 * i + 8 <= |EncodeValues(key, values)| && EncodeValues(key, values)[8 * i..8 * i + 8] == EncodeValue(key, values[i])
    decreases |values|
  {
    var first, rest := EncodeValue(key, values[0]), EncodeValues(key, values[1..]);
    assert EncodeValues(key, values) == first + rest && |first| == 8;
    if i > 0 {
      ValueInPlace(key, values[1..], i - 1);
      assert (first + rest)[8 * i..8 * i + 8] == rest[8 * (i - 1)..8 * (i - 1) + 8];
    } else {
      assert (first + rest)[0..8] == first;
    }
  }

  lemma ValueInSlice(bytes: seq<Byte>, key: U32, start: nat, m: nat, values: seq<CompId>, i: nat)
    requires start + 8 * |values| == m <= |bytes| && EncodeValues(key, values) == bytes[start..m] && i < |values|
    ensures bytes[start + 8 * i..start + 8 * i + 8] == EncodeValue(key, values[i])
  {
    ValueInPlace(key, values, i);
    SubSlice(bytes, start, m - start, 8 * i, 8 * i + 8);
  }

  lemma KeyBytes(bytes: seq<Byte>, p: nat)
    requires p + 4 <= |bytes|
    ensures ToLE(Word(bytes, p), 4) == bytes[p..p + 4]
  {
    ToLEInverse(bytes[p..p + 4]);
  }

  /** Of every header that is parsed, the i-th value stands in the (i + 1)-th block after the start:
      two bytes of product, two of identifier and four of count, masked with the key's bytes. */
  lemma ValuesInFile(bytes: seq<Byte>, m: nat, h: Header, i: nat)
    requires HeaderIs(bytes, m, h) && i < |h.values|
    ensures
      var p := h.fileOffset + 8 * (i + 1);
      var mask := bytes[m + 4..m + 8] + bytes[m + 4..m + 8];
      p + 8 <= m && bytes[p..p + 8] == XorBytes(PlainValue(h.values[i]), mask)
  {
    ValueInSlice(bytes, h.xorKey, h.fileOffset + 8, m, h.values, i);
    ValueIsMasked(h.xorKey, h.values[i]);
    KeyBytes(bytes, m + 4);
  }

  /** The magic is the text `Rich`, and the marker the masked text `DanS`. */
  lemma MarksAreTexts(bytes: seq<Byte>, p: nat, key: U32)
    requires p + 8 <= |bytes|
    ensures IsMagic(bytes, p) <==> bytes[p..p + 4] == ['R' as Byte, 'i' as Byte, 'c' as Byte, 'h' as Byte]
    ensures StartMarkerAt(bytes, key, p) <==>
      XorBytes(bytes[p..p + 4], ToLE(key, 4)) == ['D' as Byte, 'a' as Byte, 'n' as Byte, 'S' as Byte]
  {
    var word := bytes[p..p + 4];
    ToLEInverse(word);
    XorOfBytes(LE32(word), key, 4);
    MarkWords();
    SameWord(LE32(word), RICH);
    SameWord(Xor32(LE32(word), key), DANS);
  }

  lemma SameWord(a: U32, b: U32)
    ensures a == b <==> ToLE(a, 4) == ToLE(b, 4)
  {
    LE32Inverse(a);
    LE32Inverse(b);
  }

  lemma MarkWords()
    ensures ToLE(RICH, 4) == ['R' as Byte, 'i' as Byte, 'c' as Byte, 'h' as Byte]
    ensures ToLE(DANS, 4) == ['D' as Byte, 'a' as Byte, 'n' as Byte, 'S' as Byte]
  {
    ToLETwo(RICH, 2);
    ToLETwo(RICH / 256 / 256, 0);
    ToLETwo(DANS, 2);
    ToLETwo(DANS / 256 / 256, 0);
  }
}
