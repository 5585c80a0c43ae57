/** Strings stored in the executable, read through the shared cursor. */
module PeStrings {
  import opened Bytes
  import opened PeFile
  import opened Utf8Core
  import opened Utf8Codec
  import Utf8Checked

  /** At most `n` 16-bit units from `p` on: fewer at the end of the file. */
  function UnitsAt(bytes: seq<Byte>, p: nat, n: nat): Units
    decreases n
  {
    if n == 0 || |bytes| < p + 2 then [] else [LE16(bytes[p..p + 2])] + UnitsAt(bytes, p + 2, n - 1)
  }

  /** The UTF-8 form of the counted UTF-16 string at `p`; empty when it cannot be converted. */
  ghost function PrefixedString(bytes: seq<Byte>, p: nat): Octets {
    if |bytes| < p + 2 then []
    else
      var units := UnitsAt(bytes, p + 2, LE16(bytes[p..p + 2]));
      if HasUnpairedSurrogate(units) then [] else Encode8(CodePoints16(units))
  }

  /** read_prefixed_unicode_wstring, after the count. */
  method ReadUnits(f: File, n: nat) returns (units: Units)
    modifies f
    ensures units == UnitsAt(f.bytes, old(f.pos), n)
    ensures f.pos == old(f.pos) + |ReadAt(f.bytes, old(f.pos), 2 * n)|
  {
    units := [];
    ghost var start := f.pos;
    for i := 0 to n
      invariant f.pos == start + 2 * i && (i == 0 || f.pos <= |f.bytes|)
      invariant UnitsAt(f.bytes, start, n) == units + UnitsAt(f.bytes, f.pos, n - i)
    {
      var data := f.Read(2);
      if |data| != 2 {
        return;
      }
      units := units + [LE16(data)];
    }
  }

  /** read_prefixed_unicode_string: whatever the file holds, the result is valid UTF-8.  The cursor
      ends after the count and as many of the units as the file has. */
  method ReadPrefixedUnicodeString(f: File) returns (s: Octets)
    modifies f
    ensures s == PrefixedString(f.bytes, old(f.pos)) && Utf8Octets(s)
    ensures
      var start := old(f.pos);
      f.pos == if |f.bytes| < start + 2 then start + |ReadAt(f.bytes, start, 2)|
               else start + 2 + |ReadAt(f.bytes, start + 2, 2 * LE16(f.bytes[start..start + 2]))|
  {
    OctetsNil();
    var size := f.Read(2);
    if |size| != 2 {
      return [];
    }
    var units := ReadUnits(f, LE16(size));
    var r := Utf8Checked.Utf16To8(units);
    match r {
      case Returned(value) => return value;
      case Thrown(_) => return [];
    }
  }

  /** The string that read_string_at_offset finds at an offset. */
  ghost function StringAt(bytes: seq<Byte>, offset: nat, unicode: bool): seq<Byte> {
    if unicode then PrefixedString(bytes, offset) else AsciiAt(bytes, offset)
  }

  /** read_string_at_offset: the cursor always comes back, and an empty string is a failure. */
  method ReadStringAtOffset(f: File, offset: U32, unicode: bool) returns (ok: bool, s: seq<Byte>)
    modifies f
    ensures f.pos == old(f.pos)
    ensures s == StringAt(f.bytes, offset, unicode) && (ok <==> s != [])
  {
    var savedOffset := f.pos;
    f.Seek(offset);
    if !unicode {
      s := ReadAsciiString(f, 0);
    } else {
      s := ReadPrefixedUnicodeString(f);
    }
    f.Seek(savedOffset);
    ok := s != [];
  }

  //////////////////////////////////////////////////////////////////////////////
  // Stored strings are read back
  //////////////////////////////////////////////////////////////////////////////

  /** 16-bit units as bytes. */
  function UnitBytes(units: Units): (b: seq<Byte>)
    ensures |b| == 2 * |units|
  {
    if units == [] then [] else ToLE(units[0], 2) + UnitBytes(units[1..])
  }

  lemma {:induction false} UnitsReadBack(bytes: seq<Byte>, p: nat, units: Units)
    requires p + 2 * |units| <= |bytes| && bytes[p..p + 2 * |units|] == UnitBytes(units)
    ensures UnitsAt(bytes, p, |units|) == units
    decreases |units|
  {
    if units != [] {
      var b := UnitBytes(units);
      assert bytes[p..p + 2] == b[..2] && b[..2] == ToLE(units[0], 2);
      assert bytes[p + 2..p + 2 * |units|] == b[2..] && b[2..] == UnitBytes(units[1..]);
      LE16Inverse(units[0]);
      UnitsReadBack(bytes, p + 2, units[1..]);
    }
  }

  /** Text stored as a counted UTF-16 string is read back as its UTF-8 form. */
  lemma StoredTextIsReadBack(bytes: seq<Byte>, p: nat, text: seq<CodePoint>)
    requires AllValid(text) && |Encode16(text)| < 0x1_0000
    requires p + 2 + 2 * |Encode16(text)| <= |bytes|
    requires bytes[p..p + 2] == ToLE(|Encode16(text)|, 2)
    requires bytes[p + 2..p + 2 + 2 * |Encode16(text)|] == UnitBytes(Encode16(text))
    ensures PrefixedString(bytes, p) == Encode8(text)
  {
    LE16Inverse(|Encode16(text)|);
    UnitsReadBack(bytes, p + 2, Encode16(text));
    Encode16RoundTrip(text);
  }
}
