/**
 Validation of UTF-8 text, one character at a time, and its exact agreement with
 the UTF8-octets grammar of section 4 of RFC 3629.

 A text is a sequence of octets and an iterator into it is an index; the end
 iterator is the length of the text.  A right shift is a division, a mask of low
 bits a remainder, a left shift followed by a mask the remainder of the surviving
 bits times a power of two, and an `or` that sets bits known to be clear an addition.
 */
module Utf8Core {
  import opened Bytes

  type Octets = seq<Byte>

  /** The 21-bit values that one to four octets can carry. */
  type CodePoint = x: int | 0 <= x < 0x20_0000

  const LEAD_SURROGATE_MIN: CodePoint := 0xd800
  const LEAD_SURROGATE_MAX: CodePoint := 0xdbff
  const TRAIL_SURROGATE_MIN: CodePoint := 0xdc00
  const TRAIL_SURROGATE_MAX: CodePoint := 0xdfff
  const CODE_POINT_MAX: CodePoint := 0x10ffff

  predicate IsTrail(oc: Byte) {
    oc / 64 == 0x2
  }

  predicate IsLeadSurrogate(cp: CodePoint) {
    LEAD_SURROGATE_MIN <= cp <= LEAD_SURROGATE_MAX
  }

  predicate IsTrailSurrogate(cp: CodePoint) {
    TRAIL_SURROGATE_MIN <= cp <= TRAIL_SURROGATE_MAX
  }

  predicate IsSurrogate(cp: CodePoint) {
    LEAD_SURROGATE_MIN <= cp <= TRAIL_SURROGATE_MAX
  }

  predicate IsCodePointValid(cp: CodePoint) {
    cp <= CODE_POINT_MAX && !IsSurrogate(cp)
  }

  /** Number of octets announced by a lead octet; 0 when it cannot start a character. */
  function SequenceLength(lead: Byte): (n: nat)
    ensures n <= 4
    ensures IsTrail(lead) ==> n == 0
  {
    if lead < 0x80 then 1
    else if lead / 32 == 0x6 then 2
    else if lead / 16 == 0xe then 3
    else if lead / 8 == 0x1e then 4
    else 0
  }

  predicate IsOverlongSequence(cp: CodePoint, length: nat) {
    if cp < 0x80 then length != 1
    else if cp < 0x800 then length != 2
    else if cp < 0x10000 then length != 3
    else false
  }

  datatype UtfError =
    | Utf8Ok
    | NotEnoughRoom
    | InvalidLead
    | IncompleteSequence
    | OverlongSequence
    | InvalidCodePoint

  /** `n` successive calls of increase_safely, starting from index `it`. */
  function IncreaseSafely(s: Octets, it: nat, n: nat): (err: UtfError)
    requires it < |s|
    ensures err.Utf8Ok? <==> it + n < |s| && forall j :: it < j <= it + n ==> IsTrail(s[j])
    ensures err.NotEnoughRoom? <==> |s| <= it + n && forall j :: it < j < |s| ==> IsTrail(s[j])
    ensures err.Utf8Ok? || err.NotEnoughRoom? || err.IncompleteSequence?
    decreases n
  {
    if n == 0 then Utf8Ok
    else if it + 1 == |s| then NotEnoughRoom
    else if !IsTrail(s[it + 1]) then IncompleteSequence
    else IncreaseSafely(s, it + 1, n - 1)
  }

  /** The arithmetic of get_sequence_2. */
  function Join2(b0: Byte, b1: Byte): CodePoint {
    b0 % 32 * 64 + b1 % 64
  }

  /** The arithmetic of get_sequence_3. */
  function Join3(b0: Byte, b1: Byte, b2: Byte): CodePoint {
    b0 % 16 * 4096 + b1 % 64 * 64 + b2 % 64
  }

  /** The arithmetic of get_sequence_4. */
  function Join4(b0: Byte, b1: Byte, b2: Byte, b3: Byte): CodePoint {
    b0 % 8 * 0x4_0000 + b1 % 64 * 4096 + b2 % 64 * 64 + b3 % 64
  }

  /** The code point of a sequence of one to four octets, checked or not. */
  function Assemble(c: Octets): (cp: CodePoint)
    requires 1 <= |c| <= 4
  {
    match |c|
    case 1 => c[0]
    case 2 => Join2(c[0], c[1])
    case 3 => Join3(c[0], c[1], c[2])
    case _ => Join4(c[0], c[1], c[2], c[3])
  }

  /** Outcome of one validation step: the error, the iterator afterwards, the code point. */
  datatype Scan = Scan(err: UtfError, it: nat, cp: CodePoint)

  function ValidateNext(s: Octets, it: nat): (r: Scan)
    requires it < |s|
    ensures r.err.Utf8Ok? ==> it < r.it <= |s|
    ensures !r.err.Utf8Ok? ==> r.it == it
  {
    var n := SequenceLength(s[it]);
    if n == 0 then Scan(InvalidLead, it, 0)
    else
      var err := IncreaseSafely(s, it, n - 1);
      if !err.Utf8Ok? then Scan(err, it, 0)
      else
        var cp := Assemble(s[it..it + n]);
        if !IsCodePointValid(cp) then Scan(InvalidCodePoint, it, 0)
        else if IsOverlongSequence(cp, n) then Scan(OverlongSequence, it, 0)
        else Scan(Utf8Ok, it + n, cp)
  }

  //////////////////////////////////////////////////////////////////////////////
  // The reference: the grammar of section 4 of RFC 3629
  //////////////////////////////////////////////////////////////////////////////

  predicate Utf8Tail(b: Byte) {
    0x80 <= b <= 0xBF
  }

  predicate Utf8Two(b0: Byte, b1: Byte) {
    0xC2 <= b0 <= 0xDF && Utf8Tail(b1)
  }

  predicate Utf8Three(b0: Byte, b1: Byte, b2: Byte) {
    || (b0 == 0xE0 && 0xA0 <= b1 <= 0xBF && Utf8Tail(b2))
    || (0xE1 <= b0 <= 0xEC && Utf8Tail(b1) && Utf8Tail(b2))
    || (b0 == 0xED && 0x80 <= b1 <= 0x9F && Utf8Tail(b2))
    || (0xEE <= b0 <= 0xEF && Utf8Tail(b1) && Utf8Tail(b2))
  }

  predicate Utf8Four(b0: Byte, b1: Byte, b2: Byte, b3: Byte) {
    || (b0 == 0xF0 && 0x90 <= b1 <= 0xBF && Utf8Tail(b2) && Utf8Tail(b3))
    || (0xF1 <= b0 <= 0xF3 && Utf8Tail(b1) && Utf8Tail(b2) && Utf8Tail(b3))
    || (b0 == 0xF4 && 0x80 <= b1 <= 0x8F && Utf8Tail(b2) && Utf8Tail(b3))
  }

  /** UTF8-char = UTF8-1 / UTF8-2 / UTF8-3 / UTF8-4 */
  predicate Utf8Char(c: Octets) {
    match |c|
    case 1 => c[0] <= 0x7F
    case 2 => Utf8Two(c[0], c[1])
    case 3 => Utf8Three(c[0], c[1], c[2])
    case 4 => Utf8Four(c[0], c[1], c[2], c[3])
    case _ => false
  }

  /** UTF8-octets = *( UTF8-char ), with the characters listed. */
  ghost predicate IsCharList(chars: seq<Octets>) {
    forall i :: 0 <= i < |chars| ==> Utf8Char(chars[i])
  }

  function Flatten(chars: seq<Octets>): (s: Octets) {
    if chars == [] then [] else chars[0] + Flatten(chars[1..])
  }

  ghost predicate Utf8Octets(s: Octets) {
    exists chars :: IsCharList(chars) && Flatten(chars) == s
  }

  //////////////////////////////////////////////////////////////////////////////
  // One character
  //////////////////////////////////////////////////////////////////////////////

  lemma JoinTwo(b0: Byte, b1: Byte)
    requires 0xC0 <= b0 < 0xE0 && Utf8Tail(b1)
    ensures Join2(b0, b1) == (b0 - 0xC0) * 64 + (b1 - 0x80)
  {
  }

  lemma JoinThree(b0: Byte, b1: Byte, b2: Byte)
    requires 0xE0 <= b0 < 0xF0 && Utf8Tail(b1) && Utf8Tail(b2)
    ensures Join3(b0, b1, b2) == (b0 - 0xE0) * 4096 + (b1 - 0x80) * 64 + (b2 - 0x80)
  {
  }

  lemma JoinFour(b0: Byte, b1: Byte, b2: Byte, b3: Byte)
    requires 0xF0 <= b0 < 0xF8 && Utf8Tail(b1) && Utf8Tail(b2) && Utf8Tail(b3)
    ensures Join4(b0, b1, b2, b3) == (b0 - 0xF0) * 0x4_0000 + (b1 - 0x80) * 4096 + (b2 - 0x80) * 64 + (b3 - 0x80)
  {
  }

  lemma CharAccepted2(b0: Byte, b1: Byte)
    ensures
      var cp := Join2(b0, b1);
      Utf8Two(b0, b1) <==>
      SequenceLength(b0) == 2 && IsTrail(b1) && IsCodePointValid(cp) && !IsOverlongSequence(cp, 2)
  {
    if 0xC0 <= b0 < 0xE0 && Utf8Tail(b1) {
      JoinTwo(b0, b1);
    }
  }

  lemma CharAccepted3(b0: Byte, b1: Byte, b2: Byte)
    ensures
      var cp := Join3(b0, b1, b2);
      Utf8Three(b0, b1, b2) <==>
      SequenceLength(b0) == 3 && IsTrail(b1) && IsTrail(b2) && IsCodePointValid(cp) && !IsOverlongSequence(cp, 3)
  {
    if 0xE0 <= b0 < 0xF0 && Utf8Tail(b1) && Utf8Tail(b2) {
      JoinThree(b0, b1, b2);
    }
  }

  lemma CharAccepted4(b0: Byte, b1: Byte, b2: Byte, b3: Byte)
    ensures
      var cp := Join4(b0, b1, b2, b3);
      Utf8Four(b0, b1, b2, b3) <==>
      SequenceLength(b0) == 4 && IsTrail(b1) && IsTrail(b2) && IsTrail(b3)
      && IsCodePointValid(cp) && !IsOverlongSequence(cp, 4)
  {
    if 0xF0 <= b0 < 0xF8 && Utf8Tail(b1) && Utf8Tail(b2) && Utf8Tail(b3) {
      JoinFour(b0, b1, b2, b3);
    }
  }

  /** The grammar's character ranges say exactly what the length, trail, code point and
      overlong checks say together. */
  lemma CharAccepted(c: Octets)
    ensures Utf8Char(c) <==>
      && 1 <= |c| <= 4
      && SequenceLength(c[0]) == |c|
      && (forall j :: 1 <= j < |c| ==> IsTrail(c[j]))
      && IsCodePointValid(Assemble(c))
      && !IsOverlongSequence(Assemble(c), |c|)
  {
    match |c|
    case 2 => CharAccepted2(c[0], c[1]);
    case 3 => CharAccepted3(c[0], c[1], c[2]);
    case 4 => CharAccepted4(c[0], c[1], c[2], c[3]);
    case _ =>
  }

  /** When validate_next succeeds it has stepped over a character of the grammar. */
  lemma ValidateNextSound(s: Octets, it: nat)
    requires it < |s| && ValidateNext(s, it).err.Utf8Ok?
    ensures
      var r := ValidateNext(s, it);
      Utf8Char(s[it..r.it]) && r.cp == Assemble(s[it..r.it])
  {
    CharAccepted(s[it..ValidateNext(s, it).it]);
  }

  /** Wherever a character of the grammar starts, validate_next steps over exactly it. */
  lemma ValidateNextComplete(s: Octets, it: nat, end: nat)
    requires it < end <= |s| && Utf8Char(s[it..end])
    ensures ValidateNext(s, it) == Scan(Utf8Ok, end, Assemble(s[it..end]))
  {
    var c := s[it..end];
    CharAccepted(c);
    var n := SequenceLength(s[it]);
    assert c[0] == s[it] && n == |c|;
    assert forall j :: it < j < end ==> s[j] == c[j - it];
  }

  //////////////////////////////////////////////////////////////////////////////
  // Whole texts
  //////////////////////////////////////////////////////////////////////////////

  lemma FlattenAppend(a: seq<Octets>, c: Octets)
    ensures Flatten(a + [c]) == Flatten(a) + c
  {
    if a == [] {
      assert Flatten([c]) == c + Flatten([]);
    } else {
      FlattenAppend(a[1..], c);
      assert (a + [c])[1..] == a[1..] + [c];
    }
  }

  /** A valid text followed by a character is a valid text. */
  lemma OctetsSnoc(s: Octets, c: Octets)
    requires Utf8Octets(s) && Utf8Char(c)
    ensures Utf8Octets(s + c)
  {
    var chars :| IsCharList(chars) && Flatten(chars) == s;
    FlattenAppend(chars, c);
    assert IsCharList(chars + [c]);
  }

  /** A character followed by a valid text is a valid text. */
  lemma OctetsCons(c: Octets, s: Octets)
    requires Utf8Char(c) && Utf8Octets(s)
    ensures Utf8Octets(c + s)
  {
    var chars :| IsCharList(chars) && Flatten(chars) == s;
    var all := [c] + chars;
    assert all[1..] == chars;
    assert IsCharList(all) && Flatten(all) == c + s;
  }

  /** A non-empty valid text starts with a character, and what follows it is valid. */
  lemma OctetsUncons(s: Octets) returns (n: nat)
    requires Utf8Octets(s) && s != []
    ensures 1 <= n <= |s| && Utf8Char(s[..n]) && Utf8Octets(s[n..])
  {
    var chars :| IsCharList(chars) && Flatten(chars) == s;
    n := |chars[0]|;
    assert s[..n] == chars[0];
    assert s[n..] == Flatten(chars[1..]);
    assert IsCharList(chars[1..]);
  }

  lemma OctetsNil()
    ensures Utf8Octets([])
  {
    assert IsCharList([]) && Flatten([]) == [];
  }

  lemma DropFirst(a: Octets, s: Octets, n: nat)
    requires n <= |a|
    ensures (a + s)[..n] == a[..n] && (a + s)[n..] == a[n..] + s
  {
  }

  /** Two characters that start a text are the same. */
  lemma FirstCharUnique(s: Octets, m: nat, n: nat)
    requires 0 < m <= |s| && 0 < n <= |s| && Utf8Char(s[..m]) && Utf8Char(s[..n])
    ensures m == n
  {
    assert s[0..m] == s[..m] && s[0..n] == s[..n];
    ValidateNextComplete(s, 0, m);
    ValidateNextComplete(s, 0, n);
  }

  /** Characters are prefix free, so a valid prefix of a valid text leaves a valid text. */
  lemma {:induction false} OctetsCancel(a: Octets, s: Octets)
    requires Utf8Octets(a) && Utf8Octets(a + s)
    ensures Utf8Octets(s)
    decreases |a|
  {
    if a == [] {
      assert a + s == s;
    } else {
      var n := OctetsUncons(a);
      var m := OctetsUncons(a + s);
      DropFirst(a, s, n);
      FirstCharUnique(a + s, m, n);
      OctetsCancel(a[n..], s);
    }
  }

  /** The end of the longest prefix that is made of whole characters of the grammar. */
  ghost predicate IsLongestValidPrefix(s: Octets, k: nat) {
    && k <= |s|
    && Utf8Octets(s[..k])
    && forall j :: 0 <= j <= |s| && Utf8Octets(s[..j]) ==> j <= k
  }

  lemma StuckMeansLongest(s: Octets, k: nat)
    requires k < |s| && Utf8Octets(s[..k]) && !ValidateNext(s, k).err.Utf8Ok?
    ensures IsLongestValidPrefix(s, k)
  {
    forall j | k < j <= |s| ensures !Utf8Octets(s[..j]) {
      if Utf8Octets(s[..j]) {
        assert s[..j] == s[..k] + s[k..j];
        OctetsCancel(s[..k], s[k..j]);
        var n := OctetsUncons(s[k..j]);
        assert s[k..j][..n] == s[k..k + n];
        ValidateNextComplete(s, k, k + n);
      }
    }
  }

  /** find_invalid: the first position where validation gets stuck. */
  method FindInvalid(s: Octets) returns (result: nat)
    ensures IsLongestValidPrefix(s, result)
  {
    result := 0;
    OctetsNil();
    while result != |s|
      invariant result <= |s| && Utf8Octets(s[..result])
      decreases |s| - result
    {
      var r := ValidateNext(s, result);
      if !r.err.Utf8Ok? {
        StuckMeansLongest(s, result);
        return;
      }
      ValidateNextSound(s, result);
      OctetsSnoc(s[..result], s[result..r.it]);
      assert s[..r.it] == s[..result] + s[result..r.it];
      result := r.it;
    }
  }

  /** is_valid accepts exactly the texts of the grammar. */
  method IsValid(s: Octets) returns (valid: bool)
    ensures valid <==> Utf8Octets(s)
  {
    var k := FindInvalid(s);
    valid := k == |s|;
    assert s[..|s|] == s;
  }
}
