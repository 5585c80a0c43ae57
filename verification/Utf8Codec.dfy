/**
 The specification side of the UTF-8 and UTF-16 conversions: what sequence of code
 points a text stands for, and how a sequence of code points is written.  The
 conversion loops of the library are proved against these functions, and the round
 trips are proved about them.
 */
module Utf8Codec {
  import opened Bytes
  import opened Sequences
  import opened Utf8Core

  type Units = seq<U16>

  /** Added modulo 2^32 when a surrogate pair is joined. */
  const SURROGATE_OFFSET: U32 := (0x1_0000 - LEAD_SURROGATE_MIN * 1024 - TRAIL_SURROGATE_MIN) % 0x1_0000_0000
  const LEAD_OFFSET: U16 := LEAD_SURROGATE_MIN - 0x1_0000 / 1024

  /** A trailing octet, carrying the low six bits. */
  function TailOf(cp: CodePoint): Byte {
    0x80 + cp % 64
  }

  /** The octets written by append for one code point. */
  function Encode(cp: CodePoint): (c: Octets)
    ensures 1 <= |c| <= 4
  {
    if cp < 0x80 then [cp]
    else if cp < 0x800 then [0xC0 + cp / 64, TailOf(cp)]
    else if cp < 0x1_0000 then [0xE0 + cp / 4096, TailOf(cp / 64), TailOf(cp)]
    else [0xF0 + cp / 0x4_0000, TailOf(cp / 4096), TailOf(cp / 64), TailOf(cp)]
  }

  ghost predicate AllValid(cps: seq<CodePoint>) {
    forall i :: 0 <= i < |cps| ==> IsCodePointValid(cps[i])
  }

  /** UTF-8 text of a sequence of code points. */
  function Encode8(cps: seq<CodePoint>): Octets {
    FlatMap(Encode, cps)
  }

  /** Code points of a text, up to the first place where validation fails. */
  function CodePoints(s: Octets): seq<CodePoint> {
    if s == [] then []
    else
      var r := ValidateNext(s, 0);
      if r.err.Utf8Ok? then [r.cp] + CodePoints(s[r.it..]) else []
  }

  function LeadUnit(cp: CodePoint): U16 {
    (cp / 1024 + LEAD_OFFSET) % 0x1_0000
  }

  function TrailUnit(cp: CodePoint): U16 {
    cp % 1024 + TRAIL_SURROGATE_MIN
  }

  /** UTF-16 units of one code point. */
  function Units16(cp: CodePoint): Units {
    if cp > 0xFFFF then [LeadUnit(cp), TrailUnit(cp)] else [cp]
  }

  function Encode16(cps: seq<CodePoint>): Units {
    FlatMap(Units16, cps)
  }

  /** The value of a surrogate pair, in 32-bit arithmetic. */
  function Pair(lead: U16, trail: U16): CodePoint
    requires IsLeadSurrogate(lead) && IsTrailSurrogate(trail)
  {
    (lead * 1024 + trail + SURROGATE_OFFSET) % 0x1_0000_0000
  }

  /** Code points of a sequence of UTF-16 units. */
  function CodePoints16(u: Units): seq<CodePoint> {
    if u == [] then []
    else if |u| >= 2 && IsLeadSurrogate(u[0]) && IsTrailSurrogate(u[1]) then
      [Pair(u[0], u[1])] + CodePoints16(u[2..])
    else [u[0]] + CodePoints16(u[1..])
  }

  /** A surrogate without its other half, in the sense of section 2.2 of RFC 2781. */
  predicate Unpaired(u: Units, i: nat)
    requires i < |u|
  {
    || (IsLeadSurrogate(u[i]) && !(i + 1 < |u| && IsTrailSurrogate(u[i + 1])))
    || (IsTrailSurrogate(u[i]) && !(0 < i && IsLeadSurrogate(u[i - 1])))
  }

  ghost predicate HasUnpairedSurrogate(u: Units) {
    exists i :: 0 <= i < |u| && Unpaired(u, i)
  }

  //////////////////////////////////////////////////////////////////////////////
  // One character
  //////////////////////////////////////////////////////////////////////////////

  /** The base-64 digits of a code point are what the shifts and masks extract. */
  lemma Digits(cp: CodePoint, h: nat, i: nat, j: nat, k: nat)
    requires i < 64 && j < 64 && k < 64 && cp == h * 0x4_0000 + i * 4096 + j * 64 + k
    ensures cp % 64 == k && cp / 64 % 64 == j && cp / 4096 % 64 == i && cp / 0x4_0000 == h
  {
    assert cp / 64 == h * 4096 + i * 64 + j;
    assert cp / 4096 == h * 64 + i;
  }

  lemma DigitsSum(cp: CodePoint)
    ensures cp == cp / 0x4_0000 * 0x4_0000 + cp / 4096 % 64 * 4096 + cp / 64 % 64 * 64 + cp % 64
  {
    assert cp / 64 / 64 == cp / 4096;
    assert cp / 4096 / 64 == cp / 0x4_0000;
  }

  lemma JoinEncoded2(cp: CodePoint)
    requires 0x80 <= cp < 0x800
    ensures Utf8Two(0xC0 + cp / 64, TailOf(cp)) && Join2(0xC0 + cp / 64, TailOf(cp)) == cp
  {
    JoinTwo(0xC0 + cp / 64, TailOf(cp));
  }

  lemma ThreeInRange(h: nat, i: nat, cp: CodePoint)
    requires h < 16 && i < 64 && cp == h * 4096 + i * 64 + cp % 64 && 0x800 <= cp && !IsSurrogate(cp)
    ensures Utf8Three(0xE0 + h, 0x80 + i, TailOf(cp))
  {
  }

  lemma JoinEncoded3(cp: CodePoint)
    requires 0x800 <= cp < 0x1_0000 && !IsSurrogate(cp)
    ensures
      var b0, b1, b2 := 0xE0 + cp / 4096, TailOf(cp / 64), TailOf(cp);
      Utf8Three(b0, b1, b2) && Join3(b0, b1, b2) == cp
  {
    DigitsSum(cp);
    ThreeInRange(cp / 4096, cp / 64 % 64, cp);
    JoinThree(0xE0 + cp / 4096, TailOf(cp / 64), TailOf(cp));
  }

  lemma JoinEncoded4(cp: CodePoint)
    requires 0x1_0000 <= cp <= CODE_POINT_MAX
    ensures
      var b0, b1, b2, b3 := 0xF0 + cp / 0x4_0000, TailOf(cp / 4096), TailOf(cp / 64), TailOf(cp);
      Utf8Four(b0, b1, b2, b3) && Join4(b0, b1, b2, b3) == cp
  {
    DigitsSum(cp);
    JoinFour(0xF0 + cp / 0x4_0000, TailOf(cp / 4096), TailOf(cp / 64), TailOf(cp));
  }

  /** Writing a valid code point gives a character of the grammar which reads back as it. */
  lemma EncodeThenAssemble(cp: CodePoint)
    requires IsCodePointValid(cp)
    ensures Utf8Char(Encode(cp)) && Assemble(Encode(cp)) == cp
  {
    if 0x80 <= cp < 0x800 {
      JoinEncoded2(cp);
    } else if 0x800 <= cp < 0x1_0000 {
      JoinEncoded3(cp);
    } else if 0x1_0000 <= cp {
      JoinEncoded4(cp);
    }
  }

  lemma EncodeJoined2(b0: Byte, b1: Byte)
    requires Utf8Two(b0, b1)
    ensures IsCodePointValid(Join2(b0, b1)) && Encode(Join2(b0, b1)) == [b0, b1]
  {
    CharAccepted2(b0, b1);
    JoinTwo(b0, b1);
    EncodeDigits2(Join2(b0, b1), b0 - 0xC0, b1 - 0x80);
  }

  lemma EncodeDigits2(cp: CodePoint, j: nat, k: nat)
    requires 0x80 <= cp < 0x800 && k < 64 && cp == j * 64 + k
    ensures Encode(cp) == [0xC0 + j, 0x80 + k]
  {
    assert cp / 64 == j && cp % 64 == k;
  }

  lemma EncodeJoined3(b0: Byte, b1: Byte, b2: Byte)
    requires Utf8Three(b0, b1, b2)
    ensures IsCodePointValid(Join3(b0, b1, b2)) && Encode(Join3(b0, b1, b2)) == [b0, b1, b2]
  {
    CharAccepted3(b0, b1, b2);
    JoinThree(b0, b1, b2);
    EncodeDigits3(Join3(b0, b1, b2), b0 - 0xE0, b1 - 0x80, b2 - 0x80);
  }

  lemma EncodeDigits3(cp: CodePoint, i: nat, j: nat, k: nat)
    requires 0x800 <= cp < 0x1_0000 && i < 64 && j < 64 && k < 64 && cp == i * 4096 + j * 64 + k
    ensures Encode(cp) == [0xE0 + i, 0x80 + j, 0x80 + k]
  {
    Digits(cp, 0, i, j, k);
    assert cp / 4096 == i;
  }

  lemma EncodeJoined4(b0: Byte, b1: Byte, b2: Byte, b3: Byte)
    requires Utf8Four(b0, b1, b2, b3)
    ensures IsCodePointValid(Join4(b0, b1, b2, b3)) && Encode(Join4(b0, b1, b2, b3)) == [b0, b1, b2, b3]
  {
    CharAccepted4(b0, b1, b2, b3);
    JoinFour(b0, b1, b2, b3);
    EncodeDigits4(Join4(b0, b1, b2, b3), b0 - 0xF0, b1 - 0x80, b2 - 0x80, b3 - 0x80);
  }

  lemma EncodeDigits4(cp: CodePoint, h: nat, i: nat, j: nat, k: nat)
    requires 0x1_0000 <= cp <= CODE_POINT_MAX
    requires i < 64 && j < 64 && k < 64 && cp == h * 0x4_0000 + i * 4096 + j * 64 + k
    ensures Encode(cp) == [0xF0 + h, 0x80 + i, 0x80 + j, 0x80 + k]
  {
    Digits(cp, h, i, j, k);
  }

  /** Reading a character of the grammar and writing it back gives the same octets. */
  lemma AssembleThenEncode(c: Octets)
    requires Utf8Char(c)
    ensures IsCodePointValid(Assemble(c)) && Encode(Assemble(c)) == c
  {
    match |c|
    case 2 =>
      EncodeJoined2(c[0], c[1]);
    case 3 =>
      EncodeJoined3(c[0], c[1], c[2]);
    case 4 =>
      EncodeJoined4(c[0], c[1], c[2], c[3]);
    case _ =>
  }

  lemma PairIsValid(lead: U16, trail: U16)
    requires IsLeadSurrogate(lead) && IsTrailSurrogate(trail)
    ensures Pair(lead, trail) == 0x1_0000 + (lead - LEAD_SURROGATE_MIN) * 1024 + (trail - TRAIL_SURROGATE_MIN)
    ensures 0xFFFF < Pair(lead, trail) <= CODE_POINT_MAX
    ensures Units16(Pair(lead, trail)) == [lead, trail]
  {
  }

  lemma UnitsArePair(cp: CodePoint)
    requires 0xFFFF < cp <= CODE_POINT_MAX
    ensures IsLeadSurrogate(LeadUnit(cp)) && IsTrailSurrogate(TrailUnit(cp))
    ensures Pair(LeadUnit(cp), TrailUnit(cp)) == cp
  {
  }

  //////////////////////////////////////////////////////////////////////////////
  // UTF-8
  //////////////////////////////////////////////////////////////////////////////

  lemma ValidateNextOnChar(c: Octets, s: Octets)
    requires Utf8Char(c)
    ensures
      var r := ValidateNext(c + s, 0);
      r.err.Utf8Ok? && r.it == |c| && r.cp == Assemble(c)
  {
    assert (c + s)[0..|c|] == c;
    ValidateNextComplete(c + s, 0, |c|);
  }

  lemma CodePointsCons(c: Octets, s: Octets)
    requires Utf8Char(c)
    ensures CodePoints(c + s) == [Assemble(c)] + CodePoints(s)
  {
    ValidateNextOnChar(c, s);
    assert (c + s)[|c|..] == s;
  }

  /** Every sequence of valid code points is written as valid UTF-8 and reads back unchanged. */
  lemma {:induction false} Encode8RoundTrip(cps: seq<CodePoint>)
    requires AllValid(cps)
    ensures Utf8Octets(Encode8(cps)) && CodePoints(Encode8(cps)) == cps
  {
    if cps == [] {
      OctetsNil();
    } else {
      Encode8RoundTrip(cps[1..]);
      EncodeThenAssemble(cps[0]);
      OctetsCons(Encode(cps[0]), Encode8(cps[1..]));
      CodePointsCons(Encode(cps[0]), Encode8(cps[1..]));
    }
  }

  /** Every valid UTF-8 text is the encoding of its own code points. */
  lemma {:induction false} CodePointsRoundTrip(s: Octets)
    requires Utf8Octets(s)
    ensures AllValid(CodePoints(s)) && Encode8(CodePoints(s)) == s
    decreases |s|
  {
    if s != [] {
      var n := OctetsUncons(s);
      CodePointsRoundTrip(s[n..]);
      CodePointsRoundTripCons(s[..n], s[n..], CodePoints(s[n..]));
      assert s == s[..n] + s[n..];
    }
  }

  lemma CodePointsRoundTripCons(c: Octets, s: Octets, cps: seq<CodePoint>)
    requires Utf8Char(c) && cps == CodePoints(s) && AllValid(cps) && Encode8(cps) == s
    ensures AllValid(CodePoints(c + s)) && Encode8(CodePoints(c + s)) == c + s
  {
    AssembleThenEncode(c);
    CodePointsCons(c, s);
    FlatMapConcat(Encode, [Assemble(c)], cps);
    FlatMapAppend(Encode, [], Assemble(c));
  }

  //////////////////////////////////////////////////////////////////////////////
  // UTF-16
  //////////////////////////////////////////////////////////////////////////////

  lemma UnpairedShift(u: Units, k: nat, i: nat)
    requires k <= i < |u|
    requires k == i ==> k == 0 || !IsLeadSurrogate(u[k - 1])
    ensures Unpaired(u, i) <==> Unpaired(u[k..], i - k)
  {
  }

  lemma UnpairedTail(u: Units, k: nat)
    requires k <= |u|
    requires 0 < k ==> !IsLeadSurrogate(u[k - 1])
    requires forall i :: 0 <= i < k ==> !Unpaired(u, i)
    ensures HasUnpairedSurrogate(u) <==> HasUnpairedSurrogate(u[k..])
  {
    if HasUnpairedSurrogate(u) {
      var i :| 0 <= i < |u| && Unpaired(u, i);
      UnpairedShift(u, k, i);
      assert Unpaired(u[k..], i - k);
    }
    if HasUnpairedSurrogate(u[k..]) {
      var i :| 0 <= i < |u[k..]| && Unpaired(u[k..], i);
      UnpairedShift(u, k, i + k);
      assert Unpaired(u, i + k);
    }
  }

  /** Well-formed UTF-16 reads as valid code points, and writing them gives the units back. */
  lemma {:induction false} CodePoints16RoundTrip(u: Units)
    requires !HasUnpairedSurrogate(u)
    ensures AllValid(CodePoints16(u)) && Encode16(CodePoints16(u)) == u
    decreases |u|
  {
    if u != [] {
      assert !Unpaired(u, 0);
      if IsLeadSurrogate(u[0]) {
        assert !Unpaired(u, 1);
        UnpairedTail(u, 2);
        CodePoints16RoundTrip(u[2..]);
        PairIsValid(u[0], u[1]);
      } else {
        UnpairedTail(u, 1);
        CodePoints16RoundTrip(u[1..]);
      }
    }
  }

  /** Valid code points are written as well-formed UTF-16 that reads back unchanged. */
  lemma {:induction false} Encode16RoundTrip(cps: seq<CodePoint>)
    requires AllValid(cps)
    ensures !HasUnpairedSurrogate(Encode16(cps)) && CodePoints16(Encode16(cps)) == cps
  {
    if cps != [] {
      var u := Encode16(cps);
      Encode16RoundTrip(cps[1..]);
      if cps[0] > 0xFFFF {
        UnitsArePair(cps[0]);
      }
      var k := |Units16(cps[0])|;
      assert u[k..] == Encode16(cps[1..]);
      UnpairedTail(u, k);
    }
  }

  /** utf16to8 followed by utf8to16 is the identity on well-formed UTF-16. */
  lemma Utf16RoundTrip(u: Units)
    requires !HasUnpairedSurrogate(u)
    ensures
      var text := Encode8(CodePoints16(u));
      Utf8Octets(text) && Encode16(CodePoints(text)) == u
  {
    CodePoints16RoundTrip(u);
    Encode8RoundTrip(CodePoints16(u));
  }

  /** utf8to16 followed by utf16to8 is the identity on valid UTF-8. */
  lemma Utf8RoundTrip(s: Octets)
    requires Utf8Octets(s)
    ensures
      var units := Encode16(CodePoints(s));
      !HasUnpairedSurrogate(units) && Encode8(CodePoints16(units)) == s
  {
    CodePointsRoundTrip(s);
    Encode16RoundTrip(CodePoints(s));
  }
}
