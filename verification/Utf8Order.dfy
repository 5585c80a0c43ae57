/**
 What section 1 of RFC 3629 promises of UTF-8 besides its grammar: US-ASCII characters are their own
 octets, and texts sort by their octets as they do by their characters.  As there is only one
 order-preserving way to number the characters of the grammar, this settles which octets stand for
 which code point.
 */
module Utf8Order {
  import opened Bytes
  import opened Sequences
  import opened Utf8Core
  import opened Utf8Codec

  /** Lexicographic order. */
  predicate Before(s: seq<int>, t: seq<int>) {
    t != [] && (s == [] || s[0] < t[0] || (s[0] == t[0] && Before(s[1..], t[1..])))
  }

  /** The sequences agree up to `k`, where the first has the smaller element. */
  predicate Diverges(s: seq<int>, t: seq<int>, k: nat) {
    k < |s| && k < |t| && s[..k] == t[..k] && s[k] < t[k]
  }

  lemma {:induction false} DivergesBefore(s: seq<int>, t: seq<int>, k: nat, a: seq<int>, b: seq<int>)
    requires Diverges(s, t, k)
    ensures Before(s + a, t + b)
    decreases k
  {
    if k > 0 {
      assert s[0] == s[..k][0] == t[..k][0] == t[0];
      assert s[1..][..k - 1] == s[..k][1..] && t[1..][..k - 1] == t[..k][1..];
      DivergesBefore(s[1..], t[1..], k - 1, a, b);
      assert (s + a)[1..] == s[1..] + a && (t + b)[1..] == t[1..] + b;
    }
  }

  lemma {:induction false} SamePrefix(p: seq<int>, a: seq<int>, b: seq<int>)
    ensures Before(p + a, p + b) <==> Before(a, b)
    decreases |p|
  {
    if p == [] {
      assert p + a == a && p + b == b;
    } else {
      SamePrefix(p[1..], a, b);
      assert (p + a)[1..] == p[1..] + a && (p + b)[1..] == p[1..] + b;
    }
  }

  lemma {:induction false} BeforeIsStrict(a: seq<int>, b: seq<int>)
    ensures a == b ==> !Before(a, b)
    ensures a != b ==> (Before(a, b) <==> !Before(b, a))
    decreases |a|
  {
    if a != [] && b != [] && a[0] == b[0] {
      BeforeIsStrict(a[1..], b[1..]);
      assert a == [a[0]] + a[1..] && b == [b[0]] + b[1..];
    }
  }

  //////////////////////////////////////////////////////////////////////////////
  // One character
  //////////////////////////////////////////////////////////////////////////////

  /** A code point of at most four base-64 digits, in front of which stands the rest of the lead. */
  lemma DigitOrder(x: CodePoint, y: CodePoint)
    requires x < y
    ensures x / 64 <= y / 64 && (x / 64 == y / 64 ==> x % 64 < y % 64)
    ensures x / 4096 <= y / 4096 && x / 0x4_0000 <= y / 0x4_0000
  {
  }

  lemma Order2(x: CodePoint, y: CodePoint) returns (k: nat)
    requires 0x80 <= x < y < 0x800
    ensures Diverges(Encode(x), Encode(y), k)
  {
    DigitOrder(x, y);
    k := if x / 64 < y / 64 then 0 else 1;
  }

  /** The places above the last one, which decide first. */
  lemma UpperDigits(x: CodePoint, y: CodePoint)
    requires x < y
    ensures x / 4096 == y / 4096 ==> x / 64 % 64 <= y / 64 % 64
    ensures x / 4096 == y / 4096 && x / 64 % 64 == y / 64 % 64 ==> x % 64 < y % 64
    ensures x / 0x4_0000 == y / 0x4_0000 ==> x / 4096 % 64 <= y / 4096 % 64
    ensures x / 0x4_0000 == y / 0x4_0000 && x / 4096 % 64 == y / 4096 % 64 ==> x / 4096 == y / 4096
  {
    DigitsSum(x);
    DigitsSum(y);
    assert x / 4096 / 64 == x / 0x4_0000 && y / 4096 / 64 == y / 0x4_0000;
  }

  lemma Order3(x: CodePoint, y: CodePoint) returns (k: nat)
    requires 0x800 <= x < y < 0x1_0000
    ensures Diverges(Encode(x), Encode(y), k)
  {
    DigitOrder(x, y);
    UpperDigits(x, y);
    k := if x / 4096 < y / 4096 then 0 else if x / 64 % 64 < y / 64 % 64 then 1 else 2;
  }

  lemma Order4(x: CodePoint, y: CodePoint) returns (k: nat)
    requires 0x1_0000 <= x < y <= CODE_POINT_MAX
    ensures Diverges(Encode(x), Encode(y), k)
  {
    DigitOrder(x, y);
    UpperDigits(x, y);
    k := if x / 0x4_0000 < y / 0x4_0000 then 0
         else if x / 4096 % 64 < y / 4096 % 64 then 1
         else if x / 64 % 64 < y / 64 % 64 then 2
         else 3;
  }

  /** Characters of different lengths differ in their leads. */
  lemma OrderOfLengths(x: CodePoint, y: CodePoint)
    requires x < y <= CODE_POINT_MAX && |Encode(x)| < |Encode(y)|
    ensures Diverges(Encode(x), Encode(y), 0)
  {
  }

  lemma LengthsGrow(x: CodePoint, y: CodePoint)
    requires x < y
    ensures |Encode(x)| <= |Encode(y)|
  {
  }

  lemma EncodeKeepsOrder(x: CodePoint, y: CodePoint) returns (k: nat)
    requires x < y <= CODE_POINT_MAX
    ensures Diverges(Encode(x), Encode(y), k)
  {
    LengthsGrow(x, y);
    if |Encode(x)| < |Encode(y)| {
      OrderOfLengths(x, y);
      k := 0;
    } else if y < 0x80 {
      k := 0;
    } else if y < 0x800 {
      k := Order2(x, y);
    } else if y < 0x1_0000 {
      k := Order3(x, y);
    } else {
      k := Order4(x, y);
    }
  }

  //////////////////////////////////////////////////////////////////////////////
  // Texts
  //////////////////////////////////////////////////////////////////////////////

  lemma {:induction false} TextKeepsOrder(a: seq<CodePoint>, b: seq<CodePoint>)
    requires AllValid(a) && AllValid(b) && Before(a, b)
    ensures Before(Encode8(a), Encode8(b))
    decreases |a|
  {
    if a == [] {
      assert |Encode(b[0])| >= 1;
    } else if a[0] == b[0] {
      TextKeepsOrder(a[1..], b[1..]);
      SamePrefix(Encode(a[0]), Encode8(a[1..]), Encode8(b[1..]));
    } else {
      assert IsCodePointValid(b[0]);
      var k := EncodeKeepsOrder(a[0], b[0]);
      DivergesBefore(Encode(a[0]), Encode(b[0]), k, Encode8(a[1..]), Encode8(b[1..]));
    }
  }

  /** Texts sort by their octets exactly as they do by their characters. */
  lemma OrderIsKept(a: seq<CodePoint>, b: seq<CodePoint>)
    requires AllValid(a) && AllValid(b)
    ensures Before(Encode8(a), Encode8(b)) <==> Before(a, b)
  {
    BeforeIsStrict(a, b);
    BeforeIsStrict(Encode8(a), Encode8(b));
    if Before(a, b) {
      TextKeepsOrder(a, b);
    } else if a != b {
      TextKeepsOrder(b, a);
    }
  }

  /** US-ASCII text is the same in code points, in octets and in UTF-16 units. */
  lemma {:induction false} AsciiIsItself(text: seq<CodePoint>)
    requires forall i :: 0 <= i < |text| ==> text[i] < 0x80
    ensures Encode8(text) == text && Encode16(text) == text && CodePoints(Encode8(text)) == text && CodePoints16(Encode16(text)) == text
  {
    Encode8RoundTrip(text);
    Encode16RoundTrip(text);
    if text != [] {
      AsciiIsItself(text[1..]);
      assert text == [text[0]] + text[1..];
    }
  }
}
