/**
 The unchecked interface: the same loops without validation, for callers that
 already know that their text is valid.  On such text each of them computes what
 the checked interface computes.
 */
module Utf8Unchecked {
  import opened Sequences
  import opened Utf8Core
  import opened Utf8Codec
  import opened Utf8Checked

  /** unchecked::next; an octet that starts nothing is taken as it is. */
  function Next(s: Octets, it: nat): (r: Read)
    requires it < |s| && it + SequenceLength(s[it]) <= |s|
  {
    var n := SequenceLength(s[it]);
    if n == 0 then Read(it + 1, s[it]) else Read(it + n, Assemble(s[it..it + n]))
  }

  /** Wherever the checked decoder succeeds, the unchecked one reads the same character. */
  lemma NextRefinesChecked(s: Octets, it: nat)
    requires it < |s| && Utf8Checked.Next(s, it).Returned?
    ensures it + SequenceLength(s[it]) <= |s| && Returned(Next(s, it)) == Utf8Checked.Next(s, it)
  {
  }

  /** A trail or an octet above the leads is taken for a character of its own. */
  lemma StrayIsTaken(s: Octets, it: nat)
    requires it < |s| && (0x80 <= s[it] < 0xC0 || 0xF8 <= s[it])
    ensures it + SequenceLength(s[it]) <= |s| && Next(s, it) == Read(it + 1, s[it])
  {
  }

  /** A text that is valid from `start` on has a character there, and is valid after it. */
  lemma ValidSuffixStep(s: Octets, start: nat)
    requires start < |s| && Utf8Octets(s[start..])
    ensures SequenceFits(s, start)
    ensures
      var r := Next(s, start);
      && start < r.it <= |s| && Utf8Octets(s[r.it..])
      && IsCodePointValid(r.cp)
      && CodePoints(s[start..]) == [r.cp] + CodePoints(s[r.it..])
  {
    var n := OctetsUncons(s[start..]);
    assert s[start..][..n] == s[start..start + n];
    assert s[start..][n..] == s[start + n..];
    ValidateNextComplete(s, start, start + n);
    NextRefinesChecked(s, start);
    AssembleThenEncode(s[start..start + n]);
    CodePointsCons(s[start..start + n], s[start + n..]);
    assert s[start..] == s[start..start + n] + s[start + n..];
  }

  /** The octets announced at `it` are all in the text. */
  predicate SequenceFits(s: Octets, it: nat)
    requires it < |s|
  {
    it + SequenceLength(s[it]) <= |s|
  }

  /** The decoding loops have read `s[..start]`, worth the code points `done`. */
  ghost predicate Decoded(s: Octets, start: nat, done: seq<CodePoint>) {
    start <= |s| && Utf8Octets(s[start..]) && CodePoints(s) == done + CodePoints(s[start..])
  }

  lemma DecodedStep(s: Octets, start: nat, done: seq<CodePoint>)
    requires Decoded(s, start, done) && start < |s|
    ensures SequenceFits(s, start)
    ensures
      var r := Next(s, start);
      start < r.it && Decoded(s, r.it, done + [r.cp])
  {
    ValidSuffixStep(s, start);
    var r := Next(s, start);
    Assoc(done, [r.cp], CodePoints(s[r.it..]));
  }

  /** utf8to32 returns the code points of a valid text. */
  method Utf8To32(s: Octets) returns (result: seq<CodePoint>)
    requires Utf8Octets(s)
    ensures result == CodePoints(s)
  {
    var start := 0;
    result := [];
    assert s[0..] == s;
    while start < |s|
      invariant Decoded(s, start, result)
    {
      DecodedStep(s, start, result);
      var r := Next(s, start);
      result := result + [r.cp];
      start := r.it;
    }
  }

  /** utf8to16 writes the code points of a valid text as UTF-16. */
  method Utf8To16(s: Octets) returns (result: Units)
    requires Utf8Octets(s)
    ensures result == Encode16(CodePoints(s))
  {
    var start := 0;
    result := [];
    ghost var done: seq<CodePoint> := [];
    assert s[0..] == s;
    while start < |s|
      invariant Decoded(s, start, done)
      invariant result == Encode16(done)
    {
      DecodedStep(s, start, done);
      var r := Next(s, start);
      FlatMapAppend(Units16, done, r.cp);
      done := done + [r.cp];
      result := result + Units16(r.cp);
      start := r.it;
    }
    assert done == CodePoints(s);
  }

  /** utf32to8 writes each code point in turn; on the code points of a valid text it gives
      the text back. */
  method Utf32To8(cps: seq<CodePoint>) returns (result: Octets)
    ensures result == Encode8(cps)
    ensures forall s :: Utf8Octets(s) && CodePoints(s) == cps ==> result == s
  {
    result := [];
    for start := 0 to |cps|
      invariant result == Encode8(cps[..start])
    {
      FlatMapAppend(Encode, cps[..start], cps[start]);
      assert cps[..start + 1] == cps[..start] + [cps[start]];
      result := result + Encode(cps[start]);
    }
    assert cps[..|cps|] == cps;
    forall s | Utf8Octets(s) && CodePoints(s) == cps ensures result == s {
      CodePointsRoundTrip(s);
    }
  }

  /** unchecked::utf16to8 agrees with the checked conversion on well-formed UTF-16. */
  method Utf16To8(u: Units) returns (result: Octets)
    requires !HasUnpairedSurrogate(u)
    ensures result == Encode8(CodePoints16(u))
  {
    var start := 0;
    result := [];
    ghost var done: seq<CodePoint> := [];
    assert u[0..] == u;
    while start != |u|
      invariant Converted(u, start, done, result)
      decreases |u| - start
    {
      NextUnitsStep(u, start);
      assert !Unpaired(u, start);
      var cp: CodePoint, n := u[start], 1;
      if IsLeadSurrogate(cp) {
        cp, n := Pair(u[start], u[start + 1]), 2;
      }
      ConvertedStep(u, start, start + n, cp, done, result);
      done := done + [cp];
      result := result + Encode(cp);
      start := start + n;
    }
    ConvertedAll(u, done, result);
  }

  /** unchecked::prior, from the end of a character: back to its start, without checks. */
  method Prior(s: Octets, it: nat) returns (r: Read)
    requires it <= |s| && exists p :: LeadBefore(s, p, it)
    requires forall p :: LeadBefore(s, p, it) ==> p + SequenceLength(s[p]) <= |s|
    ensures LeadBefore(s, r.it, it) && r.cp == Next(s, r.it).cp
    ensures forall i :: CharEndsAt(s, i, it) ==> r == Read(i, ValidateNext(s, i).cp)
  {
    ghost var lead :| LeadBefore(s, lead, it);
    var p := it - 1;
    while IsTrail(s[p])
      invariant lead <= p < it
      invariant forall j :: p < j < it ==> IsTrail(s[j])
      decreases p
    {
      p := p - 1;
    }
    r := Read(p, Next(s, p).cp);
    forall i | CharEndsAt(s, i, it) ensures r == Read(i, ValidateNext(s, i).cp) {
      PriorFindsChar(s, p, i, it);
    }
  }
}
