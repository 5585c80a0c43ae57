/**
 What replace_invalid achieves, for every text: the cut into characters and broken
 pieces is unique, so its output is determined; the output is valid; a valid text
 comes out unchanged; and a second pass neither throws nor changes anything.
 */
module Utf8Repair {
  import opened Utf8Core
  import opened Utf8Codec
  import opened Utf8Checked

  lemma SegmentationTail(pieces: seq<Octets>, s: Octets)
    requires IsSegmentation(pieces, s) && pieces != []
    ensures pieces[0] != [] && s == pieces[0] + Flatten(pieces[1..])
    ensures IsSegmentation(pieces[1..], s[|pieces[0]|..])
  {
  }

  /** The octet after a broken lead piece is not a trail. */
  lemma BrokenIsMaximal(pieces: seq<Octets>, s: Octets)
    requires IsSegmentation(pieces, s) && pieces != [] && !Utf8Char(pieces[0])
    ensures SequenceLength(pieces[0][0]) > 0 && |pieces[0]| < |s| ==> !IsTrail(s[|pieces[0]|])
  {
    SegmentationTail(pieces, s);
    if |pieces[0]| < |s| {
      SegmentationTail(pieces[1..], s[|pieces[0]|..]);
      assert s[|pieces[0]|] == pieces[1][0];
    }
  }

  /** A text cut so that it starts with a broken piece does not start with a character. */
  lemma BrokenHeadIsNoChar(c: Octets, pieces: seq<Octets>, s: Octets)
    requires IsSegmentation(pieces, s) && pieces != [] && !Utf8Char(pieces[0])
    requires |c| <= |s| && c == s[..|c|]
    ensures !Utf8Char(c)
  {
    SegmentationTail(pieces, s);
    var p := pieces[0];
    assert |c| <= |p| ==> p[..|c|] == c;
    assert |p| < |c| ==> s[|p|] == c[|p|];
    assert c != [] ==> p[0] == c[0];
    BrokenIsMaximal(pieces, s);
    CharAccepted(c);
  }

  lemma CharHeadIsFirst(c: Octets, pieces: seq<Octets>, s: Octets)
    requires IsSegmentation(pieces, s) && pieces != []
    requires Utf8Char(c) && |c| <= |s| && c == s[..|c|]
    ensures pieces[0] == c
  {
    SegmentationTail(pieces, s);
    var p := pieces[0];
    if Utf8Char(p) {
      assert s[0..|p|] == p && s[0..|c|] == c;
      ValidateNextComplete(s, 0, |p|);
      ValidateNextComplete(s, 0, |c|);
    } else {
      BrokenHeadIsNoChar(c, pieces, s);
    }
  }

  lemma FirstPieceUnique(a: seq<Octets>, b: seq<Octets>, s: Octets)
    requires IsSegmentation(a, s) && IsSegmentation(b, s) && a != [] && b != []
    ensures a[0] == b[0]
  {
    SegmentationTail(a, s);
    SegmentationTail(b, s);
    assert s[..|a[0]|] == a[0] && s[..|b[0]|] == b[0];
    if Utf8Char(a[0]) {
      CharHeadIsFirst(a[0], b, s);
    } else if Utf8Char(b[0]) {
      CharHeadIsFirst(b[0], a, s);
    } else if SequenceLength(s[0]) > 0 {
      BrokenIsMaximal(a, s);
      BrokenIsMaximal(b, s);
      assert forall j :: 1 <= j < |a[0]| ==> s[j] == a[0][j];
      assert forall j :: 1 <= j < |b[0]| ==> s[j] == b[0][j];
    }
  }

  /** A text can be cut in only one way. */
  lemma {:induction false} SegmentationUnique(a: seq<Octets>, b: seq<Octets>, s: Octets)
    requires IsSegmentation(a, s) && IsSegmentation(b, s)
    ensures a == b
    decreases |a|
  {
    if a == [] {
      if b != [] { SegmentationTail(b, s); }
    } else if b == [] {
      SegmentationTail(a, s);
    } else {
      FirstPieceUnique(a, b, s);
      SegmentationTail(a, s);
      SegmentationTail(b, s);
      SegmentationUnique(a[1..], b[1..], s[|a[0]|..]);
      assert a == [a[0]] + a[1..] && b == [b[0]] + b[1..];
    }
  }

  lemma {:induction false} MendChars(pieces: seq<Octets>, replacement: CodePoint)
    requires IsCharList(pieces)
    ensures MendAll(pieces, replacement) == Flatten(pieces)
  {
    if pieces != [] {
      MendChars(pieces[1..], replacement);
    }
  }

  /** Valid text passes through replace_invalid unchanged. */
  lemma RepairKeepsValid(pieces: seq<Octets>, s: Octets, replacement: CodePoint)
    requires Utf8Octets(s) && IsSegmentation(pieces, s)
    ensures MendAll(pieces, replacement) == s
  {
    var chars :| IsCharList(chars) && Flatten(chars) == s;
    SegmentationUnique(pieces, chars, s);
    MendChars(pieces, replacement);
  }

  /** Whatever comes out of replace_invalid is valid UTF-8. */
  lemma {:induction false} RepairIsValid(pieces: seq<Octets>, replacement: CodePoint)
    requires IsCodePointValid(replacement)
    ensures Utf8Octets(MendAll(pieces, replacement))
  {
    if pieces == [] {
      OctetsNil();
    } else {
      RepairIsValid(pieces[1..], replacement);
      EncodeThenAssemble(replacement);
      OctetsCons(Mend(pieces[0], replacement), MendAll(pieces[1..], replacement));
    }
  }

  /** A valid text never ends in the middle of a character. */
  lemma {:induction false} ValidIsNotTruncated(s: Octets, p: nat)
    requires Utf8Octets(s)
    ensures !TruncatedAt(s, p)
    decreases |s|
  {
    if p < |s| {
      var n := OctetsUncons(s);
      CharAccepted(s[..n]);
      if p < n {
        assert s[p] == s[..n][p];
      } else {
        var rest := s[n..];
        assert rest[p - n] == s[p];
        assert forall j :: p - n < j < |rest| ==> rest[j] == s[j + n];
        assert TruncatedAt(s, p) ==> TruncatedAt(rest, p - n);
        ValidIsNotTruncated(rest, p - n);
      }
    }
  }

  /** A second pass over repaired text does not throw and changes nothing. */
  lemma RepairIdempotent(pieces: seq<Octets>, again: seq<Octets>, replacement: CodePoint)
    requires IsCodePointValid(replacement)
    requires IsSegmentation(again, MendAll(pieces, replacement))
    ensures !EndsTruncated(MendAll(pieces, replacement))
    ensures MendAll(again, replacement) == MendAll(pieces, replacement)
  {
    var out := MendAll(pieces, replacement);
    RepairIsValid(pieces, replacement);
    RepairKeepsValid(again, out, replacement);
    forall p ensures !TruncatedAt(out, p) {
      if p >= 0 { ValidIsNotTruncated(out, p); }
    }
  }
}
