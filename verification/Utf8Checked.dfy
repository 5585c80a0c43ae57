/**
 The checked interface: reading forwards and backwards, counting, repairing and
 converting from UTF-16.  An exception is a `Thrown` outcome.
 */
module Utf8Checked {
  import opened Bytes
  import opened Sequences
  import opened Utf8Core
  import opened Utf8Codec

  datatype Utf8Exception =
    | InvalidCodePointException(cp: int)
    | InvalidUtf8Exception(octet: Byte)
    | InvalidUtf16Exception(word: U16)
    | NotEnoughRoomException

  datatype Outcome<T> = Returned(value: T) | Thrown(exception: Utf8Exception)

  datatype Read = Read(it: nat, cp: CodePoint)

  function Next(s: Octets, it: nat): (r: Outcome<Read>)
    requires it < |s|
  {
    var v := ValidateNext(s, it);
    match v.err
    case Utf8Ok => Returned(Read(v.it, v.cp))
    case NotEnoughRoom => Thrown(NotEnoughRoomException)
    case InvalidLead => Thrown(InvalidUtf8Exception(s[it]))
    case IncompleteSequence => Thrown(InvalidUtf8Exception(s[it]))
    case OverlongSequence => Thrown(InvalidUtf8Exception(s[it]))
    case InvalidCodePoint => Thrown(InvalidCodePointException(v.cp))
  }

  /** How many octets a lead announces, by its range; 0 for what is no lead. */
  function Announced(lead: Byte): nat {
    if lead < 0x80 then 1
    else if 0xC0 <= lead < 0xE0 then 2
    else if 0xE0 <= lead < 0xF0 then 3
    else if 0xF0 <= lead < 0xF8 then 4
    else 0
  }

  lemma AnnouncedIsLength(lead: Byte)
    ensures SequenceLength(lead) == Announced(lead)
  {
  }

  ghost predicate TrailsBetween(s: Octets, from: nat, to: nat) {
    forall j :: from <= j < to && j < |s| ==> 0x80 <= s[j] < 0xC0
  }

  /** Which exception: no lead or trails missing, the octet; the text ends among the trails, not enough
      room; the octets are all there but make no character, the octet again if they are an overlong
      form, and otherwise the code point, which is 0 because it is not stored on failure. */
  lemma WhyNextThrows(s: Octets, it: nat)
    requires it < |s|
    ensures
      var n := Announced(s[it]);
      if n == 0 || !TrailsBetween(s, it + 1, it + n) then Next(s, it) == Thrown(InvalidUtf8Exception(s[it]))
      else if |s| < it + n then Next(s, it) == Thrown(NotEnoughRoomException)
      else if Utf8Char(s[it..it + n]) then Next(s, it) == Returned(Read(it + n, Assemble(s[it..it + n])))
      else if IsCodePointValid(Assemble(s[it..it + n])) then Next(s, it) == Thrown(InvalidUtf8Exception(s[it]))
      else Next(s, it) == Thrown(InvalidCodePointException(0))
  {
    var n := Announced(s[it]);
    AnnouncedIsLength(s[it]);
    if n == 0 {
      NoLead(s, it);
    } else {
      TrailsAreSeen(s, it, n);
      if TrailsBetween(s, it + 1, it + n) && it + n <= |s| {
        WholeSequence(s, it, n);
      } else {
        ShortSequence(s, it, n);
      }
    }
  }

  lemma NoLead(s: Octets, it: nat)
    requires it < |s| && SequenceLength(s[it]) == 0
    ensures Next(s, it) == Thrown(InvalidUtf8Exception(s[it]))
  {
  }

  lemma ShortSequence(s: Octets, it: nat, n: nat)
    requires it < |s| && n == SequenceLength(s[it]) > 0 && !IncreaseSafely(s, it, n - 1).Utf8Ok?
    ensures Next(s, it) == if IncreaseSafely(s, it, n - 1).NotEnoughRoom? then Thrown(NotEnoughRoomException) else Thrown(InvalidUtf8Exception(s[it]))
  {
  }

  lemma TrailsAreSeen(s: Octets, it: nat, n: nat)
    requires it < |s| && n > 0
    ensures
      var err := IncreaseSafely(s, it, n - 1);
      && (err.Utf8Ok? <==> it + n <= |s| && TrailsBetween(s, it + 1, it + n))
      && (err.NotEnoughRoom? <==> |s| < it + n && TrailsBetween(s, it + 1, it + n))
  {
    forall j | it < j < |s| ensures IsTrail(s[j]) <==> 0x80 <= s[j] < 0xC0 {
    }
  }

  lemma WholeSequence(s: Octets, it: nat, n: nat)
    requires it < |s| && n == SequenceLength(s[it]) > 0 && it + n <= |s| && IncreaseSafely(s, it, n - 1).Utf8Ok?
    ensures
      var c := s[it..it + n];
      if Utf8Char(c) then Next(s, it) == Returned(Read(it + n, Assemble(c)))
      else if IsCodePointValid(Assemble(c)) then Next(s, it) == Thrown(InvalidUtf8Exception(s[it]))
      else Next(s, it) == Thrown(InvalidCodePointException(0))
  {
    var c := s[it..it + n];
    SequenceOutcome(s, it, n, Assemble(c));
    CharAccepted(c);
    forall j | 1 <= j < n ensures IsTrail(c[j]) {
      assert c[j] == s[it + j];
    }
  }

  lemma SequenceOutcome(s: Octets, it: nat, n: nat, cp: CodePoint)
    requires it < |s| && n == SequenceLength(s[it]) > 0 && it + n <= |s| && IncreaseSafely(s, it, n - 1).Utf8Ok?
    requires cp == Assemble(s[it..it + n])
    ensures Next(s, it) ==
      if !IsCodePointValid(cp) then Thrown(InvalidCodePointException(0))
      else if IsOverlongSequence(cp, n) then Thrown(InvalidUtf8Exception(s[it]))
      else Returned(Read(it + n, cp))
  {
  }

  /** Decode at `p` without moving: the character's code point, with the iterator left at `p`. */
  function PeekNext(s: Octets, p: nat): (r: Outcome<Read>)
    requires p < |s|
  {
    var n := Next(s, p);
    if n.Returned? then Returned(Read(p, n.value.cp)) else n
  }

  /** Nothing past the end of a character matters to its decoding. */
  lemma NextInPrefix(s: Octets, i: nat, end: nat)
    requires i < end <= |s| && ValidateNext(s, i).err.Utf8Ok? && ValidateNext(s, i).it == end
    ensures Next(s[..end], i) == Next(s, i)
    ensures !IsTrail(s[i]) && forall j :: i < j < end ==> IsTrail(s[j])
  {
    ValidateNextSound(s, i);
    assert s[..end][i..end] == s[i..end];
    ValidateNextComplete(s[..end], i, end);
  }

  /** The start of the sequence that ends at `it`: an octet followed only by trails. */
  predicate LeadBefore(s: Octets, p: int, it: nat)
    requires it <= |s|
  {
    0 <= p < it && !IsTrail(s[p]) && forall j :: p < j < it ==> IsTrail(s[j])
  }

  /** Some character starts at `i` and ends at `it`. */
  predicate CharEndsAt(s: Octets, i: int, it: nat)
    requires it <= |s|
  {
    0 <= i < it && ValidateNext(s, i).err.Utf8Ok? && ValidateNext(s, i).it == it
  }

  /** Whatever character ends at `it`, prior decodes that one and stops at its start. */
  lemma PriorFindsChar(s: Octets, p: nat, i: nat, it: nat)
    requires it <= |s| && LeadBefore(s, p, it) && CharEndsAt(s, i, it)
    ensures i == p && PeekNext(s[..it], p) == PeekNext(s, i)
  {
    NextInPrefix(s, i, it);
  }

  /** prior: backwards to the nearest octet that is not a trail, then decode up to `it`.
      From the end of any character it returns to that character's start, undoing next. */
  method Prior(s: Octets, it: nat, start: nat) returns (r: Outcome<Read>)
    requires start <= it <= |s|
    ensures it == start ==> r == Thrown(NotEnoughRoomException)
    ensures start < it && (forall p :: start <= p < it ==> IsTrail(s[p])) ==> r == Thrown(InvalidUtf8Exception(s[start]))
    ensures forall p :: start <= p && LeadBefore(s, p, it) ==> r == PeekNext(s[..it], p)
    ensures forall i :: start <= i && CharEndsAt(s, i, it) ==> r == Returned(Read(i, ValidateNext(s, i).cp))
  {
    if it == start {
      return Thrown(NotEnoughRoomException);
    }
    forall i | start <= i && CharEndsAt(s, i, it) ensures LeadBefore(s, i, it) {
      NextInPrefix(s, i, it);
    }
    var p := it - 1;
    while IsTrail(s[p])
      invariant start <= p < it
      invariant forall j :: p < j < it ==> IsTrail(s[j])
      decreases p
    {
      if p == start {
        return Thrown(InvalidUtf8Exception(s[p]));
      }
      p := p - 1;
    }
    r := PeekNext(s[..it], p);
    forall i | start <= i && CharEndsAt(s, i, it) ensures r == Returned(Read(i, ValidateNext(s, i).cp)) {
      PriorFindsChar(s, p, i, it);
    }
  }

  /** distance has counted `dist` characters in `s[..first]`. */
  ghost predicate Counted(s: Octets, first: nat, dist: nat) {
    && first <= |s| && Utf8Octets(s[..first])
    && |CodePoints(s)| == dist + |CodePoints(s[first..])|
  }

  lemma CountedStep(s: Octets, first: nat, dist: nat)
    requires Counted(s, first, dist) && first < |s|
    ensures
      var v := ValidateNext(s, first);
      if v.err.Utf8Ok? then Counted(s, v.it, dist + 1) else !Utf8Octets(s)
  {
    var v := ValidateNext(s, first);
    if v.err.Utf8Ok? {
      ValidateNextSound(s, first);
      CountedOne(s, first, v.it, dist);
    } else {
      StuckMeansLongest(s, first);
      assert s[..|s|] == s;
    }
  }

  lemma CountedOne(s: Octets, first: nat, it: nat, dist: nat)
    requires Counted(s, first, dist) && first <= it <= |s| && Utf8Char(s[first..it])
    ensures Counted(s, it, dist + 1)
  {
    Between(s, first, it);
    OctetsSnoc(s[..first], s[first..it]);
    CodePointsCons(s[first..it], s[it..]);
  }

  lemma Between(s: Octets, first: nat, it: nat)
    requires first <= it <= |s|
    ensures s[..it] == s[..first] + s[first..it] && s[first..] == s[first..it] + s[it..]
  {
  }

  /** distance: the number of characters of a valid text, and an exception for any other. */
  method Distance(s: Octets) returns (r: Outcome<nat>)
    ensures r.Returned? <==> Utf8Octets(s)
    ensures r.Returned? ==> r.value == |CodePoints(s)|
  {
    var first, dist := 0, 0;
    OctetsNil();
    assert s[0..] == s;
    while first < |s|
      invariant Counted(s, first, dist)
    {
      CountedStep(s, first, dist);
      var n := Next(s, first);
      if n.Thrown? {
        return Thrown(n.exception);
      }
      first, dist := n.value.it, dist + 1;
    }
    assert s[..|s|] == s;
    return Returned(dist);
  }

  //////////////////////////////////////////////////////////////////////////////
  // UTF-16 to UTF-8
  //////////////////////////////////////////////////////////////////////////////

  /** One round of utf16to8: take a unit, or a surrogate pair. */
  function NextUnits(u: Units, start: nat): (r: Outcome<Read>)
    requires start < |u|
  {
    var cp := u[start];
    if IsLeadSurrogate(cp) then
      if start + 1 == |u| then Thrown(InvalidUtf16Exception(cp))
      else if !IsTrailSurrogate(u[start + 1]) then Thrown(InvalidUtf16Exception(u[start + 1]))
      else Returned(Read(start + 2, Pair(cp, u[start + 1])))
    else if IsTrailSurrogate(cp) then Thrown(InvalidUtf16Exception(cp))
    else Returned(Read(start + 1, cp))
  }

  /** The unit that is reported: what follows a lead surrogate in the place of its partner, and
      otherwise the surrogate itself. */
  function Culprit(u: Units, i: nat): U16
    requires i < |u|
  {
    if 0xD800 <= u[i] < 0xDC00 && i + 1 < |u| then u[i + 1] else u[i]
  }

  ghost predicate FirstUnpaired(u: Units, i: nat) {
    i < |u| && Unpaired(u, i) && forall j :: 0 <= j < i ==> !Unpaired(u, j)
  }

  lemma NextUnitsStep(u: Units, start: nat)
    requires start < |u|
    requires 0 < start ==> !IsLeadSurrogate(u[start - 1])
    ensures
      var r := NextUnits(u, start);
      && (r.Thrown? ==> r.exception == InvalidUtf16Exception(Culprit(u, start)) && Unpaired(u, start))
      && (r.Returned? ==>
            && start < r.value.it <= |u|
            && !IsLeadSurrogate(u[r.value.it - 1])
            && (forall i :: start <= i < r.value.it ==> !Unpaired(u, i))
            && IsCodePointValid(r.value.cp)
            && CodePoints16(u[start..]) == [r.value.cp] + CodePoints16(u[r.value.it..]))
  {
    var r := NextUnits(u, start);
    if r.Returned? {
      var n := r.value.it - start;
      assert u[start..][n..] == u[r.value.it..];
      if n == 2 {
        PairIsValid(u[start], u[start + 1]);
      }
    }
  }

  /** The state of utf16to8 after it has read `u[..start]`, worth the code points `done`. */
  ghost predicate Converted(u: Units, start: nat, done: seq<CodePoint>, result: Octets) {
    && start <= |u|
    && (forall i :: 0 <= i < start ==> !Unpaired(u, i))
    && (0 < start ==> !IsLeadSurrogate(u[start - 1]))
    && AllValid(done) && result == Encode8(done)
    && CodePoints16(u) == done + CodePoints16(u[start..])
  }

  lemma ConvertedStep(u: Units, start: nat, end: nat, cp: CodePoint, done: seq<CodePoint>, result: Octets)
    requires Converted(u, start, done, result) && start < end <= |u|
    requires !IsLeadSurrogate(u[end - 1]) && forall i :: start <= i < end ==> !Unpaired(u, i)
    requires IsCodePointValid(cp) && CodePoints16(u[start..]) == [cp] + CodePoints16(u[end..])
    ensures Converted(u, end, done + [cp], result + Encode(cp))
  {
    FlatMapAppend(Encode, done, cp);
    Assoc(done, [cp], CodePoints16(u[end..]));
  }

  lemma ConvertedAll(u: Units, done: seq<CodePoint>, result: Octets)
    requires Converted(u, |u|, done, result)
    ensures !HasUnpairedSurrogate(u) && result == Encode8(CodePoints16(u)) && Utf8Octets(result)
  {
    Encode8RoundTrip(done);
    assert done == CodePoints16(u);
  }

  /** utf16to8 throws exactly when some surrogate has no partner; otherwise it returns valid
      UTF-8 that stands for the same code points. */
  method Utf16To8(u: Units) returns (r: Outcome<Octets>)
    ensures r.Thrown? <==> HasUnpairedSurrogate(u)
    ensures forall i: nat :: FirstUnpaired(u, i) ==> r == Thrown(InvalidUtf16Exception(Culprit(u, i)))
    ensures r.Returned? ==> r.value == Encode8(CodePoints16(u)) && Utf8Octets(r.value)
  {
    var start, result := 0, [];
    ghost var done: seq<CodePoint> := [];
    assert u[0..] == u;
    while start != |u|
      invariant Converted(u, start, done, result)
      decreases |u| - start
    {
      var n := NextUnits(u, start);
      NextUnitsStep(u, start);
      if n.Thrown? {
        assert FirstUnpaired(u, start);
        return Thrown(n.exception);
      }
      ConvertedStep(u, start, n.value.it, n.value.cp, done, result);
      done := done + [n.value.cp];
      result := result + Encode(n.value.cp);
      start := n.value.it;
    }
    ConvertedAll(u, done, result);
    return Returned(result);
  }

  //////////////////////////////////////////////////////////////////////////////
  // Repair
  //////////////////////////////////////////////////////////////////////////////

  /** A piece of text that gets one replacement mark: no character starts it, and it is
      either one octet that starts nothing or a lead octet with all the trails after it. */
  ghost predicate IsBroken(piece: Octets) {
    && piece != []
    && (forall n :: 0 <= n <= |piece| ==> !Utf8Char(piece[..n]))
    && (SequenceLength(piece[0]) == 0 ==> |piece| == 1)
    && (forall j :: 1 <= j < |piece| ==> IsTrail(piece[j]))
  }

  /** The text cut into characters and broken pieces; a broken lead takes every trail after it. */
  ghost predicate IsSegmentation(pieces: seq<Octets>, s: Octets) {
    && Flatten(pieces) == s
    && (forall i :: 0 <= i < |pieces| ==> Utf8Char(pieces[i]) || IsBroken(pieces[i]))
    && (forall i :: 0 <= i < |pieces| - 1 && !Utf8Char(pieces[i]) && SequenceLength(pieces[i][0]) > 0
                    ==> !IsTrail(pieces[i + 1][0]))
  }

  function Mend(piece: Octets, replacement: CodePoint): Octets {
    if Utf8Char(piece) then piece else Encode(replacement)
  }

  function MendAll(pieces: seq<Octets>, replacement: CodePoint): Octets {
    FlatMap(piece => Mend(piece, replacement), pieces)
  }

  /** A lead octet that announces more octets than the text has left, all of them trails. */
  predicate TruncatedAt(s: Octets, p: nat) {
    p < |s| && SequenceLength(s[p]) > |s| - p && forall j :: p < j < |s| ==> IsTrail(s[j])
  }

  ghost predicate EndsTruncated(s: Octets) {
    exists p :: TruncatedAt(s, p)
  }

  lemma TruncatedStep(s: Octets, start: nat, end: nat)
    requires start < end <= |s|
    requires forall j :: start < j < end ==> IsTrail(s[j])
    requires !ValidateNext(s, start).err.NotEnoughRoom?
    ensures forall p :: start <= p < end ==> !TruncatedAt(s, p)
  {
  }

  lemma SliceOfSlice(s: Octets, start: nat, end: nat, n: nat)
    requires start <= start + n <= end <= |s|
    ensures s[start..end][..n] == s[start..start + n]
  {
  }

  /** What validation refuses without running out of octets is a broken piece. */
  lemma BrokenPiece(s: Octets, start: nat, end: nat)
    requires start < end <= |s| && !ValidateNext(s, start).err.Utf8Ok?
    requires forall j :: start < j < end ==> IsTrail(s[j])
    requires SequenceLength(s[start]) == 0 ==> end == start + 1
    ensures IsBroken(s[start..end]) && !Utf8Char(s[start..end])
  {
    var piece := s[start..end];
    forall n | 0 <= n <= |piece| ensures !Utf8Char(piece[..n]) {
      if Utf8Char(piece[..n]) {
        SliceOfSlice(s, start, end, n);
        ValidateNextComplete(s, start, start + n);
      }
    }
    assert piece == piece[..|piece|];
  }

  /** The state of replace_invalid after it has read `s[..start]` and written `out`. */
  ghost predicate Repaired(s: Octets, start: nat, pieces: seq<Octets>, out: Octets, replacement: CodePoint) {
    && start <= |s|
    && IsSegmentation(pieces, s[..start])
    && out == MendAll(pieces, replacement)
    && (pieces != [] && !Utf8Char(pieces[|pieces| - 1]) && SequenceLength(pieces[|pieces| - 1][0]) > 0 && start < |s|
        ==> !IsTrail(s[start]))
    && (forall p :: 0 <= p < start ==> !TruncatedAt(s, p))
    && (!IsCodePointValid(replacement) ==> IsCharList(pieces))
  }

  lemma SegmentationStep(pieces: seq<Octets>, s: Octets, start: nat, end: nat)
    requires start < end <= |s| && IsSegmentation(pieces, s[..start])
    requires Utf8Char(s[start..end]) || IsBroken(s[start..end])
    requires pieces != [] && !Utf8Char(pieces[|pieces| - 1]) && SequenceLength(pieces[|pieces| - 1][0]) > 0
             ==> !IsTrail(s[start])
    ensures IsSegmentation(pieces + [s[start..end]], s[..end])
  {
    FlattenAppend(pieces, s[start..end]);
    assert s[..end] == s[..start] + s[start..end];
  }

  lemma RepairedStep(s: Octets, start: nat, end: nat, pieces: seq<Octets>, out: Octets, replacement: CodePoint)
    requires Repaired(s, start, pieces, out, replacement) && start < end <= |s|
    requires !ValidateNext(s, start).err.NotEnoughRoom?
    requires forall j :: start < j < end ==> IsTrail(s[j])
    requires Utf8Char(s[start..end]) || (IsBroken(s[start..end]) && IsCodePointValid(replacement))
    requires !Utf8Char(s[start..end]) && SequenceLength(s[start]) > 0 && end < |s| ==> !IsTrail(s[end])
    ensures Repaired(s, end, pieces + [s[start..end]], out + Mend(s[start..end], replacement), replacement)
  {
    TruncatedStep(s, start, end);
    SegmentationStep(pieces, s, start, end);
    FlatMapAppend(x => Mend(x, replacement), pieces, s[start..end]);
  }

  method SkipTrails(s: Octets, start: nat) returns (end: nat)
    requires start <= |s|
    ensures start <= end <= |s|
    ensures forall j :: start <= j < end ==> IsTrail(s[j])
    ensures end < |s| ==> !IsTrail(s[end])
  {
    end := start;
    while end != |s| && IsTrail(s[end])
      invariant start <= end <= |s|
      invariant forall j :: start <= j < end ==> IsTrail(s[j])
      decreases |s| - end
    {
      end := end + 1;
    }
  }

  /** Steps over a broken piece: the octet at `start` and, unless it starts nothing, the
      trails after it. */
  method SkipBroken(s: Octets, start: nat) returns (end: nat)
    requires start < |s| && !ValidateNext(s, start).err.Utf8Ok?
    ensures start < end <= |s| && IsBroken(s[start..end]) && !Utf8Char(s[start..end])
    ensures forall j :: start < j < end ==> IsTrail(s[j])
    ensures SequenceLength(s[start]) > 0 && end < |s| ==> !IsTrail(s[end])
  {
    end := start + 1;
    if !ValidateNext(s, start).err.InvalidLead? {
      // Just one replacement mark for the sequence.
      end := SkipTrails(s, end);
    }
    BrokenPiece(s, start, end);
  }

  lemma RepairStops(s: Octets, start: nat, pieces: seq<Octets>, out: Octets, replacement: CodePoint)
    requires Repaired(s, start, pieces, out, replacement) && start < |s|
    requires !ValidateNext(s, start).err.Utf8Ok?
    ensures ValidateNext(s, start).err.NotEnoughRoom? ==> TruncatedAt(s, start)
    ensures !IsCodePointValid(replacement) ==> !Utf8Octets(s)
  {
    if !IsCodePointValid(replacement) {
      BrokenIsInvalid(pieces, s, start);
    }
  }

  /** A 32-bit number that append accepts. */
  predicate IsMark(x: U32) {
    x < 0x20_0000 && IsCodePointValid(x)
  }

  /** The mark as a code point; any number that is not one stands for an invalid code point. */
  function MarkOf(x: U32): (cp: CodePoint)
    ensures IsMark(x) <==> IsCodePointValid(cp)
    ensures IsMark(x) ==> cp == x
  {
    if x < 0x20_0000 then x else CODE_POINT_MAX + 1
  }

  /** replace_invalid.  It throws exactly when the text ends in the middle of a character, or
      when something has to be replaced and the replacement is not a code point.  Otherwise the
      text is cut into characters and broken pieces, and each broken piece becomes one mark. */
  method ReplaceInvalid(s: Octets, replacement: U32) returns (r: Outcome<Octets>, ghost pieces: seq<Octets>)
    ensures IsMark(replacement) ==> (r.Thrown? <==> EndsTruncated(s))
    ensures IsMark(replacement) && r.Thrown? ==> r.exception.NotEnoughRoomException?
    ensures !IsMark(replacement) ==> (r.Returned? <==> Utf8Octets(s))
    ensures r.Returned? ==> IsSegmentation(pieces, s) && r.value == MendAll(pieces, MarkOf(replacement))
  {
    var start, out := 0, [];
    pieces := [];
    ghost var cp := MarkOf(replacement);
    while start != |s|
      invariant Repaired(s, start, pieces, out, cp)
      decreases |s| - start
    {
      var sequenceStart, mark := start, [];
      var v := ValidateNext(s, start);
      if v.err.Utf8Ok? {
        start := v.it;
        mark := s[sequenceStart..start];
        ValidateNextSound(s, sequenceStart);
      } else {
        RepairStops(s, start, pieces, out, cp);
        if v.err.NotEnoughRoom? {
          return Thrown(NotEnoughRoomException), pieces;
        }
        if !IsMark(replacement) {
          return Thrown(InvalidCodePointException(replacement)), pieces;
        }
        mark := Encode(replacement);
        start := SkipBroken(s, sequenceStart);
      }
      RepairedStep(s, sequenceStart, start, pieces, out, cp);
      out := out + mark;
      pieces := pieces + [s[sequenceStart..start]];
    }
    RepairedAll(s, pieces, out, cp);
    r := Returned(out);
  }

  /** A text cut off inside a character, as in E2 82, is not mended but makes replace_invalid throw. */
  lemma CutOffTextThrows()
    ensures EndsTruncated([0xE2, 0x82]) && !Utf8Octets([0xE2, 0x82])
  {
    var s: Octets := [0xE2, 0x82];
    assert TruncatedAt(s, 0);
    assert ValidateNext(s, 0).err.NotEnoughRoom?;
    assert IsCharList([]) && Flatten([]) == s[..0];
    BrokenIsInvalid([], s, 0);
  }

  lemma RepairedAll(s: Octets, pieces: seq<Octets>, out: Octets, replacement: CodePoint)
    requires Repaired(s, |s|, pieces, out, replacement)
    ensures !EndsTruncated(s)
    ensures !IsCodePointValid(replacement) ==> Utf8Octets(s)
    ensures IsSegmentation(pieces, s)
  {
    assert s[..|s|] == s;
  }

  lemma BrokenIsInvalid(pieces: seq<Octets>, s: Octets, start: nat)
    requires start < |s| && IsCharList(pieces) && Flatten(pieces) == s[..start]
    requires !ValidateNext(s, start).err.Utf8Ok?
    ensures !Utf8Octets(s)
  {
    assert Utf8Octets(s[..start]);
    StuckMeansLongest(s, start);
    assert s[..|s|] == s;
  }
}
