/**
 The JSON reader: the unescaper, whitespace and comment skipping, and the grammar, which
 reports what it recognises as a sequence of events.
 */
module JsonReader {
  import opened Decimal
  import opened Sequences
  import opened ReportTree

  //////////////////////////////////////////////////////////////////////////////
  // Unescaping
  //////////////////////////////////////////////////////////////////////////////

  function HexToNum(c: char): (n: nat)
    ensures n < 16
  {
    if '0' <= c <= '9' then c as nat - '0' as nat
    else if 'a' <= c <= 'f' then c as nat - 'a' as nat + 10
    else if 'A' <= c <= 'F' then c as nat - 'A' as nat + 10
    else 0
  }

  /** What follows a backslash: the characters it stands for and how many it takes. */
  datatype Escaped = Escaped(chars: string, length: nat)

  /** append_esc_char_and_incr_iter, on the text after the backslash.  Unknown escapes, and
      hexadecimal ones cut short, stand for nothing. */
  function EscapedChar(s: string): (e: Escaped)
    requires s != []
    ensures 1 <= e.length <= |s|
  {
    var c := s[0];
    if c == 't' then Escaped("\t", 1)
    else if c == 'b' then Escaped([BACKSPACE], 1)
    else if c == 'f' then Escaped([FORM_FEED], 1)
    else if c == 'n' then Escaped("\n", 1)
    else if c == 'r' then Escaped("\r", 1)
    else if c == '\\' then Escaped("\\", 1)
    else if c == '/' then Escaped("/", 1)
    else if c == '\"' then Escaped("\"", 1)
    else if c == 'x' && |s| >= 3 then
      Escaped([(16 * HexToNum(s[1]) + HexToNum(s[2])) as char], 3)
    else if c == 'u' && |s| >= 5 then
      // The four digits are narrowed to one 8-bit character.
      Escaped([(16 * HexToNum(s[3]) + HexToNum(s[4])) as char], 5)
    else Escaped("", 1)
  }

  /** The text denoted by the inside of a string literal. */
  function Unescape(s: string): string
    decreases |s|
  {
    if |s| < 2 then s
    else if s[0] != '\\' then [s[0]] + Unescape(s[1..])
    else
      var e := EscapedChar(s[1..]);
      e.chars + Unescape(s[1 + e.length..])
  }

  const LOWER_DIGITS := "0123456789abcdef"
  const UPPER_DIGITS := "0123456789ABCDEF"

  /** The value of a hexadecimal digit is its place in either row of digits; any other character
      counts as 0. */
  predicate IsHexDigit(c: char, n: nat) {
    if c in LOWER_DIGITS || c in UPPER_DIGITS
    then n < 16 && (c == LOWER_DIGITS[n] || c == UPPER_DIGITS[n])
    else n == 0
  }

  lemma HexDigits(c: char, n: nat)
    requires IsHexDigit(c, n)
    ensures HexToNum(c) == n
  {
    DigitsInRows(c);
  }

  lemma DigitsInRows(c: char)
    ensures '0' <= c <= '9' || 'a' <= c <= 'f' ==> c in LOWER_DIGITS
    ensures 'A' <= c <= 'F' ==> c in UPPER_DIGITS
  {
    if '0' <= c <= '9' {
      assert LOWER_DIGITS[c as nat - '0' as nat] == c;
    } else if 'a' <= c <= 'f' {
      assert LOWER_DIGITS[c as nat - 'a' as nat + 10] == c;
    } else if 'A' <= c <= 'F' {
      assert UPPER_DIGITS[c as nat - 'A' as nat + 10] == c;
    }
  }

  /** The two-character escapes: what stands after the backslash, and what it stands for. */
  const SHORT_ESCAPES: seq<(char, char)> :=
    [('t', '\t'), ('b', '\U{0008}'), ('f', '\U{000C}'), ('n', '\n'), ('r', '\r'), ('\\', '\\'), ('/', '/'), ('\"', '\"')]

  lemma UnescapeShort(c: char, d: char, rest: string)
    requires (c, d) in SHORT_ESCAPES
    ensures Unescape(['\\', c] + rest) == [d] + Unescape(rest)
  {
    var s := ['\\', c] + rest;
    assert s[1..][0] == c && s[2..] == rest;
    assert EscapedChar(s[1..]) == Escaped([d], 1);
  }

  /** \xHH stands for the character of that number. */
  lemma UnescapeHex(c: char, m: nat, d: char, n: nat, rest: string)
    requires IsHexDigit(c, m) && IsHexDigit(d, n)
    ensures Unescape(['\\', 'x', c, d] + rest) == [(16 * m + n) as char] + Unescape(rest)
  {
    var s := ['\\', 'x', c, d] + rest;
    HexDigits(c, m);
    HexDigits(d, n);
    assert s[1..] == ['x', c, d] + rest && s[4..] == rest;
    EscapedHex(s[1..], 16 * m + n);
  }

  lemma EscapedHex(s: string, v: nat)
    requires |s| >= 3 && s[0] == 'x' && v == 16 * HexToNum(s[1]) + HexToNum(s[2])
    ensures EscapedChar(s) == Escaped([v as char], 3)
  {
  }

  /** \uHHHH stands for the character of the number's last eight bits. */
  lemma UnescapeUnicode(a: char, i: nat, b: char, j: nat, c: char, m: nat, d: char, n: nat, rest: string)
    requires IsHexDigit(a, i) && IsHexDigit(b, j) && IsHexDigit(c, m) && IsHexDigit(d, n)
    ensures Unescape(['\\', 'u', a, b, c, d] + rest) == [((4096 * i + 256 * j + 16 * m + n) % 256) as char] + Unescape(rest)
  {
    var s := ['\\', 'u', a, b, c, d] + rest;
    HexDigits(c, m);
    HexDigits(d, n);
    LastByte(i, j, m, n);
    assert s[1..] == ['u', a, b, c, d] + rest && s[6..] == rest;
    EscapedUnicode(s[1..], 16 * m + n);
  }

  lemma LastByte(i: nat, j: nat, m: nat, n: nat)
    requires m < 16 && n < 16
    ensures (4096 * i + 256 * j + 16 * m + n) % 256 == 16 * m + n
  {
  }

  lemma EscapedUnicode(s: string, v: nat)
    requires |s| >= 5 && s[0] == 'u' && v == 16 * HexToNum(s[3]) + HexToNum(s[4])
    ensures EscapedChar(s) == Escaped([v as char], 5)
  {
  }

  /** No escape: none of the above, or an `x` or `u` without enough characters behind it. */
  predicate IsUnknown(c: char, rest: string) {
    && c != 't' && c != 'b' && c != 'f' && c != 'n' && c != 'r' && c != '\\' && c != '/' && c != '\"'
    && (c == 'x' ==> |rest| < 2) && (c == 'u' ==> |rest| < 4)
  }

  /** Such a character is dropped with the backslash. */
  lemma UnescapeUnknown(c: char, rest: string)
    requires IsUnknown(c, rest)
    ensures Unescape(['\\', c] + rest) == Unescape(rest)
  {
    var s := ['\\', c] + rest;
    assert s[1..] == [c] + rest && s[2..] == rest;
    assert EscapedChar(s[1..]) == Escaped("", 1);
    assert "" + Unescape(rest) == Unescape(rest);
  }

  /** Any other character stands for itself, and so does a backslash at the end. */
  lemma UnescapePlain(c: char, rest: string)
    requires c != '\\' || rest == []
    ensures Unescape([c] + rest) == [c] + Unescape(rest)
  {
    assert ([c] + rest)[1..] == rest;
  }

  /** The state of substitute_esc_chars: `result` is written, `s[start..i]` is to be copied. */
  ghost predicate Substituted(s: string, result: string, start: nat, i: nat) {
    start <= i <= |s| && Unescape(s) == result + s[start..i] + Unescape(s[i..])
  }

  lemma SubstitutedCopy(s: string, result: string, start: nat, i: nat)
    requires Substituted(s, result, start, i) && i < |s| - 1 && s[i] != '\\'
    ensures Substituted(s, result, start, i + 1)
  {
    assert s[i..][1..] == s[i + 1..];
    assert Unescape(s[i..]) == [s[i]] + Unescape(s[i + 1..]);
    assert s[start..i] + [s[i]] == s[start..i + 1];
    var rest := Unescape(s[i + 1..]);
    assert result + s[start..i] + ([s[i]] + rest) == result + (s[start..i] + [s[i]]) + rest;
  }

  lemma UnescapeAt(s: string, i: nat, e: Escaped)
    requires i < |s| - 1 && s[i] == '\\' && e == EscapedChar(s[i + 1..])
    ensures Unescape(s[i..]) == e.chars + Unescape(s[i + e.length + 1..])
  {
    assert s[i..][1..] == s[i + 1..] && s[i..][1 + e.length..] == s[i + e.length + 1..];
  }

  lemma SubstitutedEscape(s: string, result: string, start: nat, i: nat, e: Escaped)
    requires Substituted(s, result, start, i) && i < |s| - 1 && s[i] == '\\' && e == EscapedChar(s[i + 1..])
    ensures Substituted(s, result + s[start..i] + e.chars, i + e.length + 1, i + e.length + 1)
  {
    var next := i + e.length + 1;
    UnescapeAt(s, i, e);
    Assoc(result + s[start..i], e.chars, Unescape(s[next..]));
    NothingToCopy(s, result + s[start..i] + e.chars, next);
  }

  lemma NothingToCopy(s: string, result: string, i: nat)
    requires i <= |s|
    ensures result + s[i..i] == result
  {
  }

  lemma CopyRest(s: string, result: string, start: nat, i: nat)
    requires start <= i <= |s|
    ensures result + s[start..i] + s[i..] == result + s[start..]
  {
    assert s[start..i] + s[i..] == s[start..];
  }

  /** The end of the loop: one character at most is left, and it is copied. */
  lemma SubstitutedAll(s: string, result: string, start: nat, i: nat)
    requires Substituted(s, result, start, i) && |s| <= i + 1
    ensures Unescape(s) == result + s[start..]
  {
    assert Unescape(s[i..]) == s[i..];
    CopyRest(s, result, start, i);
  }

  lemma SubstitutedStart(s: string)
    ensures Substituted(s, "", 0, 0)
  {
    assert s[0..] == s && "" + s[0..0] == "";
    assert "" + Unescape(s) == Unescape(s);
  }

  /** An escape: what was pending is copied, then what the escape stands for is written. */
  method SubstituteOne(s: string, result: string, substrStart: nat, i: nat) returns (r: string, next: nat)
    requires Substituted(s, result, substrStart, i) && i < |s| - 1 && s[i] == '\\'
    ensures i < next && Substituted(s, r, next, next)
  {
    var e := EscapedChar(s[i + 1..]);
    SubstitutedEscape(s, result, substrStart, i, e);
    r := result + s[substrStart..i] + e.chars;
    next := i + e.length + 1;
  }

  /** substitute_esc_chars: copies the stretches between escapes, up to the last character. */
  method SubstituteEscChars(s: string) returns (result: string)
    ensures result == Unescape(s)
  {
    if |s| < 2 {
      return s;
    }
    result := "";
    var substrStart: nat, i: nat := 0, 0;
    SubstitutedStart(s);
    while i < |s| - 1
      invariant Substituted(s, result, substrStart, i)
    {
      if s[i] == '\\' {
        result, i := SubstituteOne(s, result, substrStart, i);
        substrStart := i;
      } else {
        SubstitutedCopy(s, result, substrStart, i);
        i := i + 1;
      }
    }
    SubstitutedAll(s, result, substrStart, i);
    result := result + s[substrStart..];
  }

  //////////////////////////////////////////////////////////////////////////////
  // Grammar
  //////////////////////////////////////////////////////////////////////////////

  function AfterLine(s: string): (r: string)
    ensures |r| <= |s|
  {
    if s == [] then s else if s[0] == '\n' then s[1..] else AfterLine(s[1..])
  }

  datatype Block = Open | Closed(rest: string)

  function AfterBlock(s: string): (b: Block)
    ensures b.Closed? ==> |b.rest| <= |s|
  {
    if |s| < 2 then Open
    else if s[0] == '*' && s[1] == '/' then Closed(s[2..])
    else AfterBlock(s[1..])
  }

  /** Drops leading whitespace and comments. */
  function Skip(s: string): (r: string)
    ensures |r| <= |s|
    decreases |s|
  {
    if s == [] then s
    else if IsSpace(s[0]) then Skip(s[1..])
    else if |s| >= 2 && s[0] == '/' && s[1] == '/' then Skip(AfterLine(s[2..]))
    else if |s| >= 2 && s[0] == '/' && s[1] == '*' && AfterBlock(s[2..]).Closed? then Skip(AfterBlock(s[2..]).rest)
    else s
  }

  datatype Event =
    | BeginObj | EndObj | BeginArray | EndArray
    | NewName(name: string)
    | NewStr(text: string)
    | NewInt(value: int)
    | NewUint64(big: nat)
    | NewBool(b: bool)
    | NewNull

  /** A rule does not match, throws, or matches and leaves a rest. */
  datatype Reading = NoMatch | Throws | Match(events: seq<Event>, rest: string)

  /** Length of the inside of a string literal, from just after its opening quote. */
  datatype Literal = Unterminated | Inside(length: nat)

  function InsideLength(s: string): (l: Literal)
    ensures l.Inside? ==> l.length < |s| && s[l.length] == '\"'
    decreases |s|
  {
    if s == [] then Unterminated
    else if s[0] == '\"' then Inside(0)
    else if s[0] == '\\' then
      if |s| == 1 then Unterminated
      else match InsideLength(s[2..])
        case Unterminated => Unterminated
        case Inside(n) => Inside(2 + n)
    else match InsideLength(s[1..])
      case Unterminated => Unterminated
      case Inside(n) => Inside(1 + n)
  }

  datatype StringReading = NotAString | AString(text: string, rest: string)

  function StringAt(t: string): (r: StringReading)
    ensures r.AString? ==> |r.rest| < |t|
  {
    if t == [] || t[0] != '\"' then NotAString
    else match InsideLength(t[1..])
      case Unterminated => NotAString
      case Inside(n) => AString(Unescape(t[1..1 + n]), t[2 + n..])
  }

  function ReadString(s: string): (r: StringReading)
    ensures r.AString? ==> |r.rest| < |s|
  {
    StringAt(Skip(s))
  }

  const INT64_MAX: nat := 0x7FFF_FFFF_FFFF_FFFF
  const UINT64_MAX: nat := 0xFFFF_FFFF_FFFF_FFFF

  /** An unsigned run of digits: a signed number when it fits 63 bits, else an unsigned one.
      A run followed by a point is a real number, which is not modelled. */
  function ReadNumber(t: string): (r: Reading)
    ensures r.Match? ==> |r.rest| <= |t|
  {
    var n := DigitRun(t);
    if n == 0 || (n < |t| && t[n] == '.') then NoMatch
    else
      var v := Value(t[..n]);
      if v <= INT64_MAX then Match([NewInt(v)], t[n..])
      else if v <= UINT64_MAX then Match([NewUint64(v)], t[n..])
      else NoMatch
  }

  function ReadKeyword(t: string): (r: Reading)
    ensures r.Match? ==> |r.rest| <= |t|
  {
    if "true" <= t then Match([NewBool(true)], t[4..])
    else if "false" <= t then Match([NewBool(false)], t[5..])
    else if "null" <= t then Match([NewNull], t[4..])
    else NoMatch
  }

  function ReadValue(s: string): (r: Reading)
    ensures r.Match? ==> |r.rest| <= |s|
    decreases |s|, 3
  {
    ValueAt(Skip(s))
  }

  function ValueAt(t: string): (r: Reading)
    ensures r.Match? ==> |r.rest| <= |t|
    decreases |t|, 2
  {
    if t == [] then NoMatch
    else if t[0] == '\"' then
      match StringAt(t)
      case NotAString => NoMatch
      case AString(text, rest) => Match([NewStr(text)], rest)
    else if IsDigit(t[0]) then ReadNumber(t)
    else if t[0] == '{' then ReadObject(t[1..])
    else if t[0] == '[' then ReadArray(t[1..])
    else ReadKeyword(t)
  }

  function Expect(c: char, e: Event, events: seq<Event>, s: string): (r: Reading)
    ensures r.Match? ==> |r.rest| <= |s|
  {
    var t := Skip(s);
    if t != [] && t[0] == c then Match(events + [e], t[1..]) else Throws
  }

  /** After the opening brace. */
  function ReadObject(s: string): (r: Reading)
    ensures r.Match? ==> |r.rest| <= |s|
    decreases |s|, 1
  {
    match ReadPair(s)
    case NoMatch => Expect('}', EndObj, [BeginObj], s)
    case Throws => Throws
    case Match(events, rest) =>
      match ReadPairs(rest)
      case Match(more, rest) => Expect('}', EndObj, [BeginObj] + events + more, rest)
      case _ => Throws
  }

  /** Any number of further pairs, each after a comma. */
  function ReadPairs(s: string): (r: Reading)
    ensures !r.NoMatch?
    ensures r.Match? ==> |r.rest| <= |s|
    decreases |s|, 1
  {
    var t := Skip(s);
    if t == [] || t[0] != ',' then Match([], s)
    else match ReadPair(t[1..])
      case NoMatch => Match([], s)
      case Throws => Throws
      case Match(events, rest) =>
        match ReadPairs(rest)
        case Match(more, rest) => Match(events + more, rest)
        case _ => Throws
  }

  function ReadPair(s: string): (r: Reading)
    ensures r.Match? ==> |r.rest| < |s|
    decreases |s|, 0
  {
    match ReadString(s)
    case NotAString => NoMatch
    case AString(name, rest) =>
      var t := Skip(rest);
      if t == [] || t[0] != ':' then Throws
      else match ReadValue(t[1..])
        case Match(events, rest) => Match([NewName(name)] + events, rest)
        case _ => Throws
  }

  /** After the opening bracket. */
  function ReadArray(s: string): (r: Reading)
    ensures r.Match? ==> |r.rest| <= |s|
    decreases |s|, 4
  {
    match ReadValue(s)
    case NoMatch => Expect(']', EndArray, [BeginArray], s)
    case Throws => Throws
    case Match(events, rest) =>
      match ReadElements(rest)
      case Match(more, rest) => Expect(']', EndArray, [BeginArray] + events + more, rest)
      case _ => Throws
  }

  /** Any number of further elements, each after a comma. */
  function ReadElements(s: string): (r: Reading)
    ensures !r.NoMatch?
    ensures r.Match? ==> |r.rest| <= |s|
    decreases |s|, 0
  {
    var t := Skip(s);
    if t == [] || t[0] != ',' then Match([], s)
    else match ReadValue(t[1..])
      case NoMatch => Match([], s)
      case Throws => Throws
      case Match(events, rest) =>
        match ReadElements(rest)
        case Match(more, rest) => Match(events + more, rest)
        case _ => Throws
  }

  //////////////////////////////////////////////////////////////////////////////
  // What is passed over, and what plain values are read as
  //////////////////////////////////////////////////////////////////////////////

  lemma SkipBlank(c: char, rest: string)
    requires c in BLANKS
    ensures Skip([c] + rest) == Skip(rest)
  {
    SpacesAreBlanks(c);
    assert ([c] + rest)[1..] == rest;
  }

  /** A comment goes from two slashes to the end of the line. */
  lemma SkipLineComment(line: string, rest: string)
    requires '\n' !in line
    ensures Skip("//" + line + "\n" + rest) == Skip(rest)
    ensures Skip("//" + line) == ""
  {
    var s := "//" + line + "\n" + rest;
    assert s[2..] == line + ("\n" + rest);
    LineEnds(line, "\n" + rest);
    assert ("\n" + rest)[1..] == rest;
    var t := "//" + line;
    assert t[2..] == line && line + [] == line;
    LineEnds(line, []);
  }

  lemma {:induction false} LineEnds(line: string, rest: string)
    requires '\n' !in line
    ensures AfterLine(line + rest) == AfterLine(rest)
    decreases |line|
  {
    if line == [] {
      assert line + rest == rest;
    } else {
      assert (line + rest)[1..] == line[1..] + rest;
      LineEnds(line[1..], rest);
    }
  }

  /** The text does not hold the end of a comment. */
  predicate NoEnd(text: string) {
    forall i :: 0 <= i < |text| - 1 ==> !(text[i] == '*' && text[i + 1] == '/')
  }

  /** Or from a slash and an asterisk to the next asterisk and slash. */
  lemma SkipBlockComment(text: string, rest: string)
    requires NoEnd(text)
    ensures Skip("/*" + text + "*/" + rest) == Skip(rest)
  {
    var s := "/*" + text + "*/" + rest;
    assert s[2..] == text + ("*/" + rest);
    BlockEnds(text, rest);
  }

  lemma {:induction false} BlockEnds(text: string, rest: string)
    requires NoEnd(text)
    ensures AfterBlock(text + ("*/" + rest)) == Closed(rest)
    decreases |text|
  {
    var s := text + ("*/" + rest);
    if text == [] {
      assert s == "*/" + rest && s[2..] == rest;
    } else {
      assert s[0] == text[0] && s[1] == if |text| > 1 then text[1] else '*';
      assert s[1..] == text[1..] + ("*/" + rest);
      BlockEnds(text[1..], rest);
    }
  }

  /** No comment starts here. */
  predicate NoComment(s: string) {
    |s| < 2 || s[0] != '/' || (s[1] != '/' && s[1] != '*')
  }

  /** Anything else stays. */
  lemma SkipNothing(s: string)
    requires NoComment(s) && (s == [] || s[0] !in BLANKS)
    ensures Skip(s) == s
  {
    if s != [] {
      SpacesAreBlanks(s[0]);
    }
  }

  /** A numeral up to 2^63 - 1 is a signed integer, one below 2^64 an unsigned one, and one beyond is
      no value. */
  lemma NumbersAreRead(n: nat, rest: string)
    requires rest == [] || (!IsDigit(rest[0]) && rest[0] != '.')
    ensures ReadValue(Decimal.Dec(n) + rest) ==
      if n < 0x8000_0000_0000_0000 then Match([NewInt(n)], rest)
      else if n < 0x1_0000_0000_0000_0000 then Match([NewUint64(n)], rest)
      else NoMatch
  {
    var s := Decimal.Dec(n) + rest;
    assert s[0] == Decimal.Dec(n)[0];
    DigitIsNoBlank(s[0]);
    SkipNothing(s);
    DigitRunOfPrefix(Decimal.Dec(n), rest);
    ValueOfDec(n);
    assert s[..|Decimal.Dec(n)|] == Decimal.Dec(n) && s[|Decimal.Dec(n)|..] == rest;
  }

  /** A numeral with a point behind it is not an integer. */
  lemma PointedIsNoInteger(n: nat, rest: string)
    ensures ReadValue(Decimal.Dec(n) + ("." + rest)) == NoMatch
  {
    var s := Decimal.Dec(n) + ("." + rest);
    assert s[0] == Decimal.Dec(n)[0];
    DigitIsNoBlank(s[0]);
    SkipNothing(s);
    DigitRunOfPrefix(Decimal.Dec(n), "." + rest);
  }

  lemma DigitIsNoBlank(c: char)
    requires IsDigit(c)
    ensures c !in BLANKS && c != '/'
  {
    SpacesAreBlanks(c);
  }

  lemma KeywordsAreRead(rest: string)
    ensures ReadValue("true" + rest) == Match([NewBool(true)], rest)
    ensures ReadValue("false" + rest) == Match([NewBool(false)], rest)
    ensures ReadValue("null" + rest) == Match([NewNull], rest)
  {
    SpacesAreBlanks('t');
    SpacesAreBlanks('f');
    SpacesAreBlanks('n');
    SkipNothing("true" + rest);
    SkipNothing("false" + rest);
    SkipNothing("null" + rest);
    assert ("true" + rest)[4..] == rest && ("false" + rest)[5..] == rest && ("null" + rest)[4..] == rest;
    assert ("false" + rest)[0] == 'f' && ("null" + rest)[0] == 'n' && ("true" + rest)[0] == 't';
  }
}
