/**
 Reading back what was printed.  For every report tree, the text written by the
 printer is read by the grammar, the unescaper and the stack machine as the same tree of
 names and values, strings being trimmed and losing the bell and vertical tab
 characters, whose escapes the reader does not know.
 */
module JsonRoundTrip {
  import opened Sequences
  import opened Decimal
  import opened ReportTree
  import opened JsonPrinter
  import opened JsonReader
  import opened JsonMachine

  //////////////////////////////////////////////////////////////////////////////
  // Strings
  //////////////////////////////////////////////////////////////////////////////

  predicate IsLost(c: char) {
    c == BELL || c == VERTICAL_TAB
  }

  function KeepChar(c: char): string {
    if IsLost(c) then "" else [c]
  }

  /** The string without its bells and vertical tabs. */
  function Kept(s: string): string {
    FlatMap(KeepChar, s)
  }

  /** An escape of the printer is a backslash and one letter, which the reader turns back. */
  lemma EscapedBack(c: char, rest: string)
    requires |EscapeChar(c)| != 1
    ensures |EscapeChar(c)| == 2 && EscapeChar(c)[0] == '\\'
    ensures EscapedChar([EscapeChar(c)[1]] + rest) == Escaped(KeepChar(c), 1)
  {
  }

  lemma UnescapePair(b: char, chars: string, rest: string)
    requires EscapedChar([b] + rest) == Escaped(chars, 1)
    ensures Unescape(['\\', b] + rest) == chars + Unescape(rest)
  {
    var s := ['\\', b] + rest;
    assert s[0..] == s && s[1..] == [b] + rest && s[2..] == rest;
    UnescapeAt(s, 0, Escaped(chars, 1));
  }

  lemma UnescapePlain(c: char, rest: string)
    requires c != '\\'
    ensures Unescape([c] + rest) == [c] + Unescape(rest)
  {
    var s := [c] + rest;
    assert s[1..] == rest;
    if rest == [] {
      assert s == [c];
    }
  }

  /** Unescaping the escape of one character, followed by anything. */
  lemma UnescapeOne(c: char, rest: string)
    ensures Unescape(EscapeChar(c) + rest) == KeepChar(c) + Unescape(rest)
  {
    var e := EscapeChar(c);
    if |e| == 1 {
      UnescapePlain(c, rest);
    } else {
      EscapedBack(c, rest);
      assert e == ['\\', e[1]];
      UnescapePair(e[1], KeepChar(c), rest);
    }
  }

  /** The reader's unescaper undoes the printer's escape, up to the lost characters. */
  lemma {:induction false} UnescapeEscape(s: string)
    ensures Unescape(Escape(s)) == Kept(s)
  {
    if s != [] {
      UnescapeEscape(s[1..]);
      UnescapeOne(s[0], Escape(s[1..]));
    }
  }

  lemma {:induction false} KeptLength(s: string)
    ensures |Kept(s)| <= |s|
    ensures (exists c <- s :: IsLost(c)) ==> |Kept(s)| < |s|
    ensures (forall c <- s :: !IsLost(c)) ==> Kept(s) == s
  {
    if s != [] {
      KeptLength(s[1..]);
      assert s == [s[0]] + s[1..];
    }
  }

  /** Escaping then unescaping gives a string back exactly when it has no lost character. */
  lemma EscapeRoundTripExact(s: string)
    ensures Unescape(Escape(s)) == s <==> forall c <- s :: !IsLost(c)
  {
    UnescapeEscape(s);
    KeptLength(s);
  }

  /** One unit inside a string literal: a plain character, or a backslash and another one. */
  predicate IsUnit(e: string) {
    || (|e| == 1 && e[0] != '\\' && e[0] != '\"')
    || (|e| == 2 && e[0] == '\\')
  }

  lemma EscapeIsUnit(c: char)
    ensures IsUnit(EscapeChar(c))
  {
  }

  lemma InsideUnit(e: string, rest: string)
    requires InsideLength(rest).Inside? && IsUnit(e)
    ensures InsideLength(e + rest) == Inside(|e| + InsideLength(rest).length)
  {
    assert (e + rest)[|e|..] == rest;
  }

  /** An escaped string ends at the quote printed after it. */
  lemma {:induction false} InsideEscaped(s: string, rest: string)
    ensures InsideLength(Escape(s) + ("\"" + rest)) == Inside(|Escape(s)|)
  {
    if s == [] {
      assert Escape(s) + ("\"" + rest) == "\"" + rest;
    } else {
      var tail := Escape(s[1..]) + ("\"" + rest);
      InsideEscaped(s[1..], rest);
      EscapeIsUnit(s[0]);
      InsideUnit(EscapeChar(s[0]), tail);
      assert Escape(s) + ("\"" + rest) == EscapeChar(s[0]) + tail;
    }
  }

  //////////////////////////////////////////////////////////////////////////////
  // Whitespace
  //////////////////////////////////////////////////////////////////////////////

  /** Blank text, which the reader skips. */
  predicate Blank(s: string) {
    forall i :: 0 <= i < |s| ==> IsSpace(s[i])
  }

  lemma {:induction false} SkipBlank(blank: string, s: string)
    requires Blank(blank)
    ensures Skip(blank + s) == Skip(s)
  {
    if blank == [] {
      assert blank + s == s;
    } else {
      assert (blank + s)[1..] == blank[1..] + s;
      SkipBlank(blank[1..], s);
    }
  }

  lemma {:induction false} PadIsBlank(level: nat)
    ensures Blank(Pad(level))
  {
    if level > 0 {
      PadIsBlank(level - 1);
    }
  }

  /** Text starting with a character that is neither blank nor a slash is not skipped. */
  predicate Solid(s: string) {
    s != [] && !IsSpace(s[0]) && s[0] != '/'
  }

  lemma SkipTo(blank: string, s: string)
    requires Blank(blank) && Solid(s)
    ensures Skip(blank + s) == s
  {
    SkipBlank(blank, s);
  }

  //////////////////////////////////////////////////////////////////////////////
  // The printed text with what follows it
  //////////////////////////////////////////////////////////////////////////////

  function QuotedThen(s: string, k: string): string {
    "\"" + (Escape(s) + ("\"" + k))
  }

  function ValueThen(node: Node, level: nat, k: string): string
    decreases node, 0
  {
    match node.data
    case Texts(texts) => "[" + ("\n" + ItemsThen(texts, level + 1, Pad(level) + ("]" + k)))
    case List(children) => "{" + ("\n" + NodesThen(children, level + 1, Pad(level) + ("}" + k)))
    case Text(text) => QuotedThen(Trim(text), k)
    case Number(n) => Decimal.Dec(n) + k
  }

  function NodeThen(node: Node, level: nat, k: string): string
    decreases node, 1
  {
    Pad(level) + QuotedThen(node.name, ":" + (" " + ValueThen(node, level, k)))
  }

  function NodesThen(nodes: seq<Node>, level: nat, k: string): string {
    if nodes == [] then k
    else if |nodes| == 1 then NodeThen(nodes[0], level, "\n" + k)
    else NodeThen(nodes[0], level, "," + ("\n" + NodesThen(nodes[1..], level, k)))
  }

  function ItemsThen(texts: seq<string>, level: nat, k: string): string {
    if texts == [] then k
    else if |texts| == 1 then Pad(level) + QuotedThen(Trim(texts[0]), "\n" + k)
    else Pad(level) + QuotedThen(Trim(texts[0]), "," + ("\n" + ItemsThen(texts[1..], level, k)))
  }

  //////////////////////////////////////////////////////////////////////////////
  // Reading it
  //////////////////////////////////////////////////////////////////////////////

  /** The value that the reader gives for a node. */
  function ValueOf(node: Node): Value {
    match node.data
    case Texts(texts) => Array(ItemValues(texts))
    case List(children) => Object(MembersOf(children))
    case Text(text) => Str(Kept(Trim(text)))
    case Number(n) => if n <= INT64_MAX then Int(n) else Uint64(n)
  }

  function MembersOf(nodes: seq<Node>): seq<Member> {
    if nodes == [] then [] else [Member(Kept(nodes[0].name), ValueOf(nodes[0]))] + MembersOf(nodes[1..])
  }

  function ItemValues(texts: seq<string>): seq<Value> {
    if texts == [] then [] else [Str(Kept(Trim(texts[0])))] + ItemValues(texts[1..])
  }

  lemma ReadQuoted(blank: string, s: string, k: string)
    requires Blank(blank)
    ensures ReadString(blank + QuotedThen(s, k)) == AString(Kept(s), k)
  {
    var t := QuotedThen(s, k);
    SkipTo(blank, t);
    InsideEscaped(s, k);
    UnescapeEscape(s);
    var e := Escape(s);
    assert t[1..] == e + ("\"" + k);
    assert t[1..1 + |e|] == e;
    assert t[2 + |e|..] == k;
  }

  /** What can follow a value in the printed text: not something a number could swallow. */
  predicate AfterValue(k: string) {
    k != [] && (k[0] == ',' || k[0] == '\n')
  }

  lemma ReadDigits(blank: string, n: nat, k: string)
    requires Blank(blank) && AfterValue(k) && n <= UINT64_MAX
    ensures ReadValue(blank + (Decimal.Dec(n) + k)) == Match([if n <= INT64_MAX then NewInt(n) else NewUint64(n)], k)
  {
    var d := Decimal.Dec(n);
    var t := d + k;
    assert t[0] == d[0];
    SkipTo(blank, t);
    DigitRunOfPrefix(d, k);
    ValueOfDec(n);
    assert t[..|d|] == d && t[|d|..] == k;
  }

  lemma ReadText(blank: string, s: string, k: string)
    requires Blank(blank)
    ensures ReadValue(blank + QuotedThen(s, k)) == Match([NewStr(Kept(s))], k)
  {
    ReadQuoted(blank, s, k);
    SkipTo(blank, QuotedThen(s, k));
  }

  lemma ReadBraced(blank: string, inner: string)
    requires Blank(blank)
    ensures ReadValue(blank + ("{" + inner)) == ReadObject(inner)
    ensures ReadValue(blank + ("[" + inner)) == ReadArray(inner)
  {
    SkipTo(blank, "{" + inner);
    SkipTo(blank, "[" + inner);
    assert ("{" + inner)[1..] == inner && ("[" + inner)[1..] == inner;
  }

  /** Leading blanks change nothing for a pair or a value. */
  lemma ReadPastBlank(blank: string, s: string)
    requires Blank(blank)
    ensures ReadPair(blank + s) == ReadPair(s)
    ensures ReadValue(blank + s) == ReadValue(s)
  {
    SkipBlank(blank, s);
  }

  lemma ExpectAfter(c: char, e: Event, events: seq<Event>, blank: string, k: string)
    requires Blank(blank) && Solid([c])
    ensures Expect(c, e, events, blank + ([c] + k)) == Match(events + [e], k)
  {
    SkipTo(blank, [c] + k);
    assert ([c] + k)[1..] == k;
  }

  /** Where the closing brace or bracket comes, there is no further pair or element. */
  lemma NothingMore(c: char, blank: string, k: string)
    requires Blank(blank) && (c == '}' || c == ']')
    ensures ReadPair(blank + ([c] + k)) == NoMatch
    ensures ReadValue(blank + ([c] + k)) == NoMatch
    ensures ReadPairs(blank + ([c] + k)) == Match([], blank + ([c] + k))
    ensures ReadElements(blank + ([c] + k)) == Match([], blank + ([c] + k))
  {
    SkipTo(blank, [c] + k);
  }

  /** The events of the pairs of sibling nodes. */
  lemma MemberEventsCons(node: Node, nodes: seq<Node>)
    ensures
      MemberEvents(MembersOf([node] + nodes)) ==
      [NewName(Kept(node.name))] + Events(ValueOf(node)) + MemberEvents(MembersOf(nodes))
  {
    assert ([node] + nodes)[1..] == nodes;
    var m := Member(Kept(node.name), ValueOf(node));
    assert ([m] + MembersOf(nodes))[1..] == MembersOf(nodes);
  }

  lemma ReadNamed(blank: string, name: string, value: string, events: seq<Event>, k: string)
    requires Blank(blank) && ReadValue(" " + value) == Match(events, k)
    ensures ReadPair(blank + QuotedThen(name, ":" + (" " + value))) == Match([NewName(Kept(name))] + events, k)
  {
    var rest := ":" + (" " + value);
    ReadQuoted(blank, name, rest);
    assert Solid(rest);
    assert rest[1..] == " " + value;
    assert ReadString(blank + QuotedThen(name, rest)) == AString(Kept(name), rest);
  }

  /** Reading a printed node gives its name and the events of its value, and stops after it. */
  lemma {:induction false} ReadNode(node: Node, level: nat, k: string)
    requires WellFormed(node) && AfterValue(k)
    ensures ReadPair(NodeThen(node, level, k)) == Match([NewName(Kept(node.name))] + Events(ValueOf(node)), k)
    decreases node, 3
  {
    PadIsBlank(level);
    ReadNodeValue(node, level, k);
    ReadNamed(Pad(level), node.name, ValueThen(node, level, k), Events(ValueOf(node)), k);
  }

  lemma {:induction false} ReadNodeValue(node: Node, level: nat, k: string)
    requires WellFormed(node) && AfterValue(k)
    ensures ReadValue(" " + ValueThen(node, level, k)) == Match(Events(ValueOf(node)), k)
    decreases node, 2
  {
    match node.data
    case Texts(texts) =>
      ReadTextsValue(texts, level, k);
    case List(children) =>
      ReadListValue(children, level, k);
    case Text(text) =>
      ReadText(" ", Trim(text), k);
    case Number(n) =>
      ReadDigits(" ", n, k);
  }

  lemma ReadTextsValue(texts: seq<string>, level: nat, k: string)
    ensures
      ReadValue(" " + ("[" + ("\n" + ItemsThen(texts, level + 1, Pad(level) + ("]" + k))))) ==
      Match(Events(Array(ItemValues(texts))), k)
  {
    ReadIndentedItems(texts, level, k);
    DispatchArray("\n" + ItemsThen(texts, level + 1, Pad(level) + ("]" + k)));
  }

  lemma DispatchArray(inner: string)
    ensures ReadValue(" " + ("[" + inner)) == ReadArray(inner)
  {
    ReadBraced(" ", inner);
  }

  lemma DispatchObject(inner: string)
    ensures ReadValue(" " + ("{" + inner)) == ReadObject(inner)
  {
    ReadBraced(" ", inner);
  }

  lemma ReadIndentedItems(texts: seq<string>, level: nat, k: string)
    ensures
      ReadArray("\n" + ItemsThen(texts, level + 1, Pad(level) + ("]" + k))) == Match(Events(Array(ItemValues(texts))), k)
  {
    PadIsBlank(level);
    ReadItemBlock(texts, level + 1, Pad(level), k);
  }

  lemma {:induction false} ReadIndentedNodes(children: seq<Node>, level: nat, k: string)
    requires forall n <- children :: WellFormed(n)
    ensures
      ReadObject("\n" + NodesThen(children, level + 1, Pad(level) + ("}" + k))) == Match(Events(Object(MembersOf(children))), k)
    decreases children, 2
  {
    PadIsBlank(level);
    ReadNodeBlock(children, level + 1, Pad(level), k);
  }

  lemma {:induction false} ReadListValue(children: seq<Node>, level: nat, k: string)
    requires forall n <- children :: WellFormed(n)
    ensures
      ReadValue(" " + ("{" + ("\n" + NodesThen(children, level + 1, Pad(level) + ("}" + k))))) ==
      Match(Events(Object(MembersOf(children))), k)
    decreases children, 3
  {
    ReadIndentedNodes(children, level, k);
    DispatchObject("\n" + NodesThen(children, level + 1, Pad(level) + ("}" + k)));
  }

  lemma CloseObject(s: string, events: seq<Event>, blank: string, k: string)
    requires ReadPair(s).Match? && ReadPairs(ReadPair(s).rest).Match? && Blank(blank)
    requires ReadPair(s).events + ReadPairs(ReadPair(s).rest).events == events
    requires ReadPairs(ReadPair(s).rest).rest == blank + ("}" + k)
    ensures ReadObject(s) == Match([BeginObj] + events + [EndObj], k)
  {
    var a, b := ReadPair(s).events, ReadPairs(ReadPair(s).rest).events;
    assert [BeginObj] + a + b == [BeginObj] + (a + b);
    ExpectAfter('}', EndObj, [BeginObj] + a + b, blank, k);
  }

  lemma CloseArray(s: string, events: seq<Event>, blank: string, k: string)
    requires ReadValue(s).Match? && ReadElements(ReadValue(s).rest).Match? && Blank(blank)
    requires ReadValue(s).events + ReadElements(ReadValue(s).rest).events == events
    requires ReadElements(ReadValue(s).rest).rest == blank + ("]" + k)
    ensures ReadArray(s) == Match([BeginArray] + events + [EndArray], k)
  {
    var a, b := ReadValue(s).events, ReadElements(ReadValue(s).rest).events;
    assert [BeginArray] + a + b == [BeginArray] + (a + b);
    ExpectAfter(']', EndArray, [BeginArray] + a + b, blank, k);
  }

  /** The children of a list, from the newline after its brace to the closing brace. */
  lemma {:induction false} ReadNodeBlock(nodes: seq<Node>, level: nat, blank: string, k: string)
    requires (forall n <- nodes :: WellFormed(n)) && Blank(blank)
    ensures ReadObject("\n" + NodesThen(nodes, level, blank + ("}" + k))) == Match(Events(Object(MembersOf(nodes))), k)
    decreases nodes, 1
  {
    var tail := blank + ("}" + k);
    var text := NodesThen(nodes, level, tail);
    ReadPastBlank("\n", text);
    var blank1 := "\n" + blank;
    assert "\n" + tail == blank1 + ("}" + k);
    if nodes == [] {
      NothingMore('}', blank1, k);
      ExpectAfter('}', EndObj, [BeginObj], blank1, k);
    } else {
      ReadSiblings(nodes, level, blank, k);
      CloseObject("\n" + text, MemberEvents(MembersOf(nodes)), blank1, k);
    }
  }

  /** A pair and the pairs after it, with all their events, up to `rest`. */
  ghost predicate SiblingsRead(text: string, events: seq<Event>, rest: string) {
    var p := ReadPair(text);
    p.Match? && ReadPairs(p.rest).Match? && ReadPairs(p.rest).rest == rest && p.events + ReadPairs(p.rest).events == events
  }

  lemma {:induction false} ReadSiblings(nodes: seq<Node>, level: nat, blank: string, k: string)
    requires nodes != [] && (forall n <- nodes :: WellFormed(n)) && Blank(blank)
    ensures
      var tail := blank + ("}" + k);
      SiblingsRead(NodesThen(nodes, level, tail), MemberEvents(MembersOf(nodes)), "\n" + tail)
    decreases nodes, 0
  {
    var tail := blank + ("}" + k);
    var node, others := nodes[0], nodes[1..];
    assert nodes == [node] + others;
    MemberEventsCons(node, others);
    var first := [NewName(Kept(node.name))] + Events(ValueOf(node));
    if others == [] {
      ReadNode(node, level, "\n" + tail);
      LastSibling(NodesThen(nodes, level, tail), first, blank, k);
    } else {
      var text := NodesThen(others, level, tail);
      ReadNode(node, level, "," + ("\n" + text));
      ReadSiblings(others, level, blank, k);
      NextSibling(NodesThen(nodes, level, tail), first, text, MemberEvents(MembersOf(others)), "\n" + tail);
    }
  }

  lemma LastSibling(s: string, events: seq<Event>, blank: string, k: string)
    requires Blank(blank) && ReadPair(s) == Match(events, "\n" + (blank + ("}" + k)))
    ensures SiblingsRead(s, events, "\n" + (blank + ("}" + k)))
    ensures SiblingsRead(s, events + [], "\n" + (blank + ("}" + k)))
  {
    assert "\n" + (blank + ("}" + k)) == ("\n" + blank) + ("}" + k);
    NothingMore('}', "\n" + blank, k);
    assert events + [] == events;
  }

  lemma NextSibling(s: string, events: seq<Event>, text: string, more: seq<Event>, rest: string)
    requires ReadPair(s) == Match(events, "," + ("\n" + text)) && SiblingsRead(text, more, rest)
    ensures SiblingsRead(s, events + more, rest)
  {
    ReadAfterComma(text);
  }

  lemma ReadAfterComma(text: string)
    requires ReadPair(text).Match? && ReadPairs(ReadPair(text).rest).Match?
    ensures
      var p := ReadPair(text);
      var q := ReadPairs(p.rest);
      ReadPairs("," + ("\n" + text)) == Match(p.events + q.events, q.rest)
  {
    var s := "," + ("\n" + text);
    assert s[1..] == "\n" + text;
    ReadPastBlank("\n", text);
  }

  lemma ReadElementAfterComma(text: string)
    requires ReadValue(text).Match? && ReadElements(ReadValue(text).rest).Match?
    ensures
      var p := ReadValue(text);
      var q := ReadElements(p.rest);
      ReadElements("," + ("\n" + text)) == Match(p.events + q.events, q.rest)
  {
    var s := "," + ("\n" + text);
    assert s[1..] == "\n" + text;
    ReadPastBlank("\n", text);
  }

  /** The lines of a STRINGS node, from the newline after its bracket to the closing bracket. */
  lemma ReadItemBlock(texts: seq<string>, level: nat, blank: string, k: string)
    requires Blank(blank)
    ensures ReadArray("\n" + ItemsThen(texts, level, blank + ("]" + k))) == Match(Events(Array(ItemValues(texts))), k)
  {
    var tail := blank + ("]" + k);
    var text := ItemsThen(texts, level, tail);
    ReadPastBlank("\n", text);
    var blank1 := "\n" + blank;
    assert "\n" + tail == blank1 + ("]" + k);
    if texts == [] {
      NothingMore(']', blank1, k);
      ExpectAfter(']', EndArray, [BeginArray], blank1, k);
    } else {
      ReadItems(texts, level, blank, k);
      CloseArray("\n" + text, ElementEvents(ItemValues(texts)), blank1, k);
    }
  }

  /** An element and the elements after it, with all their events, up to `rest`. */
  ghost predicate ElementsRead(text: string, events: seq<Event>, rest: string) {
    var p := ReadValue(text);
    p.Match? && ReadElements(p.rest).Match? && ReadElements(p.rest).rest == rest && p.events + ReadElements(p.rest).events == events
  }

  lemma LastElement(s: string, e: Event, blank: string, k: string)
    requires Blank(blank) && ReadValue(s) == Match([e], "\n" + (blank + ("]" + k)))
    ensures ElementsRead(s, [e], "\n" + (blank + ("]" + k)))
  {
    assert "\n" + (blank + ("]" + k)) == ("\n" + blank) + ("]" + k);
    NothingMore(']', "\n" + blank, k);
    assert [e] + [] == [e];
  }

  lemma NextElement(s: string, e: Event, text: string, more: seq<Event>, rest: string)
    requires ReadValue(s) == Match([e], "," + ("\n" + text)) && ElementsRead(text, more, rest)
    ensures ElementsRead(s, [e] + more, rest)
  {
    ReadElementAfterComma(text);
  }

  lemma ElementEventsCons(text: string, texts: seq<string>)
    ensures ElementEvents(ItemValues([text] + texts)) == [NewStr(Kept(Trim(text)))] + ElementEvents(ItemValues(texts))
  {
    assert ([text] + texts)[1..] == texts;
    var v := Str(Kept(Trim(text)));
    assert ([v] + ItemValues(texts))[1..] == ItemValues(texts);
  }

  lemma {:induction false} ReadItems(texts: seq<string>, level: nat, blank: string, k: string)
    requires texts != [] && Blank(blank)
    ensures
      var tail := blank + ("]" + k);
      ElementsRead(ItemsThen(texts, level, tail), ElementEvents(ItemValues(texts)), "\n" + tail)
    decreases |texts|
  {
    var tail := blank + ("]" + k);
    var others := texts[1..];
    PadIsBlank(level);
    assert texts == [texts[0]] + others;
    ElementEventsCons(texts[0], others);
    var e := NewStr(Kept(Trim(texts[0])));
    if others == [] {
      ReadText(Pad(level), Trim(texts[0]), "\n" + tail);
      assert [e] + [] == [e];
      LastElement(ItemsThen(texts, level, tail), e, blank, k);
    } else {
      var text := ItemsThen(others, level, tail);
      ReadText(Pad(level), Trim(texts[0]), "," + ("\n" + text));
      ReadItems(others, level, blank, k);
      NextElement(ItemsThen(texts, level, tail), e, text, ElementEvents(ItemValues(others)), "\n" + tail);
    }
  }

  //////////////////////////////////////////////////////////////////////////////
  // The printer writes that text
  //////////////////////////////////////////////////////////////////////////////

  lemma QuotedIs(s: string, k: string)
    ensures Quoted(s) + k == QuotedThen(s, k)
  {
    assert "\"" + Escape(s) + "\"" + k == "\"" + (Escape(s) + ("\"" + k));
  }

  /** Digits are neither escaped nor trimmed. */
  lemma {:induction false} EscapeDigits(d: string)
    requires AllDigits(d)
    ensures Escape(d) == d
  {
    if d != [] {
      EscapeDigits(d[1..]);
      assert d == [d[0]] + d[1..];
    }
  }

  lemma NumberIs(node: Node)
    requires node.data.Number?
    ensures ValueText(node, 0) == Decimal.Dec(node.data.value)
  {
    EscapeDigits(Decimal.Dec(node.data.value));
  }

  lemma CommaIs(a: string, comma: bool, k: string)
    ensures a + Comma(comma) + k == a + (if comma then "," + ("\n" + k) else "\n" + k)
  {
    if comma {
      assert Comma(comma) + k == "," + ("\n" + k);
    }
  }

  lemma BracketIs(openLine: string, open: string, inner: string, blank: string, close: string, k: string, y: string)
    requires openLine == open + "\n" && inner + (blank + (close + k)) == y
    ensures openLine + inner + blank + close + k == open + ("\n" + y)
  {
    assert openLine + inner + blank + close + k == openLine + inner + blank + (close + k);
    assert openLine + inner + blank + (close + k) == openLine + inner + (blank + (close + k));
    assert openLine + inner + (blank + (close + k)) == openLine + y;
    assert open + "\n" + y == open + ("\n" + y);
  }

  lemma ItemShape(pad: string, q: string, comma: string, rest: string, k: string)
    ensures pad + q + comma + rest + k == pad + (q + comma + (rest + k))
  {
    assert pad + q + comma + rest + k == pad + q + comma + (rest + k);
    assert pad + q + comma == pad + (q + comma);
  }

  lemma {:induction false} ItemsAre(texts: seq<string>, level: nat, k: string)
    ensures ItemLines(texts, level) + k == ItemsThen(texts, level, k)
    decreases |texts|
  {
    if texts == [] {
      assert "" + k == k;
    } else {
      var q := Quoted(Trim(texts[0]));
      var rest := ItemLines(texts[1..], level);
      var comma := |texts| > 1;
      ItemsAre(texts[1..], level, k);
      ItemShape(Pad(level), q, Comma(comma), rest, k);
      CommaIs(q, comma, rest + k);
      QuotedIs(Trim(texts[0]), if comma then "," + ("\n" + (rest + k)) else "\n" + (rest + k));
    }
  }

  lemma {:induction false} ValueIs(node: Node, level: nat, k: string)
    ensures ValueText(node, level) + k == ValueThen(node, level, k)
    decreases node, 0
  {
    match node.data
    case Texts(texts) =>
      ItemsAre(texts, level + 1, Pad(level) + ("]" + k));
      BracketIs("[\n", "[", ItemLines(texts, level + 1), Pad(level), "]", k, ItemsThen(texts, level + 1, Pad(level) + ("]" + k)));
    case List(children) =>
      NodesAre(children, level + 1, Pad(level) + ("}" + k));
      BracketIs("{\n", "{", RenderAll(children, level + 1), Pad(level), "}", k, NodesThen(children, level + 1, Pad(level) + ("}" + k)));
    case Text(text) => QuotedIs(Trim(text), k);
    case Number(_) => NumberIs(node);
  }

  lemma {:induction false} NodeIs(node: Node, level: nat, comma: bool, k: string)
    ensures Render(node, level, comma) + k == NodeThen(node, level, if comma then "," + ("\n" + k) else "\n" + k)
    decreases node, 1
  {
    var after := if comma then "," + ("\n" + k) else "\n" + k;
    ValueIs(node, level, after);
    var v := ValueText(node, level);
    RenderShape(Pad(level), Quoted(node.name), v, Comma(comma), k);
    CommaIs(v, comma, k);
    QuotedIs(node.name, ":" + (" " + (v + after)));
  }

  lemma RenderShape(pad: string, name: string, v: string, comma: string, k: string)
    ensures pad + name + ": " + v + comma + k == pad + (name + (":" + (" " + (v + comma + k))))
  {
    assert pad + name + ": " + v + comma + k == pad + name + ": " + (v + comma + k);
    var x := v + comma + k;
    assert pad + name + ": " + x == pad + name + (": " + x);
    assert ": " + x == ":" + (" " + x);
  }

  lemma {:induction false} NodesAre(nodes: seq<Node>, level: nat, k: string)
    ensures RenderAll(nodes, level) + k == NodesThen(nodes, level, k)
    decreases nodes, 2
  {
    if nodes == [] {
      assert "" + k == k;
    } else {
      var comma := |nodes| > 1;
      var rest := RenderAll(nodes[1..], level);
      NodesAre(nodes[1..], level, k);
      NodeIs(nodes[0], level, comma, rest + k);
      Assoc(Render(nodes[0], level, comma), rest, k);
    }
  }

  //////////////////////////////////////////////////////////////////////////////
  // The theorem
  //////////////////////////////////////////////////////////////////////////////

  datatype ReadResult = Failed | Value(value: Value)

  /** read: the grammar's events, run through the stack machine. */
  function ReadJson(s: string): ReadResult {
    match ReadValue(s)
    case Match(events, _) =>
      (match RunAll(INITIAL, events)
       case Ran(state) => ReadResult.Value(state.value)
       case Stuck => Failed)
    case _ => Failed
  }

  lemma FormatIs(nodes: seq<Node>)
    ensures FormatText(nodes) == "{" + ("\n" + NodesThen(nodes, 1, "" + ("}" + "\n")))
  {
    var body := RenderAll(nodes, 1);
    NodesAre(nodes, 1, "" + ("}" + "\n"));
    BracketIs("{\n", "{", body, "", "}", "\n", NodesThen(nodes, 1, "" + ("}" + "\n")));
    FooterIs("{\n" + body);
  }

  lemma FooterIs(a: string)
    ensures a + "" + "}" + "\n" == a + "}\n"
  {
    assert a + "" == a;
  }

  lemma ReportReads(nodes: seq<Node>)
    requires forall n <- nodes :: WellFormed(n)
    ensures ReadValue(FormatText(nodes)) == Match(Events(Object(MembersOf(nodes))), "\n")
  {
    FormatIs(nodes);
    ReadNodeBlock(nodes, 1, "", "\n");
    var inner := "\n" + NodesThen(nodes, 1, "" + ("}" + "\n"));
    ReadBraced("", inner);
    assert "" + ("{" + inner) == "{" + inner;
  }

  /** The printed report reads back as the object of its nodes. */
  lemma JsonRoundTrip(nodes: seq<Node>)
    requires forall n <- nodes :: WellFormed(n)
    ensures ReadJson(FormatText(nodes)) == ReadResult.Value(Object(MembersOf(nodes)))
  {
    ReportReads(nodes);
    RebuildsObject(MembersOf(nodes));
  }

  predicate NothingLost(s: string) {
    forall c <- s :: !IsLost(c)
  }

  /** No name and no trimmed string of the tree has a bell or a vertical tab. */
  predicate Lossless(node: Node) {
    && NothingLost(node.name)
    && match node.data
       case List(children) => forall c <- children :: Lossless(c)
       case Text(text) => NothingLost(Trim(text))
       case Texts(texts) => forall t <- texts :: NothingLost(Trim(t))
       case Number(_) => true
  }

  /** The node's own value, with its strings trimmed and otherwise untouched. */
  function ExactValue(node: Node): Value {
    match node.data
    case Texts(texts) => Array(ExactItems(texts))
    case List(children) => Object(ExactMembers(children))
    case Text(text) => Str(Trim(text))
    case Number(n) => if n <= INT64_MAX then Int(n) else Uint64(n)
  }

  function ExactMembers(nodes: seq<Node>): seq<Member> {
    if nodes == [] then [] else [Member(nodes[0].name, ExactValue(nodes[0]))] + ExactMembers(nodes[1..])
  }

  function ExactItems(texts: seq<string>): seq<Value> {
    if texts == [] then [] else [Str(Trim(texts[0]))] + ExactItems(texts[1..])
  }

  lemma KeptExact(s: string)
    ensures Kept(s) == s <==> NothingLost(s)
  {
    KeptLength(s);
  }

  lemma {:induction false} ItemsExact(texts: seq<string>)
    ensures ItemValues(texts) == ExactItems(texts) <==> forall t <- texts :: NothingLost(Trim(t))
  {
    if texts != [] {
      ItemsExact(texts[1..]);
      KeptExact(Trim(texts[0]));
      ConsEqual(Str(Kept(Trim(texts[0]))), ItemValues(texts[1..]), Str(Trim(texts[0])), ExactItems(texts[1..]));
    }
  }

  lemma ConsEqual<T>(a: T, s: seq<T>, b: T, t: seq<T>)
    ensures [a] + s == [b] + t <==> a == b && s == t
  {
    assert ([a] + s)[0] == a && ([a] + s)[1..] == s;
    assert ([b] + t)[0] == b && ([b] + t)[1..] == t;
  }

  lemma {:induction false} MembersExact(nodes: seq<Node>)
    ensures MembersOf(nodes) == ExactMembers(nodes) <==> forall n <- nodes :: Lossless(n)
    decreases nodes, 0
  {
    if nodes != [] {
      var n := nodes[0];
      MembersExact(nodes[1..]);
      ValueExact(n);
      KeptExact(n.name);
      ConsEqual(Member(Kept(n.name), ValueOf(n)), MembersOf(nodes[1..]), Member(n.name, ExactValue(n)), ExactMembers(nodes[1..]));
    }
  }

  lemma {:induction false} ValueExact(node: Node)
    ensures Kept(node.name) == node.name && ValueOf(node) == ExactValue(node) <==> Lossless(node)
    decreases node, 1
  {
    KeptExact(node.name);
    match node.data
    case List(children) => MembersExact(children);
    case Text(text) => KeptExact(Trim(text));
    case Texts(texts) => ItemsExact(texts);
    case Number(_) =>
  }

  /** The report comes back with every name and trimmed string intact exactly when none of them
      has a bell or a vertical tab. */
  lemma JsonRoundTripExact(nodes: seq<Node>)
    requires forall n <- nodes :: WellFormed(n)
    ensures ReadJson(FormatText(nodes)) == ReadResult.Value(Object(ExactMembers(nodes))) <==> forall n <- nodes :: Lossless(n)
  {
    JsonRoundTrip(nodes);
    MembersExact(nodes);
  }

  /** A bell in a text does not come back. */
  lemma BellIsLost()
    ensures
      var text := "a" + [BELL] + "b";
      && ReadJson(FormatText([Node("x", NoModifier, Text(text))])) == ReadResult.Value(Object([Member("x", Str("ab"))]))
      && Trim(text) == text
  {
    var text := "a" + [BELL] + "b";
    var node := Node("x", NoModifier, Text(text));
    JsonRoundTrip([node]);
    assert [node][1..] == [];
    assert MembersOf([node]) == [Member(Kept("x"), ValueOf(node))];
    assert Trim(text) == text;
    KeptLength("x");
    assert Kept("x") == "x";
    KeptOfThree('a', BELL, 'b');
    assert KeepChar('a') + KeepChar(BELL) + KeepChar('b') == "ab";
    assert ValueOf(node) == Str("ab");
  }

  lemma KeptOfThree(a: char, b: char, c: char)
    ensures Kept([a] + [b] + [c]) == KeepChar(a) + KeepChar(b) + KeepChar(c)
  {
    FlatMapAppend(KeepChar, [a] + [b], c);
    FlatMapAppend(KeepChar, [a], b);
    FlatMapAppend(KeepChar, [], a);
    assert [] + [a] == [a];
  }
}
