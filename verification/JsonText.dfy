/**
 The reader on any JSON text, not just the printer's: every value, written with any blanks before
 its tokens, is read as that value, and texts whose brackets or pairs are not completed are refused.
 */
module JsonText {
  import opened Decimal
  import opened Sequences
  import opened ReportTree
  import opened JsonReader
  import opened JsonMachine
  import opened JsonRoundTrip

  //////////////////////////////////////////////////////////////////////////////
  // How values are written
  //////////////////////////////////////////////////////////////////////////////

  /** The values that can be written: whole numbers of 64 bits, and text without the characters whose
      escapes the reader does not know. */
  predicate Writable(v: Value) {
    match v
    case Object(ms) => forall m <- ms :: NothingLost(m.name) && Writable(m.value)
    case Array(es) => forall e <- es :: Writable(e)
    case Str(text) => NothingLost(text)
    case Int(n) => 0 <= n < 0x8000_0000_0000_0000
    case Uint64(n) => 0x8000_0000_0000_0000 <= n < 0x1_0000_0000_0000_0000
    case _ => true
  }

  /** A value with the blanks `p` before each of its tokens, followed by `k`. */
  function WriteThen(v: Value, p: string, k: string): string
    decreases v, 0
  {
    match v
    case Object(ms) => p + ("{" + MembersThen(ms, p, p + ("}" + k)))
    case Array(es) => p + ("[" + ElementsThen(es, p, p + ("]" + k)))
    case Str(text) => p + TextThen(text, k)
    case Int(n) => p + (Decimal.Dec(if n < 0 then 0 else n) + k)
    case Uint64(n) => p + (Decimal.Dec(n) + k)
    case Bool(b) => p + ((if b then "true" else "false") + k)
    case Null => p + ("null" + k)
  }

  function TextThen(text: string, k: string): string {
    "\"" + (Escape(text) + ("\"" + k))
  }

  function MemberThen(m: Member, p: string, k: string): string
    decreases m, 1
  {
    p + TextThen(m.name, p + (":" + WriteThen(m.value, p, k)))
  }

  function MembersThen(ms: seq<Member>, p: string, k: string): string {
    if ms == [] then k
    else if |ms| == 1 then MemberThen(ms[0], p, k)
    else MemberThen(ms[0], p, p + ("," + MembersThen(ms[1..], p, k)))
  }

  function ElementsThen(es: seq<Value>, p: string, k: string): string {
    if es == [] then k
    else if |es| == 1 then WriteThen(es[0], p, k)
    else WriteThen(es[0], p, p + ("," + ElementsThen(es[1..], p, k)))
  }

  //////////////////////////////////////////////////////////////////////////////
  // What comes next
  //////////////////////////////////////////////////////////////////////////////

  /** The next character that is not passed over, if any, is not `c`. */
  predicate NotNext(c: char, s: string) {
    Skip(s) == [] || Skip(s)[0] != c
  }

  /** What follows does not continue a number. */
  predicate Ends(k: string) {
    k == [] || (!IsDigit(k[0]) && k[0] != '.')
  }

  lemma BlanksAreBlank(p: string)
    requires AllBlank(p)
    ensures Blank(p)
  {
    forall i | 0 <= i < |p| ensures IsSpace(p[i]) {
      assert p[i] in p;
      SpacesAreBlanks(p[i]);
    }
  }

  /** A sign after blanks. */
  lemma SignNext(p: string, c: char, k: string)
    requires AllBlank(p) && c in ",:]}"
    ensures Skip(p + ([c] + k)) == [c] + k && Ends(p + ([c] + k))
  {
    BlanksAreBlank(p);
    SkipTo(p, [c] + k);
    if p != [] {
      assert p[0] in p;
      SpacesAreBlanks(p[0]);
    }
  }

  //////////////////////////////////////////////////////////////////////////////
  // Pairs
  //////////////////////////////////////////////////////////////////////////////

  lemma ReadName(p: string, name: string, k: string)
    requires AllBlank(p) && NothingLost(name)
    ensures ReadString(p + TextThen(name, k)) == AString(name, k)
  {
    BlanksAreBlank(p);
    ReadQuoted(p, name, k);
    KeptLength(name);
  }

  /** A name without a colon after it. */
  lemma ColonIsMissed(p: string, name: string, k: string)
    requires AllBlank(p) && NothingLost(name) && NotNext(':', k)
    ensures ReadPair(p + TextThen(name, k)) == Throws
  {
    ReadName(p, name, k);
  }

  lemma PairIsRead(p: string, name: string, value: string, events: seq<Event>, k: string)
    requires AllBlank(p) && NothingLost(name) && ReadValue(value) == Match(events, k)
    ensures ReadPair(p + TextThen(name, p + (":" + value))) == Match([NewName(name)] + events, k)
  {
    ReadName(p, name, p + (":" + value));
    SignNext(p, ':', value);
    assert (":" + value)[1..] == value;
  }

  /** The last pair: nothing more is read where no comma comes. */
  lemma LastPair(s: string, events: seq<Event>, tail: string)
    requires ReadPair(s) == Match(events, tail) && NotNext(',', tail)
    ensures SiblingsRead(s, events, tail)
  {
    assert events + [] == events;
  }

  lemma NextPair(s: string, events: seq<Event>, p: string, text: string, more: seq<Event>, tail: string)
    requires AllBlank(p) && ReadPair(s) == Match(events, p + ("," + text)) && SiblingsRead(text, more, tail)
    ensures SiblingsRead(s, events + more, tail)
  {
    SignNext(p, ',', text);
    assert ("," + text)[1..] == text;
  }

  lemma {:induction false} MemberIsRead(m: Member, p: string, k: string)
    requires AllBlank(p) && NothingLost(m.name) && Writable(m.value) && Ends(k)
    ensures ReadPair(MemberThen(m, p, k)) == Match([NewName(m.name)] + Events(m.value), k)
    decreases m, 3
  {
    WrittenIsRead(m.value, p, k);
    PairIsRead(p, m.name, WriteThen(m.value, p, k), Events(m.value), k);
  }

  lemma {:induction false} MembersAreRead(ms: seq<Member>, p: string, tail: string)
    requires ms != [] && AllBlank(p) && Writable(Object(ms)) && NotNext(',', tail) && Ends(tail)
    ensures SiblingsRead(MembersThen(ms, p, tail), MemberEvents(ms), tail)
    decreases ms, 0
  {
    var m, others := ms[0], ms[1..];
    assert m in ms && forall x <- others :: x in ms;
    var events := [NewName(m.name)] + Events(m.value);
    if others == [] {
      MemberIsRead(m, p, tail);
      LastPair(MembersThen(ms, p, tail), events, tail);
      assert events + [] == events;
    } else {
      var text := MembersThen(others, p, tail);
      SignNext(p, ',', text);
      MemberIsRead(m, p, p + ("," + text));
      MembersAreRead(others, p, tail);
      NextPair(MembersThen(ms, p, tail), events, p, text, MemberEvents(others), tail);
    }
  }

  //////////////////////////////////////////////////////////////////////////////
  // Elements
  //////////////////////////////////////////////////////////////////////////////

  lemma LastItem(s: string, events: seq<Event>, tail: string)
    requires ReadValue(s) == Match(events, tail) && NotNext(',', tail)
    ensures ElementsRead(s, events, tail)
  {
    assert events + [] == events;
  }

  lemma NextItem(s: string, events: seq<Event>, p: string, text: string, more: seq<Event>, tail: string)
    requires AllBlank(p) && ReadValue(s) == Match(events, p + ("," + text)) && ElementsRead(text, more, tail)
    ensures ElementsRead(s, events + more, tail)
  {
    SignNext(p, ',', text);
    assert ("," + text)[1..] == text;
  }

  lemma {:induction false} ElementsAreRead(es: seq<Value>, p: string, tail: string)
    requires es != [] && AllBlank(p) && Writable(Array(es)) && NotNext(',', tail) && Ends(tail)
    ensures ElementsRead(ElementsThen(es, p, tail), ElementEvents(es), tail)
    decreases es, 0
  {
    var e, others := es[0], es[1..];
    assert e in es && forall x <- others :: x in es;
    if others == [] {
      WrittenIsRead(e, p, tail);
      LastItem(ElementsThen(es, p, tail), Events(e), tail);
      assert Events(e) + [] == Events(e);
    } else {
      var text := ElementsThen(others, p, tail);
      SignNext(p, ',', text);
      WrittenIsRead(e, p, p + ("," + text));
      ElementsAreRead(others, p, tail);
      NextItem(ElementsThen(es, p, tail), Events(e), p, text, ElementEvents(others), tail);
    }
  }

  //////////////////////////////////////////////////////////////////////////////
  // Objects and arrays, completed or not
  //////////////////////////////////////////////////////////////////////////////

  /** After the members, a closing brace completes the object and anything else but a comma is
      refused. */
  lemma ObjectEnds(s: string, events: seq<Event>, tail: string)
    requires SiblingsRead(s, events, tail)
    ensures ReadObject(s) == if NotNext('}', tail) then Throws else Match([BeginObj] + events + [EndObj], Skip(tail)[1..])
  {
    var a, b := ReadPair(s).events, ReadPairs(ReadPair(s).rest).events;
    Assoc([BeginObj], a, b);
  }

  lemma ArrayEnds(s: string, events: seq<Event>, tail: string)
    requires ElementsRead(s, events, tail)
    ensures ReadArray(s) == if NotNext(']', tail) then Throws else Match([BeginArray] + events + [EndArray], Skip(tail)[1..])
  {
    var a, b := ReadValue(s).events, ReadElements(ReadValue(s).rest).events;
    Assoc([BeginArray], a, b);
  }

  lemma EmptyObjectEnds(tail: string)
    requires NotNext('\"', tail)
    ensures ReadObject(tail) == if NotNext('}', tail) then Throws else Match([BeginObj, EndObj], Skip(tail)[1..])
  {
    assert [BeginObj] + [EndObj] == [BeginObj, EndObj];
  }

  lemma EmptyArrayEnds(tail: string)
    requires ReadValue(tail) == NoMatch
    ensures ReadArray(tail) == if NotNext(']', tail) then Throws else Match([BeginArray, EndArray], Skip(tail)[1..])
  {
    assert [BeginArray] + [EndArray] == [BeginArray, EndArray];
  }

  lemma OpeningIsRead(p: string, inner: string)
    requires AllBlank(p)
    ensures ReadValue(p + ("{" + inner)) == ReadObject(inner)
    ensures ReadValue(p + ("[" + inner)) == ReadArray(inner)
  {
    BlanksAreBlank(p);
    ReadBraced(p, inner);
  }

  /** An object whose members are followed by neither a comma nor a brace is refused. */
  lemma UnfinishedObjectThrows(ms: seq<Member>, p: string, tail: string)
    requires ms != [] && AllBlank(p) && Writable(Object(ms)) && Ends(tail) && NotNext(',', tail) && NotNext('}', tail)
    ensures ReadValue(p + ("{" + MembersThen(ms, p, tail))) == Throws
  {
    OpeningIsRead(p, MembersThen(ms, p, tail));
    MembersAreRead(ms, p, tail);
    ObjectEnds(MembersThen(ms, p, tail), MemberEvents(ms), tail);
  }

  /** An array whose elements are followed by neither a comma nor a bracket is refused. */
  lemma UnfinishedArrayThrows(es: seq<Value>, p: string, tail: string)
    requires es != [] && AllBlank(p) && Writable(Array(es)) && Ends(tail) && NotNext(',', tail) && NotNext(']', tail)
    ensures ReadValue(p + ("[" + ElementsThen(es, p, tail))) == Throws
  {
    OpeningIsRead(p, ElementsThen(es, p, tail));
    ElementsAreRead(es, p, tail);
    ArrayEnds(ElementsThen(es, p, tail), ElementEvents(es), tail);
  }

  lemma {:induction false} ObjectIsRead(ms: seq<Member>, p: string, k: string)
    requires AllBlank(p) && Writable(Object(ms))
    ensures ReadValue(p + ("{" + MembersThen(ms, p, p + ("}" + k)))) == Match(Events(Object(ms)), k)
    decreases ms, 1
  {
    var tail := p + ("}" + k);
    SignNext(p, '}', k);
    OpeningIsRead(p, MembersThen(ms, p, tail));
    assert ("}" + k)[1..] == k;
    if ms == [] {
      EmptyObjectEnds(tail);
      assert [BeginObj] + [] + [EndObj] == [BeginObj, EndObj];
    } else {
      MembersAreRead(ms, p, tail);
      ObjectEnds(MembersThen(ms, p, tail), MemberEvents(ms), tail);
    }
  }

  lemma {:induction false} ArrayIsRead(es: seq<Value>, p: string, k: string)
    requires AllBlank(p) && Writable(Array(es))
    ensures ReadValue(p + ("[" + ElementsThen(es, p, p + ("]" + k)))) == Match(Events(Array(es)), k)
    decreases es, 1
  {
    var tail := p + ("]" + k);
    SignNext(p, ']', k);
    OpeningIsRead(p, ElementsThen(es, p, tail));
    assert ("]" + k)[1..] == k;
    if es == [] {
      BlanksAreBlank(p);
      NothingMore(']', p, k);
      EmptyArrayEnds(tail);
      assert [BeginArray] + [] + [EndArray] == [BeginArray, EndArray];
    } else {
      ElementsAreRead(es, p, tail);
      ArrayEnds(ElementsThen(es, p, tail), ElementEvents(es), tail);
    }
  }

  /** Numbers and keywords after blanks. */
  lemma AfterBlanks(p: string, s: string)
    requires AllBlank(p)
    ensures ReadValue(p + s) == ReadValue(s)
  {
    BlanksAreBlank(p);
    ReadPastBlank(p, s);
  }

  /** Every value, however much blank there is between its tokens, is read as itself. */
  lemma {:induction false} WrittenIsRead(v: Value, p: string, k: string)
    requires AllBlank(p) && Writable(v) && Ends(k)
    ensures ReadValue(WriteThen(v, p, k)) == Match(Events(v), k)
    decreases v, 2
  {
    match v
    case Object(ms) => ObjectIsRead(ms, p, k);
    case Array(es) => ArrayIsRead(es, p, k);
    case Str(text) =>
      BlanksAreBlank(p);
      ReadText(p, text, k);
      KeptLength(text);
    case Int(n) =>
      AfterBlanks(p, Decimal.Dec(n) + k);
      NumbersAreRead(n, k);
    case Uint64(n) =>
      AfterBlanks(p, Decimal.Dec(n) + k);
      NumbersAreRead(n, k);
    case Bool(b) =>
      AfterBlanks(p, (if b then "true" else "false") + k);
      KeywordsAreRead(k);
    case Null =>
      AfterBlanks(p, "null" + k);
      KeywordsAreRead(k);
  }

  /** So reading is an inverse of writing, through the grammar and the stack machine, for every object. */
  lemma WrittenObjectIsRebuilt(ms: seq<Member>, p: string, k: string)
    requires AllBlank(p) && Writable(Object(ms)) && Ends(k)
    ensures ReadJson(WriteThen(Object(ms), p, k)) == ReadResult.Value(Object(ms))
  {
    WrittenIsRead(Object(ms), p, k);
    RebuildsObject(ms);
  }
}
