/** The report tree as values, and how its strings are escaped and trimmed for JSON. */
module ReportTree {
  import opened Sequences

  const BELL := '\U{0007}'
  const BACKSPACE := '\U{0008}'
  const VERTICAL_TAB := '\U{000B}'
  const FORM_FEED := '\U{000C}'

  datatype Modifier = NoModifier | Dec | Hex | AfterName | NewLine | HideName

  /** LIST, STRING and STRINGS nodes, and the unsigned integers UINT16, UINT32 and UINT64. */
  datatype Data =
    | List(children: seq<Node>)
    | Text(text: string)
    | Texts(texts: seq<string>)
    | Number(value: nat)

  datatype Node = Node(name: string, modifier: Modifier, data: Data)

  /** Numbers fit 64 bits. */
  predicate WellFormed(node: Node) {
    match node.data
    case List(children) => forall c <- children :: WellFormed(c)
    case Number(n) => n < 0x1_0000_0000_0000_0000
    case _ => true
  }

  /** The escape map of the JSON grammar, one character at a time. */
  function EscapeChar(c: char): (e: string)
    ensures e != []
  {
    if c == BELL then "\\a"
    else if c == BACKSPACE then "\\b"
    else if c == FORM_FEED then "\\f"
    else if c == '\n' then "\\n"
    else if c == '\r' then "\\r"
    else if c == '\t' then "\\t"
    else if c == VERTICAL_TAB then "\\v"
    else if c == '\\' then "\\\\"
    else if c == '\"' then "\\\""
    else [c]
  }

  function Escape(s: string): string {
    FlatMap(EscapeChar, s)
  }

  /** isspace in the C locale. */
  predicate IsSpace(c: char) {
    c == ' ' || c == '\t' || c == '\n' || c == VERTICAL_TAB || c == FORM_FEED || c == '\r'
  }

  function TrimLeft(s: string): string {
    if s != [] && IsSpace(s[0]) then TrimLeft(s[1..]) else s
  }

  function TrimRight(s: string): string {
    if s != [] && IsSpace(s[|s| - 1]) then TrimRight(s[..|s| - 1]) else s
  }

  /** boost::trim */
  function Trim(s: string): string {
    TrimRight(TrimLeft(s))
  }

  /** The characters that are trimmed. */
  const BLANKS: string := " \t\n\r\U{000B}\U{000C}"

  predicate AllBlank(s: string) {
    forall c <- s :: c in BLANKS
  }

  /** `t` is left of `s` when blanks are taken away on both sides, as far as there are any. */
  ghost predicate IsTrimmed(s: string, t: string) {
    && (t == [] || (t[0] !in BLANKS && t[|t| - 1] !in BLANKS))
    && exists a, b :: AllBlank(a) && AllBlank(b) && s == a + t + b
  }

  lemma SpacesAreBlanks(c: char)
    ensures IsSpace(c) <==> c in BLANKS
  {
    assert BLANKS == [' ', '\t', '\n', '\r', '\U{000B}', '\U{000C}'];
  }

  lemma {:induction false} TrimLeftSplits(s: string) returns (a: string)
    ensures AllBlank(a) && s == a + TrimLeft(s) && (TrimLeft(s) == [] || TrimLeft(s)[0] !in BLANKS)
    decreases |s|
  {
    a := [];
    if s != [] {
      SpacesAreBlanks(s[0]);
      if IsSpace(s[0]) {
        var rest := TrimLeftSplits(s[1..]);
        a := [s[0]] + rest;
      }
    }
  }

  lemma {:induction false} TrimRightSplits(s: string) returns (b: string)
    ensures AllBlank(b) && s == TrimRight(s) + b && (TrimRight(s) == [] || TrimRight(s)[|TrimRight(s)| - 1] !in BLANKS)
    decreases |s|
  {
    b := [];
    if s != [] {
      var last := |s| - 1;
      SpacesAreBlanks(s[last]);
      if IsSpace(s[last]) {
        var rest := TrimRightSplits(s[..last]);
        b := rest + [s[last]];
      }
    }
  }

  lemma TrimTrims(s: string)
    ensures IsTrimmed(s, Trim(s))
  {
    var a := TrimLeftSplits(s);
    var b := TrimRightSplits(TrimLeft(s));
    var t := Trim(s);
    Assoc(a, t, b);
    assert t != [] ==> t[0] == TrimLeft(s)[0];
    assert AllBlank(a) && AllBlank(b) && s == a + t + b;
  }

  /** Only one string is left, however the blanks are taken away. */
  lemma TrimmedIsUnique(s: string, t: string, u: string)
    requires IsTrimmed(s, t) && IsTrimmed(s, u)
    ensures t == u
  {
    var a, b :| AllBlank(a) && AllBlank(b) && s == a + t + b;
    var c, d :| AllBlank(c) && AllBlank(d) && s == c + u + d;
    NothingLeft(a, t, b);
    NothingLeft(c, u, d);
    if t != [] {
      Edges(s, a, t, b);
      Edges(s, c, u, d);
      assert s[|a|..|a| + |t|] == t && s[|c|..|c| + |u|] == u;
    }
  }

  /** Where the blanks in front end, and where those at the back begin. */
  lemma Edges(s: string, a: string, t: string, b: string)
    requires s == a + t + b && AllBlank(a) && AllBlank(b) && t != [] && t[0] !in BLANKS && t[|t| - 1] !in BLANKS
    ensures s[|a|] !in BLANKS && forall i :: 0 <= i < |a| ==> s[i] in BLANKS
    ensures s[|a| + |t| - 1] !in BLANKS && forall i :: |a| + |t| <= i < |s| ==> s[i] in BLANKS
  {
  }

  /** What is left is empty exactly when there are only blanks. */
  lemma NothingLeft(a: string, t: string, b: string)
    requires AllBlank(a) && AllBlank(b) && (t == [] || t[0] !in BLANKS)
    ensures t == [] <==> AllBlank(a + t + b)
  {
    assert t != [] ==> (a + t + b)[|a|] == t[0];
  }

  /** trim takes away exactly the blanks on both sides. */
  lemma TrimExactly(s: string, t: string)
    ensures t == Trim(s) <==> IsTrimmed(s, t)
  {
    TrimTrims(s);
    if IsTrimmed(s, t) {
      TrimmedIsUnique(s, t, Trim(s));
    }
  }
}
