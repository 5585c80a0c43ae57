/** The JSON printer: the text of a report tree, and the methods that write it to a sink. */
module JsonPrinter {
  import opened Decimal
  import opened Sequences
  import opened ReportTree

  function Repeat(s: string, n: nat): string {
    if n == 0 then "" else Repeat(s, n - 1) + s
  }

  function Pad(level: nat): string {
    Repeat("    ", level)
  }

  /** to_string for the integer types, when they are not displayed in hexadecimal. */
  function NumberText(node: Node): string
    requires node.data.Number? && !node.modifier.Hex?
  {
    Decimal.Dec(node.data.value)
  }

  /** The modifier that _dump_node leaves on a node: hexadecimal is not valid JSON. */
  function WithoutHex(node: Node): (r: Node)
    ensures !r.modifier.Hex? && r.data == node.data && r.name == node.name
    ensures node.modifier != Hex ==> r == node
  {
    if node.modifier.Hex? then node.(modifier := NoModifier) else node
  }

  function Quoted(s: string): string {
    "\"" + Escape(s) + "\""
  }

  function Comma(append: bool): string {
    if append then ",\n" else "\n"
  }

  /** What is printed after a node's name and colon. */
  function ValueText(node: Node, level: nat): string
    decreases node, 0
  {
    match node.data
    case Texts(texts) => "[\n" + ItemLines(texts, level + 1) + Pad(level) + "]"
    case List(children) => "{\n" + RenderAll(children, level + 1) + Pad(level) + "}"
    case Text(text) => Quoted(Trim(text))
    case Number(_) => Trim(Escape(NumberText(WithoutHex(node))))
  }

  function Render(node: Node, level: nat, appendComma: bool): string
    decreases node, 1
  {
    Pad(level) + Quoted(node.name) + ": " + ValueText(node, level) + Comma(appendComma)
  }

  /** Sibling nodes, with a comma after all but the last. */
  function RenderAll(nodes: seq<Node>, level: nat): string {
    if nodes == [] then "" else Render(nodes[0], level, |nodes| > 1) + RenderAll(nodes[1..], level)
  }

  function ItemLines(texts: seq<string>, level: nat): string {
    if texts == [] then ""
    else Pad(level) + Quoted(Trim(texts[0])) + Comma(|texts| > 1) + ItemLines(texts[1..], level)
  }

  /** The text of a whole report. */
  function FormatText(nodes: seq<Node>): string {
    "{\n" + RenderAll(nodes, 1) + "}\n"
  }

  class Sink {
    var text: string

    constructor ()
      ensures text == ""
    {
      text := "";
    }

    method Write(s: string)
      modifies this
      ensures text == old(text) + s
    {
      text := text + s;
    }
  }

  method RepeatText(s: string, n: nat) returns (r: string)
    ensures r == Repeat(s, n)
  {
    r := "";
    for j := 0 to n
      invariant r == Repeat(s, j)
    {
      r := r + s;
    }
  }

  method DumpTexts(sink: Sink, texts: seq<string>, level: nat)
    modifies sink
    ensures sink.text == old(sink.text) + ItemLines(texts, level)
  {
    var i := 0;
    assert texts[0..] == texts;
    while i < |texts|
      invariant 0 <= i <= |texts|
      invariant old(sink.text) + ItemLines(texts, level) == sink.text + ItemLines(texts[i..], level)
    {
      var indent := RepeatText("    ", level);
      var line := indent + Quoted(Trim(texts[i])) + Comma(i + 1 < |texts|);
      assert texts[i..][0] == texts[i] && texts[i..][1..] == texts[i + 1..];
      assert ItemLines(texts[i..], level) == line + ItemLines(texts[i + 1..], level);
      Assoc(sink.text, line, ItemLines(texts[i + 1..], level));
      sink.Write(line);
      i := i + 1;
    }
  }

  lemma RegroupFour(a: string, b: string, c: string, d: string, e: string)
    ensures a + b + c + d + e == a + (b + c + d + e)
  {
    Assoc(a, b, c);
    Assoc(a, b + c, d);
    Assoc(a, b + c + d, e);
  }

  /** The start of a node's first line. */
  function Head(node: Node, level: nat, printName: bool): string {
    if printName then Pad(level) + Quoted(node.name) + ": " else Pad(level)
  }

  /** _dump_node: writes a node, with or without its name, and, for a list, its children one level
      deeper. */
  method DumpNode(sink: Sink, node: Node, level: nat, appendComma: bool, printName: bool)
    modifies sink
    ensures sink.text == old(sink.text) + (Head(node, level, printName) + ValueText(node, level) + Comma(appendComma))
    ensures printName ==> sink.text == old(sink.text) + Render(node, level, appendComma)
    decreases node, 2
  {
    var indent := RepeatText("    ", level);
    var head := if printName then indent + Quoted(node.name) + ": " else indent;
    sink.Write(head);
    DumpValue(sink, WithoutHex(node), level);
    sink.Write(Comma(appendComma));
    RegroupThree(old(sink.text), head, ValueText(node, level), Comma(appendComma));
  }

  lemma RegroupThree(a: string, b: string, c: string, d: string)
    ensures a + b + c + d == a + (b + c + d)
  {
    Assoc(a, b, c);
    Assoc(a, b + c, d);
  }

  method DumpValue(sink: Sink, node: Node, level: nat)
    requires !node.modifier.Hex?
    modifies sink
    ensures sink.text == old(sink.text) + ValueText(node, level)
    decreases node.data, 1
  {
    var indent := RepeatText("    ", level);
    match node.data {
      case Texts(texts) =>
        sink.Write("[\n");
        DumpTexts(sink, texts, level + 1);
        sink.Write(indent);
        sink.Write("]");
        RegroupFour(old(sink.text), "[\n", ItemLines(texts, level + 1), indent, "]");
      case List(children) =>
        sink.Write("{\n");
        DumpNodes(sink, children, level + 1);
        sink.Write(indent);
        sink.Write("}");
        RegroupFour(old(sink.text), "{\n", RenderAll(children, level + 1), indent, "}");
      case Text(text) =>
        sink.Write(Quoted(Trim(text)));
      case Number(_) =>
        sink.Write(Trim(Escape(NumberText(node))));
    }
  }

  method DumpNodes(sink: Sink, nodes: seq<Node>, level: nat)
    modifies sink
    ensures sink.text == old(sink.text) + RenderAll(nodes, level)
    decreases nodes, 0
  {
    var i := 0;
    assert nodes[0..] == nodes;
    while i < |nodes|
      invariant 0 <= i <= |nodes|
      invariant old(sink.text) + RenderAll(nodes, level) == sink.text + RenderAll(nodes[i..], level)
    {
      ghost var before := sink.text;
      DumpNode(sink, nodes[i], level, i + 1 < |nodes|, true);
      assert nodes[i..][0] == nodes[i] && nodes[i..][1..] == nodes[i + 1..];
      Assoc(before, Render(nodes[i], level, i + 1 < |nodes|), RenderAll(nodes[i + 1..], level));
      i := i + 1;
    }
  }

  /** The formatter: the nodes still to be printed, and whether the header is still to come. */
  class JsonFormatter {
    var root: seq<Node>
    var printHeader: bool

    constructor (root: seq<Node>)
      ensures this.root == root && printHeader
    {
      this.root, printHeader := root, true;
    }

    /** format: the header if it was not printed before, every file's tree, and the footer at the end of
        the stream.  What was printed is dropped. */
    method Format(sink: Sink, endStream: bool)
      modifies this, sink
      ensures
        var header := if old(printHeader) then "{\n" else "";
        var footer := if endStream then "}\n" else "";
        sink.text == old(sink.text) + header + RenderAll(old(root), 1) + footer
      ensures root == [] && !printHeader
    {
      if printHeader {
        sink.Write("{\n");
        printHeader := false;
      }
      assert sink.text == old(sink.text) + if old(printHeader) then "{\n" else "";
      DumpNodes(sink, root, 1);
      ghost var body := sink.text;
      if endStream {
        sink.Write("}\n");
      }
      assert sink.text == body + if endStream then "}\n" else "";
      root := [];
    }
  }

  /** A single call, which is also the last, writes the whole report. */
  method FormatAll(sink: Sink, nodes: seq<Node>)
    modifies sink
    ensures sink.text == old(sink.text) + FormatText(nodes)
  {
    var formatter := new JsonFormatter(nodes);
    formatter.Format(sink, true);
    RegroupThree(old(sink.text), "{\n", RenderAll(nodes, 1), "}\n");
  }
}
