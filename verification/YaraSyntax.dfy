/**
 The fragment of YARA's condition language that the translator writes: a lexer with
 longest match, a precedence grammar (`not`, then `and`, then `or`), and the truth of a
 condition for given match counts.  It knows nothing of the translator.
 */
module YaraSyntax {
  import opened Decimal

  datatype Token =
    | LParen | RParen | And | Or | Not
    | Equal | Greater | Less
    | Str(name: string)      // $name
    | Count(name: string)    // #name
    | Num(value: nat)

  datatype Lexed = NoLex | Lex(tokens: seq<Token>)

  function Cons(t: Token, rest: Lexed): Lexed {
    match rest
    case NoLex => NoLex
    case Lex(ts) => Lex([t] + ts)
  }

  predicate IsLetter(c: char) {
    'a' <= c <= 'z' || 'A' <= c <= 'Z' || c == '_'
  }

  predicate IsIdent(c: char) {
    IsLetter(c) || IsDigit(c)
  }

  function IdentRun(s: string): (n: nat)
    ensures n <= |s|
    ensures forall i :: 0 <= i < n ==> IsIdent(s[i])
    ensures n < |s| ==> !IsIdent(s[n])
  {
    if s != [] && IsIdent(s[0]) then 1 + IdentRun(s[1..]) else 0
  }

  /** What stands at the front of a text, and how long it is. */
  datatype Lexeme = Space | Word(token: Token, length: nat) | Unknown

  function Keyword(word: string): Lexeme {
    if word == "and" then Word(And, 3)
    else if word == "or" then Word(Or, 2)
    else if word == "not" then Word(Not, 3)
    else Unknown
  }

  function NextLexeme(s: string): (l: Lexeme)
    requires s != []
    ensures l.Word? ==> 0 < l.length <= |s|
  {
    var c := s[0];
    if c == ' ' || c == '\t' || c == '\n' then Space
    else if c == '(' then Word(LParen, 1)
    else if c == ')' then Word(RParen, 1)
    else if c == '>' then (if |s| > 1 && s[1] == '=' then Unknown else Word(Greater, 1))
    else if c == '<' then (if |s| > 1 && s[1] == '=' then Unknown else Word(Less, 1))
    else if c == '=' then (if |s| > 1 && s[1] == '=' then Word(Equal, 2) else Unknown)
    else if c == '$' || c == '#' then
      var n := IdentRun(s[1..]);
      var name := s[1..1 + n];
      Word(if c == '$' then Str(name) else Count(name), 1 + n)
    else if IsDigit(c) then
      var n := DigitRun(s);
      Word(Num(Value(s[..n])), n)
    else if IsLetter(c) then
      var n := IdentRun(s);
      assert |s[..n]| == n;
      Keyword(s[..n])
    else Unknown
  }

  function LexText(s: string): Lexed
    decreases |s|
  {
    if s == [] then Lex([])
    else match NextLexeme(s)
      case Space => LexText(s[1..])
      case Word(t, n) => Cons(t, LexText(s[n..]))
      case Unknown => NoLex
  }

  datatype Cond =
    | Matches(name: string)
    | Compares(name: string, op: Token, value: nat)
    | Negation(operand: Cond)
    | Conjunction(left: Cond, right: Cond)
    | Disjunction(left: Cond, right: Cond)

  datatype Parsed = NoParse | Parse(cond: Cond, rest: seq<Token>)

  predicate IsComparison(t: Token) {
    t.Equal? || t.Greater? || t.Less?
  }

  function ParseOr(ts: seq<Token>): (p: Parsed)
    ensures p.Parse? ==> |p.rest| < |ts|
    decreases |ts|, 4
  {
    match ParseAnd(ts)
    case NoParse => NoParse
    case Parse(e, rest) => ParseOrRest(e, rest)
  }

  function ParseOrRest(left: Cond, ts: seq<Token>): (p: Parsed)
    ensures p.Parse? ==> |p.rest| <= |ts|
    decreases |ts|, 3
  {
    if ts != [] && ts[0].Or? then
      match ParseAnd(ts[1..])
      case NoParse => NoParse
      case Parse(e, rest) => ParseOrRest(Disjunction(left, e), rest)
    else Parse(left, ts)
  }

  function ParseAnd(ts: seq<Token>): (p: Parsed)
    ensures p.Parse? ==> |p.rest| < |ts|
    decreases |ts|, 2
  {
    match ParsePrimary(ts)
    case NoParse => NoParse
    case Parse(e, rest) => ParseAndRest(e, rest)
  }

  function ParseAndRest(left: Cond, ts: seq<Token>): (p: Parsed)
    ensures p.Parse? ==> |p.rest| <= |ts|
    decreases |ts|, 1
  {
    if ts != [] && ts[0].And? then
      match ParsePrimary(ts[1..])
      case NoParse => NoParse
      case Parse(e, rest) => ParseAndRest(Conjunction(left, e), rest)
    else Parse(left, ts)
  }

  function ParsePrimary(ts: seq<Token>): (p: Parsed)
    ensures p.Parse? ==> |p.rest| < |ts|
    decreases |ts|, 0
  {
    if ts == [] then NoParse
    else match ts[0]
      case Str(name) => Parse(Matches(name), ts[1..])
      case Count(name) =>
        if |ts| > 2 && IsComparison(ts[1]) && ts[2].Num?
        then Parse(Compares(name, ts[1], ts[2].value), ts[3..]) else NoParse
      case Not =>
        (match ParsePrimary(ts[1..])
         case NoParse => NoParse
         case Parse(e, rest) => Parse(Negation(e), rest))
      case LParen =>
        (match ParseOr(ts[1..])
         case NoParse => NoParse
         case Parse(e, rest) => if rest != [] && rest[0].RParen? then Parse(e, rest[1..]) else NoParse)
      case _ => NoParse
  }

  /** The condition denoted by a text, if the whole of it is one. */
  function ParseCondition(s: string): Parsed {
    match LexText(s)
    case NoLex => NoParse
    case Lex(ts) =>
      var p := ParseOr(ts);
      if p.Parse? && p.rest == [] then p else NoParse
  }

  predicate True(e: Cond, counts: string -> nat) {
    match e
    case Matches(name) => counts(name) > 0
    case Compares(name, op, value) =>
      (match op
       case Equal => counts(name) == value
       case Greater => counts(name) > value
       case Less => counts(name) < value
       case _ => false)
    case Negation(a) => !True(a, counts)
    case Conjunction(a, b) => True(a, counts) && True(b, counts)
    case Disjunction(a, b) => True(a, counts) || True(b, counts)
  }
}
