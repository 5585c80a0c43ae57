/**
 ClamAV logical expressions: the tokens that the translator's regular expression
 finds in them, their grammar, and when a file with given match counts satisfies them.
 */
module ClamSyntax {
  import opened Options
  import opened Decimal

  datatype Token = LParen | RParen | And | Or | Equal | Greater | Less | Comma | Num(digits: string)

  predicate IsComparison(t: Token) {
    t.Equal? || t.Greater? || t.Less?
  }

  predicate WellFormedToken(t: Token) {
    t.Num? ==> t.digits != [] && AllDigits(t.digits)
  }

  predicate WellFormed(ts: seq<Token>) {
    forall i :: 0 <= i < |ts| ==> WellFormedToken(ts[i])
  }

  function Symbol(c: char): Option<Token> {
    match c
    case '(' => Some(LParen)
    case ')' => Some(RParen)
    case '&' => Some(And)
    case '|' => Some(Or)
    case '=' => Some(Equal)
    case '>' => Some(Greater)
    case '<' => Some(Less)
    case ',' => Some(Comma)
    case _ => None
  }

  /** All matches of ([=,<>()&|]|\d+), in order; any other character is passed over. */
  function Tokenize(s: string): (ts: seq<Token>)
    ensures WellFormed(ts)
    decreases |s|
  {
    if s == [] then []
    else if IsDigit(s[0]) then
      var n := DigitRun(s);
      assert n > 0;
      [Num(s[..n])] + Tokenize(s[n..])
    else
      var rest := Tokenize(s[1..]);
      match Symbol(s[0])
      case Some(t) => [t] + rest
      case None => rest
  }

  /** A sub-signature, a parenthesised group, a comparison of an expression's match count (with an
      optional number of distinct signatures after a comma), or a combination. */
  datatype Expr =
    | Sub(index: nat)
    | Group(inner: Expr)
    | Compare(operand: Expr, op: Token, count: string, distinct: Option<string>)
    | Both(left: Expr, right: Expr)
    | Either(left: Expr, right: Expr)

  datatype Parsed = NoParse | Parse(expr: Expr, rest: seq<Token>)

  /** Alternatives of conjunctions; `&` binds tighter than `|`. */
  function ParseOr(ts: seq<Token>): (p: Parsed)
    requires WellFormed(ts)
    ensures p.Parse? ==> |p.rest| < |ts| && WellFormed(p.rest)
    decreases |ts|, 4
  {
    match ParseAnd(ts)
    case NoParse => NoParse
    case Parse(e, rest) => ParseOrRest(e, rest)
  }

  function ParseOrRest(left: Expr, ts: seq<Token>): (p: Parsed)
    requires WellFormed(ts)
    ensures p.Parse? ==> |p.rest| <= |ts| && WellFormed(p.rest)
    decreases |ts|, 3
  {
    if ts != [] && ts[0].Or? then
      match ParseAnd(ts[1..])
      case NoParse => NoParse
      case Parse(e, rest) => ParseOrRest(Either(left, e), rest)
    else Parse(left, ts)
  }

  function ParseAnd(ts: seq<Token>): (p: Parsed)
    requires WellFormed(ts)
    ensures p.Parse? ==> |p.rest| < |ts| && WellFormed(p.rest)
    decreases |ts|, 2
  {
    match ParseFactor(ts)
    case NoParse => NoParse
    case Parse(e, rest) => ParseAndRest(e, rest)
  }

  function ParseAndRest(left: Expr, ts: seq<Token>): (p: Parsed)
    requires WellFormed(ts)
    ensures p.Parse? ==> |p.rest| <= |ts| && WellFormed(p.rest)
    decreases |ts|, 1
  {
    if ts != [] && ts[0].And? then
      match ParseFactor(ts[1..])
      case NoParse => NoParse
      case Parse(e, rest) => ParseAndRest(Both(left, e), rest)
    else Parse(left, ts)
  }

  function ParseFactor(ts: seq<Token>): (p: Parsed)
    requires WellFormed(ts)
    ensures p.Parse? ==> |p.rest| < |ts| && WellFormed(p.rest)
    decreases |ts|, 0
  {
    if ts == [] then NoParse
    else if ts[0].Num? then ParseComparison(Sub(Value(ts[0].digits)), ts[1..])
    else if ts[0].LParen? then
      match ParseOr(ts[1..])
      case NoParse => NoParse
      case Parse(e, rest) =>
        if rest != [] && rest[0].RParen? then ParseComparison(Group(e), rest[1..]) else NoParse
    else NoParse
  }

  /** An optional `=n`, `>n` or `<n`, itself optionally followed by `,m`. */
  function ParseComparison(e: Expr, ts: seq<Token>): (p: Parsed)
    requires WellFormed(ts)
    ensures p.Parse? ==> |p.rest| <= |ts| && WellFormed(p.rest)
  {
    if ts == [] || !IsComparison(ts[0]) then Parse(e, ts)
    else if |ts| < 2 || !ts[1].Num? then NoParse
    else if |ts| < 3 || !ts[2].Comma? then Parse(Compare(e, ts[0], ts[1].digits, None), ts[2..])
    else if |ts| < 4 || !ts[3].Num? then NoParse
    else Parse(Compare(e, ts[0], ts[1].digits, Some(ts[3].digits)), ts[4..])
  }

  /** The expression denoted by a whole logical-expression string. */
  function ParseExpression(s: string): Option<Expr> {
    match ParseOr(Tokenize(s))
    case NoParse => None
    case Parse(e, rest) => if rest == [] then Some(e) else None
  }

  /** Only single sub-signatures are counted, and without a number of distinct signatures. */
  predicate Plain(e: Expr) {
    match e
    case Sub(_) => true
    case Group(a) => Plain(a)
    case Compare(a, op, count, distinct) => a.Sub? && distinct.None? && IsComparison(op) && AllDigits(count)
    case Both(a, b) => Plain(a) && Plain(b)
    case Either(a, b) => Plain(a) && Plain(b)
  }

  predicate IndicesBelow(e: Expr, n: nat) {
    match e
    case Sub(k) => k < n
    case Group(a) => IndicesBelow(a, n)
    case Compare(a, _, _, _) => IndicesBelow(a, n)
    case Both(a, b) => IndicesBelow(a, n) && IndicesBelow(b, n)
    case Either(a, b) => IndicesBelow(a, n) && IndicesBelow(b, n)
  }

  predicate Holds(c: nat, op: Token, n: nat)
    requires IsComparison(op)
  {
    match op
    case Equal => c == n
    case Greater => c > n
    case Less => c < n
  }

  /** Whether a file in which sub-signature k matches counts(k) times satisfies the expression. */
  predicate Satisfied(e: Expr, counts: nat -> nat)
    requires Plain(e)
  {
    match e
    case Sub(k) => counts(k) > 0
    case Group(a) => Satisfied(a, counts)
    case Compare(a, op, count, _) => Holds(counts(a.index), op, Value(count))
    case Both(a, b) => Satisfied(a, counts) && Satisfied(b, counts)
    case Either(a, b) => Satisfied(a, counts) || Satisfied(b, counts)
  }
}
