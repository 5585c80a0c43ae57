/**
 How ClamAV expressions are written, and how the conditions made of them are, each without the
 help of the tokenizer, the parser or the translator.  Parsing is the inverse of writing, and
 translating what is written gives the condition that the expression calls for, to the letter.
 */
module ClamPrinter {
  import opened Options
  import opened Decimal
  import opened Sequences
  import opened ClamSyntax
  import opened ClamTranslate
  import opened ClamMeaning
  import Y = YaraSyntax

  predicate IsNumeral(s: string) {
    s != [] && AllDigits(s)
  }

  /** The expressions that the grammar can express: conjunctions associate to the left and hold no
      alternatives outside groups, alternatives associate to the left, and what is compared is a
      sub-signature or a group. */
  predicate Shaped(e: Expr) {
    match e
    case Sub(_) => true
    case Group(a) => Shaped(a)
    case Compare(a, op, count, distinct) =>
      && (a.Sub? || a.Group?) && Shaped(a) && IsComparison(op)
      && IsNumeral(count) && (distinct.Some? ==> IsNumeral(distinct.value))
    case Both(a, b) => Shaped(a) && Shaped(b) && !a.Either? && !b.Either? && !b.Both?
    case Either(a, b) => Shaped(a) && Shaped(b) && !b.Either?
  }

  /** The text of an expression. */
  function Print(e: Expr): string {
    match e
    case Sub(k) => Dec(k)
    case Group(a) => "(" + (Print(a) + ")")
    case Compare(a, op, count, distinct) =>
      Print(a) + (ComparisonSign(op) + (count + DistinctText(distinct)))
    case Both(a, b) => Print(a) + ("&" + Print(b))
    case Either(a, b) => Print(a) + ("|" + Print(b))
  }

  function DistinctText(distinct: Option<string>): string {
    if distinct.Some? then "," + distinct.value else ""
  }

  function ComparisonSign(op: Token): string {
    match op
    case Equal => "="
    case Greater => ">"
    case Less => "<"
    case _ => ""
  }

  /** The text of the condition that a plain expression becomes. */
  function ConditionText(e: Expr): string
    requires Plain(e)
  {
    match e
    case Sub(k) => "$a" + Dec(k)
    case Group(a) => "(" + (ConditionText(a) + ")")
    case Compare(a, op, count, _) =>
      var k := Dec(a.index);
      if op.Equal? && count == "0" then "not " + ("$a" + k)
      else
        var sign := if op.Equal? then "==" else if op.Greater? then ">" else "<";
        "(" + ("$a" + k) + " and " + ("#a" + k + " " + sign + " " + Dec(Value(count))) + ")"
    case Both(a, b) => ConditionText(a) + (" and " + ConditionText(b))
    case Either(a, b) => ConditionText(a) + (" or " + ConditionText(b))
  }

  //////////////////////////////////////////////////////////////////////////////
  // Tokens of a printed expression
  //////////////////////////////////////////////////////////////////////////////

  function TokensOf(e: Expr): (ts: seq<Token>)
    requires Shaped(e)
    ensures WellFormed(ts) && ts != []
  {
    match e
    case Sub(k) => [Num(Dec(k))]
    case Group(a) => [LParen] + (TokensOf(a) + [RParen])
    case Compare(a, op, count, distinct) => TokensOf(a) + ([op, Num(count)] + DistinctTokens(distinct))
    case Both(a, b) => TokensOf(a) + ([And] + TokensOf(b))
    case Either(a, b) => TokensOf(a) + ([Or] + TokensOf(b))
  }

  function DistinctTokens(distinct: Option<string>): (ts: seq<Token>)
    requires distinct.Some? ==> IsNumeral(distinct.value)
    ensures WellFormed(ts)
  {
    match distinct
    case None => []
    case Some(m) => [Comma, Num(m)]
  }

  predicate NoDigitFirst(s: string) {
    s == [] || !IsDigit(s[0])
  }

  lemma TokenizeNumeral(d: string, rest: string)
    requires IsNumeral(d) && NoDigitFirst(rest)
    ensures Tokenize(d + rest) == [Num(d)] + Tokenize(rest)
  {
    DigitRunOfPrefix(d, rest);
    assert (d + rest)[..|d|] == d && (d + rest)[|d|..] == rest;
    assert (d + rest)[0] == d[0];
  }

  lemma TokenizeSign(c: char, t: Token, rest: string)
    requires !IsDigit(c) && Symbol(c) == Some(t)
    ensures Tokenize([c] + rest) == [t] + Tokenize(rest)
  {
    assert ([c] + rest)[1..] == rest;
  }

  lemma TokenizeComma(m: string, rest: string, more: string)
    requires IsNumeral(m) && NoDigitFirst(rest) && more == [','] + (m + rest)
    ensures NoDigitFirst(more) && Tokenize(more) == [Comma, Num(m)] + Tokenize(rest)
  {
    TokenizeSign(',', Comma, m + rest);
    TokenizeNumeral(m, rest);
    TwoTokens(Comma, Num(m), Tokenize(rest));
  }

  lemma TwoTokens(a: Token, b: Token, ts: seq<Token>)
    ensures [a] + ([b] + ts) == [a, b] + ts
  {
  }

  lemma DistinctShape(distinct: Option<string>, rest: string)
    ensures DistinctText(distinct) + rest == if distinct.Some? then [','] + (distinct.value + rest) else rest
  {
  }

  lemma TokenizeDistinct(distinct: Option<string>, rest: string, more: string)
    requires (distinct.Some? ==> IsNumeral(distinct.value)) && NoDigitFirst(rest)
    requires more == if distinct.Some? then [','] + (distinct.value + rest) else rest
    ensures NoDigitFirst(more) && Tokenize(more) == DistinctTokens(distinct) + Tokenize(rest)
  {
    if distinct.Some? {
      TokenizeComma(distinct.value, rest, more);
    } else {
      NothingBefore(Tokenize(rest));
    }
  }

  lemma NothingBefore(ts: seq<Token>)
    ensures [] + ts == ts
  {
  }

  lemma TokenizeCount(c: char, op: Token, count: string, more: string)
    requires !IsDigit(c) && Symbol(c) == Some(op) && IsNumeral(count) && NoDigitFirst(more)
    ensures Tokenize([c] + (count + more)) == [op] + ([Num(count)] + Tokenize(more))
  {
    TokenizeNumeral(count, more);
    TokenizeSign(c, op, count + more);
  }

  lemma TokenizeTail(op: Token, count: string, distinct: Option<string>, rest: string, s: string)
    requires IsComparison(op) && IsNumeral(count) && (distinct.Some? ==> IsNumeral(distinct.value)) && NoDigitFirst(rest)
    requires s == ComparisonSign(op) + (count + DistinctText(distinct) + rest)
    ensures Tokenize(s) == [op, Num(count)] + DistinctTokens(distinct) + Tokenize(rest)
  {
    var more := DistinctText(distinct) + rest;
    Assoc(count, DistinctText(distinct), rest);
    assert s == [ComparisonSign(op)[0]] + (count + more);
    DistinctShape(distinct, rest);
    TokenizeDistinct(distinct, rest, more);
    TokenizeCount(ComparisonSign(op)[0], op, count, more);
    OpThenCount(op, count, DistinctTokens(distinct), Tokenize(rest));
  }

  lemma OpThenCount(op: Token, count: string, a: seq<Token>, b: seq<Token>)
    ensures [op] + ([Num(count)] + (a + b)) == [op, Num(count)] + a + b
  {
    Assoc([Num(count)], a, b);
    Assoc([op], [Num(count)] + a, b);
    assert [op] + ([Num(count)] + a) == [op, Num(count)] + a;
  }

  lemma Join<T>(a: seq<T>, b: seq<T>, c: seq<T>, d: seq<T>)
    ensures a + (b + c) + d == a + (b + (c + d))
  {
    Assoc(a, b + c, d);
    Assoc(b, c, d);
  }

  lemma {:induction false} TokenizePrinted(e: Expr, rest: string)
    requires Shaped(e) && NoDigitFirst(rest)
    ensures Tokenize(Print(e) + rest) == TokensOf(e) + Tokenize(rest)
    decreases e
  {
    match e
    case Sub(k) => TokenizeNumeral(Dec(k), rest);
    case Group(a) =>
      TokenizePrinted(a, ")" + rest);
      TokenizeGroup(Print(a), TokensOf(a), rest);
    case Compare(a, op, count, distinct) =>
      TokenizePrinted(a, ComparisonSign(op) + (count + DistinctText(distinct) + rest));
      TokenizeCompared(Print(a), TokensOf(a), op, count, distinct, rest);
    case Both(a, b) =>
      TokenizePrinted(a, "&" + (Print(b) + rest));
      TokenizePrinted(b, rest);
      TokenizeInfix(Print(a), TokensOf(a), '&', And, Print(b), TokensOf(b), rest);
    case Either(a, b) =>
      TokenizePrinted(a, "|" + (Print(b) + rest));
      TokenizePrinted(b, rest);
      TokenizeInfix(Print(a), TokensOf(a), '|', Or, Print(b), TokensOf(b), rest);
  }

  lemma TokenizeGroup(a: string, ta: seq<Token>, rest: string)
    requires Tokenize(a + (")" + rest)) == ta + Tokenize(")" + rest)
    ensures Tokenize("(" + (a + ")") + rest) == [LParen] + (ta + [RParen]) + Tokenize(rest)
  {
    Join("(", a, ")", rest);
    TokenizeSign('(', LParen, a + (")" + rest));
    TokenizeSign(')', RParen, rest);
    Join([LParen], ta, [RParen], Tokenize(rest));
  }

  lemma TokenizeCompared(a: string, ta: seq<Token>, op: Token, count: string, distinct: Option<string>, rest: string)
    requires IsComparison(op) && IsNumeral(count) && (distinct.Some? ==> IsNumeral(distinct.value)) && NoDigitFirst(rest)
    requires
      var tail := ComparisonSign(op) + (count + DistinctText(distinct) + rest);
      Tokenize(a + tail) == ta + Tokenize(tail)
    ensures
      Tokenize(a + (ComparisonSign(op) + (count + DistinctText(distinct))) + rest) ==
      ta + ([op, Num(count)] + DistinctTokens(distinct)) + Tokenize(rest)
  {
    var tail := ComparisonSign(op) + (count + DistinctText(distinct) + rest);
    Join(a, ComparisonSign(op), count + DistinctText(distinct), rest);
    TokenizeTail(op, count, distinct, rest, tail);
    Assoc(ta, [op, Num(count)] + DistinctTokens(distinct), Tokenize(rest));
  }

  lemma TokenizeInfix(a: string, ta: seq<Token>, c: char, t: Token, b: string, tb: seq<Token>, rest: string)
    requires !IsDigit(c) && Symbol(c) == Some(t)
    requires Tokenize(a + ([c] + (b + rest))) == ta + Tokenize([c] + (b + rest)) && Tokenize(b + rest) == tb + Tokenize(rest)
    ensures Tokenize(a + ([c] + b) + rest) == ta + ([t] + tb) + Tokenize(rest)
  {
    Join(a, [c], b, rest);
    TokenizeSign(c, t, b + rest);
    Join(ta, [t], tb, Tokenize(rest));
  }

  //////////////////////////////////////////////////////////////////////////////
  // Parsing them
  //////////////////////////////////////////////////////////////////////////////

  /** What may follow a factor without becoming part of it. */
  predicate AfterFactor(ts: seq<Token>) {
    ts == [] || (!IsComparison(ts[0]) && !ts[0].Comma?)
  }

  /** What may follow a conjunction. */
  predicate AfterAnd(ts: seq<Token>) {
    AfterFactor(ts) && (ts == [] || !ts[0].And?)
  }

  lemma ParseTail(a: Expr, op: Token, count: string, distinct: Option<string>, rest: seq<Token>)
    requires IsComparison(op) && IsNumeral(count) && (distinct.Some? ==> IsNumeral(distinct.value))
    requires WellFormed(rest) && AfterFactor(rest)
    ensures ParseComparison(a, [op, Num(count)] + DistinctTokens(distinct) + rest) == Parse(Compare(a, op, count, distinct), rest)
  {
    var ts := [op, Num(count)] + DistinctTokens(distinct) + rest;
    if distinct.Some? {
      assert ts[4..] == rest;
    } else {
      assert ts[2..] == rest;
      assert rest != [] ==> ts[2] == rest[0];
    }
  }

  lemma {:induction false} ParsesOperand(a: Expr, rest: seq<Token>)
    requires Shaped(a) && (a.Sub? || a.Group?) && WellFormed(rest)
    ensures ParseFactor(TokensOf(a) + rest) == ParseComparison(a, rest)
    decreases a, 0
  {
    var ts := TokensOf(a) + rest;
    match a
    case Sub(k) =>
      assert ts[1..] == rest;
      ValueOfDec(k);
    case Group(inner) =>
      Join([LParen], TokensOf(inner), [RParen], rest);
      var after := [RParen] + rest;
      assert ts[1..] == TokensOf(inner) + after;
      ParsesOr(inner, after);
      assert after[1..] == rest;
  }

  lemma {:induction false} ParsesFactor(e: Expr, rest: seq<Token>)
    requires Shaped(e) && !e.Both? && !e.Either? && WellFormed(rest) && AfterFactor(rest)
    ensures ParseFactor(TokensOf(e) + rest) == Parse(e, rest)
    decreases e, 1
  {
    if e.Compare? {
      var tail := [e.op, Num(e.count)] + DistinctTokens(e.distinct);
      Assoc(TokensOf(e.operand), tail, rest);
      ParsesOperand(e.operand, tail + rest);
      ParseTail(e.operand, e.op, e.count, e.distinct, rest);
    } else {
      ParsesOperand(e, rest);
    }
  }

  lemma {:induction false} ParsesAnd(e: Expr, rest: seq<Token>)
    requires Shaped(e) && !e.Either? && WellFormed(rest) && AfterFactor(rest)
    ensures ParseAnd(TokensOf(e) + rest) == ParseAndRest(e, rest)
    decreases e, 2
  {
    if e.Both? {
      var more := [And] + (TokensOf(e.right) + rest);
      Join(TokensOf(e.left), [And], TokensOf(e.right), rest);
      ParsesAnd(e.left, more);
      ParsesFactor(e.right, rest);
      assert more[1..] == TokensOf(e.right) + rest;
    } else {
      ParsesFactor(e, rest);
    }
  }

  lemma {:induction false} ParsesOr(e: Expr, rest: seq<Token>)
    requires Shaped(e) && WellFormed(rest) && AfterAnd(rest)
    ensures ParseOr(TokensOf(e) + rest) == ParseOrRest(e, rest)
    decreases e, 3
  {
    if e.Either? {
      var more := [Or] + (TokensOf(e.right) + rest);
      Join(TokensOf(e.left), [Or], TokensOf(e.right), rest);
      ParsesOr(e.left, more);
      ParsesAnd(e.right, rest);
      assert more[1..] == TokensOf(e.right) + rest;
    } else {
      ParsesAnd(e, rest);
    }
  }

  /** Reading a written expression gives it back. */
  lemma ParsePrinted(e: Expr)
    requires Shaped(e)
    ensures ParseExpression(Print(e)) == Some(e)
  {
    assert Print(e) + [] == Print(e) && TokensOf(e) + [] == TokensOf(e);
    TokenizePrinted(e, []);
    ParsesOr(e, []);
  }

  //////////////////////////////////////////////////////////////////////////////
  // Only such expressions are parsed
  //////////////////////////////////////////////////////////////////////////////

  lemma {:induction false} OrIsShaped(ts: seq<Token>)
    requires WellFormed(ts) && ParseOr(ts).Parse?
    ensures Shaped(ParseOr(ts).expr)
    decreases |ts|, 4
  {
    AndIsShaped(ts);
    OrRestIsShaped(ParseAnd(ts).expr, ParseAnd(ts).rest);
  }

  lemma {:induction false} OrRestIsShaped(left: Expr, ts: seq<Token>)
    requires WellFormed(ts) && ParseOrRest(left, ts).Parse? && Shaped(left)
    ensures Shaped(ParseOrRest(left, ts).expr)
    decreases |ts|, 3
  {
    if ts != [] && ts[0].Or? {
      var p := ParseAnd(ts[1..]);
      AndIsShaped(ts[1..]);
      OrRestIsShaped(Either(left, p.expr), p.rest);
    }
  }

  lemma {:induction false} AndIsShaped(ts: seq<Token>)
    requires WellFormed(ts) && ParseAnd(ts).Parse?
    ensures Shaped(ParseAnd(ts).expr) && !ParseAnd(ts).expr.Either?
    decreases |ts|, 2
  {
    FactorIsShaped(ts);
    AndRestIsShaped(ParseFactor(ts).expr, ParseFactor(ts).rest);
  }

  lemma {:induction false} AndRestIsShaped(left: Expr, ts: seq<Token>)
    requires WellFormed(ts) && ParseAndRest(left, ts).Parse? && Shaped(left) && !left.Either?
    ensures Shaped(ParseAndRest(left, ts).expr) && !ParseAndRest(left, ts).expr.Either?
    decreases |ts|, 1
  {
    if ts != [] && ts[0].And? {
      var p := ParseFactor(ts[1..]);
      FactorIsShaped(ts[1..]);
      AndRestIsShaped(Both(left, p.expr), p.rest);
    }
  }

  lemma {:induction false} FactorIsShaped(ts: seq<Token>)
    requires WellFormed(ts) && ParseFactor(ts).Parse?
    ensures var e := ParseFactor(ts).expr; Shaped(e) && !e.Both? && !e.Either?
    decreases |ts|, 0
  {
    if ts[0].LParen? {
      OrIsShaped(ts[1..]);
    }
  }

  /** The grammar expresses exactly the expressions that can be written. */
  lemma ParsedExactly(e: Expr)
    ensures Shaped(e) <==> exists s :: ParseExpression(s) == Some(e)
  {
    if Shaped(e) {
      ParsePrinted(e);
    }
    forall s | ParseExpression(s) == Some(e) ensures Shaped(e) {
      OrIsShaped(Tokenize(s));
    }
  }

  //////////////////////////////////////////////////////////////////////////////
  // Translating what is written
  //////////////////////////////////////////////////////////////////////////////

  lemma EmitSub(k: nat, rest: seq<Token>, conditions: seq<string>)
    requires k < |conditions| && WellFormed(rest) && AfterFactor(rest)
    ensures Emit([Num(Dec(k))] + rest, conditions) == Prefix(conditions[k], Emit(rest, conditions))
  {
    var ts := [Num(Dec(k))] + rest;
    assert ts[1..] == rest;
    assert rest != [] ==> ts[1] == rest[0];
    ValueOfDec(k);
  }

  lemma EmitCount(k: nat, op: Token, count: string, rest: seq<Token>, conditions: seq<string>)
    requires k < |conditions| && IsComparison(op) && IsNumeral(count) && WellFormed(rest)
    ensures
      var text := if op.Equal? && count == "0" then "not " + conditions[k] else CountText(conditions[k], k, op, Value(count));
      Emit([Num(Dec(k)), op, Num(count)] + rest, conditions) == Prefix(text, Emit(rest, conditions))
  {
    var ts := [Num(Dec(k)), op, Num(count)] + rest;
    assert ts[3..] == rest;
    ValueOfDec(k);
  }

  lemma EmitCompared(e: Expr, rest: seq<Token>, conditions: seq<string>)
    requires Shaped(e) && Plain(e) && e.Compare? && e.operand.index < |conditions| && WellFormed(rest)
    requires conditions[e.operand.index] == "$a" + Dec(e.operand.index)
    ensures Emit(TokensOf(e) + rest, conditions) == Prefix(ConditionText(e), Emit(rest, conditions))
  {
    EmitCount(e.operand.index, e.op, e.count, rest, conditions);
    assert TokensOf(e) == [Num(Dec(e.operand.index)), e.op, Num(e.count)];
  }

  lemma EmitGroup(inside: seq<Token>, text: string, rest: seq<Token>, conditions: seq<string>)
    requires WellFormed(inside) && WellFormed(rest)
    requires Emit(inside + ([RParen] + rest), conditions) == Prefix(text, Emit([RParen] + rest, conditions))
    ensures Emit([LParen] + (inside + [RParen]) + rest, conditions) == Prefix("(" + (text + ")"), Emit(rest, conditions))
  {
    Join([LParen], inside, [RParen], rest);
    EmitSign(LParen, "(", inside + ([RParen] + rest), conditions);
    EmitSign(RParen, ")", rest, conditions);
    PrefixThrice("(", text, ")", Emit(rest, conditions));
  }

  lemma EmitInfix(ta: seq<Token>, a: string, t: Token, sign: string, tb: seq<Token>, b: string, rest: seq<Token>, conditions: seq<string>)
    requires WellFormed(ta) && WellFormed(tb) && WellFormed(rest) && ((t == And && sign == " and ") || (t == Or && sign == " or "))
    requires Emit(ta + ([t] + (tb + rest)), conditions) == Prefix(a, Emit([t] + (tb + rest), conditions))
    requires Emit(tb + rest, conditions) == Prefix(b, Emit(rest, conditions))
    ensures Emit(ta + ([t] + tb) + rest, conditions) == Prefix(a + (sign + b), Emit(rest, conditions))
  {
    Join(ta, [t], tb, rest);
    EmitSign(t, sign, tb + rest, conditions);
    PrefixThrice(a, sign, b, Emit(rest, conditions));
  }

  lemma {:induction false} EmitPrinted(e: Expr, rest: seq<Token>, n: nat)
    requires Shaped(e) && Plain(e) && IndicesBelow(e, n) && WellFormed(rest) && AfterFactor(rest)
    ensures Emit(TokensOf(e) + rest, AnywhereConditions(n)) == Prefix(ConditionText(e), Emit(rest, AnywhereConditions(n)))
    decreases e
  {
    var conditions := AnywhereConditions(n);
    match e
    case Sub(k) => EmitSub(k, rest, conditions);
    case Group(a) =>
      EmitPrinted(a, [RParen] + rest, n);
      EmitGroup(TokensOf(a), ConditionText(a), rest, conditions);
    case Compare(a, op, count, _) =>
      EmitCompared(e, rest, conditions);
    case Both(a, b) =>
      EmitPrinted(b, rest, n);
      EmitPrinted(a, [And] + (TokensOf(b) + rest), n);
      EmitInfix(TokensOf(a), ConditionText(a), And, " and ", TokensOf(b), ConditionText(b), rest, conditions);
    case Either(a, b) =>
      EmitPrinted(b, rest, n);
      EmitPrinted(a, [Or] + (TokensOf(b) + rest), n);
      EmitInfix(TokensOf(a), ConditionText(a), Or, " or ", TokensOf(b), ConditionText(b), rest, conditions);
  }

  lemma EmitSign(t: Token, text: string, rest: seq<Token>, conditions: seq<string>)
    requires WellFormed(rest)
    requires (t, text) in [(LParen, "("), (RParen, ")"), (And, " and "), (Or, " or ")]
    ensures Emit([t] + rest, conditions) == Prefix(text, Emit(rest, conditions))
  {
    assert ([t] + rest)[1..] == rest;
  }

  lemma PrefixThrice(a: string, b: string, c: string, t: Translation)
    ensures Prefix(a, Prefix(b, Prefix(c, t))) == Prefix(a + (b + c), t)
  {
    PrefixTwice(b, c, t);
    PrefixTwice(a, b + c, t);
  }

  /** What the translator makes of a written expression, for `n` sub-signatures found anywhere. */
  function TranslationOf(e: Expr, n: nat): Translation {
    Prefix("\t\t", Emit(Tokenize(Print(e)), AnywhereConditions(n)))
  }

  /** To the letter: a plain expression becomes its condition, and any other one is skipped. */
  lemma WrittenIsTranslated(e: Expr, n: nat)
    requires Shaped(e) && IndicesBelow(e, n)
    ensures TranslationOf(e, n) == if Plain(e) then Condition("\t\t" + ConditionText(e)) else Skipped
  {
    if Plain(e) {
      assert Print(e) + [] == Print(e) && TokensOf(e) + [] == TokensOf(e) && ConditionText(e) + "" == ConditionText(e);
      TokenizePrinted(e, []);
      EmitPrinted(e, [], n);
    } else {
      ParsePrinted(e);
      TranslationIsTotal(Print(e), n);
    }
  }

  /** The written condition is true of a file only if the expression is satisfied; and exactly then,
      whenever the comparisons agree for its match counts. */
  lemma WrittenMeansTheSame(e: Expr, n: nat, counts: nat -> nat, yaraCounts: string -> nat)
    requires Shaped(e) && Plain(e) && IndicesBelow(e, n) && SameCounts(counts, yaraCounts)
    ensures
      var c := Y.ParseCondition("\t\t" + ConditionText(e));
      && c.Parse?
      && (Y.True(c.cond, yaraCounts) ==> Satisfied(e, counts))
      && (Agreeing(e, counts) ==> (Y.True(c.cond, yaraCounts) <==> Satisfied(e, counts)))
  {
    WrittenIsTranslated(e, n);
    ParsePrinted(e);
    TranslationNeverOvermatches(Print(e), n, counts, yaraCounts);
    if Agreeing(e, counts) {
      TranslationPreservesMeaning(Print(e), n, counts, yaraCounts);
    }
  }

  /** Without lossy comparisons, from text to text: what is written for `e` is translated to a
      condition that is true of exactly the files that satisfy `e`. */
  lemma WrittenTranslationIsExact(e: Expr, n: nat, counts: nat -> nat, yaraCounts: string -> nat)
    requires Shaped(e) && Plain(e) && AllLossless(e) && IndicesBelow(e, n) && SameCounts(counts, yaraCounts)
    ensures
      var r := TranslationOf(e, n);
      && r.Condition? && Y.ParseCondition(r.text).Parse?
      && (Y.True(Y.ParseCondition(r.text).cond, yaraCounts) <==> Satisfied(e, counts))
  {
    WrittenIsTranslated(e, n);
    LosslessAgrees(e, counts);
    WrittenMeansTheSame(e, n, counts, yaraCounts);
  }
}
