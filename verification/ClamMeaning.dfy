/**
 The meaning of a translated expression.  For every logical-expression string that
 the grammar accepts, the translator either skips the rule, exactly when a group is
 counted or distinct signatures are asked for, or writes a text which YARA reads as a
 condition that is true for the same match counts.
 */
module ClamMeaning {
  import opened Options
  import opened Decimal
  import opened ClamSyntax
  import opened ClamTranslate
  import Y = YaraSyntax

  /** The condition that corresponds to an expression. */
  function YaraOf(e: Expr): Y.Cond
    requires Plain(e)
  {
    match e
    case Sub(k) => Y.Matches(StringName(k))
    case Group(a) => YaraOf(a)
    case Compare(a, op, count, _) =>
      var name := StringName(a.index);
      if op.Equal? && count == "0" then Y.Negation(Y.Matches(name))
      else Y.Conjunction(Y.Matches(name), Y.Compares(name, YaraOp(op), Value(count)))
    case Both(a, b) => Y.Conjunction(YaraOf(a), YaraOf(b))
    case Either(a, b) => Y.Disjunction(YaraOf(a), YaraOf(b))
  }

  //////////////////////////////////////////////////////////////////////////////
  // What the parser consumes
  //////////////////////////////////////////////////////////////////////////////

  predicate SeparatedBelow(ts: seq<Token>, m: nat)
    requires m <= |ts|
  {
    forall i :: 0 <= i < m - 1 ==> !(ts[i].Num? && ts[i + 1].Num?)
  }

  /** `rest` is what remains of `ts` after an optional continuation, which no numeral starts. */
  predicate Continues(ts: seq<Token>, rest: seq<Token>) {
    && |rest| <= |ts| && rest == ts[|ts| - |rest|..]
    && SeparatedBelow(ts, |ts| - |rest|)
    && (|rest| < |ts| ==> !ts[0].Num?)
  }

  /** `rest` is what remains of `ts` after an operand. */
  predicate Consumes(ts: seq<Token>, rest: seq<Token>) {
    |rest| < |ts| && rest == ts[|ts| - |rest|..] && SeparatedBelow(ts, |ts| - |rest|)
  }

  lemma ConsumeThenContinue(ts: seq<Token>, mid: seq<Token>, rest: seq<Token>)
    requires Consumes(ts, mid) && Continues(mid, rest)
    ensures Consumes(ts, rest)
  {
    var m := |ts| - |mid|;
    assert forall i :: m <= i < |ts| ==> ts[i] == mid[i - m];
  }

  lemma ContinueThenContinue(ts: seq<Token>, mid: seq<Token>, rest: seq<Token>)
    requires Continues(ts, mid) && Continues(mid, rest)
    ensures Continues(ts, rest)
  {
    var m := |ts| - |mid|;
    assert forall i :: m <= i < |ts| ==> ts[i] == mid[i - m];
  }

  lemma SymbolThenConsume(ts: seq<Token>, rest: seq<Token>)
    requires ts != [] && !ts[0].Num? && Consumes(ts[1..], rest)
    ensures Continues(ts, rest) && Consumes(ts, rest)
  {
    var inner := ts[1..];
    assert forall i :: 1 <= i < |ts| ==> ts[i] == inner[i - 1];
  }

  lemma {:induction false} ShapeOr(ts: seq<Token>)
    requires WellFormed(ts) && ParseOr(ts).Parse?
    ensures Consumes(ts, ParseOr(ts).rest)
    decreases |ts|, 4
  {
    var p := ParseAnd(ts);
    ShapeAnd(ts);
    ShapeOrRest(p.expr, p.rest);
    ConsumeThenContinue(ts, p.rest, ParseOr(ts).rest);
  }

  lemma {:induction false} ShapeOrRest(left: Expr, ts: seq<Token>)
    requires WellFormed(ts) && ParseOrRest(left, ts).Parse?
    ensures Continues(ts, ParseOrRest(left, ts).rest)
    decreases |ts|, 3
  {
    if ts != [] && ts[0].Or? {
      var p := ParseAnd(ts[1..]);
      ShapeAnd(ts[1..]);
      SymbolThenConsume(ts, p.rest);
      ShapeOrRest(Either(left, p.expr), p.rest);
      ContinueThenContinue(ts, p.rest, ParseOrRest(left, ts).rest);
    }
  }

  lemma {:induction false} ShapeAnd(ts: seq<Token>)
    requires WellFormed(ts) && ParseAnd(ts).Parse?
    ensures Consumes(ts, ParseAnd(ts).rest)
    decreases |ts|, 2
  {
    var p := ParseFactor(ts);
    ShapeFactor(ts);
    ShapeAndRest(p.expr, p.rest);
    ConsumeThenContinue(ts, p.rest, ParseAnd(ts).rest);
  }

  lemma {:induction false} ShapeAndRest(left: Expr, ts: seq<Token>)
    requires WellFormed(ts) && ParseAndRest(left, ts).Parse?
    ensures Continues(ts, ParseAndRest(left, ts).rest)
    decreases |ts|, 1
  {
    if ts != [] && ts[0].And? {
      var p := ParseFactor(ts[1..]);
      ShapeFactor(ts[1..]);
      SymbolThenConsume(ts, p.rest);
      ShapeAndRest(Both(left, p.expr), p.rest);
      ContinueThenContinue(ts, p.rest, ParseAndRest(left, ts).rest);
    }
  }

  lemma {:induction false} ShapeFactor(ts: seq<Token>)
    requires WellFormed(ts) && ParseFactor(ts).Parse?
    ensures Consumes(ts, ParseFactor(ts).rest)
    decreases |ts|, 0
  {
    if ts[0].Num? {
      ShapeComparison(Sub(Value(ts[0].digits)), ts[1..]);
      ConsumeThenContinue(ts, ts[1..], ParseFactor(ts).rest);
    } else {
      var p := ParseOr(ts[1..]);
      ShapeOr(ts[1..]);
      SymbolThenConsume(ts, p.rest);
      assert Continues(p.rest, p.rest[1..]);
      ConsumeThenContinue(ts, p.rest, p.rest[1..]);
      ShapeComparison(Group(p.expr), p.rest[1..]);
      ConsumeThenContinue(ts, p.rest[1..], ParseFactor(ts).rest);
    }
  }

  lemma ShapeComparison(e: Expr, ts: seq<Token>)
    requires WellFormed(ts) && ParseComparison(e, ts).Parse?
    ensures Continues(ts, ParseComparison(e, ts).rest)
  {
  }

  //////////////////////////////////////////////////////////////////////////////
  // YARA parses the emitted tokens as the corresponding condition
  //////////////////////////////////////////////////////////////////////////////

  lemma HeadToken(ts: seq<Token>)
    requires WellFormed(ts)
    ensures
      var ys := YaraTokens(ts);
      && (ys != [] && ys[0].Or? <==> ts != [] && ts[0].Or?)
      && (ys != [] && ys[0].And? <==> ts != [] && ts[0].And?)
      && (ys != [] && ys[0].RParen? <==> ts != [] && ts[0].RParen?)
  {
  }

  lemma {:induction false} OrRestContains(left: Expr, ts: seq<Token>, n: nat)
    requires WellFormed(ts) && ParseOrRest(left, ts).Parse?
    ensures Plain(ParseOrRest(left, ts).expr) ==> Plain(left)
    ensures IndicesBelow(ParseOrRest(left, ts).expr, n) ==> IndicesBelow(left, n)
    decreases |ts|
  {
    if ts != [] && ts[0].Or? {
      var p := ParseAnd(ts[1..]);
      OrRestContains(Either(left, p.expr), p.rest, n);
    }
  }

  lemma {:induction false} AndRestContains(left: Expr, ts: seq<Token>, n: nat)
    requires WellFormed(ts) && ParseAndRest(left, ts).Parse?
    ensures Plain(ParseAndRest(left, ts).expr) ==> Plain(left)
    ensures IndicesBelow(ParseAndRest(left, ts).expr, n) ==> IndicesBelow(left, n)
    decreases |ts|
  {
    if ts != [] && ts[0].And? {
      var p := ParseFactor(ts[1..]);
      AndRestContains(Both(left, p.expr), p.rest, n);
    }
  }

  /** `$name and #name op v )` parses as the conjunction, up to the parenthesis. */
  lemma YaraParsesTest(name: string, op: Y.Token, v: nat, after: seq<Y.Token>)
    requires Y.IsComparison(op) && after != [] && after[0].RParen?
    ensures
      Y.ParseOr([Y.Str(name), Y.And, Y.Count(name), op, Y.Num(v)] + after) ==
      Y.Parse(Y.Conjunction(Y.Matches(name), Y.Compares(name, op, v)), after)
  {
    var inner := [Y.Str(name), Y.And, Y.Count(name), op, Y.Num(v)] + after;
    assert inner[1..][1..] == [Y.Count(name), op, Y.Num(v)] + after;
    assert ([Y.Count(name), op, Y.Num(v)] + after)[3..] == after;
    var both := Y.Conjunction(Y.Matches(name), Y.Compares(name, op, v));
    assert Y.ParsePrimary(inner[1..][1..]) == Y.Parse(Y.Compares(name, op, v), after);
    assert Y.ParsePrimary(inner) == Y.Parse(Y.Matches(name), inner[1..]);
    assert Y.ParseAndRest(both, after) == Y.Parse(both, after);
    assert Y.ParseAndRest(Y.Matches(name), inner[1..]) == Y.Parse(both, after);
    assert Y.ParseAnd(inner) == Y.Parse(both, after);
  }

  lemma YaraParsesCount(name: string, op: Y.Token, v: nat, ys: seq<Y.Token>)
    requires Y.IsComparison(op)
    ensures
      Y.ParsePrimary([Y.LParen, Y.Str(name), Y.And, Y.Count(name), op, Y.Num(v), Y.RParen] + ys) ==
      Y.Parse(Y.Conjunction(Y.Matches(name), Y.Compares(name, op, v)), ys)
  {
    var inner := [Y.Str(name), Y.And, Y.Count(name), op, Y.Num(v)] + ([Y.RParen] + ys);
    YaraParsesTest(name, op, v, [Y.RParen] + ys);
    YaraParsesGroup(inner, Y.Conjunction(Y.Matches(name), Y.Compares(name, op, v)), ys);
    assert [Y.LParen, Y.Str(name), Y.And, Y.Count(name), op, Y.Num(v), Y.RParen] + ys == [Y.LParen] + inner;
  }

  lemma YaraParsesNegation(name: string, ys: seq<Y.Token>)
    ensures Y.ParsePrimary([Y.Not, Y.Str(name)] + ys) == Y.Parse(Y.Negation(Y.Matches(name)), ys)
  {
    var all := [Y.Not, Y.Str(name)] + ys;
    assert all[1..] == [Y.Str(name)] + ys;
    assert ([Y.Str(name)] + ys)[1..] == ys;
    assert Y.ParsePrimary([Y.Str(name)] + ys) == Y.Parse(Y.Matches(name), ys);
  }

  lemma YaraParsesMatch(name: string, ys: seq<Y.Token>)
    ensures Y.ParsePrimary([Y.Str(name)] + ys) == Y.Parse(Y.Matches(name), ys)
  {
    assert ([Y.Str(name)] + ys)[1..] == ys;
  }

  lemma YaraParsesGroup(inside: seq<Y.Token>, c: Y.Cond, ys: seq<Y.Token>)
    requires Y.ParseOr(inside) == Y.Parse(c, [Y.RParen] + ys)
    ensures Y.ParsePrimary([Y.LParen] + inside) == Y.Parse(c, ys)
  {
    assert ([Y.LParen] + inside)[1..] == inside;
    assert ([Y.RParen] + ys)[1..] == ys;
  }

  lemma {:induction false} YaraParsesOr(ts: seq<Token>)
    requires WellFormed(ts) && ParseOr(ts).Parse? && Plain(ParseOr(ts).expr)
    ensures Y.ParseOr(YaraTokens(ts)) == Y.Parse(YaraOf(ParseOr(ts).expr), YaraTokens(ParseOr(ts).rest))
    decreases |ts|, 4
  {
    var p := ParseAnd(ts);
    OrRestContains(p.expr, p.rest, 0);
    YaraParsesAnd(ts);
    YaraParsesOrRest(p.expr, p.rest);
  }

  lemma {:induction false} YaraParsesOrRest(left: Expr, ts: seq<Token>)
    requires WellFormed(ts) && ParseOrRest(left, ts).Parse? && Plain(ParseOrRest(left, ts).expr) && Plain(left)
    ensures
      var p := ParseOrRest(left, ts);
      Y.ParseOrRest(YaraOf(left), YaraTokens(ts)) == Y.Parse(YaraOf(p.expr), YaraTokens(p.rest))
    decreases |ts|, 3
  {
    HeadToken(ts);
    if ts != [] && ts[0].Or? {
      var p := ParseAnd(ts[1..]);
      OrRestContains(Either(left, p.expr), p.rest, 0);
      YaraParsesAnd(ts[1..]);
      YaraParsesOrRest(Either(left, p.expr), p.rest);
      assert YaraTokens(ts)[1..] == YaraTokens(ts[1..]);
    }
  }

  lemma {:induction false} YaraParsesAnd(ts: seq<Token>)
    requires WellFormed(ts) && ParseAnd(ts).Parse? && Plain(ParseAnd(ts).expr)
    ensures Y.ParseAnd(YaraTokens(ts)) == Y.Parse(YaraOf(ParseAnd(ts).expr), YaraTokens(ParseAnd(ts).rest))
    decreases |ts|, 2
  {
    var p := ParseFactor(ts);
    AndRestContains(p.expr, p.rest, 0);
    YaraParsesFactor(ts);
    YaraParsesAndRest(p.expr, p.rest);
  }

  lemma {:induction false} YaraParsesAndRest(left: Expr, ts: seq<Token>)
    requires WellFormed(ts) && ParseAndRest(left, ts).Parse? && Plain(ParseAndRest(left, ts).expr) && Plain(left)
    ensures
      var p := ParseAndRest(left, ts);
      Y.ParseAndRest(YaraOf(left), YaraTokens(ts)) == Y.Parse(YaraOf(p.expr), YaraTokens(p.rest))
    decreases |ts|, 1
  {
    HeadToken(ts);
    if ts != [] && ts[0].And? {
      var p := ParseFactor(ts[1..]);
      AndRestContains(Both(left, p.expr), p.rest, 0);
      YaraParsesFactor(ts[1..]);
      YaraParsesAndRest(Both(left, p.expr), p.rest);
      assert YaraTokens(ts)[1..] == YaraTokens(ts[1..]);
    }
  }

  lemma {:induction false} YaraParsesFactor(ts: seq<Token>)
    requires WellFormed(ts) && ParseFactor(ts).Parse? && Plain(ParseFactor(ts).expr)
    ensures Y.ParsePrimary(YaraTokens(ts)) == Y.Parse(YaraOf(ParseFactor(ts).expr), YaraTokens(ParseFactor(ts).rest))
    decreases |ts|, 0
  {
    if ts[0].Num? {
      YaraParsesLeaf(ts);
    } else {
      var p := ParseOr(ts[1..]);
      assert ParseFactor(ts) == Parse(Group(p.expr), p.rest[1..]);
      YaraParsesOr(ts[1..]);
      YaraParsesGroup(YaraTokens(ts[1..]), YaraOf(p.expr), YaraTokens(p.rest[1..]));
    }
  }

  lemma YaraParsesLeaf(ts: seq<Token>)
    requires WellFormed(ts) && ParseFactor(ts).Parse? && Plain(ParseFactor(ts).expr) && ts[0].Num?
    ensures Y.ParsePrimary(YaraTokens(ts)) == Y.Parse(YaraOf(ParseFactor(ts).expr), YaraTokens(ParseFactor(ts).rest))
  {
    var name := StringName(Value(ts[0].digits));
    if LooksLikeCount(ts) {
      assert ts[1..][2..] == ts[3..];
      assert ParseFactor(ts) == Parse(Compare(Sub(Value(ts[0].digits)), ts[1], ts[2].digits, None), ts[3..]);
      if ts[1].Equal? && ts[2] == Num("0") {
        YaraParsesNegation(name, YaraTokens(ts[3..]));
      } else {
        YaraParsesCount(name, YaraOp(ts[1]), Value(ts[2].digits), YaraTokens(ts[3..]));
      }
    } else {
      YaraParsesMatch(name, YaraTokens(ts[1..]));
    }
  }

  //////////////////////////////////////////////////////////////////////////////
  // When the translator gives up
  //////////////////////////////////////////////////////////////////////////////

  predicate SameKind(a: Translation, b: Translation) {
    (a.Condition? <==> b.Condition?) && (!b.Condition? ==> a == b)
  }

  /** The tokens of `e` are translated when it is plain, and make the translator skip when not. */
  predicate TranslatesOrSkips(e: Expr, ts: seq<Token>, rest: seq<Token>, conditions: seq<string>)
    requires WellFormed(ts) && WellFormed(rest)
  {
    if Plain(e) then SameKind(Emit(ts, conditions), Emit(rest, conditions))
    else Emit(ts, conditions).Skipped?
  }

  lemma {:induction false} EmitOr(ts: seq<Token>, conditions: seq<string>)
    requires WellFormed(ts) && ParseOr(ts).Parse? && IndicesBelow(ParseOr(ts).expr, |conditions|)
    ensures TranslatesOrSkips(ParseOr(ts).expr, ts, ParseOr(ts).rest, conditions)
    decreases |ts|, 4
  {
    var p := ParseAnd(ts);
    OrRestContains(p.expr, p.rest, |conditions|);
    EmitAnd(ts, conditions);
    if Plain(p.expr) {
      EmitOrRest(p.expr, p.rest, conditions);
    }
  }

  lemma {:induction false} EmitOrRest(left: Expr, ts: seq<Token>, conditions: seq<string>)
    requires WellFormed(ts) && ParseOrRest(left, ts).Parse? && Plain(left)
    requires IndicesBelow(ParseOrRest(left, ts).expr, |conditions|)
    ensures TranslatesOrSkips(ParseOrRest(left, ts).expr, ts, ParseOrRest(left, ts).rest, conditions)
    decreases |ts|, 3
  {
    if ts != [] && ts[0].Or? {
      var p := ParseAnd(ts[1..]);
      OrRestContains(Either(left, p.expr), p.rest, |conditions|);
      EmitAnd(ts[1..], conditions);
      if Plain(p.expr) {
        EmitOrRest(Either(left, p.expr), p.rest, conditions);
      }
    }
  }

  lemma {:induction false} EmitAnd(ts: seq<Token>, conditions: seq<string>)
    requires WellFormed(ts) && ParseAnd(ts).Parse? && IndicesBelow(ParseAnd(ts).expr, |conditions|)
    ensures TranslatesOrSkips(ParseAnd(ts).expr, ts, ParseAnd(ts).rest, conditions)
    decreases |ts|, 2
  {
    var p := ParseFactor(ts);
    AndRestContains(p.expr, p.rest, |conditions|);
    EmitFactor(ts, conditions);
    if Plain(p.expr) {
      EmitAndRest(p.expr, p.rest, conditions);
    }
  }

  lemma {:induction false} EmitAndRest(left: Expr, ts: seq<Token>, conditions: seq<string>)
    requires WellFormed(ts) && ParseAndRest(left, ts).Parse? && Plain(left)
    requires IndicesBelow(ParseAndRest(left, ts).expr, |conditions|)
    ensures TranslatesOrSkips(ParseAndRest(left, ts).expr, ts, ParseAndRest(left, ts).rest, conditions)
    decreases |ts|, 1
  {
    if ts != [] && ts[0].And? {
      var p := ParseFactor(ts[1..]);
      AndRestContains(Both(left, p.expr), p.rest, |conditions|);
      EmitFactor(ts[1..], conditions);
      if Plain(p.expr) {
        EmitAndRest(Both(left, p.expr), p.rest, conditions);
      }
    }
  }

  lemma {:induction false} EmitFactor(ts: seq<Token>, conditions: seq<string>)
    requires WellFormed(ts) && ParseFactor(ts).Parse? && IndicesBelow(ParseFactor(ts).expr, |conditions|)
    ensures TranslatesOrSkips(ParseFactor(ts).expr, ts, ParseFactor(ts).rest, conditions)
    decreases |ts|, 0
  {
    if ts[0].Num? {
      if LooksLikeCount(ts) {
        assert ts[1..][2..] == ts[3..];
        assert |ts| > 3 ==> ts[3] == ts[3..][0];
      }
    } else {
      var p := ParseOr(ts[1..]);
      EmitOr(ts[1..], conditions);
      var after := p.rest[1..];
      assert after != [] && IsComparison(after[0]) ==> Emit(after, conditions).Skipped?;
      assert SameKind(Emit(p.rest, conditions), Emit(after, conditions));
    }
  }

  //////////////////////////////////////////////////////////////////////////////
  // Meaning
  //////////////////////////////////////////////////////////////////////////////

  /** The comparisons whose translation is right for every number of matches. */
  predicate Lossless(op: Token, count: string)
    requires IsComparison(op) && AllDigits(count)
  {
    match op
    case Equal => count == "0" || Value(count) > 0
    case Greater => true
    case Less => Value(count) == 0
  }

  /** Every comparison is lossless, or its sub-signature matches at least once. */
  predicate Agreeing(e: Expr, counts: nat -> nat)
    requires Plain(e)
  {
    match e
    case Sub(_) => true
    case Group(a) => Agreeing(a, counts)
    case Compare(a, op, count, _) => Lossless(op, count) || counts(a.index) > 0
    case Both(a, b) => Agreeing(a, counts) && Agreeing(b, counts)
    case Either(a, b) => Agreeing(a, counts) && Agreeing(b, counts)
  }

  /** The match counts of the YARA strings $a0, $a1... are those of the sub-signatures. */
  ghost predicate SameCounts(counts: nat -> nat, yaraCounts: string -> nat) {
    forall k: nat :: yaraCounts(StringName(k)) == counts(k)
  }

  /** One comparison is translated faithfully for given counts exactly when it is lossless or
      its sub-signature matches: a lossy one goes wrong precisely on files without any match. */
  lemma ComparisonExact(k: nat, op: Token, count: string, counts: nat -> nat, yaraCounts: string -> nat)
    requires IsComparison(op) && count != [] && AllDigits(count) && SameCounts(counts, yaraCounts)
    ensures
      var e := Compare(Sub(k), op, count, None);
      (Y.True(YaraOf(e), yaraCounts) <==> Satisfied(e, counts)) <==> (Lossless(op, count) || counts(k) > 0)
  {
    assert yaraCounts(StringName(k)) == counts(k);
    ValueOfDec(0);
  }

  lemma {:induction false} SameTruth(e: Expr, counts: nat -> nat, yaraCounts: string -> nat)
    requires Plain(e) && Agreeing(e, counts) && SameCounts(counts, yaraCounts)
    ensures Y.True(YaraOf(e), yaraCounts) <==> Satisfied(e, counts)
  {
    match e
    case Sub(k) => assert yaraCounts(StringName(k)) == counts(k);
    case Group(a) => SameTruth(a, counts, yaraCounts);
    case Compare(a, op, count, _) =>
      assert yaraCounts(StringName(a.index)) == counts(a.index);
      ValueOfDec(0);
    case Both(a, b) => SameTruth(a, counts, yaraCounts); SameTruth(b, counts, yaraCounts);
    case Either(a, b) => SameTruth(a, counts, yaraCounts); SameTruth(b, counts, yaraCounts);
  }

  /** The condition never goes beyond the expression, whatever its comparisons. */
  lemma {:induction false} TruthImpliesSatisfaction(e: Expr, counts: nat -> nat, yaraCounts: string -> nat)
    requires Plain(e) && SameCounts(counts, yaraCounts)
    ensures Y.True(YaraOf(e), yaraCounts) ==> Satisfied(e, counts)
  {
    match e
    case Sub(k) => assert yaraCounts(StringName(k)) == counts(k);
    case Group(a) => TruthImpliesSatisfaction(a, counts, yaraCounts);
    case Compare(a, op, count, _) =>
      assert yaraCounts(StringName(a.index)) == counts(a.index);
      ValueOfDec(0);
      var name := StringName(a.index);
      assert Y.True(Y.Matches(name), yaraCounts) <==> counts(a.index) > 0;
      assert Y.True(Y.Compares(name, YaraOp(op), Value(count)), yaraCounts) ==> Holds(counts(a.index), op, Value(count));
    case Both(a, b) => TruthImpliesSatisfaction(a, counts, yaraCounts); TruthImpliesSatisfaction(b, counts, yaraCounts);
    case Either(a, b) => TruthImpliesSatisfaction(a, counts, yaraCounts); TruthImpliesSatisfaction(b, counts, yaraCounts);
  }

  /** The translator skips a well-formed expression exactly when it counts a group or asks for a
      number of distinct signatures; any other one becomes a condition that YARA can read. */
  lemma TranslationIsTotal(s: string, n: nat)
    requires ParseExpression(s).Some? && IndicesBelow(ParseExpression(s).value, n)
    ensures
      var r := Prefix("\t\t", Emit(Tokenize(s), AnywhereConditions(n)));
      if Plain(ParseExpression(s).value)
      then r.Condition? && Y.ParseCondition(r.text) == Y.Parse(YaraOf(ParseExpression(s).value), [])
      else r.Skipped?
  {
    var ts := Tokenize(s);
    var conditions := AnywhereConditions(n);
    EmitOr(ts, conditions);
    if Plain(ParseExpression(s).value) {
      var text := Emit(ts, conditions).text;
      ShapeOr(ts);
      assert Separated(ts);
      EmittedTextLexes(ts, n);
      LexTabs(text);
      YaraParsesOr(ts);
    }
  }

  lemma LexTabs(text: string)
    ensures Y.LexText("\t\t" + text) == Y.LexText(text)
  {
    assert ("\t\t" + text)[1..] == "\t" + text;
    assert ("\t" + text)[1..] == text;
  }

  /** The expression becomes a condition with the same truth value, for these match counts. */
  ghost predicate Preserved(s: string, n: nat, counts: nat -> nat, yaraCounts: string -> nat)
    requires ParseExpression(s).Some? && Plain(ParseExpression(s).value)
  {
    var r := Prefix("\t\t", Emit(Tokenize(s), AnywhereConditions(n)));
    && r.Condition? && Y.ParseCondition(r.text).Parse?
    && (Y.True(Y.ParseCondition(r.text).cond, yaraCounts) <==> Satisfied(ParseExpression(s).value, counts))
  }

  /** Whatever the match counts, the emitted condition holds only of files that satisfy the expression,
      so the rule never reports a file that the signature does not. */
  lemma TranslationNeverOvermatches(s: string, n: nat, counts: nat -> nat, yaraCounts: string -> nat)
    requires ParseExpression(s).Some? && IndicesBelow(ParseExpression(s).value, n)
    requires Plain(ParseExpression(s).value) && SameCounts(counts, yaraCounts)
    ensures
      var r := Prefix("\t\t", Emit(Tokenize(s), AnywhereConditions(n)));
      && r.Condition? && Y.ParseCondition(r.text).Parse?
      && (Y.True(Y.ParseCondition(r.text).cond, yaraCounts) ==> Satisfied(ParseExpression(s).value, counts))
  {
    TranslationIsTotal(s, n);
    TruthImpliesSatisfaction(ParseExpression(s).value, counts, yaraCounts);
  }

  /** Meaning is preserved: for every well-formed expression and every assignment of match counts
      under which its comparisons agree, the emitted condition has the same truth value. */
  lemma TranslationPreservesMeaning(s: string, n: nat, counts: nat -> nat, yaraCounts: string -> nat)
    requires ParseExpression(s).Some? && IndicesBelow(ParseExpression(s).value, n)
    requires Plain(ParseExpression(s).value) && Agreeing(ParseExpression(s).value, counts)
    requires SameCounts(counts, yaraCounts)
    ensures Preserved(s, n, counts, yaraCounts)
  {
    TranslationIsTotal(s, n);
    SameTruth(ParseExpression(s).value, counts, yaraCounts);
  }

  /** Every comparison is lossless: `>n` and `=n` with n > 0 in any numerals, `=0` written so, or `<0`. */
  predicate AllLossless(e: Expr)
    requires Plain(e)
  {
    match e
    case Sub(_) => true
    case Group(a) => AllLossless(a)
    case Compare(a, op, count, _) => Lossless(op, count)
    case Both(a, b) => AllLossless(a) && AllLossless(b)
    case Either(a, b) => AllLossless(a) && AllLossless(b)
  }

  lemma {:induction false} LosslessAgrees(e: Expr, counts: nat -> nat)
    requires Plain(e) && AllLossless(e)
    ensures Agreeing(e, counts)
  {
    match e
    case Sub(_) =>
    case Group(a) => LosslessAgrees(a, counts);
    case Compare(_, _, _, _) =>
    case Both(a, b) => LosslessAgrees(a, counts); LosslessAgrees(b, counts);
    case Either(a, b) => LosslessAgrees(a, counts); LosslessAgrees(b, counts);
  }

  /** Without lossy comparisons, the condition is right for every file. */
  lemma LosslessTranslationIsExact(s: string, n: nat, counts: nat -> nat, yaraCounts: string -> nat)
    requires ParseExpression(s).Some? && IndicesBelow(ParseExpression(s).value, n)
    requires Plain(ParseExpression(s).value) && AllLossless(ParseExpression(s).value)
    requires SameCounts(counts, yaraCounts)
    ensures Preserved(s, n, counts, yaraCounts)
  {
    LosslessAgrees(ParseExpression(s).value, counts);
    TranslationPreservesMeaning(s, n, counts, yaraCounts);
  }

  lemma LessThanTwo()
    ensures ParseExpression("0<2") == Some(Compare(Sub(0), Less, "2", None))
  {
    assert "0<2"[1..] == "<2" && "<2"[1..] == "2" && "2"[1..] == "";
    assert DigitRun("0<2") == 1 && DigitRun("2") == 1;
    assert "0<2"[..1] == "0" && "2"[..1] == "2";
    var ts := Tokenize("0<2");
    assert ts == [Num("0"), Less, Num("2")];
    assert ts[1..] == [Less, Num("2")] && ts[1..][2..] == [];
    assert Value("0") == 0;
  }

  /** A single comparison is preserved exactly when it is lossless or its sub-signature matches. */
  lemma SingleComparisonExact(s: string, n: nat, k: nat, op: Token, count: string, counts: nat -> nat, yaraCounts: string -> nat)
    requires IsComparison(op) && count != [] && AllDigits(count) && k < n
    requires ParseExpression(s) == Some(Compare(Sub(k), op, count, None)) && SameCounts(counts, yaraCounts)
    ensures Preserved(s, n, counts, yaraCounts) <==> (Lossless(op, count) || counts(k) > 0)
  {
    TranslationIsTotal(s, n);
    ComparisonExact(k, op, count, counts, yaraCounts);
  }

  /** A lossy comparison: a file without any match has fewer than two, but the condition rejects it. */
  lemma LessThanTwoIsLost()
    ensures ParseExpression("0<2") == Some(Compare(Sub(0), Less, "2", None))
    ensures !Preserved("0<2", 1, (_: nat) => 0, (_: string) => 0)
  {
    LessThanTwo();
    assert Value("2") == 2;
    SingleComparisonExact("0<2", 1, 0, Less, "2", (_: nat) => 0, (_: string) => 0);
  }
}
