/**
 The translation of a ClamAV logical expression into a YARA condition, token by token,
 and the proof that YARA reads the emitted text as the intended tokens.
 */
module ClamTranslate {
  import opened Options
  import opened Decimal
  import opened ClamSyntax
  import Y = YaraSyntax

  /** What the translator does with an expression: a condition text, an empty rule, an exception
      for a count that is not a number, an index past the conditions, or no conditions at all. */
  datatype Translation = Condition(text: string) | Skipped | MalformedRule | IndexError | NotEnoughInformation

  function Prefix(p: string, t: Translation): Translation {
    match t
    case Condition(text) => Condition(p + text)
    case _ => t
  }

  function OpText(op: Token): string
    requires IsComparison(op)
  {
    match op
    case Equal => "=="
    case Greater => ">"
    case Less => "<"
  }

  function CountTest(k: nat, op: Token, count: nat): string
    requires IsComparison(op)
  {
    "#a" + Dec(k) + " " + OpText(op) + " " + Dec(count)
  }

  function CountText(condition: string, k: nat, op: Token, count: nat): string
    requires IsComparison(op)
  {
    "(" + condition + " and " + CountTest(k, op, count) + ")"
  }

  /** The numeral at the front is followed by `=`, `>` or `<` and one more token. */
  predicate LooksLikeCount(ts: seq<Token>) {
    |ts| > 2 && IsComparison(ts[1])
  }

  /** The text of the tokens `ts`, given the condition of each sub-signature. */
  function Emit(ts: seq<Token>, conditions: seq<string>): Translation
    requires WellFormed(ts)
    decreases |ts|
  {
    if ts == [] then Condition("")
    else match ts[0]
      case LParen => Prefix("(", Emit(ts[1..], conditions))
      case RParen => Prefix(")", Emit(ts[1..], conditions))
      case And => Prefix(" and ", Emit(ts[1..], conditions))
      case Or => Prefix(" or ", Emit(ts[1..], conditions))
      case Num(digits) =>
        var k := Value(digits);
        if LooksLikeCount(ts) then
          if |ts| > 3 && ts[2].Comma? then Skipped
          else if k >= |conditions| then IndexError
          else if ts[1].Equal? && ts[2] == Num("0") then
            Prefix("not " + conditions[k], Emit(ts[3..], conditions))
          else if !ts[2].Num? then MalformedRule
          else Prefix(CountText(conditions[k], k, ts[1], Value(ts[2].digits)), Emit(ts[3..], conditions))
        else if k >= |conditions| then IndexError
        else Prefix(conditions[k], Emit(ts[1..], conditions))
      case _ => Skipped
  }

  /** A numeral: a negation, a count or a plain sub-signature, unless translation stops here. */
  method TranslateNumeral(tokens: seq<Token>, i: nat, conditions: seq<string>)
    returns (stop: Option<Translation>, piece: string, next: nat)
    requires WellFormed(tokens) && i < |tokens| && tokens[i].Num?
    ensures stop.Some? ==> !stop.value.Condition? && Emit(tokens[i..], conditions) == stop.value
    ensures stop.None? ==> i < next <= |tokens| && Emit(tokens[i..], conditions) == Prefix(piece, Emit(tokens[next..], conditions))
  {
    ghost var ts := tokens[i..];
    var index := Value(tokens[i].digits);
    piece, next := "", i + 1;
    if i + 2 < |tokens| && IsComparison(tokens[i + 1]) {
      if i + 3 < |tokens| && tokens[i + 2].Comma? {
        return Some(Skipped), piece, next;
      }
      if index >= |conditions| {
        return Some(IndexError), piece, next;
      }
      if tokens[i + 1].Equal? && tokens[i + 2] == Num("0") {
        piece := "not " + conditions[index];
      } else if !tokens[i + 2].Num? {
        return Some(MalformedRule), piece, next;
      } else {
        piece := CountText(conditions[index], index, tokens[i + 1], Value(tokens[i + 2].digits));
      }
      next := i + 3;
      assert ts[3..] == tokens[next..];
    } else {
      if index >= |conditions| {
        return Some(IndexError), piece, next;
      }
      piece := conditions[index];
      assert ts[1..] == tokens[next..];
    }
    return None, piece, next;
  }

  /** A parenthesis or a connective; any other symbol stops translation. */
  method TranslateSymbol(tokens: seq<Token>, i: nat, conditions: seq<string>)
    returns (stop: Option<Translation>, piece: string, next: nat)
    requires WellFormed(tokens) && i < |tokens| && !tokens[i].Num?
    ensures stop.Some? ==> !stop.value.Condition? && Emit(tokens[i..], conditions) == stop.value
    ensures stop.None? ==> i < next <= |tokens| && Emit(tokens[i..], conditions) == Prefix(piece, Emit(tokens[next..], conditions))
  {
    assert tokens[i..][1..] == tokens[i + 1..];
    match tokens[i]
    case LParen => return None, "(", i + 1;
    case RParen => return None, ")", i + 1;
    case And => return None, " and ", i + 1;
    case Or => return None, " or ", i + 1;
    case _ => return Some(Skipped), "", i + 1;
  }

  /** The loop of __str__ over the tokens, with its look-ahead. */
  method Translate(expression: string, conditions: seq<string>) returns (r: Translation)
    ensures r == Prefix("\t\t", Emit(Tokenize(expression), conditions))
  {
    var text := "\t\t";
    var tokens := Tokenize(expression);
    var i: nat := 0;
    assert tokens[0..] == tokens;
    while i < |tokens|
      invariant i <= |tokens|
      invariant Prefix("\t\t", Emit(tokens, conditions)) == Prefix(text, Emit(tokens[i..], conditions))
      decreases |tokens| - i
    {
      var stop, piece, next;
      if tokens[i].Num? {
        stop, piece, next := TranslateNumeral(tokens, i, conditions);
      } else {
        stop, piece, next := TranslateSymbol(tokens, i, conditions);
      }
      if stop.Some? {
        return stop.value;
      }
      PrefixTwice(text, piece, Emit(tokens[next..], conditions));
      text, i := text + piece, next;
    }
    assert tokens[i..] == [];
    return Condition(text);
  }

  lemma PrefixTwice(a: string, b: string, t: Translation)
    ensures Prefix(a, Prefix(b, t)) == Prefix(a + b, t)
  {
    if t.Condition? {
      assert a + (b + t.text) == a + b + t.text;
    }
  }

  /** The conditions of `n` sub-signatures that may be found anywhere. */
  function AnywhereConditions(n: nat): (conditions: seq<string>)
    ensures |conditions| == n
    ensures forall k :: 0 <= k < n ==> conditions[k] == "$a" + Dec(k)
  {
    if n == 0 then [] else AnywhereConditions(n - 1) + ["$a" + Dec(n - 1)]
  }

  /** A rule under construction, for sub-signatures whose offset is `*`. */
  class YaraRule {
    const logicalExpression: string
    var conditions: seq<string>

    /** The loop of the constructor: one condition for each sub-signature. */
    constructor (offsets: seq<string>, logicalExpression: string)
      requires forall o <- offsets :: o == "*"
      ensures this.logicalExpression == logicalExpression && conditions == AnywhereConditions(|offsets|)
    {
      this.logicalExpression, conditions := logicalExpression, [];
      new;
      for i := 0 to |offsets|
        invariant conditions == AnywhereConditions(i)
      {
        assert offsets[i] in offsets;
        TranslateOffset(offsets[i], i);
      }
    }

    /** The first case of _translate_offset. */
    method TranslateOffset(offset: string, index: nat)
      requires offset == "*"
      modifies this
      ensures conditions == old(conditions) + ["$a" + Dec(index)]
    {
      conditions := conditions + ["$a" + Dec(index)];
    }

    /** The condition part of __str__. */
    method Condition() returns (r: Translation)
      ensures conditions == [] ==> r == NotEnoughInformation
      ensures conditions != [] ==> r == Prefix("\t\t", Emit(Tokenize(logicalExpression), conditions))
    {
      if conditions == [] {
        return NotEnoughInformation;
      }
      r := Translate(logicalExpression, conditions);
    }
  }

  function StringName(k: nat): string {
    "a" + Dec(k)
  }

  function YaraOp(op: Token): Y.Token
    requires IsComparison(op)
  {
    match op
    case Equal => Y.Equal
    case Greater => Y.Greater
    case Less => Y.Less
  }

  /** The YARA tokens of the emitted text. */
  function YaraTokens(ts: seq<Token>): seq<Y.Token>
    requires WellFormed(ts)
    decreases |ts|
  {
    if ts == [] then []
    else match ts[0]
      case LParen => [Y.LParen] + YaraTokens(ts[1..])
      case RParen => [Y.RParen] + YaraTokens(ts[1..])
      case And => [Y.And] + YaraTokens(ts[1..])
      case Or => [Y.Or] + YaraTokens(ts[1..])
      case Num(digits) =>
        var name := StringName(Value(digits));
        if LooksLikeCount(ts) then
          if ts[1].Equal? && ts[2] == Num("0") then [Y.Not, Y.Str(name)] + YaraTokens(ts[3..])
          else if ts[2].Num? then
            [Y.LParen, Y.Str(name), Y.And, Y.Count(name), YaraOp(ts[1]), Y.Num(Value(ts[2].digits)), Y.RParen]
            + YaraTokens(ts[3..])
          else []
        else [Y.Str(name)] + YaraTokens(ts[1..])
      case _ => []
  }

  //////////////////////////////////////////////////////////////////////////////
  // The emitted text lexes as those tokens
  //////////////////////////////////////////////////////////////////////////////

  predicate StartsFresh(s: string) {
    s == [] || !Y.IsIdent(s[0])
  }

  lemma {:induction false} IdentRunOfPrefix(w: string, rest: string)
    requires (forall i :: 0 <= i < |w| ==> Y.IsIdent(w[i])) && StartsFresh(rest)
    ensures Y.IdentRun(w + rest) == |w|
  {
    if w == [] {
      assert w + rest == rest;
    } else {
      assert (w + rest)[1..] == w[1..] + rest;
      IdentRunOfPrefix(w[1..], rest);
    }
  }

  lemma LexWord(s: string, token: Y.Token, n: nat)
    requires s != [] && Y.NextLexeme(s) == Y.Word(token, n)
    ensures Y.LexText(s) == Y.Cons(token, Y.LexText(s[n..]))
  {
  }

  function Sigil(sigil: char, name: string): Y.Token {
    if sigil == '$' then Y.Str(name) else Y.Count(name)
  }

  lemma IdentifierLexeme(sigil: char, name: string, rest: string)
    requires (sigil == '$' || sigil == '#') && StartsFresh(rest)
    requires forall i :: 0 <= i < |name| ==> Y.IsIdent(name[i])
    ensures Y.NextLexeme([sigil] + name + rest) == Y.Word(Sigil(sigil, name), 1 + |name|)
  {
    var s := [sigil] + name + rest;
    assert s[1..] == name + rest;
    IdentRunOfPrefix(name, rest);
    assert s[1..1 + |name|] == name;
  }

  lemma LexSigil(sigil: char, k: nat, rest: string)
    requires (sigil == '$' || sigil == '#') && StartsFresh(rest)
    ensures
      var name := StringName(k);
      Y.LexText([sigil] + name + rest) == Y.Cons(Sigil(sigil, name), Y.LexText(rest))
  {
    var name := StringName(k);
    var s := [sigil] + name + rest;
    IdentifierLexeme(sigil, name, rest);
    LexWord(s, Sigil(sigil, name), 1 + |name|);
    assert s[1 + |name|..] == rest;
  }

  lemma LexKeyword(word: string, rest: string)
    requires word == "and" || word == "or" || word == "not"
    requires StartsFresh(rest)
    ensures Y.LexText(word + rest) == Y.Cons(Y.Keyword(word).token, Y.LexText(rest))
  {
    var s := word + rest;
    IdentRunOfPrefix(word, rest);
    assert s[..|word|] == word && s[|word|..] == rest;
  }

  lemma LexSpace(rest: string)
    ensures Y.LexText(" " + rest) == Y.LexText(rest)
  {
    assert (" " + rest)[1..] == rest;
  }

  lemma LexAnd(rest: string)
    ensures Y.LexText(" and " + rest) == Y.Cons(Y.And, Y.LexText(rest))
  {
    assert " and " + rest == " " + ("and" + (" " + rest));
    LexSpace("and" + (" " + rest));
    LexKeyword("and", " " + rest);
    LexSpace(rest);
  }

  lemma LexOr(rest: string)
    ensures Y.LexText(" or " + rest) == Y.Cons(Y.Or, Y.LexText(rest))
  {
    assert " or " + rest == " " + ("or" + (" " + rest));
    LexSpace("or" + (" " + rest));
    LexKeyword("or", " " + rest);
    LexSpace(rest);
  }

  lemma LexParen(c: char, rest: string)
    requires c == '(' || c == ')'
    ensures Y.LexText([c] + rest) == Y.Cons(if c == '(' then Y.LParen else Y.RParen, Y.LexText(rest))
  {
    assert ([c] + rest)[1..] == rest;
  }

  lemma LexOp(op: Token, rest: string)
    requires IsComparison(op)
    ensures Y.LexText(OpText(op) + (" " + rest)) == Y.Cons(YaraOp(op), Y.LexText(rest))
  {
    var s := OpText(op) + (" " + rest);
    assert s[|OpText(op)|..] == " " + rest;
    LexSpace(rest);
  }

  lemma LexNum(n: nat, rest: string)
    requires StartsFresh(rest)
    ensures Y.LexText(Dec(n) + rest) == Y.Cons(Y.Num(n), Y.LexText(rest))
  {
    var s := Dec(n) + rest;
    DigitRunOfPrefix(Dec(n), rest);
    ValueOfDec(n);
    assert s[..|Dec(n)|] == Dec(n) && s[|Dec(n)|..] == rest;
    assert s[0] == Dec(n)[0];
  }

  /** `($ak and ` followed by anything. */
  lemma LexGuard(k: nat, rest: string)
    ensures
      Y.LexText("(" + ("$" + StringName(k) + (" and " + rest))) ==
      Y.Cons(Y.LParen, Y.Cons(Y.Str(StringName(k)), Y.Cons(Y.And, Y.LexText(rest))))
  {
    var r2 := " and " + rest;
    LexParen('(', "$" + StringName(k) + r2);
    LexSigil('$', k, r2);
    LexAnd(rest);
  }

  /** `op n)` followed by anything. */
  lemma LexBound(op: Token, n: nat, rest: string)
    requires IsComparison(op)
    ensures
      Y.LexText(OpText(op) + (" " + (Dec(n) + (")" + rest)))) ==
      Y.Cons(YaraOp(op), Y.Cons(Y.Num(n), Y.Cons(Y.RParen, Y.LexText(rest))))
  {
    LexOp(op, Dec(n) + (")" + rest));
    LexNum(n, ")" + rest);
    LexParen(')', rest);
  }

  lemma CountTextShape(k: nat, op: Token, n: nat, rest: string)
    requires IsComparison(op)
    ensures
      var bound := OpText(op) + (" " + (Dec(n) + (")" + rest)));
      CountText("$a" + Dec(k), k, op, n) + rest ==
      "(" + ("$" + StringName(k) + (" and " + ("#" + StringName(k) + (" " + bound))))
  {
    CountTestShape(k, op, n, ")" + rest);
    Reassociate("(", "$a" + Dec(k), " and ", CountTest(k, op, n), ")", rest);
    assert "$a" + Dec(k) == "$" + StringName(k);
  }

  lemma Reassociate(a: string, b: string, c: string, d: string, e: string, f: string)
    ensures a + b + c + d + e + f == a + (b + (c + (d + (e + f))))
  {
    assert a + b + c + d + e + f == a + b + c + d + (e + f);
    assert a + b + c + d + (e + f) == a + b + c + (d + (e + f));
    assert a + b + c + (d + (e + f)) == a + b + (c + (d + (e + f)));
  }

  lemma CountTestShape(k: nat, op: Token, n: nat, rest: string)
    requires IsComparison(op)
    ensures CountTest(k, op, n) + rest == "#" + StringName(k) + (" " + (OpText(op) + (" " + (Dec(n) + rest))))
  {
    assert "#a" + Dec(k) == "#" + StringName(k);
  }

  lemma LexCount(k: nat, op: Token, n: nat, rest: string)
    requires IsComparison(op)
    ensures
      var name := StringName(k);
      Y.LexText(CountText("$a" + Dec(k), k, op, n) + rest) ==
      Y.Cons(Y.LParen, Y.Cons(Y.Str(name), Y.Cons(Y.And, Y.Cons(Y.Count(name),
        Y.Cons(YaraOp(op), Y.Cons(Y.Num(n), Y.Cons(Y.RParen, Y.LexText(rest))))))))
  {
    var bound := OpText(op) + (" " + (Dec(n) + (")" + rest)));
    CountTextShape(k, op, n, rest);
    LexGuard(k, "#" + StringName(k) + (" " + bound));
    LexSigil('#', k, " " + bound);
    LexSpace(bound);
    LexBound(op, n, rest);
  }

  lemma LexNegation(k: nat, rest: string)
    requires StartsFresh(rest)
    ensures
      Y.LexText("not " + ("$a" + Dec(k)) + rest) ==
      Y.Cons(Y.Not, Y.Cons(Y.Str(StringName(k)), Y.LexText(rest)))
  {
    var r := "$" + StringName(k) + rest;
    assert "not " + ("$a" + Dec(k)) + rest == "not" + (" " + r);
    LexNot(r);
    LexSigil('$', k, rest);
  }

  lemma LexNot(r: string)
    ensures Y.LexText("not" + (" " + r)) == Y.Cons(Y.Not, Y.LexText(r))
  {
    LexKeyword("not", " " + r);
    LexSpace(r);
  }

  /** No two numerals stand next to each other. */
  predicate Separated(ts: seq<Token>) {
    forall i :: 0 <= i < |ts| - 1 ==> !(ts[i].Num? && ts[i + 1].Num?)
  }

  lemma EmitStartsFresh(ts: seq<Token>, n: nat)
    requires WellFormed(ts) && (ts == [] || !ts[0].Num?) && Emit(ts, AnywhereConditions(n)).Condition?
    ensures StartsFresh(Emit(ts, AnywhereConditions(n)).text)
  {
  }

  /** The text of `ts`, when it has one, lexes as its YARA tokens. */
  ghost predicate TextLexes(ts: seq<Token>, n: nat)
    requires WellFormed(ts)
  {
    var t := Emit(ts, AnywhereConditions(n));
    t.Condition? ==> Y.LexText(t.text) == Y.Lex(YaraTokens(ts))
  }

  lemma SymbolLexes(ts: seq<Token>, n: nat)
    requires WellFormed(ts) && ts != [] && !ts[0].Num? && TextLexes(ts[1..], n)
    ensures TextLexes(ts, n)
  {
    var rest := Emit(ts[1..], AnywhereConditions(n));
    if rest.Condition? {
      match ts[0]
      case LParen => LexParen('(', rest.text);
      case RParen => LexParen(')', rest.text);
      case And => LexAnd(rest.text);
      case Or => LexOr(rest.text);
      case _ =>
    }
  }

  lemma LexMatchTokens(k: nat, text: string, ys: seq<Y.Token>)
    requires StartsFresh(text) && Y.LexText(text) == Y.Lex(ys)
    ensures Y.LexText("$a" + Dec(k) + text) == Y.Lex([Y.Str(StringName(k))] + ys)
  {
    LexSigil('$', k, text);
    assert "$a" + Dec(k) == "$" + StringName(k);
  }

  lemma LexNegationTokens(k: nat, text: string, ys: seq<Y.Token>)
    requires StartsFresh(text) && Y.LexText(text) == Y.Lex(ys)
    ensures Y.LexText("not " + ("$a" + Dec(k)) + text) == Y.Lex([Y.Not, Y.Str(StringName(k))] + ys)
  {
    LexNegation(k, text);
  }

  lemma LexCountTokens(k: nat, op: Token, n: nat, text: string, ys: seq<Y.Token>)
    requires IsComparison(op) && Y.LexText(text) == Y.Lex(ys)
    ensures
      var name := StringName(k);
      Y.LexText(CountText("$a" + Dec(k), k, op, n) + text) ==
      Y.Lex([Y.LParen, Y.Str(name), Y.And, Y.Count(name), YaraOp(op), Y.Num(n), Y.RParen] + ys)
  {
    var name := StringName(k);
    LexCount(k, op, n, text);
    ConsSeven(Y.LParen, Y.Str(name), Y.And, Y.Count(name), YaraOp(op), Y.Num(n), Y.RParen, ys);
  }

  lemma ConsThree(a: Y.Token, b: Y.Token, c: Y.Token, ys: seq<Y.Token>)
    ensures Y.Cons(a, Y.Cons(b, Y.Cons(c, Y.Lex(ys)))) == Y.Lex([a, b, c] + ys)
  {
    assert [a] + ([b] + ([c] + ys)) == [a, b, c] + ys;
  }

  lemma ConsSeven(a: Y.Token, b: Y.Token, c: Y.Token, d: Y.Token, e: Y.Token, f: Y.Token, g: Y.Token, ys: seq<Y.Token>)
    ensures
      Y.Cons(a, Y.Cons(b, Y.Cons(c, Y.Cons(d, Y.Cons(e, Y.Cons(f, Y.Cons(g, Y.Lex(ys)))))))) ==
      Y.Lex([a, b, c, d, e, f, g] + ys)
  {
    ConsThree(e, f, g, ys);
    ConsThree(b, c, d, [e, f, g] + ys);
    SevenTokens([b, c, d], [e, f, g], ys);
    assert [a] + ([b, c, d] + [e, f, g] + ys) == [a, b, c, d, e, f, g] + ys;
  }

  lemma SevenTokens(a: seq<Y.Token>, b: seq<Y.Token>, c: seq<Y.Token>)
    ensures a + (b + c) == a + b + c
  {
  }

  lemma NumeralLexes(ts: seq<Token>, n: nat)
    requires WellFormed(ts) && Separated(ts) && ts != [] && ts[0].Num? && !LooksLikeCount(ts) && TextLexes(ts[1..], n)
    ensures TextLexes(ts, n)
  {
    var k := Value(ts[0].digits);
    var rest := Emit(ts[1..], AnywhereConditions(n));
    if rest.Condition? && k < n {
      EmitStartsFresh(ts[1..], n);
      LexMatchTokens(k, rest.text, YaraTokens(ts[1..]));
    }
  }

  lemma CountLexes(ts: seq<Token>, n: nat)
    requires WellFormed(ts) && Separated(ts) && LooksLikeCount(ts) && ts[0].Num? && TextLexes(ts[3..], n)
    ensures TextLexes(ts, n)
  {
    var k := Value(ts[0].digits);
    var rest := Emit(ts[3..], AnywhereConditions(n));
    if rest.Condition? && k < n {
      if ts[1].Equal? && ts[2] == Num("0") {
        EmitStartsFresh(ts[3..], n);
        LexNegationTokens(k, rest.text, YaraTokens(ts[3..]));
      } else if ts[2].Num? {
        LexCountTokens(k, ts[1], Value(ts[2].digits), rest.text, YaraTokens(ts[3..]));
      }
    }
  }

  lemma {:induction false} EmittedTextLexes(ts: seq<Token>, n: nat)
    requires WellFormed(ts) && Separated(ts)
    ensures TextLexes(ts, n)
    decreases |ts|
  {
    if ts != [] {
      if !ts[0].Num? {
        EmittedTextLexes(ts[1..], n);
        SymbolLexes(ts, n);
      } else if LooksLikeCount(ts) {
        EmittedTextLexes(ts[3..], n);
        CountLexes(ts, n);
      } else {
        EmittedTextLexes(ts[1..], n);
        NumeralLexes(ts, n);
      }
    }
  }

  /** YARA reads the condition of sub-signature k, wherever it ends, as one string whose name no other
      sub-signature has. */
  lemma ConditionsAreOwnStrings(n: nat, j: nat, k: nat, rest: string)
    requires j < n && k < n && StartsFresh(rest)
    ensures Y.LexText(AnywhereConditions(n)[k] + rest) == Y.Cons(Y.Str(StringName(k)), Y.LexText(rest))
    ensures StringName(j) == StringName(k) <==> j == k
  {
    LexSigil('$', k, rest);
    assert "$a" + Dec(k) == "$" + StringName(k);
    if StringName(j) == StringName(k) {
      assert StringName(j)[1..] == Dec(j) && StringName(k)[1..] == Dec(k);
      DecInjective(j, k);
    }
  }
}
