/** Conditions as text: printed, tokenized and parsed, every AND/OR tree over comparisons comes back. */
module Texts {
  import opened Values
  import opened Expressions
  import opened Lexer
  import opened Script
  import opened Sequences
  import opened Syntax
  import opened Definitions

  // ---------------------------------------------------------------- the text of a token

  /** Digits that are read as an integer, or digits around a dot that are read as a float. */
  predicate NumeralAt(cs: Chars, text: string, v: Value, d: nat) {
    && 0 < d <= |text| && !WordStart(cs, text[0])
    && (forall i :: 0 <= i < d ==> cs.isDigit(text[i]))
    && if d == |text| then v.Int? && cs.intOf(text) == Some(v.i)
       else
         && d + 1 < |text| && text[d] == '.' && (forall i :: d < i < |text| ==> cs.isDigit(text[i]))
         && v.Float? && cs.floatOf(text) == Some(v.f)
  }

  ghost predicate Numeral(cs: Chars, text: string, v: Value) {
    exists d: nat :: NumeralAt(cs, text, v, d)
  }

  /** A string with its quotes doubled. */
  function Doubled(s: string): string {
    if s == [] then "" else (if s[0] == '\'' then "\'\'" else [s[0]]) + Doubled(s[1..])
  }

  function Quoted(s: string): string {
    "\'" + (Doubled(s) + "\'")
  }

  predicate IsOperator(text: string) {
    text == "=" || text == "!=" || text == "<" || text == "<=" || text == ">" || text == ">="
  }

  /** The token has a text: names are words that are read as names, numbers have numerals. */
  ghost predicate Writable(cs: Chars, numerals: Value -> string, x: Lexeme) {
    match x.0
    case BOOLEAN => x.1.Bool?
    case NULL => x.1.Null?
    case KEYWORD => x.1.Text? && AllCapitals(x.1.s) && Reserved(x.1.s)
    case IDENTIFIER => x.1.Text? && IsName(cs, x.1.s)
    case NUMBER => Numeral(cs, numerals(x.1), x.1)
    case STRING => x.1.Text?
    case OPERATOR => x.1.Text? && IsOperator(x.1.s)
    case EOF => false
    case _ => x.1.Text? && |x.1.s| == 1 && Punctuation(x.1.s[0]) == Some(x.0)
  }

  function TokenText(numerals: Value -> string, x: Lexeme): string {
    match x.0
    case BOOLEAN => if x.1 == Bool(true) then "TRUE" else "FALSE"
    case NULL => "NULL"
    case NUMBER => numerals(x.1)
    case STRING => if x.1.Text? then Quoted(x.1.s) else ""
    case _ => if x.1.Text? then x.1.s else ""
  }

  /** Tokens with a blank after each. */
  function SpacedText(numerals: Value -> string, ts: seq<Lexeme>): string {
    if ts == [] then "" else TokenText(numerals, ts[0]) + (" " + SpacedText(numerals, ts[1..]))
  }

  // ---------------------------------------------------------------- reading one token

  /** What follows a token: a blank first. */
  predicate AfterBlank(tail: string) {
    tail != [] && tail[0] == ' '
  }

  lemma WordHead(cs: Chars, word: string, lexeme: Lexeme, tail: string)
    requires Capitals(cs) && Definitions.Reading(cs, word, lexeme) && AfterBlank(tail)
    ensures Head(cs, word + tail) == Emit(lexeme.0, lexeme.1, |word|)
  {
    var s := word + tail;
    assert s[1..] == word[1..] + tail;
    RunAll(word[1..], WordPart(cs));
    RunConcat(word[1..], tail, WordPart(cs));
    assert s[..|word|] == word;
  }

  lemma {:induction false} DigitsRun(cs: Chars, s: string, d: nat)
    requires d <= |s| && (forall i :: 0 <= i < d ==> cs.isDigit(s[i])) && (d < |s| ==> !cs.isDigit(s[d]))
    ensures Run(s, cs.isDigit) == d
    decreases d
  {
    if d > 0 {
      DigitsRun(cs, s[1..], d - 1);
    }
  }

  lemma NumberHead(cs: Chars, text: string, v: Value, tail: string)
    requires Capitals(cs) && Numeral(cs, text, v) && AfterBlank(tail)
    ensures text != [] && Head(cs, text + tail) == Emit(NUMBER, v, |text|)
  {
    var d: nat :| NumeralAt(cs, text, v, d);
    var s := text + tail;
    NumeralRun(cs, text, v, d, tail);
    NumeralEnd(cs, text, v, d, tail);
    assert s[0] == text[0] && s[..|text|] == text;
    assert NumberStep(cs, s) == NumberEmit(cs, text, d == |text|);
  }

  lemma NumeralRun(cs: Chars, text: string, v: Value, d: nat, tail: string)
    requires Capitals(cs) && NumeralAt(cs, text, v, d) && AfterBlank(tail)
    ensures Run(text + tail, cs.isDigit) == d
  {
    var s := text + tail;
    assert forall i :: 0 <= i < |text| ==> s[i] == text[i];
    assert s[|text|] == ' ';
    DigitsRun(cs, s, d);
  }

  lemma NumeralEnd(cs: Chars, text: string, v: Value, d: nat, tail: string)
    requires Capitals(cs) && NumeralAt(cs, text, v, d) && AfterBlank(tail)
    ensures FractionEnd(cs, text + tail, d) == Some(|text|)
  {
    var s, n := text + tail, |text|;
    if d < n {
      FractionRun(cs, text, d + 1, tail);
      assert s[d] == text[d] && s[d + 1] == text[d + 1] && s[d + 1..] == text[d + 1..] + tail;
    } else {
      assert s[d] == ' ';
    }
  }

  lemma FractionRun(cs: Chars, text: string, from: nat, tail: string)
    requires Capitals(cs) && from <= |text| && AfterBlank(tail)
    requires forall i :: from <= i < |text| ==> cs.isDigit(text[i])
    ensures Run(text[from..] + tail, cs.isDigit) == |text| - from
  {
    DigitsRun(cs, text[from..] + tail, |text| - from);
  }

  lemma {:induction false} BodyOfDoubled(s: string, tail: string)
    requires AfterBlank(tail)
    ensures StringBody(Doubled(s) + ("\'" + tail)) == Some((s, |Doubled(s)| + 1))
  {
    var all, end := Doubled(s) + ("\'" + tail), "\'" + tail;
    if s == [] {
      assert all == end && all[1] == ' ';
    } else {
      BodyOfDoubled(s[1..], tail);
      var rest := Doubled(s[1..]) + end;
      if s[0] == '\'' {
        Append("\'\'", Doubled(s[1..]), end);
        assert all[2..] == rest;
        assert "\'" + s[1..] == s;
      } else {
        Append([s[0]], Doubled(s[1..]), end);
        assert all[1..] == rest;
        assert [s[0]] + s[1..] == s;
      }
    }
  }

  lemma StringHead(cs: Chars, s: string, tail: string)
    requires Capitals(cs) && AfterBlank(tail)
    ensures Head(cs, Quoted(s) + tail) == Emit(STRING, Text(s), |Quoted(s)|)
  {
    BodyOfDoubled(s, tail);
    var all := Quoted(s) + tail;
    assert all[1..] == Doubled(s) + ("\'" + tail);
  }

  lemma OperatorHead(cs: Chars, text: string, tail: string)
    requires Capitals(cs) && IsOperator(text) && AfterBlank(tail)
    ensures Head(cs, text + tail) == Emit(OPERATOR, Text(text), |text|)
  {
    var s := text + tail;
    assert s[..|text|] == text && s[0] == text[0];
    assert s[1] == if |text| == 2 then '=' else ' ';
    assert Punctuation(s[0]).None?;
    assert OperatorStep(s) == Emit(OPERATOR, Text(text), |text|);
  }

  lemma SignHead(cs: Chars, kind: Kind, sign: char, tail: string)
    requires Capitals(cs) && Punctuation(sign) == Some(kind)
    ensures Head(cs, [sign] + tail) == Emit(kind, Text([sign]), 1)
  {
    PunctuationIsSign(cs, sign);
  }

  lemma CapitalHead(cs: Chars, word: string, lexeme: Lexeme, tail: string)
    requires Capitals(cs) && AllCapitals(word) && Lexer.Word(cs, word) == lexeme && AfterBlank(tail)
    ensures Head(cs, word + tail) == Emit(lexeme.0, lexeme.1, |word|)
  {
    WordHead(cs, word, lexeme, tail);
  }

  /** Keywords and truth values are read the same in any letter case. */
  lemma AnyCase(cs: Chars, word: string, capitals: string, tail: string)
    requires Capitals(cs) && IsWordText(cs, word) && AllCapitals(capitals) && cs.upper(word) == capitals
    requires Reserved(capitals) || capitals in {"TRUE", "FALSE", "NULL"}
    requires AfterBlank(tail)
    ensures var lexeme := Lexer.Word(cs, capitals);
      && Head(cs, word + tail) == Emit(lexeme.0, lexeme.1, |word|)
      && lexeme.0 != IDENTIFIER
  {
    WordHead(cs, word, Lexer.Word(cs, capitals), tail);
  }

  /** Every token is read back from its text. */
  lemma TokenReads(cs: Chars, numerals: Value -> string, x: Lexeme, tail: string)
    requires Capitals(cs) && Writable(cs, numerals, x) && AfterBlank(tail)
    ensures var text := TokenText(numerals, x);
      text != [] && Head(cs, text + tail) == Emit(x.0, x.1, |text|)
  {
    match x.0
    case BOOLEAN =>
      CapitalHead(cs, TokenText(numerals, x), x, tail);
    case NULL =>
      CapitalHead(cs, "NULL", x, tail);
    case KEYWORD =>
      KeywordsAreNoLiterals(x.1.s);
      CapitalHead(cs, x.1.s, x, tail);
    case IDENTIFIER =>
      WordHead(cs, x.1.s, x, tail);
    case NUMBER =>
      NumberHead(cs, numerals(x.1), x.1, tail);
    case STRING =>
      StringHead(cs, x.1.s, tail);
    case OPERATOR =>
      OperatorHead(cs, x.1.s, tail);
    case EOF =>
      assert false;
    case _ =>
      assert x.1.s == [x.1.s[0]];
      SignHead(cs, x.0, x.1.s[0], tail);
  }

  lemma KeywordsAreNoLiterals(word: string)
    requires Reserved(word)
    ensures word != "TRUE" && word != "FALSE" && word != "NULL"
  {
  }

  ghost predicate AllWritable(cs: Chars, numerals: Value -> string, ts: seq<Lexeme>) {
    forall i :: 0 <= i < |ts| ==> Writable(cs, numerals, ts[i])
  }

  /** A text of writable tokens is read as these tokens. */
  lemma {:induction false} SpacedTextReads(cs: Chars, numerals: Value -> string, ts: seq<Lexeme>)
    requires Capitals(cs) && AllWritable(cs, numerals, ts)
    ensures Read(cs, SpacedText(numerals, ts)) == Some(ts)
  {
    if ts != [] {
      WritableParts(cs, numerals, ts);
      SpacedTextReads(cs, numerals, ts[1..]);
      OneMoreToken(cs, numerals, ts[0], ts[1..]);
      SpacedCons(numerals, ts);
    }
  }

  lemma WritableParts(cs: Chars, numerals: Value -> string, ts: seq<Lexeme>)
    requires AllWritable(cs, numerals, ts) && ts != []
    ensures Writable(cs, numerals, ts[0]) && AllWritable(cs, numerals, ts[1..])
  {
  }

  lemma SpacedCons(numerals: Value -> string, ts: seq<Lexeme>)
    requires ts != []
    ensures SpacedText(numerals, ts) == TokenText(numerals, ts[0]) + (" " + SpacedText(numerals, ts[1..]))
    ensures [ts[0]] + ts[1..] == ts
  {
  }

  lemma OneMoreToken(cs: Chars, numerals: Value -> string, x: Lexeme, ts: seq<Lexeme>)
    requires Capitals(cs) && Writable(cs, numerals, x) && Read(cs, SpacedText(numerals, ts)) == Some(ts)
    ensures Read(cs, TokenText(numerals, x) + (" " + SpacedText(numerals, ts))) == Some([x] + ts)
  {
    var rest := SpacedText(numerals, ts);
    TokenReads(cs, numerals, x, " " + rest);
    TokenThenBlank(cs, TokenText(numerals, x), x, rest);
  }

  lemma TokenThenBlank(cs: Chars, text: string, x: Lexeme, rest: string)
    requires Capitals(cs) && text != [] && Head(cs, text + (" " + rest)) == Emit(x.0, x.1, |text|)
    requires Read(cs, rest).Some?
    ensures Read(cs, text + (" " + rest)) == Some([x] + Read(cs, rest).value)
  {
    var s, blank := text + (" " + rest), " " + rest;
    ReadOnward(cs, s, |text|, [x]);
    assert s[|text|..] == blank;
    ReadOnward(cs, blank, 1, []);
    assert blank[1..] == rest && [] + Read(cs, rest).value == Read(cs, rest).value;
  }

  // ---------------------------------------------------------------- conditions

  /** Names are words that are read as names, and numbers have numerals. */
  ghost predicate WritableTree(cs: Chars, numerals: Value -> string, e: Expr)
    decreases e
  {
    match e
    case Identifier(name) => IsName(cs, name)
    case ColumnRef(q, column) => q.Some? && IsName(cs, q.value) && IsName(cs, column)
    case Literal(v) => v.Int? || v.Float? ==> Numeral(cs, numerals(v), v)
    case Binary(l, _, r) => WritableTree(cs, numerals, l) && WritableTree(cs, numerals, r)
    case Function(_, arguments) =>
      forall i :: 0 <= i < |arguments| ==> arguments[i] == Identifier("*") || WritableTree(cs, numerals, arguments[i])
  }

  lemma WritableConcat(cs: Chars, numerals: Value -> string, a: seq<Lexeme>, b: seq<Lexeme>)
    requires AllWritable(cs, numerals, a) && AllWritable(cs, numerals, b)
    ensures AllWritable(cs, numerals, a + b)
  {
  }

  lemma WritableThree(cs: Chars, numerals: Value -> string, a: seq<Lexeme>, b: seq<Lexeme>, c: seq<Lexeme>)
    requires AllWritable(cs, numerals, a) && AllWritable(cs, numerals, b) && AllWritable(cs, numerals, c)
    ensures AllWritable(cs, numerals, a + b + c)
  {
    WritableConcat(cs, numerals, a, b);
    WritableConcat(cs, numerals, a + b, c);
  }

  lemma OneWritable(cs: Chars, numerals: Value -> string, x: Lexeme)
    requires Writable(cs, numerals, x)
    ensures AllWritable(cs, numerals, [x])
  {
  }

  lemma {:induction false} ValueWritable(cs: Chars, numerals: Value -> string, e: Expr)
    requires IsValue(e) && WritableTree(cs, numerals, e)
    ensures AllWritable(cs, numerals, PrintValue(e))
    decreases e, 0
  {
    match e
    case Identifier(name) =>
      OneWritable(cs, numerals, (IDENTIFIER, Text(name)));
    case ColumnRef(q, column) =>
      OneWritable(cs, numerals, (IDENTIFIER, Text(q.value)));
      OneWritable(cs, numerals, (DOT, Text(".")));
      OneWritable(cs, numerals, (IDENTIFIER, Text(column)));
      WritableThree(cs, numerals, [(IDENTIFIER, Text(q.value))], Sign(DOT, "."), [(IDENTIFIER, Text(column))]);
    case Literal(v) =>
      OneWritable(cs, numerals, (LiteralKind(v), v));
    case Function(name, arguments) =>
      CallWritable(cs, numerals, name, arguments[0]);
  }

  lemma {:induction false} CallWritable(cs: Chars, numerals: Value -> string, name: string, argument: Expr)
    requires IsValue(Function(name, [argument]))
    requires argument == Identifier("*") || WritableTree(cs, numerals, argument)
    ensures AllWritable(cs, numerals, PrintValue(Function(name, [argument])))
    decreases argument, 1
  {
    var inner := if argument == Identifier("*") then Sign(STAR, "*") else PrintValue(argument);
    CallSigns(cs, numerals, name);
    if argument == Identifier("*") {
      OneWritable(cs, numerals, (STAR, Text("*")));
    } else {
      ValueWritable(cs, numerals, argument);
    }
    WritableThree(cs, numerals, Syntax.Word(name), Sign(LPAREN, "("), inner);
    WritableConcat(cs, numerals, Syntax.Word(name) + Sign(LPAREN, "(") + inner, Sign(RPAREN, ")"));
  }

  lemma CallSigns(cs: Chars, numerals: Value -> string, name: string)
    requires Aggregate(name)
    ensures AllWritable(cs, numerals, Syntax.Word(name))
    ensures AllWritable(cs, numerals, Sign(LPAREN, "(")) && AllWritable(cs, numerals, Sign(RPAREN, ")"))
  {
    OneWritable(cs, numerals, (KEYWORD, Text(name)));
    OneWritable(cs, numerals, (LPAREN, Text("(")));
    OneWritable(cs, numerals, (RPAREN, Text(")")));
  }

  lemma {:induction false} OrWritable(cs: Chars, numerals: Value -> string, e: Expr)
    requires IsPredicate(e) && WritableTree(cs, numerals, e)
    ensures AllWritable(cs, numerals, PrintOr(e))
    decreases e, 2
  {
    if e.op == OR {
      OrWritable(cs, numerals, e.left);
      AndWritable(cs, numerals, e.right);
      OneWritable(cs, numerals, (KEYWORD, Text("OR")));
      WritableThree(cs, numerals, PrintOr(e.left), Syntax.Word("OR"), PrintAnd(e.right));
    } else {
      AndWritable(cs, numerals, e);
    }
  }

  lemma {:induction false} AndWritable(cs: Chars, numerals: Value -> string, e: Expr)
    requires IsPredicate(e) && WritableTree(cs, numerals, e)
    ensures AllWritable(cs, numerals, PrintAnd(e))
    decreases e, 1
  {
    if e.op == AND {
      AndWritable(cs, numerals, e.left);
      LeafWritable(cs, numerals, e.right);
      OneWritable(cs, numerals, (KEYWORD, Text("AND")));
      WritableThree(cs, numerals, PrintAnd(e.left), Syntax.Word("AND"), PrintLeaf(e.right));
    } else {
      LeafWritable(cs, numerals, e);
    }
  }

  lemma {:induction false} LeafWritable(cs: Chars, numerals: Value -> string, e: Expr)
    requires IsPredicate(e) && WritableTree(cs, numerals, e)
    ensures AllWritable(cs, numerals, PrintLeaf(e))
    decreases e, 0
  {
    if IsComparison(e.op) {
      ValueWritable(cs, numerals, e.left);
      ValueWritable(cs, numerals, e.right);
      OneWritable(cs, numerals, (OPERATOR, Text(OperatorText(e.op))));
      WritableThree(cs, numerals, PrintValue(e.left), Sign(OPERATOR, OperatorText(e.op)), PrintValue(e.right));
    } else {
      OneWritable(cs, numerals, (LPAREN, Text("(")));
      OneWritable(cs, numerals, (RPAREN, Text(")")));
      var inside: seq<Lexeme>;
      if e.op == OR {
        OrWritable(cs, numerals, e.left);
        AndWritable(cs, numerals, e.right);
        OneWritable(cs, numerals, (KEYWORD, Text("OR")));
        inside := PrintOr(e.left) + Syntax.Word("OR") + PrintAnd(e.right);
        WritableThree(cs, numerals, PrintOr(e.left), Syntax.Word("OR"), PrintAnd(e.right));
      } else {
        AndWritable(cs, numerals, e.left);
        LeafWritable(cs, numerals, e.right);
        OneWritable(cs, numerals, (KEYWORD, Text("AND")));
        inside := PrintAnd(e.left) + Syntax.Word("AND") + PrintLeaf(e.right);
        WritableThree(cs, numerals, PrintAnd(e.left), Syntax.Word("AND"), PrintLeaf(e.right));
      }
      WritableThree(cs, numerals, Sign(LPAREN, "("), inside, Sign(RPAREN, ")"));
    }
  }

  /** Printing a condition as text, tokenizing and parsing it gives the condition back: operators,
      keywords, truth values, NULL, numbers and strings with quotes in them. */
  lemma ConditionReadsBack(cs: Chars, numerals: Value -> string, e: Expr)
    requires Capitals(cs) && IsPredicate(e) && WritableTree(cs, numerals, e)
    ensures var outcome := Lex(cs, SpacedText(numerals, PrintOr(e)), 0);
      && outcome.Tokens? && Ended(Lexemes(outcome.tokens) + END)
      && ParseOr(Lexemes(outcome.tokens) + END) == Parsed(e, END)
  {
    OrWritable(cs, numerals, e);
    SpacedTextReads(cs, numerals, PrintOr(e));
    ReadIsLex(cs, SpacedText(numerals, PrintOr(e)), 0);
    PredicateRoundTrip(e, END);
  }
}
