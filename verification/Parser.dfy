/** The recursive-descent parser over its token list and index. */
module Parser {
  import opened Values
  import opened Catalog
  import opened Expressions
  import opened Lexer
  import opened Syntax
  import Definitions

  /** The tree, or a syntax error at a position of the text. */
  datatype Answer<+T> = Answer(value: T) | SyntaxError(position: nat)

  /** The outcome on values: parsed to the same tree, or stopped at the same token. */
  predicate SameAnswer<T(==)>(p: Parse<T>, answer: Answer<T>, position: nat) {
    match p
    case Parsed(value, _) => answer == Answer(value)
    case Failed(_) => answer == SyntaxError(position)
  }

  class Parser {
    const tokens: seq<Token>
    var index: nat

    /** The index never passes the end marker. */
    ghost predicate Valid()
      reads this
    {
      index < |tokens| && tokens[|tokens| - 1].kind == EOF
    }

    /** The tokens that remain. */
    ghost function Rest(): (r: seq<Lexeme>)
      requires Valid()
      reads this
      ensures Ended(r) && |r| == |tokens| - index && r[0] == (tokens[index].kind, tokens[index].value)
    {
      Lexemes(tokens[index..])
    }

    /** The parser stands where the function says, with the same answer. */
    ghost predicate Agrees<T>(p: Parse<T>, answer: Answer<T>)
      reads this
    {
      Valid() && Rest() == p.rest && SameAnswer(p, answer, tokens[index].position)
    }

    constructor (tokens: seq<Token>, endPosition: nat)
      requires tokens != []
      ensures Valid() && index == 0 && Rest() == Lexemes(tokens) + Definitions.END
      ensures this.tokens == tokens + [Token(EOF, Text(""), endPosition)]
    {
      var all := tokens + [Token(EOF, Text(""), endPosition)];
      this.tokens := all;
      index := 0;
      new;
      assert all[0..] == all;
    }

    function Current(): Token
      requires Valid()
      reads this
    {
      tokens[index]
    }

    predicate MatchKind(kind: Kind)
      requires Valid()
      reads this
    {
      Current().kind == kind
    }

    predicate MatchKeyword(word: string)
      requires Valid()
      reads this
      ensures MatchKeyword(word) <==> IsKeyword(Rest(), word)
    {
      Current().kind == KEYWORD && Current().value == Text(word)
    }

    method Advance()
      requires Valid() && Current().kind != EOF
      modifies this
      ensures Valid() && index == old(index) + 1 && Rest() == old(Rest())[1..]
    {
      assert tokens[index..][1..] == tokens[index + 1..];
      index := index + 1;
    }

    method ExpectIdentifier() returns (answer: Answer<string>)
      requires Valid()
      modifies this
      ensures Agrees(ParseName(old(Rest())), answer) && index >= old(index)
    {
      if !MatchKind(IDENTIFIER) || !Current().value.Text? {
        return SyntaxError(Current().position);
      }
      var value := Current().value.s;
      Advance();
      answer := Answer(value);
    }

    method ExpectKind(kind: Kind) returns (answer: Answer<()>)
      requires Valid() && kind != EOF
      modifies this
      ensures Agrees(ParseKind(old(Rest()), kind), answer) && index >= old(index)
    {
      if !MatchKind(kind) {
        return SyntaxError(Current().position);
      }
      Advance();
      answer := Answer(());
    }

    method ExpectKeyword(word: string) returns (answer: Answer<()>)
      requires Valid()
      modifies this
      ensures Agrees(Definitions.ParseWord(old(Rest()), word), answer) && index >= old(index)
    {
      if !MatchKeyword(word) {
        return SyntaxError(Current().position);
      }
      Advance();
      answer := Answer(());
    }

    // -------------------------------------------------------------- values

    method ParseIdentifierExpression() returns (answer: Answer<Expr>)
      requires Valid()
      modifies this
      ensures Agrees(ParseColumn(old(Rest())), answer) && index >= old(index)
    {
      var name := ExpectIdentifier();
      if name.SyntaxError? {
        return SyntaxError(name.position);
      }
      if MatchKind(DOT) {
        Advance();
        var column := ExpectIdentifier();
        if column.SyntaxError? {
          return SyntaxError(column.position);
        }
        return Answer(ColumnRef(Some(name.value), column.value));
      }
      answer := Answer(Identifier(name.value));
    }

    method ParseFunctionCall() returns (answer: Answer<Expr>)
      requires Valid() && Current().kind == KEYWORD && Current().value.Text?
      modifies this
      ensures Agrees(ParseCall(old(Rest())), answer) && index >= old(index)
      decreases |tokens| - index, 0
    {
      var name := Current().value.s;
      Advance();
      var open := ExpectKind(LPAREN);
      if open.SyntaxError? {
        return SyntaxError(open.position);
      }
      var argument := ParseArgument(name);
      if argument.SyntaxError? {
        return argument;
      }
      var close := ExpectKind(RPAREN);
      if close.SyntaxError? {
        return SyntaxError(close.position);
      }
      answer := Answer(Function(name, [argument.value]));
    }

    method ParseArgument(name: string) returns (answer: Answer<Expr>)
      requires Valid()
      modifies this
      ensures Agrees(Syntax.ParseArgument(name, old(Rest())), answer) && index >= old(index)
      decreases |tokens| - index, 2
    {
      if !MatchKind(STAR) {
        answer := ParseValueExpression();
        return;
      }
      if name != "COUNT" {
        return SyntaxError(Current().position);
      }
      Advance();
      answer := Answer(Identifier("*"));
    }

    method ParseValueExpression() returns (answer: Answer<Expr>)
      requires Valid()
      modifies this
      ensures Agrees(ParseValue(old(Rest())), answer) && index >= old(index)
      decreases |tokens| - index, 1
    {
      if Current().kind == KEYWORD && Current().value.Text? && Aggregate(Current().value.s) {
        answer := ParseFunctionCall();
        return;
      }
      if MatchKind(IDENTIFIER) {
        answer := ParseIdentifierExpression();
        return;
      }
      if MatchKind(NUMBER) || MatchKind(STRING) || MatchKind(BOOLEAN) {
        var value := Current().value;
        Advance();
        return Answer(Literal(value));
      }
      if MatchKind(NULL) {
        Advance();
        return Answer(Literal(Null));
      }
      if MatchKind(LPAREN) {
        answer := ParseParenthesizedValue();
        return;
      }
      answer := SyntaxError(Current().position);
    }

    method ParseParenthesizedValue() returns (answer: Answer<Expr>)
      requires Valid() && Current().kind == LPAREN
      modifies this
      ensures Agrees(ParseValue(old(Rest())), answer) && index >= old(index)
      decreases |tokens| - index, 0
    {
      Advance();
      var inner := ParseValueExpression();
      if inner.SyntaxError? {
        return inner;
      }
      var close := ExpectKind(RPAREN);
      answer := if close.Answer? then inner else SyntaxError(close.position);
    }

    // -------------------------------------------------------------- predicates

    method ParseComparisonPredicate() returns (answer: Answer<Expr>)
      requires Valid()
      modifies this
      ensures Agrees(ParseComparison(old(Rest())), answer) && index >= old(index)
    {
      var left := ParseValueExpression();
      if left.SyntaxError? {
        return left;
      }
      if Current().kind == OPERATOR && Current().value.Text? && ComparisonOf(Current().value.s).Some? {
        var op := ComparisonOf(Current().value.s).value;
        Advance();
        var right := ParseValueExpression();
        return if right.Answer? then Answer(Binary(left.value, op, right.value)) else right;
      }
      answer := SyntaxError(Current().position);
    }

    method ParsePredicateLeaf() returns (answer: Answer<Expr>)
      requires Valid()
      modifies this
      ensures Agrees(ParseLeaf(old(Rest())), answer) && index >= old(index)
      decreases |tokens| - index, 0
    {
      if MatchKind(LPAREN) {
        Advance();
        var inner := ParseOrPredicate();
        if inner.SyntaxError? {
          return inner;
        }
        var close := ExpectKind(RPAREN);
        return if close.Answer? then inner else SyntaxError(close.position);
      }
      answer := ParseComparisonPredicate();
    }

    method ParseAndPredicate() returns (answer: Answer<Expr>)
      requires Valid()
      modifies this
      ensures Agrees(ParseAnd(old(Rest())), answer) && index >= old(index)
      decreases |tokens| - index, 1
    {
      var first := ParsePredicateLeaf();
      if first.SyntaxError? {
        return first;
      }
      var expression := first.value;
      while MatchKeyword("AND")
        invariant Valid() && index >= old(index)
        invariant ParseAnd(old(Rest())) == AndTail(expression, Rest())
        decreases |tokens| - index
      {
        Advance();
        var leaf := ParsePredicateLeaf();
        if leaf.SyntaxError? {
          return leaf;
        }
        expression := Binary(expression, AND, leaf.value);
      }
      answer := Answer(expression);
    }

    method ParseOrPredicate() returns (answer: Answer<Expr>)
      requires Valid()
      modifies this
      ensures Agrees(ParseOr(old(Rest())), answer) && index >= old(index)
      decreases |tokens| - index, 2
    {
      var first := ParseAndPredicate();
      if first.SyntaxError? {
        return first;
      }
      var expression := first.value;
      while MatchKeyword("OR")
        invariant Valid() && index >= old(index)
        invariant ParseOr(old(Rest())) == OrTail(expression, Rest())
        decreases |tokens| - index
      {
        Advance();
        var more := ParseAndPredicate();
        if more.SyntaxError? {
          return more;
        }
        expression := Binary(expression, OR, more.value);
      }
      answer := Answer(expression);
    }

    // -------------------------------------------------------------- CREATE TABLE

    method ExpectTypeName() returns (answer: Answer<TinyType>)
      requires Valid()
      modifies this
      ensures Agrees(Definitions.ParseType(old(Rest())), answer) && index >= old(index)
    {
      if Current().kind == KEYWORD && Current().value.Text? && Definitions.TypeOf(Current().value.s).Some? {
        var ty := Definitions.TypeOf(Current().value.s).value;
        Advance();
        return Answer(ty);
      }
      answer := SyntaxError(Current().position);
    }

    method ParseColumnDef() returns (answer: Answer<ColumnDef>)
      requires Valid()
      modifies this
      ensures Agrees(Definitions.ParseColumnDef(old(Rest())), answer) && index >= old(index)
    {
      var name := ExpectIdentifier();
      if name.SyntaxError? {
        return SyntaxError(name.position);
      }
      var ty := ExpectTypeName();
      if ty.SyntaxError? {
        return SyntaxError(ty.position);
      }
      answer := ParseConstraints(name.value, ty.value);
    }

    method ParseConstraints(name: string, ty: TinyType) returns (answer: Answer<ColumnDef>)
      requires Valid()
      modifies this
      ensures Agrees(Definitions.ParseConstraints(ColumnDef(name, ty, false, false, false), old(Rest())), answer)
      ensures index >= old(index)
    {
      var definition := ColumnDef(name, ty, false, false, false);
      ghost var whole := Definitions.ParseConstraints(definition, Rest());
      while MatchKind(KEYWORD)
        invariant Valid() && index >= old(index)
        invariant whole == Definitions.ParseConstraints(definition, Rest())
        decreases |tokens| - index
      {
        if MatchKeyword("PRIMARY") {
          Advance();
          var key := ExpectKeyword("KEY");
          if key.SyntaxError? {
            return SyntaxError(key.position);
          }
          definition := definition.(primaryKey := true);
        } else if MatchKeyword("NOT") {
          Advance();
          var nothing := ExpectKind(NULL);
          if nothing.SyntaxError? {
            return SyntaxError(nothing.position);
          }
          definition := definition.(notNull := true);
        } else if MatchKeyword("UNIQUE") {
          Advance();
          definition := definition.(unique := true);
        } else if MatchKeyword("FOREIGN") {
          return SyntaxError(Current().position);
        } else {
          break;
        }
      }
      answer := Answer(definition);
    }

    /** The columns in their parentheses. */
    method ParseColumnList() returns (answer: Answer<seq<ColumnDef>>)
      requires Valid()
      modifies this
      ensures Agrees(Definitions.ParseColumnList(old(Rest())), answer) && index >= old(index)
    {
      var open := ExpectKind(LPAREN);
      if open.SyntaxError? {
        return SyntaxError(open.position);
      }
      var first := ParseColumnDef();
      if first.SyntaxError? {
        return SyntaxError(first.position);
      }
      var columns := ParseMoreColumns(first.value);
      if columns.SyntaxError? {
        return columns;
      }
      var close := ExpectKind(RPAREN);
      answer := if close.Answer? then columns else SyntaxError(close.position);
    }

    method ParseMoreColumns(first: ColumnDef) returns (answer: Answer<seq<ColumnDef>>)
      requires Valid()
      modifies this
      ensures Agrees(Definitions.ParseColumns([first], old(Rest())), answer) && index >= old(index)
    {
      var columns := [first];
      ghost var whole := Definitions.ParseColumns(columns, Rest());
      while MatchKind(COMMA)
        invariant Valid() && index >= old(index)
        invariant whole == Definitions.ParseColumns(columns, Rest())
        decreases |tokens| - index
      {
        Advance();
        var column := ParseColumnDef();
        if column.SyntaxError? {
          return SyntaxError(column.position);
        }
        columns := columns + [column.value];
      }
      answer := Answer(columns);
    }

    method ParseCreate() returns (answer: Answer<CreateTable>)
      requires Valid()
      modifies this
      ensures Agrees(Definitions.ParseCreate(old(Rest())), answer) && index >= old(index)
    {
      var create := ExpectKeyword("CREATE");
      if create.SyntaxError? {
        return SyntaxError(create.position);
      }
      if MatchKeyword("VIEW") || MatchKeyword("TRIGGER") {
        return SyntaxError(Current().position);
      }
      var table := ExpectKeyword("TABLE");
      if table.SyntaxError? {
        return SyntaxError(table.position);
      }
      var name := ExpectIdentifier();
      if name.SyntaxError? {
        return SyntaxError(name.position);
      }
      var columns := ParseColumnList();
      answer :=
        if columns.Answer? then Answer(CreateTable(name.value, columns.value)) else SyntaxError(columns.position);
    }

    method ConsumeOptionalSemicolon()
      requires Valid()
      modifies this
      ensures Valid() && index >= old(index)
      ensures Rest() == if old(Rest())[0].0 == SEMICOLON then old(Rest())[1..] else old(Rest())
    {
      if MatchKind(SEMICOLON) {
        Advance();
      }
    }
  }

  /** What comes of the text of a statement: the statement, or the fault and where it is. */
  datatype Reading<+T> =
    | Read(value: T)
    | Unreadable(fault: Fault, position: nat)
    | EmptyText
    | Unparsable(position: nat)

  /** The position of the token with which the last `left` ones of the list begin, the end marker being
      the last of all. */
  function PositionOf(tokens: seq<Token>, endPosition: nat, left: nat): nat
    requires 0 < left <= |tokens| + 1
  {
    (tokens + [Token(EOF, Text(""), endPosition)])[|tokens| + 1 - left].position
  }

  /** A whole CREATE TABLE statement from text; the position of the end marker is the caller's. */
  method ParseCreateStatement(cs: Chars, sql: string, endPosition: nat) returns (reading: Reading<CreateTable>)
    ensures var lexed := Lex(cs, sql, 0);
      match lexed
      case LexFault(fault, position) => reading == Unreadable(fault, position)
      case Tokens(tokens) =>
        if tokens == [] then reading == EmptyText
        else
          var create := Definitions.ParseCreateSql(Lexemes(tokens) + Definitions.END);
          match create
          case Parsed(value, _) => reading == Read(value)
          case Failed(rest) =>
            0 < |rest| <= |tokens| + 1 && reading == Unparsable(PositionOf(tokens, endPosition, |rest|))
    ensures reading.Read? <==> Definitions.ParseCreateText(cs, sql).Some?
    ensures reading.Read? ==> Definitions.ParseCreateText(cs, sql) == Some(reading.value)
  {
    var read := Tokenize(cs, sql);
    if read.LexFault? {
      return Unreadable(read.fault, read.position);
    }
    if read.tokens == [] {
      return EmptyText;
    }
    var parser := new Parser(read.tokens, endPosition);
    var create := parser.ParseCreate();
    if create.SyntaxError? {
      return Unparsable(create.position);
    }
    parser.ConsumeOptionalSemicolon();
    reading := if parser.MatchKind(EOF) then Read(create.value) else Unparsable(parser.Current().position);
  }
}
