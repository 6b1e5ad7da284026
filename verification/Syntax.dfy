/** The grammar of predicates: what the recursive-descent parser computes on the tokens that remain,
    and a printer that it inverts. */
module Syntax {
  import opened Values
  import opened Expressions
  import opened Lexer
  import opened Sequences

  /** The tree and what is left, or where the parser stopped. */
  datatype Parse<+T> = Parsed(value: T, rest: seq<Lexeme>) | Failed(rest: seq<Lexeme>)

  predicate Aggregate(name: string) {
    name in {"COUNT", "SUM", "AVG"}
  }

  /** The token list ends with the end marker, so there is always a current token. */
  predicate Ended(ts: seq<Lexeme>) {
    ts != [] && ts[|ts| - 1].0 == EOF
  }

  predicate IsKeyword(ts: seq<Lexeme>, word: string)
    requires ts != []
  {
    ts[0] == (KEYWORD, Text(word))
  }

  function ComparisonOf(text: string): Option<Operator> {
    match text
    case "=" => Some(EQ)
    case "!=" => Some(NE)
    case "<" => Some(LT)
    case "<=" => Some(LE)
    case ">" => Some(GT)
    case ">=" => Some(GE)
    case _ => None
  }

  /** A comparison operator at the front. */
  function ComparisonAt(ts: seq<Lexeme>): Option<Operator>
    requires ts != []
  {
    if ts[0].0 == OPERATOR && ts[0].1.Text? then ComparisonOf(ts[0].1.s) else None
  }

  /** What a step of the parser keeps: it consumes some tokens but not the end marker. */
  predicate Consumes<T>(ts: seq<Lexeme>, p: Parse<T>) {
    Ended(p.rest) && |p.rest| <= |ts| && (p.Parsed? ==> |p.rest| < |ts|)
  }

  // ---------------------------------------------------------------- values

  function ParseName(ts: seq<Lexeme>): (p: Parse<string>)
    requires Ended(ts)
    ensures Consumes(ts, p)
  {
    if ts[0].0 == IDENTIFIER && ts[0].1.Text? then Parsed(ts[0].1.s, ts[1..]) else Failed(ts)
  }

  function ParseKind(ts: seq<Lexeme>, kind: Kind): (p: Parse<()>)
    requires Ended(ts) && kind != EOF
    ensures Consumes(ts, p)
  {
    if ts[0].0 == kind then Parsed((), ts[1..]) else Failed(ts)
  }

  function ParseColumn(ts: seq<Lexeme>): (p: Parse<Expr>)
    requires Ended(ts)
    ensures Consumes(ts, p)
  {
    var name := ParseName(ts);
    if name.Failed? then Failed(name.rest)
    else if name.rest[0].0 == DOT then
      var column := ParseName(name.rest[1..]);
      if column.Failed? then Failed(column.rest) else Parsed(ColumnRef(Some(name.value), column.value), column.rest)
    else Parsed(Identifier(name.value), name.rest)
  }

  function ParseCall(ts: seq<Lexeme>): (p: Parse<Expr>)
    requires Ended(ts) && ts[0].0 == KEYWORD && ts[0].1.Text?
    ensures Consumes(ts, p)
    decreases |ts|, 0
  {
    var name := ts[0].1.s;
    var open := ParseKind(ts[1..], LPAREN);
    if open.Failed? then Failed(open.rest)
    else
      var argument := ParseArgument(name, open.rest);
      if argument.Failed? then argument
      else
        var close := ParseKind(argument.rest, RPAREN);
        if close.Failed? then Failed(close.rest) else Parsed(Function(name, [argument.value]), close.rest)
  }

  /** The star belongs to COUNT. */
  function ParseArgument(name: string, ts: seq<Lexeme>): (p: Parse<Expr>)
    requires Ended(ts)
    ensures Consumes(ts, p)
    decreases |ts|, 2
  {
    if ts[0].0 != STAR then ParseValue(ts)
    else if name != "COUNT" then Failed(ts)
    else Parsed(Identifier("*"), ts[1..])
  }

  function ParseValue(ts: seq<Lexeme>): (p: Parse<Expr>)
    requires Ended(ts)
    ensures Consumes(ts, p)
    decreases |ts|, 1
  {
    var (kind, value) := ts[0];
    if kind == KEYWORD && value.Text? && Aggregate(value.s) then ParseCall(ts)
    else if kind == IDENTIFIER then ParseColumn(ts)
    else if kind == NUMBER || kind == STRING || kind == BOOLEAN then Parsed(Literal(value), ts[1..])
    else if kind == NULL then Parsed(Literal(Null), ts[1..])
    else if kind == LPAREN then
      var inner := ParseValue(ts[1..]);
      if inner.Failed? then inner
      else
        var close := ParseKind(inner.rest, RPAREN);
        if close.Failed? then Failed(close.rest) else Parsed(inner.value, close.rest)
    else Failed(ts)
  }

  // ---------------------------------------------------------------- predicates

  function ParseComparison(ts: seq<Lexeme>): (p: Parse<Expr>)
    requires Ended(ts)
    ensures Consumes(ts, p)
  {
    var left := ParseValue(ts);
    if left.Failed? then left
    else
      var op := ComparisonAt(left.rest);
      if op.None? then Failed(left.rest)
      else
        var right := ParseValue(left.rest[1..]);
        if right.Failed? then right else Parsed(Binary(left.value, op.value, right.value), right.rest)
  }

  function ParseLeaf(ts: seq<Lexeme>): (p: Parse<Expr>)
    requires Ended(ts)
    ensures Consumes(ts, p)
    decreases |ts|, 0
  {
    if ts[0].0 == LPAREN then
      var inner := ParseOr(ts[1..]);
      if inner.Failed? then inner
      else
        var close := ParseKind(inner.rest, RPAREN);
        if close.Failed? then Failed(close.rest) else Parsed(inner.value, close.rest)
    else ParseComparison(ts)
  }

  function ParseAnd(ts: seq<Lexeme>): (p: Parse<Expr>)
    requires Ended(ts)
    ensures Consumes(ts, p)
    decreases |ts|, 2
  {
    var first := ParseLeaf(ts);
    if first.Failed? then first else AndTail(first.value, first.rest)
  }

  /** What the AND loop does from here, with the tree so far. */
  function AndTail(e: Expr, ts: seq<Lexeme>): (p: Parse<Expr>)
    requires Ended(ts)
    ensures Ended(p.rest) && |p.rest| <= |ts|
    decreases |ts|, 1
  {
    if !IsKeyword(ts, "AND") then Parsed(e, ts)
    else
      var leaf := ParseLeaf(ts[1..]);
      if leaf.Failed? then leaf else AndTail(Binary(e, AND, leaf.value), leaf.rest)
  }

  function ParseOr(ts: seq<Lexeme>): (p: Parse<Expr>)
    requires Ended(ts)
    ensures Consumes(ts, p)
    decreases |ts|, 4
  {
    var first := ParseAnd(ts);
    if first.Failed? then first else OrTail(first.value, first.rest)
  }

  function OrTail(e: Expr, ts: seq<Lexeme>): (p: Parse<Expr>)
    requires Ended(ts)
    ensures Ended(p.rest) && |p.rest| <= |ts|
    decreases |ts|, 3
  {
    if !IsKeyword(ts, "OR") then Parsed(e, ts)
    else
      var more := ParseAnd(ts[1..]);
      if more.Failed? then more else OrTail(Binary(e, OR, more.value), more.rest)
  }

  // ---------------------------------------------------------------- printing

  function LiteralKind(v: Value): Kind {
    match v
    case Null => NULL
    case Bool(_) => BOOLEAN
    case Int(_) => NUMBER
    case Float(_) => NUMBER
    case Text(_) => STRING
  }

  function OperatorText(op: Operator): string {
    match op
    case EQ => "="
    case NE => "!="
    case LT => "<"
    case LE => "<="
    case GT => ">"
    case GE => ">="
    case _ => ""
  }

  /** The value expressions of the language. */
  predicate IsValue(e: Expr) {
    match e
    case Identifier(_) => true
    case ColumnRef(q, _) => q.Some?
    case Literal(_) => true
    case Binary(_, _, _) => false
    case Function(name, arguments) =>
      && Aggregate(name) && |arguments| == 1
      && (if arguments[0] == Identifier("*") then name == "COUNT" else IsValue(arguments[0]))
  }

  /** Trees of AND and OR over comparisons of values. */
  predicate IsPredicate(e: Expr) {
    && e.Binary?
    && if IsComparison(e.op) then IsValue(e.left) && IsValue(e.right)
       else (e.op == AND || e.op == OR) && IsPredicate(e.left) && IsPredicate(e.right)
  }

  function Word(text: string): seq<Lexeme> {
    [(KEYWORD, Text(text))]
  }

  function Sign(kind: Kind, text: string): seq<Lexeme> {
    [(kind, Text(text))]
  }

  function PrintValue(e: Expr): (r: seq<Lexeme>)
    requires IsValue(e)
    ensures r != [] && r[0].0 != LPAREN
  {
    match e
    case Identifier(name) => [(IDENTIFIER, Text(name))]
    case ColumnRef(q, c) => [(IDENTIFIER, Text(q.value))] + Sign(DOT, ".") + [(IDENTIFIER, Text(c))]
    case Literal(v) => [(LiteralKind(v), v)]
    case Function(name, arguments) =>
      Word(name) + Sign(LPAREN, "(")
      + (if arguments[0] == Identifier("*") then Sign(STAR, "*") else PrintValue(arguments[0]))
      + Sign(RPAREN, ")")
  }

  /** Parentheses only around what binds less tightly than its place: a disjunction or conjunction
      that is the right operand of AND, a disjunction that is its left one, and a disjunction that is
      the right operand of OR. */
  function PrintOr(e: Expr): seq<Lexeme>
    requires IsPredicate(e)
    decreases e, 2
  {
    if e.op == OR then PrintOr(e.left) + Word("OR") + PrintAnd(e.right) else PrintAnd(e)
  }

  function PrintAnd(e: Expr): seq<Lexeme>
    requires IsPredicate(e)
    decreases e, 1
  {
    if e.op == AND then PrintAnd(e.left) + Word("AND") + PrintLeaf(e.right) else PrintLeaf(e)
  }

  function PrintLeaf(e: Expr): seq<Lexeme>
    requires IsPredicate(e)
    decreases e, 0
  {
    if IsComparison(e.op) then PrintValue(e.left) + Sign(OPERATOR, OperatorText(e.op)) + PrintValue(e.right)
    else if e.op == OR then Sign(LPAREN, "(") + (PrintOr(e.left) + Word("OR") + PrintAnd(e.right)) + Sign(RPAREN, ")")
    else Sign(LPAREN, "(") + (PrintAnd(e.left) + Word("AND") + PrintLeaf(e.right)) + Sign(RPAREN, ")")
  }

  lemma PrintLeafParens(e: Expr)
    requires IsPredicate(e) && !IsComparison(e.op)
    ensures PrintLeaf(e) == Sign(LPAREN, "(") + PrintOr(e) + Sign(RPAREN, ")")
  {
  }

  // ---------------------------------------------------------------- parsing what was printed

  /** Tokens that may follow an expression. */
  predicate Follows(ts: seq<Lexeme>) {
    Ended(ts) && ts[0].0 != DOT
  }

  lemma Cons(x: Lexeme, ts: seq<Lexeme>)
    requires Ended(ts)
    ensures Ended([x] + ts) && ([x] + ts)[0] == x && ([x] + ts)[1..] == ts
  {
  }

  lemma Append3(a: seq<Lexeme>, b: seq<Lexeme>, c: seq<Lexeme>, d: seq<Lexeme>)
    ensures a + b + c + d == a + (b + (c + d))
  {
  }

  lemma Append4(a: seq<Lexeme>, b: seq<Lexeme>, c: seq<Lexeme>, d: seq<Lexeme>, e: seq<Lexeme>)
    ensures a + b + c + d + e == a + (b + (c + (d + e)))
  {
  }

  lemma EndedAfter(a: seq<Lexeme>, ts: seq<Lexeme>)
    requires Ended(ts)
    ensures Ended(a + ts) && (a != [] ==> (a + ts)[0] == a[0])
  {
  }

  lemma ColumnStep(q: string, c: string, all: seq<Lexeme>, dotted: seq<Lexeme>, named: seq<Lexeme>, ts: seq<Lexeme>)
    requires Follows(ts) && named == [(IDENTIFIER, Text(c))] + ts
    requires dotted == Sign(DOT, ".") + named && all == [(IDENTIFIER, Text(q))] + dotted
    ensures Ended(all) && ParseValue(all) == Parsed(ColumnRef(Some(q), c), ts)
  {
    Cons((IDENTIFIER, Text(c)), ts);
    Cons((DOT, Text(".")), named);
    Cons((IDENTIFIER, Text(q)), dotted);
  }

  lemma ColumnReads(q: string, c: string, ts: seq<Lexeme>)
    requires Follows(ts)
    ensures Ended(PrintValue(ColumnRef(Some(q), c)) + ts)
    ensures ParseValue(PrintValue(ColumnRef(Some(q), c)) + ts) == Parsed(ColumnRef(Some(q), c), ts)
  {
    var first, dot, name := [(IDENTIFIER, Text(q))], Sign(DOT, "."), [(IDENTIFIER, Text(c))];
    Append3(first, dot, name, ts);
    ColumnStep(q, c, first + (dot + (name + ts)), dot + (name + ts), name + ts, ts);
  }

  lemma CallStep(name: string, ts: seq<Lexeme>, body: seq<Lexeme>, argument: Expr, close: seq<Lexeme>,
                 rest: seq<Lexeme>)
    requires Aggregate(name) && Ended(rest) && Ended(close) && Ended(body)
    requires ts == Word(name) + (Sign(LPAREN, "(") + body) && close == Sign(RPAREN, ")") + rest
    requires ParseArgument(name, body) == Parsed(argument, close)
    ensures Ended(ts) && ParseValue(ts) == Parsed(Function(name, [argument]), rest)
  {
    Cons((LPAREN, Text("(")), body);
    Cons((KEYWORD, Text(name)), Sign(LPAREN, "(") + body);
    Cons((RPAREN, Text(")")), rest);
    assert ParseCall(ts) == Parsed(Function(name, [argument]), rest);
  }

  lemma ArgumentStep(name: string, body: seq<Lexeme>, argument: Expr, close: seq<Lexeme>)
    requires Ended(close) && Ended(body)
    requires if argument == Identifier("*") then name == "COUNT" && body == Sign(STAR, "*") + close
             else body[0].0 != STAR && ParseValue(body) == Parsed(argument, close)
    ensures ParseArgument(name, body) == Parsed(argument, close)
  {
    if argument == Identifier("*") {
      Cons((STAR, Text("*")), close);
    }
  }

  lemma CallReads(name: string, argument: Expr, inner: seq<Lexeme>, ts: seq<Lexeme>)
    requires Aggregate(name) && Ended(ts) && inner != [] && Ended(Sign(RPAREN, ")") + ts)
    requires Ended(inner + (Sign(RPAREN, ")") + ts))
    requires if argument == Identifier("*") then name == "COUNT" && inner == Sign(STAR, "*")
             else
               && inner[0].0 != STAR
               && ParseValue(inner + (Sign(RPAREN, ")") + ts)) == Parsed(argument, Sign(RPAREN, ")") + ts)
    ensures var text := Word(name) + Sign(LPAREN, "(") + inner + Sign(RPAREN, ")");
            Ended(text + ts) && ParseValue(text + ts) == Parsed(Function(name, [argument]), ts)
  {
    var close := Sign(RPAREN, ")") + ts;
    Append4(Word(name), Sign(LPAREN, "("), inner, Sign(RPAREN, ")"), ts);
    EndedAfter(inner, close);
    ArgumentStep(name, inner + close, argument, close);
    CallStep(name, Word(name) + (Sign(LPAREN, "(") + (inner + close)), inner + close, argument, close, ts);
  }

  /** A printed value does not start like `*`. */
  lemma PrintedFirst(e: Expr)
    requires IsValue(e)
    ensures PrintValue(e)[0].0 != STAR
  {
  }

  lemma {:induction false} ValueReads(e: Expr, ts: seq<Lexeme>)
    requires IsValue(e) && Follows(ts)
    ensures Ended(PrintValue(e) + ts) && ParseValue(PrintValue(e) + ts) == Parsed(e, ts)
    decreases e
  {
    match e
    case Identifier(name) => Cons((IDENTIFIER, Text(name)), ts);
    case ColumnRef(q, c) => ColumnReads(q.value, c, ts);
    case Literal(v) => Cons((LiteralKind(v), v), ts);
    case Function(name, arguments) =>
      assert arguments == [arguments[0]];
      var close := Sign(RPAREN, ")") + ts;
      Cons((RPAREN, Text(")")), ts);
      if arguments[0] == Identifier("*") {
        EndedAfter(Sign(STAR, "*"), close);
        CallReads(name, arguments[0], Sign(STAR, "*"), ts);
      } else {
        EndedAfter(PrintValue(arguments[0]), close);
        ValueReads(arguments[0], close);
        PrintedFirst(arguments[0]);
        CallReads(name, arguments[0], PrintValue(arguments[0]), ts);
      }
  }

  lemma ComparisonStep(ts: seq<Lexeme>, left: Expr, op: Operator, right: Expr, middle: seq<Lexeme>, rest: seq<Lexeme>)
    requires Ended(ts) && ts[0].0 != LPAREN && Ended(middle) && ParseValue(ts) == Parsed(left, middle)
    requires ComparisonAt(middle) == Some(op) && Ended(middle[1..]) && ParseValue(middle[1..]) == Parsed(right, rest)
    ensures ParseLeaf(ts) == Parsed(Binary(left, op, right), rest)
  {
  }

  lemma OperatorReads(op: Operator, ts: seq<Lexeme>)
    requires IsComparison(op) && Ended(ts)
    ensures var more := Sign(OPERATOR, OperatorText(op)) + ts;
            Ended(more) && more[0].0 == OPERATOR && more[1..] == ts && ComparisonAt(more) == Some(op)
  {
    Cons((OPERATOR, Text(OperatorText(op))), ts);
  }

  lemma ComparisonReads(e: Expr, ts: seq<Lexeme>)
    requires IsPredicate(e) && IsComparison(e.op) && Follows(ts)
    ensures Ended(PrintLeaf(e) + ts) && ParseLeaf(PrintLeaf(e) + ts) == Parsed(e, ts)
  {
    var left, sign, right := PrintValue(e.left), Sign(OPERATOR, OperatorText(e.op)), PrintValue(e.right);
    EndedAfter(right, ts);
    OperatorReads(e.op, right + ts);
    ValueReads(e.left, sign + (right + ts));
    ValueReads(e.right, ts);
    EndedAfter(left, sign + (right + ts));
    Append3(left, sign, right, ts);
    ComparisonStep(left + (sign + (right + ts)), e.left, e.op, e.right, sign + (right + ts), ts);
  }

  lemma AndStep(left: Expr, right: Expr, ts: seq<Lexeme>, rest: seq<Lexeme>)
    requires Ended(ts) && Ended(Word("AND") + ts) && ParseLeaf(ts) == Parsed(right, rest)
    ensures AndTail(left, Word("AND") + ts) == AndTail(Binary(left, AND, right), rest)
  {
    Cons((KEYWORD, Text("AND")), ts);
  }

  lemma OrStep(left: Expr, right: Expr, ts: seq<Lexeme>, rest: seq<Lexeme>)
    requires Ended(ts) && Ended(Word("OR") + ts) && ParseAnd(ts) == Parsed(right, rest)
    ensures OrTail(left, Word("OR") + ts) == OrTail(Binary(left, OR, right), rest)
  {
    Cons((KEYWORD, Text("OR")), ts);
  }

  lemma ParensStep(e: Expr, ts: seq<Lexeme>, close: seq<Lexeme>, rest: seq<Lexeme>)
    requires Ended(rest) && close == Sign(RPAREN, ")") + rest && Ended(close) && Ended(ts)
    requires ParseOr(ts) == Parsed(e, close)
    ensures Ended(Sign(LPAREN, "(") + ts) && ParseLeaf(Sign(LPAREN, "(") + ts) == Parsed(e, rest)
  {
    Cons((LPAREN, Text("(")), ts);
    Cons((RPAREN, Text(")")), rest);
  }

  /** Reading a printed operand leaves the loop where it would be with the operand's tree. */
  lemma {:induction false} OrReads(e: Expr, ts: seq<Lexeme>)
    requires IsPredicate(e) && Follows(ts) && !IsKeyword(ts, "AND")
    ensures Ended(PrintOr(e) + ts) && ParseOr(PrintOr(e) + ts) == OrTail(e, ts)
    decreases e, 4
  {
    if e.op == OR {
      OrNodeReads(e, ts);
    } else {
      EndedAfter(PrintOr(e), ts);
      AndReads(e, ts);
    }
  }

  lemma {:induction false} OrNodeReads(e: Expr, ts: seq<Lexeme>)
    requires IsPredicate(e) && e.op == OR && Follows(ts) && !IsKeyword(ts, "AND")
    ensures Ended(PrintOr(e) + ts) && ParseOr(PrintOr(e) + ts) == OrTail(e, ts)
    decreases e, 0
  {
    var left, right := PrintOr(e.left), PrintAnd(e.right);
    EndedAfter(right, ts);
    Cons((KEYWORD, Text("OR")), right + ts);
    OrReads(e.left, Word("OR") + (right + ts));
    AndReads(e.right, ts);
    OrStep(e.left, e.right, right + ts, ts);
    Append3(left, Word("OR"), right, ts);
    assert e == Binary(e.left, OR, e.right);
  }

  lemma {:induction false} AndReads(e: Expr, ts: seq<Lexeme>)
    requires IsPredicate(e) && Follows(ts)
    ensures Ended(PrintAnd(e) + ts) && ParseAnd(PrintAnd(e) + ts) == AndTail(e, ts)
    decreases e, 3
  {
    if e.op == AND {
      AndNodeReads(e, ts);
    } else {
      EndedAfter(PrintAnd(e), ts);
      LeafReads(e, ts);
    }
  }

  lemma {:induction false} AndNodeReads(e: Expr, ts: seq<Lexeme>)
    requires IsPredicate(e) && e.op == AND && Follows(ts)
    ensures Ended(PrintAnd(e) + ts) && ParseAnd(PrintAnd(e) + ts) == AndTail(e, ts)
    decreases e, 0
  {
    var left, right := PrintAnd(e.left), PrintLeaf(e.right);
    EndedAfter(right, ts);
    Cons((KEYWORD, Text("AND")), right + ts);
    AndReads(e.left, Word("AND") + (right + ts));
    LeafReads(e.right, ts);
    AndStep(e.left, e.right, right + ts, ts);
    Append3(left, Word("AND"), right, ts);
    assert e == Binary(e.left, AND, e.right);
  }

  lemma {:induction false} LeafReads(e: Expr, ts: seq<Lexeme>)
    requires IsPredicate(e) && Follows(ts)
    ensures Ended(PrintLeaf(e) + ts) && ParseLeaf(PrintLeaf(e) + ts) == Parsed(e, ts)
    decreases e, 2
  {
    if IsComparison(e.op) {
      ComparisonReads(e, ts);
    } else {
      CompoundReads(e, ts);
    }
  }

  lemma {:induction false} CompoundReads(e: Expr, ts: seq<Lexeme>)
    requires IsPredicate(e) && !IsComparison(e.op) && Follows(ts)
    ensures Ended(PrintLeaf(e) + ts) && ParseLeaf(PrintLeaf(e) + ts) == Parsed(e, ts)
    decreases e, 1
  {
    var close := Sign(RPAREN, ")") + ts;
    Cons((RPAREN, Text(")")), ts);
    EndedAfter(PrintOr(e), close);
    if e.op == OR {
      OrNodeReads(e, close);
    } else {
      AndNodeReads(e, close);
    }
    ParensStep(e, PrintOr(e) + close, close, ts);
    PrintLeafParens(e);
    Append3(Sign(LPAREN, "("), PrintOr(e), Sign(RPAREN, ")"), ts);
  }

  /** Printing a predicate and parsing it gives the predicate back. */
  lemma PredicateRoundTrip(e: Expr, ts: seq<Lexeme>)
    requires IsPredicate(e) && Follows(ts) && !IsKeyword(ts, "AND") && !IsKeyword(ts, "OR")
    ensures Ended(PrintOr(e) + ts) && ParseOr(PrintOr(e) + ts) == Parsed(e, ts)
  {
    OrReads(e, ts);
  }

  /** The operator each comparison sign stands for. */
  lemma ComparisonTokens(l: Expr, op: Operator, text: string, r: Expr, ts: seq<Lexeme>)
    requires IsValue(l) && IsValue(r) && Follows(ts) && !IsKeyword(ts, "AND") && !IsKeyword(ts, "OR")
    requires (op, text) in {(EQ, "="), (NE, "!="), (LT, "<"), (LE, "<="), (GT, ">"), (GE, ">=")}
    ensures var all := PrintValue(l) + [(OPERATOR, Text(text))] + PrintValue(r) + ts;
      Ended(all) && ParseOr(all) == Parsed(Binary(l, op, r), ts)
  {
    var e := Binary(l, op, r);
    assert OperatorText(op) == text;
    OnePrinted(e);
    assert PrintLeaf(e) == PrintValue(l) + [(OPERATOR, Text(text))] + PrintValue(r);
    PredicateRoundTrip(e, ts);
  }

  lemma OnePrinted(e: Expr)
    requires IsPredicate(e) && IsComparison(e.op)
    ensures PrintOr(e) == PrintLeaf(e) && PrintAnd(e) == PrintLeaf(e)
  {
    assert PrintOr(e) == PrintAnd(e);
  }

  lemma OrPrinted(l: Expr, r: Expr)
    requires IsPredicate(l) && IsPredicate(r)
    ensures PrintOr(Binary(l, OR, r)) == PrintOr(l) + [(KEYWORD, Text("OR"))] + PrintAnd(r)
  {
  }

  lemma AndPrinted(l: Expr, r: Expr)
    requires IsPredicate(l) && IsPredicate(r)
    ensures PrintAnd(Binary(l, AND, r)) == PrintAnd(l) + [(KEYWORD, Text("AND"))] + PrintLeaf(r)
  {
  }

  /** The word OR between two conditions is their disjunction, AND their conjunction and binds closer. */
  lemma WordTokens(a: Expr, b: Expr, c: Expr, ts: seq<Lexeme>)
    requires IsPredicate(a) && IsComparison(a.op) && IsPredicate(b) && IsComparison(b.op)
    requires IsPredicate(c) && IsComparison(c.op)
    requires Follows(ts) && !IsKeyword(ts, "AND") && !IsKeyword(ts, "OR")
    ensures var all := PrintLeaf(a) + [(KEYWORD, Text("OR"))]
                       + (PrintLeaf(b) + [(KEYWORD, Text("AND"))] + PrintLeaf(c)) + ts;
      Ended(all) && ParseOr(all) == Parsed(Binary(a, OR, Binary(b, AND, c)), ts)
  {
    OnePrinted(a);
    OnePrinted(b);
    AndPrinted(b, c);
    OrPrinted(a, Binary(b, AND, c));
    PredicateRoundTrip(Binary(a, OR, Binary(b, AND, c)), ts);
  }

  // ---------------------------------------------------------------- printing what was parsed

  /** No name is `*`, as words of the tokenizer start with a letter or an underscore. */
  predicate ProperNames(ts: seq<Lexeme>) {
    forall i :: 0 <= i < |ts| ==> ts[i] != (IDENTIFIER, Text("*"))
  }

  lemma ProperRest(ts: seq<Lexeme>)
    requires Ended(ts) && ProperNames(ts) && ts[0].0 != EOF
    ensures Ended(ts[1..]) && ProperNames(ts[1..])
  {
  }

  lemma ColumnMinimal(ts: seq<Lexeme>)
    requires Ended(ts) && ProperNames(ts) && ParseColumn(ts).Parsed?
    ensures var p := ParseColumn(ts);
            && ProperNames(p.rest) && p.value != Identifier("*") && IsValue(p.value)
            && |PrintValue(p.value)| <= |ts| - |p.rest|
  {
    ProperRest(ts);
    if ts[1].0 == DOT {
      ProperRest(ts[1..]);
      ProperRest(ts[1..][1..]);
    }
  }

  /** Whatever parses as a value is a value, and its printed form is the shortest that does. */
  lemma {:induction false} ValueMinimal(ts: seq<Lexeme>)
    requires Ended(ts) && ProperNames(ts) && ParseValue(ts).Parsed?
    ensures var p := ParseValue(ts);
            && ProperNames(p.rest) && p.value != Identifier("*") && IsValue(p.value)
            && |PrintValue(p.value)| <= |ts| - |p.rest|
    decreases |ts|, 1
  {
    var (kind, value) := ts[0];
    ProperRest(ts);
    if kind == KEYWORD && value.Text? && Aggregate(value.s) {
      CallMinimal(ts);
    } else if kind == IDENTIFIER {
      ColumnMinimal(ts);
    } else if kind == LPAREN {
      ValueMinimal(ts[1..]);
      ProperRest(ParseValue(ts[1..]).rest);
    }
  }

  lemma {:induction false} CallMinimal(ts: seq<Lexeme>)
    requires Ended(ts) && ProperNames(ts) && ts[0].0 == KEYWORD && ts[0].1.Text? && Aggregate(ts[0].1.s)
    requires ParseCall(ts).Parsed?
    ensures var p := ParseCall(ts);
            ProperNames(p.rest) && p.value.Function? && IsValue(p.value) && |PrintValue(p.value)| <= |ts| - |p.rest|
    decreases |ts|, 0
  {
    ProperRest(ts);
    ProperRest(ts[1..]);
    var body := ts[1..][1..];
    if body[0].0 == STAR {
      ProperRest(body);
      ProperRest(body[1..]);
    } else {
      ValueMinimal(body);
      ProperRest(ParseValue(body).rest);
    }
  }

  lemma ComparisonSign(ts: seq<Lexeme>)
    requires Ended(ts) && ComparisonAt(ts).Some?
    ensures ts[0].0 == OPERATOR && IsComparison(ComparisonAt(ts).value)
  {
  }

  lemma ComparisonSize(left: Expr, op: Operator, right: Expr)
    requires IsComparison(op) && IsValue(left) && IsValue(right)
    ensures IsPredicate(Binary(left, op, right))
    ensures |PrintLeaf(Binary(left, op, right))| == |PrintValue(left)| + 1 + |PrintValue(right)|
  {
  }

  lemma ComparisonMinimal(ts: seq<Lexeme>)
    requires Ended(ts) && ProperNames(ts) && ParseComparison(ts).Parsed?
    ensures var p := ParseComparison(ts);
            ProperNames(p.rest) && IsPredicate(p.value) && |PrintLeaf(p.value)| <= |ts| - |p.rest|
  {
    ValueMinimal(ts);
    var left := ParseValue(ts);
    ComparisonSign(left.rest);
    ProperRest(left.rest);
    ValueMinimal(left.rest[1..]);
    ComparisonSize(left.value, ComparisonAt(left.rest).value, ParseValue(left.rest[1..]).value);
  }

  lemma PrintSizes(e: Expr)
    requires IsPredicate(e)
    ensures |PrintOr(e)| <= |PrintAnd(e)| <= |PrintLeaf(e)| <= |PrintOr(e)| + 2
    ensures IsComparison(e.op) ==> |PrintLeaf(e)| == |PrintOr(e)|
  {
    if !IsComparison(e.op) {
      PrintLeafParens(e);
    }
  }

  lemma {:induction false} LeafMinimal(ts: seq<Lexeme>)
    requires Ended(ts) && ProperNames(ts) && ParseLeaf(ts).Parsed?
    ensures var p := ParseLeaf(ts);
            ProperNames(p.rest) && IsPredicate(p.value) && |PrintLeaf(p.value)| <= |ts| - |p.rest|
    decreases |ts|, 0
  {
    if ts[0].0 == LPAREN {
      ProperRest(ts);
      PrintMinimal(ts[1..]);
      var inner := ParseOr(ts[1..]);
      ProperRest(inner.rest);
      PrintSizes(inner.value);
    } else {
      ComparisonMinimal(ts);
    }
  }

  lemma {:induction false} AndMinimal(ts: seq<Lexeme>)
    requires Ended(ts) && ProperNames(ts) && ParseAnd(ts).Parsed?
    ensures var p := ParseAnd(ts);
            ProperNames(p.rest) && IsPredicate(p.value) && |PrintAnd(p.value)| <= |ts| - |p.rest|
    decreases |ts|, 2
  {
    LeafMinimal(ts);
    var first := ParseLeaf(ts);
    PrintSizes(first.value);
    AndTailMinimal(first.value, first.rest);
  }

  lemma {:induction false} AndTailMinimal(e: Expr, ts: seq<Lexeme>)
    requires Ended(ts) && ProperNames(ts) && IsPredicate(e) && AndTail(e, ts).Parsed?
    ensures var p := AndTail(e, ts);
            ProperNames(p.rest) && IsPredicate(p.value) && |PrintAnd(p.value)| <= |PrintAnd(e)| + |ts| - |p.rest|
    decreases |ts|, 1
  {
    if IsKeyword(ts, "AND") {
      ProperRest(ts);
      LeafMinimal(ts[1..]);
      var leaf := ParseLeaf(ts[1..]);
      AndTailMinimal(Binary(e, AND, leaf.value), leaf.rest);
    }
  }

  /** Whatever parses as a predicate is a predicate, and no token list that parses to it is shorter
      than its printed form: the printer's parentheses are all needed. */
  lemma {:induction false} PrintMinimal(ts: seq<Lexeme>)
    requires Ended(ts) && ProperNames(ts) && ParseOr(ts).Parsed?
    ensures var p := ParseOr(ts);
            ProperNames(p.rest) && IsPredicate(p.value) && |PrintOr(p.value)| <= |ts| - |p.rest|
    decreases |ts|, 4
  {
    AndMinimal(ts);
    var first := ParseAnd(ts);
    PrintSizes(first.value);
    OrTailMinimal(first.value, first.rest);
  }

  lemma {:induction false} OrTailMinimal(e: Expr, ts: seq<Lexeme>)
    requires Ended(ts) && ProperNames(ts) && IsPredicate(e) && OrTail(e, ts).Parsed?
    ensures var p := OrTail(e, ts);
            ProperNames(p.rest) && IsPredicate(p.value) && |PrintOr(p.value)| <= |PrintOr(e)| + |ts| - |p.rest|
    decreases |ts|, 3
  {
    if IsKeyword(ts, "OR") {
      ProperRest(ts);
      AndMinimal(ts[1..]);
      var more := ParseAnd(ts[1..]);
      OrTailMinimal(Binary(e, OR, more.value), more.rest);
    }
  }
}
