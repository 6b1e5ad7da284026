/** The tokenizer. What Python's character tables and number conversions do is a parameter. */
module Lexer {
  import opened Values

  datatype Kind =
    | BOOLEAN | NULL | KEYWORD | IDENTIFIER | NUMBER | STRING
    | COMMA | DOT | LPAREN | RPAREN | STAR | SEMICOLON | OPERATOR | EOF

  datatype Token = Token(kind: Kind, value: Value, position: nat)

  /** A token without its position. */
  type Lexeme = (Kind, Value)

  function Lexemes(tokens: seq<Token>): seq<Lexeme> {
    seq(|tokens|, i requires 0 <= i < |tokens| => (tokens[i].kind, tokens[i].value))
  }

  /** `NotANumber` is the conversion's own error on digits it does not know. */
  datatype Fault = InvalidNumber | NotANumber | UnterminatedString | InvalidCharacter

  datatype LexOutcome = Tokens(tokens: seq<Token>) | LexFault(fault: Fault, position: nat)

  datatype Chars = Chars(
    isSpace: char -> bool, isAlpha: char -> bool, isDigit: char -> bool, isAlnum: char -> bool,
    upper: string -> string, intOf: string -> Option<int>, floatOf: string -> Option<real>)

  /** The words the language keeps for itself. */
  predicate Reserved(word: string) {
    word in {
      "ALTER", "AND", "AS", "ASC", "AVG", "BEGIN", "BOOL", "BY", "COMMIT", "COUNT", "CREATE", "CROSS", "DELETE",
      "DESC", "DROP", "FLOAT", "FOREIGN", "FROM", "FULL", "GROUP", "INSERT", "INNER", "INT", "INTO", "JOIN", "KEY",
      "LEFT", "LIMIT", "NATURAL", "NOT", "OFFSET", "ON", "OR", "ORDER", "OUTER", "PRIMARY", "RIGHT", "ROLLBACK",
      "SELECT", "SET", "SUM", "TABLE", "TEXT", "TRIGGER", "UNIQUE", "UPDATE", "VALUES", "VIEW", "WHERE"}
  }

  predicate WordStart(cs: Chars, c: char) {
    cs.isAlpha(c) || c == '_'
  }

  function WordPart(cs: Chars): char -> bool {
    c => cs.isAlnum(c) || c == '_'
  }

  // ---------------------------------------------------------------- one token

  /** The length of the longest prefix of such characters. */
  function Run(s: string, p: char -> bool): (n: nat)
    ensures n <= |s|
  {
    if s == [] || !p(s[0]) then 0 else 1 + Run(s[1..], p)
  }

  lemma {:induction false} RunIsLongest(s: string, p: char -> bool)
    ensures var n := Run(s, p); (forall i :: 0 <= i < n ==> p(s[i])) && (n < |s| ==> !p(s[n]))
  {
    if s != [] && p(s[0]) {
      RunIsLongest(s[1..], p);
      assert forall i :: 0 < i < |s| ==> s[i] == s[1..][i - 1];
    }
  }

  /** What follows an opening quote, up to its closing one: the text and the characters used. */
  function StringBody(s: string): (r: Option<(string, nat)>)
    ensures r.Some? ==> 0 < r.value.1 <= |s|
  {
    if s == [] then None
    else if s[0] == '\'' then
      if |s| > 1 && s[1] == '\'' then
        var rest := StringBody(s[2..]);
        if rest.None? then None else Some(("'" + rest.value.0, rest.value.1 + 2))
      else Some(("", 1))
    else
      var rest := StringBody(s[1..]);
      if rest.None? then None else Some(([s[0]] + rest.value.0, rest.value.1 + 1))
  }

  datatype Step = Skip | Emit(kind: Kind, value: Value, size: nat) | Fail(fault: Fault)

  function Word(cs: Chars, word: string): (Kind, Value) {
    var normalized := cs.upper(word);
    if normalized == "TRUE" then (BOOLEAN, Bool(true))
    else if normalized == "FALSE" then (BOOLEAN, Bool(false))
    else if normalized == "NULL" then (NULL, Null)
    else if Reserved(normalized) then (KEYWORD, Text(normalized))
    else (IDENTIFIER, Text(word))
  }

  /** Where a number with `d` leading digits ends: there, or after a dot and more digits. */
  function FractionEnd(cs: Chars, s: string, d: nat): (n: Option<nat>)
    requires d <= |s|
    ensures n.Some? ==> d <= n.value <= |s|
  {
    if d < |s| && s[d] == '.' then
      if d + 1 < |s| && cs.isDigit(s[d + 1]) then Some(d + 1 + Run(s[d + 1..], cs.isDigit)) else None
    else Some(d)
  }

  function NumberSize(cs: Chars, s: string): (n: Option<nat>)
    requires s != [] && cs.isDigit(s[0])
    ensures n.Some? ==> 0 < n.value <= |s|
  {
    FractionEnd(cs, s, Run(s, cs.isDigit))
  }

  function NumberStep(cs: Chars, s: string): (step: Step)
    requires s != [] && cs.isDigit(s[0])
    ensures step.Emit? ==> 0 < step.size <= |s|
  {
    var n := NumberSize(cs, s);
    if n.None? then Fail(InvalidNumber) else NumberEmit(cs, s[..n.value], n.value == Run(s, cs.isDigit))
  }

  function NumberEmit(cs: Chars, digits: string, whole: bool): (step: Step) {
    if whole then
      var i := cs.intOf(digits);
      if i.Some? then Emit(NUMBER, Int(i.value), |digits|) else Fail(NotANumber)
    else
      var f := cs.floatOf(digits);
      if f.Some? then Emit(NUMBER, Float(f.value), |digits|) else Fail(NotANumber)
  }

  function Punctuation(c: char): Option<Kind> {
    match c
    case ',' => Some(COMMA)
    case '.' => Some(DOT)
    case '(' => Some(LPAREN)
    case ')' => Some(RPAREN)
    case '*' => Some(STAR)
    case ';' => Some(SEMICOLON)
    case _ => None
  }

  function OperatorStep(s: string): Step
    requires s != []
  {
    if |s| > 1 && (s[0] == '!' || s[0] == '<' || s[0] == '>') && s[1] == '=' then Emit(OPERATOR, Text(s[..2]), 2)
    else if s[0] == '<' || s[0] == '>' || s[0] == '=' then Emit(OPERATOR, Text(s[..1]), 1)
    else Fail(InvalidCharacter)
  }

  /** What the text starts with. */
  function Head(cs: Chars, s: string): (step: Step)
    requires s != []
    ensures step.Emit? ==> 0 < step.size <= |s|
  {
    var c := s[0];
    if cs.isSpace(c) then Skip
    else if WordStart(cs, c) then
      var n := 1 + Run(s[1..], WordPart(cs));
      var (kind, value) := Word(cs, s[..n]);
      Emit(kind, value, n)
    else if cs.isDigit(c) then NumberStep(cs, s)
    else if c == '\'' then
      var body := StringBody(s[1..]);
      if body.None? then Fail(UnterminatedString) else Emit(STRING, Text(body.value.0), body.value.1 + 1)
    else if Punctuation(c).Some? then Emit(Punctuation(c).value, Text([c]), 1)
    else OperatorStep(s)
  }

  /** The tokens of a text that starts at a position, or the first fault. */
  function Lex(cs: Chars, s: string, at: nat): LexOutcome
    decreases |s|
  {
    if s == [] then Tokens([])
    else
      match Head(cs, s)
      case Fail(fault) => LexFault(fault, at)
      case Skip => Lex(cs, s[1..], at + 1)
      case Emit(kind, value, size) => After([Token(kind, value, at)], Lex(cs, s[size..], at + size))
  }

  function After(tokens: seq<Token>, rest: LexOutcome): LexOutcome {
    if rest.LexFault? then rest else Tokens(tokens + rest.tokens)
  }

  // ---------------------------------------------------------------- the loop

  lemma Suffixes<T>(s: seq<T>, i: nat, j: nat)
    requires i <= j <= |s|
    ensures s[i..][j - i..] == s[j..] && s[i..j] == s[i..][..j - i]
  {
  }

  /** Where a run of such characters that starts before `start` ends. */
  method ReadRun(sql: string, start: nat, p: char -> bool) returns (position: nat)
    requires start <= |sql|
    ensures position == start + Run(sql[start..], p) <= |sql|
  {
    position := start;
    while position < |sql| && p(sql[position])
      invariant start <= position <= |sql| && start + Run(sql[start..], p) == position + Run(sql[position..], p)
    {
      assert sql[position..][1..] == sql[position + 1..];
      position := position + 1;
    }
  }

  ghost predicate Reading(sql: string, start: nat, position: nat, value: string) {
    && start <= position <= |sql|
    && var whole, rest := StringBody(sql[start..]), StringBody(sql[position..]);
      whole == if rest.None? then None else Some((value + rest.value.0, position - start + rest.value.1))
  }

  lemma ReadingPlain(sql: string, start: nat, position: nat, value: string)
    requires Reading(sql, start, position, value) && position < |sql| && sql[position] != '\''
    ensures Reading(sql, start, position + 1, value + [sql[position]])
  {
    assert sql[position..][1..] == sql[position + 1..];
    var rest := StringBody(sql[position + 1..]);
    if rest.Some? {
      assert value + ([sql[position]] + rest.value.0) == value + [sql[position]] + rest.value.0;
    }
  }

  lemma ReadingQuote(sql: string, start: nat, position: nat, value: string)
    requires Reading(sql, start, position, value) && position + 1 < |sql| && sql[position] == sql[position + 1] == '\''
    ensures Reading(sql, start, position + 2, value + "'")
  {
    assert sql[position..][2..] == sql[position + 2..];
    assert sql[position..][1] == sql[position + 1];
    var rest := StringBody(sql[position + 2..]);
    if rest.Some? {
      assert value + ("'" + rest.value.0) == value + "'" + rest.value.0;
    }
  }

  /** Reads on after an opening quote. */
  method ReadString(sql: string, start: nat) returns (value: string, position: nat, closed: bool)
    requires start <= |sql|
    ensures closed <==> StringBody(sql[start..]).Some?
    ensures closed ==> StringBody(sql[start..]) == Some((value, position - start)) && start < position <= |sql|
  {
    value, position, closed := "", start, false;
    assert forall body: string :: "" + body == body;
    while position < |sql|
      invariant Reading(sql, start, position, value) && !closed
    {
      var current := sql[position];
      if current == '\'' {
        if position + 1 < |sql| && sql[position + 1] == '\'' {
          ReadingQuote(sql, start, position, value);
          value := value + "'";
          position := position + 2;
          continue;
        }
        assert value + "" == value;
        position := position + 1;
        closed := true;
        return;
      }
      ReadingPlain(sql, start, position, value);
      value := value + [current];
      position := position + 1;
    }
  }

  lemma AfterAfter(tokens: seq<Token>, more: seq<Token>, rest: LexOutcome)
    ensures After(tokens, After(more, rest)) == After(tokens + more, rest)
  {
    if rest.Tokens? {
      assert tokens + (more + rest.tokens) == tokens + more + rest.tokens;
    }
  }

  /** `lex` gives the reading of the rest of a text from each of its positions. */
  ghost predicate Reads(lex: nat -> LexOutcome, cs: Chars, sql: string) {
    forall p {:trigger Lex(cs, sql[p..], p)} :: 0 <= p <= |sql| ==> lex(p) == Lex(cs, sql[p..], p)
  }

  lemma Readings(cs: Chars, sql: string) returns (lex: nat -> LexOutcome)
    ensures Reads(lex, cs, sql)
  {
    lex := (p: nat) => if p <= |sql| then Lex(cs, sql[p..], p) else Tokens([]);
  }

  lemma ReadingEnds(lex: nat -> LexOutcome, cs: Chars, sql: string)
    requires Reads(lex, cs, sql)
    ensures lex(0) == Lex(cs, sql, 0) && lex(|sql|) == Tokens([])
  {
    assert sql[0..] == sql;
    assert Lex(cs, sql[|sql|..], |sql|) == Tokens([]);
  }

  lemma AfterNothing(rest: LexOutcome)
    ensures After([], rest) == rest
  {
    if rest.Tokens? {
      assert [] + rest.tokens == rest.tokens;
    }
  }

  /** How far a step moves and what it appends; a space moves one character and appends nothing. */
  function StepSize(step: Step): nat {
    if step.Emit? then step.size else 1
  }

  function Emitted(step: Step, at: nat): seq<Token> {
    if step.Emit? then [Token(step.kind, step.value, at)] else []
  }

  lemma LexSteps(cs: Chars, s: string, at: nat, step: Step, next: LexOutcome)
    requires s != [] && step == Head(cs, s)
    requires !step.Fail? ==> next == Lex(cs, s[StepSize(step)..], at + StepSize(step))
    ensures Lex(cs, s, at) == if step.Fail? then LexFault(step.fault, at) else After(Emitted(step, at), next)
  {
    AfterNothing(next);
  }

  /** Reading from a position is its first step and reading from where that ends. */
  lemma ReadsStep(lex: nat -> LexOutcome, cs: Chars, sql: string, position: nat, step: Step)
    requires Reads(lex, cs, sql) && position < |sql| && step == Head(cs, sql[position..])
    ensures !step.Fail? ==> 0 < StepSize(step) <= |sql| - position
    ensures lex(position) ==
      if step.Fail? then LexFault(step.fault, position)
      else After(Emitted(step, position), lex(position + StepSize(step)))
  {
    if !step.Fail? {
      Suffixes(sql, position, position + StepSize(step));
    }
    LexSteps(cs, sql[position..], position, step, lex(position + StepSize(step)));
  }

  method ReadWord(cs: Chars, sql: string, start: nat) returns (step: Step)
    requires start < |sql| && WordStart(cs, sql[start]) && !cs.isSpace(sql[start])
    ensures step == Head(cs, sql[start..])
  {
    var position := ReadRun(sql, start + 1, WordPart(cs));
    assert sql[start..][1..] == sql[start + 1..];
    Suffixes(sql, start, position);
    var value := sql[start..position];
    var normalized := cs.upper(value);
    var size := position - start;
    if normalized == "TRUE" {
      step := Emit(BOOLEAN, Bool(true), size);
    } else if normalized == "FALSE" {
      step := Emit(BOOLEAN, Bool(false), size);
    } else if normalized == "NULL" {
      step := Emit(NULL, Null, size);
    } else if Reserved(normalized) {
      step := Emit(KEYWORD, Text(normalized), size);
    } else {
      step := Emit(IDENTIFIER, Text(value), size);
    }
  }

  lemma FractionFrom(cs: Chars, sql: string, start: nat, position: nat)
    requires start <= position <= |sql|
    ensures FractionEnd(cs, sql[start..], position - start)
         == (var end := FractionEnd(cs, sql, position); if end.None? then None else Some(end.value - start))
  {
    if position < |sql| {
      Suffixes(sql, start, position + 1);
    }
  }

  lemma NumberStepAt(cs: Chars, sql: string, start: nat, digits: nat)
    requires start < |sql| && cs.isDigit(sql[start]) && digits == start + Run(sql[start..], cs.isDigit)
    ensures NumberStep(cs, sql[start..]) ==
      (match FractionEnd(cs, sql, digits)
       case None => Fail(InvalidNumber)
       case Some(end) => NumberEmit(cs, sql[start..end], end == digits))
  {
    FractionFrom(cs, sql, start, digits);
    var end := FractionEnd(cs, sql, digits);
    if end.Some? {
      Suffixes(sql, start, end.value);
    }
  }

  method ReadNumber(cs: Chars, sql: string, start: nat) returns (step: Step)
    requires start < |sql| && cs.isDigit(sql[start])
    ensures step == NumberStep(cs, sql[start..])
  {
    var position := ReadRun(sql, start + 1, cs.isDigit);
    Suffixes(sql, start, start + 1);
    NumberStepAt(cs, sql, start, position);
    if position < |sql| && sql[position] == '.' {
      position := position + 1;
      if position >= |sql| || !cs.isDigit(sql[position]) {
        return Fail(InvalidNumber);
      }
      position := ReadRun(sql, position, cs.isDigit);
      var f := cs.floatOf(sql[start..position]);
      step := if f.Some? then Emit(NUMBER, Float(f.value), position - start) else Fail(NotANumber);
    } else {
      var i := cs.intOf(sql[start..position]);
      step := if i.Some? then Emit(NUMBER, Int(i.value), position - start) else Fail(NotANumber);
    }
  }

  /** The token, space or fault at a position. */
  method ReadStep(cs: Chars, sql: string, start: nat) returns (step: Step)
    requires start < |sql|
    ensures step == Head(cs, sql[start..])
  {
    var c := sql[start];
    if cs.isSpace(c) {
      return Skip;
    }
    if WordStart(cs, c) {
      step := ReadWord(cs, sql, start);
    } else if cs.isDigit(c) {
      step := ReadNumber(cs, sql, start);
    } else if c == '\'' {
      assert sql[start..][1..] == sql[start + 1..];
      var value, position, closed := ReadString(sql, start + 1);
      step := if closed then Emit(STRING, Text(value), position - start) else Fail(UnterminatedString);
    } else if Punctuation(c).Some? {
      step := Emit(Punctuation(c).value, Text([c]), 1);
    } else {
      step := OperatorStep(sql[start..]);
    }
  }

  method Advance(cs: Chars, sql: string, position: nat, ghost lex: nat -> LexOutcome) returns (step: Step)
    requires Reads(lex, cs, sql) && position < |sql|
    ensures !step.Fail? ==> 0 < StepSize(step) <= |sql| - position
    ensures lex(position) ==
      if step.Fail? then LexFault(step.fault, position)
      else After(Emitted(step, position), lex(position + StepSize(step)))
  {
    step := ReadStep(cs, sql, position);
    ReadsStep(lex, cs, sql, position, step);
  }

  method Tokenize(cs: Chars, sql: string) returns (r: LexOutcome)
    ensures r == Lex(cs, sql, 0)
  {
    var tokens: seq<Token> := [];
    var position: nat := 0;
    ghost var lex := Readings(cs, sql);
    ReadingEnds(lex, cs, sql);
    AfterNothing(lex(0));
    while position < |sql|
      invariant position <= |sql| && lex(0) == After(tokens, lex(position))
    {
      var step := Advance(cs, sql, position, lex);
      if step.Fail? {
        return LexFault(step.fault, position);
      }
      AfterAfter(tokens, Emitted(step, position), lex(position + StepSize(step)));
      tokens := tokens + Emitted(step, position);
      position := position + StepSize(step);
    }
    assert tokens + [] == tokens;
    r := Tokens(tokens);
  }
}
