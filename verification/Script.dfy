/** Splitting a script into statements, and how that agrees with the tokenizer. */
module Script {
  import opened Values
  import opened Lexer

  // ---------------------------------------------------------------- what splitting means

  function Quotes(s: string): nat {
    if s == [] then 0 else (if s[0] == '\'' then 1 else 0) + Quotes(s[1..])
  }

  /** A semicolon outside a string literal: an even number of quotes stands before it. */
  predicate Cuts(s: string, i: nat) {
    i < |s| && s[i] == ';' && Quotes(s[..i]) % 2 == 0
  }

  ghost predicate HasCut(s: string) {
    exists i :: Cuts(s, i)
  }

  /** The first cut at or after `from`, or the length of the text. */
  function CutFrom(s: string, from: nat): (k: nat)
    requires from <= |s|
    ensures from <= k <= |s|
    ensures k < |s| ==> Cuts(s, k)
    ensures forall i: nat :: from <= i < k ==> !Cuts(s, i)
    decreases |s| - from
  {
    if from == |s| || Cuts(s, from) then from else CutFrom(s, from + 1)
  }

  /** The texts between the cuts. */
  function Pieces(s: string): seq<string>
    decreases |s|
  {
    var k := CutFrom(s, 0);
    if k == |s| then [s] else [s[..k]] + Pieces(s[k + 1..])
  }

  function StripLeft(s: string, space: char -> bool): string {
    if s != [] && space(s[0]) then StripLeft(s[1..], space) else s
  }

  function StripRight(s: string, space: char -> bool): string {
    if s != [] && space(s[|s| - 1]) then StripRight(s[..|s| - 1], space) else s
  }

  function Strip(s: string, space: char -> bool): string {
    StripRight(StripLeft(s, space), space)
  }

  /** The stripped texts that are not empty. */
  function Statements(pieces: seq<string>, space: char -> bool): seq<string> {
    if pieces == [] then []
    else StatementOf(pieces[0], space) + Statements(pieces[1..], space)
  }

  function StatementOf(piece: string, space: char -> bool): seq<string> {
    var statement := Strip(piece, space);
    if statement != [] then [statement] else []
  }

  function SplitUp(script: string, space: char -> bool): seq<string> {
    Statements(Pieces(script), space)
  }

  // ---------------------------------------------------------------- the two loops

  lemma {:induction false} QuotesConcat(a: string, b: string)
    ensures Quotes(a + b) == Quotes(a) + Quotes(b)
  {
    if a == [] {
      assert a + b == b;
    } else {
      QuotesConcat(a[1..], b);
      assert (a + b)[1..] == a[1..] + b;
    }
  }

  lemma QuotesSnoc(s: string, i: nat)
    requires i < |s|
    ensures Quotes(s[..i + 1]) == Quotes(s[..i]) + if s[i] == '\'' then 1 else 0
  {
    assert s[..i + 1] == s[..i] + [s[i]];
    QuotesConcat(s[..i], [s[i]]);
    assert [s[i]][1..] == [];
  }

  /** The scan of a text has passed `n` characters without a cut. */
  ghost predicate Scanned(s: string, n: nat, inString: bool) {
    n <= CutFrom(s, 0) && inString == (Quotes(s[..n]) % 2 == 1)
  }

  lemma ScanPlain(s: string, n: nat, inString: bool)
    requires Scanned(s, n, inString) && n < |s| && !Cuts(s, n)
    ensures Scanned(s, n + 1, if s[n] == '\'' then !inString else inString)
  {
    QuotesSnoc(s, n);
  }

  lemma ScanDoubled(s: string, n: nat)
    requires Scanned(s, n, true) && n + 1 < |s| && s[n] == s[n + 1] == '\''
    ensures Scanned(s, n + 2, true)
  {
    ScanPlain(s, n, true);
    ScanPlain(s, n + 1, false);
  }

  method StatementIsTerminated(statement: string) returns (terminated: bool)
    ensures terminated <==> HasCut(statement)
  {
    var inString := false;
    var position: nat := 0;
    while position < |statement|
      invariant Scanned(statement, position, inString)
    {
      var c := statement[position];
      if c == '\'' {
        if inString && position + 1 < |statement| && statement[position + 1] == '\'' {
          ScanDoubled(statement, position);
          position := position + 1;
        } else {
          ScanPlain(statement, position, inString);
          inString := !inString;
        }
      } else if c == ';' && !inString {
        assert Cuts(statement, position);
        return true;
      } else {
        ScanPlain(statement, position, inString);
      }
      position := position + 1;
    }
    terminated := false;
  }

  /** `current` is the text since `start`, which has no cut. */
  ghost predicate Collecting(script: string, start: nat, position: nat, current: string, inString: bool) {
    && start <= position <= |script|
    && current == script[start..position]
    && Scanned(script[start..], position - start, inString)
  }

  /** `statements` are those of the text before `start`. */
  ghost predicate Done(script: string, space: char -> bool, start: nat, statements: seq<string>) {
    start <= |script| && SplitUp(script, space) == statements + SplitUp(script[start..], space)
  }

  lemma CollectPlain(script: string, start: nat, position: nat, current: string, inString: bool)
    requires Collecting(script, start, position, current, inString)
    requires position < |script| && (script[position] != ';' || inString)
    ensures Collecting(script, start, position + 1, current + [script[position]],
              if script[position] == '\'' then !inString else inString)
  {
    ScanPlain(script[start..], position - start, inString);
  }

  lemma StatementsCons(piece: string, pieces: seq<string>, space: char -> bool)
    ensures Statements([piece] + pieces, space) == StatementOf(piece, space) + Statements(pieces, space)
  {
    assert ([piece] + pieces)[1..] == pieces;
  }

  lemma CutAt(s: string, space: char -> bool, k: nat)
    requires CutFrom(s, 0) == k < |s|
    ensures SplitUp(s, space) == StatementOf(s[..k], space) + SplitUp(s[k + 1..], space)
  {
    StatementsCons(s[..k], Pieces(s[k + 1..]), space);
  }

  lemma NoCut(s: string, space: char -> bool)
    requires CutFrom(s, 0) == |s|
    ensures SplitUp(s, space) == StatementOf(s, space)
  {
    var pieces := Pieces(s);
    assert pieces == [s] && pieces[1..] == [];
    assert Statements(pieces, space) == StatementOf(s, space) + [];
    assert StatementOf(s, space) + [] == StatementOf(s, space);
  }

  lemma CollectedCut(script: string, start: nat, position: nat, current: string)
    requires Collecting(script, start, position, current, false) && position < |script| && script[position] == ';'
    ensures CutFrom(script[start..], 0) == position - start && script[start..][..position - start] == current
    ensures script[start..][position - start + 1..] == script[position + 1..]
    ensures Collecting(script, position + 1, position + 1, [], false)
  {
    assert Cuts(script[start..], position - start);
    assert script[position + 1..][..0] == [];
  }

  lemma DoneCut(script: string, space: char -> bool, start: nat, position: nat, current: string,
                statements: seq<string>)
    requires Collecting(script, start, position, current, false) && position < |script| && script[position] == ';'
    requires Done(script, space, start, statements)
    ensures Collecting(script, position + 1, position + 1, [], false)
    ensures Done(script, space, position + 1, statements + StatementOf(current, space))
  {
    CollectedCut(script, start, position, current);
    CutAt(script[start..], space, position - start);
    var one, more := StatementOf(current, space), SplitUp(script[position + 1..], space);
    assert statements + (one + more) == statements + one + more;
  }

  lemma DoneEnd(script: string, space: char -> bool, start: nat, current: string, inString: bool,
                statements: seq<string>)
    requires Collecting(script, start, |script|, current, inString) && Done(script, space, start, statements)
    ensures SplitUp(script, space) == statements + StatementOf(current, space)
  {
    assert script[start..] == current;
    NoCut(current, space);
  }

  lemma DoneStart(script: string, space: char -> bool)
    ensures Collecting(script, 0, 0, [], false) && Done(script, space, 0, [])
  {
    assert script[0..] == script && script[..0] == [];
    assert [] + SplitUp(script, space) == SplitUp(script, space);
  }

  /** The script is cut at its semicolons outside string literals; blank pieces are dropped. */
  method SplitScript(script: string, space: char -> bool) returns (statements: seq<string>)
    ensures statements == SplitUp(script, space)
  {
    statements := [];
    var current: string := [];
    var inString := false;
    var position: nat := 0;
    ghost var start: nat := 0;
    DoneStart(script, space);
    while position < |script|
      invariant Collecting(script, start, position, current, inString)
      invariant Done(script, space, start, statements)
    {
      var c := script[position];
      if c == '\'' {
        CollectPlain(script, start, position, current, inString);
        current := current + [c];
        if inString && position + 1 < |script| && script[position + 1] == '\'' {
          position := position + 1;
          CollectPlain(script, start, position, current, false);
          current := current + [script[position]];
        } else {
          inString := !inString;
        }
      } else if c == ';' && !inString {
        DoneCut(script, space, start, position, current, statements);
        statements := statements + StatementOf(current, space);
        current := [];
        start := position + 1;
      } else {
        CollectPlain(script, start, position, current, inString);
        current := current + [c];
      }
      position := position + 1;
    }
    DoneEnd(script, space, start, current, inString, statements);
    statements := statements + StatementOf(current, space);
  }

  // ---------------------------------------------------------------- agreement with the tokenizer

  /** The kinds and values of a text's tokens, or nothing if it does not tokenize. */
  function Read(cs: Chars, s: string): Option<seq<Lexeme>>
    decreases |s|
  {
    if s == [] then Some([])
    else
      match Head(cs, s)
      case Fail(_) => None
      case Skip => Read(cs, s[1..])
      case Emit(kind, value, size) =>
        var rest := Read(cs, s[size..]);
        if rest.None? then None else Some([(kind, value)] + rest.value)
  }

  lemma LexemesAfter(token: Token, rest: seq<Token>)
    ensures Lexemes([token] + rest) == [(token.kind, token.value)] + Lexemes(rest)
  {
  }

  function ReadOf(outcome: LexOutcome): Option<seq<Lexeme>> {
    if outcome.Tokens? then Some(Lexemes(outcome.tokens)) else None
  }

  /** Positions aside, what a text tokenizes to does not depend on where it starts. */
  lemma {:induction false} ReadIsLex(cs: Chars, s: string, at: nat)
    ensures Read(cs, s) == ReadOf(Lex(cs, s, at))
    decreases |s|
  {
    if s == [] {
      assert Lexemes([]) == [];
    } else {
      match Head(cs, s)
      case Fail(_) =>
      case Skip => ReadIsLex(cs, s[1..], at + 1);
      case Emit(kind, value, size) =>
        ReadIsLex(cs, s[size..], at + size);
        var rest := Lex(cs, s[size..], at + size);
        if rest.Tokens? {
          LexemesAfter(Token(kind, value, at), rest.tokens);
        }
    }
  }

  /** In no class of characters. */
  predicate Unclassed(cs: Chars, c: char) {
    !cs.isSpace(c) && !cs.isAlpha(c) && !cs.isDigit(c) && !cs.isAlnum(c)
  }

  /** What is assumed of the character tables: letters are alphanumeric, a space is no letter and no
      digit, and the signs of the language are neither. */
  ghost predicate Plain(cs: Chars) {
    && (forall c :: cs.isAlpha(c) ==> cs.isAlnum(c))
    && (forall c :: cs.isSpace(c) ==> !cs.isAlpha(c) && !cs.isDigit(c) && !cs.isAlnum(c))
    && Unclassed(cs, ';') && Unclassed(cs, '\'') && Unclassed(cs, '.') && Unclassed(cs, ',')
    && Unclassed(cs, '(') && Unclassed(cs, ')') && Unclassed(cs, '*') && Unclassed(cs, '_')
    && Unclassed(cs, '=') && Unclassed(cs, '!') && Unclassed(cs, '<') && Unclassed(cs, '>')
  }

  lemma TakeDrop<T>(s: seq<T>, n: nat, m: nat)
    requires m <= n <= |s|
    ensures s[..n][m..] == s[m..][..n - m]
  {
  }

  lemma {:induction false} RunOfPrefix(s: string, n: nat, p: char -> bool)
    requires n <= |s| && Run(s, p) <= n
    ensures Run(s[..n], p) == Run(s, p)
  {
    if s != [] && p(s[0]) {
      assert s[..n][1..] == s[1..][..n - 1];
      RunOfPrefix(s[1..], n - 1, p);
    }
  }

  /** A string literal that ends before the cut ends there also without what follows the cut. */
  lemma {:induction false} BodyOfPrefix(s: string, n: nat)
    requires StringBody(s).Some? && StringBody(s).value.1 <= n <= |s|
    ensures StringBody(s[..n]) == StringBody(s)
  {
    if s[0] == '\'' {
      if |s| > 1 && s[1] == '\'' {
        assert s[..n][2..] == s[2..][..n - 2];
        BodyOfPrefix(s[2..], n - 2);
      }
    } else {
      assert s[..n][1..] == s[1..][..n - 1];
      BodyOfPrefix(s[1..], n - 1);
    }
  }

  /** Tokens are longest matches, so cutting the text behind the first one does not change it. */
  lemma HeadOfPrefix(cs: Chars, s: string, n: nat)
    requires s != [] && 0 < n <= |s|
    requires Head(cs, s) == Skip || (Head(cs, s).Emit? && Head(cs, s).size <= n)
    ensures Head(cs, s[..n]) == Head(cs, s)
  {
    var c, t := s[0], s[..n];
    TakeDrop(s, n, 1);
    if cs.isSpace(c) {
    } else if WordStart(cs, c) {
      RunOfPrefix(s[1..], n - 1, WordPart(cs));
      var size := Head(cs, s).size;
      assert t[..size] == s[..size];
    } else if cs.isDigit(c) {
      NumberOfPrefix(cs, s, n);
    } else if c == '\'' {
      BodyOfPrefix(s[1..], n - 1);
    } else if Punctuation(c).None? {
      assert t[..1] == s[..1] && (n > 1 ==> t[1] == s[1] && t[..2] == s[..2]);
    }
  }

  lemma FractionOfPrefix(cs: Chars, s: string, d: nat, n: nat)
    requires d <= |s| && FractionEnd(cs, s, d).Some? && FractionEnd(cs, s, d).value <= n <= |s|
    ensures FractionEnd(cs, s[..n], d) == FractionEnd(cs, s, d)
  {
    if d < |s| && s[d] == '.' {
      TakeDrop(s, n, d + 1);
      RunOfPrefix(s[d + 1..], n - d - 1, cs.isDigit);
    }
  }

  lemma NumberOfPrefix(cs: Chars, s: string, n: nat)
    requires s != [] && cs.isDigit(s[0]) && NumberStep(cs, s).Emit? && NumberStep(cs, s).size <= n <= |s|
    ensures NumberStep(cs, s[..n]) == NumberStep(cs, s)
  {
    RunOfPrefix(s, n, cs.isDigit);
    FractionOfPrefix(cs, s, Run(s, cs.isDigit), n);
    var size := NumberSize(cs, s).value;
    assert s[..n][..size] == s[..size];
  }

  lemma HeadEndsPlain(cs: Chars, s: string)
    requires Plain(cs) && s != [] && Head(cs, s).Emit?
    ensures !cs.isSpace(s[Head(cs, s).size - 1])
  {
    var c, size := s[0], Head(cs, s).size;
    if WordStart(cs, c) {
      RunIsLongest(s[1..], WordPart(cs));
      assert size > 1 ==> WordPart(cs)(s[1..][size - 2]);
    } else if cs.isDigit(c) {
      NumberEndsPlain(cs, s);
    } else if c == '\'' {
      BodyEnd(s[1..]);
    }
  }

  lemma NumberEndsPlain(cs: Chars, s: string)
    requires s != [] && cs.isDigit(s[0]) && NumberSize(cs, s).Some?
    ensures var n := NumberSize(cs, s).value; cs.isDigit(s[n - 1])
    ensures var n := NumberSize(cs, s).value; forall i :: 0 <= i < n ==> cs.isDigit(s[i]) || s[i] == '.'
  {
    var d, n := Run(s, cs.isDigit), NumberSize(cs, s).value;
    RunIsLongest(s, cs.isDigit);
    if d < |s| && s[d] == '.' {
      var more := s[d + 1..];
      RunIsLongest(more, cs.isDigit);
      assert forall i :: 0 <= i < n - d - 1 ==> more[i] == s[d + 1 + i] && cs.isDigit(more[i]);
      assert forall i :: d + 1 <= i < n ==> s[i] == more[i - d - 1];
    }
  }

  /** Inside a literal the quotes so far are even (the opening one not counted), and its end makes them odd. */
  lemma QuotesPast(s: string, m: nat, i: nat)
    requires m <= i <= |s|
    ensures Quotes(s[..i]) == Quotes(s[..m]) + Quotes(s[m..][..i - m])
  {
    assert s[..i] == s[..m] + s[m..][..i - m];
    QuotesConcat(s[..m], s[m..][..i - m]);
  }

  lemma QuotesOfFirst(s: string)
    requires s != []
    ensures Quotes(s[..1]) == if s[0] == '\'' then 1 else 0
    ensures |s| > 1 ==> Quotes(s[..2]) == Quotes(s[..1]) + if s[1] == '\'' then 1 else 0
  {
    assert s[..0] == [];
    QuotesSnoc(s, 0);
    if |s| > 1 {
      QuotesSnoc(s, 1);
    }
  }

  /** The end of a literal makes its quotes odd, the opening one not counted. */
  lemma {:induction false} BodyEnd(s: string)
    requires StringBody(s).Some?
    ensures var n := StringBody(s).value.1; s[n - 1] == '\'' && Quotes(s[..n]) % 2 == 1
  {
    var n := StringBody(s).value.1;
    QuotesOfFirst(s);
    if s[0] != '\'' {
      BodyEnd(s[1..]);
      QuotesPast(s, 1, n);
    } else if |s| > 1 && s[1] == '\'' {
      BodyEnd(s[2..]);
      QuotesPast(s, 2, n);
    }
  }

  /** Before that they are even, except between the two of a doubled quote. */
  lemma {:induction false} BodyInside(s: string, i: nat)
    requires StringBody(s).Some? && i < StringBody(s).value.1 && s[i] != '\''
    ensures Quotes(s[..i]) % 2 == 0
  {
    QuotesOfFirst(s);
    if i == 0 {
      assert s[..0] == [];
    } else if s[0] != '\'' {
      BodyInside(s[1..], i - 1);
      QuotesPast(s, 1, i);
    } else {
      assert |s| > 1 && s[1] == '\'' && i > 1;
      BodyInside(s[2..], i - 2);
      QuotesPast(s, 2, i);
    }
  }

  /** Outside literals and semicolons a token has neither quote nor semicolon. */
  lemma PlainToken(cs: Chars, s: string)
    requires Plain(cs) && s != [] && Head(cs, s).Emit? && Head(cs, s).kind != SEMICOLON && s[0] != '\''
    ensures forall i :: 0 <= i < Head(cs, s).size ==> s[i] != '\'' && s[i] != ';'
  {
    var c := s[0];
    if WordStart(cs, c) {
      RunIsLongest(s[1..], WordPart(cs));
      assert forall i :: 0 < i < Head(cs, s).size ==> s[i] == s[1..][i - 1] && WordPart(cs)(s[1..][i - 1]);
    } else if cs.isDigit(c) {
      NumberEndsPlain(cs, s);
    }
  }

  lemma PlainHasNoCut(s: string, n: nat)
    requires n <= |s| && forall i :: 0 <= i < n ==> s[i] != '\'' && s[i] != ';'
    ensures Quotes(s[..n]) == 0 && n <= CutFrom(s, 0)
  {
    NoQuotes(s[..n]);
  }

  /** A token other than a semicolon holds no cut and an even number of quotes. */
  lemma HeadHasNoCut(cs: Chars, s: string)
    requires Plain(cs) && s != [] && Head(cs, s).Emit? && Head(cs, s).kind != SEMICOLON
    ensures var n := Head(cs, s).size; Quotes(s[..n]) % 2 == 0 && n <= CutFrom(s, 0)
  {
    if s[0] == '\'' {
      StringIsPaired(s);
      StringHasNoCut(s);
    } else {
      PlainToken(cs, s);
      PlainHasNoCut(s, Head(cs, s).size);
    }
  }

  lemma {:induction false} NoQuotes(s: string)
    requires forall i :: 0 <= i < |s| ==> s[i] != '\''
    ensures Quotes(s) == 0
  {
    if s != [] {
      NoQuotes(s[1..]);
    }
  }

  lemma AfterOpening(s: string, i: nat)
    requires 1 <= i <= |s| && s[0] == '\''
    ensures Quotes(s[..i]) == 1 + Quotes(s[1..][..i - 1])
  {
    TakeDrop(s, i, 1);
  }

  lemma NoCutInString(s: string, i: nat)
    requires s != [] && s[0] == '\'' && StringBody(s[1..]).Some? && i <= StringBody(s[1..]).value.1
    ensures !Cuts(s, i)
  {
    if i > 0 && s[i] == ';' {
      assert s[1..][i - 1] == ';';
      BodyEnd(s[1..]);
      BodyInside(s[1..], i - 1);
      AfterOpening(s, i);
    }
  }

  lemma StringIsPaired(s: string)
    requires s != [] && s[0] == '\'' && StringBody(s[1..]).Some?
    ensures Quotes(s[..StringBody(s[1..]).value.1 + 1]) % 2 == 0
  {
    BodyEnd(s[1..]);
    AfterOpening(s, StringBody(s[1..]).value.1 + 1);
  }

  lemma StringHasNoCut(s: string)
    requires s != [] && s[0] == '\'' && StringBody(s[1..]).Some?
    ensures StringBody(s[1..]).value.1 + 1 <= CutFrom(s, 0)
  {
    var k := CutFrom(s, 0);
    if k <= StringBody(s[1..]).value.1 {
      NoCutInString(s, k);
    }
  }

  lemma CutInRest(s: string, m: nat, i: nat)
    requires m + i <= |s| && Quotes(s[..m]) % 2 == 0
    ensures Cuts(s[m..], i) <==> Cuts(s, m + i)
  {
    assert s[..m + i] == s[..m] + s[m..][..i];
    QuotesConcat(s[..m], s[m..][..i]);
  }

  /** Past a stretch without a cut and with its quotes paired, the cuts are those of the rest. */
  lemma CutShift(s: string, m: nat)
    requires m <= CutFrom(s, 0) && Quotes(s[..m]) % 2 == 0
    ensures CutFrom(s[m..], 0) == CutFrom(s, 0) - m
  {
    var k, j := CutFrom(s, 0), CutFrom(s[m..], 0);
    CutInRest(s, m, j);
    CutInRest(s, m, k - m);
  }

  /** No token is a semicolon. */
  predicate NoSemicolon(lexemes: seq<Lexeme>) {
    forall i :: 0 <= i < |lexemes| ==> lexemes[i].0 != SEMICOLON
  }

  const CUT: Lexeme := (SEMICOLON, Text(";"))

  /** The text up to its first cut tokenizes by itself, without a semicolon, and so does the rest. */
  ghost predicate ReadsApart(cs: Chars, s: string, k: nat) {
    && k <= |s| && Read(cs, s).Some? && Read(cs, s[..k]).Some? && NoSemicolon(Read(cs, s[..k]).value)
    && (k == |s| || (Read(cs, s[k + 1..]).Some?
        && Read(cs, s).value == Read(cs, s[..k]).value + [CUT] + Read(cs, s[k + 1..]).value))
  }

  lemma SpaceHasNoCut(cs: Chars, s: string)
    requires Plain(cs) && s != [] && cs.isSpace(s[0])
    ensures Quotes(s[..1]) == 0 && 1 <= CutFrom(s, 0)
  {
    PlainHasNoCut(s, 1);
  }

  /** What the first step of a text takes off it when that is not a semicolon. */
  lemma FirstStep(cs: Chars, s: string) returns (size: nat, first: seq<Lexeme>)
    requires Plain(cs) && s != [] && Read(cs, s).Some? && !(Head(cs, s).Emit? && Head(cs, s).kind == SEMICOLON)
    ensures Steps(cs, s, size, first) && NoSemicolon(first)
    ensures Quotes(s[..size]) % 2 == 0 && size <= CutFrom(s, 0)
  {
    var step := Head(cs, s);
    size := if step.Skip? then 1 else step.size;
    first := if step.Skip? then [] else [(step.kind, step.value)];
    StepHasNoCut(cs, s, size);
  }

  lemma {:induction false} ReadCut(cs: Chars, s: string)
    requires Plain(cs) && Read(cs, s).Some?
    ensures ReadsApart(cs, s, CutFrom(s, 0))
    decreases |s|
  {
    if s == [] {
      assert s[..0] == s;
    } else if Head(cs, s).Emit? && Head(cs, s).kind == SEMICOLON {
      AtSemicolon(cs, s);
    } else {
      var size, first := FirstStep(cs, s);
      ReadOnward(cs, s, size, first);
      CutShift(s, size);
      ReadCut(cs, s[size..]);
      ReadPast(cs, s, size, CutFrom(s, 0), first);
    }
  }

  lemma StepHasNoCut(cs: Chars, s: string, size: nat)
    requires Plain(cs) && s != []
    requires (Head(cs, s) == Skip && size == 1)
          || (Head(cs, s).Emit? && Head(cs, s).kind != SEMICOLON && size == Head(cs, s).size)
    ensures Quotes(s[..size]) % 2 == 0 && size <= CutFrom(s, 0)
  {
    if Head(cs, s) == Skip {
      SpaceHasNoCut(cs, s);
    } else {
      HeadHasNoCut(cs, s);
    }
  }

  lemma SemicolonSign(cs: Chars, s: string)
    requires s != [] && Head(cs, s).Emit? && Head(cs, s).kind == SEMICOLON
    ensures s[0] == ';' && Head(cs, s) == Emit(SEMICOLON, Text(";"), 1)
  {
    assert !WordStart(cs, s[0]) && !cs.isDigit(s[0]);
  }

  lemma AtSemicolon(cs: Chars, s: string)
    requires s != [] && Read(cs, s).Some? && Head(cs, s).Emit? && Head(cs, s).kind == SEMICOLON
    ensures CutFrom(s, 0) == 0 && ReadsApart(cs, s, 0)
  {
    SemicolonSign(cs, s);
    assert s[..0] == [];
    assert Cuts(s, 0);
    var rest := Read(cs, s[1..]).value;
    assert [] + [CUT] + rest == [CUT] + rest;
  }

  /** The first step of the tokenizer passes `size` characters and gives the tokens `first`. */
  predicate Steps(cs: Chars, s: string, size: nat, first: seq<Lexeme>) {
    && s != []
    && match Head(cs, s)
       case Skip => size == 1 && first == []
       case Emit(kind, value, n) => size == n && first == [(kind, value)]
       case Fail(_) => false
  }

  lemma ReadOnward(cs: Chars, s: string, size: nat, first: seq<Lexeme>)
    requires Steps(cs, s, size, first)
    ensures 0 < size <= |s| && (Read(cs, s).Some? <==> Read(cs, s[size..]).Some?)
    ensures Read(cs, s).Some? ==> Read(cs, s).value == first + Read(cs, s[size..]).value
  {
    if Head(cs, s).Skip? && Read(cs, s).Some? {
      assert [] + Read(cs, s).value == Read(cs, s).value;
    }
  }

  lemma Around(first: seq<Lexeme>, left: seq<Lexeme>, right: seq<Lexeme>)
    requires NoSemicolon(first) && NoSemicolon(left)
    ensures NoSemicolon(first + left) && first + (left + [CUT] + right) == first + left + [CUT] + right
  {
  }

  lemma ReadPast(cs: Chars, s: string, size: nat, k: nat, first: seq<Lexeme>)
    requires Steps(cs, s, size, first) && size <= k <= |s| && NoSemicolon(first)
    requires ReadsApart(cs, s[size..], k - size)
    ensures ReadsApart(cs, s, k)
  {
    var left := Read(cs, s[size..][..k - size]).value;
    ReadOnward(cs, s, size, first);
    HeadOfPrefix(cs, s, k);
    ReadOnward(cs, s[..k], size, first);
    TakeDrop(s, k, size);
    Around(first, left, []);
    if k < |s| {
      Suffixes(s, size, k + 1);
      Around(first, left, Read(cs, s[k + 1..]).value);
    }
  }

  // ---------------------------------------------------------------- stripping

  lemma {:induction false} ReadStripLeft(cs: Chars, s: string)
    ensures Read(cs, StripLeft(s, cs.isSpace)) == Read(cs, s)
  {
    if s != [] && cs.isSpace(s[0]) {
      ReadStripLeft(cs, s[1..]);
    }
  }

  lemma {:induction false} ReadTrailingSpace(cs: Chars, s: string)
    requires Plain(cs) && s != [] && cs.isSpace(s[|s| - 1]) && Read(cs, s).Some?
    ensures Read(cs, s[..|s| - 1]) == Read(cs, s)
    decreases |s|
  {
    var n := |s| - 1;
    var size := if Head(cs, s).Skip? then 1 else Head(cs, s).size;
    var first: seq<Lexeme> := if Head(cs, s).Skip? then [] else [(Head(cs, s).kind, Head(cs, s).value)];
    ReadOnward(cs, s, size, first);
    if Head(cs, s).Emit? {
      HeadEndsPlain(cs, s);
    }
    if size > n {
      assert s[1..] == [] && s[..n] == [];
    } else {
      HeadOfPrefix(cs, s, n);
      ReadOnward(cs, s[..n], size, first);
      TakeDrop(s, n, size);
      if size == n && s[size..] == [] {
      } else {
        ReadTrailingSpace(cs, s[size..]);
      }
    }
  }

  lemma {:induction false} ReadStripRight(cs: Chars, s: string)
    requires Plain(cs) && Read(cs, s).Some?
    ensures Read(cs, StripRight(s, cs.isSpace)) == Read(cs, s)
  {
    if s != [] && cs.isSpace(s[|s| - 1]) {
      ReadTrailingSpace(cs, s);
      ReadStripRight(cs, s[..|s| - 1]);
    }
  }

  lemma {:induction false} StrippedEnd(s: string, space: char -> bool)
    ensures var r := StripRight(s, space); r != [] ==> !space(r[|r| - 1])
  {
    if s != [] && space(s[|s| - 1]) {
      StrippedEnd(s[..|s| - 1], space);
    }
  }

  lemma {:induction false} NothingRead(cs: Chars, s: string)
    requires Read(cs, s) == Some([])
    ensures forall i :: 0 <= i < |s| ==> cs.isSpace(s[i])
  {
    if s != [] {
      assert Head(cs, s).Skip?;
      NothingRead(cs, s[1..]);
      assert forall i :: 0 < i < |s| ==> s[i] == s[1..][i - 1];
    }
  }

  /** Stripping changes no token, and leaves nothing exactly when there is none. */
  lemma ReadStrip(cs: Chars, s: string)
    requires Plain(cs) && Read(cs, s).Some?
    ensures Read(cs, Strip(s, cs.isSpace)) == Read(cs, s)
    ensures Strip(s, cs.isSpace) == [] <==> Read(cs, s) == Some([])
  {
    var left, r := StripLeft(s, cs.isSpace), Strip(s, cs.isSpace);
    ReadStripLeft(cs, s);
    ReadStripRight(cs, left);
    StrippedEnd(left, cs.isSpace);
    if Read(cs, r) == Some([]) {
      NothingRead(cs, r);
    }
  }

  // ---------------------------------------------------------------- the theorem

  function FirstSemicolon(lexemes: seq<Lexeme>): (k: nat)
    ensures k <= |lexemes|
  {
    if lexemes == [] || lexemes[0].0 == SEMICOLON then 0 else 1 + FirstSemicolon(lexemes[1..])
  }

  function NonEmpty(lexemes: seq<Lexeme>): seq<seq<Lexeme>> {
    if lexemes == [] then [] else [lexemes]
  }

  /** The stretches between semicolons that are not empty. */
  function Segments(lexemes: seq<Lexeme>): seq<seq<Lexeme>>
    decreases |lexemes|
  {
    var k := FirstSemicolon(lexemes);
    if k == |lexemes| then NonEmpty(lexemes) else NonEmpty(lexemes[..k]) + Segments(lexemes[k + 1..])
  }

  function ReadAll(cs: Chars, statements: seq<string>): seq<Option<seq<Lexeme>>> {
    seq(|statements|, i requires 0 <= i < |statements| => Read(cs, statements[i]))
  }

  function Successes(segments: seq<seq<Lexeme>>): seq<Option<seq<Lexeme>>> {
    seq(|segments|, i requires 0 <= i < |segments| => Some(segments[i]))
  }

  lemma {:induction false} FirstSemicolonAt(left: seq<Lexeme>, right: seq<Lexeme>)
    requires NoSemicolon(left) && (right == [] || right[0].0 == SEMICOLON)
    ensures FirstSemicolon(left + right) == |left|
  {
    if left == [] {
      assert left + right == right;
    } else {
      assert (left + right)[1..] == left[1..] + right;
      FirstSemicolonAt(left[1..], right);
    }
  }

  lemma SegmentsAt(left: seq<Lexeme>, right: seq<Lexeme>)
    requires NoSemicolon(left)
    ensures Segments(left) == NonEmpty(left)
    ensures Segments(left + [CUT] + right) == NonEmpty(left) + Segments(right)
  {
    FirstSemicolonAt(left, []);
    assert left + [] == left;
    var all := left + [CUT] + right;
    FirstSemicolonAt(left, [CUT] + right);
    assert all == left + ([CUT] + right);
    assert all[..|left|] == left && all[|left| + 1..] == right;
  }

  /** One piece gives one statement, or none, as its tokens give one segment, or none. */
  lemma PieceIsSegment(cs: Chars, piece: string)
    requires Plain(cs) && Read(cs, piece).Some?
    ensures ReadAll(cs, StatementOf(piece, cs.isSpace)) == Successes(NonEmpty(Read(cs, piece).value))
  {
    ReadStrip(cs, piece);
  }

  lemma ReadAllConcat(cs: Chars, a: seq<string>, b: seq<string>)
    ensures ReadAll(cs, a + b) == ReadAll(cs, a) + ReadAll(cs, b)
  {
  }

  lemma SuccessesConcat(a: seq<seq<Lexeme>>, b: seq<seq<Lexeme>>)
    ensures Successes(a + b) == Successes(a) + Successes(b)
  {
  }

  lemma {:induction false} SplitReads(cs: Chars, script: string)
    requires Plain(cs) && Read(cs, script).Some?
    ensures ReadAll(cs, SplitUp(script, cs.isSpace)) == Successes(Segments(Read(cs, script).value))
    decreases |script|
  {
    var k := CutFrom(script, 0);
    ReadCut(cs, script);
    if k == |script| {
      assert script[..k] == script;
      NoCut(script, cs.isSpace);
      PieceIsSegment(cs, script);
      SegmentsAt(Read(cs, script).value, []);
    } else {
      SplitReads(cs, script[k + 1..]);
      CutAt(script, cs.isSpace, k);
      PieceThenRest(cs, script[..k], script[k + 1..]);
    }
  }

  lemma PieceThenRest(cs: Chars, piece: string, rest: string)
    requires Plain(cs) && Read(cs, piece).Some? && NoSemicolon(Read(cs, piece).value) && Read(cs, rest).Some?
    requires ReadAll(cs, SplitUp(rest, cs.isSpace)) == Successes(Segments(Read(cs, rest).value))
    ensures ReadAll(cs, StatementOf(piece, cs.isSpace) + SplitUp(rest, cs.isSpace)) ==
      Successes(Segments(Read(cs, piece).value + [CUT] + Read(cs, rest).value))
  {
    var left, right := Read(cs, piece).value, Read(cs, rest).value;
    PieceIsSegment(cs, piece);
    SegmentsAt(left, right);
    ReadAllConcat(cs, StatementOf(piece, cs.isSpace), SplitUp(rest, cs.isSpace));
    SuccessesConcat(NonEmpty(left), Segments(right));
  }

  /** The two scanners agree: for a script that tokenizes, the statements it is split into tokenize
      one by one to the non-empty stretches of its tokens between semicolons. */
  lemma SplitAgreesWithLexer(cs: Chars, script: string)
    requires Plain(cs) && Lex(cs, script, 0).Tokens?
    ensures var statements, segments := SplitUp(script, cs.isSpace), Segments(Lexemes(Lex(cs, script, 0).tokens));
            |statements| == |segments|
            && forall i :: 0 <= i < |statements| ==> (
              var outcome := Lex(cs, statements[i], 0);
              outcome.Tokens? && Lexemes(outcome.tokens) == segments[i])
  {
    ReadIsLex(cs, script, 0);
    SplitReads(cs, script);
    var statements, segments := SplitUp(script, cs.isSpace), Segments(Lexemes(Lex(cs, script, 0).tokens));
    var read, made := ReadAll(cs, statements), Successes(segments);
    assert |statements| == |read| && |segments| == |made|;
    forall i | 0 <= i < |statements| ensures ReadOf(Lex(cs, statements[i], 0)) == Some(segments[i]) {
      ReadIsLex(cs, statements[i], 0);
      assert read[i] == made[i];
    }
  }

  /** A script that tokenizes is terminated exactly when one of its tokens is a semicolon. */
  lemma TerminatedIffSemicolon(cs: Chars, script: string)
    requires Plain(cs) && Lex(cs, script, 0).Tokens?
    ensures HasCut(script) <==> !NoSemicolon(Lexemes(Lex(cs, script, 0).tokens))
  {
    ReadIsLex(cs, script, 0);
    ReadCut(cs, script);
    var k := CutFrom(script, 0);
    if k == |script| {
      assert script[..k] == script;
    } else {
      assert Cuts(script, k);
      var left := Read(cs, script[..k]).value;
      assert Read(cs, script).value[|left|] == CUT;
    }
  }
}
