/** CREATE TABLE: its grammar, the text that `.schema` prints for a table, and reading that text back. */
module Definitions {
  import opened Values
  import opened Catalog
  import opened Lexer
  import opened Script
  import opened Sequences
  import opened Syntax

  // ---------------------------------------------------------------- grammar

  function TypeOf(text: string): Option<TinyType> {
    match text
    case "INT" => Some(INT)
    case "FLOAT" => Some(FLOAT)
    case "TEXT" => Some(TEXT)
    case "BOOL" => Some(BOOL)
    case _ => None
  }

  function ParseType(ts: seq<Lexeme>): (p: Parse<TinyType>)
    requires Ended(ts)
    ensures Consumes(ts, p)
  {
    if ts[0].0 == KEYWORD && ts[0].1.Text? && TypeOf(ts[0].1.s).Some? then Parsed(TypeOf(ts[0].1.s).value, ts[1..])
    else Failed(ts)
  }

  function ParseWord(ts: seq<Lexeme>, word: string): (p: Parse<()>)
    requires Ended(ts)
    ensures Consumes(ts, p)
  {
    if IsKeyword(ts, word) then Parsed((), ts[1..]) else Failed(ts)
  }

  /** The constraints that follow, in any order and number; another keyword ends them. */
  function ParseConstraints(def: ColumnDef, ts: seq<Lexeme>): (p: Parse<ColumnDef>)
    requires Ended(ts)
    ensures Ended(p.rest) && |p.rest| <= |ts|
    decreases |ts|
  {
    if IsKeyword(ts, "PRIMARY") then
      var key := ParseWord(ts[1..], "KEY");
      if key.Failed? then Failed(key.rest) else ParseConstraints(def.(primaryKey := true), key.rest)
    else if IsKeyword(ts, "NOT") then
      var nothing := ParseKind(ts[1..], NULL);
      if nothing.Failed? then Failed(nothing.rest) else ParseConstraints(def.(notNull := true), nothing.rest)
    else if IsKeyword(ts, "UNIQUE") then ParseConstraints(def.(unique := true), ts[1..])
    else if IsKeyword(ts, "FOREIGN") then Failed(ts)
    else Parsed(def, ts)
  }

  function ParseColumnDef(ts: seq<Lexeme>): (p: Parse<ColumnDef>)
    requires Ended(ts)
    ensures Consumes(ts, p)
  {
    var name := ParseName(ts);
    if name.Failed? then Failed(name.rest)
    else
      var ty := ParseType(name.rest);
      if ty.Failed? then Failed(ty.rest)
      else ParseConstraints(ColumnDef(name.value, ty.value, false, false, false), ty.rest)
  }

  /** The columns that follow, each after a comma. */
  function ParseColumns(columns: seq<ColumnDef>, ts: seq<Lexeme>): (p: Parse<seq<ColumnDef>>)
    requires Ended(ts)
    ensures Ended(p.rest) && |p.rest| <= |ts|
    decreases |ts|
  {
    if ts[0].0 != COMMA then Parsed(columns, ts)
    else
      var column := ParseColumnDef(ts[1..]);
      if column.Failed? then Failed(column.rest) else ParseColumns(columns + [column.value], column.rest)
  }

  function ParseColumnList(ts: seq<Lexeme>): (p: Parse<seq<ColumnDef>>)
    requires Ended(ts)
    ensures Consumes(ts, p)
  {
    var open := ParseKind(ts, LPAREN);
    if open.Failed? then Failed(open.rest)
    else
      var first := ParseColumnDef(open.rest);
      if first.Failed? then Failed(first.rest)
      else
        var columns := ParseColumns([first.value], first.rest);
        if columns.Failed? then columns
        else
          var close := ParseKind(columns.rest, RPAREN);
          if close.Failed? then Failed(close.rest) else Parsed(columns.value, close.rest)
  }

  function ParseTable(ts: seq<Lexeme>): (p: Parse<CreateTable>)
    requires Ended(ts)
    ensures Consumes(ts, p)
  {
    var name := ParseName(ts);
    if name.Failed? then Failed(name.rest)
    else
      var columns := ParseColumnList(name.rest);
      if columns.Failed? then Failed(columns.rest) else Parsed(CreateTable(name.value, columns.value), columns.rest)
  }

  /** CREATE VIEW and CREATE TRIGGER stop at the same token as anything else that is not TABLE. */
  function ParseCreate(ts: seq<Lexeme>): (p: Parse<CreateTable>)
    requires Ended(ts)
    ensures Consumes(ts, p)
  {
    var create := ParseWord(ts, "CREATE");
    if create.Failed? then Failed(create.rest)
    else
      var table := ParseWord(create.rest, "TABLE");
      if table.Failed? then Failed(table.rest) else ParseTable(table.rest)
  }

  /** The end of a whole statement: nothing but one semicolon may follow. */
  function AtEnd<T>(p: Parse<T>): (r: Parse<T>)
    requires Ended(p.rest)
    ensures Ended(r.rest)
  {
    if p.Failed? then p
    else
      var rest := if p.rest[0].0 == SEMICOLON then p.rest[1..] else p.rest;
      if rest[0].0 == EOF then Parsed(p.value, rest) else Failed(rest)
  }

  function ParseCreateSql(ts: seq<Lexeme>): (p: Parse<CreateTable>)
    requires Ended(ts)
  {
    AtEnd(ParseCreate(ts))
  }

  const END: seq<Lexeme> := [(EOF, Text(""))]

  // ---------------------------------------------------------------- the printed schema

  function TypeText(ty: TinyType): string {
    match ty
    case INT => "INT"
    case FLOAT => "FLOAT"
    case TEXT => "TEXT"
    case BOOL => "BOOL"
  }

  const PRIMARY_KEY: string := "PRIMARY" + " " + "KEY"
  const NOT_NULL: string := "NOT" + " " + "NULL"

  function NotNullText(c: ColumnSchema): string {
    if c.notNull then " " + NOT_NULL else ""
  }

  function UniqueText(c: ColumnSchema): string {
    if c.unique then " " + "UNIQUE" else ""
  }

  /** Of a key column only PRIMARY KEY is printed. */
  function ConstraintText(c: ColumnSchema): string {
    if c.primaryKey then " " + PRIMARY_KEY else NotNullText(c) + UniqueText(c)
  }

  function ColumnText(c: ColumnSchema): string {
    c.name + " " + TypeText(c.ty) + ConstraintText(c)
  }

  /** The lines of the columns, with a comma after all but the last. */
  function ColumnLines(columns: seq<ColumnSchema>): string {
    if columns == [] then ""
    else LineText(columns) + ColumnLines(columns[1..])
  }

  function LineText(columns: seq<ColumnSchema>): string
    requires columns != []
  {
    "\n" + " " + " " + ColumnText(columns[0]) + CommaText(columns)
  }

  function CommaText(columns: seq<ColumnSchema>): string {
    if |columns| > 1 then "," else ""
  }

  function TableText(schema: TableSchema): string {
    HeaderText(schema.name) + ColumnLines(schema.columns) + ("\n" + ")")
  }

  function HeaderText(name: string): string {
    ("CREATE" + " " + "TABLE" + " ") + (name + " " + "(")
  }

  function Joined(parts: seq<string>, separator: string): string {
    if parts == [] then ""
    else if |parts| == 1 then parts[0]
    else parts[0] + separator + Joined(parts[1..], separator)
  }

  lemma {:induction false} JoinedSnoc(parts: seq<string>, part: string, separator: string)
    requires parts != []
    ensures Joined(parts + [part], separator) == Joined(parts, separator) + (separator + part)
  {
    if |parts| == 1 {
      assert (parts + [part])[1..] == [part];
    } else {
      assert (parts + [part])[1..] == parts[1..] + [part];
      JoinedSnoc(parts[1..], part, separator);
      Append(parts[0] + separator, Joined(parts[1..], separator), separator + part);
    }
  }

  method FormatColumn(column: ColumnSchema) returns (text: string)
    ensures text == ColumnText(column)
  {
    var parts := [column.name] + [TypeText(column.ty)];
    JoinedSnoc([column.name], TypeText(column.ty), " ");
    ghost var start := Joined(parts, " ");
    Append(column.name, " ", TypeText(column.ty));
    assert start == column.name + " " + TypeText(column.ty);
    if column.primaryKey {
      JoinedSnoc(parts, PRIMARY_KEY, " ");
      parts := parts + [PRIMARY_KEY];
    } else {
      if column.notNull {
        JoinedSnoc(parts, NOT_NULL, " ");
        parts := parts + [NOT_NULL];
      }
      assert Joined(parts, " ") == start + NotNullText(column);
      if column.unique {
        JoinedSnoc(parts, "UNIQUE", " ");
        parts := parts + ["UNIQUE"];
      }
      assert Joined(parts, " ") == start + NotNullText(column) + UniqueText(column);
      Append(start, NotNullText(column), UniqueText(column));
    }
    text := Joined(parts, " ");
  }

  // ---------------------------------------------------------------- texts made of words, blanks and signs

  /** A text without literals, numbers and operators. */
  predicate Simple(cs: Chars, s: string)
    decreases |s|
  {
    s == []
    || (if cs.isSpace(s[0]) then Simple(cs, s[1..])
        else if WordStart(cs, s[0]) then Simple(cs, s[1 + Run(s[1..], WordPart(cs))..])
        else Punctuation(s[0]).Some? && Simple(cs, s[1..]))
  }

  predicate IsWordText(cs: Chars, p: string) {
    p != [] && WordStart(cs, p[0]) && forall i :: 0 <= i < |p| ==> WordPart(cs)(p[i])
  }

  lemma {:induction false} RunConcat(a: string, b: string, part: char -> bool)
    ensures Run(a, part) < |a| ==> Run(a + b, part) == Run(a, part)
    ensures Run(a, part) == |a| && (b != [] ==> !part(b[0])) ==> Run(a + b, part) == |a|
  {
    if a == [] {
      assert a + b == b;
    } else {
      assert (a + b)[1..] == a[1..] + b;
      RunConcat(a[1..], b, part);
    }
  }

  /** The last character of one text and the first of the next do not both belong to a word. */
  predicate Apart(cs: Chars, a: string, b: string) {
    a == [] || b == [] || !WordPart(cs)(a[|a| - 1]) || !WordPart(cs)(b[0])
  }

  function SimpleSize(cs: Chars, s: string): nat
    requires s != []
  {
    if !cs.isSpace(s[0]) && WordStart(cs, s[0]) then 1 + Run(s[1..], WordPart(cs)) else 1
  }

  function SimpleFirst(cs: Chars, s: string): seq<Lexeme>
    requires s != []
  {
    if cs.isSpace(s[0]) then []
    else if WordStart(cs, s[0]) then [Lexer.Word(cs, s[..1 + Run(s[1..], WordPart(cs))])]
    else if Punctuation(s[0]).Some? then [(Punctuation(s[0]).value, Text([s[0]]))]
    else []
  }

  lemma SimpleSteps(cs: Chars, s: string)
    requires Plain(cs) && s != [] && (cs.isSpace(s[0]) || WordStart(cs, s[0]) || Punctuation(s[0]).Some?)
    ensures Steps(cs, s, SimpleSize(cs, s), SimpleFirst(cs, s))
  {
    if Punctuation(s[0]).Some? {
      PunctuationIsSign(cs, s[0]);
    }
  }

  lemma PunctuationIsSign(cs: Chars, c: char)
    requires Plain(cs) && Punctuation(c).Some?
    ensures Unclassed(cs, c)
  {
  }

  /** A word at the end of the first text stays as it is when the texts are kept apart. */
  lemma SameStart(cs: Chars, a: string, b: string)
    requires Plain(cs) && a != [] && Apart(cs, a, b)
    ensures SimpleSize(cs, a + b) == SimpleSize(cs, a) && SimpleFirst(cs, a + b) == SimpleFirst(cs, a)
  {
    SameSize(cs, a, b);
    assert (a + b)[..SimpleSize(cs, a)] == a[..SimpleSize(cs, a)];
  }

  lemma SameSize(cs: Chars, a: string, b: string)
    requires Plain(cs) && a != [] && Apart(cs, a, b)
    ensures SimpleSize(cs, a + b) == SimpleSize(cs, a)
  {
    assert (a + b)[1..] == a[1..] + b;
    RunConcat(a[1..], b, WordPart(cs));
    if WordStart(cs, a[0]) && SimpleSize(cs, a) == |a| {
      RunIsLongest(a[1..], WordPart(cs));
      assert |a| > 1 ==> a[|a| - 1] == a[1..][|a| - 2];
    }
  }

  lemma {:induction false} Concat(cs: Chars, a: string, b: string)
    requires Plain(cs) && Simple(cs, a) && Simple(cs, b) && Apart(cs, a, b) && Read(cs, b).Some?
    ensures Simple(cs, a + b) && Read(cs, a).Some? && Read(cs, a + b) == Some(Read(cs, a).value + Read(cs, b).value)
    decreases |a|
  {
    if a == [] {
      assert a + b == b;
      assert [] + Read(cs, b).value == Read(cs, b).value;
    } else {
      var n, first := SimpleSize(cs, a), SimpleFirst(cs, a);
      SameStart(cs, a, b);
      SimpleSteps(cs, a);
      SimpleSteps(cs, a + b);
      ReadOnward(cs, a, n, first);
      ReadOnward(cs, a + b, n, first);
      Rest(a, b, n);
      Concat(cs, a[n..], b);
      Append(first, Read(cs, a[n..]).value, Read(cs, b).value);
    }
  }

  lemma Rest(a: string, b: string, n: nat)
    requires n <= |a|
    ensures (a + b)[n..] == a[n..] + b
    ensures n < |a| ==> a[n..][|a[n..]| - 1] == a[|a| - 1]
  {
  }

  // ---------------------------------------------------------------- the tokens of a printed schema

  /** The text has these tokens; `first` and `last` say whether it starts and ends inside a word. */
  ghost predicate Tokenizes(cs: Chars, text: string, lexemes: seq<Lexeme>, first: bool, last: bool) {
    && Simple(cs, text) && Read(cs, text) == Some(lexemes) && text != []
    && first == WordPart(cs)(text[0]) && last == WordPart(cs)(text[|text| - 1])
  }

  lemma Then(cs: Chars, t1: string, l1: seq<Lexeme>, f1: bool, e1: bool, t2: string, l2: seq<Lexeme>, f2: bool,
             e2: bool)
    requires Plain(cs) && Tokenizes(cs, t1, l1, f1, e1) && Tokenizes(cs, t2, l2, f2, e2) && !(e1 && f2)
    ensures Tokenizes(cs, t1 + t2, l1 + l2, f1, e2)
  {
    Concat(cs, t1, t2);
  }

  lemma BlankAlone(cs: Chars, blank: char)
    requires Plain(cs) && cs.isSpace(blank)
    ensures Tokenizes(cs, [blank], [], false, false)
  {
    assert [blank][1..] == [];
  }

  lemma SignAlone(cs: Chars, sign: char)
    requires Plain(cs) && Punctuation(sign).Some?
    ensures Tokenizes(cs, [sign], [(Punctuation(sign).value, Text([sign]))], false, false)
  {
    var lexeme: Lexeme := (Punctuation(sign).value, Text([sign]));
    PunctuationIsSign(cs, sign);
    assert [sign][1..] == [];
    assert Head(cs, [sign]) == Emit(lexeme.0, lexeme.1, 1);
    assert [lexeme] + [] == [lexeme];
  }

  /** The word is read as that one token. */
  ghost predicate Reading(cs: Chars, word: string, lexeme: Lexeme) {
    Plain(cs) && IsWordText(cs, word) && Lexer.Word(cs, word) == lexeme
  }

  lemma {:induction false} RunAll(s: string, part: char -> bool)
    requires forall i :: 0 <= i < |s| ==> part(s[i])
    ensures Run(s, part) == |s|
  {
    if s != [] {
      RunAll(s[1..], part);
    }
  }

  lemma WordAlone(cs: Chars, word: string, lexeme: Lexeme)
    requires Reading(cs, word, lexeme)
    ensures Tokenizes(cs, word, [lexeme], true, true)
  {
    RunAll(word[1..], WordPart(cs));
    assert word[..|word|] == word && word[|word|..] == [];
    SimpleSteps(cs, word);
    ReadOnward(cs, word, |word|, [lexeme]);
    assert [lexeme] + [] == [lexeme];
  }

  /** A piece of text with its tokens: a word, or a single blank or sign. */
  datatype Item = Item(text: string, lexemes: seq<Lexeme>, word: bool)

  ghost predicate ItemOk(cs: Chars, item: Item) {
    Tokenizes(cs, item.text, item.lexemes, item.word, item.word)
  }

  /** Pieces that the tokenizer keeps apart: no two words are next to each other. */
  ghost predicate Spaced(cs: Chars, items: seq<Item>) {
    && items != []
    && (forall item :: item in items ==> ItemOk(cs, item))
    && (forall i :: 0 <= i < |items| - 1 ==> !(items[i].word && items[i + 1].word))
  }

  function TextOf(items: seq<Item>): string {
    if items == [] then "" else items[0].text + TextOf(items[1..])
  }

  function LexemesOf(items: seq<Item>): seq<Lexeme> {
    if items == [] then [] else items[0].lexemes + LexemesOf(items[1..])
  }

  /** Such a text tokenizes to the tokens of its pieces. */
  lemma {:induction false} SpacedReads(cs: Chars, items: seq<Item>)
    requires Plain(cs) && Spaced(cs, items)
    ensures Tokenizes(cs, TextOf(items), LexemesOf(items), items[0].word, items[|items| - 1].word)
  {
    var item, rest := items[0], items[1..];
    assert ItemOk(cs, item);
    if rest == [] {
      assert items == [item];
      OneItem(item);
    } else {
      SpacedRest(cs, items);
      SpacedReads(cs, rest);
      ThenRest(cs, item, TextOf(rest), LexemesOf(rest), rest[0].word, rest[|rest| - 1].word);
    }
  }

  lemma ThenRest(cs: Chars, item: Item, text: string, lexemes: seq<Lexeme>, first: bool, last: bool)
    requires Plain(cs) && ItemOk(cs, item) && Tokenizes(cs, text, lexemes, first, last) && !(item.word && first)
    ensures Tokenizes(cs, item.text + text, item.lexemes + lexemes, item.word, last)
  {
    Then(cs, item.text, item.lexemes, item.word, item.word, text, lexemes, first, last);
  }

  lemma SpacedRest(cs: Chars, items: seq<Item>)
    requires Spaced(cs, items) && |items| > 1
    ensures Spaced(cs, items[1..]) && !(items[0].word && items[1..][0].word)
  {
  }

  lemma SpacedConcat(cs: Chars, a: seq<Item>, b: seq<Item>)
    requires Spaced(cs, a) && Spaced(cs, b) && !(a[|a| - 1].word && b[0].word)
    ensures Spaced(cs, a + b) && (a + b)[0] == a[0] && (a + b)[|a + b| - 1] == b[|b| - 1]
  {
  }

  lemma {:induction false} ItemsConcat(a: seq<Item>, b: seq<Item>)
    ensures TextOf(a + b) == TextOf(a) + TextOf(b) && LexemesOf(a + b) == LexemesOf(a) + LexemesOf(b)
  {
    if a == [] {
      assert a + b == b && [] + LexemesOf(b) == LexemesOf(b) && "" + TextOf(b) == TextOf(b);
    } else {
      ItemsConcat(a[1..], b);
      assert (a + b)[1..] == a[1..] + b;
      Append(a[0].text, TextOf(a[1..]), TextOf(b));
      Append(a[0].lexemes, LexemesOf(a[1..]), LexemesOf(b));
    }
  }

  lemma OneItem(a: Item)
    ensures TextOf([a]) == a.text && LexemesOf([a]) == a.lexemes
  {
    assert a.text + "" == a.text && a.lexemes + [] == a.lexemes;
  }

  lemma TwoItems(a: Item, b: Item)
    ensures TextOf([a, b]) == a.text + b.text && LexemesOf([a, b]) == a.lexemes + b.lexemes
  {
    assert [a, b] == [a] + [b];
    ItemsConcat([a], [b]);
    OneItem(a);
    OneItem(b);
  }

  lemma ThreeItems(a: Item, b: Item, c: Item)
    ensures TextOf([a, b, c]) == a.text + b.text + c.text && LexemesOf([a, b, c]) == a.lexemes + b.lexemes + c.lexemes
  {
    assert [a, b, c] == [a, b] + [c];
    ItemsConcat([a, b], [c]);
    TwoItems(a, b);
    OneItem(c);
  }

  lemma FourItems(a: Item, b: Item, c: Item, d: Item)
    ensures TextOf([a, b, c, d]) == a.text + b.text + c.text + d.text
    ensures LexemesOf([a, b, c, d]) == a.lexemes + b.lexemes + c.lexemes + d.lexemes
  {
    assert [a, b, c, d] == [a, b, c] + [d];
    ItemsConcat([a, b, c], [d]);
    ThreeItems(a, b, c);
    OneItem(d);
  }

  /** What is assumed of the tables for the printed keywords: capital letters are letters, and a word
      of them is its own upper case; the blank and the line break are spaces. */
  ghost predicate Capitals(cs: Chars) {
    && Plain(cs) && cs.isSpace(' ') && cs.isSpace('\n')
    && (forall c :: 'A' <= c <= 'Z' ==> cs.isAlpha(c) && cs.isAlnum(c))
    && (forall w :: AllCapitals(w) ==> cs.upper(w) == w)
  }

  predicate AllCapitals(w: string) {
    w != [] && forall i :: 0 <= i < |w| ==> 'A' <= w[i] <= 'Z'
  }

  /** A word that the tokenizer takes for a name. */
  ghost predicate IsName(cs: Chars, word: string) {
    Reading(cs, word, (IDENTIFIER, Text(word)))
  }

  lemma CapitalWord(cs: Chars, word: string)
    requires Capitals(cs) && AllCapitals(word) && Reserved(word) && word != "TRUE" && word != "FALSE"
    requires word != "NULL"
    ensures Reading(cs, word, (KEYWORD, Text(word)))
  {
  }

  lemma NullWord(cs: Chars)
    requires Capitals(cs)
    ensures Reading(cs, "NULL", (NULL, Null))
  {
    assert AllCapitals("NULL");
  }

  function NotNullLexemes(c: ColumnSchema): seq<Lexeme> {
    if c.notNull then [(KEYWORD, Text("NOT")), (NULL, Null)] else []
  }

  function UniqueLexemes(c: ColumnSchema): seq<Lexeme> {
    if c.unique then [(KEYWORD, Text("UNIQUE"))] else []
  }

  function ConstraintLexemes(c: ColumnSchema): seq<Lexeme> {
    if c.primaryKey then [(KEYWORD, Text("PRIMARY")), (KEYWORD, Text("KEY"))] else NotNullLexemes(c) + UniqueLexemes(c)
  }

  function ColumnLexemes(c: ColumnSchema): seq<Lexeme> {
    [(IDENTIFIER, Text(c.name)), (KEYWORD, Text(TypeText(c.ty)))] + ConstraintLexemes(c)
  }

  function ColumnsLexemes(columns: seq<ColumnSchema>): seq<Lexeme> {
    if columns == [] then []
    else (ColumnLexemes(columns[0]) + CommaLexemes(columns)) + ColumnsLexemes(columns[1..])
  }

  function CommaLexemes(columns: seq<ColumnSchema>): seq<Lexeme> {
    if |columns| > 1 then [(COMMA, Text(","))] else []
  }

  function TableLexemes(schema: TableSchema): seq<Lexeme> {
    HeaderLexemes(schema.name) + ColumnsLexemes(schema.columns) + [(RPAREN, Text(")"))]
  }

  function HeaderLexemes(name: string): seq<Lexeme> {
    [(KEYWORD, Text("CREATE")), (KEYWORD, Text("TABLE")), (IDENTIFIER, Text(name)), (LPAREN, Text("("))]
  }

  lemma TypeWord(cs: Chars, ty: TinyType)
    requires Capitals(cs)
    ensures Reading(cs, TypeText(ty), (KEYWORD, Text(TypeText(ty))))
  {
    assert AllCapitals(TypeText(ty));
    CapitalWord(cs, TypeText(ty));
  }

  function Blank(c: char): Item {
    Item([c], [], false)
  }

  function SignItem(c: char): Item
    requires Punctuation(c).Some?
  {
    Item([c], [(Punctuation(c).value, Text([c]))], false)
  }

  function KeywordItem(word: string): Item {
    Item(word, [(KEYWORD, Text(word))], true)
  }

  function NameItem(name: string): Item {
    Item(name, [(IDENTIFIER, Text(name))], true)
  }

  const NULL_ITEM: Item := Item("NULL", [(NULL, Null)], true)

  function NotNullItems(c: ColumnSchema): seq<Item> {
    if c.notNull then [Blank(' '), KeywordItem("NOT"), Blank(' '), NULL_ITEM] else []
  }

  function UniqueItems(c: ColumnSchema): seq<Item> {
    if c.unique then [Blank(' '), KeywordItem("UNIQUE")] else []
  }

  function ConstraintItems(c: ColumnSchema): seq<Item> {
    if c.primaryKey then [Blank(' '), KeywordItem("PRIMARY"), Blank(' '), KeywordItem("KEY")]
    else NotNullItems(c) + UniqueItems(c)
  }

  function ColumnItems(c: ColumnSchema): seq<Item> {
    [NameItem(c.name), Blank(' '), KeywordItem(TypeText(c.ty))] + ConstraintItems(c)
  }

  function CommaItems(columns: seq<ColumnSchema>): seq<Item> {
    if |columns| > 1 then [SignItem(',')] else []
  }

  function LinesItems(columns: seq<ColumnSchema>): seq<Item> {
    if columns == [] then []
    else LineItems(columns) + LinesItems(columns[1..])
  }

  function LineItems(columns: seq<ColumnSchema>): seq<Item>
    requires columns != []
  {
    [Blank('\n'), Blank(' '), Blank(' ')] + ColumnItems(columns[0]) + CommaItems(columns)
  }

  function TableItems(schema: TableSchema): seq<Item> {
    HeaderItems(schema.name) + LinesItems(schema.columns) + [Blank('\n'), SignItem(')')]
  }

  function HeaderItems(name: string): seq<Item> {
    [KeywordItem("CREATE"), Blank(' '), KeywordItem("TABLE"), Blank(' ')] + [NameItem(name), Blank(' '), SignItem('(')]
  }

  lemma FourTexts(a: string, b: string, c: string, d: string)
    ensures a + b + c + d == a + (b + c + d)
  {
    Append(a, b, c);
    Append(a, b + c, d);
  }

  lemma ConstraintItemsMatch(c: ColumnSchema)
    ensures TextOf(ConstraintItems(c)) == ConstraintText(c) && LexemesOf(ConstraintItems(c)) == ConstraintLexemes(c)
  {
    FourItems(Blank(' '), KeywordItem("PRIMARY"), Blank(' '), KeywordItem("KEY"));
    FourTexts(" ", "PRIMARY", " ", "KEY");
    FourItems(Blank(' '), KeywordItem("NOT"), Blank(' '), NULL_ITEM);
    FourTexts(" ", "NOT", " ", "NULL");
    TwoItems(Blank(' '), KeywordItem("UNIQUE"));
    ItemsConcat(NotNullItems(c), UniqueItems(c));
  }

  lemma ColumnItemsMatch(c: ColumnSchema)
    ensures TextOf(ColumnItems(c)) == ColumnText(c) && LexemesOf(ColumnItems(c)) == ColumnLexemes(c)
  {
    ConstraintItemsMatch(c);
    ThreeItems(NameItem(c.name), Blank(' '), KeywordItem(TypeText(c.ty)));
    ItemsConcat([NameItem(c.name), Blank(' '), KeywordItem(TypeText(c.ty))], ConstraintItems(c));
  }

  lemma LineItemsMatch(columns: seq<ColumnSchema>)
    requires columns != []
    ensures TextOf(LineItems(columns)) == LineText(columns)
    ensures LexemesOf(LineItems(columns)) == ColumnLexemes(columns[0]) + CommaLexemes(columns)
  {
    var indent, column, comma := [Blank('\n'), Blank(' '), Blank(' ')], ColumnItems(columns[0]), CommaItems(columns);
    ThreeItems(Blank('\n'), Blank(' '), Blank(' '));
    ColumnItemsMatch(columns[0]);
    if |columns| > 1 {
      OneItem(SignItem(','));
    }
    ItemsConcat(indent, column);
    ItemsConcat(indent + column, comma);
    assert [] + ColumnLexemes(columns[0]) == ColumnLexemes(columns[0]);
  }

  lemma {:induction false} LinesItemsMatch(columns: seq<ColumnSchema>)
    ensures TextOf(LinesItems(columns)) == ColumnLines(columns)
    ensures LexemesOf(LinesItems(columns)) == ColumnsLexemes(columns)
  {
    if columns != [] {
      LineItemsMatch(columns);
      LinesItemsMatch(columns[1..]);
      ItemsConcat(LineItems(columns), LinesItems(columns[1..]));
    }
  }

  lemma HeaderItemsMatch(name: string)
    ensures TextOf(HeaderItems(name)) == HeaderText(name) && LexemesOf(HeaderItems(name)) == HeaderLexemes(name)
  {
    var create := [KeywordItem("CREATE"), Blank(' '), KeywordItem("TABLE"), Blank(' ')];
    var opening := [NameItem(name), Blank(' '), SignItem('(')];
    FourItems(KeywordItem("CREATE"), Blank(' '), KeywordItem("TABLE"), Blank(' '));
    ThreeItems(NameItem(name), Blank(' '), SignItem('('));
    ItemsConcat(create, opening);
  }

  lemma ThreeParts(a: seq<Item>, b: seq<Item>, c: seq<Item>)
    ensures TextOf(a + b + c) == TextOf(a) + TextOf(b) + TextOf(c)
    ensures LexemesOf(a + b + c) == LexemesOf(a) + LexemesOf(b) + LexemesOf(c)
  {
    ItemsConcat(a, b);
    ItemsConcat(a + b, c);
  }

  lemma FooterMatches()
    ensures TextOf([Blank('\n'), SignItem(')')]) == "\n" + ")"
    ensures LexemesOf([Blank('\n'), SignItem(')')]) == [(RPAREN, Text(")"))]
  {
    TwoItems(Blank('\n'), SignItem(')'));
  }

  lemma TableItemsMatch(schema: TableSchema)
    ensures TextOf(TableItems(schema)) == TableText(schema) && LexemesOf(TableItems(schema)) == TableLexemes(schema)
  {
    HeaderItemsMatch(schema.name);
    LinesItemsMatch(schema.columns);
    FooterMatches();
    ThreeParts(HeaderItems(schema.name), LinesItems(schema.columns), [Blank('\n'), SignItem(')')]);
  }

  // ---------------------------------------------------------------- the pieces are kept apart

  /** One piece, in the list form the concatenation lemma works with. */
  lemma BlankSpaced(cs: Chars, c: char)
    requires Plain(cs) && cs.isSpace(c)
    ensures Spaced(cs, [Blank(c)])
  {
    BlankAlone(cs, c);
  }

  lemma SignSpaced(cs: Chars, c: char)
    requires Plain(cs) && Punctuation(c).Some?
    ensures Spaced(cs, [SignItem(c)])
  {
    SignAlone(cs, c);
  }

  lemma WordSpaced(cs: Chars, item: Item, lexeme: Lexeme)
    requires item.word && item.lexemes == [lexeme] && Reading(cs, item.text, lexeme)
    ensures Spaced(cs, [item])
  {
    WordAlone(cs, item.text, lexeme);
  }

  /** A blank and a word after pieces that end with a word. */
  lemma ThenWord(cs: Chars, items: seq<Item>, item: Item, lexeme: Lexeme)
    requires Capitals(cs) && Spaced(cs, items) && item.word && item.lexemes == [lexeme]
    requires Reading(cs, item.text, lexeme)
    ensures Spaced(cs, items + [Blank(' '), item])
  {
    BlankSpaced(cs, ' ');
    WordSpaced(cs, item, lexeme);
    SpacedConcat(cs, [Blank(' ')], [item]);
    assert [Blank(' ')] + [item] == [Blank(' '), item];
    SpacedConcat(cs, items, [Blank(' '), item]);
  }

  lemma ThenTwoWords(cs: Chars, items: seq<Item>, i1: Item, l1: Lexeme, i2: Item, l2: Lexeme)
    requires Capitals(cs) && Spaced(cs, items) && i1.word && i1.lexemes == [l1] && i2.word && i2.lexemes == [l2]
    requires Reading(cs, i1.text, l1) && Reading(cs, i2.text, l2)
    ensures Spaced(cs, items + [Blank(' '), i1, Blank(' '), i2])
  {
    ThenWord(cs, items, i1, l1);
    ThenWord(cs, items + [Blank(' '), i1], i2, l2);
    assert items + [Blank(' '), i1] + [Blank(' '), i2] == items + [Blank(' '), i1, Blank(' '), i2];
  }

  lemma ThenNotNull(cs: Chars, items: seq<Item>, c: ColumnSchema)
    requires Capitals(cs) && Spaced(cs, items)
    ensures Spaced(cs, items + NotNullItems(c))
  {
    if c.notNull {
      CapitalWord(cs, "NOT");
      NullWord(cs);
      ThenTwoWords(cs, items, KeywordItem("NOT"), (KEYWORD, Text("NOT")), NULL_ITEM, (NULL, Null));
    } else {
      assert items + [] == items;
    }
  }

  lemma ThenUnique(cs: Chars, items: seq<Item>, c: ColumnSchema)
    requires Capitals(cs) && Spaced(cs, items)
    ensures Spaced(cs, items + UniqueItems(c))
  {
    if c.unique {
      CapitalWord(cs, "UNIQUE");
      ThenWord(cs, items, KeywordItem("UNIQUE"), (KEYWORD, Text("UNIQUE")));
    } else {
      assert items + [] == items;
    }
  }

  lemma ThenConstraints(cs: Chars, items: seq<Item>, c: ColumnSchema)
    requires Capitals(cs) && Spaced(cs, items)
    ensures Spaced(cs, items + ConstraintItems(c))
  {
    if c.primaryKey {
      CapitalWord(cs, "PRIMARY");
      CapitalWord(cs, "KEY");
      ThenTwoWords(cs, items, KeywordItem("PRIMARY"), (KEYWORD, Text("PRIMARY")),
                   KeywordItem("KEY"), (KEYWORD, Text("KEY")));
    } else {
      ThenNotNull(cs, items, c);
      ThenUnique(cs, items + NotNullItems(c), c);
      assert items + NotNullItems(c) + UniqueItems(c) == items + (NotNullItems(c) + UniqueItems(c));
    }
  }

  lemma ColumnSpaced(cs: Chars, c: ColumnSchema)
    requires Capitals(cs) && IsName(cs, c.name)
    ensures Spaced(cs, ColumnItems(c)) && ColumnItems(c)[0].word
  {
    WordSpaced(cs, NameItem(c.name), (IDENTIFIER, Text(c.name)));
    TypeWord(cs, c.ty);
    ThenWord(cs, [NameItem(c.name)], KeywordItem(TypeText(c.ty)), (KEYWORD, Text(TypeText(c.ty))));
    var start := [NameItem(c.name), Blank(' '), KeywordItem(TypeText(c.ty))];
    assert [NameItem(c.name)] + [Blank(' '), KeywordItem(TypeText(c.ty))] == start;
    ThenConstraints(cs, start, c);
  }

  lemma IndentSpaced(cs: Chars)
    requires Capitals(cs)
    ensures Spaced(cs, [Blank('\n'), Blank(' '), Blank(' ')])
  {
    BlankAlone(cs, '\n');
    BlankAlone(cs, ' ');
  }

  lemma LineSpaced(cs: Chars, columns: seq<ColumnSchema>)
    requires Capitals(cs) && columns != [] && IsName(cs, columns[0].name)
    ensures Spaced(cs, LineItems(columns)) && !LineItems(columns)[0].word
  {
    var indent, column := [Blank('\n'), Blank(' '), Blank(' ')], ColumnItems(columns[0]);
    IndentSpaced(cs);
    ColumnSpaced(cs, columns[0]);
    SpacedConcat(cs, indent, column);
    if |columns| > 1 {
      SignSpaced(cs, ',');
      SpacedConcat(cs, indent + column, [SignItem(',')]);
    } else {
      assert indent + column + [] == indent + column;
    }
  }

  lemma {:induction false} LinesSpaced(cs: Chars, columns: seq<ColumnSchema>)
    requires Capitals(cs) && columns != [] && forall i :: 0 <= i < |columns| ==> IsName(cs, columns[i].name)
    ensures Spaced(cs, LinesItems(columns)) && !LinesItems(columns)[0].word
  {
    var line := LineItems(columns);
    LineSpaced(cs, columns);
    if |columns| == 1 {
      assert columns[1..] == [] && line + [] == line;
    } else {
      LinesSpaced(cs, columns[1..]);
      SpacedConcat(cs, line, LinesItems(columns[1..]));
    }
  }

  lemma HeaderSpaced(cs: Chars, name: string)
    requires Capitals(cs) && IsName(cs, name)
    ensures Spaced(cs, HeaderItems(name)) && !HeaderItems(name)[|HeaderItems(name)| - 1].word
  {
    CapitalWord(cs, "CREATE");
    CapitalWord(cs, "TABLE");
    WordSpaced(cs, KeywordItem("CREATE"), (KEYWORD, Text("CREATE")));
    ThenTwoWords(cs, [KeywordItem("CREATE")], KeywordItem("TABLE"), (KEYWORD, Text("TABLE")),
                 NameItem(name), (IDENTIFIER, Text(name)));
    BlankSpaced(cs, ' ');
    SignSpaced(cs, '(');
    var words := [KeywordItem("CREATE")] + [Blank(' '), KeywordItem("TABLE"), Blank(' '), NameItem(name)];
    SpacedConcat(cs, words, [Blank(' ')]);
    SpacedConcat(cs, words + [Blank(' ')], [SignItem('(')]);
    assert words + [Blank(' ')] + [SignItem('(')] == HeaderItems(name);
  }

  /** The printed schema tokenizes to the tokens of a CREATE TABLE statement. */
  lemma TableReads(cs: Chars, schema: TableSchema)
    requires Capitals(cs) && IsName(cs, schema.name)
    requires schema.columns != [] && forall i :: 0 <= i < |schema.columns| ==> IsName(cs, schema.columns[i].name)
    ensures Read(cs, TableText(schema)) == Some(TableLexemes(schema))
  {
    var header, lines, end := HeaderItems(schema.name), LinesItems(schema.columns), [Blank('\n'), SignItem(')')];
    HeaderSpaced(cs, schema.name);
    LinesSpaced(cs, schema.columns);
    BlankSpaced(cs, '\n');
    SignSpaced(cs, ')');
    SpacedConcat(cs, [Blank('\n')], [SignItem(')')]);
    assert [Blank('\n')] + [SignItem(')')] == end;
    SpacedConcat(cs, header, lines);
    SpacedConcat(cs, header + lines, end);
    SpacedReads(cs, TableItems(schema));
    TableItemsMatch(schema);
  }

  // ---------------------------------------------------------------- parsing the printed schema

  /** The definition that is read from the print of a column: of a key column only the key. */
  function DefinitionOf(c: ColumnSchema): ColumnDef {
    if c.primaryKey then ColumnDef(c.name, c.ty, true, false, false)
    else ColumnDef(c.name, c.ty, false, c.notNull, c.unique)
  }

  function DefinitionsOf(columns: seq<ColumnSchema>): seq<ColumnDef> {
    seq(|columns|, i requires 0 <= i < |columns| => DefinitionOf(columns[i]))
  }

  lemma UniqueParses(def: ColumnDef, c: ColumnSchema, ts: seq<Lexeme>)
    requires Ended(ts) && ts[0].0 != KEYWORD
    ensures Ended(UniqueLexemes(c) + ts)
    ensures ParseConstraints(def, UniqueLexemes(c) + ts) == Parsed(if c.unique then def.(unique := true) else def, ts)
  {
    if c.unique {
      Cons((KEYWORD, Text("UNIQUE")), ts);
    } else {
      assert [] + ts == ts;
    }
  }

  lemma TwoThen(x: Lexeme, y: Lexeme, ts: seq<Lexeme>)
    requires Ended(ts)
    ensures var all := [x, y] + ts;
      Ended(all) && all[0] == x && Ended(all[1..]) && all[1..][0] == y && all[1..][1..] == ts
  {
  }

  lemma NotNullParses(def: ColumnDef, c: ColumnSchema, ts: seq<Lexeme>)
    requires Ended(ts)
    ensures Ended(NotNullLexemes(c) + ts)
    ensures ParseConstraints(def, NotNullLexemes(c) + ts)
         == ParseConstraints(if c.notNull then def.(notNull := true) else def, ts)
  {
    if c.notNull {
      TwoThen((KEYWORD, Text("NOT")), (NULL, Null), ts);
    } else {
      assert [] + ts == ts;
    }
  }

  lemma ConstraintsParse(c: ColumnSchema, ts: seq<Lexeme>)
    requires Ended(ts) && ts[0].0 != KEYWORD
    ensures Ended(ConstraintLexemes(c) + ts)
    ensures ParseConstraints(ColumnDef(c.name, c.ty, false, false, false), ConstraintLexemes(c) + ts)
         == Parsed(DefinitionOf(c), ts)
  {
    var def := ColumnDef(c.name, c.ty, false, false, false);
    if c.primaryKey {
      TwoThen((KEYWORD, Text("PRIMARY")), (KEYWORD, Text("KEY")), ts);
      assert ParseConstraints(def.(primaryKey := true), ts) == Parsed(DefinitionOf(c), ts);
    } else {
      UniqueParses(if c.notNull then def.(notNull := true) else def, c, ts);
      NotNullParses(def, c, UniqueLexemes(c) + ts);
      Append(NotNullLexemes(c), UniqueLexemes(c), ts);
    }
  }

  /** The type each name stands for, in a definition without constraints. */
  lemma TypeTokens(name: string, ty: TinyType, text: string, ts: seq<Lexeme>)
    requires (ty, text) in {(INT, "INT"), (FLOAT, "FLOAT"), (TEXT, "TEXT"), (BOOL, "BOOL")}
    requires Ended(ts) && ts[0].0 != KEYWORD
    ensures var all := [(IDENTIFIER, Text(name)), (KEYWORD, Text(text))] + ts;
      Ended(all) && ParseColumnDef(all) == Parsed(ColumnDef(name, ty, false, false, false), ts)
  {
    TwoThen((IDENTIFIER, Text(name)), (KEYWORD, Text(text)), ts);
    assert TypeOf(text) == Some(ty);
  }

  /** The constraint each word stands for; further ones follow. */
  lemma ConstraintTokens(def: ColumnDef, ts: seq<Lexeme>)
    requires Ended(ts)
    ensures var all := [(KEYWORD, Text("PRIMARY")), (KEYWORD, Text("KEY"))] + ts;
      Ended(all) && ParseConstraints(def, all) == ParseConstraints(def.(primaryKey := true), ts)
    ensures var all := [(KEYWORD, Text("NOT")), (NULL, Null)] + ts;
      Ended(all) && ParseConstraints(def, all) == ParseConstraints(def.(notNull := true), ts)
    ensures var all := [(KEYWORD, Text("UNIQUE"))] + ts;
      Ended(all) && ParseConstraints(def, all) == ParseConstraints(def.(unique := true), ts)
    ensures ts[0].0 != KEYWORD ==> ParseConstraints(def, ts) == Parsed(def, ts)
  {
    TwoThen((KEYWORD, Text("PRIMARY")), (KEYWORD, Text("KEY")), ts);
    TwoThen((KEYWORD, Text("NOT")), (NULL, Null), ts);
    Cons((KEYWORD, Text("UNIQUE")), ts);
  }

  lemma TypeReads(ty: TinyType)
    ensures TypeOf(TypeText(ty)) == Some(ty)
  {
  }

  lemma ColumnStep(name: string, ty: TinyType, ts: seq<Lexeme>)
    requires Ended(ts)
    ensures var all := [(IDENTIFIER, Text(name)), (KEYWORD, Text(TypeText(ty)))] + ts;
            Ended(all) && ParseColumnDef(all) == ParseConstraints(ColumnDef(name, ty, false, false, false), ts)
  {
    TwoThen((IDENTIFIER, Text(name)), (KEYWORD, Text(TypeText(ty))), ts);
    TypeReads(ty);
  }

  lemma ColumnParses(c: ColumnSchema, ts: seq<Lexeme>)
    requires Ended(ts) && ts[0].0 != KEYWORD
    ensures Ended(ColumnLexemes(c) + ts) && ParseColumnDef(ColumnLexemes(c) + ts) == Parsed(DefinitionOf(c), ts)
  {
    ConstraintsParse(c, ts);
    ColumnStep(c.name, c.ty, ConstraintLexemes(c) + ts);
    Append([(IDENTIFIER, Text(c.name)), (KEYWORD, Text(TypeText(c.ty)))], ConstraintLexemes(c), ts);
  }

  /** The columns parse, after those before, up to what follows. */
  predicate ColumnsReadAs(before: seq<ColumnDef>, list: seq<Lexeme>, all: seq<ColumnDef>, ts: seq<Lexeme>) {
    && Ended(list)
    && var first := ParseColumnDef(list);
      first.Parsed? && ParseColumns(before + [first.value], first.rest) == Parsed(all, ts)
  }

  lemma NextColumn(before: seq<ColumnDef>, c: ColumnSchema, list: seq<Lexeme>, all: seq<ColumnDef>, ts: seq<Lexeme>)
    requires ColumnsReadAs(before + [DefinitionOf(c)], list, all, ts)
    ensures ColumnsReadAs(before, ColumnLexemes(c) + ([(COMMA, Text(","))] + list), all, ts)
  {
    Cons((COMMA, Text(",")), list);
    ColumnParses(c, [(COMMA, Text(","))] + list);
  }

  lemma LastColumn(before: seq<ColumnDef>, c: ColumnSchema, ts: seq<Lexeme>)
    requires Ended(ts) && ts[0].0 == RPAREN
    ensures ColumnsReadAs(before, ColumnLexemes(c) + ts, before + [DefinitionOf(c)], ts)
  {
    ColumnParses(c, ts);
  }

  lemma {:induction false} ColumnsParse(before: seq<ColumnDef>, columns: seq<ColumnSchema>, ts: seq<Lexeme>)
    requires Ended(ts) && ts[0].0 == RPAREN && columns != []
    ensures ColumnsReadAs(before, ColumnsLexemes(columns) + ts, before + DefinitionsOf(columns), ts)
    decreases |columns|
  {
    var c, rest := columns[0], columns[1..];
    if rest == [] {
      LastColumn(before, c, ts);
      LastLexemes(columns);
      assert DefinitionsOf(columns) == [DefinitionOf(c)];
    } else {
      ColumnsParse(before + [DefinitionOf(c)], rest, ts);
      NextColumn(before, c, ColumnsLexemes(rest) + ts, before + [DefinitionOf(c)] + DefinitionsOf(rest), ts);
      Append3(ColumnLexemes(c), [(COMMA, Text(","))], ColumnsLexemes(rest), ts);
      DefinitionsCons(columns);
      Append(before, [DefinitionOf(c)], DefinitionsOf(rest));
    }
  }

  lemma LastLexemes(columns: seq<ColumnSchema>)
    requires |columns| == 1
    ensures ColumnsLexemes(columns) == ColumnLexemes(columns[0])
  {
    assert columns[1..] == [];
    assert ColumnLexemes(columns[0]) + [] + [] == ColumnLexemes(columns[0]);
  }

  lemma DefinitionsCons(columns: seq<ColumnSchema>)
    requires columns != []
    ensures DefinitionsOf(columns) == [DefinitionOf(columns[0])] + DefinitionsOf(columns[1..])
  {
  }

  lemma ListStep(list: seq<Lexeme>, all: seq<ColumnDef>)
    requires ColumnsReadAs([], list, all, [(RPAREN, Text(")"))] + END)
    ensures Ended([(LPAREN, Text("("))] + list) && ParseColumnList([(LPAREN, Text("("))] + list) == Parsed(all, END)
  {
    Cons((RPAREN, Text(")")), END);
    Cons((LPAREN, Text("(")), list);
    var first := ParseColumnDef(list);
    assert [] + [first.value] == [first.value];
  }

  lemma ListParses(columns: seq<ColumnSchema>)
    requires columns != []
    ensures var body := ColumnsLexemes(columns) + ([(RPAREN, Text(")"))] + END);
            Ended(body) && Ended([(LPAREN, Text("("))] + body)
            && ParseColumnList([(LPAREN, Text("("))] + body) == Parsed(DefinitionsOf(columns), END)
  {
    var close := [(RPAREN, Text(")"))] + END;
    Cons((RPAREN, Text(")")), END);
    ColumnsParse([], columns, close);
    assert [] + DefinitionsOf(columns) == DefinitionsOf(columns);
    ListStep(ColumnsLexemes(columns) + close, DefinitionsOf(columns));
  }

  /** Parsing the tokens of a printed schema gives back its definitions. */
  lemma TableParses(schema: TableSchema)
    requires schema.columns != []
    ensures Ended(TableLexemes(schema) + END)
    ensures ParseCreateSql(TableLexemes(schema) + END)
         == Parsed(CreateTable(schema.name, DefinitionsOf(schema.columns)), END)
  {
    var body := ColumnsLexemes(schema.columns) + ([(RPAREN, Text(")"))] + END);
    ListParses(schema.columns);
    HeaderParses(schema.name, body);
    Append3(HeaderLexemes(schema.name), ColumnsLexemes(schema.columns), [(RPAREN, Text(")"))], END);
  }

  /** The statement up to its opening parenthesis. */
  lemma HeaderParses(name: string, body: seq<Lexeme>)
    requires Ended(body)
    ensures Ended(HeaderLexemes(name) + body) && Ended([(LPAREN, Text("("))] + body)
    ensures var columns := ParseColumnList([(LPAREN, Text("("))] + body);
            columns.Parsed? ==>
              ParseCreate(HeaderLexemes(name) + body) == Parsed(CreateTable(name, columns.value), columns.rest)
  {
    var list := [(LPAREN, Text("("))] + body;
    Cons((LPAREN, Text("(")), body);
    var named := [(IDENTIFIER, Text(name))] + list;
    NameThenList(name, list);
    TwoThen((KEYWORD, Text("CREATE")), (KEYWORD, Text("TABLE")), named);
    HeaderSplits(name, body);
  }

  lemma NameThenList(name: string, list: seq<Lexeme>)
    requires Ended(list)
    ensures var named := [(IDENTIFIER, Text(name))] + list;
            var columns := ParseColumnList(list);
            && Ended(named)
            && (columns.Parsed? ==> ParseTable(named) == Parsed(CreateTable(name, columns.value), columns.rest))
  {
    Cons((IDENTIFIER, Text(name)), list);
  }

  lemma HeaderSplits(name: string, body: seq<Lexeme>)
    ensures HeaderLexemes(name) + body
         == [(KEYWORD, Text("CREATE")), (KEYWORD, Text("TABLE"))]
            + ([(IDENTIFIER, Text(name))] + ([(LPAREN, Text("("))] + body))
  {
  }

  // ---------------------------------------------------------------- the round trip

  /** The tokens end, for the parser, with an end marker. */
  function ParseCreateText(cs: Chars, sql: string): Option<CreateTable> {
    var read := Lex(cs, sql, 0);
    if read.LexFault? || read.tokens == [] then None
    else
      var create := ParseCreateSql(Lexemes(read.tokens) + END);
      if create.Parsed? then Some(create.value) else None
  }

  /** A definition read from the print is applied to the column that was printed. */
  lemma DefinitionApplies(schema: TableSchema)
    requires WellFormed(schema)
    ensures AppliedAll(DefinitionsOf(schema.columns)) == schema.columns
    ensures forall tables: Tables :: schema.name !in tables ==>
              Creatable(tables, CreateTable(schema.name, DefinitionsOf(schema.columns)))
  {
    var defs := DefinitionsOf(schema.columns);
    assert forall i :: 0 <= i < |defs| ==>
      defs[i].name == schema.columns[i].name && defs[i].primaryKey == schema.columns[i].primaryKey;
  }

  /** Reading back what `.schema` prints for a table gives a statement that creates the same schema. */
  lemma PrintedSchemaReadsBack(cs: Chars, schema: TableSchema)
    requires Capitals(cs) && WellFormed(schema) && IsName(cs, schema.name)
    requires schema.columns != [] && forall i :: 0 <= i < |schema.columns| ==> IsName(cs, schema.columns[i].name)
    ensures var statement := ParseCreateText(cs, TableText(schema));
            && statement.Some? && statement.value.name == schema.name
            && AppliedAll(statement.value.columns) == schema.columns
            && forall tables: Tables :: schema.name !in tables ==> Creatable(tables, statement.value)
  {
    TableReads(cs, schema);
    ReadIsLex(cs, TableText(schema), 0);
    TableParses(schema);
    DefinitionApplies(schema);
    var tokens := Lex(cs, TableText(schema), 0).tokens;
    assert Lexemes(tokens) == TableLexemes(schema);
    assert |Lexemes(tokens)| > 0;
  }

  // ---------------------------------------------------------------- schemas that come from SQL text

  /** Every name among the tokens is one the tokenizer reads as a name. */
  ghost predicate NamesOnly(cs: Chars, ts: seq<Lexeme>) {
    forall t :: t in ts && t.0 == IDENTIFIER ==> t.1.Text? && IsName(cs, t.1.s)
  }

  lemma HeadName(cs: Chars, s: string)
    requires Plain(cs) && s != [] && Head(cs, s).Emit? && Head(cs, s).kind == IDENTIFIER
    ensures Head(cs, s).value.Text? && IsName(cs, Head(cs, s).value.s)
  {
    assert WordStart(cs, s[0]) by {
      assert cs.isDigit(s[0]) ==> NumberStep(cs, s).Emit? ==> NumberStep(cs, s).kind == NUMBER;
    }
    RunIsLongest(s[1..], WordPart(cs));
    var n := 1 + Run(s[1..], WordPart(cs));
    assert forall i :: 0 < i < n ==> s[..n][i] == s[1..][i - 1];
  }

  lemma {:induction false} ReadNames(cs: Chars, s: string)
    requires Plain(cs) && Read(cs, s).Some?
    ensures NamesOnly(cs, Read(cs, s).value)
    decreases |s|
  {
    if s != [] {
      match Head(cs, s)
      case Skip => ReadNames(cs, s[1..]);
      case Emit(kind, value, size) =>
        ReadNames(cs, s[size..]);
        if kind == IDENTIFIER {
          HeadName(cs, s);
        }
    }
  }

  /** Tokens of a text satisfy what the minimality of printed predicates assumes of names. */
  lemma LexedNamesAreProper(cs: Chars, sql: string, at: nat)
    requires Plain(cs) && Lex(cs, sql, at).Tokens?
    ensures ProperNames(Lexemes(Lex(cs, sql, at).tokens))
  {
    ReadIsLex(cs, sql, at);
    ReadNames(cs, sql);
    var lexemes := Lexemes(Lex(cs, sql, at).tokens);
    forall i | 0 <= i < |lexemes| ensures lexemes[i] != (IDENTIFIER, Text("*")) {
      assert lexemes[i] in lexemes;
      assert !IsWordText(cs, "*");
    }
  }

  lemma NamesOnlyRest(cs: Chars, ts: seq<Lexeme>)
    requires ts != [] && NamesOnly(cs, ts)
    ensures NamesOnly(cs, ts[1..])
  {
  }

  lemma {:induction false} ConstraintsKeepName(cs: Chars, def: ColumnDef, ts: seq<Lexeme>)
    requires Ended(ts) && NamesOnly(cs, ts) && ParseConstraints(def, ts).Parsed?
    ensures var p := ParseConstraints(def, ts); p.value.name == def.name && NamesOnly(cs, p.rest)
    decreases |ts|
  {
    if IsKeyword(ts, "PRIMARY") {
      NamesOnlyRest(cs, ts);
      NamesOnlyRest(cs, ts[1..]);
      ConstraintsKeepName(cs, def.(primaryKey := true), ts[1..][1..]);
    } else if IsKeyword(ts, "NOT") {
      NamesOnlyRest(cs, ts);
      NamesOnlyRest(cs, ts[1..]);
      ConstraintsKeepName(cs, def.(notNull := true), ts[1..][1..]);
    } else if IsKeyword(ts, "UNIQUE") {
      NamesOnlyRest(cs, ts);
      ConstraintsKeepName(cs, def.(unique := true), ts[1..]);
    }
  }

  lemma FirstName(cs: Chars, ts: seq<Lexeme>)
    requires Ended(ts) && NamesOnly(cs, ts) && ParseName(ts).Parsed?
    ensures IsName(cs, ParseName(ts).value) && NamesOnly(cs, ParseName(ts).rest)
  {
    assert ts[0] in ts;
  }

  lemma ColumnKeepsName(cs: Chars, ts: seq<Lexeme>)
    requires Ended(ts) && NamesOnly(cs, ts) && ParseColumnDef(ts).Parsed?
    ensures IsName(cs, ParseColumnDef(ts).value.name) && NamesOnly(cs, ParseColumnDef(ts).rest)
  {
    FirstName(cs, ts);
    var name := ParseName(ts);
    NamesOnlyRest(cs, name.rest);
    var ty := ParseType(name.rest);
    ConstraintsKeepName(cs, ColumnDef(name.value, ty.value, false, false, false), ty.rest);
  }

  ghost predicate Named(cs: Chars, defs: seq<ColumnDef>) {
    defs != [] && forall i :: 0 <= i < |defs| ==> IsName(cs, defs[i].name)
  }

  lemma NamedSnoc(cs: Chars, defs: seq<ColumnDef>, def: ColumnDef)
    requires (defs == [] || Named(cs, defs)) && IsName(cs, def.name)
    ensures Named(cs, defs + [def])
  {
  }

  lemma {:induction false} ColumnsKeepNames(cs: Chars, columns: seq<ColumnDef>, ts: seq<Lexeme>)
    requires Ended(ts) && NamesOnly(cs, ts) && Named(cs, columns) && ParseColumns(columns, ts).Parsed?
    ensures Named(cs, ParseColumns(columns, ts).value)
    decreases |ts|
  {
    if ts[0].0 == COMMA {
      NamesOnlyRest(cs, ts);
      ColumnKeepsName(cs, ts[1..]);
      var column := ParseColumnDef(ts[1..]);
      NamedSnoc(cs, columns, column.value);
      ColumnsKeepNames(cs, columns + [column.value], column.rest);
    }
  }

  lemma ListColumns(ts: seq<Lexeme>)
    requires Ended(ts) && ParseColumnList(ts).Parsed?
    ensures |ts| > 1 && Ended(ts[1..])
    ensures var first := ParseColumnDef(ts[1..]);
      first.Parsed? &&
      var columns := ParseColumns([first.value], first.rest);
      columns.Parsed? && ParseColumnList(ts).value == columns.value
  {
  }

  lemma ListKeepsNames(cs: Chars, ts: seq<Lexeme>)
    requires Ended(ts) && NamesOnly(cs, ts) && ParseColumnList(ts).Parsed?
    ensures Named(cs, ParseColumnList(ts).value)
  {
    NamesOnlyRest(cs, ts);
    ListColumns(ts);
    ColumnKeepsName(cs, ts[1..]);
    var first := ParseColumnDef(ts[1..]);
    ColumnsKeepNames(cs, [first.value], first.rest);
  }

  lemma CreateKeepsNames(cs: Chars, ts: seq<Lexeme>)
    requires Ended(ts) && NamesOnly(cs, ts) && ParseCreate(ts).Parsed?
    ensures IsName(cs, ParseCreate(ts).value.name) && Named(cs, ParseCreate(ts).value.columns)
  {
    NamesOnlyRest(cs, ts);
    NamesOnlyRest(cs, ts[1..]);
    FirstName(cs, ts[1..][1..]);
    ListKeepsNames(cs, ParseName(ts[1..][1..]).rest);
  }

  lemma TextKeepsNames(cs: Chars, sql: string)
    requires Plain(cs) && ParseCreateText(cs, sql).Some?
    ensures var statement := ParseCreateText(cs, sql).value; IsName(cs, statement.name) && Named(cs, statement.columns)
  {
    var tokens := Lexemes(Lex(cs, sql, 0).tokens);
    ReadIsLex(cs, sql, 0);
    ReadNames(cs, sql);
    assert forall t :: t in tokens + END ==> t in tokens || t == END[0];
    CreateKeepsNames(cs, tokens + END);
  }

  /** For every schema that CREATE TABLE builds from SQL text, printing it, tokenizing and parsing the
      print, and applying the statement where no such table exists gives the same schema. */
  lemma SchemaRoundTrip(cs: Chars, tables: Tables, sql: string, others: Tables)
    requires Capitals(cs) && ParseCreateText(cs, sql).Some? && Creatable(tables, ParseCreateText(cs, sql).value)
    ensures var created := ParseCreateText(cs, sql).value;
            var schema := TableSchema(created.name, AppliedAll(created.columns));
            var again := ParseCreateText(cs, TableText(schema));
            && again.Some?
            && TableSchema(again.value.name, AppliedAll(again.value.columns)) == schema
            && (schema.name !in others ==> Creatable(others, again.value))
  {
    var created := ParseCreateText(cs, sql).value;
    var schema := TableSchema(created.name, AppliedAll(created.columns));
    TextKeepsNames(cs, sql);
    assert forall i :: 0 <= i < |schema.columns| ==> schema.columns[i] == Applied(created.columns[i]);
    PrintedSchemaReadsBack(cs, schema);
  }
}
