/** Choosing an index lookup for a WHERE clause. */
module Planner {
  import opened Values
  import opened BTreeNodes
  import opened Catalog
  import opened Storage
  import opened Expressions
  import opened BTreeIndex

  function ConstraintIndexName(table: string, column: string): string {
    table + "_" + column
  }

  function ReverseOperator(op: Operator): Operator {
    match op
    case LT => GT
    case LE => GE
    case GT => LT
    case GE => LE
    case _ => op
  }

  predicate IsIndexedColumn(schema: TableSchema, column: string) {
    exists i :: 0 <= i < |schema.columns| && schema.columns[i].name == column && Indexed(schema.columns[i])
  }

  function LookupFor(op: Operator, v: Value): Option<IndexLookup> {
    match op
    case EQ => Some(Equal(v))
    case GT => Some(Range(Some(v), None, false, true))
    case GE => Some(Range(Some(v), None, true, true))
    case LT => Some(Range(None, Some(v), true, false))
    case LE => Some(Range(None, Some(v), true, true))
    case _ => None
  }

  datatype Candidate = Candidate(column: string, lookup: IndexLookup)

  function ComparisonCandidate(schema: TableSchema, e: Expr): Option<Candidate>
    requires e.Binary?
  {
    if e.left.Identifier? && e.right.Literal? then CandidateFor(schema, e.left.name, e.op, e.right.value)
    else if e.left.Literal? && e.right.Identifier? then
      CandidateFor(schema, e.right.name, ReverseOperator(e.op), e.left.value)
    else None
  }

  function CandidateFor(schema: TableSchema, column: string, op: Operator, v: Value): Option<Candidate> {
    if !IsIndexedColumn(schema, column) || v == Null then None
    else
      var lookup := LookupFor(op, v);
      if lookup.Some? then Some(Candidate(column, lookup.value)) else None
  }

  /** The first usable comparison on the AND spine, left to right. */
  function FindIndexCandidate(schema: TableSchema, e: Expr): Option<Candidate> {
    if !e.Binary? then None
    else if e.op == AND then
      var left := FindIndexCandidate(schema, e.left);
      if left.Some? then left else FindIndexCandidate(schema, e.right)
    else if e.op == OR then None
    else ComparisonCandidate(schema, e)
  }

  function PlanFor(schema: TableSchema, where: Option<Expr>): Option<Candidate> {
    if where.None? then None else FindIndexCandidate(schema, where.value)
  }

  /** A candidate names an indexed column and bounds it by non-NULL literals. */
  lemma {:induction false} CandidateIsIndexed(schema: TableSchema, e: Expr)
    requires FindIndexCandidate(schema, e).Some?
    ensures var c := FindIndexCandidate(schema, e).value;
      && IsIndexedColumn(schema, c.column)
      && |Bounds(c.lookup)| == 1 && Bounds(c.lookup)[0] != Null
  {
    if e.op == AND {
      if FindIndexCandidate(schema, e.left).Some? {
        CandidateIsIndexed(schema, e.left);
      } else {
        CandidateIsIndexed(schema, e.right);
      }
    }
  }

  /** One comparison, the literal on either side: when it holds of a row, the row's value is
      selected by the lookup. */
  lemma ComparisonImplied(schema: TableSchema, e: Expr, row: Row)
    requires e.Binary? && e.op != AND && e.op != OR && ComparisonCandidate(schema, e).Some?
    requires Evaluate(e, row).Ok? && Truthy(Evaluate(e, row).value)
    ensures var c := ComparisonCandidate(schema, e).value;
      c.column in row && row[c.column] != Null && Selects(c.lookup, row[c.column])
  {
    var c := ComparisonCandidate(schema, e).value;
    var v := Bounds(c.lookup)[0];
    LessTrichotomy(row[c.column], v);
  }

  /** The chosen lookup is implied by the whole predicate: every accepted row is found by it. */
  lemma {:induction false} LookupImplied(schema: TableSchema, e: Expr, row: Row)
    requires FindIndexCandidate(schema, e).Some?
    requires Evaluate(e, row).Ok? && Truthy(Evaluate(e, row).value)
    ensures var c := FindIndexCandidate(schema, e).value;
      c.column in row && row[c.column] != Null && Selects(c.lookup, row[c.column])
  {
    if e.op == AND {
      if FindIndexCandidate(schema, e.left).Some? {
        LookupImplied(schema, e.left, row);
      } else {
        LookupImplied(schema, e.right, row);
      }
    } else {
      ComparisonImplied(schema, e, row);
    }
  }

  // ---------------------------------------------------------------- when an index is used

  /** The conditions that AND joins, left to right. */
  function Conjuncts(e: Expr): (r: seq<Expr>)
    ensures r != []
  {
    if e.Binary? && e.op == AND then Conjuncts(e.left) + Conjuncts(e.right) else [e]
  }

  /** An equality or order of a key or UNIQUE column and a literal other than NULL, on either side. */
  predicate Usable(schema: TableSchema, e: Expr) {
    && e.Binary? && (e.op.EQ? || IsOrder(e.op))
    && ((e.left.Identifier? && e.right.Literal? && e.right.value != Null && IsIndexedColumn(schema, e.left.name))
        || (e.left.Literal? && e.right.Identifier? && e.left.value != Null && IsIndexedColumn(schema, e.right.name)))
  }

  lemma NotUsable(schema: TableSchema, e: Expr)
    requires !(e.Binary? && e.op == AND)
    ensures FindIndexCandidate(schema, e).Some? <==> Usable(schema, e)
  {
  }

  /** An index is used exactly when some condition joined by AND at the top can use one, and then for the
      first such condition: `i` is its number, or that of all conditions if there is none. */
  lemma {:induction false} CandidateIff(schema: TableSchema, e: Expr) returns (i: nat)
    ensures i <= |Conjuncts(e)| && forall j :: 0 <= j < i ==> !Usable(schema, Conjuncts(e)[j])
    ensures i < |Conjuncts(e)| ==>
      && Usable(schema, Conjuncts(e)[i])
      && FindIndexCandidate(schema, e) == FindIndexCandidate(schema, Conjuncts(e)[i])
    ensures FindIndexCandidate(schema, e).Some? <==> i < |Conjuncts(e)|
  {
    if e.Binary? && e.op == AND {
      i := CandidateIff(schema, e.left);
      if i == |Conjuncts(e.left)| {
        var k := CandidateIff(schema, e.right);
        i := i + k;
      }
    } else {
      NotUsable(schema, e);
      i := if Usable(schema, e) then 0 else 1;
    }
  }

  lemma LookupMeans(op: Operator, v: Value, key: Value)
    requires (op.EQ? || IsOrder(op)) && Comparable(key, v)
    ensures LookupFor(op, v).Some?
    ensures Selects(LookupFor(op, v).value, key) <==> Compare(op, key, v) == Ok(Bool(true))
  {
    LessTrichotomy(key, v);
  }

  lemma Reversed(op: Operator, a: Value, b: Value)
    requires (op.EQ? || IsOrder(op)) && Comparable(a, b)
    ensures Compare(op, a, b) == Compare(ReverseOperator(op), b, a)
  {
  }

  /** On the keys that can be compared with its literal a lookup selects exactly those of which the
      comparison holds. */
  lemma LookupIsComparison(schema: TableSchema, e: Expr, row: Row)
    requires Usable(schema, e)
    ensures FindIndexCandidate(schema, e).Some?
    ensures var c := FindIndexCandidate(schema, e).value;
      |Bounds(c.lookup)| == 1 &&
      (c.column in row && Comparable(row[c.column], Bounds(c.lookup)[0]) ==>
         (Selects(c.lookup, row[c.column]) <==> Accepts(Some(e), row)))
  {
    var c := FindIndexCandidate(schema, e).value;
    if c.column in row && Comparable(row[c.column], Bounds(c.lookup)[0]) {
      AcceptsComparison(e.left, e.op, e.right, row);
      if e.left.Identifier? {
        LookupMeans(e.op, e.right.value, row[c.column]);
      } else {
        LookupMeans(ReverseOperator(e.op), e.left.value, row[c.column]);
        Reversed(e.op, e.left.value, row[c.column]);
      }
    }
  }
}
