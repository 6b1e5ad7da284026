/** Expressions and their evaluation on a row. */
module Expressions {
  import opened Values
  import opened Catalog
  import opened Storage

  datatype Operator = AND | OR | EQ | NE | LT | LE | GT | GE | OTHER(text: string)

  datatype Expr =
    | Identifier(name: string)
    | ColumnRef(qualifier: Option<string>, column: string)
    | Literal(value: Value)
    | Binary(left: Expr, op: Operator, right: Expr)
    | Function(name: string, arguments: seq<Expr>)

  /** Truth value of any value, as Python's `bool`. */
  predicate Truthy(v: Value) {
    match v
    case Null => false
    case Bool(b) => b
    case Int(i) => i != 0
    case Float(f) => f != 0.0
    case Text(s) => s != []
  }

  function QualifiedName(qualifier: Option<string>, column: string): string {
    (if qualifier.Some? then qualifier.value else "None") + "." + column
  }

  function Evaluate(e: Expr, row: Row): Outcome<Value>
    decreases e
  {
    match e
    case Literal(v) => Ok(v)
    case Identifier(name) => if name in row then Ok(row[name]) else Raised(ConstraintFault)
    case ColumnRef(q, c) =>
      if QualifiedName(q, c) in row then Ok(row[QualifiedName(q, c)]) else Raised(ConstraintFault)
    case Binary(l, AND, r) =>
      var left := Evaluate(l, row);
      if left.Raised? then left
      else if !Truthy(left.value) then Ok(Bool(false))
      else var right := Evaluate(r, row); if right.Raised? then right else Ok(Bool(Truthy(right.value)))
    case Binary(l, OR, r) =>
      var left := Evaluate(l, row);
      if left.Raised? then left
      else if Truthy(left.value) then Ok(Bool(true))
      else var right := Evaluate(r, row); if right.Raised? then right else Ok(Bool(Truthy(right.value)))
    case Binary(l, op, r) =>
      var left := Evaluate(l, row);
      if left.Raised? then left
      else var right := Evaluate(r, row); if right.Raised? then right else Compare(op, left.value, right.value)
    case Function(_, _) => Raised(ExecutionFault)
  }

  /** Comparison of two values: equality is total (NULL equals NULL), order raises across kinds. */
  function Compare(op: Operator, a: Value, b: Value): Outcome<Value> {
    match op
    case EQ => Ok(Bool(Same(a, b)))
    case NE => Ok(Bool(!Same(a, b)))
    case LT => if Comparable(a, b) then Ok(Bool(Less(a, b))) else Raised(ExecutionFault)
    case LE => if Comparable(a, b) then Ok(Bool(!Less(b, a))) else Raised(ExecutionFault)
    case GT => if Comparable(a, b) then Ok(Bool(Less(b, a))) else Raised(ExecutionFault)
    case GE => if Comparable(a, b) then Ok(Bool(!Less(a, b))) else Raised(ExecutionFault)
    case _ => Raised(ExecutionFault)
  }

  /** A missing WHERE accepts every row. */
  function EvaluatePredicate(where: Option<Expr>, row: Row): Outcome<bool> {
    if where.None? then Ok(true)
    else
      var v := Evaluate(where.value, row);
      if v.Ok? then Ok(Truthy(v.value)) else Raised(v.error)
  }

  /** The row is accepted by the predicate. */
  predicate Accepts(where: Option<Expr>, row: Row) {
    EvaluatePredicate(where, row) == Ok(true)
  }

  // ---------------------------------------------------------------- what a WHERE means

  /** A missing WHERE accepts every row. A literal is accepted when it is true, not zero or not empty;
      a name stands for the value of its column, and raises without one; an aggregate raises. */
  lemma LeavesMean(v: Value, name: string, qualifier: string, arguments: seq<Expr>, row: Row)
    ensures Accepts(None, row)
    ensures Accepts(Some(Literal(v)), row) <==>
      v == Bool(true) || (v.Int? && v.i != 0) || (v.Float? && v.f != 0.0) || (v.Text? && |v.s| > 0)
    ensures Evaluate(Literal(v), row) == Ok(v)
    ensures Evaluate(Identifier(name), row).Ok? <==> name in row
    ensures name in row ==> Evaluate(Identifier(name), row) == Ok(row[name])
    ensures var column := qualifier + "." + name;
      && (Evaluate(ColumnRef(Some(qualifier), name), row).Ok? <==> column in row)
      && (column in row ==> Evaluate(ColumnRef(Some(qualifier), name), row) == Ok(row[column]))
    ensures Evaluate(Function(name, arguments), row) == Raised(ExecutionFault)
  {
  }

  /** OR accepts a row when its left side does, or else when its right side does; the right side counts
      and can raise only if the left one is not accepted. */
  lemma OrMeans(l: Expr, r: Expr, row: Row)
    ensures var e, left, right := Evaluate(Binary(l, OR, r), row), Evaluate(l, row), Evaluate(r, row);
      && (left.Ok? && right.Ok? ==>
           (Accepts(Some(Binary(l, OR, r)), row) <==> Accepts(Some(l), row) || Accepts(Some(r), row)))
      && (e.Raised? <==> left.Raised? || (!Accepts(Some(l), row) && right.Raised?))
      && (e.Raised? ==> e == if left.Raised? then left else right)
      && (e.Ok? ==> e.value.Bool? && (e.value.b <==> Accepts(Some(l), row) || Accepts(Some(r), row)))
  {
  }

  /** AND accepts a row when both sides do; the right side counts and can raise only if the left one
      is accepted. */
  lemma AndMeans(l: Expr, r: Expr, row: Row)
    ensures var e, left, right := Evaluate(Binary(l, AND, r), row), Evaluate(l, row), Evaluate(r, row);
      && (left.Ok? && right.Ok? ==>
           (Accepts(Some(Binary(l, AND, r)), row) <==> Accepts(Some(l), row) && Accepts(Some(r), row)))
      && (e.Raised? <==> left.Raised? || (Accepts(Some(l), row) && right.Raised?))
      && (e.Raised? ==> e == if left.Raised? then left else right)
      && (e.Ok? ==> e.value.Bool? && (e.value.b <==> Accepts(Some(l), row) && Accepts(Some(r), row)))
  {
  }

  predicate IsOrder(op: Operator) {
    op.LT? || op.LE? || op.GT? || op.GE?
  }

  predicate IsComparison(op: Operator) {
    op.EQ? || op.NE? || IsOrder(op)
  }

  /** When a comparison raises: a side does, the left one first, or an order is asked of two values
      that are neither both numbers nor both texts. */
  lemma ComparisonRaises(l: Expr, op: Operator, r: Expr, row: Row)
    requires IsComparison(op)
    ensures var e, left, right := Evaluate(Binary(l, op, r), row), Evaluate(l, row), Evaluate(r, row);
      && (left.Raised? ==> e == left)
      && (left.Ok? && right.Raised? ==> e == right)
      && (left.Ok? && right.Ok? ==>
           (e.Raised? <==>
             && IsOrder(op)
             && !(IsNumeric(left.value) && IsNumeric(right.value)) && !(left.value.Text? && right.value.Text?)))
      && (left.Ok? && right.Ok? && e.Raised? ==> e.error == ExecutionFault)
      && (e.Ok? ==> e.value.Bool?)
  {
  }

  /** What the comparisons say of the values of their sides. Equality joins all numbers, and otherwise
      only a value with itself, NULL included; the orders are those of numbers and of texts. */
  lemma ComparisonMeans(l: Expr, r: Expr, row: Row)
    requires Evaluate(l, row).Ok? && Evaluate(r, row).Ok?
    ensures var a, b := Evaluate(l, row).value, Evaluate(r, row).value;
      var equal := if IsNumeric(a) && IsNumeric(b) then Number(a) == Number(b) else a == b;
      var comparable := (IsNumeric(a) && IsNumeric(b)) || (a.Text? && b.Text?);
      && (Accepts(Some(Binary(l, EQ, r)), row) <==> equal)
      && (Accepts(Some(Binary(l, NE, r)), row) <==> !equal)
      && (Accepts(Some(Binary(l, LT, r)), row) <==> Smaller(a, b))
      && (Accepts(Some(Binary(l, GT, r)), row) <==> Smaller(b, a))
      && (Accepts(Some(Binary(l, LE, r)), row) <==> comparable && (Smaller(a, b) || equal))
      && (Accepts(Some(Binary(l, GE, r)), row) <==> comparable && (Smaller(b, a) || equal))
  {
    var a, b := Evaluate(l, row).value, Evaluate(r, row).value;
    AcceptsComparison(l, EQ, r, row);
    AcceptsComparison(l, NE, r, row);
    AcceptsComparison(l, LT, r, row);
    AcceptsComparison(l, GT, r, row);
    AcceptsComparison(l, LE, r, row);
    AcceptsComparison(l, GE, r, row);
    OrdersMean(a, b);
  }

  lemma AcceptsComparison(l: Expr, op: Operator, r: Expr, row: Row)
    requires Evaluate(l, row).Ok? && Evaluate(r, row).Ok? && IsComparison(op)
    ensures Accepts(Some(Binary(l, op, r)), row) <==>
      Compare(op, Evaluate(l, row).value, Evaluate(r, row).value) == Ok(Bool(true))
  {
  }

  lemma OrdersMean(a: Value, b: Value)
    ensures Compare(LT, a, b) == Ok(Bool(true)) <==> Smaller(a, b)
    ensures Compare(GT, a, b) == Ok(Bool(true)) <==> Smaller(b, a)
    ensures Compare(LE, a, b) == Ok(Bool(true)) <==> Comparable(a, b) && (Smaller(a, b) || Same(a, b))
    ensures Compare(GE, a, b) == Ok(Bool(true)) <==> Comparable(a, b) && (Smaller(b, a) || Same(a, b))
  {
    if Comparable(a, b) {
      LessMeans(a, b);
      LessMeans(b, a);
      LessTrichotomy(a, b);
    }
  }
}
