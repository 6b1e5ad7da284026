/** Column types, table schemas and the catalog of tables. */
module Catalog {
  import opened Values

  datatype Outcome<+T> = Ok(value: T) | Raised(error: Error)

  /** What the engine can raise, by class of error. */
  datatype Error =
    | TypeFault | StorageFault | ConstraintFault | ExecutionFault | ParseFault | TransactionFault | ConcurrencyFault

  datatype TinyType = INT | FLOAT | TEXT | BOOL

  datatype ColumnSchema = ColumnSchema(name: string, ty: TinyType, primaryKey: bool, notNull: bool, unique: bool)

  datatype TableSchema = TableSchema(name: string, columns: seq<ColumnSchema>)

  type Tables = map<string, TableSchema>

  /** A column definition as parsed. */
  datatype ColumnDef = ColumnDef(name: string, ty: TinyType, primaryKey: bool, notNull: bool, unique: bool)

  datatype CreateTable = CreateTable(name: string, columns: seq<ColumnDef>)

  /** A value of the column's type, or NULL. */
  predicate Typed(ty: TinyType, v: Value) {
    match ty
    case INT => v.Int? || v.Null?
    case FLOAT => v.Float? || v.Null?
    case TEXT => v.Text? || v.Null?
    case BOOL => v.Bool? || v.Null?
  }

  /** A FLOAT column also takes an integer and stores it as a float. */
  function Validate(ty: TinyType, v: Value): (r: Outcome<Value>)
    ensures r.Ok? ==> Typed(ty, r.value) && Same(r.value, v)
    ensures Typed(ty, v) ==> r == Ok(v)
    ensures r.Ok? <==>
      || v.Null? || (ty.INT? && v.Int?) || (ty.FLOAT? && (v.Float? || v.Int?))
      || (ty.TEXT? && v.Text?) || (ty.BOOL? && v.Bool?)
    ensures r.Raised? ==> r.error == ConstraintFault
  {
    match (ty, v)
    case (_, Null) => Ok(Null)
    case (INT, Int(_)) => Ok(v)
    case (FLOAT, Float(_)) => Ok(v)
    case (FLOAT, Int(i)) => Ok(Float(i as real))
    case (TEXT, Text(_)) => Ok(v)
    case (BOOL, Bool(_)) => Ok(v)
    case (_, _) => Raised(ConstraintFault)
  }

  predicate Indexed(c: ColumnSchema) {
    c.primaryKey || c.unique
  }

  ghost predicate DistinctColumns(columns: seq<ColumnSchema>) {
    forall i, j :: 0 <= i < j < |columns| ==> columns[i].name != columns[j].name
  }

  ghost predicate OnePrimaryKey(columns: seq<ColumnSchema>) {
    forall i, j :: 0 <= i < j < |columns| ==> !(columns[i].primaryKey && columns[j].primaryKey)
  }

  /** What `CREATE TABLE` guarantees of a schema. */
  ghost predicate WellFormed(s: TableSchema) {
    && DistinctColumns(s.columns)
    && OnePrimaryKey(s.columns)
    && forall i :: 0 <= i < |s.columns| && s.columns[i].primaryKey ==> s.columns[i].notNull && s.columns[i].unique
  }

  function Applied(d: ColumnDef): ColumnSchema {
    ColumnSchema(d.name, d.ty, d.primaryKey, d.notNull || d.primaryKey, d.unique || d.primaryKey)
  }

  function AppliedAll(ds: seq<ColumnDef>): (r: seq<ColumnSchema>) {
    seq(|ds|, i requires 0 <= i < |ds| => Applied(ds[i]))
  }

  /** The statements that `CREATE TABLE` accepts on these tables. */
  ghost predicate Creatable(tables: Tables, statement: CreateTable) {
    && statement.name !in tables
    && (forall i, j :: 0 <= i < j < |statement.columns| ==> statement.columns[i].name != statement.columns[j].name)
    && (forall i, j :: 0 <= i < j < |statement.columns| ==>
         !(statement.columns[i].primaryKey && statement.columns[j].primaryKey))
  }

  method ApplyCreateTable(tables: Tables, statement: CreateTable) returns (r: Outcome<TableSchema>, newTables: Tables)
    ensures r.Ok? <==> Creatable(tables, statement)
    ensures r.Ok? ==> r.value == TableSchema(statement.name, AppliedAll(statement.columns)) && WellFormed(r.value)
    ensures r.Ok? ==> newTables == tables[statement.name := r.value]
    ensures r.Raised? ==> r.error == ConstraintFault && newTables == tables
  {
    newTables := tables;
    if statement.name in tables {
      return Raised(ConstraintFault), newTables;
    }
    var seen: set<string> := {};
    var primaryKeys := 0;
    var columns: seq<ColumnSchema> := [];
    ghost var keyAt := 0;
    for i := 0 to |statement.columns|
      invariant |columns| == i && forall j :: 0 <= j < i ==> columns[j] == Applied(statement.columns[j])
      invariant forall j :: 0 <= j < i ==> statement.columns[j].name in seen
      invariant forall n :: n in seen ==> exists j :: 0 <= j < i && statement.columns[j].name == n
      invariant DistinctColumns(columns)
      invariant primaryKeys <= 1
      invariant primaryKeys == 0 ==> forall j :: 0 <= j < i ==> !statement.columns[j].primaryKey
      invariant primaryKeys == 1 ==> 0 <= keyAt < i && statement.columns[keyAt].primaryKey
      invariant primaryKeys == 1 ==> forall j :: 0 <= j < i && j != keyAt ==> !statement.columns[j].primaryKey
    {
      var column := statement.columns[i];
      if column.name in seen {
        return Raised(ConstraintFault), newTables;
      }
      seen := seen + {column.name};
      if column.primaryKey {
        primaryKeys := primaryKeys + 1;
      }
      if primaryKeys > 1 {
        assert statement.columns[keyAt].primaryKey && statement.columns[i].primaryKey;
        return Raised(ConstraintFault), newTables;
      }
      if column.primaryKey {
        keyAt := i;
      }
      columns := columns + [Applied(column)];
    }
    assert columns == AppliedAll(statement.columns);
    assert forall j :: 0 <= j < |columns| ==> columns[j].name == statement.columns[j].name;
    var schema := TableSchema(statement.name, columns);
    newTables := tables[statement.name := schema];
    r := Ok(schema);
  }
}
