/** What holds between any two statements of a script, whichever of them fail: when every index stays
    exact, what distinct index names add, and what a colliding name takes away. */
module Runs {
  import opened Values
  import opened BTreeNodes
  import opened Catalog
  import opened Storage
  import opened BTreeIndex
  import opened Expressions
  import opened Planner
  import opened Table
  import opened Agreement
  import opened Consistency
  import opened Plans
  import opened Statements
  import opened Executor

  // ---------------------------------------------------------------- when every moment is exact

  ghost predicate Harmed(step: Step) {
    step.result.Ok? && Harms(step.statement, step.was)
  }

  /** The indexes are exact at every moment if and only if no CREATE of the run took the name of an
      index that had entries. */
  lemma {:induction false} MomentsExactIff(limits: Limits, start: Moment, steps: seq<Step>, k: nat)
    requires Ran(limits, start, steps) && IsExact(start) && k <= |steps|
    ensures (forall i: nat :: i <= k ==> IsExact(Before(start, steps, i)))
       <==> (forall i :: 0 <= i < k ==> !Harmed(steps[i]))
  {
    if k > 0 {
      MomentsExactIff(limits, start, steps, k - 1);
      if forall i: nat :: i <= k - 1 ==> IsExact(Before(start, steps, i)) {
        ExactStep(limits, start, steps, k - 1);
      }
    }
  }

  lemma ExactStep(limits: Limits, start: Moment, steps: seq<Step>, i: nat)
    requires Ran(limits, start, steps) && i < |steps| && IsExact(Before(start, steps, i))
    ensures IsExact(Before(start, steps, i + 1)) <==> !Harmed(steps[i])
  {
    assert StepAt(limits, start, steps, i);
  }

  // ---------------------------------------------------------------- failing statements

  /** The statements of a run that succeed. */
  function Successes(steps: seq<Step>): seq<Step> {
    if steps == [] then []
    else
      var last := steps[|steps| - 1];
      Successes(steps[..|steps| - 1]) + (if last.result.Ok? then [last] else [])
  }

  /** They alone are a run too, from the same start to the same end. */
  lemma {:induction false} SuccessesAlone(limits: Limits, start: Moment, steps: seq<Step>)
    requires Ran(limits, start, steps)
    ensures Ran(limits, start, Successes(steps))
    ensures Before(start, Successes(steps), |Successes(steps)|) == Before(start, steps, |steps|)
    decreases |steps|
  {
    if steps != [] {
      var n := |steps| - 1;
      var good := Successes(steps[..n]);
      EarlierRan(limits, start, steps, n);
      SuccessesAlone(limits, start, steps[..n]);
      var step := StepOf(limits, start, steps, n);
      assert Before(start, steps[..n], n) == Before(start, steps, n);
      if step.result.Ok? {
        SoundAfter(limits, start, steps, n);
        RanStep(limits, start, good, step);
      } else {
        assert good + [] == good;
      }
    }
  }

  lemma SoundAfter(limits: Limits, start: Moment, steps: seq<Step>, k: nat)
    requires Ran(limits, start, steps) && k < |steps|
    ensures IsSound(steps[k].now)
  {
    assert StepAt(limits, start, steps, k);
  }

  lemma EarlierRan(limits: Limits, start: Moment, steps: seq<Step>, n: nat)
    requires Ran(limits, start, steps) && n <= |steps|
    ensures Ran(limits, start, steps[..n])
  {
    forall i | 0 <= i < n ensures StepAt(limits, start, steps[..n], i) {
      SameStep(limits, start, steps, steps[..n], i);
    }
  }

  lemma StepOf(limits: Limits, start: Moment, steps: seq<Step>, k: nat) returns (step: Step)
    requires Ran(limits, start, steps) && k < |steps|
    ensures step == steps[k] && step.was == Before(start, steps, k) && step.now == Before(start, steps, k + 1)
    ensures Took(limits, step)
  {
    step := steps[k];
    assert StepAt(limits, start, steps, k);
  }

  // ---------------------------------------------------------------- distinct index names

  /** No two tables that start with the run or are created in it share an index name. */
  ghost predicate AllHarmless(catalog: Tables, steps: seq<Step>) {
    && (forall i, j :: 0 <= i < |steps| && 0 <= j < |steps| ==> HarmlessPair(steps, i, j))
    && (forall i :: 0 <= i < |steps| ==> HarmlessAt(catalog, steps, i))
  }

  ghost predicate HarmlessPair(steps: seq<Step>, i: nat, j: nat)
    requires i < |steps| && j < |steps|
  {
    var a, b := steps[i].statement, steps[j].statement;
    a.Create? && b.Create? && a.definition.name != b.definition.name ==>
      IndexNames(SchemaOf(a.definition)) !! IndexNames(SchemaOf(b.definition))
  }

  ghost predicate HarmlessAt(catalog: Tables, steps: seq<Step>, i: nat)
    requires i < |steps|
  {
    Harmless(catalog, steps[i].statement)
  }

  /** Every table comes from the start or from a CREATE among the first steps. */
  ghost predicate CatalogFrom(start: Tables, steps: seq<Step>, k: nat, catalog: Tables)
    requires k <= |steps|
  {
    forall t :: t in catalog ==>
      (t in start && catalog[t] == start[t]) || (exists i :: 0 <= i < k && Creates(steps[i].statement, t, catalog[t]))
  }

  ghost predicate Creates(statement: Statement, t: string, schema: TableSchema) {
    statement.Create? && t == statement.definition.name && schema == SchemaOf(statement.definition)
  }

  lemma HarmlessNow(start: Tables, steps: seq<Step>, k: nat, catalog: Tables)
    requires k < |steps| && AllHarmless(start, steps) && CatalogFrom(start, steps, k, catalog)
    ensures Harmless(catalog, steps[k].statement)
  {
    var statement := steps[k].statement;
    if statement.Create? {
      forall t | t in catalog && t != statement.definition.name
        ensures IndexNames(catalog[t]) !! IndexNames(SchemaOf(statement.definition))
      {
        assert HarmlessAt(start, steps, k);
        if !(t in start && catalog[t] == start[t]) {
          var j :| 0 <= j < k && Creates(steps[j].statement, t, catalog[t]);
          assert HarmlessPair(steps, j, k);
        }
      }
    }
  }

  ghost predicate MovesCatalog(statement: Statement, was: Tables, now: Tables) {
    || now == was || (exists t :: now == was - {t})
    || (exists t, schema :: now == was[t := schema] && Creates(statement, t, schema))
  }

  lemma CatalogStep(start: Tables, steps: seq<Step>, k: nat, was: Tables, now: Tables)
    requires 0 < k <= |steps| && CatalogFrom(start, steps, k - 1, was)
    requires MovesCatalog(steps[k - 1].statement, was, now)
    ensures CatalogFrom(start, steps, k, now)
  {
    forall t | t in now && !(t in start && now[t] == start[t])
      ensures exists i :: 0 <= i < k && Creates(steps[i].statement, t, now[t])
    {
      if t in was && now[t] == was[t] {
        var j :| 0 <= j < k - 1 && Creates(steps[j].statement, t, was[t]);
      }
    }
  }

  lemma EffectOnCatalog(step: Step)
    requires if step.result.Ok? then Effect(step.statement, step.was, step.now) else step.now == step.was
    ensures MovesCatalog(step.statement, step.was.state.catalog, step.now.state.catalog)
  {
    if step.result.Ok? {
      var was, now := step.was.state.catalog, step.now.state.catalog;
      match step.statement
      case Create(d) => assert now == was[d.name := SchemaOf(d)] && Creates(step.statement, d.name, SchemaOf(d));
      case Drop(name) => assert now == was - {name};
      case _ =>
    }
  }

  /** What distinct names keep up. */
  ghost predicate Orderly(start: Tables, steps: seq<Step>, k: nat, m: Moment)
    requires k <= |steps|
  {
    IsExact(m) && SeparateAt(m) && CatalogFrom(start, steps, k, m.state.catalog)
  }

  /** What one step does to that. */
  ghost predicate KeepsOrder(step: Step) {
    && (IsExact(step.was) && SeparateAt(step.was) && Harmless(step.was.state.catalog, step.statement) ==>
         IsExact(step.now) && SeparateAt(step.now))
    && MovesCatalog(step.statement, step.was.state.catalog, step.now.state.catalog)
  }

  lemma TookKeepsOrder(limits: Limits, step: Step)
    requires Took(limits, step)
    ensures KeepsOrder(step)
  {
    if step.result.Ok? && Harmless(step.was.state.catalog, step.statement) {
      HarmlessUnharmed(step.was, step.statement);
    }
    EffectOnCatalog(step);
  }

  ghost predicate Orderings(start: Moment, steps: seq<Step>) {
    forall i :: 0 <= i < |steps| ==> OrderAt(start, steps, i)
  }

  ghost predicate OrderAt(start: Moment, steps: seq<Step>, i: nat)
    requires i < |steps|
  {
    steps[i].was == Before(start, steps, i) && KeepsOrder(steps[i])
  }

  lemma RanKeepsOrder(limits: Limits, start: Moment, steps: seq<Step>)
    requires Ran(limits, start, steps)
    ensures Orderings(start, steps)
  {
    forall i | 0 <= i < |steps| ensures OrderAt(start, steps, i) {
      var step := StepOf(limits, start, steps, i);
      TookKeepsOrder(limits, step);
    }
  }

  lemma {:induction false} HarmlessRun(start: Moment, steps: seq<Step>, k: nat)
    requires Orderings(start, steps) && IsExact(start) && SeparateAt(start) && k <= |steps|
    requires AllHarmless(start.state.catalog, steps)
    ensures Orderly(start.state.catalog, steps, k, Before(start, steps, k))
  {
    if k == 0 {
      OrderlyStart(start, steps);
    } else {
      HarmlessRun(start, steps, k - 1);
      HarmlessStep(start, steps, k);
    }
  }

  lemma OrderlyStart(start: Moment, steps: seq<Step>)
    requires IsExact(start) && SeparateAt(start)
    ensures Orderly(start.state.catalog, steps, 0, Before(start, steps, 0))
  {
  }

  lemma HarmlessStep(start: Moment, steps: seq<Step>, k: nat)
    requires 0 < k <= |steps| && AllHarmless(start.state.catalog, steps) && Orderings(start, steps)
    requires Orderly(start.state.catalog, steps, k - 1, Before(start, steps, k - 1))
    ensures Orderly(start.state.catalog, steps, k, Before(start, steps, k))
  {
    var step := OrderOf(start, steps, k);
    HarmlessNow(start.state.catalog, steps, k - 1, step.was.state.catalog);
    OrderlyAfter(start.state.catalog, steps, k, step);
  }

  lemma OrderOf(start: Moment, steps: seq<Step>, k: nat) returns (step: Step)
    requires 0 < k <= |steps| && Orderings(start, steps)
    ensures step == steps[k - 1] && KeepsOrder(step)
    ensures step.was == Before(start, steps, k - 1) && step.now == Before(start, steps, k)
  {
    step := steps[k - 1];
    assert OrderAt(start, steps, k - 1);
  }

  lemma OrderlyAfter(start: Tables, steps: seq<Step>, k: nat, step: Step)
    requires 0 < k <= |steps| && step == steps[k - 1] && KeepsOrder(step)
    requires Orderly(start, steps, k - 1, step.was) && Harmless(step.was.state.catalog, step.statement)
    ensures Orderly(start, steps, k, step.now)
  {
    CatalogStep(start, steps, k, step.was.state.catalog, step.now.state.catalog);
  }

  /** With distinct index names, at every moment each constraint index holds exactly the (value,
      pointer) pairs of the live rows whose value is not NULL. */
  lemma IndexesAgree(limits: Limits, start: Moment, steps: seq<Step>, k: nat, t: string, c: ColumnSchema)
    requires Ran(limits, start, steps) && IsExact(start) && SeparateAt(start) && k <= |steps|
    requires AllHarmless(start.state.catalog, steps)
    requires HasIndex(Before(start, steps, k).state.catalog, t, c)
    ensures var m := Before(start, steps, k);
      Pairs(Stored(m.pages, IndexName(m.state.catalog[t], c))) == Expected(RowsAt(m, t), c.name)
  {
    RanKeepsOrder(limits, start, steps);
    HarmlessRun(start, steps, k);
    var m := Before(start, steps, k);
    SeparateIsExact(m.pages, m.state, t, c);
  }

  /** ... and each statement succeeds exactly when the rows and the schema let it and none of the writes
      it makes is too large: no index stands in the way. */
  lemma SucceedsIff(limits: Limits, start: Moment, steps: seq<Step>, k: nat)
    requires Ran(limits, start, steps) && IsExact(start) && SeparateAt(start) && k < |steps|
    requires AllHarmless(start.state.catalog, steps)
    ensures var was := Before(start, steps, k);
      steps[k].result.Ok? <==> Succeeds(steps[k].statement, was) && AllOk(limits, DiskAt(was), steps[k].log)
  {
    RanKeepsOrder(limits, start, steps);
    HarmlessRun(start, steps, k);
    var step := StepOf(limits, start, steps, k);
  }

  /** A fresh database is where such runs begin. */
  lemma EmptyDatabase()
    ensures var m := Moment([], State(map[], map[])); IsExact(m) && SeparateAt(m)
  {
  }

  // ---------------------------------------------------------------- a colliding name

  /** `column = v` */
  function Equals(column: string, v: Value): Option<Expr> {
    Some(Binary(Identifier(column), EQ, Literal(v)))
  }

  /** When CREATE takes the name of a column's index, a row that a scan accepts for `column = value` is
      no longer found. */
  lemma OvertakenRowIsLost(was: Moment, now: Moment, definition: CreateTable, t: string, c: ColumnSchema, p: Pointer)
    requires IsSound(was) && Emptied(was, now, SchemaOf(definition))
    requires Overtakes(was.state.catalog, definition, t, c)
    requires p in RowsAt(was, t) && ValueOf(RowsAt(was, t)[p], c.name) != Null
    ensures var schema, row := was.state.catalog[t], RowsAt(was, t)[p];
      var where := Equals(c.name, ValueOf(row, c.name));
      && now.state.catalog[t] == schema && Matched(now.pages, now.state, schema, where) == []
      && (p, row) in Filtered(Scanned(now.pages, RecordsOf(now.state, t), t), where)
  {
    var schema := was.state.catalog[t];
    OtherRowsCreated(was, now, SchemaOf(definition), t, false);
    assert TableSound(was.pages, was.state, schema, false);
    EmptiedStores(was, now, SchemaOf(definition), IndexName(schema, c));
    EmptyIndexFindsNothing(now.pages, now.state, schema, c, ValueOf(RowsAt(was, t)[p], c.name));
    ScanFindsRow(now.pages, now.state, schema, c, p);
  }

  lemma EmptyIndexFindsNothing(pages: seq<Page>, state: State, schema: TableSchema, c: ColumnSchema, v: Value)
    requires c in schema.columns && Indexed(c) && v != Null && Stored(pages, IndexName(schema, c)) == []
    ensures Matched(pages, state, schema, Equals(c.name, v)) == []
  {
    EqualsPlan(schema, c, v);
  }

  lemma ScanFindsRow(pages: seq<Page>, state: State, schema: TableSchema, c: ColumnSchema, p: Pointer)
    requires TableOk(pages, RecordsOf(state, schema.name), schema) && c in schema.columns
    requires p in TableRows(pages, state, schema.name)
    ensures var row := TableRows(pages, state, schema.name)[p];
      var scan := Scanned(pages, RecordsOf(state, schema.name), schema.name);
      (p, row) in Filtered(scan, Equals(c.name, ValueOf(row, c.name)))
  {
    var row := TableRows(pages, state, schema.name)[p];
    var scan, where := Scanned(pages, RecordsOf(state, schema.name), schema.name), Equals(c.name, ValueOf(row, c.name));
    ScanIsRows(pages, RecordsOf(state, schema.name), schema.name);
    FilteredMembers(scan, where);
    assert RowOk(schema, row);
    EqualsEvaluates(row, c.name, row[c.name]);
  }

  /** Such a database: a table `a` with a row whose UNIQUE column `b_c` is 1, and `CREATE TABLE a_b` with
      a UNIQUE column `c`. */
  lemma CollisionExists() returns (was: Moment, definition: CreateTable, t: string, c: ColumnSchema, p: Pointer)
    ensures IsExact(was) && SeparateAt(was) && Creatable(was.state.catalog, definition)
    ensures Overtakes(was.state.catalog, definition, t, c)
    ensures p in RowsAt(was, t) && ValueOf(RowsAt(was, t)[p], c.name) != Null
    ensures !Unharmed(was, definition)
    ensures c.ty == INT && WellFormed(SchemaOf(definition)) && |SchemaOf(definition).columns| == 1
    ensures Clashing(was, SchemaOf(definition), t, c)
  {
    t, c := "a", ColumnSchema("b_c", INT, false, false, true);
    var schema, row := TableSchema("a", [c]), map["b_c" := Int(1)];
    p := Pointer("a", 0, 0);
    var entry := Entry(Int(1), p, 0);
    var image := Image("a_b_c", 4, 1, 1, MakeLeaf([entry]));
    var state := State(map["a" := schema], map["a" := [Record(0, 0, false)]]);
    was := Moment([RowPage("a", false, row), IndexPage(image)], state);
    definition := CreateTable("a_b", [ColumnDef("c", INT, false, false, true)]);
    CollisionIsExact(was, schema, c, p, entry, image, row);
    CollisionOvertakes(was.state.catalog, schema, c, definition);
    assert |definition.name| != |t|;
    assert ValueOf(RowsAt(was, "a")[p], c.name) == Int(1);
    assert !NoValue(RowsAt(was, "a"), c.name);
    NoneOwn(Stored(was.pages, IndexName(schema, c)), "a", "a_b");
  }

  /** Two tables `a` and `a_b` that share an index, with one row in `a`: both are mirrored exactly, but the
      index does not hold the pairs of `a_b` alone. */
  lemma SharedIndexExists() returns (m: Moment, t: string, c: ColumnSchema)
    ensures IsExact(m) && !SeparateAt(m) && HasIndex(m.state.catalog, t, c)
    ensures Pairs(Stored(m.pages, IndexName(m.state.catalog[t], c))) != Expected(RowsAt(m, t), c.name)
  {
    var was, definition, owner, column, p := CollisionExists();
    var made := SchemaOf(definition);
    t, c := made.name, made.columns[0];
    m := Beside(was, made);
    SharedIndexIsExact(was, made, c);
    SharedBy(was, made, owner, column, p, c);
  }

  /** A database with one more table, without rows. */
  function Beside(m: Moment, made: TableSchema): Moment {
    Moment(m.pages, State(m.state.catalog[made.name := made], m.state.records[made.name := []]))
  }

  lemma SharedBy(was: Moment, made: TableSchema, owner: string, column: ColumnSchema, p: Pointer,
                 c: ColumnSchema)
    requires IsExact(was) && SeparateAt(was) && made.name != owner && HasIndex(was.state.catalog, owner, column)
    requires c in made.columns && Indexed(c) && IndexName(made, c) == IndexName(was.state.catalog[owner], column)
    requires p in RowsAt(was, owner) && ValueOf(RowsAt(was, owner)[p], column.name) != Null
    ensures Pairs(Stored(was.pages, IndexName(made, c))) != Expected(map[], c.name) && !SeparateAt(Beside(was, made))
  {
    var s := Stored(was.pages, IndexName(made, c));
    SeparateIsExact(was.pages, was.state, owner, column);
    OwnerHasTheIndex(s, RowsAt(was, owner), column.name, owner, p, c.name, made.name);
    NotSeparate(Beside(was, made).state.catalog, owner, column, made.name, c);
  }

  lemma OwnerHasTheIndex(s: seq<Entry>, rows: map<Pointer, Row>, column: string, owner: string, p: Pointer,
                         otherColumn: string, other: string)
    requires RowsOf(rows, owner) && owner != other && Pairs(s) == Expected(rows, column)
    requires p in rows && ValueOf(rows[p], column) != Null
    ensures Pairs(s) != Expected(map[], otherColumn)
  {
    if Pairs(s) == Expected(map[], otherColumn) {
      SharedIndexIsExactOnlyIfEmpty(s, rows, column, owner, map[], otherColumn, other);
    }
  }

  lemma NotSeparate(catalog: Tables, t: string, c: ColumnSchema, u: string, d: ColumnSchema)
    requires HasIndex(catalog, t, c) && HasIndex(catalog, u, d) && t != u
    requires IndexName(catalog[t], c) == IndexName(catalog[u], d)
    ensures !DistinctIndexNames(catalog)
  {
    assert IndexName(catalog[t], c) in IndexNames(catalog[t]) && IndexName(catalog[t], c) in IndexNames(catalog[u]);
  }

  lemma SharedIndexIsExact(was: Moment, made: TableSchema, c: ColumnSchema)
    requires IsExact(was) && WellFormed(made) && made.name !in was.state.catalog
    requires |made.columns| == 1 && made.columns[0] == c
    requires Own(Stored(was.pages, IndexName(made, c)), made.name) == []
    ensures IsExact(Beside(was, made)) && RowsAt(Beside(was, made), made.name) == map[]
  {
    var now := Beside(was, made);
    UnusedIsMirrored(now, made);
    forall t | t in now.state.catalog
      ensures now.state.catalog[t].name == t && TableSound(now.pages, now.state, now.state.catalog[t], true)
    {
      BesideTable(was, made, t);
    }
    forall t | t !in now.state.catalog ensures RecordsOf(now.state, t) == [] {
      assert RecordsOf(was.state, t) == [];
    }
  }

  lemma BesideTable(was: Moment, made: TableSchema, t: string)
    requires IsExact(was) && made.name !in was.state.catalog && t in Beside(was, made).state.catalog
    requires TableSound(was.pages, Beside(was, made).state, made, true)
    ensures var now := Beside(was, made);
      now.state.catalog[t].name == t && TableSound(now.pages, now.state, now.state.catalog[t], true)
  {
    if t != made.name {
      SameRecordsSound(was, Beside(was, made), t);
    }
  }

  lemma UnusedIsMirrored(m: Moment, made: TableSchema)
    requires WellFormed(made) && RecordsOf(m.state, made.name) == []
    requires forall c :: c in made.columns && Indexed(c) ==> Own(Stored(m.pages, IndexName(made, c)), made.name) == []
    ensures TableSound(m.pages, m.state, made, true) && RowsAt(m, made.name) == map[]
  {
    forall c | c in made.columns && Indexed(c) ensures ColumnMirrored(m.pages, map[], made, c, true) {
      EmptyMirrorsIff(Stored(m.pages, IndexName(made, c)), made.name, map[], c.name);
    }
    NoRecordsNoRows(m.pages, m.state, made.name);
  }

  lemma SameRecordsSound(was: Moment, now: Moment, t: string)
    requires IsExact(was) && t in was.state.catalog && now.pages == was.pages
    requires RecordsOf(now.state, t) == RecordsOf(was.state, t)
    ensures was.state.catalog[t].name == t && TableSound(now.pages, now.state, was.state.catalog[t], true)
  {
    assert TableSound(was.pages, was.state, was.state.catalog[t], true);
  }

  lemma CollisionOvertakes(catalog: Tables, schema: TableSchema, c: ColumnSchema, definition: CreateTable)
    requires c == ColumnSchema("b_c", INT, false, false, true) && schema == TableSchema("a", [c])
    requires catalog == map["a" := schema]
    requires definition == CreateTable("a_b", [ColumnDef("c", INT, false, false, true)])
    ensures Overtakes(catalog, definition, "a", c)
    ensures var made := SchemaOf(definition);
      && |made.columns| == 1 && Indexed(made.columns[0]) && made.name == "a_b"
      && IndexName(made, made.columns[0]) == IndexName(schema, c)
  {
    NamesCanCollide();
    var made := SchemaOf(definition);
    var d := Applied(definition.columns[0]);
    assert made.columns[0] == d && Indexed(d);
    assert IndexName(made, d) in IndexNames(made);
  }

  /** The first index of the new table has the name of another table's, which holds nothing of it. */
  ghost predicate Clashing(m: Moment, made: TableSchema, t: string, c: ColumnSchema)
    requires HasIndex(m.state.catalog, t, c) && |made.columns| == 1
  {
    && Indexed(made.columns[0]) && made.name != t
    && IndexName(made, made.columns[0]) == IndexName(m.state.catalog[t], c)
    && Own(Stored(m.pages, IndexName(made, made.columns[0])), made.name) == []
  }

  lemma CollisionIsExact(was: Moment, schema: TableSchema, c: ColumnSchema, p: Pointer, entry: Entry, image: Image,
                         row: Row)
    requires c == ColumnSchema("b_c", INT, false, false, true) && schema == TableSchema("a", [c])
    requires p == Pointer("a", 0, 0) && entry == Entry(Int(1), p, 0) && row == map["b_c" := Int(1)]
    requires image == Image("a_b_c", 4, 1, 1, MakeLeaf([entry]))
    requires was.pages == [RowPage("a", false, row), IndexPage(image)]
    requires was.state == State(map["a" := schema], map["a" := [Record(0, 0, false)]])
    ensures IsExact(was) && SeparateAt(was) && RowsAt(was, "a") == map[p := row]
  {
    OneRow(was, row);
    OneImage(was.pages, image);
    IndexNameOf(schema, c);
    PairsOfOne(entry, map[p := row]);
    assert ColumnMirrored(was.pages, RowsAt(was, "a"), schema, c, true);
    OneRowOk(was, schema, c, row);
  }

  lemma OneRowOk(m: Moment, schema: TableSchema, c: ColumnSchema, row: Row)
    requires c == ColumnSchema("b_c", INT, false, false, true) && schema == TableSchema("a", [c])
    requires row == map["b_c" := Int(1)] && RowsAt(m, "a") == map[Pointer("a", 0, 0) := row]
    requires |m.pages| > 0 && m.pages[0] == RowPage("a", false, row)
    requires RecordsOf(m.state, "a") == [Record(0, 0, false)]
    ensures TableOk(m.pages, RecordsOf(m.state, "a"), schema)
  {
  }

  lemma IndexNameOf(schema: TableSchema, c: ColumnSchema)
    requires schema.name == "a" && c.name == "b_c"
    ensures IndexName(schema, c) == "a_b_c"
  {
    assert "a" + "_" + "b_c" == "a_b_c";
  }

  lemma OneRow(m: Moment, row: Row)
    requires |m.pages| > 0 && m.pages[0] == RowPage("a", false, row) && "a" in m.state.records
    requires m.state.records["a"] == [Record(0, 0, false)]
    ensures RowsAt(m, "a") == map[Pointer("a", 0, 0) := row]
  {
    assert m.state.records["a"][0] in m.state.records["a"];
    assert LivePointers(m.state.records["a"], "a") == {Pointer("a", 0, 0)};
  }

  lemma OneImage(pages: seq<Page>, image: Image)
    requires |pages| == 2 && pages[0].RowPage? && pages[1] == IndexPage(image)
    ensures Stored(pages, image.name) == Walk(image.root)
  {
    assert pages[..1] + [pages[1]] == pages && pages[..1][..0] == [];
    LatestAppend(pages[..1], pages[1], image.name);
  }

  lemma PairsOfOne(entry: Entry, rows: map<Pointer, Row>)
    requires rows == map[entry.pointer := map["b_c" := entry.key]]
    ensures Mirrors([entry], entry.pointer.table, rows, "b_c", true)
  {
    OwnOne(entry, entry.pointer.table);
    assert [entry][1..] == [];
    assert Pairs([entry]) == multiset{PairOf(entry)};
    forall x ensures x in ExpectedSet(rows, "b_c") <==> x == PairOf(entry) {
      assert ValueOf(rows[entry.pointer], "b_c") == entry.key;
    }
  }

  // ---------------------------------------------------------------- a literal of another type

  lemma EqualsEvaluates(row: Row, column: string, v: Value)
    requires column in row
    ensures EvaluatePredicate(Equals(column, v), row) == Ok(Same(row[column], v))
  {
    assert Evaluate(Identifier(column), row) == Ok(row[column]) && Evaluate(Literal(v), row) == Ok(v);
    assert Evaluate(Equals(column, v).value, row) == Compare(EQ, row[column], v);
  }

  /** A scan evaluates the WHERE on every row and accepts none. */
  ghost predicate ScanFindsNone(pages: seq<Page>, state: State, t: string, where: Option<Expr>) {
    var scan := Scanned(pages, RecordsOf(state, t), t);
    Finishes(scan, where) && Filtered(scan, where) == []
  }

  /** The lookup chosen for the WHERE raises, so every query with it does. */
  ghost predicate LookupFails(m: Moment, t: string, where: Option<Expr>) {
    t in m.state.catalog && !PlanRuns(m.pages, m.state.catalog[t], where)
  }

  lemma FailedLookupFailsQuery(m: Moment, t: string, where: Option<Expr>)
    requires LookupFails(m, t, where)
    ensures !Succeeds(Query(t, where), m)
  {
    assert !Matchable(m.pages, m.state, m.state.catalog[t], where);
  }

  /** For every literal that does not fit an indexed column with a value, `column = literal` raises by
      the index, while a scan finishes and accepts no row. */
  lemma MisfitRaises(m: Moment, t: string, c: ColumnSchema, v: Value, p: Pointer)
    requires IsExact(m) && SeparateAt(m) && HasIndex(m.state.catalog, t, c) && v != Null && !Fits(c.ty, v)
    requires p in RowsAt(m, t) && ValueOf(RowsAt(m, t)[p], c.name) != Null
    ensures LookupFails(m, t, Equals(c.name, v)) && ScanFindsNone(m.pages, m.state, t, Equals(c.name, v))
  {
    TableOfMoment(m, t);
    MisfitPlan(m.pages, m.state, m.state.catalog[t], c, v, p);
    MisfitScan(m.pages, m.state, m.state.catalog[t], c, v);
  }

  lemma TableOfMoment(m: Moment, t: string)
    requires IsExact(m) && SeparateAt(m) && t in m.state.catalog
    ensures var schema := m.state.catalog[t];
      schema.name == t && TableSound(m.pages, m.state, schema, true) && PureIndexes(m.pages, schema)
  {
  }

  lemma MisfitPlan(pages: seq<Page>, state: State, schema: TableSchema, c: ColumnSchema, v: Value, p: Pointer)
    requires TableSound(pages, state, schema, true) && PureIndexes(pages, schema)
    requires c in schema.columns && Indexed(c) && v != Null && !Fits(c.ty, v)
    requires var rows := TableRows(pages, state, schema.name); p in rows && ValueOf(rows[p], c.name) != Null
    ensures !PlanRuns(pages, schema, Equals(c.name, v))
  {
    EqualsPlan(schema, c, v);
    assert Bounds(Equal(v))[0] == v;
    PlanRunsIff(pages, state, schema, Equals(c.name, v));
  }

  lemma EqualsPlan(schema: TableSchema, c: ColumnSchema, v: Value)
    requires c in schema.columns && Indexed(c) && v != Null
    ensures PlanFor(schema, Equals(c.name, v)) == Some(Candidate(c.name, Equal(v)))
  {
    assert IsIndexedColumn(schema, c.name);
  }

  lemma MisfitScan(pages: seq<Page>, state: State, schema: TableSchema, c: ColumnSchema, v: Value)
    requires TableOk(pages, RecordsOf(state, schema.name), schema) && c in schema.columns && v != Null && !Fits(c.ty, v)
    ensures ScanFindsNone(pages, state, schema.name, Equals(c.name, v))
  {
    var scan, where := Scanned(pages, RecordsOf(state, schema.name), schema.name), Equals(c.name, v);
    ScanIsRows(pages, RecordsOf(state, schema.name), schema.name);
    forall i | 0 <= i < |scan| ensures EvaluatePredicate(where, scan[i].1) == Ok(false) {
      MisfitRow(schema, scan[i].1, c, v);
    }
    NoneAccepted(scan, where);
  }

  lemma MisfitRow(schema: TableSchema, row: Row, c: ColumnSchema, v: Value)
    requires RowOk(schema, row) && c in schema.columns && v != Null && !Fits(c.ty, v)
    ensures EvaluatePredicate(Equals(c.name, v), row) == Ok(false)
  {
    assert Typed(c.ty, row[c.name]);
    EqualsEvaluates(row, c.name, v);
  }

  lemma {:induction false} NoneAccepted(scan: seq<(Pointer, Row)>, where: Option<Expr>)
    requires forall i :: 0 <= i < |scan| ==> EvaluatePredicate(where, scan[i].1) == Ok(false)
    ensures Finishes(scan, where) && Filtered(scan, where) == []
  {
    if scan != [] {
      assert forall i :: 0 <= i < |scan| - 1 ==> scan[1..][i] == scan[i + 1];
      NoneAccepted(scan[1..], where);
    }
  }

  /** Such a database and statement: the table `a` again, and `b_c = 'x'` on its INT column. */
  lemma MisfitExists() returns (m: Moment, t: string, c: ColumnSchema, v: Value)
    ensures HasIndex(m.state.catalog, t, c) && IsExact(m)
    ensures LookupFails(m, t, Equals(c.name, v)) && ScanFindsNone(m.pages, m.state, t, Equals(c.name, v))
  {
    var p;
    m, t, c, p := CollisionState();
    v := Text("x");
    MisfitRaises(m, t, c, v, p);
  }

  lemma CollisionState() returns (m: Moment, t: string, c: ColumnSchema, p: Pointer)
    ensures IsExact(m) && SeparateAt(m) && HasIndex(m.state.catalog, t, c) && c.ty == INT
    ensures p in RowsAt(m, t) && ValueOf(RowsAt(m, t)[p], c.name) != Null
  {
    var definition;
    m, definition, t, c, p := CollisionExists();
  }
}
