/** The storage manager as the table and index code sees it: decoded pages, and a header state kept
    in memory and written out after each change. The bytes are the business of `FileStore`. */
module Storage {
  import opened Values
  import opened BTreeNodes
  import opened Catalog

  type Row = map<string, Value>

  /** The value a row has in a column; a column it does not mention is NULL. */
  function ValueOf(row: Row, column: string): Value {
    if column in row then row[column] else Null
  }

  /** One persisted generation of an index. */
  datatype Image = Image(name: string, order: nat, generation: nat, nextSequence: nat, root: Node)

  datatype Page = RowPage(table: string, deleted: bool, row: Row) | IndexPage(image: Image) | OtherPage

  datatype Record = Record(pageId: nat, slot: nat, deleted: bool)

  datatype State = State(catalog: Tables, records: map<string, seq<Record>>)

  /** A table without a record list counts as having none. */
  function RecordsOf(s: State, table: string): seq<Record> {
    if table in s.records then s.records[table] else []
  }

  // ---------------------------------------------------------------- single writes

  /** The pages, the header state in memory, and the header state as last written. */
  datatype Disk = Disk(pages: seq<Page>, state: State, header: State)

  datatype Write =
    | Allocation(page: Page)
    | Overwrite(pageId: nat, page: Page)
    | CatalogWrite(catalog: Tables)
    | RecordsWrite(table: string, records: seq<Record>)

  /** Which pages and which header states are not too large. */
  datatype Limits = Limits(pageFits: Page -> bool, headerFits: State -> bool)

  /** The header state after a write; page writes leave it alone. */
  function StateAfter(s: State, w: Write): State {
    match w
    case CatalogWrite(catalog) => s.(catalog := catalog)
    case RecordsWrite(table, records) => s.(records := s.records[table := records])
    case _ => s
  }

  predicate WriteOk(limits: Limits, d: Disk, w: Write) {
    match w
    case Allocation(page) => limits.pageFits(page)
    case Overwrite(pageId, page) => pageId < |d.pages| && limits.pageFits(page)
    case _ => limits.headerFits(StateAfter(d.state, w))
  }

  /** A header state that is refused still stays in memory. */
  function Written(limits: Limits, d: Disk, w: Write): Disk {
    match w
    case Allocation(page) => if WriteOk(limits, d, w) then d.(pages := d.pages + [page]) else d
    case Overwrite(pageId, page) => if WriteOk(limits, d, w) then d.(pages := d.pages[pageId := page]) else d
    case _ =>
      var s := StateAfter(d.state, w);
      d.(state := s, header := if WriteOk(limits, d, w) then s else d.header)
  }

  /** The page belongs to a row of some table. */
  ghost predicate Recorded(s: State, pageId: nat) {
    exists t, i :: t in s.records && 0 <= i < |s.records[t]| && s.records[t][i].pageId == pageId
  }

  /** Row pages are overwritten only where recorded; record lists name recorded pages or pages from
      `first` on, those allocated since the statement began. */
  ghost predicate Allowed(d: Disk, first: nat, w: Write) {
    match w
    case Overwrite(pageId, _) => Recorded(d.state, pageId)
    case RecordsWrite(_, records) => forall i :: 0 <= i < |records| ==> Nameable(d, first, records[i].pageId)
    case _ => true
  }

  ghost predicate Nameable(d: Disk, first: nat, pageId: nat) {
    Recorded(d.state, pageId) || first <= pageId < |d.pages|
  }

  // ---------------------------------------------------------------- the writes of a statement

  function Replay(limits: Limits, d: Disk, log: seq<Write>): Disk {
    if log == [] then d
    else Written(limits, Replay(limits, d, log[..|log| - 1]), log[|log| - 1])
  }

  ghost predicate AllOk(limits: Limits, d: Disk, log: seq<Write>) {
    log != [] ==>
      var before := log[..|log| - 1];
      AllOk(limits, d, before) && WriteOk(limits, Replay(limits, d, before), log[|log| - 1])
  }

  /** Every write is allowed where it happens, and none follows a refused one. */
  ghost predicate Legal(limits: Limits, d: Disk, log: seq<Write>) {
    log != [] ==>
      var before := log[..|log| - 1];
      && Legal(limits, d, before) && AllOk(limits, d, before)
      && Allowed(Replay(limits, d, before), |d.pages|, log[|log| - 1])
  }

  lemma LogStep(limits: Limits, d: Disk, log: seq<Write>, w: Write)
    ensures Replay(limits, d, log + [w]) == Written(limits, Replay(limits, d, log), w)
    ensures AllOk(limits, d, log + [w]) <==> AllOk(limits, d, log) && WriteOk(limits, Replay(limits, d, log), w)
    ensures Legal(limits, d, log + [w]) <==>
      (Legal(limits, d, log) && AllOk(limits, d, log) && Allowed(Replay(limits, d, log), |d.pages|, w))
  {
    assert (log + [w])[..|log|] == log;
  }

  class StorageManager {
    var pages: seq<Page>
    var state: State
    var header: State  // as last written
    const limits: Limits
    ghost var start: Disk       // where the log begins
    ghost var log: seq<Write>   // the writes since

    constructor (limits: Limits)
      ensures pages == [] && state == header == State(map[], map[])
      ensures this.limits == limits && Clean()
    {
      pages, state, header := [], State(map[], map[]), State(map[], map[]);
      this.limits := limits;
      start, log := Disk([], State(map[], map[]), State(map[], map[])), [];
    }

    function Contents(): Disk
      reads this
    {
      Disk(pages, state, header)
    }

    /** The log tells how the contents came about, all by allowed writes. */
    ghost predicate Traced()
      reads this
    {
      Legal(limits, start, log) && Replay(limits, start, log) == Contents()
    }

    /** No write since the log began has been refused. */
    ghost predicate Unrefused()
      reads this
    {
      AllOk(limits, start, log)
    }

    /** The log tells it all, and no write has been refused yet. */
    ghost predicate Clean()
      reads this
    {
      Traced() && Unrefused() && |start.pages| <= |pages|
    }

    /** Clean but for an empty record list that has appeared in memory only. */
    ghost predicate Nearly(table: string)
      reads this
    {
      var d := Replay(limits, start, log);
      && Legal(limits, start, log) && AllOk(limits, start, log) && |start.pages| <= |pages|
      && pages == d.pages && header == d.header
      && (state == d.state || state == StateAfter(d.state, RecordsWrite(table, [])))
    }

    /** Begins a new log at the present contents. */
    ghost method StartLog()
      modifies this`start, this`log
      ensures start == Contents() && log == [] && Clean()
    {
      start, log := Contents(), [];
    }

    method AllocatePage(page: Page) returns (r: Outcome<nat>)
      requires Clean()
      modifies this`pages, this`log
      ensures r == if limits.pageFits(page) then Ok(|old(pages)|) else Raised(StorageFault)
      ensures pages == if limits.pageFits(page) then old(pages) + [page] else old(pages)
      ensures log == old(log) + [Allocation(page)] && Traced() && (r.Ok? ==> Clean())
      ensures r.Ok? <==> Unrefused()
    {
      LogStep(limits, start, log, Allocation(page));
      log := log + [Allocation(page)];
      if !limits.pageFits(page) {
        return Raised(StorageFault);
      }
      pages := pages + [page];
      r := Ok(|pages| - 1);
    }

    method WritePage(pageId: nat, page: Page) returns (r: Outcome<()>)
      requires Clean() && Recorded(state, pageId)
      modifies this`pages, this`log
      ensures r.Ok? <==> pageId < |old(pages)| && limits.pageFits(page)
      ensures r.Raised? ==> r.error == StorageFault
      ensures pages == if r.Ok? then old(pages)[pageId := page] else old(pages)
      ensures log == old(log) + [Overwrite(pageId, page)] && Traced() && (r.Ok? ==> Clean())
      ensures r.Ok? <==> Unrefused()
    {
      LogStep(limits, start, log, Overwrite(pageId, page));
      log := log + [Overwrite(pageId, page)];
      if pageId >= |pages| || !limits.pageFits(page) {
        return Raised(StorageFault);
      }
      pages := pages[pageId := page];
      r := Ok(());
    }

    /** Writes the in-memory state out; a state too large for the page is refused. */
    method PersistState() returns (r: Outcome<()>)
      modifies this`header
      ensures r == if limits.headerFits(state) then Ok(()) else Raised(StorageFault)
      ensures header == if r.Ok? then state else old(header)
    {
      if !limits.headerFits(state) {
        return Raised(StorageFault);
      }
      header := state;
      r := Ok(());
    }

    method WriteCatalog(catalog: Tables) returns (r: Outcome<()>)
      requires Clean()
      modifies this`state, this`header, this`log
      ensures state == old(state).(catalog := catalog)
      ensures r == if limits.headerFits(state) then Ok(()) else Raised(StorageFault)
      ensures header == if r.Ok? then state else old(header)
      ensures log == old(log) + [CatalogWrite(catalog)] && Traced() && (r.Ok? ==> Clean())
      ensures r.Ok? <==> Unrefused()
    {
      LogStep(limits, start, log, CatalogWrite(catalog));
      log := log + [CatalogWrite(catalog)];
      state := state.(catalog := catalog);
      r := PersistState();
    }

    /** Reading leaves an empty record list behind in memory, but not in the file. */
    method ReadTableRecords(table: string) returns (records: seq<Record>)
      requires Clean()
      modifies this`state
      ensures records == RecordsOf(old(state), table)
      ensures state == old(state).(records := old(state).records[table := records])
      ensures Nearly(table) && (table in old(state).records ==> Clean())
    {
      if table !in state.records {
        state := state.(records := state.records[table := []]);
      }
      records := state.records[table];
    }

    /** Records not yet in the file must be on pages allocated since the log began. */
    method WriteTableRecords(table: string, records: seq<Record>) returns (r: Outcome<()>)
      requires Clean() || (Nearly(table) && records == [])
      requires forall i :: 0 <= i < |records| ==> Nameable(Contents(), |start.pages|, records[i].pageId)
      modifies this`state, this`header, this`log
      ensures state == old(state).(records := old(state).records[table := records])
      ensures r == if limits.headerFits(state) then Ok(()) else Raised(StorageFault)
      ensures header == if r.Ok? then state else old(header)
      ensures log == old(log) + [RecordsWrite(table, records)] && Traced() && (r.Ok? ==> Clean())
      ensures r.Ok? <==> Unrefused()
    {
      ghost var w, d := RecordsWrite(table, records), Replay(limits, start, log);
      LogStep(limits, start, log, w);
      log := log + [w];
      state := state.(records := state.records[table := records]);
      assert state == StateAfter(d.state, w);
      r := PersistState();
    }

    /** Puts a snapshot of the file back; the memory is read again from its header. */
    method RestoreSnapshot(pages: seq<Page>, header: State)
      modifies this`pages, this`state, this`header
      ensures this.pages == pages && this.header == header && state == header
    {
      this.pages, this.state, this.header := pages, header, header;
    }
  }
}
