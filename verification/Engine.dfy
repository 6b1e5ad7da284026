/** The statements of the executor on the bytes of a file: each of its writes is one atomic step of a
    transaction, so what is proved of such steps holds of every script the executor runs. */
module Engine {
  import opened Values
  import opened Catalog
  import opened Pages
  import opened FileStore
  import opened Recovery
  import S = Storage
  import T = Statements
  import C = Consistency
  import E = Executor

  /** The bytes of a row or index page, before padding. */
  type Coding = S.Page -> Bytes

  function FileState(s: S.State, marker: Option<Marker>): State {
    State(s.catalog, s.records, marker)
  }

  /** What fits, while the header carries a given marker. */
  function LimitsOf(codec: Codec, coding: Coding, marker: Option<Marker>): S.Limits {
    S.Limits((page: S.Page) => |coding(page)| <= PAGE_SIZE,
             (s: S.State) => HeaderPage(codec, FileState(s, marker)).Ok?)
  }

  function OpOf(coding: Coding, w: S.Write): Op {
    match w
    case Allocation(page) => Allocate(coding(page))
    case Overwrite(pageId, page) => WriteRow(pageId, coding(page))
    case CatalogWrite(catalog) => SetCatalog(catalog)
    case RecordsWrite(table, records) => SetRecords(table, records)
  }

  ghost predicate Coded(coding: Coding, file: Bytes, i: nat, page: S.Page) {
    page.OtherPage?
    || (|coding(page)| <= PAGE_SIZE && i < PageCount(file) && PageAt(file, i) == NormalizePageData(coding(page)).value)
  }

  /** File and memory hold the decoded pages and header states. */
  ghost predicate Shows(codec: Codec, coding: Coding, marker: Option<Marker>, st: Store, d: S.Disk) {
    && Aligned(st.file) && PageCount(st.file) == |d.pages|
    && st.state == FileState(d.state, marker)
    && DecodeHeader(codec, st.file) == Ok(FileState(d.header, marker))
    && forall i :: 0 <= i < |d.pages| ==> Coded(coding, st.file, i, d.pages[i])
  }

  // ---------------------------------------------------------------- one write

  /** A write has on the bytes the effect it has on the decoded pages, and is refused for the same
      reason. */
  lemma WriteShows(codec: Codec, coding: Coding, marker: Option<Marker>, st: Store, d: S.Disk, w: S.Write)
    requires RoundTrips(codec) && Shows(codec, coding, marker, st, d)
    ensures var r, limits := Apply(codec, st, OpOf(coding, w)), LimitsOf(codec, coding, marker);
      (r.ok <==> S.WriteOk(limits, d, w)) && Shows(codec, coding, marker, r.store, S.Written(limits, d, w))
  {
    match w
    case Allocation(page) => AllocationShows(codec, coding, marker, st, d, page);
    case Overwrite(pageId, page) => OverwriteShows(codec, coding, marker, st, d, pageId, page);
    case _ => HeaderShows(codec, coding, marker, st, d, w);
  }

  lemma AllocationShows(codec: Codec, coding: Coding, marker: Option<Marker>, st: Store, d: S.Disk, page: S.Page)
    requires Shows(codec, coding, marker, st, d)
    ensures var w := S.Allocation(page);
      var r, limits := Apply(codec, st, OpOf(coding, w)), LimitsOf(codec, coding, marker);
      (r.ok <==> S.WriteOk(limits, d, w)) && Shows(codec, coding, marker, r.store, S.Written(limits, d, w))
  {
    var op := Allocate(coding(page));
    var r := Apply(codec, st, op);
    DataKeepsHeader(codec, st, op);
    if r.ok {
      AppendKeepsPages(st.file, NormalizePageData(coding(page)).value);
      var pages := d.pages + [page];
      forall i | 0 <= i < |pages| ensures Coded(coding, r.store.file, i, pages[i]) {
        assert i < |d.pages| ==> Coded(coding, st.file, i, d.pages[i]);
      }
    }
  }

  lemma OverwriteShows(codec: Codec, coding: Coding, marker: Option<Marker>, st: Store, d: S.Disk, pageId: nat,
                       page: S.Page)
    requires Shows(codec, coding, marker, st, d)
    ensures var w := S.Overwrite(pageId, page);
      var r, limits := Apply(codec, st, OpOf(coding, w)), LimitsOf(codec, coding, marker);
      (r.ok <==> S.WriteOk(limits, d, w)) && Shows(codec, coding, marker, r.store, S.Written(limits, d, w))
  {
    var op := WriteRow(pageId, coding(page));
    var r := Apply(codec, st, op);
    DataKeepsHeader(codec, st, op);
    if r.ok {
      WithPageKeepsPages(st.file, pageId, NormalizePageData(coding(page)).value, pageId);
      var pages := d.pages[pageId := page];
      forall i | 0 <= i < |pages| ensures Coded(coding, r.store.file, i, pages[i]) {
        assert Coded(coding, st.file, i, d.pages[i]);
      }
    }
  }

  lemma HeaderShows(codec: Codec, coding: Coding, marker: Option<Marker>, st: Store, d: S.Disk, w: S.Write)
    requires RoundTrips(codec) && Shows(codec, coding, marker, st, d) && (w.CatalogWrite? || w.RecordsWrite?)
    ensures var r, limits := Apply(codec, st, OpOf(coding, w)), LimitsOf(codec, coding, marker);
      (r.ok <==> S.WriteOk(limits, d, w)) && Shows(codec, coding, marker, r.store, S.Written(limits, d, w))
  {
    var next := st.(state := FileState(S.StateAfter(d.state, w), marker));
    assert Apply(codec, st, OpOf(coding, w)) == Persist(codec, next);
    PersistFacts(codec, next);
    forall i | 0 <= i < |d.pages| ensures Coded(coding, Persist(codec, next).store.file, i, d.pages[i]) {
      assert Coded(coding, st.file, i, d.pages[i]);
    }
  }

  // ---------------------------------------------------------------- the writes of one statement

  function Writes(coding: Coding, log: seq<S.Write>): seq<Event> {
    seq(|log|, i requires 0 <= i < |log| => Do(OpOf(coding, log[i])))
  }

  lemma RecordedIff(s: S.State, marker: Option<Marker>, pageId: nat)
    ensures S.Recorded(s, pageId) <==> RecordPage(FileState(s, marker), pageId)
  {
    if S.Recorded(s, pageId) {
      var t, i :| t in s.records && 0 <= i < |s.records[t]| && s.records[t][i].pageId == pageId;
      assert FileState(s, marker).records[t][i].pageId == pageId;
    }
  }

  /** An allowed write is one the discipline of transactions allows. */
  lemma AllowedIsEnabled(codec: Codec, coding: Coding, marker: Option<Marker>, t: Txn, d: S.Disk, first: nat,
                         w: S.Write)
    requires Shows(codec, coding, marker, t.store, d) && S.Allowed(d, first, w)
    requires forall p :: first <= p < |d.pages| ==> p in t.own
    ensures Enabled(t, Do(OpOf(coding, w)))
  {
    match w
    case Overwrite(pageId, _) => RecordedIff(d.state, marker, pageId);
    case RecordsWrite(_, records) =>
      forall i | 0 <= i < |records|
        ensures RecordPage(t.store.state, records[i].pageId) || records[i].pageId in t.own
      {
        assert S.Nameable(d, first, records[i].pageId);
        RecordedIff(d.state, marker, records[i].pageId);
      }
    case _ =>
  }

  /** Where the steps of a log have led: to what its replay shows, with its new pages known as own. */
  ghost predicate Follows(codec: Codec, coding: Coding, marker: Option<Marker>, t: Txn, d: S.Disk, log: seq<S.Write>) {
    var u, now := RunEvents(codec, t, Writes(coding, log)), S.Replay(LimitsOf(codec, coding, marker), d, log);
    && Shows(codec, coding, marker, u.store, now) && u.saved == t.saved
    && (forall p :: |d.pages| <= p < |now.pages| ==> p in u.own)
    && AllEnabled(codec, t, Writes(coding, log))
  }

  /** A legal log is a run of enabled steps that ends where its replay does. */
  lemma {:induction false} LogShows(codec: Codec, coding: Coding, marker: Option<Marker>, t: Txn, d: S.Disk,
                                    log: seq<S.Write>)
    requires RoundTrips(codec) && Shows(codec, coding, marker, t.store, d)
    requires S.Legal(LimitsOf(codec, coding, marker), d, log)
    ensures Follows(codec, coding, marker, t, d, log)
    decreases |log|
  {
    if log != [] {
      var before := log[..|log| - 1];
      LogShows(codec, coding, marker, t, d, before);
      WriteFollows(codec, coding, marker, t, d, before, log[|log| - 1]);
      assert before + [log[|log| - 1]] == log;
    }
  }

  lemma WriteFollows(codec: Codec, coding: Coding, marker: Option<Marker>, t: Txn, d: S.Disk, log: seq<S.Write>,
                     w: S.Write)
    requires RoundTrips(codec) && Follows(codec, coding, marker, t, d, log)
    requires S.Allowed(S.Replay(LimitsOf(codec, coding, marker), d, log), |d.pages|, w)
    ensures Follows(codec, coding, marker, t, d, log + [w])
  {
    var limits := LimitsOf(codec, coding, marker);
    var u, now := RunEvents(codec, t, Writes(coding, log)), S.Replay(limits, d, log);
    StepFollows(codec, coding, marker, u, now, |d.pages|, w);
    S.LogStep(limits, d, log, w);
    WritesSnoc(codec, coding, t, log, w);
  }

  lemma StepFollows(codec: Codec, coding: Coding, marker: Option<Marker>, u: Txn, d: S.Disk, first: nat, w: S.Write)
    requires RoundTrips(codec) && Shows(codec, coding, marker, u.store, d) && S.Allowed(d, first, w)
    requires forall p :: first <= p < |d.pages| ==> p in u.own
    ensures Enabled(u, Do(OpOf(coding, w)))
    ensures var v, now := Next(codec, u, Do(OpOf(coding, w))), S.Written(LimitsOf(codec, coding, marker), d, w);
      && Shows(codec, coding, marker, v.store, now) && v.saved == u.saved
      && forall p :: first <= p < |now.pages| ==> p in v.own
  {
    WriteShows(codec, coding, marker, u.store, d, w);
    AllowedIsEnabled(codec, coding, marker, u, d, first, w);
  }

  lemma WritesSnoc(codec: Codec, coding: Coding, t: Txn, log: seq<S.Write>, w: S.Write)
    ensures var u, e := RunEvents(codec, t, Writes(coding, log)), Do(OpOf(coding, w));
      && RunEvents(codec, t, Writes(coding, log + [w])) == Next(codec, u, e)
      && (AllEnabled(codec, t, Writes(coding, log + [w])) <==>
            AllEnabled(codec, t, Writes(coding, log)) && Enabled(u, e))
  {
    var e := Do(OpOf(coding, w));
    assert Writes(coding, log + [w]) == Writes(coding, log) + [e];
    RunEventsConcat(codec, t, Writes(coding, log), [e]);
    OneEvent(codec, RunEvents(codec, t, Writes(coding, log)), e);
  }

  lemma OneEvent(codec: Codec, t: Txn, e: Event)
    ensures RunEvents(codec, t, [e]) == Next(codec, t, e) && (AllEnabled(codec, t, [e]) <==> Enabled(t, e))
  {
    assert [e][1..] == [];
  }

  /** The steps of one statement: a query has no savepoint, and one that raises is undone. */
  function StepEvents(coding: Coding, step: E.Step): seq<Event> {
    if step.statement.Query? then Writes(coding, step.log)
    else [Save] + Writes(coding, step.log) + (if step.result.Ok? then [] else [Restore])
  }

  lemma StepShows(codec: Codec, coding: Coding, marker: Option<Marker>, t: Txn, step: E.Step)
    requires RoundTrips(codec) && Shows(codec, coding, marker, t.store, E.DiskAt(step.was))
    requires E.Logged(LimitsOf(codec, coding, marker), step) && (step.result.Raised? ==> step.now == step.was)
    ensures Shows(codec, coding, marker, RunEvents(codec, t, StepEvents(coding, step)).store, E.DiskAt(step.now))
    ensures AllEnabled(codec, t, StepEvents(coding, step))
  {
    var writes := Writes(coding, step.log);
    if step.statement.Query? {
      LogShows(codec, coding, marker, t, E.DiskAt(step.was), step.log);
    } else {
      var saved := Next(codec, t, Save);
      var tail := if step.result.Ok? then [] else [Restore];
      LogShows(codec, coding, marker, saved, E.DiskAt(step.was), step.log);
      OneEvent(codec, t, Save);
      RunEventsConcat(codec, t, [Save], writes);
      RunEventsConcat(codec, t, [Save] + writes, tail);
      OneEvent(codec, RunEvents(codec, t, [Save] + writes), Restore);
    }
  }

  // ---------------------------------------------------------------- whole scripts

  function ScriptEvents(coding: Coding, steps: seq<E.Step>): seq<Event> {
    if steps == [] then []
    else ScriptEvents(coding, steps[..|steps| - 1]) + StepEvents(coding, steps[|steps| - 1])
  }

  /** What these proofs need of a run. */
  ghost predicate Chained(limits: S.Limits, start: T.Moment, steps: seq<E.Step>) {
    forall i :: 0 <= i < |steps| ==>
      && steps[i].was == E.Before(start, steps, i) && E.Logged(limits, steps[i])
      && (steps[i].result.Raised? ==> steps[i].now == steps[i].was)
  }

  lemma RanIsChained(limits: S.Limits, start: T.Moment, steps: seq<E.Step>)
    requires E.Ran(limits, start, steps)
    ensures Chained(limits, start, steps)
  {
    forall i | 0 <= i < |steps|
      ensures steps[i].was == E.Before(start, steps, i) && E.Logged(limits, steps[i])
      ensures steps[i].result.Raised? ==> steps[i].now == steps[i].was
    {
      assert E.StepAt(limits, start, steps, i);
    }
  }

  lemma {:induction false} ScriptShows(codec: Codec, coding: Coding, marker: Option<Marker>, t: Txn, start: T.Moment,
                                       steps: seq<E.Step>)
    requires RoundTrips(codec) && Shows(codec, coding, marker, t.store, E.DiskAt(start))
    requires Chained(LimitsOf(codec, coding, marker), start, steps)
    ensures var u := RunEvents(codec, t, ScriptEvents(coding, steps));
      Shows(codec, coding, marker, u.store, E.DiskAt(E.Before(start, steps, |steps|)))
    ensures AllEnabled(codec, t, ScriptEvents(coding, steps))
    decreases |steps|
  {
    if steps != [] {
      var n := |steps| - 1;
      var u := RunEvents(codec, t, ScriptEvents(coding, steps[..n]));
      assert E.Before(start, steps[..n], n) == E.Before(start, steps, n);
      EarlierChained(LimitsOf(codec, coding, marker), start, steps, n);
      ScriptShows(codec, coding, marker, t, start, steps[..n]);
      StepShows(codec, coding, marker, u, steps[n]);
      RunEventsConcat(codec, t, ScriptEvents(coding, steps[..n]), StepEvents(coding, steps[n]));
    }
  }

  lemma EarlierChained(limits: S.Limits, start: T.Moment, steps: seq<E.Step>, n: nat)
    requires Chained(limits, start, steps) && n <= |steps|
    ensures Chained(limits, start, steps[..n])
  {
    forall i | 0 <= i < n ensures E.Before(start, steps[..n], i) == E.Before(start, steps, i) {
    }
  }

  // ---------------------------------------------------------------- begin

  /** The decoded pages once the snapshot has been appended. */
  function WithSnapshot(pages: seq<S.Page>, file: Bytes): seq<S.Page> {
    pages + seq(|Chunks(file)|, _ => S.OtherPage)
  }

  function AfterBegin(m: T.Moment, file: Bytes): T.Moment {
    T.Moment(WithSnapshot(m.pages, file), m.state)
  }

  lemma BeginShows(codec: Codec, coding: Coding, st: Store, m: T.Moment)
    requires RoundTrips(codec) && AtRest(codec, st) && Published(codec, st).ok
    requires Shows(codec, coding, None, st, E.DiskAt(m))
    ensures var marker, now := Some(MarkerFor(st.file)), AfterBegin(m, st.file);
      && Shows(codec, coding, marker, Published(codec, st).store, E.DiskAt(now))
      && LimitsOf(codec, coding, marker).headerFits(now.state)
  {
    var n, now := |Chunks(st.file)|, AfterBegin(m, st.file);
    var file := Published(codec, st).store.file;
    PublishedIsRecoverable(codec, st);
    PackedPages(st.file, Chunks(st.file), n);
    PersistFacts(codec, Store(Appending(st.file, n), st.state.(marker := Some(MarkerFor(st.file)))));
    assert PageCount(file) == PageCount(Appending(st.file, n)) == |now.pages|;
    forall i | 0 <= i < |now.pages| ensures Coded(coding, file, i, now.pages[i]) {
      assert i < |m.pages| ==> now.pages[i] == m.pages[i] && Coded(coding, st.file, i, m.pages[i]);
      assert i >= |m.pages| ==> now.pages[i] == S.OtherPage;
    }
  }

  /** The snapshot pages change no table and no index. */
  lemma {:induction false} SnapshotKeeps(pages: seq<S.Page>, state: S.State, n: nat, exact: bool)
    requires C.Consistent(pages, state, exact)
    ensures var now := pages + seq(n, _ => S.OtherPage);
      && C.Consistent(now, state, exact) && C.IndexesKept(pages, now, {})
      && forall t :: t in state.catalog ==> C.TableRows(now, state, t) == C.TableRows(pages, state, t)
    decreases n
  {
    if n == 0 {
      assert pages + seq(0, _ => S.OtherPage) == pages;
    } else {
      var before := pages + seq(n - 1, _ => S.OtherPage);
      SnapshotKeeps(pages, state, n - 1, exact);
      C.ConsistentUnderForeignPage(before, state, S.OtherPage, exact);
      assert pages + seq(n, _ => S.OtherPage) == before + [S.OtherPage];
    }
  }

  /** What the executor needs to run after BEGIN is what held before it. */
  lemma BeginKeepsTables(m: T.Moment, file: Bytes, exact: bool)
    requires C.Consistent(m.pages, m.state, exact)
    ensures var now := AfterBegin(m, file);
      && C.Consistent(now.pages, now.state, exact)
      && (E.SeparateAt(m) ==> E.SeparateAt(now))
      && forall t :: t in m.state.catalog ==> T.RowsAt(now, t) == T.RowsAt(m, t)
  {
    SnapshotKeeps(m.pages, m.state, |Chunks(file)|, exact);
  }

  // ---------------------------------------------------------------- crashes and commits of the engine

  /** A transaction of the engine: a script run by the executor after a BEGIN that succeeded. */
  ghost predicate Transaction(codec: Codec, coding: Coding, st: Store, m: T.Moment, steps: seq<E.Step>) {
    && RoundTrips(codec) && AtRest(codec, st) && Published(codec, st).ok
    && Shows(codec, coding, None, st, E.DiskAt(m))
    && E.Ran(LimitsOf(codec, coding, Some(MarkerFor(st.file))), AfterBegin(m, st.file), steps)
  }

  lemma TransactionShows(codec: Codec, coding: Coding, st: Store, m: T.Moment, steps: seq<E.Step>)
    requires Transaction(codec, coding, st, m, steps)
    ensures var last := E.Before(AfterBegin(m, st.file), steps, |steps|);
      Shows(codec, coding, Some(MarkerFor(st.file)),
            RunEvents(codec, Begun(codec, st), ScriptEvents(coding, steps)).store, E.DiskAt(last))
    ensures AllEnabled(codec, Begun(codec, st), ScriptEvents(coding, steps))
  {
    var marker, start := Some(MarkerFor(st.file)), AfterBegin(m, st.file);
    BeginShows(codec, coding, st, m);
    RanIsChained(LimitsOf(codec, coding, marker), start, steps);
    ScriptShows(codec, coding, marker, Begun(codec, st), start, steps);
  }

  /** Whatever statements the executor runs in a transaction, succeeding or failing, and at whichever of
      their writes it crashes: opening the file gives back the bytes from before BEGIN. */
  lemma CrashDuringScript(codec: Codec, coding: Coding, st: Store, m: T.Moment, steps: seq<E.Step>, k: nat)
    requires Transaction(codec, coding, st, m, steps) && k <= |ScriptEvents(coding, steps)|
    ensures var file := RunEvents(codec, Begun(codec, st), ScriptEvents(coding, steps)[..k]).store.file;
      Reopen(codec, file) == Ok(st.file)
  {
    TransactionShows(codec, coding, st, m, steps);
    CrashAt(codec, st, ScriptEvents(coding, steps), k);
  }

  /** COMMIT makes the database the executor has reached durable: the file then holds its pages and its
      catalog, and opens as it is. A refused commit is undone at the next opening. */
  lemma CommitScript(codec: Codec, coding: Coding, st: Store, m: T.Moment, steps: seq<E.Step>)
    requires Transaction(codec, coding, st, m, steps)
    ensures var last := E.Before(AfterBegin(m, st.file), steps, |steps|);
      var r := Cleared(codec, RunEvents(codec, Begun(codec, st), ScriptEvents(coding, steps)).store);
      && (r.ok ==> AtRest(codec, r.store) && Shows(codec, coding, None, r.store, E.DiskAt(last)))
      && (r.ok ==> Reopen(codec, r.store.file) == Ok(r.store.file))
      && (!r.ok ==> Reopen(codec, r.store.file) == Ok(st.file))
  {
    var last := E.Before(AfterBegin(m, st.file), steps, |steps|);
    var end := RunEvents(codec, Begun(codec, st), ScriptEvents(coding, steps)).store;
    TransactionShows(codec, coding, st, m, steps);
    CrashAfterCommit(codec, st, ScriptEvents(coding, steps));
    ClearedShows(codec, coding, Some(MarkerFor(st.file)), end, E.DiskAt(last));
  }

  /** ROLLBACK, or closing, after any script gives back the bytes, the memory and the decoded database
      from before BEGIN. */
  lemma RollbackScript(codec: Codec, coding: Coding, st: Store, m: T.Moment, steps: seq<E.Step>)
    requires Transaction(codec, coding, st, m, steps)
    ensures var last := RunEvents(codec, Begun(codec, st), ScriptEvents(coding, steps)).store;
      var r := Restored(codec, last, st.file);
      r == st && AtRest(codec, r) && Shows(codec, coding, None, r, E.DiskAt(m))
  {
    var last := RunEvents(codec, Begun(codec, st), ScriptEvents(coding, steps)).store;
    RollbackRestoresAll(codec, st, last);
  }

  lemma ClearedShows(codec: Codec, coding: Coding, marker: Option<Marker>, st: Store, d: S.Disk)
    requires RoundTrips(codec) && Shows(codec, coding, marker, st, d) && d.header == d.state
    ensures var r := Cleared(codec, st); r.ok ==> Shows(codec, coding, None, r.store, d)
  {
    var r := Cleared(codec, st);
    PersistFacts(codec, st.(state := st.state.(marker := None)));
    if r.ok {
      forall i | 0 <= i < |d.pages| ensures Coded(coding, r.store.file, i, d.pages[i]) {
        assert Coded(coding, st.file, i, d.pages[i]);
      }
    }
  }

  /** A statement on its own, outside BEGIN and COMMIT, needs no savepoint: crashing at any of its writes
      gives back the old file, and once committed it is durable. */
  lemma StatementAlone(codec: Codec, coding: Coding, st: Store, m: T.Moment, step: E.Step, k: nat)
    requires Transaction(codec, coding, st, m, [step]) && k <= |step.log|
    ensures var file := RunEvents(codec, Begun(codec, st), Writes(coding, step.log)[..k]).store.file;
      Reopen(codec, file) == Ok(st.file)
    ensures var r := Cleared(codec, RunEvents(codec, Begun(codec, st), Writes(coding, step.log)).store);
      step.result.Ok? ==>
        && (r.ok ==> AtRest(codec, r.store) && Shows(codec, coding, None, r.store, E.DiskAt(step.now)))
        && (r.ok ==> Reopen(codec, r.store.file) == Ok(r.store.file))
        && (!r.ok ==> Reopen(codec, r.store.file) == Ok(st.file))
  {
    var marker, start, writes := Some(MarkerFor(st.file)), AfterBegin(m, st.file), Writes(coding, step.log);
    var limits := LimitsOf(codec, coding, marker);
    BeginShows(codec, coding, st, m);
    RanIsChained(limits, start, [step]);
    assert [step][0] == step;
    LogShows(codec, coding, marker, Begun(codec, st), E.DiskAt(start), step.log);
    CrashAt(codec, st, writes, k);
    CrashAfterCommit(codec, st, writes);
    if step.result.Ok? {
      ClearedShows(codec, coding, marker, RunEvents(codec, Begun(codec, st), writes).store, E.DiskAt(step.now));
    }
  }
}
