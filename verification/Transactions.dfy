/** Transactions of one database instance: the writer registry of its process, the exclusive file
    lock, and BEGIN, COMMIT, ROLLBACK and single statements on top of the storage manager. */
module Transactions {
  import opened Values
  import opened Catalog
  import opened Pages
  import opened FileStore
  import opened Recovery
  import opened FileManager

  /** The entry of this path in the process-wide set of active writers. */
  class WriterRegistry {
    var active: bool

    constructor ()
      ensures !active
    {
      active := false;
    }
  }

  /** The exclusive lock of the path, as all processes share it. */
  class FileLock {
    var held: bool

    constructor ()
      ensures !held
    {
      held := false;
    }
  }

  /** Releasing twice is the same as releasing once. */
  class LockHandle {
    const lock: FileLock
    var released: bool

    constructor (lock: FileLock)
      ensures this.lock == lock && !released
    {
      this.lock, released := lock, false;
    }

    method Release()
      modifies this, lock
      ensures released
      ensures lock.held == (old(lock.held) && old(released))
    {
      if released {
        return;
      }
      released := true;
      lock.held := false;
    }
  }

  /** Takes the lock, or times out while somebody else holds it. */
  method AcquireExclusive(lock: FileLock) returns (r: Outcome<LockHandle>)
    modifies lock
    ensures r.Ok? <==> !old(lock.held)
    ensures r.Ok? ==> fresh(r.value) && lock.held && r.value.lock == lock && !r.value.released
    ensures r.Raised? ==> r.error == ConcurrencyFault && lock.held
  {
    if lock.held {
      return Raised(ConcurrencyFault);
    }
    lock.held := true;
    var handle := new LockHandle(lock);
    r := Ok(handle);
  }

  /** When BEGIN succeeds. */
  predicate CanBegin(codec: Codec, st: Store, active: bool, held: bool, inTransaction: bool) {
    !inTransaction && !active && !held && st.state.marker.None? && Published(codec, st).ok
  }

  class TransactionManager {
    const storage: StorageManager
    const registry: WriterRegistry
    const lock: FileLock
    var lockHandle: LockHandle?
    var snapshot: Option<Bytes>
    var inTransaction: bool
    var registered: bool

    /** In a transaction exactly when snapshot, registry entry and lock are held. */
    ghost predicate Valid()
      reads this, storage, registry, lock, lockHandle
    {
      && storage.Valid()
      && (inTransaction <==> snapshot.Some?)
      && (inTransaction <==> registered)
      && (inTransaction <==> lockHandle != null)
      && (inTransaction ==> registry.active && lock.held && lockHandle.lock == lock && !lockHandle.released)
    }

    constructor (storage: StorageManager, registry: WriterRegistry, lock: FileLock)
      requires storage.Valid()
      ensures Valid() && !inTransaction
      ensures this.storage == storage && this.registry == registry && this.lock == lock
    {
      this.storage, this.registry, this.lock := storage, registry, lock;
      lockHandle, snapshot, inTransaction, registered := null, None, false, false;
    }

    // -------------------------------------------------------------- writer slot

    method AcquireWriter() returns (r: Outcome<()>)
      requires Valid() && !inTransaction
      modifies this`registered, this`lockHandle, registry, lock
      ensures r.Ok? <==> !old(registry.active) && !old(lock.held)
      ensures r.Ok? ==> registered && registry.active && lock.held && lockHandle != null && fresh(lockHandle)
      ensures r.Ok? ==> lockHandle.lock == lock && !lockHandle.released
      ensures r.Raised? ==> r.error == ConcurrencyFault && !registered && lockHandle == null
      ensures r.Raised? ==> registry.active == old(registry.active) && lock.held == old(lock.held)
    {
      if registry.active {
        return Raised(ConcurrencyFault);
      }
      registry.active := true;
      registered := true;
      var acquired := AcquireExclusive(lock);
      if acquired.Raised? {
        ReleaseWriter();
        return Raised(acquired.error);
      }
      lockHandle := acquired.value;
      r := Ok(());
    }

    method ReleaseWriter()
      requires lockHandle != null ==> lockHandle.lock == lock && !lockHandle.released
      modifies this`registered, this`lockHandle, registry, lock, lockHandle
      ensures !registered && lockHandle == null
      ensures registry.active == (old(registry.active) && !old(registered))
      ensures lock.held == (old(lock.held) && old(lockHandle) == null)
    {
      if registered {
        registry.active := false;
      }
      registered := false;
      if lockHandle != null {
        lockHandle.Release();
        lockHandle := null;
      }
    }

    method FinishTransaction()
      requires lockHandle != null ==> lockHandle.lock == lock && !lockHandle.released
      requires inTransaction && registered && lockHandle != null && storage.Valid()
      modifies this, registry, lock, lockHandle
      ensures Valid() && !inTransaction && !registry.active && !lock.held
    {
      snapshot := None;
      inTransaction := false;
      ReleaseWriter();
    }

    // -------------------------------------------------------------- transactions

    /** BEGIN takes the writer slot, the lock and a snapshot, or leaves all three free. When the
        marker does not fit the header, it stays in memory and the snapshot pages in the file. */
    method Begin() returns (r: Outcome<()>)
      requires Valid()
      modifies this, storage, registry, lock
      ensures Valid()
      ensures r.Ok? <==> old(CanBegin(storage.codec, storage.Contents(), registry.active, lock.held, inTransaction))
      ensures r.Ok? ==> inTransaction && snapshot == Some(old(storage.file)) && fresh(lockHandle)
      ensures r.Ok? ==> storage.Contents() == Published(storage.codec, old(storage.Contents())).store
      ensures r.Raised? ==>
        inTransaction == old(inTransaction) && registry.active == old(registry.active) && lock.held == old(lock.held)
      ensures r.Raised? && old(inTransaction) ==> snapshot == old(snapshot) && lockHandle == old(lockHandle)
      ensures r == Raised(StorageFault) <==>
        && !old(inTransaction) && !old(registry.active) && !old(lock.held)
        && old(storage.state).marker.None? && !Published(storage.codec, old(storage.Contents())).ok
      ensures r == Raised(StorageFault) ==>
        storage.Contents() == Published(storage.codec, old(storage.Contents())).store
      ensures r.Raised? && r.error != StorageFault ==> storage.Contents() == old(storage.Contents())
    {
      if inTransaction {
        return Raised(TransactionFault);
      }
      var acquired := AcquireWriter();
      if acquired.Raised? {
        return Raised(acquired.error);
      }
      var taken := storage.SnapshotFile();
      snapshot := Some(taken);
      var published := storage.BeginTransactionRecoverySnapshot();
      if published.Raised? {
        snapshot := None;
        ReleaseWriter();
        return Raised(published.error);
      }
      inTransaction := true;
      r := Ok(());
    }

    method Commit() returns (r: Outcome<()>)
      requires Valid()
      modifies this, storage, registry, lock, lockHandle
      ensures Valid() && !inTransaction
      ensures !old(inTransaction) ==> r == Raised(TransactionFault) && storage.Contents() == old(storage.Contents())
      ensures old(inTransaction) ==> !registry.active && !lock.held
      ensures old(inTransaction) && old(storage.state).marker.Some? ==>
        Result(storage.Contents(), r.Ok?) == Cleared(storage.codec, old(storage.Contents()))
      ensures old(inTransaction) && old(storage.state).marker.None? ==>
        r.Ok? && storage.Contents() == old(storage.Contents())
    {
      if !inTransaction {
        return Raised(TransactionFault);
      }
      r := storage.ClearTransactionRecoverySnapshot();
      FinishTransaction();
    }

    method Rollback() returns (r: Outcome<()>)
      requires Valid()
      modifies this, storage, registry, lock, lockHandle
      ensures storage.Valid() ==> Valid()
      ensures !inTransaction
      ensures !old(inTransaction) ==> r == Raised(TransactionFault) && storage.Contents() == old(storage.Contents())
      ensures old(inTransaction) ==> !registry.active && !lock.held
      ensures old(inTransaction) ==>
        storage.Contents() == Restored(storage.codec, old(storage.Contents()), old(snapshot).value)
      ensures old(inTransaction) ==> (r.Ok? <==> DecodeHeader(storage.codec, old(snapshot).value).Ok?)
    {
      if !inTransaction {
        return Raised(TransactionFault);
      }
      r := storage.RestoreFileSnapshot(snapshot.value);
      snapshot := None;
      inTransaction := false;
      ReleaseWriter();
    }

    /** Closing rolls back an open transaction. */
    method Close() returns (r: Outcome<()>)
      requires Valid()
      modifies this, storage, registry, lock, lockHandle
      ensures storage.Valid() ==> Valid()
      ensures !inTransaction
      ensures !old(inTransaction) ==> r.Ok? && storage.Contents() == old(storage.Contents())
      ensures old(inTransaction) ==> !registry.active && !lock.held
      ensures old(inTransaction) ==>
        storage.Contents() == Restored(storage.codec, old(storage.Contents()), old(snapshot).value)
    {
      if inTransaction {
        r := Rollback();
      } else {
        r := Ok(());
      }
    }

    /** A statement inside a transaction, under a savepoint. */
    method StatementInTransaction(body: Body) returns (ok: bool)
      requires Valid() && inTransaction && Synced(storage.codec, storage.Contents()) && RoundTrips(storage.codec)
      modifies storage
      ensures Valid() && Synced(storage.codec, storage.Contents())
      ensures Result(storage.Contents(), ok) == RunStatement(storage.codec, old(storage.Contents()), body)
    {
      StatementAtomic(storage.codec, storage.Contents(), body);
      var savepoint := storage.SnapshotFile();
      var script := body(storage.Contents());
      ok := storage.Perform(script.ops);
      if !ok || script.raises {
        var restored := storage.RestoreFileSnapshot(savepoint);
        ok := false;
      }
    }

    /** A statement outside a transaction runs in one of its own, rolled back if it raises. */
    method StatementAlone(body: Body) returns (ok: bool)
      requires Valid() && !inTransaction && AtRest(storage.codec, storage.Contents()) && RoundTrips(storage.codec)
      modifies this, storage, registry, lock
      ensures Valid() && !inTransaction
      ensures old(CanBegin(storage.codec, storage.Contents(), registry.active, lock.held, inTransaction)) ==>
        Result(storage.Contents(), ok) == Standalone(storage.codec, old(storage.Contents()), body)
      ensures !old(CanBegin(storage.codec, storage.Contents(), registry.active, lock.held, inTransaction)) ==> !ok
      ensures registry.active == old(registry.active) && lock.held == old(lock.held)
    {
      var begun := Begin();
      if begun.Raised? {
        return false;
      }
      PublishedIsRecoverable(storage.codec, old(storage.Contents()));
      ghost var start := storage.Contents();
      var script := body(storage.Contents());
      ok := storage.Perform(script.ops);
      if !ok || script.raises {
        var undone := Rollback();
        return false;
      }
      MarkerStays(storage.codec, start, script.ops);
      var committed := Commit();
      ok := committed.Ok?;
    }
  }

  lemma {:induction false} MarkerStays(codec: Codec, st: Store, ops: seq<Op>)
    ensures RunOps(codec, st, ops).store.state.marker == st.state.marker
    decreases |ops|
  {
    if ops != [] && Apply(codec, st, ops[0]).ok {
      MarkerStays(codec, Apply(codec, st, ops[0]).store, ops[1..]);
    }
  }

  /** A BEGIN whose header write is refused leaves the file's own content alone (only unreferenced
      pages are appended), but the marker it leaves in memory makes every later BEGIN of the same
      manager fail; only opening the file again gets rid of it. */
  lemma RefusedBeginSticks(codec: Codec, st: Store, active: bool, held: bool, inTransaction: bool)
    requires AtRest(codec, st) && !Published(codec, st).ok
    ensures var after := Published(codec, st).store;
      && after.state.marker.Some?
      && !CanBegin(codec, after, active, held, inTransaction)
      && after.file == Appending(st.file, |Chunks(st.file)|)
      && DecodeHeader(codec, after.file) == Ok(st.state)
      && Reopen(codec, after.file) == Ok(after.file)
  {
    CrashBeforeMarker(codec, st, |Chunks(st.file)|);
  }
}
