/**
 Concurrent inserts and updates on one shared table: the lock protocol together with the memory
 that its steps read and write. Removal is not among the jobs; the source takes only a record lock
 for it while it changes the free list.
 */
module ConcurrentModel {
  import opened Bytes
  import opened Results
  import opened SlotModel
  import opened IndexModel
  import opened TableModel
  import opened TableRefinement
  import opened Semaphores
  import Protocol = LockProtocol

  /** What a process has to do: insert a record, or update keys from left to right (one key for `update_with_lock`). */
  datatype Job<!K, !T> = InsertJob(record: T) | UpdateJob(keys: seq<K>, f: T -> T)

  function CallOf<K, T>(job: Job<K, T>): Protocol.Call {
    match job
    case InsertJob(_) => Protocol.Insert
    case UpdateJob(keys, _) => Protocol.Update(|keys|)
  }

  function CallsOf<K, T>(jobs: seq<Job<K, T>>): (calls: seq<Protocol.Call>)
    ensures |calls| == |jobs|
  {
    seq(|jobs|, i requires 0 <= i < |jobs| => CallOf(jobs[i]))
  }

  /** Local variables of a call under way. */
  datatype Local<T> =
    | Nothing
    | Reserved(slot: nat, next: nat)              // insert: the slot read from `first_free`, and its link
    | Target(slot: nat, entry: nat)               // update: the locked slot, and the entry of the history
    | Loaded(slot: nat, entry: nat, record: T)    // update: the record read from the slot
    | Erring(error: Error)                        // the error that the call is going to return

  predicate HasSlot<T>(local: Local<T>) {
    local.Reserved? || local.Target? || local.Loaded?
  }

  /**
   A process: its number, the jobs it has still to do, the local variables of the call under way with
   the count of the records it has found, and the answers of the calls that have returned.
   */
  datatype Worker<!K, !T> = Worker(
    id: nat, jobs: seq<Job<K, T>>, local: Local<T>, found: nat, answers: seq<Reply<T>>)

  /** The record slots with the two header fields that change, and the index. */
  datatype Memory<K> = Memory(cells: seq<Cell>, first: nat, count: nat, ix: Ix<K>)

  /** How an update went, once it is settled: the record that the closure met, or the error. */
  datatype Status<T> = Pending | Applied(met: T) | Rejected(error: Error)

  /**
   History of the calls of all processes, each entry made during its call: insertions as they become
   visible in the index, updates in the order of lock acquisition, and calls that end without touching
   memory as they find that out.
   */
  datatype LogEntry<!K, !T> =
    | Stored(p: nat, slot: nat, record: T)
    | Changed(p: nat, slot: nat, key: K, f: T -> T, status: Status<T>)
    | Unmet(p: nat, op: Op<K, T>, reply: Reply<T>)

  /** The entry concerns the record of the slot. */
  predicate At<K, T>(x: LogEntry<K, T>, slot: nat) {
    !x.Unmet? && x.slot == slot
  }

  datatype Config<!K, !T> = Config(
    lock: Protocol.State, workers: seq<Worker<K, T>>, mem: Memory<K>, log: seq<LogEntry<K, T>>)

  /** What does not change: record type and index keys, sizes, and the records that were there at the start. */
  datatype World<!K, !T> = World(env: Env<K, T>, capacity: nat, dataSize: nat, initial: map<nat, T>)

  // ---------- Steps ----------

  datatype Effect<!K, !T> = Effect(
    o: Protocol.Oracle, worker: Worker<K, T>, mem: Memory<K>, log: seq<LogEntry<K, T>>)

  function KeyOf<K, T>(w: World<K, T>, job: Job<K, T>): K
    requires job.UpdateJob? ==> job.keys != []
  {
    match job
    case InsertJob(record) => w.env.codec.key(record)
    case UpdateJob(keys, _) => keys[0]
  }

  /** The call returns with an answer. */
  function DropJob<K, T>(worker: Worker<K, T>, answer: Reply<T>): Worker<K, T>
    requires worker.jobs != []
  {
    worker.(jobs := worker.jobs[1..], local := Nothing, found := 0, answers := worker.answers + [answer])
  }

  /** An update is done with a key, whose record it may have found. */
  function DropKey<K, T>(worker: Worker<K, T>, present: bool): Worker<K, T>
    requires worker.jobs != [] && worker.jobs[0].UpdateJob? && worker.jobs[0].keys != []
  {
    worker.(jobs := WithoutKey(worker.jobs), local := Nothing, found := worker.found + if present then 1 else 0)
  }

  function WithoutKey<K, T>(jobs: seq<Job<K, T>>): seq<Job<K, T>>
    requires jobs != [] && jobs[0].UpdateJob? && jobs[0].keys != []
  {
    [UpdateJob(jobs[0].keys[1..], jobs[0].f)] + jobs[1..]
  }

  /** The record can be stored. */
  predicate Fits<K, T>(w: World<K, T>, record: T) {
    var data := w.env.codec.serialize(record);
    data.Some? && |data.value| <= w.dataSize
  }

  function StoredBytes<K, T>(w: World<K, T>, record: T): seq<byte> {
    var data := w.env.codec.serialize(record);
    if data.Some? then data.value else []
  }

  /** Writes a record that fits; the cell is in range and its buffer large enough. */
  function WriteCell<K, T>(w: World<K, T>, mem: Memory<K>, slot: nat, record: T): Memory<K> {
    var data := StoredBytes(w, record);
    if slot < |mem.cells| && |data| <= |mem.cells[slot].buffer| then
      mem.(cells := mem.cells[slot := mem.cells[slot].Write(data)])
    else
      mem
  }

  /** The error of storing a record that does not fit. */
  function Misfit<K, T>(w: World<K, T>, record: T): Error {
    var data := w.env.codec.serialize(record);
    if data.None? then SerializationError else RecordSizeTooBig(|data.value|, w.dataSize)
  }

  /** The error of an insertion into a table of `count` records. */
  function NoRoom<K, T>(w: World<K, T>, count: nat, record: T): Error {
    if w.env.codec.serialize(record).None? then SerializationError
    else if count >= w.capacity then TableFull(count, w.capacity)
    else Misfit(w, record)
  }

  function Settle<K, T>(log: seq<LogEntry<K, T>>, entry: nat, status: Status<T>): seq<LogEntry<K, T>> {
    if entry < |log| && log[entry].Changed? then log[entry := log[entry].(status := status)] else log
  }

  /** A call that ends without touching memory. */
  function Ends<K, T>(
      worker: Worker<K, T>, log: seq<LogEntry<K, T>>, op: Op<K, T>, reply: Reply<T>): seq<LogEntry<K, T>>
  {
    log + [Unmet(worker.id, op, reply)]
  }

  /** The steps of `Slots::insert` under the table lock. */
  function InsertWork<K, T>(
      w: World<K, T>, left: nat, record: T, worker: Worker<K, T>, mem: Memory<K>,
      log: seq<LogEntry<K, T>>): Effect<K, T>
  {
    if left == 4 then
      // serialize, check room and size, read the first free slot and its link
      if mem.count >= w.capacity || !Fits(w, record) then
        var error := NoRoom(w, mem.count, record);
        Effect(Protocol.Fails, worker.(local := Erring(error)), mem,
               Ends(worker, log, InsertOp(record), Refused(error)))
      else
        var next := if mem.first < |mem.cells| then mem.cells[mem.first].size else 0;
        Effect(Protocol.Succeeds, worker.(local := Reserved(mem.first, next)), mem, log)
    else if !worker.local.Reserved? then
      Effect(Protocol.Succeeds, worker, mem, log)
    else if left == 3 then
      Effect(Protocol.Succeeds, worker, mem.(first := worker.local.next), log)
    else if left == 2 then
      Effect(Protocol.Succeeds, worker, mem.(count := mem.count + 1), log)
    else if left == 1 then
      Effect(Protocol.Succeeds, worker, WriteCell(w, mem, worker.local.slot, record), log)
    else
      Effect(Protocol.Succeeds, worker, mem, log)
  }

  /** Reading, changing and writing back a record under its lock. */
  function UpdateWork<K, T>(
      w: World<K, T>, left: nat, f: T -> T, worker: Worker<K, T>, mem: Memory<K>,
      log: seq<LogEntry<K, T>>): Effect<K, T>
  {
    if left == 2 && worker.local.Target? then
      var Target(slot, entry) := worker.local;
      var record := w.env.codec.deserialize(if slot < |mem.cells| then mem.cells[slot].Read() else []);
      if record.None? then
        Effect(Protocol.Fails, worker.(local := Erring(DeserializationError)), mem,
               Settle(log, entry, Rejected(DeserializationError)))
      else
        Effect(Protocol.Succeeds, worker.(local := Loaded(slot, entry, record.value)), mem, log)
    else if left == 1 && worker.local.Loaded? then
      var Loaded(slot, entry, record) := worker.local;
      if !Fits(w, f(record)) then
        var error := Misfit(w, f(record));
        Effect(Protocol.Fails, worker.(local := Erring(error)), mem, Settle(log, entry, Rejected(error)))
      else
        Effect(Protocol.Succeeds, worker, WriteCell(w, mem, slot, f(record)), Settle(log, entry, Applied(record)))
    else
      Effect(Protocol.Succeeds, worker, mem, log)
  }

  /** What a lookup tells its call: a duplicate and an absent key end it. */
  function AfterLookup<K, T>(
      w: World<K, T>, worker: Worker<K, T>, found: Option<nat>, log: seq<LogEntry<K, T>>): seq<LogEntry<K, T>>
    requires worker.jobs != [] && (worker.jobs[0].UpdateJob? ==> worker.jobs[0].keys != [])
  {
    match worker.jobs[0]
    case InsertJob(record) =>
      if found.Some? then Ends(worker, log, InsertOp(record), Refused(RecordDuplicated)) else log
    case UpdateJob(keys, f) =>
      if found.None? then Ends(worker, log, UpdateOp(keys[0], f), Reply.Updated(None)) else log
  }

  /** The error of a lock that does not exist. */
  function NoLock<K, T>(w: World<K, T>, semNum: nat): Error {
    SemaphoreInvalidIndex(semNum, Stripes(w.capacity))
  }

  /** Without a table lock the insertion ends. */
  function WithoutLock<K, T>(w: World<K, T>, worker: Worker<K, T>, log: seq<LogEntry<K, T>>): seq<LogEntry<K, T>>
    requires worker.jobs != []
  {
    if worker.jobs[0].InsertJob? then
      Ends(worker, log, InsertOp(worker.jobs[0].record), Refused(NoLock(w, w.capacity)))
    else
      log
  }

  /** What a call returns as its lock is dropped. */
  function Returned<K, T>(worker: Worker<K, T>, ok: bool): Worker<K, T>
    requires worker.jobs != [] && (worker.jobs[0].UpdateJob? ==> worker.jobs[0].keys != [])
  {
    if !ok then DropJob(worker, Refused(if worker.local.Erring? then worker.local.error else SerializationError))
    else if worker.jobs[0].UpdateJob? then DropKey(worker, true)
    else DropJob(worker, Reply.Inserted)
  }

  /** What the next step of a worker at `pc` finds, and what it does to its local state, the memory and the history. */
  function NextEffect<K(==), T>(
      w: World<K, T>, pc: Protocol.Pc, worker: Worker<K, T>, mem: Memory<K>, log: seq<LogEntry<K, T>>): Effect<K, T>
    requires worker.jobs != [] && |mem.ix.chains| > 0
    requires worker.jobs[0].UpdateJob? && worker.jobs[0].keys == [] ==> pc.Idle? || pc.Dead?
  {
    var job := worker.jobs[0];
    match pc
    case Idle =>
      var after :=
        if job.UpdateJob? && job.keys == [] then DropJob(worker, Counted(worker.found)) else worker;
      Effect(Protocol.Succeeds, after, mem, log)
    case InLookup =>
      var found := IxGet(w.env.keys, mem.ix, KeyOf(w, job));
      Effect(Protocol.Finds(found), worker, mem, AfterLookup(w, worker, found, log))
    case EndLookup(found) =>
      var after :=
        if job.InsertJob? && found.Some? then DropJob(worker, Refused(RecordDuplicated))
        else if job.UpdateJob? && found.None? then DropKey(worker, false)
        else worker;
      Effect(Protocol.Succeeds, after, mem, log)
    case WantTable =>
      if TableLockWorks(w.capacity) then Effect(Protocol.Succeeds, worker, mem, log)
      else
        Effect(Protocol.Succeeds, DropJob(worker, Refused(NoLock(w, w.capacity))), mem, WithoutLock(w, worker, log))
    case WantRecord(position) =>
      var error := NoLock(w, position / StripeSize(w.capacity));
      if !RecordLockable(w.capacity, position) then
        Effect(Protocol.Succeeds, DropJob(worker, Refused(error)), mem,
               if job.UpdateJob? then Ends(worker, log, UpdateOp(job.keys[0], job.f), Refused(error)) else log)
      else if job.UpdateJob? then
        Effect(Protocol.Succeeds, worker.(local := Target(position, |log|)), mem,
               log + [Changed(worker.id, position, job.keys[0], job.f, Pending)])
      else
        Effect(Protocol.Succeeds, worker, mem, log)
    case Work(_, left) =>
      (match job
       case InsertJob(record) => InsertWork(w, left, record, worker, mem, log)
       case UpdateJob(_, f) => UpdateWork(w, left, f, worker, mem, log))
    case InIndex(_) =>
      if job.InsertJob? && worker.local.Reserved? then
        Effect(Protocol.Succeeds, worker,
               mem.(ix := IxInsert(w.env.keys, mem.ix, KeyOf(w, job), worker.local.slot).0),
               log + [Stored(worker.id, worker.local.slot, job.record)])
      else
        Effect(Protocol.Succeeds, worker, mem, log)
    case Release(_, ok) =>
      Effect(Protocol.Succeeds, Returned(worker, ok), mem, log)
    case _ =>
      Effect(Protocol.Succeeds, worker, mem, log)
  }

  /** An update between its keys always has a key. */
  ghost predicate CallReady<K, T>(proc: Protocol.Proc, worker: Worker<K, T>) {
    && proc.calls == CallsOf(worker.jobs)
    && (proc.pc.Idle? || proc.pc.Dead? ||
        (worker.jobs != [] && (worker.jobs[0].UpdateJob? ==> worker.jobs[0].keys != [])))
  }

  ghost predicate WorkStep<K(!new), T>(w: World<K, T>, s: Config<K, T>, p: nat, s': Config<K, T>)
    requires SameShape(s.lock.table) && SameShape(s.lock.index) && |s.mem.ix.chains| > 0
  {
    && p < |s.workers| == |s.lock.procs| && s.workers[p].jobs != []
    && CallReady(s.lock.procs[p], s.workers[p])
    && var e := NextEffect(w, s.lock.procs[p].pc, s.workers[p], s.mem, s.log);
       && Protocol.ProcStep(w.capacity, s.lock, p, e.o, s'.lock)
       && s'.workers == s.workers[p := e.worker] && s'.mem == e.mem && s'.log == e.log
  }

  // ---------- What the history says ----------

  /** The record of a slot according to the history: its last insertion, then every completed closure in order. */
  function Fold<K, T>(initial: map<nat, T>, log: seq<LogEntry<K, T>>, slot: nat): Option<T>
    decreases |log|
  {
    if log == [] then
      if slot in initial then Some(initial[slot]) else None
    else
      FoldOne(Fold(initial, log[..|log| - 1], slot), log[|log| - 1], slot)
  }

  function FoldOne<K, T>(before: Option<T>, x: LogEntry<K, T>, slot: nat): Option<T> {
    if !At(x, slot) then before
    else
      match x
      case Stored(_, _, record) => Some(record)
      case Changed(_, _, _, f, status) =>
        if status.Applied? && before.Some? then Some(f(before.value)) else before
      case Unmet(_, _, _) => before
  }

  /** The history changes by one entry, new or with a new status, that does not concern `slot`. */
  ghost predicate Spares<K, T>(log: seq<LogEntry<K, T>>, log': seq<LogEntry<K, T>>, slot: nat) {
    || log' == log
    || (|log'| == |log| + 1 && log'[..|log|] == log && !At(log'[|log|], slot))
    || (|log'| == |log| && exists e | 0 <= e < |log| ::
          !At(log[e], slot) && !At(log'[e], slot) && log' == log[e := log'[e]])
  }

  /** No entry after `entry` concerns `slot`. */
  ghost predicate LastFor<K, T>(log: seq<LogEntry<K, T>>, slot: nat, entry: nat) {
    forall e | entry < e < |log| :: !At(log[e], slot)
  }

  lemma {:induction false} FoldUpdateOther<K, T>(
      initial: map<nat, T>, log: seq<LogEntry<K, T>>, e: nat, x: LogEntry<K, T>, slot: nat)
    requires e < |log| && !At(log[e], slot) && !At(x, slot)
    ensures Fold(initial, log[e := x], slot) == Fold(initial, log, slot)
    decreases |log|
  {
    var n := |log| - 1;
    if e < n {
      assert log[e := x][..n] == log[..n][e := x];
      FoldUpdateOther(initial, log[..n], e, x, slot);
    } else {
      assert log[e := x][..n] == log[..n];
    }
  }

  lemma FoldSpared<K, T>(initial: map<nat, T>, log: seq<LogEntry<K, T>>, log': seq<LogEntry<K, T>>, slot: nat)
    requires Spares(log, log', slot)
    ensures Fold(initial, log', slot) == Fold(initial, log, slot)
  {
    if log' != log && |log'| == |log| {
      var e :| 0 <= e < |log| && !At(log[e], slot) && !At(log'[e], slot) && log' == log[e := log'[e]];
      FoldUpdateOther(initial, log, e, log'[e], slot);
    }
  }

  lemma FoldAppend<K, T>(initial: map<nat, T>, log: seq<LogEntry<K, T>>, x: LogEntry<K, T>, slot: nat)
    ensures Fold(initial, log + [x], slot) == FoldOne(Fold(initial, log, slot), x, slot)
  {
    assert (log + [x])[..|log|] == log;
  }

  /** Settling the last entry of a slot applies its closure once, or not at all. */
  lemma {:induction false} FoldSettle<K, T>(
      initial: map<nat, T>, log: seq<LogEntry<K, T>>, slot: nat, entry: nat, status: Status<T>)
    requires entry < |log| && log[entry].Changed? && log[entry].slot == slot && log[entry].status.Pending?
    requires LastFor(log, slot, entry) && !status.Pending?
    ensures var before := Fold(initial, log, slot);
            Fold(initial, Settle(log, entry, status), slot)
            == if status.Applied? && before.Some? then Some(log[entry].f(before.value)) else before
    decreases |log|
  {
    var n, settled := |log| - 1, Settle(log, entry, status);
    if entry < n {
      assert settled[..n] == Settle(log[..n], entry, status);
      assert LastFor(log[..n], slot, entry);
      FoldSettle(initial, log[..n], slot, entry, status);
      assert !At(log[n], slot);
    } else {
      assert settled[..n] == log[..n];
    }
  }

  lemma SettleSpares<K, T>(log: seq<LogEntry<K, T>>, entry: nat, status: Status<T>, slot: nat)
    requires entry < |log| && log[entry].Changed? && log[entry].slot != slot
    ensures Spares(log, Settle(log, entry, status), slot)
  {
    var settled := Settle(log, entry, status);
    assert !At(log[entry], slot) && !At(settled[entry], slot) && settled == log[entry := settled[entry]];
  }
}
