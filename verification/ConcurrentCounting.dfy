/**
 Counting concurrent increments: however the calls interleave, a record is at every moment increased by
 exactly the number of calls on its key that were applied, and in the end by the number of all calls,
 if the closures keep records storable.
 */
module ConcurrentCounting {
  import opened Results
  import opened SlotModel
  import opened IndexModel
  import opened TableModel
  import opened Semaphores
  import opened ConcurrentModel
  import opened ConcurrentTable
  import opened ConcurrentProperties
  import Protocol = LockProtocol

  /**
   A number in a record, how far counting it up by one is exact, and whether the closures are known
   to leave every storable record storable.
   */
  datatype Gauge<!T> = Gauge(value: T -> int, limit: int, storable: bool)

  /** The closure adds one, below the limit; at the limit it may do anything. */
  ghost predicate Increments<T(!new)>(gauge: Gauge<T>, f: T -> T) {
    forall r | gauge.value(r) < gauge.limit :: gauge.value(f(r)) == gauge.value(r) + 1
  }

  ghost predicate KeepsFit<K, T(!new)>(w: World<K, T>, f: T -> T) {
    forall r | Fits(w, r) :: Fits(w, f(r))
  }

  ghost predicate ClosureOk<K, T(!new)>(w: World<K, T>, gauge: Gauge<T>, f: T -> T) {
    Increments(gauge, f) && (gauge.storable ==> KeepsFit(w, f))
  }

  // ---------- Calls still to be applied ----------

  function Occurrences<K(==)>(keys: seq<K>, key: K): nat {
    if keys == [] then 0 else (if keys[0] == key then 1 else 0) + Occurrences(keys[1..], key)
  }

  /** The updates of `key` that a list of jobs asks for. */
  function Asked<K(==), T>(jobs: seq<Job<K, T>>, key: K): nat {
    if jobs == [] then 0
    else (if jobs[0].UpdateJob? then Occurrences(jobs[0].keys, key) else 0) + Asked(jobs[1..], key)
  }

  /** The update under way has been applied and waits for its lock to be dropped. */
  function Applying<K(==), T>(pc: Protocol.Pc, worker: Worker<K, T>, key: K): nat {
    if worker.jobs != [] && worker.jobs[0].UpdateJob? && worker.jobs[0].keys != [] && worker.jobs[0].keys[0] == key
       && ((pc.Work? && pc.left == 0) || (pc.Release? && pc.ok))
    then 1 else 0
  }

  function Remaining<K(==), T>(pc: Protocol.Pc, worker: Worker<K, T>, key: K): nat {
    Asked(worker.jobs, key) - Applying(pc, worker, key)
  }

  function TotalRemaining<K(==), T>(procs: seq<Protocol.Proc>, workers: seq<Worker<K, T>>, key: K): nat
    requires |procs| == |workers|
  {
    if procs == [] then 0
    else Remaining(procs[0].pc, workers[0], key) + TotalRemaining(procs[1..], workers[1..], key)
  }

  function TotalAsked<K(==), T>(programs: seq<seq<Job<K, T>>>, key: K): nat {
    if programs == [] then 0 else Asked(programs[0], key) + TotalAsked(programs[1..], key)
  }

  lemma {:induction false} TotalRemainingUpdate<K(!new), T(!new)>(
      procs: seq<Protocol.Proc>, workers: seq<Worker<K, T>>, p: nat, proc: Protocol.Proc, worker: Worker<K, T>, key: K)
    requires p < |procs| == |workers|
    ensures TotalRemaining(procs[p := proc], workers[p := worker], key)
         == TotalRemaining(procs, workers, key) - Remaining(procs[p].pc, workers[p], key)
            + Remaining(proc.pc, worker, key)
  {
    if p == 0 {
      assert procs[0 := proc][1..] == procs[1..] && workers[0 := worker][1..] == workers[1..];
    } else {
      assert procs[p := proc][1..] == procs[1..][p - 1 := proc];
      assert workers[p := worker][1..] == workers[1..][p - 1 := worker];
      TotalRemainingUpdate(procs[1..], workers[1..], p - 1, proc, worker, key);
    }
  }

  // ---------- Applied updates in the history ----------

  function AppliedTo<K, T>(log: seq<LogEntry<K, T>>, slot: nat): nat
    decreases |log|
  {
    if log == [] then 0 else AppliedTo(log[..|log| - 1], slot) + Applies(log[|log| - 1], slot)
  }

  function Applies<K, T>(x: LogEntry<K, T>, slot: nat): nat {
    if x.Changed? && x.slot == slot && x.status.Applied? then 1 else 0
  }

  lemma AppliedAppend<K, T>(log: seq<LogEntry<K, T>>, x: LogEntry<K, T>, slot: nat)
    ensures AppliedTo(log + [x], slot) == AppliedTo(log, slot) + Applies(x, slot)
  {
    assert (log + [x])[..|log|] == log;
  }

  lemma {:induction false} AppliedSettle<K, T>(log: seq<LogEntry<K, T>>, entry: nat, status: Status<T>, slot: nat)
    requires entry < |log| && log[entry].Changed? && log[entry].status.Pending?
    ensures AppliedTo(Settle(log, entry, status), slot)
         == AppliedTo(log, slot) + if status.Applied? && log[entry].slot == slot then 1 else 0
    decreases |log|
  {
    var n, settled := |log| - 1, Settle(log, entry, status);
    if entry < n {
      assert settled[..n] == Settle(log[..n], entry, status);
      AppliedSettle(log[..n], entry, status, slot);
    } else {
      assert settled[..n] == log[..n];
    }
  }

  /** All closures of the history count up, inserted records fit, and the slot is not inserted into. */
  ghost predicate Incrementing<K, T(!new)>(
      w: World<K, T>, gauge: Gauge<T>, log: seq<LogEntry<K, T>>, slot: nat)
  {
    forall e | 0 <= e < |log| :: EntryIncrements(w, gauge, log[e], slot)
  }

  ghost predicate EntryIncrements<K, T(!new)>(w: World<K, T>, gauge: Gauge<T>, x: LogEntry<K, T>, slot: nat) {
    match x
    case Stored(_, at, record) => at != slot && Fits(w, record)
    case Changed(_, _, _, f, _) => ClosureOk(w, gauge, f)
    case Unmet(_, _, _) => true
  }

  ghost predicate InitialFits<K, T>(w: World<K, T>) {
    forall i | i in w.initial :: Fits(w, w.initial[i])
  }

  /** If all records fit at the start and closures keep them fitting, every record always fits. */
  lemma {:induction false} FoldFits<K(!new), T(!new)>(
      w: World<K, T>, gauge: Gauge<T>, log: seq<LogEntry<K, T>>, slot: nat, i: nat)
    requires gauge.storable && InitialFits(w) && Incrementing(w, gauge, log, slot)
    ensures var record := Fold(w.initial, log, i); record.Some? ==> Fits(w, record.value)
    decreases |log|
  {
    hide Fits, Increments;
    if log != [] {
      var n := |log| - 1;
      assert forall e | 0 <= e < n :: log[..n][e] == log[e];
      FoldFits(w, gauge, log[..n], slot, i);
      assert EntryIncrements(w, gauge, log[n], slot);
    }
  }

  /** Below the limit, the value of the slot is its first value plus the number of applied updates. */
  lemma {:induction false} FoldCounts<K, T(!new)>(
      w: World<K, T>, gauge: Gauge<T>, log: seq<LogEntry<K, T>>, slot: nat)
    requires slot in w.initial && Incrementing(w, gauge, log, slot)
    requires gauge.value(w.initial[slot]) + AppliedTo(log, slot) <= gauge.limit
    ensures var record := Fold(w.initial, log, slot);
            record.Some? && gauge.value(record.value) == gauge.value(w.initial[slot]) + AppliedTo(log, slot)
    decreases |log|
  {
    if log != [] {
      var n := |log| - 1;
      assert forall e | 0 <= e < n :: log[..n][e] == log[e];
      FoldCounts(w, gauge, log[..n], slot);
      assert EntryIncrements(w, gauge, log[n], slot);
    }
  }

  // ---------- Which slot an update goes to ----------

  ghost predicate JobsIncrement<K, T(!new)>(w: World<K, T>, gauge: Gauge<T>, jobs: seq<Job<K, T>>) {
    forall j | 0 <= j < |jobs| && jobs[j].UpdateJob? :: ClosureOk(w, gauge, jobs[j].f)
  }

  /** The key's lookup leads to the slot, and no other key's does. */
  ghost predicate KeyAt<K(!new), T>(w: World<K, T>, mem: Memory<K>, key: K, slot: nat) {
    && |mem.ix.chains| > 0
    && slot in mem.ix.entries && mem.ix.entries[slot].key == key
    && IxGet(w.env.keys, mem.ix, key) == Some(slot)
  }

  /** An update under way goes to the slot exactly if it is one of the key; it fails only where records may not fit. */
  ghost predicate Routed<K, T>(
      gauge: Gauge<T>, pc: Protocol.Pc, worker: Worker<K, T>, key: K, slot: nat)
  {
    worker.jobs != [] && worker.jobs[0].UpdateJob? && worker.jobs[0].keys != [] ==>
      var current := worker.jobs[0].keys[0];
      && (pc.EndLookup? ==> (pc.found == Some(slot) <==> current == key))
      && (pc.WantRecord? ==> (pc.position == slot <==> current == key))
      && (pc.Work? && pc.left == 2 && worker.local.Target? ==> (worker.local.slot == slot <==> current == key))
      && (pc.Work? && pc.left == 1 && worker.local.Loaded? ==> (worker.local.slot == slot <==> current == key))
      && (pc.Release? && gauge.storable ==> pc.ok)
  }

  /** What one step of a worker keeps for the count. */
  ghost predicate Counts<K(!new), T(!new)>(
      w: World<K, T>, gauge: Gauge<T>, key: K, slot: nat, mem: Memory<K>, log: seq<LogEntry<K, T>>,
      pc: Protocol.Pc, worker: Worker<K, T>)
  {
    && KeyAt(w, mem, key, slot) && Incrementing(w, gauge, log, slot)
    && JobsIncrement(w, gauge, worker.jobs) && Routed(gauge, pc, worker, key, slot)
  }

  ghost predicate CountInv<K(!new), T(!new)>(
      w: World<K, T>, gauge: Gauge<T>, key: K, slot: nat, total: int, s: Config<K, T>)
  {
    && Inv(w, s)
    && (forall p | 0 <= p < |s.workers| ::
          Counts(w, gauge, key, slot, s.mem, s.log, s.lock.procs[p].pc, s.workers[p]))
    && KeyAt(w, s.mem, key, slot) && Incrementing(w, gauge, s.log, slot)
    && (gauge.storable ==> InitialFits(w))
    && AppliedTo(s.log, slot) + TotalRemaining(s.lock.procs, s.workers, key) <= total
    && (gauge.storable ==> AppliedTo(s.log, slot) + TotalRemaining(s.lock.procs, s.workers, key) == total)
  }

  /** The lookup of a key leads to the slot exactly if it is the slot's key. */
  lemma LookupRoutes<K(!new), T(!new)>(w: World<K, T>, mem: Memory<K>, key: K, slot: nat, other: K)
    requires Frame(w, mem) && KeyAt(w, mem, key, slot)
    ensures IxGet(w.env.keys, mem.ix, other) == Some(slot) <==> other == key
  {
    hide Bucket, Partition, FirstWith;
    SearchFindsKey(w.env.keys, mem.ix, other);
  }

  lemma KeyAtKept<K(!new), T(!new)>(w: World<K, T>, mem: Memory<K>, key: K, slot: nat, inserted: K, at: nat)
    requires Frame(w, mem) && KeyAt(w, mem, key, slot) && mem.ix.free != []
    ensures KeyAt(w, mem.(ix := IxInsert(w.env.keys, mem.ix, inserted, at).0), key, slot)
  {
    hide Bucket, FirstWith;
    PoppedSlotApart(w, mem);
    LookupAfterInsert(w.env.keys, mem.ix, inserted, at, key);
  }

  lemma DropKeyAsks<K(!new), T(!new)>(worker: Worker<K, T>, key: K)
    requires worker.jobs != [] && worker.jobs[0].UpdateJob? && worker.jobs[0].keys != []
    ensures Asked(worker.jobs, key)
         == Asked(WithoutKey(worker.jobs), key) + if worker.jobs[0].keys[0] == key then 1 else 0
    ensures Asked(worker.jobs, key) >= Asked(worker.jobs[1..], key)
  {
    assert WithoutKey(worker.jobs)[1..] == worker.jobs[1..];
  }

  // ---------- One step ----------

  /**
   The step moves a call from the remaining ones to the applied ones, or none; where records may not
   fit, it may drop calls.
   */
  ghost predicate CountOk<K(!new), T(!new)>(
      w: World<K, T>, gauge: Gauge<T>, key: K, slot: nat, log: seq<LogEntry<K, T>>,
      pc: Protocol.Pc, worker: Worker<K, T>,
      e: Effect<K, T>, pc': Protocol.Pc)
  {
    && Counts(w, gauge, key, slot, e.mem, e.log, pc', e.worker)
    && (var before, after := AppliedTo(log, slot) + Remaining(pc, worker, key),
                             AppliedTo(e.log, slot) + Remaining(pc', e.worker, key);
        after <= before && (gauge.storable ==> after == before))
  }

  lemma LocalCount<K(!new), T(!new)>(
      w: World<K, T>, gauge: Gauge<T>, key: K, slot: nat, mem: Memory<K>, log: seq<LogEntry<K, T>>,
      proc: Protocol.Proc, worker: Worker<K, T>, e: Effect<K, T>, proc': Protocol.Proc)
    requires Frame(w, mem) && Place(w, mem, log, proc, worker)
    requires Counts(w, gauge, key, slot, mem, log, proc.pc, worker)
    requires Steps(w, mem, log, proc, worker, e, proc')
    requires !proc.pc.WantRecord? && !proc.pc.InIndex? && (proc.pc.Work? ==> proc.pc.left == 0)
    ensures CountOk(w, gauge, key, slot, log, proc.pc, worker, e, proc'.pc)
  {
    hide TableSem, RecordSem, Frame, CountOk, Counts, NextEffect, Protocol.After;
    if worker.jobs[0].InsertJob? {
      LocalInsertCount(w, gauge, key, slot, mem, log, proc, worker, e, proc');
    } else {
      LocalUpdateCount(w, gauge, key, slot, mem, log, proc, worker, e, proc');
    }
  }

  lemma LocalInsertCount<K(!new), T(!new)>(
      w: World<K, T>, gauge: Gauge<T>, key: K, slot: nat, mem: Memory<K>, log: seq<LogEntry<K, T>>,
      proc: Protocol.Proc, worker: Worker<K, T>, e: Effect<K, T>, proc': Protocol.Proc)
    requires Frame(w, mem) && Place(w, mem, log, proc, worker)
    requires Counts(w, gauge, key, slot, mem, log, proc.pc, worker)
    requires Steps(w, mem, log, proc, worker, e, proc')
    requires !proc.pc.WantRecord? && !proc.pc.InIndex? && (proc.pc.Work? ==> proc.pc.left == 0)
    requires worker.jobs[0].InsertJob?
    ensures CountOk(w, gauge, key, slot, log, proc.pc, worker, e, proc'.pc)
  {
    hide TableSem, RecordSem, TableLockWorks, Fits, Frame, KeyAt, IxGet, ClosureOk, Settle, WriteCell, Fold, AppliedTo,
         NoRoom, NoLock, Misfit;
    if e.log != log {
      AppliedAppend(log, e.log[|log|], slot);
    }
    JobsKeepIncrementing(w, gauge, worker);
  }

  lemma LocalUpdateCount<K(!new), T(!new)>(
      w: World<K, T>, gauge: Gauge<T>, key: K, slot: nat, mem: Memory<K>, log: seq<LogEntry<K, T>>,
      proc: Protocol.Proc, worker: Worker<K, T>, e: Effect<K, T>, proc': Protocol.Proc)
    requires Frame(w, mem) && Place(w, mem, log, proc, worker)
    requires Counts(w, gauge, key, slot, mem, log, proc.pc, worker)
    requires Steps(w, mem, log, proc, worker, e, proc')
    requires !proc.pc.WantRecord? && !proc.pc.InIndex? && (proc.pc.Work? ==> proc.pc.left == 0)
    requires worker.jobs[0].UpdateJob?
    ensures CountOk(w, gauge, key, slot, log, proc.pc, worker, e, proc'.pc)
  {
    hide TableSem, RecordSem, TableLockWorks, Fits, Frame, KeyAt, IxGet, ClosureOk, Settle, WriteCell, Fold, AppliedTo,
         NoRoom, NoLock, Misfit;
    var keys := worker.jobs[0].keys;
    if keys != [] {
      DropKeyAsks(worker, key);
      if proc.pc.InLookup? {
        LookupRoutes(w, mem, key, slot, keys[0]);
      }
    }
    if e.log != log {
      AppliedAppend(log, e.log[|log|], slot);
    }
    JobsKeepIncrementing(w, gauge, worker);
  }

  lemma JobsKeepIncrementing<K(!new), T(!new)>(w: World<K, T>, gauge: Gauge<T>, worker: Worker<K, T>)
    requires worker.jobs != [] && JobsIncrement(w, gauge, worker.jobs)
    ensures JobsIncrement(w, gauge, worker.jobs[1..])
    ensures worker.jobs[0].UpdateJob? && worker.jobs[0].keys != [] ==> JobsIncrement(w, gauge, WithoutKey(worker.jobs))
  {
    hide ClosureOk;
    if worker.jobs[0].UpdateJob? && worker.jobs[0].keys != [] {
      var jobs := WithoutKey(worker.jobs);
      assert jobs[0].f == worker.jobs[0].f;
      assert forall j | 1 <= j < |jobs| :: jobs[j] == worker.jobs[j];
    }
  }

  lemma AcquireCount<K(!new), T(!new)>(
      w: World<K, T>, gauge: Gauge<T>, key: K, slot: nat, mem: Memory<K>, log: seq<LogEntry<K, T>>,
      proc: Protocol.Proc, worker: Worker<K, T>, e: Effect<K, T>, proc': Protocol.Proc)
    requires Frame(w, mem) && Place(w, mem, log, proc, worker)
    requires Counts(w, gauge, key, slot, mem, log, proc.pc, worker)
    requires Steps(w, mem, log, proc, worker, e, proc') && proc.pc.WantRecord?
    ensures CountOk(w, gauge, key, slot, log, proc.pc, worker, e, proc'.pc)
  {
    hide TableSem, RecordSem, TableLockWorks, Fits, KeyAt, IxGet, ClosureOk, Fold, AppliedTo;
    LedToLockable(w, mem, log, proc, worker);
    AppliedAppend(log, e.log[|log|], slot);
  }

  lemma ReadCount<K(!new), T(!new)>(
      w: World<K, T>, gauge: Gauge<T>, key: K, slot: nat, mem: Memory<K>, log: seq<LogEntry<K, T>>,
      proc: Protocol.Proc, worker: Worker<K, T>, e: Effect<K, T>, proc': Protocol.Proc, phase: Phase)
    requires AllOk(w, mem, log, proc, worker, phase) && Counts(w, gauge, key, slot, mem, log, proc.pc, worker)
    requires Steps(w, mem, log, proc, worker, e, proc')
    requires worker.jobs[0].UpdateJob? && proc.pc.Work? && proc.pc.left == 2
    ensures CountOk(w, gauge, key, slot, log, proc.pc, worker, e, proc'.pc)
  {
    hide TableSem, RecordSem, TableLockWorks, Fits, KeyAt, IxGet, ClosureOk, Fold, AppliedTo, Frame, ListOk;
    assert Faithful(w, mem.cells, log, worker.local.slot);
  }

  lemma FitsAfter<K(!new), T(!new)>(w: World<K, T>, gauge: Gauge<T>, f: T -> T, record: T)
    requires gauge.storable && ClosureOk(w, gauge, f) && Fits(w, record)
    ensures Fits(w, f(record))
  {
  }

  lemma ApplyCount<K(!new), T(!new)>(
      w: World<K, T>, gauge: Gauge<T>, key: K, slot: nat, mem: Memory<K>, log: seq<LogEntry<K, T>>,
      proc: Protocol.Proc, worker: Worker<K, T>, e: Effect<K, T>, proc': Protocol.Proc)
    requires gauge.storable ==> InitialFits(w)
    requires Place(w, mem, log, proc, worker) && Counts(w, gauge, key, slot, mem, log, proc.pc, worker)
    requires Steps(w, mem, log, proc, worker, e, proc')
    requires worker.jobs[0].UpdateJob? && proc.pc.Work? && proc.pc.left == 1
    ensures CountOk(w, gauge, key, slot, log, proc.pc, worker, e, proc'.pc)
  {
    hide TableSem, RecordSem, TableLockWorks, Fits, IxGet, ClosureOk, Fold, AppliedTo;
    var Loaded(at, entry, record) := worker.local;
    var changed := worker.jobs[0].f(record);
    if gauge.storable {
      FoldFits(w, gauge, log, slot, at);
      FitsAfter(w, gauge, worker.jobs[0].f, record);
    }
    AppliedSettle(log, entry, if Fits(w, changed) then Applied(record) else Rejected(Misfit(w, changed)), slot);
  }

  lemma InsertCount<K(!new), T(!new)>(
      w: World<K, T>, gauge: Gauge<T>, key: K, slot: nat, mem: Memory<K>, log: seq<LogEntry<K, T>>,
      proc: Protocol.Proc, worker: Worker<K, T>, e: Effect<K, T>, proc': Protocol.Proc)
    requires AllOk(w, mem, log, proc, worker, PhaseOf(proc.pc, worker))
    requires Counts(w, gauge, key, slot, mem, log, proc.pc, worker)
    requires Steps(w, mem, log, proc, worker, e, proc')
    requires worker.jobs[0].InsertJob? && ((proc.pc.Work? && proc.pc.left > 0) || proc.pc.InIndex?)
    ensures CountOk(w, gauge, key, slot, log, proc.pc, worker, e, proc'.pc)
  {
    hide TableSem, RecordSem, TableLockWorks, Fits, IxGet, ClosureOk, Fold, AppliedTo, Frame, Values, Threads,
         FreeCells;
    if proc.pc.InIndex? {
      KeyAtKept(w, mem, key, slot, KeyOf(w, worker.jobs[0]), worker.local.slot);
      PoppedSlotApart(w, mem);
    }
    if e.log != log {
      AppliedAppend(log, e.log[|log|], slot);
    }
  }

  lemma OwnCount<K(!new), T(!new)>(
      w: World<K, T>, gauge: Gauge<T>, key: K, slot: nat, s: Config<K, T>, p: nat, s': Config<K, T>)
    requires (gauge.storable ==> InitialFits(w)) && Inv(w, s) && WorkStep(w, s, p, s')
    requires Counts(w, gauge, key, slot, s.mem, s.log, s.lock.procs[p].pc, s.workers[p])
    ensures p < |s'.lock.procs|
    ensures var e := NextEffect(w, s.lock.procs[p].pc, s.workers[p], s.mem, s.log);
            CountOk(w, gauge, key, slot, s.log, s.lock.procs[p].pc, s.workers[p], e, s'.lock.procs[p].pc)
  {
    hide TableSem, RecordSem, Frame, ListOk, Values, CountOk, Counts, NextEffect, Protocol.After, Protocol.Inv,
         InitialFits;
    FrameHasBuckets(w, s.mem);
    var proc, worker := s.lock.procs[p], s.workers[p];
    var e, proc' := NextEffect(w, proc.pc, worker, s.mem, s.log), s'.lock.procs[p];
    assert Place(w, s.mem, s.log, proc, worker);
    if proc.pc.WantRecord? {
      AcquireCount(w, gauge, key, slot, s.mem, s.log, proc, worker, e, proc');
    } else if worker.jobs[0].InsertJob? && ((proc.pc.Work? && proc.pc.left > 0) || proc.pc.InIndex?) {
      OthersQuiet(w, s, p);
      PhaseOfOne(s.lock.procs, s.workers, p);
      InsertCount(w, gauge, key, slot, s.mem, s.log, proc, worker, e, proc');
    } else if proc.pc.Work? && proc.pc.left == 2 {
      ReadCount(w, gauge, key, slot, s.mem, s.log, proc, worker, e, proc', CurrentPhase(s.lock.procs, s.workers));
    } else if proc.pc.Work? && proc.pc.left == 1 {
      ApplyCount(w, gauge, key, slot, s.mem, s.log, proc, worker, e, proc');
    } else {
      LocalCount(w, gauge, key, slot, s.mem, s.log, proc, worker, e, proc');
    }
  }

  lemma StepKeepsCount<K(!new), T(!new)>(
      w: World<K, T>, gauge: Gauge<T>, key: K, slot: nat, total: int, s: Config<K, T>, p: nat, s': Config<K, T>)
    requires Sound(w.env.codec)
    requires CountInv(w, gauge, key, slot, total, s) && Stepped(w, s, p, s')
    ensures CountInv(w, gauge, key, slot, total, s')
  {
    hide TableSem, RecordSem, Inv, KeyAt, Incrementing, NextEffect, Protocol.After, InitialFits, Routed, JobsIncrement,
         Remaining;
    SteppedKeepsInv(w, s, p, s');
    assert Counts(w, gauge, key, slot, s.mem, s.log, s.lock.procs[p].pc, s.workers[p]);
    OwnCount(w, gauge, key, slot, s, p, s');
    TotalRemainingUpdate(s.lock.procs, s.workers, p, s'.lock.procs[p], s'.workers[p], key);
    forall q | 0 <= q < |s'.workers|
      ensures Counts(w, gauge, key, slot, s'.mem, s'.log, s'.lock.procs[q].pc, s'.workers[q])
    {
      if q != p {
        assert Counts(w, gauge, key, slot, s.mem, s.log, s.lock.procs[q].pc, s.workers[q]);
      }
    }
  }

  // ---------- Whole runs ----------

  lemma {:induction false} RunKeepsCount<K(!new), T(!new)>(
      w: World<K, T>, gauge: Gauge<T>, key: K, slot: nat, total: int, trace: seq<Config<K, T>>, who: seq<nat>)
    requires Sound(w.env.codec)
    requires Interleaving(w, trace, who) && CountInv(w, gauge, key, slot, total, trace[0])
    ensures CountInv(w, gauge, key, slot, total, trace[|who|])
  {
    hide CountInv, WorkStep;
    if who != [] {
      var n := |who| - 1;
      assert forall i | 0 <= i < n :: Stepped(w, trace[i], who[i], trace[i + 1]);
      RunKeepsCount(w, gauge, key, slot, total, trace[..n + 1], who[..n]);
      assert trace[..n + 1][n] == trace[n] && Stepped(w, trace[n], who[n], trace[n + 1]);
      StepKeepsCount(w, gauge, key, slot, total, trace[n], who[n], trace[n + 1]);
    }
  }

  lemma {:induction false} StartAsks<K(!new), T(!new)>(
      procs: seq<Protocol.Proc>, workers: seq<Worker<K, T>>, programs: seq<seq<Job<K, T>>>, key: K)
    requires |procs| == |workers| == |programs|
    requires forall p | 0 <= p < |programs| :: procs[p].pc.Idle? && workers[p].jobs == programs[p]
    ensures TotalRemaining(procs, workers, key) == TotalAsked(programs, key)
  {
    if procs != [] {
      assert forall p | 0 <= p < |programs| - 1 ::
          procs[1..][p] == procs[p + 1] && workers[1..][p] == workers[p + 1] && programs[1..][p] == programs[p + 1];
      StartAsks(procs[1..], workers[1..], programs[1..], key);
    }
  }

  lemma {:induction false} NothingRemains<K(!new), T(!new)>(
      procs: seq<Protocol.Proc>, workers: seq<Worker<K, T>>, key: K)
    requires |procs| == |workers| && forall p | 0 <= p < |workers| :: workers[p].jobs == []
    ensures TotalRemaining(procs, workers, key) == 0
  {
    if procs != [] {
      assert forall p | 0 <= p < |workers| - 1 :: workers[1..][p] == workers[p + 1];
      NothingRemains(procs[1..], workers[1..], key);
    }
  }

  /** A run of programs that count up, from a table holding the key, within the limit of the gauge. */
  ghost predicate CountingRun<K(!new), T(!new)>(
      w: World<K, T>, gauge: Gauge<T>, key: K, slot: nat, mem: Memory<K>, arena: Arena, programs: seq<seq<Job<K, T>>>,
      trace: seq<Config<K, T>>, who: seq<nat>)
  {
    && Sound(w.env.codec) && Holding(w, mem, arena) && (gauge.storable ==> InitialFits(w))
    && |mem.ix.chains| > 0 && IxGet(w.env.keys, mem.ix, key) == Some(slot)
    && (forall p | 0 <= p < |programs| :: JobsIncrement(w, gauge, programs[p]))
    && slot in w.initial && gauge.value(w.initial[slot]) + TotalAsked(programs, key) <= gauge.limit
    && Interleaving(w, trace, who) && trace[0] == Start(w, mem, programs)
  }

  /**
   Any number of processes update any keys, and insert records, in any interleaving; every closure
   adds one below the limit, and the limit is not exceeded. At every moment the record of a key that
   was there at the start is up by exactly the number of its updates that were applied; updates may be
   rejected because their result does not fit.
   */
  lemma AppliedIncrementsAddUp<K(!new), T(!new)>(
      w: World<K, T>, gauge: Gauge<T>, key: K, slot: nat, mem: Memory<K>, arena: Arena, programs: seq<seq<Job<K, T>>>,
      trace: seq<Config<K, T>>, who: seq<nat>)
    requires CountingRun(w, gauge, key, slot, mem, arena, programs, trace, who)
    ensures CountInv(w, gauge, key, slot, TotalAsked(programs, key), trace[|who|])
    ensures slot < |trace[|who|].mem.cells| && slot in w.initial
    ensures AppliedTo(trace[|who|].log, slot) <= TotalAsked(programs, key)
    ensures var record := w.env.codec.deserialize(trace[|who|].mem.cells[slot].Read());
            && record.Some?
            && gauge.value(record.value) == gauge.value(w.initial[slot]) + AppliedTo(trace[|who|].log, slot)
  {
    hide InitialFits, WorkStep, Fold, Remaining, ClosureOk, Inv, Holding, Counts, Incrementing, JobsIncrement, Start,
         Stepped, IxGet, TotalRemaining;
    StartCounts(w, gauge, key, slot, mem, arena, programs);
    var total, last := TotalAsked(programs, key), trace[|who|];
    RunKeepsCount(w, gauge, key, slot, total, trace, who);
    StartInv(w, mem, arena, programs);
    RunKeepsInv(w, trace, who);
    CountsOfState(w, gauge, key, slot, total, last);
    RecordsFaithful(w, last, slot);
    FoldCounts(w, gauge, last.log, slot);
  }

  /**
   If the closures also keep storable records storable, no call is rejected: once all have finished,
   the record is up by the number of all update calls on its key.
   */
  lemma IncrementsAddUp<K(!new), T(!new)>(
      w: World<K, T>, gauge: Gauge<T>, key: K, slot: nat, mem: Memory<K>, arena: Arena, programs: seq<seq<Job<K, T>>>,
      trace: seq<Config<K, T>>, who: seq<nat>)
    requires CountingRun(w, gauge, key, slot, mem, arena, programs, trace, who)
    requires gauge.storable && AllDone(trace[|who|])
    ensures slot < |trace[|who|].mem.cells| && slot in w.initial
    ensures var record := w.env.codec.deserialize(trace[|who|].mem.cells[slot].Read());
            record.Some? && gauge.value(record.value) == gauge.value(w.initial[slot]) + TotalAsked(programs, key)
  {
    hide CountInv, Holding, Stepped, Start;
    AppliedIncrementsAddUp(w, gauge, key, slot, mem, arena, programs, trace, who);
    EndCounts(w, gauge, key, slot, TotalAsked(programs, key), trace[|who|]);
  }

  lemma CountsOfState<K(!new), T(!new)>(
      w: World<K, T>, gauge: Gauge<T>, key: K, slot: nat, total: int, s: Config<K, T>)
    requires CountInv(w, gauge, key, slot, total, s)
    ensures slot in s.mem.ix.entries && Incrementing(w, gauge, s.log, slot) && AppliedTo(s.log, slot) <= total
  {
    hide Frame, ListOk, Values, Place, Counts, Incrementing, Remaining, Protocol.Inv, IxGet;
  }

  lemma EndCounts<K(!new), T(!new)>(w: World<K, T>, gauge: Gauge<T>, key: K, slot: nat, total: int, s: Config<K, T>)
    requires CountInv(w, gauge, key, slot, total, s) && AllDone(s) && gauge.storable
    ensures AppliedTo(s.log, slot) == total
  {
    hide Frame, ListOk, Values, Place, Counts, Incrementing, Remaining, Protocol.Inv, IxGet;
    NothingRemains(s.lock.procs, s.workers, key);
  }

  lemma StartKeyAt<K(!new), T(!new)>(w: World<K, T>, key: K, slot: nat, mem: Memory<K>, arena: Arena)
    requires Holding(w, mem, arena) && IxGet(w.env.keys, mem.ix, key) == Some(slot)
    ensures slot in w.initial && KeyAt(w, mem, key, slot)
  {
    hide Bucket, FirstWith, Partition, Represents;
    SearchFindsKey(w.env.keys, mem.ix, key);
    assert slot in mem.ix.entries.Keys && slot in arena.live.Keys;
  }

  lemma IdleCounts<K(!new), T(!new)>(
      w: World<K, T>, gauge: Gauge<T>, key: K, slot: nat, mem: Memory<K>, pc: Protocol.Pc, worker: Worker<K, T>)
    requires KeyAt(w, mem, key, slot) && pc.Idle? && JobsIncrement(w, gauge, worker.jobs)
    ensures Incrementing(w, gauge, [], slot) && Counts(w, gauge, key, slot, mem, [], pc, worker)
  {
  }

  lemma StartCounts<K(!new), T(!new)>(
      w: World<K, T>, gauge: Gauge<T>, key: K, slot: nat, mem: Memory<K>, arena: Arena, programs: seq<seq<Job<K, T>>>)
    requires Holding(w, mem, arena)
    requires |mem.ix.chains| > 0 && IxGet(w.env.keys, mem.ix, key) == Some(slot)
    requires forall p | 0 <= p < |programs| :: JobsIncrement(w, gauge, programs[p])
    requires gauge.storable ==> InitialFits(w)
    ensures slot in w.initial
    ensures CountInv(w, gauge, key, slot, TotalAsked(programs, key), Start(w, mem, programs))
  {
    hide JobsIncrement, Inv, Holding, KeyAt, IxGet, Remaining, Counts, Incrementing, Created, Stripes, TotalRemaining;
    var s := Start(w, mem, programs);
    StartInv(w, mem, arena, programs);
    StartKeyAt(w, key, slot, mem, arena);
    StartAsks(s.lock.procs, s.workers, programs, key);
    IdleCounts(w, gauge, key, slot, mem, Protocol.Idle, Worker(0, [], Nothing, 0, []));
    forall p | 0 <= p < |s.workers|
      ensures Counts(w, gauge, key, slot, s.mem, s.log, s.lock.procs[p].pc, s.workers[p])
    {
      assert JobsIncrement(w, gauge, programs[p]);
      IdleCounts(w, gauge, key, slot, mem, s.lock.procs[p].pc, s.workers[p]);
    }
  }
}
