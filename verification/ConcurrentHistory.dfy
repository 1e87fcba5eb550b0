/**
 The history of a concurrent run as a sequential one: at every step each entry is one that the
 bounded map would make in the same way, with the same answer.
 */
module ConcurrentHistory {
  import opened Results
  import opened SlotModel
  import opened IndexModel
  import opened TableModel
  import opened TableRefinement
  import opened Semaphores
  import opened ConcurrentModel
  import opened ConcurrentTable
  import opened ConcurrentProperties
  import opened ConcurrentCalls
  import opened ConcurrentKeys
  import Protocol = LockProtocol

  // ---------- Keys of slots ----------

  /** The key of each slot in use: as it was at the start, and as records were inserted. */
  function SlotKeys<K, T>(w: World<K, T>, initial: map<nat, K>, log: seq<LogEntry<K, T>>): map<nat, K>
    decreases |log|
  {
    if log == [] then initial
    else
      var last, before := log[|log| - 1], SlotKeys(w, initial, log[..|log| - 1]);
      if last.Stored? then before[last.slot := w.env.codec.key(last.record)] else before
  }

  ghost function KeysOfIndex<K>(ix: Ix<K>): map<nat, K> {
    map i | i in ix.entries :: ix.entries[i].key
  }

  lemma SlotKeysAppend<K(!new), T(!new)>(
      w: World<K, T>, initial: map<nat, K>, log: seq<LogEntry<K, T>>, x: LogEntry<K, T>)
    ensures SlotKeys(w, initial, log + [x])
         == if x.Stored? then SlotKeys(w, initial, log)[x.slot := w.env.codec.key(x.record)]
            else SlotKeys(w, initial, log)
  {
    assert (log + [x])[..|log|] == log;
  }

  /** Settling an update moves no key. */
  lemma {:induction false} SlotKeysSettle<K(!new), T(!new)>(
      w: World<K, T>, initial: map<nat, K>, log: seq<LogEntry<K, T>>, entry: nat, status: Status<T>)
    ensures SlotKeys(w, initial, Settle(log, entry, status)) == SlotKeys(w, initial, log)
    decreases |log|
  {
    if log != [] {
      var n, settled := |log| - 1, Settle(log, entry, status);
      if entry < n {
        assert settled[..n] == Settle(log[..n], entry, status);
        SlotKeysSettle(w, initial, log[..n], entry, status);
      } else {
        assert settled[..n] == log[..n];
      }
    }
  }

  // ---------- Sound histories ----------

  ghost predicate Settled<K, T>(log: seq<LogEntry<K, T>>, slot: nat) {
    forall d | 0 <= d < |log| && At(log[d], slot) && log[d].Changed? :: !log[d].status.Pending?
  }

  /** How the update of a record goes. */
  function Outcome<K, T>(w: World<K, T>, f: T -> T, record: T): Status<T> {
    if Fits(w, f(record)) then Applied(record) else Rejected(Misfit(w, f(record)))
  }

  /** The update had the outcome that the record it met calls for. */
  ghost predicate Judged<K, T>(
      w: World<K, T>, before: seq<LogEntry<K, T>>, slot: nat, f: T -> T, status: Status<T>)
  {
    var record := Fold(w.initial, before, slot);
    && Settled(before, slot) && record.Some?
    && status == Outcome(w, f, record.value)
  }

  /** The answer of an insertion into a table with these keys. */
  function InsertAnswer<K, T>(w: World<K, T>, keys: set<K>, record: T): Reply<T> {
    if w.env.codec.key(record) in keys then Refused(RecordDuplicated)
    else if !TableLockWorks(w.capacity) then Refused(NoLock(w, w.capacity))
    else if |keys| >= w.capacity || !Fits(w, record) then Refused(NoRoom(w, |keys|, record))
    else Reply.Inserted
  }

  /** An entry that the sequential map would make in the same way. */
  ghost predicate EntryOk<K, T>(
      w: World<K, T>, initial: map<nat, K>, before: seq<LogEntry<K, T>>, x: LogEntry<K, T>)
  {
    var keys := SlotKeys(w, initial, before);
    match x
    case Stored(_, slot, record) =>
      slot < w.capacity && slot !in keys && InsertAnswer(w, keys.Values, record) == Reply.Inserted
    case Changed(_, slot, key, f, status) =>
      slot in keys && keys[slot] == key && (!status.Pending? ==> Judged(w, before, slot, f, status))
    case Unmet(_, op, reply) =>
      match op
      case InsertOp(record) => reply.Refused? && reply == InsertAnswer(w, keys.Values, record)
      case UpdateOp(key, _) => key !in keys.Values && reply == Reply.Updated(None)
      case _ => false
  }

  ghost predicate HistoryOk<K, T>(w: World<K, T>, initial: map<nat, K>, log: seq<LogEntry<K, T>>) {
    forall e | 0 <= e < |log| :: EntryOk(w, initial, log[..e], log[e])
  }

  lemma AppendOk<K(!new), T(!new)>(
      w: World<K, T>, initial: map<nat, K>, log: seq<LogEntry<K, T>>, x: LogEntry<K, T>)
    requires HistoryOk(w, initial, log) && EntryOk(w, initial, log, x)
    ensures HistoryOk(w, initial, log + [x])
  {
    hide EntryOk;
    var log' := log + [x];
    forall e | 0 <= e < |log'| ensures EntryOk(w, initial, log'[..e], log'[e]) {
      assert log'[..e] == log[..e];
      assert log[..|log|] == log;
    }
  }

  /** Entries behind the last one of a slot, and that one as long as it is pending, do not matter to the slot. */
  lemma {:induction false} FoldBefore<K, T>(initial: map<nat, T>, log: seq<LogEntry<K, T>>, slot: nat, entry: nat)
    requires entry < |log| && log[entry].Changed? && log[entry].slot == slot && log[entry].status.Pending?
    requires LastFor(log, slot, entry)
    ensures Fold(initial, log, slot) == Fold(initial, log[..entry], slot)
    decreases |log|
  {
    var n := |log| - 1;
    if entry < n {
      assert !At(log[n], slot);
      assert LastFor(log[..n], slot, entry);
      FoldBefore(initial, log[..n], slot, entry);
      assert log[..n][..entry] == log[..entry];
    }
  }

  lemma EntryKept<K(!new), T(!new)>(
      w: World<K, T>, initial: map<nat, K>, log: seq<LogEntry<K, T>>, entry: nat, status: Status<T>, e: nat)
    requires HistoryOk(w, initial, log) && entry < |log| && log[entry].Changed?
    requires LastFor(log, log[entry].slot, entry) && !status.Pending?
    requires e < |log| && e != entry
    ensures var log' := Settle(log, entry, status); EntryOk(w, initial, log'[..e], log'[e])
  {
    hide Fold, Fits, SlotKeys, InsertAnswer, Misfit;
    var log' := Settle(log, entry, status);
    assert EntryOk(w, initial, log[..e], log[e]);
    if e < entry {
      assert log'[..e] == log[..e];
    } else {
      assert log'[..e] == Settle(log[..e], entry, status);
      SlotKeysSettle(w, initial, log[..e], entry, status);
      if log[e].Changed? {
        assert log[e].slot != log[entry].slot;
        FoldUpdateOther(w.initial, log[..e], entry, log'[entry], log[e].slot);
        assert log'[..e] == log[..e][entry := log'[entry]];
      }
    }
  }

  /** Settling the pending last entry of a slot by the record that its history says. */
  lemma SettleOk<K(!new), T(!new)>(
      w: World<K, T>, initial: map<nat, K>, log: seq<LogEntry<K, T>>, id: nat, slot: nat, entry: nat, key: K,
      f: T -> T, record: T)
    requires HistoryOk(w, initial, log) && Open(log, id, slot, entry, key, f) && Settled(log[..entry], slot)
    requires Fold(w.initial, log, slot) == Some(record)
    ensures var status := Outcome(w, f, record);
            HistoryOk(w, initial, Settle(log, entry, status))
  {
    hide Fold, Fits, SlotKeys, InsertAnswer, Misfit;
    var status := Outcome(w, f, record);
    var log' := Settle(log, entry, status);
    FoldBefore(w.initial, log, slot, entry);
    forall e | 0 <= e < |log'| ensures EntryOk(w, initial, log'[..e], log'[e]) {
      if e == entry {
        assert EntryOk(w, initial, log[..e], log[e]);
        assert log'[..e] == log[..e];
      } else {
        EntryKept(w, initial, log, entry, status, e);
      }
    }
  }

  // ---------- The invariant ----------

  ghost predicate Owns<K, T>(pc: Protocol.Pc, worker: Worker<K, T>, e: nat) {
    Updating(pc, worker) && worker.local.entry == e
  }

  ghost predicate IsPending<K, T>(log: seq<LogEntry<K, T>>, e: nat) {
    e < |log| && log[e].Changed? && log[e].status.Pending?
  }

  ghost predicate Owned<K, T>(s: Config<K, T>, e: nat)
    requires |s.workers| == |s.lock.procs|
  {
    exists p :: 0 <= p < |s.workers| && Owns(s.lock.procs[p].pc, s.workers[p], e)
  }

  /** The history is sound, has the keys of the index, and every update pending in it is some worker's. */
  ghost predicate HistoryInv<K(!new), T>(w: World<K, T>, initial: map<nat, K>, s: Config<K, T>)
    requires |s.workers| == |s.lock.procs|
  {
    && HistoryOk(w, initial, s.log)
    && SlotKeys(w, initial, s.log) == KeysOfIndex(s.mem.ix)
    && (forall e | IsPending(s.log, e) :: Owned(s, e))
  }

  // ---------- Counting ----------

  /** The index has as many keys as slots in use, and free slots for the rest of the capacity. */
  lemma KeyCount<K(!new)>(keys: Keys<K>, ix: Ix<K>)
    requires IxValid(keys, ix) && UniqueKeys(ix)
    ensures KeysOfIndex(ix).Values == KeySet(ix)
    ensures |KeySet(ix)| + |ix.free| == ix.capacity
  {
    hide Bucket;
    var a := Arena(ix.capacity, 0, ix.free, map i | i in ix.entries :: []);
    assert a.live.Keys == ix.entries.Keys;
    FreeAndLiveCount(a);
    assert |a.live.Keys| == |a.live|;
    KeySetSize(ix, ix.entries.Keys);
    assert KeySet(ix) == KeysOf(ix, ix.entries.Keys);
    ValuesAreKeys(ix);
  }

  lemma ValuesAreKeys<K(!new)>(ix: Ix<K>)
    ensures KeysOfIndex(ix).Values == KeySet(ix)
  {
    forall k ensures k in KeysOfIndex(ix).Values <==> k in KeySet(ix) {
      if k in KeySet(ix) {
        var i :| i in ix.entries && ix.entries[i].key == k;
        assert KeysOfIndex(ix)[i] == k;
      }
    }
  }

  lemma AbsentMeansNotIn<K(!new)>(ix: Ix<K>, key: K)
    ensures KeyAbsent(ix, key) <==> key !in KeySet(ix)
  {
    if key !in KeySet(ix) {
      forall i | i in ix.entries ensures ix.entries[i].key != key {
        assert ix.entries[i].key in KeySet(ix);
      }
    }
  }

  // ---------- One step ----------

  /** What is pending after the step was pending and another's, or is the stepping worker's now. */
  ghost predicate PendingOk<K, T>(
      log: seq<LogEntry<K, T>>, pc: Protocol.Pc, worker: Worker<K, T>,
      log': seq<LogEntry<K, T>>, pc': Protocol.Pc, worker': Worker<K, T>)
  {
    forall e | IsPending(log', e) :: (IsPending(log, e) && !Owns(pc, worker, e)) || Owns(pc', worker', e)
  }

  ghost predicate HistoryStep<K(!new), T(!new)>(
      w: World<K, T>, initial: map<nat, K>, log: seq<LogEntry<K, T>>, proc: Protocol.Proc, worker: Worker<K, T>,
      e: Effect<K, T>, proc': Protocol.Proc)
  {
    && HistoryOk(w, initial, e.log)
    && SlotKeys(w, initial, e.log) == KeysOfIndex(e.mem.ix)
    && PendingOk(log, proc.pc, worker, e.log, proc'.pc, e.worker)
  }

  /** What the step of a worker starts from. */
  ghost predicate Ready<K(!new), T(!new)>(
      w: World<K, T>, initial: map<nat, K>, mem: Memory<K>, log: seq<LogEntry<K, T>>,
      proc: Protocol.Proc, worker: Worker<K, T>, e: Effect<K, T>, proc': Protocol.Proc)
  {
    && Frame(w, mem) && Place(w, mem, log, proc, worker) && Steps(w, mem, log, proc, worker, e, proc')
    && HistoryOk(w, initial, log) && SlotKeys(w, initial, log) == KeysOfIndex(mem.ix)
  }

  /** A new entry, by a worker that is at no update. */
  lemma AppendHistory<K(!new), T(!new)>(
      w: World<K, T>, initial: map<nat, K>, mem: Memory<K>, log: seq<LogEntry<K, T>>,
      proc: Protocol.Proc, worker: Worker<K, T>, e: Effect<K, T>, proc': Protocol.Proc, x: LogEntry<K, T>)
    requires Ready(w, initial, mem, log, proc, worker, e, proc') && !Updating(proc.pc, worker)
    requires e.log == log + [x] && EntryOk(w, initial, log, x)
    requires x.Changed? && x.status.Pending? ==> Owns(proc'.pc, e.worker, |log|)
    requires KeysOfIndex(e.mem.ix)
          == if x.Stored? then KeysOfIndex(mem.ix)[x.slot := w.env.codec.key(x.record)] else KeysOfIndex(mem.ix)
    ensures HistoryStep(w, initial, log, proc, worker, e, proc')
  {
    hide EntryOk, HistoryOk, SlotKeys, NextEffect, Protocol.After, Place, Frame;
    AppendOk(w, initial, log, x);
    SlotKeysAppend(w, initial, log, x);
    forall d: nat | IsPending(e.log, d) ensures IsPending(log, d) || Owns(proc'.pc, e.worker, d) {
      assert d < |log| ==> e.log[d] == log[d];
    }
  }

  /** Lookups, and calls that end because of one. */
  lemma LookupHistory<K(!new), T(!new)>(
      w: World<K, T>, initial: map<nat, K>, mem: Memory<K>, log: seq<LogEntry<K, T>>,
      proc: Protocol.Proc, worker: Worker<K, T>, e: Effect<K, T>, proc': Protocol.Proc)
    requires Ready(w, initial, mem, log, proc, worker, e, proc') && proc.pc.InLookup?
    ensures HistoryStep(w, initial, log, proc, worker, e, proc')
  {
    hide Frame, HistoryOk, SlotKeys, IxGet, Fits, NoRoom, TableLockWorks, RecordLockable, TableSem, RecordSem;
    var key := KeyOf(w, worker.jobs[0]);
    LookupTells(w, mem, key);
    AbsentMeansNotIn(mem.ix, key);
    ValuesAreKeys(mem.ix);
    if e.log != log {
      AppendHistory(w, initial, mem, log, proc, worker, e, proc', e.log[|log|]);
    }
  }

  /** Insertions that end for lack of a lock, of room, or because the record cannot be stored. */
  lemma RefusedHistory<K(!new), T(!new)>(
      w: World<K, T>, initial: map<nat, K>, mem: Memory<K>, log: seq<LogEntry<K, T>>,
      proc: Protocol.Proc, worker: Worker<K, T>, e: Effect<K, T>, proc': Protocol.Proc)
    requires Ready(w, initial, mem, log, proc, worker, e, proc')
    requires UniqueKeys(mem.ix) && CheckHolds(w, mem.ix, proc.pc, worker)
    requires worker.jobs[0].InsertJob?
    requires proc.pc.WantTable? || (proc.pc.Work? && proc.pc.left == 4 && TableLockWorks(w.capacity)
                                    && ListOk(w, mem, Quiet))
    ensures HistoryStep(w, initial, log, proc, worker, e, proc')
  {
    hide HistoryOk, SlotKeys, Fits, TableLockWorks, TableSem, RecordSem, IxValid, Threads, FreeCells, UniqueKeys,
         Stripes;
    var key := KeyOf(w, worker.jobs[0]);
    AbsentMeansNotIn(mem.ix, key);
    KeyCount(w.env.keys, mem.ix);
    if e.log != log {
      AppendHistory(w, initial, mem, log, proc, worker, e, proc', e.log[|log|]);
    }
  }

  /** The insertion becomes visible in the index. */
  lemma StoredHistory<K(!new), T(!new)>(
      w: World<K, T>, initial: map<nat, K>, mem: Memory<K>, log: seq<LogEntry<K, T>>,
      proc: Protocol.Proc, worker: Worker<K, T>, e: Effect<K, T>, proc': Protocol.Proc)
    requires Ready(w, initial, mem, log, proc, worker, e, proc')
    requires UniqueKeys(mem.ix) && CheckHolds(w, mem.ix, proc.pc, worker)
    requires worker.jobs[0].InsertJob? && proc.pc.InIndex? && TableLockWorks(w.capacity)
    requires ListOk(w, mem, PhaseOf(proc.pc, worker))
    ensures HistoryStep(w, initial, log, proc, worker, e, proc')
  {
    hide HistoryOk, SlotKeys, Fits, NoRoom, TableLockWorks, TableSem, RecordSem, IxValid, Threads, FreeCells,
         UniqueKeys, Bucket;
    var slot, record := worker.local.slot, worker.jobs[0].record;
    AbsentMeansNotIn(mem.ix, w.env.codec.key(record));
    KeyCount(w.env.keys, mem.ix);
    PoppedSlotApart(w, mem);
    assert e.mem.ix.entries == mem.ix.entries[slot := Entry(w.env.codec.key(record), slot)];
    assert KeysOfIndex(e.mem.ix) == KeysOfIndex(mem.ix)[slot := w.env.codec.key(record)];
    AppendHistory(w, initial, mem, log, proc, worker, e, proc', Stored(worker.id, slot, record));
  }

  lemma AcquireHistory<K(!new), T(!new)>(
      w: World<K, T>, initial: map<nat, K>, mem: Memory<K>, log: seq<LogEntry<K, T>>,
      proc: Protocol.Proc, worker: Worker<K, T>, e: Effect<K, T>, proc': Protocol.Proc)
    requires Ready(w, initial, mem, log, proc, worker, e, proc') && proc.pc.WantRecord?
    ensures HistoryStep(w, initial, log, proc, worker, e, proc')
  {
    hide TableSem, RecordSem, TableLockWorks, RecordLockable, Fits, Frame, HistoryOk, SlotKeys;
    LedToLockable(w, mem, log, proc, worker);
    AppendHistory(w, initial, mem, log, proc, worker, e, proc', e.log[|log|]);
  }

  lemma SettleHistory<K(!new), T(!new)>(
      w: World<K, T>, initial: map<nat, K>, mem: Memory<K>, log: seq<LogEntry<K, T>>,
      proc: Protocol.Proc, worker: Worker<K, T>, e: Effect<K, T>, proc': Protocol.Proc)
    requires Ready(w, initial, mem, log, proc, worker, e, proc')
    requires worker.jobs[0].UpdateJob? && proc.pc.Work? && proc.pc.left == 1
    requires Settled(log[..worker.local.entry], worker.local.slot)
    ensures HistoryStep(w, initial, log, proc, worker, e, proc')
  {
    hide TableSem, RecordSem, Fits, Frame, HistoryOk, SlotKeys, Fold, WriteCell, Settled, Misfit;
    var Loaded(slot, entry, record) := worker.local;
    var f := worker.jobs[0].f;
    var status := Outcome(w, f, record);
    SettleOk(w, initial, log, worker.id, slot, entry, worker.jobs[0].keys[0], f, record);
    SlotKeysSettle(w, initial, log, entry, status);
    assert e.log == Settle(log, entry, status);
    WriteKeepsIndex(w, mem, slot, f(record));
  }

  lemma WriteKeepsIndex<K(!new), T(!new)>(w: World<K, T>, mem: Memory<K>, slot: nat, record: T)
    ensures WriteCell(w, mem, slot, record).ix == mem.ix
  {
  }

  /** All other steps leave history and index alone. */
  lemma QuietHistory<K(!new), T(!new)>(
      w: World<K, T>, initial: map<nat, K>, mem: Memory<K>, log: seq<LogEntry<K, T>>,
      proc: Protocol.Proc, worker: Worker<K, T>, e: Effect<K, T>, proc': Protocol.Proc)
    requires Ready(w, initial, mem, log, proc, worker, e, proc') && Values(w, mem, log)
    requires !proc.pc.InLookup? && !proc.pc.WantTable? && !proc.pc.WantRecord? && !proc.pc.InIndex?
    requires proc.pc.Work? ==> proc.pc.left != if worker.jobs[0].InsertJob? then 4 else 1
    ensures HistoryStep(w, initial, log, proc, worker, e, proc')
  {
    hide TableSem, RecordSem, TableLockWorks, RecordLockable, Fits, Frame, HistoryOk, SlotKeys, Fold, Settle,
         CallReady;
    if worker.jobs[0].InsertJob? {
      WriteKeepsIndex(w, mem, if worker.local.Reserved? then worker.local.slot else 0, worker.jobs[0].record);
    } else if proc.pc.Work? && proc.pc.left == 2 {
      assert Faithful(w, mem.cells, log, worker.local.slot);
    }
  }

  // ---------- All workers ----------

  lemma LockHeldWorks<K(!new), T(!new)>(w: World<K, T>, s: Config<K, T>, p: nat)
    requires Inv(w, s) && p < |s.workers| && InsertsUnderLock(s.lock.procs[p].pc, s.workers[p])
    ensures TableLockWorks(w.capacity)
    ensures ListOk(w, s.mem, PhaseOf(s.lock.procs[p].pc, s.workers[p]))
  {
    hide TableSem, Stripes, RecordSem, Frame, ListOk, Values;
    assert Place(w, s.mem, s.log, s.lock.procs[p], s.workers[p]);
    assert Protocol.InCall(w.capacity, s.lock.procs[p]);
    OthersQuiet(w, s, p);
    PhaseOfOne(s.lock.procs, s.workers, p);
  }

  /** A pending update is the last of its slot: whoever is at it holds the slot's lock. */
  lemma PendingIsLast<K(!new), T(!new)>(w: World<K, T>, initial: map<nat, K>, s: Config<K, T>, e: nat)
    requires Inv(w, s) && HistoryInv(w, initial, s) && IsPending(s.log, e)
    ensures LastFor(s.log, s.log[e].slot, e)
  {
    hide TableSem, RecordSem, Frame, ListOk, Values, Protocol.Inv, HistoryOk, CallReady, Fold, SlotKeys;
    assert Owned(s, e);
    var q :| 0 <= q < |s.workers| && Owns(s.lock.procs[q].pc, s.workers[q], e);
    assert Place(w, s.mem, s.log, s.lock.procs[q], s.workers[q]);
  }

  /** So whatever updated the slot before the update under way has been settled. */
  lemma EarlierSettled<K(!new), T(!new)>(w: World<K, T>, initial: map<nat, K>, s: Config<K, T>, p: nat)
    requires Inv(w, s) && HistoryInv(w, initial, s) && p < |s.workers|
    requires s.workers[p].jobs != [] && s.workers[p].jobs[0].UpdateJob?
    requires s.lock.procs[p].pc.Work? && s.lock.procs[p].pc.left > 0
    ensures s.workers[p].local.entry < |s.log|
    ensures Settled(s.log[..s.workers[p].local.entry], s.workers[p].local.slot)
  {
    hide TableSem, RecordSem, Frame, ListOk, Values, Protocol.Inv, HistoryInv, CallReady, Fold;
    assert Place(w, s.mem, s.log, s.lock.procs[p], s.workers[p]);
    var slot, entry := s.workers[p].local.slot, s.workers[p].local.entry;
    forall d | 0 <= d < entry && At(s.log[d], slot) && s.log[d].Changed? ensures !s.log[d].status.Pending? {
      if IsPending(s.log, d) {
        PendingIsLast(w, initial, s, d);
      }
    }
  }

  lemma OwnHistory<K(!new), T(!new)>(
      w: World<K, T>, initial: map<nat, K>, known: set<K>, s: Config<K, T>, p: nat, s': Config<K, T>)
    requires Inv(w, s) && WorkStep(w, s, p, s') && HistoryInv(w, initial, s) && KeysInv(w, known, s)
    ensures |s'.lock.procs| == |s'.workers| == |s.workers|
    ensures var e := NextEffect(w, s.lock.procs[p].pc, s.workers[p], s.mem, s.log);
            HistoryStep(w, initial, s.log, s.lock.procs[p], s.workers[p], e, s'.lock.procs[p])
  {
    hide TableSem, RecordSem, TableLockWorks, Frame, ListOk, Values, NextEffect, Protocol.After, Protocol.Inv,
         HistoryOk, HistoryStep, SlotKeys, Settled, UniqueKeys, KeyAbsent, InsertedKeys;
    FrameHasBuckets(w, s.mem);
    var proc, worker := s.lock.procs[p], s.workers[p];
    var e, proc' := NextEffect(w, proc.pc, worker, s.mem, s.log), s'.lock.procs[p];
    assert Place(w, s.mem, s.log, proc, worker);
    assert CheckHolds(w, s.mem.ix, proc.pc, worker);
    if InsertsUnderLock(proc.pc, worker) {
      LockHeldWorks(w, s, p);
    }
    if proc.pc.InLookup? {
      LookupHistory(w, initial, s.mem, s.log, proc, worker, e, proc');
    } else if proc.pc.WantTable? || (proc.pc.Work? && worker.jobs[0].InsertJob? && proc.pc.left == 4) {
      RefusedHistory(w, initial, s.mem, s.log, proc, worker, e, proc');
    } else if proc.pc.InIndex? {
      StoredHistory(w, initial, s.mem, s.log, proc, worker, e, proc');
    } else if proc.pc.WantRecord? {
      AcquireHistory(w, initial, s.mem, s.log, proc, worker, e, proc');
    } else if proc.pc.Work? && worker.jobs[0].UpdateJob? && proc.pc.left == 1 {
      EarlierSettled(w, initial, s, p);
      SettleHistory(w, initial, s.mem, s.log, proc, worker, e, proc');
    } else {
      QuietHistory(w, initial, s.mem, s.log, proc, worker, e, proc');
    }
  }

  lemma StepKeepsHistory<K(!new), T(!new)>(
      w: World<K, T>, initial: map<nat, K>, known: set<K>, s: Config<K, T>, p: nat, s': Config<K, T>)
    requires Inv(w, s) && Stepped(w, s, p, s') && HistoryInv(w, initial, s) && KeysInv(w, known, s)
    ensures |s'.workers| == |s'.lock.procs| && HistoryInv(w, initial, s')
  {
    hide TableSem, RecordSem, Inv, KeysInv, HistoryOk, SlotKeys, NextEffect, Owns, IsPending, Protocol.After;
    Sizes(w, s);
    OwnHistory(w, initial, known, s, p, s');
    forall e | IsPending(s'.log, e) ensures Owned(s', e) {
      if Owns(s'.lock.procs[p].pc, s'.workers[p], e) {
      } else {
        assert Owned(s, e);
        var q :| 0 <= q < |s.workers| && Owns(s.lock.procs[q].pc, s.workers[q], e);
        assert q != p && Owns(s'.lock.procs[q].pc, s'.workers[q], e);
      }
    }
  }

  lemma {:induction false} RunKeepsHistory<K(!new), T(!new)>(
      w: World<K, T>, initial: map<nat, K>, known: set<K>, trace: seq<Config<K, T>>, who: seq<nat>)
    requires Sound(w.env.codec) && Interleaving(w, trace, who)
    requires Inv(w, trace[0]) && KeysInv(w, known, trace[0]) && HistoryInv(w, initial, trace[0])
    ensures Inv(w, trace[|who|]) && KeysInv(w, known, trace[|who|]) && HistoryInv(w, initial, trace[|who|])
  {
    hide Inv, KeysInv, HistoryInv, WorkStep;
    RunKeepsKeys(w, known, trace, who);
    if who != [] {
      var n := |who| - 1;
      assert forall i | 0 <= i < n :: Stepped(w, trace[i], who[i], trace[i + 1]);
      RunKeepsHistory(w, initial, known, trace[..n + 1], who[..n]);
      assert trace[..n + 1][n] == trace[n] && Stepped(w, trace[n], who[n], trace[n + 1]);
      StepKeepsHistory(w, initial, known, trace[n], who[n], trace[n + 1]);
    }
  }
}
