/**
 What every interleaving of inserts and updates keeps: the allocators stay coupled, up to the one
 slot of the inserter that holds the table lock, and every record is what its history says.
 */
module ConcurrentTable {
  import opened Results
  import opened SlotModel
  import opened IndexModel
  import opened TableModel
  import opened Semaphores
  import opened ConcurrentModel
  import Protocol = LockProtocol

  // ---------- Where an insertion is ----------

  /** How far the holder of the table lock has come between the two allocators. */
  datatype Phase = Quiet | Popped(slot: nat) | Counted(slot: nat) | Written(slot: nat)

  function PhaseOf<K, T>(pc: Protocol.Pc, worker: Worker<K, T>): Phase {
    if worker.jobs == [] || !worker.jobs[0].InsertJob? || !worker.local.Reserved? then Quiet
    else
      match pc
      case Work(_, left) =>
        if left == 2 then Popped(worker.local.slot)
        else if left == 1 then Counted(worker.local.slot)
        else if left == 0 then Written(worker.local.slot)
        else Quiet
      case WantIndex(_) => Written(worker.local.slot)
      case InIndex(_) => Written(worker.local.slot)
      case _ => Quiet
  }

  /** The phase of whichever process is between the allocators. */
  function CurrentPhase<K, T>(procs: seq<Protocol.Proc>, workers: seq<Worker<K, T>>): Phase
    requires |procs| == |workers|
  {
    if procs == [] then Quiet
    else
      var phase := PhaseOf(procs[0].pc, workers[0]);
      if phase != Quiet then phase else CurrentPhase(procs[1..], workers[1..])
  }

  lemma {:induction false} PhaseOfOne<K, T>(procs: seq<Protocol.Proc>, workers: seq<Worker<K, T>>, p: nat)
    requires p < |procs| == |workers|
    requires forall q | 0 <= q < |procs| && q != p :: PhaseOf(procs[q].pc, workers[q]) == Quiet
    ensures CurrentPhase(procs, workers) == PhaseOf(procs[p].pc, workers[p])
  {
    if p == 0 {
      AllQuiet(procs[1..], workers[1..]);
    } else {
      PhaseOfOne(procs[1..], workers[1..], p - 1);
    }
  }

  lemma {:induction false} AllQuiet<K, T>(procs: seq<Protocol.Proc>, workers: seq<Worker<K, T>>)
    requires |procs| == |workers|
    requires forall q | 0 <= q < |procs| :: PhaseOf(procs[q].pc, workers[q]) == Quiet
    ensures CurrentPhase(procs, workers) == Quiet
  {
    if procs != [] {
      AllQuiet(procs[1..], workers[1..]);
    }
  }

  lemma {:induction false} QuietStep<K, T>(
      procs: seq<Protocol.Proc>, workers: seq<Worker<K, T>>, p: nat, proc: Protocol.Proc, worker: Worker<K, T>)
    requires p < |procs| == |workers|
    requires PhaseOf(procs[p].pc, workers[p]) == Quiet && PhaseOf(proc.pc, worker) == Quiet
    ensures CurrentPhase(procs[p := proc], workers[p := worker]) == CurrentPhase(procs, workers)
  {
    if p == 0 {
      assert procs[0 := proc][1..] == procs[1..] && workers[0 := worker][1..] == workers[1..];
    } else {
      assert procs[p := proc][1..] == procs[1..][p - 1 := proc];
      assert workers[p := worker][1..] == workers[1..][p - 1 := worker];
      QuietStep(procs[1..], workers[1..], p - 1, proc, worker);
    }
  }

  // ---------- The memory ----------

  ghost predicate FreeCells(cells: seq<Cell>, free: seq<nat>) {
    forall i | i in free :: i < |cells| && cells[i].state.Free?
  }

  /** Sizes, the index, and the slots it points at. */
  ghost predicate Frame<K(!new), T>(w: World<K, T>, mem: Memory<K>) {
    && |mem.cells| == w.capacity == mem.ix.capacity
    && IxValid(w.env.keys, mem.ix)
    && (forall i | 0 <= i < |mem.cells| :: |mem.cells[i].buffer| == w.dataSize)
    && (forall i | i in mem.ix.entries ::
          mem.ix.entries[i].position == i && i < |mem.cells| && InUse(mem.cells[i], w.dataSize))
  }

  ghost predicate InUse(cell: Cell, dataSize: nat) {
    cell.state.Occupied? && cell.size <= dataSize
  }

  /**
   The record allocator's list is the index allocator's, except that the inserter's slot, the head
   of the index list, may already be popped, counted and written.
   */
  ghost predicate ListOk<K, T>(w: World<K, T>, mem: Memory<K>, phase: Phase) {
    var free := mem.ix.free;
    match phase
    case Quiet =>
      Threads(mem.cells, mem.first, free) && mem.count + |free| == w.capacity && FreeCells(mem.cells, free)
    case Popped(slot) =>
      && free != [] && slot == free[0] && Threads(mem.cells, mem.first, free[1..])
      && mem.count + |free| == w.capacity && FreeCells(mem.cells, free)
    case Counted(slot) =>
      && free != [] && slot == free[0] && Threads(mem.cells, mem.first, free[1..])
      && mem.count + |free| == w.capacity + 1 && FreeCells(mem.cells, free)
    case Written(slot) =>
      && free != [] && slot == free[0] && Threads(mem.cells, mem.first, free[1..])
      && mem.count + |free| == w.capacity + 1 && FreeCells(mem.cells, free[1..])
      && slot < |mem.cells| && InUse(mem.cells[slot], w.dataSize)
  }

  /** The slot holds the record that its history yields. */
  ghost predicate Faithful<K, T>(w: World<K, T>, cells: seq<Cell>, log: seq<LogEntry<K, T>>, i: nat) {
    && i < |cells| && Fold(w.initial, log, i).Some?
    && w.env.codec.deserialize(cells[i].Read()) == Fold(w.initial, log, i)
  }

  ghost predicate Values<K, T>(w: World<K, T>, mem: Memory<K>, log: seq<LogEntry<K, T>>) {
    forall i | i in mem.ix.entries :: Faithful(w, mem.cells, log, i)
  }

  // ---------- The processes ----------

  /** The update's entry of the history is the latest of its slot, and not settled. */
  ghost predicate Open<K, T>(log: seq<LogEntry<K, T>>, id: nat, slot: nat, entry: nat, key: K, f: T -> T) {
    entry < |log| && log[entry] == Changed(id, slot, key, f, Pending) && LastFor(log, slot, entry)
  }

  /** The inserter has the slot to itself: it is not in the index yet. */
  predicate Reserving(pc: Protocol.Pc) {
    (pc.Work? && pc.left <= 3) || pc.WantIndex? || pc.InIndex?
  }

  predicate HasWritten(pc: Protocol.Pc) {
    (pc.Work? && pc.left == 0) || pc.WantIndex? || pc.InIndex?
  }

  ghost predicate InsertPlace<K, T>(w: World<K, T>, mem: Memory<K>, pc: Protocol.Pc, record: T, local: Local<T>) {
    && !pc.WantRecord? && !pc.ReadRecord? && !pc.Dead?
    && (Protocol.HeldSem(pc).Some? ==> Protocol.HeldSem(pc) == Some(TableSem(w.capacity)))
    && (pc.Work? ==> pc.left <= 4)
    && (Reserving(pc) ==>
          && local.Reserved? && Fits(w, record)
          && local.slot < |mem.cells| && local.slot !in mem.ix.entries)
    && (pc.Work? && pc.left == 3 ==>
          mem.first == local.slot && local.next == mem.cells[local.slot].size && mem.count < w.capacity)
    && (HasWritten(pc) ==> w.env.codec.deserialize(mem.cells[local.slot].Read()) == Some(record))
  }

  /** A looked-up slot has an entry under the key that was asked for. */
  ghost predicate Leads<K>(mem: Memory<K>, keys: seq<K>, slot: nat) {
    keys != [] && slot in mem.ix.entries && mem.ix.entries[slot].key == keys[0]
  }

  ghost predicate UpdatePlace<K, T>(
      w: World<K, T>, mem: Memory<K>, log: seq<LogEntry<K, T>>, pc: Protocol.Pc, keys: seq<K>, f: T -> T,
      id: nat, local: Local<T>)
  {
    && !pc.WantTable? && !pc.ReadRecord? && !pc.WantIndex? && !pc.InIndex? && !pc.EndIndex? && !pc.Dead?
    && (pc.EndLookup? && pc.found.Some? ==> Leads(mem, keys, pc.found.value))
    && (pc.WantRecord? ==> Leads(mem, keys, pc.position))
    && (pc.Work? ==> pc.left <= 2)
    && (pc.Work? && pc.left > 0 ==>
          && (if pc.left == 2 then local.Target? else local.Loaded?)
          && Leads(mem, keys, local.slot) && pc.sem == RecordSem(w.capacity, local.slot)
          && Open(log, id, local.slot, local.entry, keys[0], f)
          && (local.Loaded? ==> Fold(w.initial, log, local.slot) == Some(local.record)))
  }

  ghost predicate Place<K, T>(
      w: World<K, T>, mem: Memory<K>, log: seq<LogEntry<K, T>>, proc: Protocol.Proc, worker: Worker<K, T>)
  {
    && CallReady(proc, worker)
    && (worker.jobs == [] ==> proc.pc.Idle?)
    && (worker.jobs != [] ==>
          match worker.jobs[0]
          case InsertJob(record) => InsertPlace(w, mem, proc.pc, record, worker.local)
          case UpdateJob(keys, f) => UpdatePlace(w, mem, log, proc.pc, keys, f, worker.id, worker.local))
  }

  ghost predicate Inv<K(!new), T>(w: World<K, T>, s: Config<K, T>) {
    && Protocol.Inv(w.capacity, s.lock)
    && |s.workers| == |s.lock.procs|
    && (forall p | 0 <= p < |s.workers| :: Place(w, s.mem, s.log, s.lock.procs[p], s.workers[p]))
    && Frame(w, s.mem)
    && ListOk(w, s.mem, CurrentPhase(s.lock.procs, s.workers))
    && Values(w, s.mem, s.log)
  }

  // ---------- What one step does to the rest ----------

  /** The index keeps its entries; new ones may join. */
  ghost predicate KeepsEntries<K>(mem: Memory<K>, mem': Memory<K>) {
    && |mem'.cells| == |mem.cells|
    && (forall i | i in mem.ix.entries :: i in mem'.ix.entries && mem'.ix.entries[i] == mem.ix.entries[i])
  }

  /** The header, the index and the free slots stay. */
  ghost predicate KeepsAllocation<K>(mem: Memory<K>, mem': Memory<K>) {
    && mem'.first == mem.first && mem'.count == mem.count && mem'.ix == mem.ix
    && |mem'.cells| == |mem.cells|
    && forall i | 0 <= i < |mem.cells| && i !in mem.ix.entries :: mem'.cells[i] == mem.cells[i]
  }

  lemma OpenKept<K, T>(
      log: seq<LogEntry<K, T>>, log': seq<LogEntry<K, T>>, id: nat, slot: nat, entry: nat, key: K, f: T -> T)
    requires Spares(log, log', slot) && Open(log, id, slot, entry, key, f)
    ensures Open(log', id, slot, entry, key, f)
  {
    if |log'| == |log| + 1 {
      assert forall e | 0 <= e < |log| :: log'[e] == log'[..|log|][e] == log[e];
    }
  }

  /** Another process's step leaves a process where it is. */
  lemma PlaceKept<K(!new), T(!new)>(
      w: World<K, T>, mem: Memory<K>, log: seq<LogEntry<K, T>>, mem': Memory<K>, log': seq<LogEntry<K, T>>,
      proc: Protocol.Proc, worker: Worker<K, T>)
    requires Place(w, mem, log, proc, worker) && KeepsEntries(mem, mem')
    requires Protocol.HeldSem(proc.pc) == Some(TableSem(w.capacity)) && worker.jobs != [] && worker.jobs[0].InsertJob?
             ==> KeepsAllocation(mem, mem')
    requires proc.pc.Work? && proc.pc.left > 0 && worker.jobs != [] && worker.jobs[0].UpdateJob?
             ==> Spares(log, log', worker.local.slot)
    ensures Place(w, mem', log', proc, worker)
  {
    hide TableSem, RecordSem, CallReady, Fits;
    if worker.jobs != [] && worker.jobs[0].UpdateJob? && proc.pc.Work? && proc.pc.left > 0 {
      var slot, entry := worker.local.slot, worker.local.entry;
      OpenKept(log, log', worker.id, slot, entry, worker.jobs[0].keys[0], worker.jobs[0].f);
      FoldSpared(w.initial, log, log', slot);
    }
  }

  // ---------- The process that steps ----------

  predicate InsertsUnderLock<K, T>(pc: Protocol.Pc, worker: Worker<K, T>) {
    worker.jobs != [] && worker.jobs[0].InsertJob? && Protocol.HeldSem(pc).Some?
  }

  ghost predicate AllOk<K(!new), T>(
      w: World<K, T>, mem: Memory<K>, log: seq<LogEntry<K, T>>, proc: Protocol.Proc, worker: Worker<K, T>, phase: Phase)
  {
    Place(w, mem, log, proc, worker) && Frame(w, mem) && ListOk(w, mem, phase) && Values(w, mem, log)
  }

  /** After the step the process is in place again, and memory and history are right for the new phase. */
  ghost predicate StepOk<K(!new), T>(
      w: World<K, T>, mem: Memory<K>, log: seq<LogEntry<K, T>>, proc: Protocol.Proc, worker: Worker<K, T>,
      e: Effect<K, T>, proc': Protocol.Proc, phase': Phase)
  {
    && AllOk(w, e.mem, e.log, proc', e.worker, phase')
    && KeepsEntries(mem, e.mem)
    && (InsertsUnderLock(proc.pc, worker) || KeepsAllocation(mem, e.mem))
  }

  ghost predicate Steps<K(!new), T>(
      w: World<K, T>, mem: Memory<K>, log: seq<LogEntry<K, T>>, proc: Protocol.Proc, worker: Worker<K, T>,
      e: Effect<K, T>, proc': Protocol.Proc)
  {
    && |mem.ix.chains| > 0 && worker.jobs != [] && CallReady(proc, worker) && !Protocol.Finished(proc)
    && e == NextEffect(w, proc.pc, worker, mem, log)
    && proc' == Protocol.After(w.capacity, proc, e.o)
  }

  /** Jobs and calls go on hand in hand. */
  lemma CallsFollow<K(!new), T(!new)>(
      w: World<K, T>, mem: Memory<K>, log: seq<LogEntry<K, T>>, proc: Protocol.Proc, worker: Worker<K, T>,
      e: Effect<K, T>, proc': Protocol.Proc)
    requires Place(w, mem, log, proc, worker) && Steps(w, mem, log, proc, worker, e, proc')
    ensures CallReady(proc', e.worker) && (e.worker.jobs == [] ==> proc'.pc.Idle?)
  {
    hide TableSem, RecordSem, TableLockWorks, IxGet, Fits, Settle, WriteCell;
    var jobs := worker.jobs;
    assert CallsOf(jobs)[1..] == CallsOf(jobs[1..]);
    if jobs[0].UpdateJob? && jobs[0].keys != [] {
      var dropped := WithoutKey(jobs);
      assert dropped[1..] == jobs[1..];
      assert CallsOf(dropped) == [Protocol.Update(|jobs[0].keys| - 1)] + CallsOf(jobs[1..]);
    }
    assert proc.calls[0] == CallOf(jobs[0]);
  }

  /** Steps on local state, and of the lookup. */
  lemma LocalStep<K(!new), T(!new)>(
      w: World<K, T>, mem: Memory<K>, log: seq<LogEntry<K, T>>, proc: Protocol.Proc, worker: Worker<K, T>,
      e: Effect<K, T>, proc': Protocol.Proc, phase: Phase)
    requires AllOk(w, mem, log, proc, worker, phase) && Steps(w, mem, log, proc, worker, e, proc')
    requires !proc.pc.WantRecord? && !proc.pc.InIndex? && (proc.pc.Work? ==> proc.pc.left == 0)
    ensures StepOk(w, mem, log, proc, worker, e, proc', phase)
    ensures PhaseOf(proc'.pc, e.worker) == PhaseOf(proc.pc, worker)
  {
    hide TableSem, RecordSem, TableLockWorks, Fits, ListOk, Values, CallReady, IxGet, Bucket;
    CallsFollow(w, mem, log, proc, worker, e, proc');
    LocalPlace(w, mem, log, proc, worker, e, proc');
    if x: LogEntry<K, T> :| x.Unmet? && e.log == log + [x] {
      UnmetKeepsValues(w, mem, log, x);
    }
  }

  lemma LocalPlace<K(!new), T(!new)>(
      w: World<K, T>, mem: Memory<K>, log: seq<LogEntry<K, T>>, proc: Protocol.Proc, worker: Worker<K, T>,
      e: Effect<K, T>, proc': Protocol.Proc)
    requires Frame(w, mem) && Place(w, mem, log, proc, worker) && Steps(w, mem, log, proc, worker, e, proc')
    requires CallReady(proc', e.worker) && (e.worker.jobs == [] ==> proc'.pc.Idle?)
    requires !proc.pc.WantRecord? && !proc.pc.InIndex? && (proc.pc.Work? ==> proc.pc.left == 0)
    ensures e.mem == mem && (e.log == log || exists x: LogEntry<K, T> :: x.Unmet? && e.log == log + [x])
    ensures Place(w, mem, e.log, proc', e.worker)
    ensures PhaseOf(proc'.pc, e.worker) == PhaseOf(proc.pc, worker)
  {
    hide TableSem, RecordSem, TableLockWorks, Fits, ListOk, Values, Partition, Bucket, FirstWith;
    var job := worker.jobs[0];
    if proc.pc.InLookup? {
      SearchFindsKey(w.env.keys, mem.ix, KeyOf(w, job));
    }
    if e.worker.jobs != [] && proc'.pc.Idle? {
      assert e.worker.jobs[0].InsertJob? || e.worker.jobs[0].UpdateJob?;
    }
  }

  /** A call that ends without touching memory changes no value. */
  lemma UnmetKeepsValues<K(!new), T(!new)>(
      w: World<K, T>, mem: Memory<K>, log: seq<LogEntry<K, T>>, x: LogEntry<K, T>)
    requires Values(w, mem, log) && x.Unmet?
    ensures Values(w, mem, log + [x])
  {
    hide Fold;
    forall i | Faithful(w, mem.cells, log, i) ensures Faithful(w, mem.cells, log + [x], i) {
      FoldAppend(w.initial, log, x, i);
    }
  }

  // ---------- Insertion under the table lock ----------

  /** In a quiet memory with room, `first_free` is the head of both free lists. */
  lemma RoomAtFirst<K(!new), T(!new)>(w: World<K, T>, mem: Memory<K>)
    requires Frame(w, mem) && ListOk(w, mem, Quiet) && mem.count < w.capacity
    ensures mem.ix.free != [] && mem.first == mem.ix.free[0] < |mem.cells| && mem.first !in mem.ix.entries
    ensures mem.cells[mem.first].size == FreeLink(mem.ix.free, 1, |mem.cells|)
  {
    TakeFirst(mem.ix.capacity, mem.ix.free, mem.ix.entries.Keys);
    assert Linked(mem.cells, mem.ix.free, 0);
  }

  /** Checking room and size, and reading the first free slot with its link. */
  lemma ReserveStep<K(!new), T(!new)>(
      w: World<K, T>, mem: Memory<K>, log: seq<LogEntry<K, T>>, proc: Protocol.Proc, worker: Worker<K, T>,
      e: Effect<K, T>, proc': Protocol.Proc)
    requires AllOk(w, mem, log, proc, worker, Quiet) && Steps(w, mem, log, proc, worker, e, proc')
    requires worker.jobs[0].InsertJob? && proc.pc.Work? && proc.pc.left == 4
    ensures StepOk(w, mem, log, proc, worker, e, proc', Quiet)
    ensures PhaseOf(proc'.pc, e.worker) == Quiet
  {
    hide TableSem, RecordSem, TableLockWorks, Fits, Partition, IxValid, Bucket;
    CallsFollow(w, mem, log, proc, worker, e, proc');
    if mem.count < w.capacity && Fits(w, worker.jobs[0].record) {
      RoomAtFirst(w, mem);
    } else {
      UnmetKeepsValues(w, mem, log, e.log[|log|]);
    }
  }

  /** `first_free` moves on to the link: the slot is popped. */
  lemma PopStep<K(!new), T(!new)>(
      w: World<K, T>, mem: Memory<K>, log: seq<LogEntry<K, T>>, proc: Protocol.Proc, worker: Worker<K, T>,
      e: Effect<K, T>, proc': Protocol.Proc)
    requires AllOk(w, mem, log, proc, worker, Quiet) && Steps(w, mem, log, proc, worker, e, proc')
    requires worker.jobs[0].InsertJob? && proc.pc.Work? && proc.pc.left == 3
    ensures StepOk(w, mem, log, proc, worker, e, proc', PhaseOf(proc'.pc, e.worker))
    ensures PhaseOf(proc'.pc, e.worker) == Popped(worker.local.slot)
  {
    hide TableSem, RecordSem, TableLockWorks, Fits, Partition, IxValid, Bucket;
    CallsFollow(w, mem, log, proc, worker, e, proc');
    RoomAtFirst(w, mem);
    ThreadsTail(mem.cells, mem.first, mem.ix.free);
  }

  lemma ThreadsTail(cells: seq<Cell>, first: nat, free: seq<nat>)
    requires Threads(cells, first, free) && free != []
    ensures Threads(cells, FreeLink(free, 1, |cells|), free[1..])
  {
    forall j | 0 <= j < |free| - 1 ensures Linked(cells, free[1..], j) {
      assert Linked(cells, free, j + 1);
    }
  }

  /** Cells outside the list may change. */
  lemma ThreadsKept(cells: seq<Cell>, cells': seq<Cell>, first: nat, free: seq<nat>)
    requires Threads(cells, first, free) && |cells'| == |cells|
    requires forall i | i in free && i < |cells| :: cells'[i] == cells[i]
    ensures Threads(cells', first, free)
  {
    forall j | 0 <= j < |free| ensures Linked(cells', free, j) {
      assert Linked(cells, free, j) && free[j] in free;
    }
  }

  lemma CountStep<K(!new), T(!new)>(
      w: World<K, T>, mem: Memory<K>, log: seq<LogEntry<K, T>>, proc: Protocol.Proc, worker: Worker<K, T>,
      e: Effect<K, T>, proc': Protocol.Proc)
    requires AllOk(w, mem, log, proc, worker, PhaseOf(proc.pc, worker)) && Steps(w, mem, log, proc, worker, e, proc')
    requires worker.jobs[0].InsertJob? && proc.pc.Work? && proc.pc.left == 2
    ensures StepOk(w, mem, log, proc, worker, e, proc', PhaseOf(proc'.pc, e.worker))
    ensures PhaseOf(proc'.pc, e.worker) == Counted(worker.local.slot)
  {
    hide TableSem, RecordSem, TableLockWorks, Fits, Partition, IxValid, Bucket, Threads, FreeCells;
    CallsFollow(w, mem, log, proc, worker, e, proc');
  }

  /** The popped slot is on no list and under no index entry. */
  lemma PoppedSlotApart<K(!new), T(!new)>(w: World<K, T>, mem: Memory<K>)
    requires Frame(w, mem) && mem.ix.free != []
    ensures var slot := mem.ix.free[0];
            slot < |mem.cells| && slot !in mem.ix.entries && slot !in mem.ix.free[1..]
  {
    TakeFirst(mem.ix.capacity, mem.ix.free, mem.ix.entries.Keys);
    assert mem.ix.free[0] !in mem.ix.free[1..];
  }

  /** A record that fits is read back from the cell it was written to. */
  lemma WrittenCell<K(!new), T(!new)>(w: World<K, T>, mem: Memory<K>, slot: nat, record: T)
    requires Sound(w.env.codec) && Fits(w, record) && slot < |mem.cells| && |mem.cells[slot].buffer| == w.dataSize
    ensures var cells := WriteCell(w, mem, slot, record).cells;
            && WriteCell(w, mem, slot, record) == mem.(cells := mem.cells[slot := cells[slot]])
            && InUse(cells[slot], w.dataSize) && |cells[slot].buffer| == w.dataSize
            && w.env.codec.deserialize(cells[slot].Read()) == Some(record)
  {
    var data := StoredBytes(w, record);
    assert (data + mem.cells[slot].buffer[|data|..])[..|data|] == data;
  }

  /** The record is written into the popped slot, which no one else can see yet. */
  lemma WriteStep<K(!new), T(!new)>(
      w: World<K, T>, mem: Memory<K>, log: seq<LogEntry<K, T>>, proc: Protocol.Proc, worker: Worker<K, T>,
      e: Effect<K, T>, proc': Protocol.Proc)
    requires Sound(w.env.codec)
    requires AllOk(w, mem, log, proc, worker, PhaseOf(proc.pc, worker)) && Steps(w, mem, log, proc, worker, e, proc')
    requires worker.jobs[0].InsertJob? && proc.pc.Work? && proc.pc.left == 1
    ensures StepOk(w, mem, log, proc, worker, e, proc', PhaseOf(proc'.pc, e.worker))
    ensures PhaseOf(proc'.pc, e.worker) == Written(worker.local.slot)
  {
    hide TableSem, RecordSem, TableLockWorks, Fits, Partition, IxValid, Bucket, Threads, WriteCell, Fold, Linked;
    CallsFollow(w, mem, log, proc, worker, e, proc');
    var slot, record := worker.local.slot, worker.jobs[0].record;
    PoppedSlotApart(w, mem);
    WrittenCell(w, mem, slot, record);
    ThreadsKept(mem.cells, e.mem.cells, mem.first, mem.ix.free[1..]);
    forall i | i in mem.ix.entries ensures Faithful(w, e.mem.cells, log, i) {
      assert Faithful(w, mem.cells, log, i);
    }
    assert forall i | i in mem.ix.free[1..] :: i in mem.ix.free;
  }

  /** The index takes the same slot from its own list, and the allocators agree again: the record is visible. */
  lemma IndexStep<K(!new), T(!new)>(
      w: World<K, T>, mem: Memory<K>, log: seq<LogEntry<K, T>>, proc: Protocol.Proc, worker: Worker<K, T>,
      e: Effect<K, T>, proc': Protocol.Proc)
    requires AllOk(w, mem, log, proc, worker, PhaseOf(proc.pc, worker)) && Steps(w, mem, log, proc, worker, e, proc')
    requires worker.jobs[0].InsertJob? && proc.pc.InIndex?
    ensures StepOk(w, mem, log, proc, worker, e, proc', PhaseOf(proc'.pc, e.worker))
    ensures PhaseOf(proc'.pc, e.worker) == Quiet
  {
    hide TableSem, RecordSem, TableLockWorks, Fits, Partition, IxValid, Bucket, Threads, FreeCells, Fold;
    CallsFollow(w, mem, log, proc, worker, e, proc');
    InsertIxValid(w.env.keys, mem.ix, KeyOf(w, worker.jobs[0]), worker.local.slot);
    PoppedSlotApart(w, mem);
    var x := Stored(worker.id, worker.local.slot, worker.jobs[0].record);
    forall i | i in e.mem.ix.entries ensures Faithful(w, mem.cells, e.log, i) {
      FoldAppend(w.initial, log, x, i);
      if i != worker.local.slot {
        assert Faithful(w, mem.cells, log, i);
      }
    }
  }

  // ---------- Updates under the record lock ----------

  /** A pending entry of the history changes no value. */
  lemma PendingKeepsValues<K(!new), T(!new)>(
      w: World<K, T>, mem: Memory<K>, log: seq<LogEntry<K, T>>, x: LogEntry<K, T>)
    requires Values(w, mem, log) && x.Changed? && x.status.Pending?
    ensures Values(w, mem, log + [x])
  {
    hide Fold;
    forall i | Faithful(w, mem.cells, log, i) ensures Faithful(w, mem.cells, log + [x], i) {
      FoldAppend(w.initial, log, x, i);
    }
  }

  lemma AcquireStep<K(!new), T(!new)>(
      w: World<K, T>, mem: Memory<K>, log: seq<LogEntry<K, T>>, proc: Protocol.Proc, worker: Worker<K, T>,
      e: Effect<K, T>, proc': Protocol.Proc, phase: Phase)
    requires AllOk(w, mem, log, proc, worker, phase) && Steps(w, mem, log, proc, worker, e, proc')
    requires proc.pc.WantRecord?
    ensures StepOk(w, mem, log, proc, worker, e, proc', phase)
    ensures PhaseOf(proc.pc, worker) == PhaseOf(proc'.pc, e.worker) == Quiet
  {
    hide TableSem, RecordSem, TableLockWorks, RecordLockable, Fits, ListOk, Values, IxValid, Bucket, Fold;
    CallsFollow(w, mem, log, proc, worker, e, proc');
    LedToLockable(w, mem, log, proc, worker);
    PendingKeepsValues(w, mem, log, e.log[|log|]);
  }

  /** The record lock that an update asks for exists. */
  lemma LedToLockable<K(!new), T(!new)>(
      w: World<K, T>, mem: Memory<K>, log: seq<LogEntry<K, T>>, proc: Protocol.Proc, worker: Worker<K, T>)
    requires Frame(w, mem) && Place(w, mem, log, proc, worker) && proc.pc.WantRecord?
    ensures RecordLockable(w.capacity, proc.pc.position)
  {
    RecordLockWorks(w.capacity, proc.pc.position);
  }

  /** The lock holder reads exactly what the history says; the read cannot fail. */
  lemma ReadStep<K(!new), T(!new)>(
      w: World<K, T>, mem: Memory<K>, log: seq<LogEntry<K, T>>, proc: Protocol.Proc, worker: Worker<K, T>,
      e: Effect<K, T>, proc': Protocol.Proc, phase: Phase)
    requires AllOk(w, mem, log, proc, worker, phase) && Steps(w, mem, log, proc, worker, e, proc')
    requires worker.jobs[0].UpdateJob? && proc.pc.Work? && proc.pc.left == 2
    ensures StepOk(w, mem, log, proc, worker, e, proc', phase) && e.o == Protocol.Succeeds
    ensures PhaseOf(proc.pc, worker) == PhaseOf(proc'.pc, e.worker) == Quiet
  {
    hide TableSem, RecordSem, TableLockWorks, Fits, ListOk, IxValid, Bucket, Fold;
    CallsFollow(w, mem, log, proc, worker, e, proc');
    assert Faithful(w, mem.cells, log, worker.local.slot);
  }

  /** Writing to a slot in use leaves every free list as it is. */
  lemma ListKept<K(!new), T(!new)>(w: World<K, T>, mem: Memory<K>, cells: seq<Cell>, slot: nat, phase: Phase)
    requires Frame(w, mem) && ListOk(w, mem, phase) && slot in mem.ix.entries
    requires |cells| == |mem.cells| && forall i | 0 <= i < |cells| && i != slot :: cells[i] == mem.cells[i]
    ensures ListOk(w, mem.(cells := cells), phase)
    ensures phase.Written? ==> phase.slot != slot
  {
    hide Threads, IxValid;
    var free := mem.ix.free;
    ListApart(w, mem, slot);
    if phase.Quiet? {
      ThreadsKept(mem.cells, cells, mem.first, free);
    } else {
      assert forall i | i in free[1..] :: i in free;
      ThreadsKept(mem.cells, cells, mem.first, free[1..]);
      assert free[0] in free;
    }
  }

  lemma ListApart<K(!new), T(!new)>(w: World<K, T>, mem: Memory<K>, slot: nat)
    requires Frame(w, mem) && slot in mem.ix.entries
    ensures slot !in mem.ix.free
  {
    assert slot in mem.ix.entries.Keys;
  }

  /** Settling an update rejected for its size changes no value. */
  lemma RejectStep<K(!new), T(!new)>(
      w: World<K, T>, mem: Memory<K>, log: seq<LogEntry<K, T>>, proc: Protocol.Proc, worker: Worker<K, T>,
      e: Effect<K, T>, proc': Protocol.Proc, phase: Phase)
    requires AllOk(w, mem, log, proc, worker, phase) && Steps(w, mem, log, proc, worker, e, proc')
    requires worker.jobs[0].UpdateJob? && proc.pc.Work? && proc.pc.left == 1
    requires !Fits(w, worker.jobs[0].f(worker.local.record))
    ensures StepOk(w, mem, log, proc, worker, e, proc', phase)
    ensures PhaseOf(proc.pc, worker) == PhaseOf(proc'.pc, e.worker) == Quiet
  {
    hide TableSem, RecordSem, TableLockWorks, Fits, ListOk, IxValid, Bucket, Fold;
    CallsFollow(w, mem, log, proc, worker, e, proc');
    var slot, entry := worker.local.slot, worker.local.entry;
    var status: Status<T> := Rejected(Misfit(w, worker.jobs[0].f(worker.local.record)));
    FoldSettle(w.initial, log, slot, entry, status);
    forall i | Faithful(w, mem.cells, log, i) ensures Faithful(w, mem.cells, e.log, i) {
      if i != slot {
        SettleSpares(log, entry, status, i);
        FoldSpared(w.initial, log, e.log, i);
      }
    }
  }

  /** Writing the changed record back applies the closure to what the history said, and settles the update. */
  lemma ApplyStep<K(!new), T(!new)>(
      w: World<K, T>, mem: Memory<K>, log: seq<LogEntry<K, T>>, proc: Protocol.Proc, worker: Worker<K, T>,
      e: Effect<K, T>, proc': Protocol.Proc, phase: Phase)
    requires Sound(w.env.codec)
    requires AllOk(w, mem, log, proc, worker, phase) && Steps(w, mem, log, proc, worker, e, proc')
    requires worker.jobs[0].UpdateJob? && proc.pc.Work? && proc.pc.left == 1
    requires Fits(w, worker.jobs[0].f(worker.local.record))
    ensures StepOk(w, mem, log, proc, worker, e, proc', phase)
    ensures PhaseOf(proc.pc, worker) == PhaseOf(proc'.pc, e.worker) == Quiet
  {
    hide TableSem, RecordSem, TableLockWorks, Fits, ListOk, IxValid, Bucket, Fold, WriteCell, Settle;
    CallsFollow(w, mem, log, proc, worker, e, proc');
    var Loaded(slot, entry, record) := worker.local;
    var changed := worker.jobs[0].f(record);
    WrittenCell(w, mem, slot, changed);
    ListKept(w, mem, e.mem.cells, slot, phase);
    FoldSettle(w.initial, log, slot, entry, Applied(record));
    assert Faithful(w, e.mem.cells, e.log, slot);
    forall i | i != slot && Faithful(w, mem.cells, log, i) ensures Faithful(w, e.mem.cells, e.log, i) {
      SettleSpares(log, entry, Applied(record), i);
      FoldSpared(w.initial, log, e.log, i);
    }
  }

  // ---------- One step of any process ----------

  lemma FrameHasBuckets<K(!new), T(!new)>(w: World<K, T>, mem: Memory<K>)
    requires Frame(w, mem)
    ensures |mem.ix.chains| > 0
  {
  }

  /** While one process holds the table lock, no other is between the allocators. */
  lemma OthersQuiet<K(!new), T(!new)>(w: World<K, T>, s: Config<K, T>, p: nat)
    requires Inv(w, s) && p < |s.workers|
    requires Protocol.HeldSem(s.lock.procs[p].pc) == Some(TableSem(w.capacity))
    ensures forall q | 0 <= q < |s.workers| && q != p :: PhaseOf(s.lock.procs[q].pc, s.workers[q]) == Quiet
  {
    hide TableSem, RecordSem, Frame, ListOk, Values, Protocol.Inv;
    forall q | 0 <= q < |s.workers| && q != p ensures PhaseOf(s.lock.procs[q].pc, s.workers[q]) == Quiet {
      assert Place(w, s.mem, s.log, s.lock.procs[q], s.workers[q]);
      Protocol.MutualExclusion(w.capacity, s.lock, p, q);
    }
  }

  /** The step of a process that does not hold the table lock as an inserter. */
  lemma SharedStep<K(!new), T(!new)>(
      w: World<K, T>, mem: Memory<K>, log: seq<LogEntry<K, T>>, proc: Protocol.Proc, worker: Worker<K, T>,
      e: Effect<K, T>, proc': Protocol.Proc, phase: Phase)
    requires Sound(w.env.codec)
    requires AllOk(w, mem, log, proc, worker, phase) && Steps(w, mem, log, proc, worker, e, proc')
    requires !InsertsUnderLock(proc.pc, worker)
    ensures StepOk(w, mem, log, proc, worker, e, proc', phase)
    ensures PhaseOf(proc.pc, worker) == PhaseOf(proc'.pc, e.worker) == Quiet
  {
    hide TableSem, RecordSem, TableLockWorks, Fits, Frame, ListOk, Values, StepOk, NextEffect, Protocol.After;
    if proc.pc.WantRecord? {
      AcquireStep(w, mem, log, proc, worker, e, proc', phase);
    } else if proc.pc.Work? && proc.pc.left == 2 {
      ReadStep(w, mem, log, proc, worker, e, proc', phase);
    } else if proc.pc.Work? && proc.pc.left == 1 {
      if Fits(w, worker.jobs[0].f(worker.local.record)) {
        ApplyStep(w, mem, log, proc, worker, e, proc', phase);
      } else {
        RejectStep(w, mem, log, proc, worker, e, proc', phase);
      }
    } else {
      LocalStep(w, mem, log, proc, worker, e, proc', phase);
    }
  }

  /** The step of the inserter that holds the table lock, everyone else being outside the allocators. */
  lemma ExclusiveStep<K(!new), T(!new)>(
      w: World<K, T>, mem: Memory<K>, log: seq<LogEntry<K, T>>, proc: Protocol.Proc, worker: Worker<K, T>,
      e: Effect<K, T>, proc': Protocol.Proc)
    requires Sound(w.env.codec)
    requires AllOk(w, mem, log, proc, worker, PhaseOf(proc.pc, worker)) && Steps(w, mem, log, proc, worker, e, proc')
    requires InsertsUnderLock(proc.pc, worker)
    ensures StepOk(w, mem, log, proc, worker, e, proc', PhaseOf(proc'.pc, e.worker))
  {
    hide TableSem, RecordSem, TableLockWorks, Fits, Frame, ListOk, Values, StepOk, NextEffect, Protocol.After;
    if proc.pc.InIndex? {
      IndexStep(w, mem, log, proc, worker, e, proc');
    } else if proc.pc.Work? && proc.pc.left == 4 {
      ReserveStep(w, mem, log, proc, worker, e, proc');
    } else if proc.pc.Work? && proc.pc.left == 3 {
      PopStep(w, mem, log, proc, worker, e, proc');
    } else if proc.pc.Work? && proc.pc.left == 2 {
      CountStep(w, mem, log, proc, worker, e, proc');
    } else if proc.pc.Work? && proc.pc.left == 1 {
      WriteStep(w, mem, log, proc, worker, e, proc');
    } else {
      LocalStep(w, mem, log, proc, worker, e, proc', PhaseOf(proc.pc, worker));
    }
  }

  lemma OwnStep<K(!new), T(!new)>(w: World<K, T>, s: Config<K, T>, p: nat, s': Config<K, T>)
    requires Sound(w.env.codec) && Inv(w, s) && WorkStep(w, s, p, s')
    ensures |s'.lock.procs| == |s'.workers| == |s.workers|
    ensures var e := NextEffect(w, s.lock.procs[p].pc, s.workers[p], s.mem, s.log);
            StepOk(w, s.mem, s.log, s.lock.procs[p], s.workers[p], e, s'.lock.procs[p],
                   CurrentPhase(s'.lock.procs, s'.workers))
  {
    hide TableSem, RecordSem, Frame, ListOk, Values, StepOk, NextEffect, Protocol.After, Protocol.Inv;
    FrameHasBuckets(w, s.mem);
    var proc, worker := s.lock.procs[p], s.workers[p];
    var e, proc' := NextEffect(w, proc.pc, worker, s.mem, s.log), s'.lock.procs[p];
    assert Place(w, s.mem, s.log, proc, worker);
    if InsertsUnderLock(proc.pc, worker) {
      OthersQuiet(w, s, p);
      PhaseOfOne(s.lock.procs, s.workers, p);
      ExclusiveStep(w, s.mem, s.log, proc, worker, e, proc');
      PhaseOfOne(s'.lock.procs, s'.workers, p);
    } else {
      SharedStep(w, s.mem, s.log, proc, worker, e, proc', CurrentPhase(s.lock.procs, s.workers));
      QuietStep(s.lock.procs, s.workers, p, proc', e.worker);
    }
  }

  /** The worker is at the record of the slot, or about to get there. */
  predicate IsAt<K, T>(pc: Protocol.Pc, worker: Worker<K, T>, slot: nat) {
    || (pc.WantRecord? && pc.position == slot)
    || (worker.jobs != [] && HasSlot(worker.local) && worker.local.slot == slot
        && if worker.jobs[0].InsertJob? then Reserving(pc) else pc.Work? && pc.left > 0)
  }

  /** A step changes cell and history of no slot but the one that the worker is at. */
  lemma StepSpares<K(!new), T(!new)>(
      w: World<K, T>, mem: Memory<K>, log: seq<LogEntry<K, T>>, proc: Protocol.Proc, worker: Worker<K, T>,
      e: Effect<K, T>, proc': Protocol.Proc, slot: nat)
    requires Frame(w, mem) && Place(w, mem, log, proc, worker) && Steps(w, mem, log, proc, worker, e, proc')
    requires slot < |mem.cells| && !IsAt(proc.pc, worker, slot)
    ensures Spares(log, e.log, slot)
    ensures slot < |e.mem.cells| && e.mem.cells[slot] == mem.cells[slot]
  {
    hide TableSem, RecordSem, TableLockWorks, RecordLockable, Fits, Frame, CallReady, IxGet, IxInsert, Fold, Settle;
    if proc.pc.Work? && proc.pc.left > 0 && worker.jobs[0].UpdateJob? {
      var entry := worker.local.entry;
      if worker.local.Loaded? {
        SettleSpares(log, entry, Applied(worker.local.record), slot);
        SettleSpares(log, entry, Rejected(Misfit(w, worker.jobs[0].f(worker.local.record))), slot);
      }
      SettleSpares(log, entry, Rejected(DeserializationError), slot);
    }
  }

  /**
   Two processes are never at one record: their semaphores differ, or one of the slots is not in the
   index yet. A step changes neither the cell nor the history of a record that another is updating.
   */
  lemma TouchesApart<K(!new), T(!new)>(w: World<K, T>, s: Config<K, T>, p: nat, s': Config<K, T>, q: nat)
    requires Inv(w, s) && WorkStep(w, s, p, s') && Protocol.Inv(w.capacity, s'.lock)
    requires q < |s.workers| && q != p
    requires s.workers[q].jobs != [] && s.workers[q].jobs[0].UpdateJob?
    requires s.lock.procs[q].pc.Work? && s.lock.procs[q].pc.left > 0
    ensures var slot := s.workers[q].local.slot;
            && !IsAt(s.lock.procs[p].pc, s.workers[p], slot)
            && Spares(s.log, s'.log, slot)
            && slot < |s.mem.cells| == |s'.mem.cells| && s'.mem.cells[slot] == s.mem.cells[slot]
  {
    hide TableSem, RecordSem, Fits, ListOk, Values, Protocol.Inv, NextEffect, Protocol.After, Fold, Spares, IxValid,
         Open;
    FrameHasBuckets(w, s.mem);
    var proc, worker, slot := s.lock.procs[p], s.workers[p], s.workers[q].local.slot;
    assert Place(w, s.mem, s.log, proc, worker);
    assert Place(w, s.mem, s.log, s.lock.procs[q], s.workers[q]);
    AtDifferentSlots(w, s, p, s', q);
    StepSpares(w, s.mem, s.log, proc, worker, NextEffect(w, proc.pc, worker, s.mem, s.log), s'.lock.procs[p], slot);
    SameCells(w, s.mem, s.log, proc, worker);
  }

  lemma AtDifferentSlots<K(!new), T(!new)>(w: World<K, T>, s: Config<K, T>, p: nat, s': Config<K, T>, q: nat)
    requires Inv(w, s) && WorkStep(w, s, p, s') && Protocol.Inv(w.capacity, s'.lock)
    requires q < |s.workers| && q != p
    requires s.workers[q].jobs != [] && s.workers[q].jobs[0].UpdateJob?
    requires s.lock.procs[q].pc.Work? && s.lock.procs[q].pc.left > 0
    ensures !IsAt(s.lock.procs[p].pc, s.workers[p], s.workers[q].local.slot)
  {
    hide TableSem, RecordSem, RecordLockable, Fits, ListOk, Values, Protocol.Inv, CallReady, NextEffect, Fold, Open,
         IxValid;
    var proc, worker := s.lock.procs[p], s.workers[p];
    assert Place(w, s.mem, s.log, proc, worker);
    assert Place(w, s.mem, s.log, s.lock.procs[q], s.workers[q]);
    if proc.pc.WantRecord? {
      LedToLockable(w, s.mem, s.log, proc, worker);
      Protocol.MutualExclusion(w.capacity, s'.lock, p, q);
    } else if proc.pc.Work? && worker.jobs[0].UpdateJob? {
      Protocol.MutualExclusion(w.capacity, s.lock, p, q);
    }
  }

  lemma SameCells<K(!new), T(!new)>(
      w: World<K, T>, mem: Memory<K>, log: seq<LogEntry<K, T>>, proc: Protocol.Proc, worker: Worker<K, T>)
    requires |mem.ix.chains| > 0 && worker.jobs != [] && CallReady(proc, worker)
    requires !Protocol.Finished(proc)
    ensures |NextEffect(w, proc.pc, worker, mem, log).mem.cells| == |mem.cells|
  {
    hide Fits, IxGet, IxInsert, Settle;
  }

  lemma OtherPlaceKept<K(!new), T(!new)>(w: World<K, T>, s: Config<K, T>, p: nat, s': Config<K, T>, q: nat)
    requires Sound(w.env.codec) && Inv(w, s) && WorkStep(w, s, p, s') && Protocol.Inv(w.capacity, s'.lock)
    requires q < |s.workers| && q != p
    ensures q < |s'.lock.procs| == |s'.workers|
    ensures Place(w, s'.mem, s'.log, s'.lock.procs[q], s'.workers[q])
  {
    hide TableSem, RecordSem, Frame, ListOk, Values, NextEffect, Protocol.After, Protocol.Inv, CallReady, AllOk,
         KeepsEntries, KeepsAllocation;
    var proc, worker := s.lock.procs[q], s.workers[q];
    OwnStep(w, s, p, s');
    assert Place(w, s.mem, s.log, s.lock.procs[p], s.workers[p]);
    assert Place(w, s.mem, s.log, proc, worker);
    if InsertsUnderLock(s.lock.procs[p].pc, s.workers[p]) {
      Protocol.MutualExclusion(w.capacity, s.lock, p, q);
    }
    if worker.jobs != [] && worker.jobs[0].UpdateJob? && proc.pc.Work? && proc.pc.left > 0 {
      TouchesApart(w, s, p, s', q);
    }
    PlaceKept(w, s.mem, s.log, s'.mem, s'.log, proc, worker);
  }

  /** Every step of every process keeps the invariant. */
  lemma StepKeepsInv<K(!new), T(!new)>(w: World<K, T>, s: Config<K, T>, p: nat, s': Config<K, T>)
    requires Sound(w.env.codec) && Inv(w, s) && WorkStep(w, s, p, s')
    ensures Inv(w, s')
  {
    hide TableSem, RecordSem, Frame, ListOk, Values, NextEffect, Protocol.After, Protocol.Inv, Place;
    FrameHasBuckets(w, s.mem);
    var e := NextEffect(w, s.lock.procs[p].pc, s.workers[p], s.mem, s.log);
    Protocol.StepKeepsInv(w.capacity, s.lock, p, e.o, s'.lock);
    OwnStep(w, s, p, s');
    forall q | 0 <= q < |s'.workers| ensures Place(w, s'.mem, s'.log, s'.lock.procs[q], s'.workers[q]) {
      if q != p {
        OtherPlaceKept(w, s, p, s', q);
      }
    }
  }
}
