/**
 Keys under concurrent inserts. The duplicate check comes before the table lock, so two processes can
 insert one new key twice; as long as no two processes insert the same new key, every interleaving
 leaves the keys of the index unique, and a finished run has left a valid table.
 */
module ConcurrentKeys {
  import opened Results
  import opened SlotModel
  import opened IndexModel
  import opened TableModel
  import opened TableProperties
  import opened Semaphores
  import opened ConcurrentModel
  import opened ConcurrentTable
  import opened ConcurrentProperties
  import Protocol = LockProtocol

  /** The keys that a list of jobs inserts, in order. */
  function InsertedKeys<K, T>(w: World<K, T>, jobs: seq<Job<K, T>>): seq<K> {
    if jobs == [] then []
    else if jobs[0].InsertJob? then [w.env.codec.key(jobs[0].record)] + InsertedKeys(w, jobs[1..])
    else InsertedKeys(w, jobs[1..])
  }

  /** Two lists of keys have no key in common that is not known yet. */
  ghost predicate Apart<K(!new)>(known: set<K>, a: seq<K>, b: seq<K>) {
    forall k | k in a && k !in known :: k !in b
  }

  /** The insertion has looked its key up in vain and not brought it into the index yet. */
  predicate PastCheck(pc: Protocol.Pc) {
    (pc.EndLookup? && pc.found.None?) || pc.WantTable? || pc.Work? || pc.WantIndex? || pc.InIndex?
  }

  ghost predicate CheckHolds<K, T>(w: World<K, T>, ix: Ix<K>, pc: Protocol.Pc, worker: Worker<K, T>) {
    worker.jobs != [] && worker.jobs[0].InsertJob? && PastCheck(pc) ==> KeyAbsent(ix, KeyOf(w, worker.jobs[0]))
  }

  ghost predicate KeysInv<K(!new), T>(w: World<K, T>, known: set<K>, s: Config<K, T>)
    requires |s.workers| == |s.lock.procs|
  {
    && UniqueKeys(s.mem.ix)
    && known <= KeySet(s.mem.ix)
    && (forall p | 0 <= p < |s.workers| :: CheckHolds(w, s.mem.ix, s.lock.procs[p].pc, s.workers[p]))
    && (forall p, q | 0 <= p < |s.workers| && 0 <= q < |s.workers| && p != q ::
          Apart(known, InsertedKeys(w, s.workers[p].jobs), InsertedKeys(w, s.workers[q].jobs)))
  }

  /** The step leaves the entries of the index, or brings the key of the worker's insertion into it. */
  ghost predicate KeysStep<K, T>(w: World<K, T>, worker: Worker<K, T>, ix: Ix<K>, ix': Ix<K>) {
    || ix'.entries == ix.entries
    || (worker.jobs != [] && worker.jobs[0].InsertJob?
        && exists slot :: slot !in ix.entries
                          && ix'.entries == ix.entries[slot := Entry(KeyOf(w, worker.jobs[0]), slot)])
  }

  ghost predicate Shrinks<K(!new)>(a: seq<K>, a': seq<K>) {
    forall k | k in a' :: k in a
  }

  lemma OwnKeys<K(!new), T(!new)>(
      w: World<K, T>, mem: Memory<K>, log: seq<LogEntry<K, T>>, proc: Protocol.Proc, worker: Worker<K, T>,
      e: Effect<K, T>, proc': Protocol.Proc)
    requires Frame(w, mem) && Place(w, mem, log, proc, worker) && Steps(w, mem, log, proc, worker, e, proc')
    requires proc.pc.InIndex? ==> ListOk(w, mem, PhaseOf(proc.pc, worker))
    requires CheckHolds(w, mem.ix, proc.pc, worker)
    ensures KeysStep(w, worker, mem.ix, e.mem.ix) && (e.mem.ix.entries != mem.ix.entries ==> proc.pc.InIndex?)
    ensures CheckHolds(w, e.mem.ix, proc'.pc, e.worker)
  {
    hide TableSem, RecordSem, RecordLockable, TableLockWorks, Fits, Frame, Threads, FreeCells, Settle, Bucket, IxGet,
         Fold;
    if proc.pc.InIndex? {
      PoppedSlotApart(w, mem);
      var slot := worker.local.slot;
      assert e.mem.ix.entries == mem.ix.entries[slot := Entry(KeyOf(w, worker.jobs[0]), slot)];
    } else if proc.pc.InLookup? {
      LookupTells(w, mem, KeyOf(w, worker.jobs[0]));
    }
  }

  lemma LookupTells<K(!new), T(!new)>(w: World<K, T>, mem: Memory<K>, key: K)
    requires Frame(w, mem)
    ensures |mem.ix.chains| > 0 && (IxGet(w.env.keys, mem.ix, key).None? <==> KeyAbsent(mem.ix, key))
  {
    hide Bucket, Partition, FirstWith;
    SearchFindsKey(w.env.keys, mem.ix, key);
  }

  lemma KeysShrink<K(!new), T(!new)>(
      w: World<K, T>, mem: Memory<K>, log: seq<LogEntry<K, T>>, proc: Protocol.Proc, worker: Worker<K, T>,
      e: Effect<K, T>, proc': Protocol.Proc)
    requires Steps(w, mem, log, proc, worker, e, proc')
    ensures Shrinks(InsertedKeys(w, worker.jobs), InsertedKeys(w, e.worker.jobs))
  {
    hide TableSem, RecordSem, RecordLockable, TableLockWorks, Fits, Settle, IxGet, IxInsert, WriteCell,
         Protocol.After;
    if worker.jobs[0].UpdateJob? && worker.jobs[0].keys != [] {
      assert WithoutKey(worker.jobs)[1..] == worker.jobs[1..];
    }
  }

  lemma OwnUnique<K(!new), T(!new)>(w: World<K, T>, known: set<K>, worker: Worker<K, T>, ix: Ix<K>, ix': Ix<K>)
    requires KeysStep(w, worker, ix, ix') && UniqueKeys(ix) && known <= KeySet(ix)
    requires ix'.entries != ix.entries && worker.jobs != [] && worker.jobs[0].InsertJob? ==>
               KeyAbsent(ix, KeyOf(w, worker.jobs[0]))
    ensures UniqueKeys(ix') && known <= KeySet(ix')
  {
    forall k | k in known ensures k in KeySet(ix') {
      var i :| i in ix.entries && ix.entries[i].key == k;
      assert i in ix'.entries && ix'.entries[i].key == k;
    }
  }

  /** What another worker found absent stays absent: the key brought in is not one of its own. */
  lemma OtherCheck<K(!new), T(!new)>(
      w: World<K, T>, known: set<K>, worker: Worker<K, T>, ix: Ix<K>, ix': Ix<K>, pc: Protocol.Pc, other: Worker<K, T>)
    requires KeysStep(w, worker, ix, ix') && known <= KeySet(ix)
    requires ix'.entries != ix.entries && worker.jobs != [] && worker.jobs[0].InsertJob? ==>
               KeyAbsent(ix, KeyOf(w, worker.jobs[0]))
    requires Apart(known, InsertedKeys(w, worker.jobs), InsertedKeys(w, other.jobs))
    requires CheckHolds(w, ix, pc, other)
    ensures CheckHolds(w, ix', pc, other)
  {
    if ix'.entries != ix.entries && other.jobs != [] && other.jobs[0].InsertJob? {
      var key := KeyOf(w, worker.jobs[0]);
      assert key == InsertedKeys(w, worker.jobs)[0] && key !in KeySet(ix);
      assert KeyOf(w, other.jobs[0]) == InsertedKeys(w, other.jobs)[0];
    }
  }

  lemma StepKeepsKeys<K(!new), T(!new)>(w: World<K, T>, known: set<K>, s: Config<K, T>, p: nat, s': Config<K, T>)
    requires Sound(w.env.codec) && Inv(w, s) && Stepped(w, s, p, s') && KeysInv(w, known, s)
    ensures |s'.workers| == |s'.lock.procs| && KeysInv(w, known, s')
  {
    hide Frame, ListOk, Values, NextEffect, Protocol.After, Protocol.Inv, Place, KeysStep, UniqueKeys, InsertedKeys,
         TableSem, RecordSem, KeySet, KeyAbsent;
    SteppedKeepsInv(w, s, p, s');
    var proc, worker := s.lock.procs[p], s.workers[p];
    var e, proc' := NextEffect(w, proc.pc, worker, s.mem, s.log), s'.lock.procs[p];
    assert Place(w, s.mem, s.log, proc, worker);
    if proc.pc.InIndex? {
      InserterPhase(w, s, p);
    }
    OwnKeys(w, s.mem, s.log, proc, worker, e, proc');
    KeysShrink(w, s.mem, s.log, proc, worker, e, proc');
    OwnUnique(w, known, worker, s.mem.ix, s'.mem.ix);
    forall q | 0 <= q < |s'.workers|
      ensures CheckHolds(w, s'.mem.ix, s'.lock.procs[q].pc, s'.workers[q])
      ensures q != p ==> Apart(known, InsertedKeys(w, e.worker.jobs), InsertedKeys(w, s'.workers[q].jobs))
      ensures q != p ==> Apart(known, InsertedKeys(w, s'.workers[q].jobs), InsertedKeys(w, e.worker.jobs))
    {
      if q != p {
        assert Apart(known, InsertedKeys(w, worker.jobs), InsertedKeys(w, s.workers[q].jobs));
        OtherCheck(w, known, worker, s.mem.ix, s'.mem.ix, s.lock.procs[q].pc, s.workers[q]);
      }
    }
  }

  /** Whoever is in the index under the table lock is the one between the allocators. */
  lemma InserterPhase<K(!new), T(!new)>(w: World<K, T>, s: Config<K, T>, p: nat)
    requires Inv(w, s) && p < |s.workers| && s.lock.procs[p].pc.InIndex?
    ensures ListOk(w, s.mem, PhaseOf(s.lock.procs[p].pc, s.workers[p]))
  {
    hide Frame, ListOk, Values, Protocol.Inv, TableSem, RecordSem;
    assert Place(w, s.mem, s.log, s.lock.procs[p], s.workers[p]);
    OthersQuiet(w, s, p);
    PhaseOfOne(s.lock.procs, s.workers, p);
  }

  lemma {:induction false} RunKeepsKeys<K(!new), T(!new)>(
      w: World<K, T>, known: set<K>, trace: seq<Config<K, T>>, who: seq<nat>)
    requires Sound(w.env.codec) && Interleaving(w, trace, who)
    requires Inv(w, trace[0]) && KeysInv(w, known, trace[0])
    ensures Inv(w, trace[|who|]) && KeysInv(w, known, trace[|who|])
  {
    hide Inv, KeysInv, WorkStep;
    RunKeepsInv(w, trace, who);
    if who != [] {
      var n := |who| - 1;
      assert forall i | 0 <= i < n :: Stepped(w, trace[i], who[i], trace[i + 1]);
      RunKeepsKeys(w, known, trace[..n + 1], who[..n]);
      assert trace[..n + 1][n] == trace[n] && Stepped(w, trace[n], who[n], trace[n + 1]);
      StepKeepsKeys(w, known, trace[n], who[n], trace[n + 1]);
    }
  }

  /** No two processes insert the same key, unless it is in the index already. */
  ghost predicate NoRace<K(!new), T>(w: World<K, T>, ix: Ix<K>, programs: seq<seq<Job<K, T>>>) {
    forall p, q | 0 <= p < |programs| && 0 <= q < |programs| && p != q ::
      Apart(KeySet(ix), InsertedKeys(w, programs[p]), InsertedKeys(w, programs[q]))
  }

  /**
   Any number of processes insert records, no two of them under the same new key, and update any keys,
   in any interleaving. Once all have finished, the memory is a valid table again, with its allocators
   in lockstep and its keys unique, and it has under each key the record of the history.
   */
  lemma FinishedRunIsTable<K(!new), T(!new)>(
      w: World<K, T>, mem: Memory<K>, arena: Arena, programs: seq<seq<Job<K, T>>>,
      trace: seq<Config<K, T>>, who: seq<nat>)
    requires Sound(w.env.codec) && Holding(w, mem, arena)
    requires UniqueKeys(mem.ix) && NoRace(w, mem.ix, programs)
    requires Interleaving(w, trace, who) && trace[0] == Start(w, mem, programs)
    requires AllDone(trace[|who|])
    ensures var last := trace[|who|];
            var arena' := SettledArena(w, last.mem);
            var t := TableState(arena', last.mem.ix);
            && Represents(last.mem.cells, last.mem.first, last.mem.count, arena')
            && TableValid(w.env, t)
            && forall i | i in last.mem.ix.entries ::
                 && last.mem.ix.entries[i].key in Contents(w.env, t)
                 && Fold(w.initial, last.log, i)
                    == Some(Contents(w.env, t)[last.mem.ix.entries[i].key])
  {
    hide Inv, WorkStep, Fold, Threads, Partition, IxValid, RecordFor, UniqueKeys;
    StartInv(w, mem, arena, programs);
    StartKeys(w, mem, programs);
    RunKeepsKeys(w, KeySet(mem.ix), trace, who);
    var last := trace[|who|];
    FinishedRunHoldsTable(w, last);
    var t := TableState(SettledArena(w, last.mem), last.mem.ix);
    assert TableValid(w.env, t);
    forall i | i in last.mem.ix.entries
      ensures last.mem.ix.entries[i].key in Contents(w.env, t)
      ensures Fold(w.initial, last.log, i) == Some(Contents(w.env, t)[last.mem.ix.entries[i].key])
    {
      assert i in t.records.live;
      EntryHoldsContents(w.env, t, i);
    }
  }

  lemma StartKeys<K(!new), T(!new)>(w: World<K, T>, mem: Memory<K>, programs: seq<seq<Job<K, T>>>)
    requires UniqueKeys(mem.ix) && NoRace(w, mem.ix, programs)
    ensures KeysInv(w, KeySet(mem.ix), Start(w, mem, programs))
  {
    hide InsertedKeys, UniqueKeys, KeySet, Stripes;
    var s := Start(w, mem, programs);
    forall p, q | 0 <= p < |s.workers| && 0 <= q < |s.workers| && p != q
      ensures Apart(KeySet(mem.ix), InsertedKeys(w, s.workers[p].jobs), InsertedKeys(w, s.workers[q].jobs))
    {
      assert Apart(KeySet(mem.ix), InsertedKeys(w, programs[p]), InsertedKeys(w, programs[q]));
    }
  }
}
