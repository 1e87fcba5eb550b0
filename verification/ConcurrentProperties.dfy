/** What holds over whole concurrent runs of inserts and updates. */
module ConcurrentProperties {
  import opened Results
  import opened SlotModel
  import opened IndexModel
  import opened TableModel
  import opened Semaphores
  import opened ConcurrentModel
  import opened ConcurrentTable
  import Protocol = LockProtocol

  // ---------- Runs ----------

  /** Processes about to start on a table, each with its jobs. */
  function Start<K, T>(w: World<K, T>, mem: Memory<K>, programs: seq<seq<Job<K, T>>>): Config<K, T> {
    Config(Protocol.Init(w.capacity, seq(|programs|, p requires 0 <= p < |programs| => CallsOf(programs[p]))),
           seq(|programs|, p requires 0 <= p < |programs| => Worker(p, programs[p], Nothing, 0, [])),
           mem, [])
  }

  /** The memory holds a table whose allocators are in lockstep, and `initial` is what its slots hold. */
  ghost predicate Holding<K(!new), T>(w: World<K, T>, mem: Memory<K>, arena: Arena) {
    && Represents(mem.cells, mem.first, mem.count, arena)
    && arena.capacity == w.capacity && arena.dataSize == w.dataSize
    && IxValid(w.env.keys, mem.ix)
    && Coupled(TableState(arena, mem.ix))
    && Decodable(w.env, TableState(arena, mem.ix))
    && w.initial.Keys == arena.live.Keys
    && forall i | i in arena.live :: w.env.codec.deserialize(arena.live[i]) == Some(w.initial[i])
  }

  lemma StartInv<K(!new), T(!new)>(w: World<K, T>, mem: Memory<K>, arena: Arena, programs: seq<seq<Job<K, T>>>)
    requires Holding(w, mem, arena)
    ensures Inv(w, Start(w, mem, programs))
  {
    hide Partition, Threads, IxValid, Stripes, RecordSem, TableSem, Protocol.Inv;
    var s := Start(w, mem, programs);
    Protocol.InitInv(w.capacity, seq(|programs|, p requires 0 <= p < |programs| => CallsOf(programs[p])));
    AllQuiet(s.lock.procs, s.workers);
    HoldingMemory(w, mem, arena);
  }

  lemma HoldingMemory<K(!new), T(!new)>(w: World<K, T>, mem: Memory<K>, arena: Arena)
    requires Holding(w, mem, arena)
    ensures Frame(w, mem) && ListOk(w, mem, Quiet) && Values(w, mem, [])
  {
    hide Threads, IxValid, Partition;
    FreeStateMeansListed(mem.cells, mem.first, mem.count, arena);
    FreeInRange(arena);
    forall i | i in mem.ix.entries
      ensures i < |mem.cells| && InUse(mem.cells[i], w.dataSize) && Faithful(w, mem.cells, [], i)
    {
      assert i in mem.ix.entries.Keys && i in arena.live.Keys;
      ReadsContents(mem.cells, mem.first, mem.count, arena, i);
      assert Holds(mem.cells[i], arena.live[i], arena.dataSize);
    }
    forall i | 0 <= i < |mem.cells| ensures |mem.cells[i].buffer| == w.dataSize {
      if i in arena.live {
        assert Holds(mem.cells[i], arena.live[i], arena.dataSize);
      }
    }
  }

  lemma FreeInRange(a: Arena)
    requires a.Valid()
    ensures forall i | i in a.free :: i < a.capacity
  {
  }

  /** Step `i` is taken by process `who[i]`; the processes interleave in any way. */
  ghost predicate Interleaving<K(!new), T>(w: World<K, T>, trace: seq<Config<K, T>>, who: seq<nat>) {
    && |trace| == |who| + 1
    && forall i | 0 <= i < |who| :: Stepped(w, trace[i], who[i], trace[i + 1])
  }

  ghost predicate Stepped<K(!new), T>(w: World<K, T>, s: Config<K, T>, p: nat, s': Config<K, T>) {
    && SameShape(s.lock.table) && SameShape(s.lock.index) && |s.mem.ix.chains| > 0
    && WorkStep(w, s, p, s')
  }

  lemma {:induction false} RunKeepsInv<K(!new), T(!new)>(w: World<K, T>, trace: seq<Config<K, T>>, who: seq<nat>)
    requires Sound(w.env.codec) && Interleaving(w, trace, who) && Inv(w, trace[0])
    ensures forall i | 0 <= i < |trace| :: Inv(w, trace[i])
  {
    hide Inv, WorkStep;
    if who != [] {
      var n := |who| - 1;
      assert forall i | 0 <= i < n :: Stepped(w, trace[i], who[i], trace[i + 1]);
      RunKeepsInv(w, trace[..n + 1], who[..n]);
      assert trace[..n + 1][n] == trace[n] && Stepped(w, trace[n], who[n], trace[n + 1]);
      SteppedKeepsInv(w, trace[n], who[n], trace[n + 1]);
      forall i | 0 <= i < |trace| ensures Inv(w, trace[i]) {
        if i <= n {
          assert trace[i] == trace[..n + 1][i];
        }
      }
    }
  }

  lemma SteppedKeepsInv<K(!new), T(!new)>(w: World<K, T>, s: Config<K, T>, p: nat, s': Config<K, T>)
    requires Sound(w.env.codec) && Inv(w, s) && Stepped(w, s, p, s')
    ensures Inv(w, s')
  {
    StepKeepsInv(w, s, p, s');
  }

  /** Every process has done all its jobs. */
  ghost predicate AllDone<K, T>(s: Config<K, T>) {
    forall p | 0 <= p < |s.workers| :: s.workers[p].jobs == []
  }

  /** Each record in the index reads as the history says. */
  lemma RecordsFaithful<K(!new), T(!new)>(w: World<K, T>, s: Config<K, T>, i: nat)
    requires Inv(w, s) && i in s.mem.ix.entries
    ensures i < |s.mem.cells| && s.mem.cells[i].state.Occupied? && Fold(w.initial, s.log, i).Some?
    ensures w.env.codec.deserialize(s.mem.cells[i].Read()) == Fold(w.initial, s.log, i)
  {
    hide ListOk, Place, Protocol.Inv, Fold, IxValid;
    assert Faithful(w, s.mem.cells, s.log, i);
  }

  // ---------- The coupling ----------

  lemma {:induction false} PhaseHolder<K, T>(procs: seq<Protocol.Proc>, workers: seq<Worker<K, T>>) returns (p: nat)
    requires |procs| == |workers| && CurrentPhase(procs, workers) != Quiet
    ensures p < |procs| && PhaseOf(procs[p].pc, workers[p]) == CurrentPhase(procs, workers)
  {
    if PhaseOf(procs[0].pc, workers[0]) != Quiet {
      p := 0;
    } else {
      var q := PhaseHolder(procs[1..], workers[1..]);
      p := q + 1;
    }
  }

  /** The slots that hold a record. */
  ghost function OccupiedSlots(cells: seq<Cell>): set<nat> {
    set i: nat | i < |cells| && cells[i].state.Occupied?
  }

  /**
   In every state the record allocator's free list is the index allocator's, and the occupied slots
   are the indexed ones, except for one slot of the one process that holds the table lock: it may
   already be off the record list and written while it still heads the index list.
   */
  lemma CouplingHolds<K(!new), T(!new)>(w: World<K, T>, s: Config<K, T>)
    requires Inv(w, s)
    ensures var records, occupied := Walk(s.mem.cells, s.mem.first, w.capacity), OccupiedSlots(s.mem.cells);
            || (records == s.mem.ix.free && occupied == s.mem.ix.entries.Keys)
            || exists p | 0 <= p < |s.workers| ::
                 && Protocol.HeldSem(s.lock.procs[p].pc) == Some(TableSem(w.capacity))
                 && s.workers[p].local.Reserved?
                 && s.mem.ix.free == [s.workers[p].local.slot] + records
                 && (occupied == s.mem.ix.entries.Keys
                     || occupied == s.mem.ix.entries.Keys + {s.workers[p].local.slot})
  {
    hide TableSem, IxValid, Threads, Walk, Place, Protocol.Inv;
    var phase := CurrentPhase(s.lock.procs, s.workers);
    OccupiedByPhase(w, s.mem, phase);
    if phase != Quiet {
      var p := PhaseHolder(s.lock.procs, s.workers);
      InPlaceHolds(w, s, p);
    }
  }

  lemma InPlaceHolds<K(!new), T(!new)>(w: World<K, T>, s: Config<K, T>, p: nat)
    requires Inv(w, s) && p < |s.workers| && PhaseOf(s.lock.procs[p].pc, s.workers[p]) != Quiet
    ensures Protocol.HeldSem(s.lock.procs[p].pc) == Some(TableSem(w.capacity)) && s.workers[p].local.Reserved?
  {
    hide TableSem;
    assert Place(w, s.mem, s.log, s.lock.procs[p], s.workers[p]);
  }

  lemma OccupiedByPhase<K(!new), T(!new)>(w: World<K, T>, mem: Memory<K>, phase: Phase)
    requires Frame(w, mem) && ListOk(w, mem, phase)
    ensures var records, occupied := Walk(mem.cells, mem.first, w.capacity), OccupiedSlots(mem.cells);
            if phase.Quiet? then
              records == mem.ix.free && occupied == mem.ix.entries.Keys
            else
              && mem.ix.free == [phase.slot] + records
              && occupied == mem.ix.entries.Keys + if phase.Written? then {phase.slot} else {}
  {
    hide Threads, Walk, IxValid;
    var free := mem.ix.free;
    UsedOrFree(w, mem);
    var list := if phase.Quiet? then free else free[1..];
    assert phase.Quiet? || free == [phase.slot] + list;
    FreeShorter(w, mem, list);
    WalkFollowsThread(mem.cells, list, mem.first, w.capacity - |list|);
    assert |list| + (w.capacity - |list|) == w.capacity;
    forall i: nat ensures i in OccupiedSlots(mem.cells)
                     <==> i in mem.ix.entries.Keys + if phase.Written? then {phase.slot} else {}
    {
      if i < |mem.cells| && i !in mem.ix.entries {
        assert i in free;
      }
    }
  }

  lemma UsedOrFree<K(!new), T(!new)>(w: World<K, T>, mem: Memory<K>)
    requires Frame(w, mem)
    ensures forall i: nat | i < |mem.cells| :: i in mem.ix.entries || i in mem.ix.free
  {
    forall i: nat | i < |mem.cells| ensures i in mem.ix.entries || i in mem.ix.free {
      assert i in mem.ix.entries <==> i in mem.ix.entries.Keys;
    }
  }

  lemma FreeShorter<K(!new), T(!new)>(w: World<K, T>, mem: Memory<K>, list: seq<nat>)
    requires Frame(w, mem) && |list| <= |mem.ix.free|
    ensures |list| <= w.capacity
  {
    var a := Arena(mem.ix.capacity, 0, mem.ix.free, map i | i in mem.ix.entries.Keys :: []);
    assert a.live.Keys == mem.ix.entries.Keys;
    FreeAndLiveCount(a);
  }

  // ---------- After the run ----------

  /** The record arena that the memory stands for once no process is between the allocators. */
  ghost function SettledArena<K, T>(w: World<K, T>, mem: Memory<K>): Arena {
    Arena(w.capacity, w.dataSize, mem.ix.free,
          map i | i in mem.ix.entries && i < |mem.cells| :: mem.cells[i].Read())
  }

  /**
   When every process has finished, the memory holds a table again: sound allocators in lockstep, and
   in every slot the record that the history says.
   */
  lemma FinishedRunHoldsTable<K(!new), T(!new)>(w: World<K, T>, s: Config<K, T>)
    requires Inv(w, s) && AllDone(s)
    ensures var arena := SettledArena(w, s.mem);
            && Represents(s.mem.cells, s.mem.first, s.mem.count, arena)
            && Coupled(TableState(arena, s.mem.ix)) && IxValid(w.env.keys, s.mem.ix)
            && Decodable(w.env, TableState(arena, s.mem.ix))
            && forall i | i in s.mem.ix.entries ::
                 i in arena.live && w.env.codec.deserialize(arena.live[i]) == Fold(w.initial, s.log, i)
  {
    hide TableSem, Threads, Place, Protocol.Inv, Fold;
    AllQuiet(s.lock.procs, s.workers);
    var arena := SettledArena(w, s.mem);
    assert arena.live.Keys == s.mem.ix.entries.Keys;
    forall i | i in s.mem.ix.entries
      ensures Holds(s.mem.cells[i], arena.live[i], w.dataSize) && Faithful(w, s.mem.cells, s.log, i)
    {
      assert InUse(s.mem.cells[i], w.dataSize);
    }
    UsedOrFree(w, s.mem);
  }

  /** Concurrent runs cannot get stuck: as long as a job is left, some process can take its next step. */
  lemma JobsCanGoOn<K(!new), T(!new)>(w: World<K, T>, s: Config<K, T>, u: nat)
    requires Inv(w, s) && u < |s.workers| && s.workers[u].jobs != []
    ensures exists p, s' :: Stepped(w, s, p, s')
  {
    hide ListOk, Values, TableSem, RecordSem, Stripes, NextEffect, Protocol.After, Protocol.CanStep;
    FrameHasBuckets(w, s.mem);
    assert Place(w, s.mem, s.log, s.lock.procs[u], s.workers[u]);
    assert !Protocol.Finished(s.lock.procs[u]);
    Protocol.NoDeadlock(w.capacity, s.lock);
    var p :| Protocol.CanStep(w.capacity, s.lock, p);
    CanWork(w, s, p);
  }

  /**
   Every interleaving is as short as the jobs it starts with, and where it cannot go on, every process
   has done all its jobs.
   */
  lemma {:induction false} InterleavingIsBounded<K(!new), T(!new)>(
      w: World<K, T>, trace: seq<Config<K, T>>, who: seq<nat>)
    requires Sound(w.env.codec) && Interleaving(w, trace, who) && Inv(w, trace[0])
    ensures |who| + Protocol.TotalWeight(trace[|who|].lock.procs) <= Protocol.TotalWeight(trace[0].lock.procs)
    ensures (forall p, s' :: !Stepped(w, trace[|who|], p, s')) ==> AllDone(trace[|who|])
  {
    hide Inv, WorkStep, Protocol.TotalWeight;
    RunKeepsInv(w, trace, who);
    var last := trace[|who|];
    if u :| 0 <= u < |last.workers| && last.workers[u].jobs != [] {
      JobsCanGoOn(w, last, u);
    }
    if who != [] {
      var n := |who| - 1;
      assert forall i | 0 <= i < n :: Stepped(w, trace[i], who[i], trace[i + 1]);
      InterleavingIsBounded(w, trace[..n + 1], who[..n]);
      assert trace[..n + 1][n] == trace[n] && Stepped(w, trace[n], who[n], trace[n + 1]);
      SteppedLosesWeight(w, trace[n], who[n], trace[n + 1]);
    }
  }

  /** From every state that a run can reach, all jobs can be brought to an end. */
  lemma {:induction false} SomeRunFinishes<K(!new), T(!new)>(w: World<K, T>, s: Config<K, T>)
    returns (trace: seq<Config<K, T>>, who: seq<nat>)
    requires Sound(w.env.codec) && Inv(w, s)
    ensures Interleaving(w, trace, who) && trace[0] == s
    ensures AllDone(trace[|who|])
    decreases Protocol.TotalWeight(s.lock.procs)
  {
    hide Inv, Stepped, Protocol.TotalWeight;
    if u :| 0 <= u < |s.workers| && s.workers[u].jobs != [] {
      JobsCanGoOn(w, s, u);
      var p, s' :| Stepped(w, s, p, s');
      SteppedKeepsInv(w, s, p, s');
      SteppedLosesWeight(w, s, p, s');
      var rest, others := SomeRunFinishes(w, s');
      trace, who := [s] + rest, [p] + others;
      forall i | 0 <= i < |who| ensures Stepped(w, trace[i], who[i], trace[i + 1]) {
        if i > 0 {
          assert Stepped(w, rest[i - 1], others[i - 1], rest[i]);
        }
      }
    } else {
      trace, who := [s], [];
    }
  }

  lemma SteppedLosesWeight<K(!new), T(!new)>(w: World<K, T>, s: Config<K, T>, p: nat, s': Config<K, T>)
    requires Inv(w, s) && Stepped(w, s, p, s')
    ensures Protocol.TotalWeight(s'.lock.procs) < Protocol.TotalWeight(s.lock.procs)
  {
    hide Protocol.Inv, NextEffect, Frame, ListOk, Values, Place, Protocol.ProcStep, Protocol.TotalWeight;
    var e := NextEffect(w, s.lock.procs[p].pc, s.workers[p], s.mem, s.log);
    Protocol.MoveKeepsInv(w.capacity, s.lock, Protocol.Moves(p, e.o), s'.lock);
  }

  lemma CanWork<K(!new), T(!new)>(w: World<K, T>, s: Config<K, T>, p: nat)
    requires Inv(w, s) && SameShape(s.lock.table) && SameShape(s.lock.index) && |s.mem.ix.chains| > 0
    requires Protocol.CanStep(w.capacity, s.lock, p)
    ensures exists s' :: Stepped(w, s, p, s')
  {
    hide ListOk, Values, TableSem, RecordSem, Stripes, Protocol.After, Protocol.Inv, Fits, Settle, WriteCell, Bucket,
         FirstWith;
    var proc, worker := s.lock.procs[p], s.workers[p];
    assert Place(w, s.mem, s.log, proc, worker);
    var e := NextEffect(w, proc.pc, worker, s.mem, s.log);
    EffectPossible(w, s.mem, s.log, proc, worker);
    var lock :| Protocol.ProcStep(w.capacity, s.lock, p, e.o, lock);
    assert Stepped(w, s, p, Config(lock, s.workers[p := e.worker], e.mem, e.log));
  }

  lemma EffectPossible<K(!new), T(!new)>(
      w: World<K, T>, mem: Memory<K>, log: seq<LogEntry<K, T>>, proc: Protocol.Proc, worker: Worker<K, T>)
    requires Frame(w, mem) && |mem.ix.chains| > 0 && worker.jobs != [] && CallReady(proc, worker)
    ensures Protocol.Possible(proc, NextEffect(w, proc.pc, worker, mem, log).o)
  {
    hide IxValid, TableLockWorks, Fits, Settle, WriteCell, Bucket, FirstWith;
  }
}
