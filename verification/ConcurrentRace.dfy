/**
 The race that the duplicate check leaves open: two processes that insert the same new key can both
 find it absent before either takes the table lock, and then both insert it.
 */
module ConcurrentRace {
  import opened Results
  import opened SlotModel
  import opened IndexModel
  import opened TableModel
  import opened Semaphores
  import opened ConcurrentModel
  import opened ConcurrentTable
  import opened ConcurrentProperties
  import opened ConcurrentKeys
  import opened ConcurrentHistory
  import Protocol = LockProtocol

  // ---------- A process that steps alone ----------

  /** No other process holds a lock. */
  ghost predicate OthersIdle<K, T>(s: Config<K, T>, p: nat) {
    forall q | 0 <= q < |s.lock.procs| && q != p ::
      Protocol.HeldSem(s.lock.procs[q].pc).None? && !Protocol.HoldsIndex(s.lock.procs[q].pc)
  }

  lemma AloneIsNotBlocked<K(!new), T(!new)>(w: World<K, T>, s: Config<K, T>, p: nat)
    requires Inv(w, s) && p < |s.workers| && OthersIdle(s, p)
    ensures !Protocol.Blocked(w.capacity, s.lock, p)
  {
    hide TableSem, RecordSem, RecordLockable, TableLockWorks, Stripes, Frame, ListOk, Values, Place;
    var a := Protocol.NextAction(w.capacity, s.lock.procs[p]);
    if a.TakeIndex? || a.Take? {
      var g, sem := if a.Take? then s.lock.table else s.lock.index, if a.Take? then a.sem else 0;
      if sem < |g.kernel.values| {
        forall q | 0 <= q < |g.held| ensures sem < |g.held[q]| && g.held[q][sem] == 0 {
          assert Protocol.HoldsAsPlaced(s.lock, q);
        }
        HeldSumZero(g.held, sem);
        assert g.kernel.values[sem] + HeldSum(g.held, sem) == 1;
      }
    }
  }

  /** The process takes its next step. */
  lemma StepOf<K(!new), T(!new)>(w: World<K, T>, s: Config<K, T>, p: nat) returns (s': Config<K, T>)
    requires Sound(w.env.codec) && Inv(w, s) && p < |s.workers| && s.workers[p].jobs != [] && OthersIdle(s, p)
    ensures Stepped(w, s, p, s') && Inv(w, s') && OthersIdle(s', p)
    ensures |s.mem.ix.chains| > 0 && Place(w, s.mem, s.log, s.lock.procs[p], s.workers[p])
    ensures var e := NextEffect(w, s.lock.procs[p].pc, s.workers[p], s.mem, s.log);
            && |s'.workers| == |s'.lock.procs| == |s.workers|
            && Steps(w, s.mem, s.log, s.lock.procs[p], s.workers[p], e, s'.lock.procs[p])
            && s'.workers == s.workers[p := e.worker] && s'.mem == e.mem
            && forall q | 0 <= q < |s.workers| && q != p :: s'.lock.procs[q] == s.lock.procs[q]
  {
    hide TableSem, RecordSem, Stripes, ListOk, Values, NextEffect, Protocol.After, Protocol.Blocked, IxValid;
    FrameHasBuckets(w, s.mem);
    var proc, worker := s.lock.procs[p], s.workers[p];
    assert Place(w, s.mem, s.log, proc, worker);
    var e := NextEffect(w, proc.pc, worker, s.mem, s.log);
    AloneIsNotBlocked(w, s, p);
    Protocol.UnblockedCanStep(w.capacity, s.lock, p);
    EffectPossible(w, s.mem, s.log, proc, worker);
    var lock :| Protocol.ProcStep(w.capacity, s.lock, p, e.o, lock);
    s' := Config(lock, s.workers[p := e.worker], e.mem, e.log);
    SteppedKeepsInv(w, s, p, s');
  }

  lemma Chain<K(!new), T(!new)>(
      w: World<K, T>, a: seq<Config<K, T>>, p: seq<nat>, b: seq<Config<K, T>>, q: seq<nat>)
    requires Interleaving(w, a, p) && Interleaving(w, b, q) && a[|p|] == b[0]
    ensures Interleaving(w, a[..|p|] + b, p + q)
    ensures (a[..|p|] + b)[0] == a[0] && (a[..|p|] + b)[|p + q|] == b[|q|]
  {
    hide Stepped;
    var trace, who := a[..|p|] + b, p + q;
    forall i | 0 <= i < |who| ensures Stepped(w, trace[i], who[i], trace[i + 1]) {
      if i < |p| {
        assert Stepped(w, a[i], p[i], a[i + 1]);
      } else {
        assert Stepped(w, b[i - |p|], q[i - |p|], b[i - |p| + 1]);
      }
    }
  }

  // ---------- An insertion on its own ----------

  /** All but process `p` are as they were. */
  ghost predicate OthersKept<K, T>(s: Config<K, T>, s': Config<K, T>, p: nat)
    requires |s.workers| == |s.lock.procs|
  {
    && |s'.workers| == |s'.lock.procs| == |s.workers|
    && forall q | 0 <= q < |s.workers| && q != p ::
         s'.workers[q] == s.workers[q] && s'.lock.procs[q] == s.lock.procs[q]
  }

  /** The key was not in the index as process `p`, with an insertion to do, looked it up. */
  ghost predicate Checking<K, T>(w: World<K, T>, s: Config<K, T>, p: nat)
    requires |s.workers| == |s.lock.procs|
  {
    && p < |s.workers| && s.workers[p].jobs != [] && s.workers[p].jobs[0].InsertJob?
    && var pc := s.lock.procs[p].pc;
       pc.Idle? || pc.WantLookup? || pc.InLookup? || pc == Protocol.EndLookup(None)
  }

  /** It comes to the table lock without any change to memory. */
  lemma {:induction false} ComesToLock<K(!new), T(!new)>(w: World<K, T>, s: Config<K, T>, p: nat)
    returns (trace: seq<Config<K, T>>, who: seq<nat>)
    requires Sound(w.env.codec) && Inv(w, s) && OthersIdle(s, p) && Checking(w, s, p)
    requires KeyAbsent(s.mem.ix, KeyOf(w, s.workers[p].jobs[0]))
    ensures Interleaving(w, trace, who) && trace[0] == s
    ensures var last := trace[|who|];
            && Inv(w, last) && OthersKept(s, last, p) && last.mem == s.mem
            && last.lock.procs[p].pc.WantTable? && last.workers[p] == s.workers[p]
    decreases Protocol.Rank(s.lock.procs[p].pc)
  {
    hide Inv, Stepped, KeyAbsent, TableSem, RecordSem, RecordLockable, TableLockWorks, Fits, IxGet, NoRoom, Place;
    FrameOf(w, s);
    LookupTells(w, s.mem, KeyOf(w, s.workers[p].jobs[0]));
    var s' := StepOf(w, s, p);
    if s'.lock.procs[p].pc.WantTable? {
      trace, who := [s, s'], [p];
    } else {
      var rest, others := ComesToLock(w, s', p);
      Chain(w, [s, s'], [p], rest, others);
      trace, who := [s, s'][..1] + rest, [p] + others;
    }
  }

  lemma FrameOf<K(!new), T(!new)>(w: World<K, T>, s: Config<K, T>)
    requires Inv(w, s)
    ensures Frame(w, s.mem) && |s.workers| == |s.lock.procs|
  {
  }

  /** Process `p` is inserting: it is at the lock, between the allocators, or past both. */
  ghost predicate Inserting<K(!new), T>(w: World<K, T>, s: Config<K, T>, p: nat, ix: Ix<K>)
    requires |s.workers| == |s.lock.procs| && |ix.chains| > 0
  {
    && p < |s.workers| && s.workers[p].jobs != [] && s.workers[p].jobs[0].InsertJob?
    && Fits(w, s.workers[p].jobs[0].record) && TableLockWorks(w.capacity) && ix.free != []
    && var pc := s.lock.procs[p].pc;
       if pc.WantTable? || pc.Work? || pc.WantIndex? || pc.InIndex? then s.mem.ix == ix
       else (pc.EndIndex? || (pc.Release? && pc.ok))
            && s.mem.ix == IxInsert(w.env.keys, ix, KeyOf(w, s.workers[p].jobs[0]), ix.free[0]).0
  }

  /** It goes on to the end and leaves the key in the index, in the first free slot. */
  lemma {:induction false} InsertsAlone<K(!new), T(!new)>(w: World<K, T>, s: Config<K, T>, p: nat, ix: Ix<K>)
    returns (trace: seq<Config<K, T>>, who: seq<nat>)
    requires Sound(w.env.codec) && Inv(w, s) && OthersIdle(s, p)
    requires |ix.chains| > 0 && Inserting(w, s, p, ix)
    ensures Interleaving(w, trace, who) && trace[0] == s
    ensures var last := trace[|who|];
            && Inv(w, last) && OthersKept(s, last, p)
            && last.mem.ix == IxInsert(w.env.keys, ix, KeyOf(w, s.workers[p].jobs[0]), ix.free[0]).0
            && last.lock.procs[p].pc.Idle? && last.workers[p].jobs == s.workers[p].jobs[1..]
    decreases Protocol.Rank(s.lock.procs[p].pc)
  {
    hide Inv, Stepped, TableSem, RecordSem, RecordLockable, TableLockWorks, Fits, IxGet, NoRoom, Place, IxInsert,
         NextEffect, Protocol.After, Steps;
    var s' := StepOf(w, s, p);
    StaysInserting(w, s, p, s', ix);
    if s'.lock.procs[p].pc.Idle? {
      trace, who := [s, s'], [p];
    } else {
      var rest, others := InsertsAlone(w, s', p, ix);
      Chain(w, [s, s'], [p], rest, others);
      trace, who := [s, s'][..1] + rest, [p] + others;
    }
  }

  lemma StaysInserting<K(!new), T(!new)>(w: World<K, T>, s: Config<K, T>, p: nat, s': Config<K, T>, ix: Ix<K>)
    requires Inv(w, s) && |ix.chains| > 0 && |s.mem.ix.chains| > 0 && Inserting(w, s, p, ix)
    requires |s'.workers| == |s'.lock.procs| == |s.workers|
    requires var e := NextEffect(w, s.lock.procs[p].pc, s.workers[p], s.mem, s.log);
             && Place(w, s.mem, s.log, s.lock.procs[p], s.workers[p])
             && Steps(w, s.mem, s.log, s.lock.procs[p], s.workers[p], e, s'.lock.procs[p])
             && s'.workers == s.workers[p := e.worker] && s'.mem == e.mem
    ensures var pc, pc' := s.lock.procs[p].pc, s'.lock.procs[p].pc;
            if pc'.Idle? then
              && s'.mem.ix == IxInsert(w.env.keys, ix, KeyOf(w, s.workers[p].jobs[0]), ix.free[0]).0
              && s'.workers[p].jobs == s.workers[p].jobs[1..]
            else
              && Inserting(w, s', p, ix) && s'.workers[p].jobs == s.workers[p].jobs
              && Protocol.Rank(pc') < Protocol.Rank(pc)
  {
    hide TableSem, RecordSem, RecordLockable, TableLockWorks, Fits, IxGet, NoRoom, IxInsert, Protocol.Inv, Frame,
         Values, Threads, FreeCells, Settle;
    var proc, worker := s.lock.procs[p], s.workers[p];
    if InsertsUnderLock(proc.pc, worker) {
      LockHeldWorks(w, s, p);
    }
    if proc.pc.Work? && proc.pc.left == 1 {
      WriteKeepsIndex(w, s.mem, worker.local.slot, worker.jobs[0].record);
    }
  }

  // ---------- A process on its way to an insertion ----------

  function InsertsIn<K, T>(jobs: seq<Job<K, T>>): nat {
    if jobs == [] then 0 else (if jobs[0].InsertJob? then 1 else 0) + InsertsIn(jobs[1..])
  }

  /** The insertion under way is in the index already. */
  function Indexed<K, T>(pc: Protocol.Pc, worker: Worker<K, T>): nat {
    if worker.jobs != [] && worker.jobs[0].InsertJob? && (pc.EndIndex? || pc.Release?) then 1 else 0
  }

  /**
   The worker has to do some jobs that do not insert the key, and then `rest`; the key is not in the
   index, and there will be room for `need` more records when it comes to `rest`.
   */
  ghost predicate Approaching<K, T>(
      w: World<K, T>, ix: Ix<K>, pc: Protocol.Pc, worker: Worker<K, T>, rest: seq<Job<K, T>>, key: K, need: nat)
  {
    var jobs := worker.jobs;
    && |rest| <= |jobs| && jobs[|jobs| - |rest|..] == rest
    && (|jobs| == |rest| ==> pc.Idle?)
    && (forall j | 0 <= j < |jobs| - |rest| && jobs[j].InsertJob? :: KeyOf(w, jobs[j]) != key)
    && KeyAbsent(ix, key)
    && |ix.free| + (if |jobs| > |rest| then Indexed(pc, worker) else 0) >= need + InsertsIn(jobs[..|jobs| - |rest|])
  }

  /** What a step does to jobs and room: a job is done, or a key of it, or neither. */
  ghost predicate Moves<K(!new), T>(
      w: World<K, T>, ix: Ix<K>, pc: Protocol.Pc, worker: Worker<K, T>,
      ix': Ix<K>, pc': Protocol.Pc, worker': Worker<K, T>)
    requires worker.jobs != []
  {
    var jobs, jobs' := worker.jobs, worker'.jobs;
    var room, room' := |ix.free| + Indexed(pc, worker), |ix'.free| + Indexed(pc', worker');
    && (forall key | KeyAbsent(ix, key) :: KeyAbsent(ix', key) || (jobs[0].InsertJob? && KeyOf(w, jobs[0]) == key))
    && (|| (jobs' == jobs && room' >= room)
        || (jobs' == jobs[1..] && pc'.Idle? && Indexed(pc', worker') == 0
            && room' + (if jobs[0].InsertJob? then 1 else 0) >= room)
        || (jobs[0].UpdateJob? && jobs[0].keys != [] && jobs' == WithoutKey(jobs) && room' >= room))
  }

  lemma StepMoves<K(!new), T(!new)>(
      w: World<K, T>, mem: Memory<K>, log: seq<LogEntry<K, T>>, proc: Protocol.Proc, worker: Worker<K, T>,
      e: Effect<K, T>, proc': Protocol.Proc)
    requires Steps(w, mem, log, proc, worker, e, proc') && Place(w, mem, log, proc, worker)
    ensures Moves(w, mem.ix, proc.pc, worker, e.mem.ix, proc'.pc, e.worker)
  {
    hide TableSem, RecordSem, RecordLockable, TableLockWorks, Fits, IxGet, NoRoom, Misfit, NoLock, Settle, Fold, Bucket;
  }

  lemma StaysApproaching<K(!new), T(!new)>(
      w: World<K, T>, ix: Ix<K>, pc: Protocol.Pc, worker: Worker<K, T>,
      ix': Ix<K>, pc': Protocol.Pc, worker': Worker<K, T>, rest: seq<Job<K, T>>, key: K, need: nat)
    requires |worker.jobs| > |rest| && Moves(w, ix, pc, worker, ix', pc', worker')
    requires Approaching(w, ix, pc, worker, rest, key, need)
    ensures Approaching(w, ix', pc', worker', rest, key, need)
  {
    hide KeyAbsent, Indexed;
    var jobs, jobs', n := worker.jobs, worker'.jobs, |worker.jobs| - |rest|;
    assert jobs[..n][1..] == jobs[1..][..n - 1];
    assert jobs[1..][n - 1..] == rest;
    if jobs' == jobs[1..] {
      assert forall j | 0 <= j < n - 1 :: jobs'[j] == jobs[j + 1];
    } else if jobs' != jobs {
      assert jobs'[n..] == jobs[n..] && jobs'[..n][1..] == jobs[..n][1..];
      assert forall j | 1 <= j < n :: jobs'[j] == jobs[j];
    }
  }

  lemma ApproachEnds<K(!new), T(!new)>(
      w: World<K, T>, ix: Ix<K>, pc: Protocol.Pc, worker: Worker<K, T>, rest: seq<Job<K, T>>, key: K, need: nat)
    requires Approaching(w, ix, pc, worker, rest, key, need)
    ensures |worker.jobs| >= |rest|
    ensures |worker.jobs| == |rest| ==>
              worker.jobs == rest && pc.Idle? && KeyAbsent(ix, key) && |ix.free| >= need
  {
    if |worker.jobs| == |rest| {
      assert worker.jobs[0..] == worker.jobs;
    }
  }

  /** The worker does these jobs, and the key is still absent. */
  lemma {:induction false} RunsUpTo<K(!new), T(!new)>(
      w: World<K, T>, s: Config<K, T>, p: nat, rest: seq<Job<K, T>>, key: K, need: nat)
    returns (trace: seq<Config<K, T>>, who: seq<nat>)
    requires Sound(w.env.codec) && Inv(w, s) && p < |s.workers| == |s.lock.procs| && OthersIdle(s, p)
    requires Approaching(w, s.mem.ix, s.lock.procs[p].pc, s.workers[p], rest, key, need)
    ensures Interleaving(w, trace, who) && trace[0] == s
    ensures var last := trace[|who|];
            && Inv(w, last) && OthersKept(s, last, p)
            && last.workers[p].jobs == rest && last.lock.procs[p].pc.Idle?
            && KeyAbsent(last.mem.ix, key) && |last.mem.ix.free| >= need
    decreases Protocol.TotalWeight(s.lock.procs)
  {
    hide Inv, Stepped, KeyAbsent, Place, NextEffect, Protocol.After, Protocol.TotalWeight, InsertsIn, Approaching,
         Moves;
    ApproachEnds(w, s.mem.ix, s.lock.procs[p].pc, s.workers[p], rest, key, need);
    if |s.workers[p].jobs| == |rest| {
      trace, who := [s], [];
    } else {
      var s' := StepOf(w, s, p);
      var e := NextEffect(w, s.lock.procs[p].pc, s.workers[p], s.mem, s.log);
      StepMoves(w, s.mem, s.log, s.lock.procs[p], s.workers[p], e, s'.lock.procs[p]);
      StaysApproaching(w, s.mem.ix, s.lock.procs[p].pc, s.workers[p], s'.mem.ix, s'.lock.procs[p].pc, s'.workers[p],
                       rest, key, need);
      SteppedLosesWeight(w, s, p, s');
      var later, others := RunsUpTo(w, s', p, rest, key, need);
      Chain(w, [s, s'], [p], later, others);
      trace, who := [s, s'][..1] + later, [p] + others;
    }
  }

  /** The first insertion of a key among the jobs. */
  lemma {:induction false} FirstInsertion<K(!new), T(!new)>(w: World<K, T>, jobs: seq<Job<K, T>>, key: K)
    returns (n: nat)
    requires key in InsertedKeys(w, jobs)
    ensures n < |jobs| && jobs[n].InsertJob? && KeyOf(w, jobs[n]) == key
    ensures forall j | 0 <= j < n && jobs[j].InsertJob? :: KeyOf(w, jobs[j]) != key
    ensures InsertsIn(jobs[..n]) < InsertsIn(jobs)
  {
    if jobs[0].InsertJob? && KeyOf(w, jobs[0]) == key {
      n := 0;
    } else {
      var m := FirstInsertion(w, jobs[1..], key);
      n := m + 1;
      assert jobs[..n][1..] == jobs[1..][..m];
    }
  }

  // ---------- The race ----------

  /** No process holds a lock. */
  ghost predicate NoneHolds<K, T>(s: Config<K, T>) {
    forall q | 0 <= q < |s.lock.procs| ::
      Protocol.HeldSem(s.lock.procs[q].pc).None? && !Protocol.HoldsIndex(s.lock.procs[q].pc)
  }

  /** Process `p` is between calls, and its next job is to insert a record of the key, which fits. */
  ghost predicate AboutTo<K, T>(w: World<K, T>, s: Config<K, T>, p: nat, key: K) {
    && p < |s.workers| == |s.lock.procs| && s.lock.procs[p].pc.Idle?
    && s.workers[p].jobs != [] && s.workers[p].jobs[0].InsertJob?
    && KeyOf(w, s.workers[p].jobs[0]) == key && Fits(w, s.workers[p].jobs[0].record)
  }

  /** Two processes about to insert one absent key, with room for both, can both do it. */
  lemma BothInsert<K(!new), T(!new)>(w: World<K, T>, s: Config<K, T>, p: nat, q: nat, key: K)
    returns (trace: seq<Config<K, T>>, who: seq<nat>)
    requires Sound(w.env.codec) && Inv(w, s) && NoneHolds(s) && TableLockWorks(w.capacity)
    requires p != q && AboutTo(w, s, p, key) && AboutTo(w, s, q, key)
    requires KeyAbsent(s.mem.ix, key) && |s.mem.ix.free| >= 2
    ensures Interleaving(w, trace, who) && trace[0] == s
    ensures Inv(w, trace[|who|]) && !UniqueKeys(trace[|who|].mem.ix)
  {
    hide Inv, Stepped, KeyAbsent, TableLockWorks, Fits, UniqueKeys, IxInsert;
    var ix := s.mem.ix;
    FrameOf(w, s);
    var t0, w0 := ComesToLock(w, s, p);
    var s1 := t0[|w0|];
    var t1, w1 := ComesToLock(w, s1, q);
    var s2 := t1[|w1|];
    FrameHasBuckets(w, s.mem);
    var t2, w2 := InsertsAlone(w, s2, p, ix);
    var s3 := t2[|w2|];
    IndexIsValid(w, s);
    BothEntries(w.env.keys, ix, key);
    FrameOf(w, s3);
    var t3, w3 := InsertsAlone(w, s3, q, s3.mem.ix);
    Chain(w, t0, w0, t1, w1);
    Chain(w, t0[..|w0|] + t1, w0 + w1, t2, w2);
    trace, who := (t0[..|w0|] + t1)[..|w0 + w1|] + t2, w0 + w1 + w2;
    Chain(w, trace, who, t3, w3);
    trace, who := trace[..|who|] + t3, who + w3;
  }

  lemma IndexIsValid<K(!new), T(!new)>(w: World<K, T>, s: Config<K, T>)
    requires Inv(w, s)
    ensures IxValid(w.env.keys, s.mem.ix)
  {
    hide ListOk, Values, Place, Protocol.Inv, IxValid;
  }

  lemma BothEntries<K(!new)>(keys: Keys<K>, ix: Ix<K>, key: K)
    requires IxValid(keys, ix) && |ix.free| >= 2
    ensures var once := IxInsert(keys, ix, key, ix.free[0]).0;
            && once.free != []
            && !UniqueKeys(IxInsert(keys, once, key, once.free[0]).0)
  {
    hide Bucket;
    var once := IxInsert(keys, ix, key, ix.free[0]).0;
    var twice := IxInsert(keys, once, key, once.free[0]).0;
    assert ix.free[0] != ix.free[1] && once.free[0] == ix.free[1];
    assert twice.entries[ix.free[0]].key == key && twice.entries[ix.free[1]].key == key;
  }

  /** Entries never leave the index, so a repeated key stays repeated. */
  lemma {:induction false} RepeatStays<K(!new), T(!new)>(
      w: World<K, T>, trace: seq<Config<K, T>>, who: seq<nat>)
    requires Sound(w.env.codec) && Interleaving(w, trace, who) && Inv(w, trace[0])
    requires !UniqueKeys(trace[0].mem.ix)
    ensures !UniqueKeys(trace[|who|].mem.ix)
  {
    hide Inv, WorkStep;
    if who != [] {
      var n := |who| - 1;
      assert forall i | 0 <= i < n :: Stepped(w, trace[i], who[i], trace[i + 1]);
      RepeatStays(w, trace[..n + 1], who[..n]);
      assert trace[..n + 1][n] == trace[n] && Stepped(w, trace[n], who[n], trace[n + 1]);
      RunKeepsInv(w, trace, who);
      StepKeepsEntries(w, trace[n], who[n], trace[n + 1]);
    }
  }

  lemma StepKeepsEntries<K(!new), T(!new)>(w: World<K, T>, s: Config<K, T>, p: nat, s': Config<K, T>)
    requires Sound(w.env.codec) && Inv(w, s) && Stepped(w, s, p, s')
    ensures KeepsEntries(s.mem, s'.mem)
  {
    hide NextEffect, Protocol.Inv, Protocol.After, AllOk, Frame, ListOk, Values, Place, KeepsEntries;
    OwnStep(w, s, p, s');
  }

  /** The records that the programs insert fit, and any two programs have room for all of theirs. */
  ghost predicate RoomForAll<K, T>(w: World<K, T>, ix: Ix<K>, programs: seq<seq<Job<K, T>>>) {
    && (forall p, j | 0 <= p < |programs| && 0 <= j < |programs[p]| && programs[p][j].InsertJob? ::
          Fits(w, programs[p][j].record))
    && (forall p, q | 0 <= p < |programs| && 0 <= q < |programs| && p != q ::
          InsertsIn(programs[p]) + InsertsIn(programs[q]) <= |ix.free|)
  }

  /**
   Wherever in their programs two processes insert the same new key, and whatever else they and others
   do, there is an interleaving that ends with two entries of that key, if there is room.
   */
  lemma RacingInsertsRepeatKey<K(!new), T(!new)>(
      w: World<K, T>, mem: Memory<K>, arena: Arena, programs: seq<seq<Job<K, T>>>, p: nat, q: nat, key: K)
    returns (trace: seq<Config<K, T>>, who: seq<nat>)
    requires Sound(w.env.codec) && Holding(w, mem, arena)
    requires TableLockWorks(w.capacity) && RoomForAll(w, mem.ix, programs)
    requires p < |programs| && q < |programs| && p != q && KeyAbsent(mem.ix, key)
    requires key in InsertedKeys(w, programs[p]) && key in InsertedKeys(w, programs[q])
    ensures Interleaving(w, trace, who) && trace[0] == Start(w, mem, programs)
    ensures AllDone(trace[|who|]) && !UniqueKeys(trace[|who|].mem.ix)
  {
    hide Inv, Stepped, KeyAbsent, TableLockWorks, Fits, Holding, UniqueKeys, AllDone, InsertedKeys, InsertsIn;
    var s0 := Start(w, mem, programs);
    StartInv(w, mem, arena, programs);
    var t0, w0 := ComeToKey(w, mem, arena, programs, p, q, key);
    var t1, w1 := BothInsert(w, t0[|w0|], p, q, key);
    var t2, w2 := SomeRunFinishes(w, t1[|w1|]);
    RepeatStays(w, t2, w2);
    Chain(w, t0, w0, t1, w1);
    trace, who := t0[..|w0|] + t1, w0 + w1;
    Chain(w, trace, who, t2, w2);
    trace, who := trace[..|who|] + t2, who + w2;
  }

  /** One after the other, the two processes come to their first insertions of the key. */
  lemma ComeToKey<K(!new), T(!new)>(
      w: World<K, T>, mem: Memory<K>, arena: Arena, programs: seq<seq<Job<K, T>>>, p: nat, q: nat, key: K)
    returns (trace: seq<Config<K, T>>, who: seq<nat>)
    requires Sound(w.env.codec) && Holding(w, mem, arena) && RoomForAll(w, mem.ix, programs)
    requires p < |programs| && q < |programs| && p != q && KeyAbsent(mem.ix, key)
    requires key in InsertedKeys(w, programs[p]) && key in InsertedKeys(w, programs[q])
    ensures Interleaving(w, trace, who) && trace[0] == Start(w, mem, programs)
    ensures var s := trace[|who|];
            && Inv(w, s) && NoneHolds(s) && AboutTo(w, s, p, key) && AboutTo(w, s, q, key)
            && KeyAbsent(s.mem.ix, key) && |s.mem.ix.free| >= 2
  {
    hide Inv, Stepped, KeyAbsent, Fits, Holding, InsertedKeys, InsertsIn;
    var s0 := Start(w, mem, programs);
    StartInv(w, mem, arena, programs);
    var m := FirstInsertion(w, programs[p], key);
    var n := FirstInsertion(w, programs[q], key);
    var need := 2 + InsertsIn(programs[q][..n]);
    assert programs[p][|programs[p]| - |programs[p][m..]|..] == programs[p][m..];
    var t0, w0 := RunsUpTo(w, s0, p, programs[p][m..], key, need);
    var s1 := t0[|w0|];
    assert programs[q][|programs[q]| - |programs[q][n..]|..] == programs[q][n..];
    var t1, w1 := RunsUpTo(w, s1, q, programs[q][n..], key, 2);
    Chain(w, t0, w0, t1, w1);
    trace, who := t0[..|w0|] + t1, w0 + w1;
  }

  /** Every finished interleaving leaves the keys unique. */
  ghost predicate AlwaysUnique<K(!new), T(!new)>(w: World<K, T>, mem: Memory<K>, programs: seq<seq<Job<K, T>>>) {
    forall trace: seq<Config<K, T>>, who: seq<nat> |
      Interleaving(w, trace, who) && trace[0] == Start(w, mem, programs) && AllDone(trace[|who|]) ::
      UniqueKeys(trace[|who|].mem.ix)
  }

  /**
   When keys stay unique. Where the table lock exists and there is room, every interleaving leaves the
   keys of the index unique exactly if no two processes insert the same new key.
   */
  lemma UniqueExactlyWithoutRace<K(!new), T(!new)>(
      w: World<K, T>, mem: Memory<K>, arena: Arena, programs: seq<seq<Job<K, T>>>)
    requires Sound(w.env.codec) && Holding(w, mem, arena) && UniqueKeys(mem.ix)
    requires TableLockWorks(w.capacity) && RoomForAll(w, mem.ix, programs)
    ensures AlwaysUnique(w, mem, programs) <==> NoRace(w, mem.ix, programs)
  {
    hide Holding, TableLockWorks, RoomForAll, InsertedKeys, UniqueKeys, Stepped, AllDone, Start, TableValid, KeySet;
    if NoRace(w, mem.ix, programs) {
      forall trace: seq<Config<K, T>>, who: seq<nat> |
        Interleaving(w, trace, who) && trace[0] == Start(w, mem, programs) && AllDone(trace[|who|])
        ensures UniqueKeys(trace[|who|].mem.ix)
      {
        UniqueWithoutRace(w, mem, arena, programs, trace, who);
      }
    } else {
      var p, q :| 0 <= p < |programs| && 0 <= q < |programs| && p != q
                  && !Apart(KeySet(mem.ix), InsertedKeys(w, programs[p]), InsertedKeys(w, programs[q]));
      var key :| key in InsertedKeys(w, programs[p]) && key !in KeySet(mem.ix) && key in InsertedKeys(w, programs[q]);
      AbsentMeansNotIn(mem.ix, key);
      var trace, who := RacingInsertsRepeatKey(w, mem, arena, programs, p, q, key);
    }
  }

  lemma UniqueWithoutRace<K(!new), T(!new)>(
      w: World<K, T>, mem: Memory<K>, arena: Arena, programs: seq<seq<Job<K, T>>>,
      trace: seq<Config<K, T>>, who: seq<nat>)
    requires Sound(w.env.codec) && Holding(w, mem, arena)
    requires UniqueKeys(mem.ix) && NoRace(w, mem.ix, programs)
    requires Interleaving(w, trace, who) && trace[0] == Start(w, mem, programs)
    requires AllDone(trace[|who|])
    ensures UniqueKeys(trace[|who|].mem.ix)
  {
    hide Holding, Interleaving, AllDone, Start, NoRace, UniqueKeys;
    FinishedRunIsTable(w, mem, arena, programs, trace, who);
  }
}
