/**
 The history of a concurrent run against the programs: the entries of each process are, in program
 order, exactly its calls so far. None is missing, none is made up, and none comes twice.
 */
module ConcurrentCalls {
  import opened Results
  import opened SlotModel
  import opened IndexModel
  import opened TableModel
  import opened TableRefinement
  import opened Semaphores
  import opened ConcurrentModel
  import opened ConcurrentTable
  import opened ConcurrentProperties
  import Protocol = LockProtocol

  // ---------- Programs and their entries ----------

  /** What is left of a program, what the call under way has found, and what the calls before it returned. */
  datatype Tally<!K, !T> = Tally(jobs: seq<Job<K, T>>, found: nat, answers: seq<Reply<T>>)

  function TallyOf<K, T>(worker: Worker<K, T>): Tally<K, T> {
    Tally(worker.jobs, worker.found, worker.answers)
  }

  function Return<K, T>(t: Tally<K, T>, answer: Reply<T>): Tally<K, T>
    requires t.jobs != []
  {
    Tally(t.jobs[1..], 0, t.answers + [answer])
  }

  function PassKey<K, T>(t: Tally<K, T>, present: bool): Tally<K, T>
    requires t.jobs != [] && t.jobs[0].UpdateJob? && t.jobs[0].keys != []
  {
    t.(jobs := WithoutKey(t.jobs), found := t.found + if present then 1 else 0)
  }

  /** The answer that the call of an entry gave. */
  function AnswerOf<K, T>(x: LogEntry<K, T>): Option<Reply<T>> {
    match x
    case Stored(_, _, _) => Some(Reply.Inserted)
    case Changed(_, _, _, _, Pending) => None
    case Changed(_, _, _, _, Applied(met)) => Some(Reply.Updated(Some(met)))
    case Changed(_, _, _, _, Rejected(error)) => Some(Refused(error))
    case Unmet(_, _, reply) => Some(reply)
  }

  /** An update with no further key returns the count of the records that it has found. */
  function Next<K, T>(t: Tally<K, T>): Tally<K, T>
    decreases |t.jobs|
  {
    if t.jobs != [] && t.jobs[0].UpdateJob? && t.jobs[0].keys == [] then Next(Return(t, Reply.Counted(t.found))) else t
  }

  /**
   The tally after the call of entry `x`, if that is the next call of the program. An update counts a
   record once its change is applied; an error ends it with all its keys; one that is pending is
   still to be completed.
   */
  ghost function Make<K, T>(t: Tally<K, T>, x: LogEntry<K, T>): Option<Tally<K, T>> {
    if t.jobs == [] then None
    else
      match t.jobs[0]
      case InsertJob(record) =>
        if (x.Stored? && x.record == record) || (x.Unmet? && x.op == InsertOp(record) && x.reply.Refused?) then
          Some(Next(Return(t, AnswerOf(x).value)))
        else None
      case UpdateJob(keys, f) =>
        if keys == [] then None
        else if x.Changed? && x.key == keys[0] && x.f == f then
          match x.status
          case Pending => Some(t)
          case Applied(_) => Some(Next(PassKey(t, true)))
          case Rejected(_) => Some(Next(Return(t, AnswerOf(x).value)))
        else if x.Unmet? && x.op == UpdateOp(keys[0], f) && x.reply == Reply.Updated(None) then
          Some(Next(PassKey(t, false)))
        else None
  }

  /** The tally of process `p` after its calls in the history, if they follow its program. */
  ghost function Left<K, T>(jobs: seq<Job<K, T>>, log: seq<LogEntry<K, T>>, p: nat): Option<Tally<K, T>>
    decreases |log|
  {
    if log == [] then Some(Next(Tally(jobs, 0, [])))
    else
      var n := |log| - 1;
      var before := Left(jobs, log[..n], p);
      if before.None? || log[n].p != p then before else Make(before.value, log[n])
  }

  /** No entry after `entry` is the process's. */
  ghost predicate LastBy<K, T>(log: seq<LogEntry<K, T>>, p: nat, entry: nat) {
    forall e | entry < e < |log| :: log[e].p != p
  }

  lemma LeftAppend<K, T>(jobs: seq<Job<K, T>>, log: seq<LogEntry<K, T>>, x: LogEntry<K, T>, p: nat)
    ensures var before := Left(jobs, log, p);
            Left(jobs, log + [x], p) == if before.None? || x.p != p then before else Make(before.value, x)
  {
    assert (log + [x])[..|log|] == log;
  }

  lemma {:induction false} LeftSettleOther<K, T>(
      jobs: seq<Job<K, T>>, log: seq<LogEntry<K, T>>, entry: nat, status: Status<T>, p: nat)
    requires entry < |log| ==> log[entry].p != p
    ensures Left(jobs, Settle(log, entry, status), p) == Left(jobs, log, p)
    decreases |log|
  {
    hide Make, Next;
    if log != [] {
      var n, settled := |log| - 1, Settle(log, entry, status);
      if entry < n {
        assert settled[..n] == Settle(log[..n], entry, status);
        LeftSettleOther(jobs, log[..n], entry, status, p);
      } else {
        assert settled[..n] == log[..n];
      }
    }
  }

  /** Settling the process's last entry, which was pending, makes its call. */
  lemma {:induction false} LeftSettleOwn<K, T>(
      jobs: seq<Job<K, T>>, log: seq<LogEntry<K, T>>, entry: nat, status: Status<T>, p: nat)
    requires entry < |log| && log[entry].p == p && log[entry].Changed? && log[entry].status.Pending?
    requires LastBy(log, p, entry) && Left(jobs, log, p).Some?
    ensures Left(jobs, Settle(log, entry, status), p)
         == Make(Left(jobs, log, p).value, log[entry].(status := status))
    decreases |log|
  {
    var n, settled := |log| - 1, Settle(log, entry, status);
    if entry < n {
      assert settled[..n] == Settle(log[..n], entry, status);
      assert LastBy(log[..n], p, entry) && log[n].p != p;
      LeftSettleOwn(jobs, log[..n], entry, status, p);
    } else {
      assert settled[..n] == log[..n];
    }
  }

  // ---------- The invariant ----------

  /** The worker as it will be when the call under way is over, if that has its entry already. */
  function Logged<K, T>(pc: Protocol.Pc, worker: Worker<K, T>): Worker<K, T> {
    if worker.jobs == [] then worker
    else
      match worker.jobs[0]
      case InsertJob(_) =>
        if pc.EndIndex? then Returned(worker, true)
        else if pc.Release? then Returned(worker, pc.ok)
        else if pc.EndLookup? && pc.found.Some? then DropJob(worker, Refused(RecordDuplicated))
        else worker
      case UpdateJob(keys, _) =>
        if keys == [] then worker
        else if pc.Work? && pc.left == 0 then Returned(worker, true)
        else if pc.Release? then Returned(worker, pc.ok)
        else if pc.EndLookup? && pc.found.None? then DropKey(worker, false)
        else worker
  }

  /** The worker holds a record lock and has not settled its update. */
  predicate Updating<K, T>(pc: Protocol.Pc, worker: Worker<K, T>) {
    && worker.jobs != [] && worker.jobs[0].UpdateJob?
    && pc.Work? && pc.left > 0
    && (worker.local.Target? || worker.local.Loaded?)
  }

  ghost predicate Accounted<K, T>(
      program: seq<Job<K, T>>, log: seq<LogEntry<K, T>>, pc: Protocol.Pc, worker: Worker<K, T>)
  {
    && Left(program, log, worker.id) == Some(Next(TallyOf(Logged(pc, worker))))
    && (Updating(pc, worker) ==> LastBy(log, worker.id, worker.local.entry))
  }

  ghost predicate CallsInv<K, T>(programs: seq<seq<Job<K, T>>>, s: Config<K, T>)
    requires |s.workers| == |s.lock.procs|
  {
    && |programs| == |s.workers|
    && (forall p | 0 <= p < |s.workers| ::
          s.workers[p].id == p && Accounted(programs[p], s.log, s.lock.procs[p].pc, s.workers[p]))
    && (forall e | 0 <= e < |s.log| :: s.log[e].p < |programs|)
  }

  // ---------- One step ----------

  /** The history changes by one entry of process `p`. */
  ghost predicate Writes<K, T>(log: seq<LogEntry<K, T>>, log': seq<LogEntry<K, T>>, p: nat) {
    || log' == log
    || (|log'| == |log| + 1 && log'[..|log|] == log && log'[|log|].p == p)
    || (|log'| == |log| && exists e | 0 <= e < |log| ::
          log[e].p == p && log'[e].Changed? && log' == Settle(log, e, log'[e].status))
  }

  lemma SettleWrites<K, T>(log: seq<LogEntry<K, T>>, entry: nat, status: Status<T>, p: nat)
    requires entry < |log| && log[entry].p == p && log[entry].Changed?
    ensures Writes(log, Settle(log, entry, status), p)
  {
    var log' := Settle(log, entry, status);
    assert log[entry].p == p && log'[entry].Changed? && log' == Settle(log, entry, log'[entry].status);
  }

  lemma OtherAccounted<K, T>(
      program: seq<Job<K, T>>, log: seq<LogEntry<K, T>>, log': seq<LogEntry<K, T>>, p: nat,
      pc: Protocol.Pc, worker: Worker<K, T>)
    requires Accounted(program, log, pc, worker) && Writes(log, log', p) && worker.id != p
    ensures Accounted(program, log', pc, worker)
  {
    if log' != log && |log'| == |log| {
      var e :| 0 <= e < |log| && log[e].p == p && log'[e].Changed? && log' == Settle(log, e, log'[e].status);
      LeftSettleOther(program, log, e, log'[e].status, worker.id);
    } else if log' != log {
      assert log' == log + [log'[|log|]];
      LeftAppend(program, log, log'[|log|], worker.id);
    }
  }

  lemma NextOfRest<K, T>(t: Tally<K, T>)
    ensures t.jobs != [] && t.jobs[0].UpdateJob? && t.jobs[0].keys == [] ==>
              Next(t) == Next(Return(t, Reply.Counted(t.found)))
    ensures t.jobs != [] && !(t.jobs[0].UpdateJob? && t.jobs[0].keys == []) ==> Next(t) == t
  {
  }

  lemma OwnAccounted<K(!new), T(!new)>(
      w: World<K, T>, mem: Memory<K>, log: seq<LogEntry<K, T>>, proc: Protocol.Proc, worker: Worker<K, T>,
      e: Effect<K, T>, proc': Protocol.Proc, program: seq<Job<K, T>>)
    requires Frame(w, mem) && Values(w, mem, log) && Place(w, mem, log, proc, worker)
    requires Steps(w, mem, log, proc, worker, e, proc') && Accounted(program, log, proc.pc, worker)
    ensures Accounted(program, e.log, proc'.pc, e.worker)
    ensures Writes(log, e.log, worker.id) && e.worker.id == worker.id
  {
    hide TableSem, RecordSem, Frame, Values, NextEffect, Protocol.After, Accounted, Writes;
    if worker.jobs[0].InsertJob? {
      InsertAccounted(w, mem, log, proc, worker, e, proc', program);
    } else if proc.pc.Work? && proc.pc.left > 0 {
      UpdateAccounted(w, mem, log, proc, worker, e, proc', program);
    } else {
      LookupAccounted(w, mem, log, proc, worker, e, proc', program);
    }
  }

  lemma InsertAccounted<K(!new), T(!new)>(
      w: World<K, T>, mem: Memory<K>, log: seq<LogEntry<K, T>>, proc: Protocol.Proc, worker: Worker<K, T>,
      e: Effect<K, T>, proc': Protocol.Proc, program: seq<Job<K, T>>)
    requires Place(w, mem, log, proc, worker)
    requires Steps(w, mem, log, proc, worker, e, proc') && Accounted(program, log, proc.pc, worker)
    requires worker.jobs[0].InsertJob?
    ensures Accounted(program, e.log, proc'.pc, e.worker)
    ensures Writes(log, e.log, worker.id) && e.worker.id == worker.id
  {
    hide TableSem, RecordSem, TableLockWorks, RecordLockable, Fits, IxGet, Settle, WriteCell, Fold, Left, Next,
         Misfit, NoRoom;
    NextOfRest(TallyOf(worker));
    if e.log != log {
      LeftAppend(program, log, e.log[|log|], worker.id);
    }
  }

  /** The steps of an update outside its record lock, and of taking and dropping it. */
  lemma LookupAccounted<K(!new), T(!new)>(
      w: World<K, T>, mem: Memory<K>, log: seq<LogEntry<K, T>>, proc: Protocol.Proc, worker: Worker<K, T>,
      e: Effect<K, T>, proc': Protocol.Proc, program: seq<Job<K, T>>)
    requires Frame(w, mem) && Place(w, mem, log, proc, worker)
    requires Steps(w, mem, log, proc, worker, e, proc') && Accounted(program, log, proc.pc, worker)
    requires worker.jobs[0].UpdateJob? && (proc.pc.Work? ==> proc.pc.left == 0)
    ensures Accounted(program, e.log, proc'.pc, e.worker)
    ensures Writes(log, e.log, worker.id) && e.worker.id == worker.id
  {
    hide TableSem, RecordSem, TableLockWorks, RecordLockable, Fits, Frame, IxGet, Settle, WriteCell, Fold, Left, Next,
         Misfit, NoRoom;
    NextOfRest(TallyOf(worker));
    if proc.pc.WantRecord? {
      LedToLockable(w, mem, log, proc, worker);
    }
    if e.log != log {
      LeftAppend(program, log, e.log[|log|], worker.id);
    }
  }

  lemma UpdateAccounted<K(!new), T(!new)>(
      w: World<K, T>, mem: Memory<K>, log: seq<LogEntry<K, T>>, proc: Protocol.Proc, worker: Worker<K, T>,
      e: Effect<K, T>, proc': Protocol.Proc, program: seq<Job<K, T>>)
    requires Values(w, mem, log) && Place(w, mem, log, proc, worker)
    requires Steps(w, mem, log, proc, worker, e, proc') && Accounted(program, log, proc.pc, worker)
    requires proc.pc.Work? && proc.pc.left > 0 && worker.jobs[0].UpdateJob?
    ensures Accounted(program, e.log, proc'.pc, e.worker)
    ensures Writes(log, e.log, worker.id) && e.worker.id == worker.id
  {
    hide TableSem, RecordSem, Fits, IxGet, Settle, WriteCell, Fold, Left, Next, Misfit;
    var slot, entry := worker.local.slot, worker.local.entry;
    NextOfRest(TallyOf(worker));
    if proc.pc.left == 2 {
      assert Faithful(w, mem.cells, log, slot);
    } else {
      var changed := worker.jobs[0].f(worker.local.record);
      var status := if Fits(w, changed) then Applied(worker.local.record) else Rejected(Misfit(w, changed));
      assert e.log == Settle(log, entry, status);
      LeftSettleOwn(program, log, entry, status, worker.id);
      SettleWrites(log, entry, status, worker.id);
    }
  }

  lemma StepKeepsCalls<K(!new), T(!new)>(
      w: World<K, T>, programs: seq<seq<Job<K, T>>>, s: Config<K, T>, p: nat, s': Config<K, T>)
    requires Inv(w, s) && Stepped(w, s, p, s') && CallsInv(programs, s)
    ensures |s'.workers| == |s'.lock.procs| && CallsInv(programs, s')
  {
    hide TableSem, RecordSem, Frame, ListOk, Values, Protocol.Inv, NextEffect, Protocol.After, Accounted, Place;
    var proc, worker := s.lock.procs[p], s.workers[p];
    var e := NextEffect(w, proc.pc, worker, s.mem, s.log);
    assert Place(w, s.mem, s.log, proc, worker);
    OwnAccounted(w, s.mem, s.log, proc, worker, e, s'.lock.procs[p], programs[p]);
    forall q | 0 <= q < |s'.workers|
      ensures s'.workers[q].id == q && Accounted(programs[q], s'.log, s'.lock.procs[q].pc, s'.workers[q])
    {
      if q != p {
        OtherAccounted(programs[q], s.log, s'.log, p, s.lock.procs[q].pc, s.workers[q]);
      }
    }
  }

  // ---------- Whole runs ----------

  lemma StartCalls<K(!new), T(!new)>(w: World<K, T>, mem: Memory<K>, programs: seq<seq<Job<K, T>>>)
    ensures CallsInv(programs, Start(w, mem, programs))
  {
    hide Next, Stripes;
  }

  lemma {:induction false} RunKeepsCalls<K(!new), T(!new)>(
      w: World<K, T>, programs: seq<seq<Job<K, T>>>, trace: seq<Config<K, T>>, who: seq<nat>)
    requires Sound(w.env.codec) && Interleaving(w, trace, who)
    requires Inv(w, trace[0]) && CallsInv(programs, trace[0])
    ensures Inv(w, trace[|who|]) && CallsInv(programs, trace[|who|])
  {
    hide Inv, CallsInv, WorkStep;
    RunKeepsInv(w, trace, who);
    if who != [] {
      var n := |who| - 1;
      assert forall i | 0 <= i < n :: Stepped(w, trace[i], who[i], trace[i + 1]);
      RunKeepsCalls(w, programs, trace[..n + 1], who[..n]);
      assert trace[..n + 1][n] == trace[n] && Stepped(w, trace[n], who[n], trace[n + 1]);
      StepKeepsCalls(w, programs, trace[n], who[n], trace[n + 1]);
    }
  }

  /** Entries stay where they are; only the status of an update is filled in later. */
  ghost predicate Extends<K, T>(log: seq<LogEntry<K, T>>, log': seq<LogEntry<K, T>>) {
    && |log| <= |log'|
    && forall e | 0 <= e < |log| :: SameCall(log[e], log'[e])
  }

  ghost predicate SameCall<K, T>(x: LogEntry<K, T>, x': LogEntry<K, T>) {
    x' == x || (x.Changed? && x'.Changed? && x' == x.(status := x'.status))
  }

  lemma WritesExtend<K, T>(log: seq<LogEntry<K, T>>, log': seq<LogEntry<K, T>>, p: nat)
    requires Writes(log, log', p)
    ensures Extends(log, log')
  {
    if |log'| == |log| + 1 {
      assert forall e | 0 <= e < |log| :: log'[e] == log'[..|log|][e] == log[e];
    }
  }

  /**
   The order of the history respects that of the run: what the history has at some moment is the
   beginning of what it has later. With the calls that are over in it and those to come not, a call
   that ends before another begins also comes before it.
   */
  lemma {:induction false} HistoryExtends<K(!new), T(!new)>(
      w: World<K, T>, programs: seq<seq<Job<K, T>>>, trace: seq<Config<K, T>>, who: seq<nat>, n: nat)
    requires Sound(w.env.codec) && Interleaving(w, trace, who) && n <= |who|
    requires Inv(w, trace[0]) && CallsInv(programs, trace[0])
    ensures Extends(trace[n].log, trace[|who|].log)
  {
    hide Inv, CallsInv, WorkStep, Writes;
    if n < |who| {
      var m := |who| - 1;
      assert forall i | 0 <= i < m :: Stepped(w, trace[i], who[i], trace[i + 1]);
      HistoryExtends(w, programs, trace[..m + 1], who[..m], n);
      RunKeepsCalls(w, programs, trace[..m + 1], who[..m]);
      assert trace[..m + 1][m] == trace[m] && Stepped(w, trace[m], who[m], trace[m + 1]);
      StepWrites(w, programs, trace[m], who[m], trace[m + 1]);
      WritesExtend(trace[m].log, trace[m + 1].log, who[m]);
    }
  }

  lemma StepWrites<K(!new), T(!new)>(
      w: World<K, T>, programs: seq<seq<Job<K, T>>>, s: Config<K, T>, p: nat, s': Config<K, T>)
    requires Inv(w, s) && Stepped(w, s, p, s') && CallsInv(programs, s)
    ensures Writes(s.log, s'.log, p)
  {
    hide TableSem, RecordSem, Frame, ListOk, Values, Protocol.Inv, NextEffect, Protocol.After, Accounted, Place, Writes;
    var proc, worker := s.lock.procs[p], s.workers[p];
    assert Place(w, s.mem, s.log, proc, worker);
    var e := NextEffect(w, proc.pc, worker, s.mem, s.log);
    OwnAccounted(w, s.mem, s.log, proc, worker, e, s'.lock.procs[p], programs[p]);
  }

  lemma Sizes<K(!new), T(!new)>(w: World<K, T>, s: Config<K, T>)
    requires Inv(w, s)
    ensures |s.workers| == |s.lock.procs|
  {
  }

  /**
   No update is lost: at every moment of every run the history has, for each process and in program
   order, exactly the calls it has got to, and each record in the index reads as its initial or
   inserted value with every completed closure applied once, in the order in which the record's lock
   was acquired.
   */
  lemma NoLostUpdates<K(!new), T(!new)>(
      w: World<K, T>, mem: Memory<K>, arena: Arena, programs: seq<seq<Job<K, T>>>,
      trace: seq<Config<K, T>>, who: seq<nat>)
    requires Sound(w.env.codec) && Holding(w, mem, arena)
    requires Interleaving(w, trace, who) && trace[0] == Start(w, mem, programs)
    ensures var s := trace[|who|];
            && |s.workers| == |s.lock.procs| == |programs|
            && (forall p | 0 <= p < |programs| ::
                  Left(programs[p], s.log, p) == Some(Next(TallyOf(Logged(s.lock.procs[p].pc, s.workers[p])))))
            && (forall e | 0 <= e < |s.log| :: s.log[e].p < |programs|)
            && (forall i | i in s.mem.ix.entries ::
                  && i < |s.mem.cells| && s.mem.cells[i].state.Occupied? && Fold(w.initial, s.log, i).Some?
                  && w.env.codec.deserialize(s.mem.cells[i].Read()) == Fold(w.initial, s.log, i))
  {
    hide Inv, Holding, WorkStep, Fold, Start, Left, Next;
    StartInv(w, mem, arena, programs);
    StartCalls(w, mem, programs);
    RunKeepsCalls(w, programs, trace, who);
    var s := trace[|who|];
    Sizes(w, s);
    forall p | 0 <= p < |programs|
      ensures Left(programs[p], s.log, p) == Some(Next(TallyOf(Logged(s.lock.procs[p].pc, s.workers[p]))))
    {
      assert Accounted(programs[p], s.log, s.lock.procs[p].pc, s.workers[p]);
    }
    forall i | i in s.mem.ix.entries
      ensures i < |s.mem.cells| && s.mem.cells[i].state.Occupied? && Fold(w.initial, s.log, i).Some?
      ensures w.env.codec.deserialize(s.mem.cells[i].Read()) == Fold(w.initial, s.log, i)
    {
      RecordsFaithful(w, s, i);
    }
  }
}
