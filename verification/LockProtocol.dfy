/**
 Where table calls take and drop their locks (src/table.rs, src/internal/index.rs), as a transition
 system of any number of processes on the modelled kernel. Data is abstracted into an oracle: what
 is proved here holds whatever the calls find in memory.
 */
module LockProtocol {
  import opened Results
  import opened Semaphores

  /** A call on the table. `Update` stands for `update_with_lock` (one key) and `update_many` (any number). */
  datatype Call = Insert | Remove | Update(keys: nat) | Find

  /** Where a process is. `sem` is the semaphore of the table's set whose guard it holds. */
  datatype Pc =
    | Idle                              // between calls, or between the keys of an update
    | WantLookup                        // about to lock the index to look the key up
    | InLookup                          // holds the index lock
    | EndLookup(found: Option<nat>)     // holds the index lock, about to drop it
    | ReadRecord                        // reads the found record without a lock
    | WantTable                         // about to lock the table
    | WantRecord(position: nat)         // about to lock the record
    | Work(sem: nat, left: nat)         // under the table or record lock, `left` steps on the slots to go
    | WantIndex(sem: nat)               // about to lock the index as well
    | InIndex(sem: nat)                 // holds both locks
    | EndIndex(sem: nat)                // holds both, about to drop the index lock
    | Release(sem: nat, ok: bool)       // about to drop the table or record lock
    | Dead                              // exited

  /** A process with its calls still to be done; the first one is under way unless it is `Idle`. */
  datatype Proc = Proc(pc: Pc, calls: seq<Call>)

  predicate Finished(proc: Proc) {
    proc.pc.Dead? || (proc.pc.Idle? && proc.calls == [])
  }

  /** What the step finds in memory: a lookup's result, or whether a step on the slots succeeds. */
  datatype Oracle = Finds(found: Option<nat>) | Succeeds | Fails

  /** A lookup finds any position at all, or none; storing and changing records may fail, freeing a slot cannot. */
  predicate Possible(proc: Proc, o: Oracle) {
    match proc.pc
    case InLookup => o.Finds?
    case Work(_, left) => o.Succeeds? || (o.Fails? && left > 0 && proc.calls != [] && !proc.calls[0].Remove?)
    case _ => o.Succeeds?
  }

  datatype Action = Local | TakeIndex | DropIndex | Take(sem: nat) | Give(sem: nat)

  /** What the next step of a process does to the semaphores. */
  function NextAction(records: nat, proc: Proc): Action {
    match proc.pc
    case WantLookup => TakeIndex
    case EndLookup(_) => DropIndex
    case WantTable => if TableLockWorks(records) then Take(TableSem(records)) else Local
    case WantRecord(position) =>
      if RecordLockable(records, position) then Take(RecordSem(records, position)) else Local
    case WantIndex(_) => TakeIndex
    case EndIndex(_) => DropIndex
    case Release(sem, _) => Give(sem)
    case _ => Local
  }

  function NextCall(proc: Proc): Proc {
    Proc(Idle, if proc.calls == [] then [] else proc.calls[1..])
  }

  /** After one key of an update, the next one. */
  function NextKey(proc: Proc, keys: nat): Proc
    requires proc.calls != []
  {
    Proc(Idle, [Update(keys)] + proc.calls[1..])
  }

  /** Steps on the slots under the lock: pop, count and write a slot; free a slot; read and write a record. */
  function WorkOf(call: Call): nat {
    match call
    case Insert => 4
    case Remove => 1
    case _ => 2
  }

  function AfterLookup(proc: Proc, found: Option<nat>): Proc
    requires proc.calls != []
  {
    match (proc.calls[0], found)
    case (Insert, Some(_)) => NextCall(proc)  // RecordDuplicated
    case (Insert, None) => proc.(pc := WantTable)
    case (Find, Some(_)) => proc.(pc := ReadRecord)
    case (Remove, Some(position)) => proc.(pc := WantRecord(position))
    case (Update(_), Some(position)) => proc.(pc := WantRecord(position))
    case (Update(keys), None) => if keys == 0 then NextCall(proc) else NextKey(proc, keys - 1)
    case (_, None) => NextCall(proc)
  }

  /** The process after its next step. */
  function After(records: nat, proc: Proc, o: Oracle): Proc
    requires !Finished(proc) && proc.calls != []
  {
    var call := proc.calls[0];
    match proc.pc
    case Idle => if call == Update(0) then NextCall(proc) else proc.(pc := WantLookup)
    case WantLookup => proc.(pc := InLookup)
    case InLookup => proc.(pc := EndLookup(if o.Finds? then o.found else None))
    case EndLookup(found) => AfterLookup(proc, found)
    case ReadRecord => NextCall(proc)
    case WantTable =>
      if TableLockWorks(records) then proc.(pc := Work(TableSem(records), WorkOf(call)))
      else NextCall(proc)
    case WantRecord(position) =>
      if RecordLockable(records, position) then proc.(pc := Work(RecordSem(records, position), WorkOf(call)))
      else NextCall(proc)
    case Work(sem, left) =>
      if left == 0 then proc.(pc := if call.Update? then Release(sem, true) else WantIndex(sem))
      else if o.Fails? then proc.(pc := Release(sem, false))
      else proc.(pc := Work(sem, left - 1))
    case WantIndex(sem) => proc.(pc := InIndex(sem))
    case InIndex(sem) => proc.(pc := EndIndex(sem))
    case EndIndex(sem) => proc.(pc := Release(sem, true))
    case Release(_, ok) =>
      if call.Update? && call.keys > 0 && ok then NextKey(proc, call.keys - 1) else NextCall(proc)
    case Dead => proc
  }

  /** The table's semaphore set, the index's single semaphore, and the processes. */
  datatype State = State(table: Guards, index: Guards, procs: seq<Proc>)

  ghost predicate Acts(s: State, p: nat, a: Action, s': State)
    requires SameShape(s.table) && SameShape(s.index)
  {
    match a
    case Local => s'.table == s.table && s'.index == s.index
    case TakeIndex => s'.table == s.table && Step(s.index, Acquire(p, 0), s'.index)
    case DropIndex => s'.table == s.table && Step(s.index, Drop(p, 0), s'.index)
    case Take(sem) => s'.index == s.index && Step(s.table, Acquire(p, sem), s'.table)
    case Give(sem) => s'.index == s.index && Step(s.table, Drop(p, sem), s'.table)
  }

  /** Process `p` takes its next step. */
  ghost predicate ProcStep(records: nat, s: State, p: nat, o: Oracle, s': State)
    requires SameShape(s.table) && SameShape(s.index)
  {
    && p < |s.procs| && !Finished(s.procs[p]) && s.procs[p].calls != []
    && Possible(s.procs[p], o)
    && s'.procs == s.procs[p := After(records, s.procs[p], o)]
    && Acts(s, p, NextAction(records, s.procs[p]), s')
  }

  /** Process `p` exits, wherever it is; the kernel applies its undo adjustments to both sets. */
  ghost predicate ExitStep(s: State, p: nat, s': State)
    requires SameShape(s.table) && SameShape(s.index)
  {
    && p < |s.procs| && !s.procs[p].pc.Dead?
    && s'.procs == s.procs[p := s.procs[p].(pc := Dead)]
    && Step(s.table, Exit(p), s'.table) && Step(s.index, Exit(p), s'.index)
  }

  function Init(records: nat, programs: seq<seq<Call>>): State {
    State(Created(Stripes(records), |programs|), Created(1, |programs|),
          seq(|programs|, p requires 0 <= p < |programs| => Proc(Idle, programs[p])))
  }

  // ---------- Which locks a call takes ----------

  /** The actions of a process on the semaphores, step by step on these findings, and where it comes to. */
  function Alone(records: nat, proc: Proc, os: seq<Oracle>): (seq<Action>, Proc)
    decreases |os|
  {
    if os == [] || Finished(proc) || proc.calls == [] then ([], proc)
    else
      var action := NextAction(records, proc);
      var (rest, last) := Alone(records, After(records, proc, os[0]), os[1..]);
      ((if action.Local? then [] else [action]) + rest, last)
  }

  /** On these findings the process gets to the next point between calls, or between the keys of an update. */
  predicate Completes(records: nat, proc: Proc, os: seq<Oracle>)
    decreases |os|
  {
    && os != [] && !Finished(proc) && proc.calls != [] && Possible(proc, os[0])
    && var next := After(records, proc, os[0]);
       if next.pc.Idle? then |os| == 1 else Completes(records, next, os[1..])
  }

  /** The semaphores of a set, and the one of a position. */
  function SetSize(records: nat): nat {
    if records < 1024 then records + 1 else (records + 1023) / 1024 + 1
  }

  function StripeOf(records: nat, position: nat): nat {
    if records < 1024 then position else position / 1024
  }

  /** The locks of a call that found `found` when it looked its key up, and failed to store a record or not. */
  function CallLocks(records: nat, call: Call, found: Option<nat>, failed: bool): seq<Action> {
    var lookup, table := [TakeIndex, DropIndex], records % 65536;
    match (call, found)
    case (Insert, None) =>
      if table >= SetSize(records) then lookup
      else if failed then [TakeIndex, DropIndex, Take(table), Give(table)]
      else [TakeIndex, DropIndex, Take(table), TakeIndex, DropIndex, Give(table)]
    case (Remove, Some(position)) =>
      var stripe := StripeOf(records, position);
      if stripe > SetSize(records) || stripe % 65536 >= SetSize(records) then lookup
      else [TakeIndex, DropIndex, Take(stripe % 65536), TakeIndex, DropIndex, Give(stripe % 65536)]
    case (Update(_), Some(position)) =>
      var stripe := StripeOf(records, position);
      if stripe > SetSize(records) || stripe % 65536 >= SetSize(records) then lookup
      else [TakeIndex, DropIndex, Take(stripe % 65536), Give(stripe % 65536)]
    case _ => lookup
  }

  /** Whether the call goes on with the next key: it is an update that met no error. */
  predicate GoesOn(records: nat, call: Call, found: Option<nat>, failed: bool) {
    && call.Update? && !failed
    && (found.Some? ==>
          var stripe := StripeOf(records, found.value);
          stripe <= SetSize(records) && stripe % 65536 < SetSize(records))
  }

  predicate EndsWithLookup(call: Call, found: Option<nat>) {
    call.Find? || (call.Insert? && found.Some?) || (!call.Insert? && found.None?)
  }

  lemma StripesOfSet(records: nat, position: nat)
    ensures Stripes(records) == SetSize(records) && TableSem(records) == records % 65536
    ensures position / StripeSize(records) == StripeOf(records, position)
    ensures RecordSem(records, position) == StripeOf(records, position) % 65536
  {
    StripesAre(records);
    RecordSemIs(records, position);
  }

  /** One step of a process on its own. */
  lemma AloneStep(records: nat, proc: Proc, os: seq<Oracle>)
    requires Completes(records, proc, os)
    ensures os != [] && !Finished(proc) && proc.calls != []
    ensures Fails in os <==> os[0].Fails? || Fails in os[1..]
    ensures var action, next := NextAction(records, proc), After(records, proc, os[0]);
            && Possible(proc, os[0])
            && (if next.pc.Idle? then |os| == 1 else Completes(records, next, os[1..]))
            && var (rest, last) := if next.pc.Idle? then ([], next) else Alone(records, next, os[1..]);
               Alone(records, proc, os) == (if action.Local? then rest else [action] + rest, last)
  {
    hide NextAction, After, Possible;
    assert os == [os[0]] + os[1..];
    var next := After(records, proc, os[0]);
    if next.pc.Idle? {
      assert Alone(records, next, os[1..]) == ([], next);
    }
    var rest := Alone(records, next, os[1..]).0;
    assert [] + rest == rest;
  }

  lemma ReleaseLocks(records: nat, proc: Proc, os: seq<Oracle>)
    requires proc.pc.Release? && Completes(records, proc, os)
    requires proc.calls[0].Update? ==> proc.calls[0].keys > 0
    ensures Fails !in os
    ensures Alone(records, proc, os)
         == ([Give(proc.pc.sem)],
             if proc.calls[0].Update? && proc.pc.ok then NextKey(proc, proc.calls[0].keys - 1) else NextCall(proc))
  {
    hide RecordSem, TableSem, TableLockWorks, RecordLockable, Alone, Completes;
    AloneStep(records, proc, os);
    assert [Give(proc.pc.sem)] + [] == [Give(proc.pc.sem)];
  }

  lemma IndexLocks(records: nat, proc: Proc, os: seq<Oracle>)
    requires Completes(records, proc, os) && proc.pc.WantIndex? && !proc.calls[0].Update?
    ensures Alone(records, proc, os) == ([TakeIndex, DropIndex, Give(proc.pc.sem)], NextCall(proc))
    ensures Fails !in os
  {
    hide RecordSem, TableSem, TableLockWorks, RecordLockable, Alone, Completes;
    var sem := proc.pc.sem;
    var second, third, fourth := proc.(pc := InIndex(sem)), proc.(pc := EndIndex(sem)), proc.(pc := Release(sem, true));
    AloneStep(records, proc, os);
    AloneStep(records, second, os[1..]);
    AloneStep(records, third, os[1..][1..]);
    ReleaseLocks(records, fourth, os[1..][1..][1..]);
    assert [TakeIndex] + ([DropIndex] + [Give(sem)]) == [TakeIndex, DropIndex, Give(sem)];
  }

  lemma {:induction false} WorkLocks(records: nat, proc: Proc, os: seq<Oracle>)
    requires Completes(records, proc, os) && proc.pc.Work?
    requires proc.calls[0].Update? ==> proc.calls[0].keys > 0
    ensures var call, sem := proc.calls[0], proc.pc.sem;
            Alone(records, proc, os)
            == (if call.Update? || Fails in os then [Give(sem)] else [TakeIndex, DropIndex, Give(sem)],
                if call.Update? && Fails !in os then NextKey(proc, call.keys - 1) else NextCall(proc))
    ensures proc.calls[0].Remove? ==> Fails !in os
    decreases |os|
  {
    hide RecordSem, TableSem, TableLockWorks, RecordLockable, Alone, Completes;
    AloneStep(records, proc, os);
    var next := After(records, proc, os[0]);
    if next.pc.Release? {
      ReleaseLocks(records, next, os[1..]);
    } else if next.pc.WantIndex? {
      IndexLocks(records, next, os[1..]);
    } else {
      WorkLocks(records, next, os[1..]);
    }
  }

  /** The steps behind a lookup: taking a lock, or ending the call. */
  lemma LocksAfterLookup(records: nat, proc: Proc, found: Option<nat>, os: seq<Oracle>)
    requires Completes(records, proc, os) && proc.pc == EndLookup(found)
    requires proc.calls[0].Update? ==> proc.calls[0].keys > 0
    ensures var call, (actions, last) := proc.calls[0], Alone(records, proc, os);
            && [TakeIndex] + actions == CallLocks(records, call, found, Fails in os)
            && last.pc.Idle?
            && (EndsWithLookup(call, found) ==> Fails !in os)
            && last.calls == if GoesOn(records, call, found, Fails in os) then [Update(call.keys - 1)] + proc.calls[1..]
                             else proc.calls[1..]
  {
    hide Stripes, StripeSize, SemNum, Alone, Completes, WorkOf;
    StripesOfSet(records, if found.Some? then found.value else 0);
    AloneStep(records, proc, os);
    var next := After(records, proc, os[0]);
    if next.pc.WantTable? || next.pc.WantRecord? {
      AloneStep(records, next, os[1..]);
      var last := After(records, next, os[1..][0]);
      if last.pc.Work? {
        WorkLocks(records, last, os[1..][1..]);
      }
    } else if next.pc.ReadRecord? {
      AloneStep(records, next, os[1..]);
    }
  }

  /**
   The locks that each call takes and drops, in order, and what is left to do after it: a lookup under
   the index lock; for an insertion the table's semaphore, for a removal and each key of an update the
   record's; and under it, for insertion and removal, the index lock once more.
   */
  lemma CallTakesLocks(records: nat, proc: Proc, os: seq<Oracle>)
    requires proc.pc.Idle? && proc.calls != [] && proc.calls[0] != Update(0) && Completes(records, proc, os)
    ensures |os| > 2 && os[2].Finds?
    ensures var call, found, (actions, last) := proc.calls[0], os[2].found, Alone(records, proc, os);
            && actions == CallLocks(records, call, found, Fails in os)
            && last.pc.Idle?
            && (EndsWithLookup(call, found) ==> Fails !in os)
            && last.calls == if GoesOn(records, call, found, Fails in os) then [Update(call.keys - 1)] + proc.calls[1..]
                             else proc.calls[1..]
  {
    hide CallLocks, GoesOn, RecordSem, TableSem, TableLockWorks, RecordLockable, Alone, Completes;
    var second, third := proc.(pc := WantLookup), proc.(pc := InLookup);
    AloneStep(records, proc, os);
    AloneStep(records, second, os[1..]);
    AloneStep(records, third, os[1..][1..]);
    LocksAfterLookup(records, After(records, third, os[1..][1..][0]), os[2].found, os[1..][1..][1..]);
  }

  /** Removal of a record takes the record's semaphore, not the table's, and the index lock under it. */
  lemma RemovalLocksRecord(records: nat, calls: seq<Call>, position: nat, os: seq<Oracle>)
    requires position < records && calls != [] && calls[0].Remove?
    requires Completes(records, Proc(Idle, calls), os) && |os| > 2 && os[2] == Finds(Some(position))
    ensures var sem := (if records < 1024 then position else position / 1024) % 65536;
            Alone(records, Proc(Idle, calls), os)
            == ([TakeIndex, DropIndex, Take(sem), TakeIndex, DropIndex, Give(sem)], Proc(Idle, calls[1..]))
  {
    hide RecordSem, Stripes;
    CallTakesLocks(records, Proc(Idle, calls), os);
    var (_, last) := Alone(records, Proc(Idle, calls), os);
    assert last == Proc(Idle, last.calls);
    RecordLockWorks(records, position);
    StripesOfSet(records, position);
  }

  /** Each key of an update takes the semaphore of its record, and nothing under it. */
  lemma UpdateLocksRecord(records: nat, calls: seq<Call>, position: nat, os: seq<Oracle>)
    requires position < records && calls != [] && calls[0].Update? && calls[0].keys > 0
    requires Completes(records, Proc(Idle, calls), os) && |os| > 2 && os[2] == Finds(Some(position))
    ensures var sem := (if records < 1024 then position else position / 1024) % 65536;
            Alone(records, Proc(Idle, calls), os)
            == ([TakeIndex, DropIndex, Take(sem), Give(sem)],
                Proc(Idle, if Fails in os then calls[1..] else [Update(calls[0].keys - 1)] + calls[1..]))
  {
    hide RecordSem, Stripes;
    CallTakesLocks(records, Proc(Idle, calls), os);
    var (_, last) := Alone(records, Proc(Idle, calls), os);
    assert last == Proc(Idle, last.calls);
    RecordLockWorks(records, position);
    StripesOfSet(records, position);
  }

  /** An insertion takes the table's semaphore, if it exists, and under it the index lock once the record is stored. */
  lemma InsertionLocksTable(records: nat, calls: seq<Call>, os: seq<Oracle>)
    requires calls != [] && calls[0].Insert?
    requires Completes(records, Proc(Idle, calls), os) && |os| > 2 && os[2] == Finds(None)
    ensures var sem := records % 65536;
            Alone(records, Proc(Idle, calls), os)
            == (if sem >= (if records < 1024 then records + 1 else (records + 1023) / 1024 + 1) then
                  [TakeIndex, DropIndex]
                else if Fails in os then [TakeIndex, DropIndex, Take(sem), Give(sem)]
                else [TakeIndex, DropIndex, Take(sem), TakeIndex, DropIndex, Give(sem)],
                Proc(Idle, calls[1..]))
  {
    CallTakesLocks(records, Proc(Idle, calls), os);
    var (_, last) := Alone(records, Proc(Idle, calls), os);
    assert last == Proc(Idle, last.calls);
  }

  /** A find, a duplicate, and an absent key take the index lock only. */
  lemma LookupLocksIndex(records: nat, calls: seq<Call>, found: Option<nat>, os: seq<Oracle>)
    requires calls != [] && calls[0] != Update(0)
    requires Completes(records, Proc(Idle, calls), os) && |os| > 2 && os[2] == Finds(found)
    requires EndsWithLookup(calls[0], found)
    ensures Alone(records, Proc(Idle, calls), os)
         == ([TakeIndex, DropIndex],
             Proc(Idle, if calls[0].Update? then [Update(calls[0].keys - 1)] + calls[1..] else calls[1..]))
  {
    CallTakesLocks(records, Proc(Idle, calls), os);
    var (_, last) := Alone(records, Proc(Idle, calls), os);
    assert last == Proc(Idle, last.calls);
  }

  // ---------- Invariant ----------

  /** The guard on the table's set that a process at `pc` holds. */
  function HeldSem(pc: Pc): Option<nat> {
    match pc
    case Work(sem, _) => Some(sem)
    case WantIndex(sem) => Some(sem)
    case InIndex(sem) => Some(sem)
    case EndIndex(sem) => Some(sem)
    case Release(sem, _) => Some(sem)
    case _ => None
  }

  predicate HoldsIndex(pc: Pc) {
    pc.InLookup? || pc.EndLookup? || pc.InIndex? || pc.EndIndex?
  }

  /** A process holds at most one semaphore of the table's set, and exactly the ones its place in the code says. */
  ghost predicate HoldsAsPlaced(s: State, p: nat)
    requires p < |s.procs| == |s.table.held| == |s.index.held|
  {
    var pc := s.procs[p].pc;
    && |s.index.held[p]| == 1 && s.index.held[p][0] == (if HoldsIndex(pc) then 1 else 0)
    && (forall sem | 0 <= sem < |s.table.held[p]| ::
          s.table.held[p][sem] == if HeldSem(pc) == Some(sem) then 1 else 0)
  }

  ghost predicate InCall(records: nat, proc: Proc) {
    && (proc.pc.Idle? || proc.pc.Dead? || proc.calls != [])
    && (HeldSem(proc.pc).Some? ==> HeldSem(proc.pc).value < Stripes(records))
    && (proc.pc.Work? ==> proc.pc.left <= 4)
  }

  ghost predicate Inv(records: nat, s: State) {
    && Conserved(s.table) && Conserved(s.index)
    && |s.table.kernel.values| == Stripes(records) && |s.index.kernel.values| == 1
    && |s.procs| == |s.table.held| == |s.index.held|
    && (forall p | 0 <= p < |s.procs| :: HoldsAsPlaced(s, p))
    && (forall p | 0 <= p < |s.procs| :: InCall(records, s.procs[p]))
  }

  lemma InitInv(records: nat, programs: seq<seq<Call>>)
    ensures Inv(records, Init(records, programs))
  {
    CreatedConserved(Stripes(records), |programs|);
    CreatedConserved(1, |programs|);
  }

  lemma StepKeepsInCall(records: nat, proc: Proc, o: Oracle)
    requires InCall(records, proc) && !Finished(proc) && proc.calls != [] && Possible(proc, o)
    ensures InCall(records, After(records, proc, o))
  {
    hide Stripes;
  }

  lemma StepKeepsInv(records: nat, s: State, p: nat, o: Oracle, s': State)
    requires Inv(records, s) && ProcStep(records, s, p, o, s')
    ensures Inv(records, s')
  {
    hide Conserved, Stripes, TableSem, RecordSem, TableLockWorks;
    StepKeepsInCall(records, s.procs[p], o);
    ActsConserve(s, p, NextAction(records, s.procs[p]), s');
    ActsPlace(records, s, p, o, s');
  }

  lemma ActsConserve(s: State, p: nat, a: Action, s': State)
    requires Conserved(s.table) && Conserved(s.index) && Acts(s, p, a, s')
    ensures Conserved(s'.table) && Conserved(s'.index)
    ensures |s'.table.kernel.values| == |s.table.kernel.values| && |s'.index.kernel.values| == |s.index.kernel.values|
  {
    match a
    case Local =>
    case TakeIndex => StepConserves(s.index, Acquire(p, 0), s'.index);
    case DropIndex => StepConserves(s.index, Drop(p, 0), s'.index);
    case Take(sem) => StepConserves(s.table, Acquire(p, sem), s'.table);
    case Give(sem) => StepConserves(s.table, Drop(p, sem), s'.table);
  }

  lemma ActsPlace(records: nat, s: State, p: nat, o: Oracle, s': State)
    requires Inv(records, s) && ProcStep(records, s, p, o, s')
    ensures |s'.procs| == |s'.table.held| == |s'.index.held|
    ensures forall q | 0 <= q < |s'.procs| :: HoldsAsPlaced(s', q)
  {
    hide Stripes, TableSem, RecordSem, TableLockWorks;
    assert HoldsAsPlaced(s, p);
    forall q | 0 <= q < |s'.procs| ensures HoldsAsPlaced(s', q) {
      assert HoldsAsPlaced(s, q);
      if q != p {
        assert s'.table.held[q] == s.table.held[q] && s'.index.held[q] == s.index.held[q];
        assert s'.procs[q] == s.procs[q];
      }
    }
  }

  lemma ExitKeepsInv(records: nat, s: State, p: nat, s': State)
    requires Inv(records, s) && ExitStep(s, p, s')
    ensures Inv(records, s')
  {
    hide Stripes;
    StepConserves(s.table, Exit(p), s'.table);
    StepConserves(s.index, Exit(p), s'.index);
    forall q | 0 <= q < |s'.procs| ensures HoldsAsPlaced(s', q) {
      assert HoldsAsPlaced(s, q);
    }
  }

  // ---------- Mutual exclusion ----------

  /** No two processes hold the same semaphore, and none holds the index lock beside another. */
  lemma MutualExclusion(records: nat, s: State, p: nat, q: nat)
    requires Inv(records, s) && p < |s.procs| && q < |s.procs| && p != q
    ensures HeldSem(s.procs[p].pc).Some? ==> HeldSem(s.procs[p].pc) != HeldSem(s.procs[q].pc)
    ensures !(HoldsIndex(s.procs[p].pc) && HoldsIndex(s.procs[q].pc))
  {
    hide Stripes;
    assert HoldsAsPlaced(s, p) && HoldsAsPlaced(s, q);
    LockIsExclusive(s.index, p, q, 0);
    if HeldSem(s.procs[p].pc).Some? {
      assert InCall(records, s.procs[p]);
      LockIsExclusive(s.table, p, q, HeldSem(s.procs[p].pc).value);
    }
  }

  // ---------- Freedom from deadlock ----------

  /** The semaphore that the next step needs is taken. */
  ghost predicate Blocked(records: nat, s: State, p: nat)
    requires p < |s.procs|
  {
    match NextAction(records, s.procs[p])
    case TakeIndex => |s.index.kernel.values| > 0 && s.index.kernel.values[0] == 0
    case Take(sem) => sem < |s.table.kernel.values| && s.table.kernel.values[sem] == 0
    case _ => false
  }

  /**
   Locks are taken in one order: a process that takes a semaphore of the table's set holds none at
   all, one that takes the index lock does not hold it yet, and whoever holds it goes on unblocked.
   */
  lemma LocksInOrder(records: nat, s: State, p: nat)
    requires Inv(records, s) && p < |s.procs| && !Finished(s.procs[p])
    ensures NextAction(records, s.procs[p]).Take? ==>
              s.index.held[p] == [0] && forall sem | 0 <= sem < Stripes(records) :: s.table.held[p][sem] == 0
    ensures NextAction(records, s.procs[p]).TakeIndex? ==> s.index.held[p] == [0]
    ensures forall a, b | 0 <= a < Stripes(records) && 0 <= b < Stripes(records) ::
              s.table.held[p][a] > 0 && s.table.held[p][b] > 0 ==> a == b
    ensures s.index.held[p][0] > 0 ==> !Blocked(records, s, p)
  {
    hide Stripes, TableSem, RecordSem, TableLockWorks;
    assert HoldsAsPlaced(s, p);
  }

  /** The process can step, whatever it finds in memory. */
  ghost predicate CanStep(records: nat, s: State, p: nat)
    requires SameShape(s.table) && SameShape(s.index)
  {
    && p < |s.procs| && !Finished(s.procs[p])
    && forall o | Possible(s.procs[p], o) :: exists s' :: ProcStep(records, s, p, o, s')
  }

  lemma {:induction false} SomeHolder(held: seq<seq<nat>>, sem: nat) returns (q: nat)
    requires HeldSum(held, sem) > 0
    ensures q < |held| && sem < |held[q]| && held[q][sem] > 0
  {
    if sem < |held[0]| && held[0][sem] > 0 {
      q := 0;
    } else {
      var r := SomeHolder(held[1..], sem);
      q := r + 1;
    }
  }

  /** Whoever holds the index lock is never blocked. */
  lemma IndexHolderRuns(records: nat, s: State) returns (q: nat)
    requires Inv(records, s) && s.index.kernel.values[0] == 0
    ensures q < |s.procs| && !Finished(s.procs[q]) && !Blocked(records, s, q)
  {
    hide Stripes;
    q := SomeHolder(s.index.held, 0);
    assert HoldsAsPlaced(s, q);
  }

  /** Some process is not blocked, as long as one is not finished. */
  lemma SomeoneRuns(records: nat, s: State, u: nat) returns (p: nat)
    requires Inv(records, s) && u < |s.procs| && !Finished(s.procs[u])
    ensures p < |s.procs| && !Finished(s.procs[p]) && !Blocked(records, s, p)
  {
    hide Stripes, TableSem, RecordSem;
    p := u;
    if Blocked(records, s, p) && NextAction(records, s.procs[p]).Take? {
      var sem := NextAction(records, s.procs[p]).sem;
      assert s.table.kernel.values[sem] + HeldSum(s.table.held, sem) == 1;
      p := SomeHolder(s.table.held, sem);
      assert HoldsAsPlaced(s, p);
    }
    if Blocked(records, s, p) {
      p := IndexHolderRuns(records, s);
    }
  }

  lemma UnblockedCanStep(records: nat, s: State, p: nat)
    requires Inv(records, s) && p < |s.procs| && !Finished(s.procs[p]) && !Blocked(records, s, p)
    ensures CanStep(records, s, p)
  {
    hide Stripes, TableSem, RecordSem, TableLockWorks;
    var proc := s.procs[p];
    assert HoldsAsPlaced(s, p) && InCall(records, proc);
    ActionSemaphoreExists(records, proc);
    var table, index := ApplyAction(s, p, NextAction(records, proc));
    forall o | Possible(proc, o) ensures exists s' :: ProcStep(records, s, p, o, s') {
      assert ProcStep(records, s, p, o, State(table, index, s.procs[p := After(records, proc, o)]));
    }
  }

  lemma ActionSemaphoreExists(records: nat, proc: Proc)
    requires InCall(records, proc) && !Finished(proc)
    ensures match NextAction(records, proc)
            case Take(sem) => sem < Stripes(records)
            case Give(sem) => sem < Stripes(records) && HeldSem(proc.pc) == Some(sem)
            case DropIndex => HoldsIndex(proc.pc)
            case _ => true
  {
    hide Stripes, TableSem, RecordSem;
  }

  lemma ApplyAction(s: State, p: nat, a: Action) returns (table: Guards, index: Guards)
    requires SameShape(s.table) && SameShape(s.index) && |s.index.kernel.values| == 1
    requires p < |s.table.held| && p < |s.index.held|
    requires match a
             case Local => true
             case TakeIndex => s.index.kernel.values[0] > 0
             case DropIndex => s.index.held[p][0] > 0
             case Take(sem) => sem < |s.table.kernel.values| && s.table.kernel.values[sem] > 0
             case Give(sem) => sem < |s.table.kernel.values| && s.table.held[p][sem] > 0
    ensures Acts(s, p, a, State(table, index, s.procs))
  {
    table, index := s.table, s.index;
    match a
    case Local =>
    case TakeIndex => index := Locked(s.index, p, 0);
    case DropIndex => index := Unlocked(s.index, p, 0);
    case Take(sem) => table := Locked(s.table, p, sem);
    case Give(sem) => table := Unlocked(s.table, p, sem);
  }

  function Locked(g: Guards, p: nat, sem: nat): (g': Guards)
    requires SameShape(g) && p < |g.held| && sem < |g.kernel.values| && g.kernel.values[sem] > 0
    ensures Step(g, Acquire(p, sem), g')
  {
    Guards(Semop(g.kernel, p, sem, -1, true).kernel, g.held[p := g.held[p][sem := g.held[p][sem] + 1]])
  }

  function Unlocked(g: Guards, p: nat, sem: nat): (g': Guards)
    requires SameShape(g) && p < |g.held| && sem < |g.kernel.values| && g.held[p][sem] > 0
    ensures Step(g, Drop(p, sem), g')
  {
    Guards(Semop(g.kernel, p, sem, 1, true).kernel, g.held[p := g.held[p][sem := g.held[p][sem] - 1]])
  }

  /**
   Freedom from deadlock: with inserts, removes, updates and finds interleaved in any way, and
   processes exiting anywhere, some process can step as long as one has not finished.
   */
  lemma NoDeadlock(records: nat, s: State)
    requires Inv(records, s) && exists u | 0 <= u < |s.procs| :: !Finished(s.procs[u])
    ensures exists p :: CanStep(records, s, p)
  {
    hide Inv, CanStep, Blocked;
    InvShape(records, s);
    var u :| 0 <= u < |s.procs| && !Finished(s.procs[u]);
    var p := SomeoneRuns(records, s, u);
    UnblockedCanStep(records, s, p);
  }

  lemma InvShape(records: nat, s: State)
    requires Inv(records, s)
    ensures SameShape(s.table) && SameShape(s.index)
  {
  }

  // ---------- Every run ends ----------

  function Rank(pc: Pc): nat {
    match pc
    case Idle => 19
    case WantLookup => 18
    case InLookup => 17
    case EndLookup(_) => 16
    case ReadRecord => 15
    case WantTable => 15
    case WantRecord(_) => 15
    case Work(_, left) => 8 + left
    case WantIndex(_) => 7
    case InIndex(_) => 6
    case EndIndex(_) => 5
    case Release(_, _) => 4
    case Dead => 0
  }

  function Units(calls: seq<Call>): nat {
    if calls == [] then 0 else (if calls[0].Update? then calls[0].keys + 1 else 1) + Units(calls[1..])
  }

  function Weight(proc: Proc): nat {
    Rank(proc.pc) + 20 * Units(proc.calls)
  }

  function TotalWeight(procs: seq<Proc>): nat {
    if procs == [] then 0 else Weight(procs[0]) + TotalWeight(procs[1..])
  }

  lemma {:induction false} TotalWeightUpdate(procs: seq<Proc>, p: nat, proc: Proc)
    requires p < |procs|
    ensures TotalWeight(procs[p := proc]) == TotalWeight(procs) - Weight(procs[p]) + Weight(proc)
  {
    if p == 0 {
      assert procs[0 := proc][1..] == procs[1..];
    } else {
      assert procs[p := proc][1..] == procs[1..][p - 1 := proc];
      TotalWeightUpdate(procs[1..], p - 1, proc);
    }
  }

  lemma StepLosesWeight(records: nat, proc: Proc, o: Oracle)
    requires InCall(records, proc) && !Finished(proc) && proc.calls != []
    ensures Weight(After(records, proc, o)) < Weight(proc)
  {
    hide Stripes, TableSem, RecordSem, TableLockWorks;
    var call, rest := proc.calls[0], proc.calls[1..];
    if call.Update? && call.keys > 0 {
      assert ([Update(call.keys - 1)] + rest)[1..] == rest;
    }
  }

  // ---------- Every finding is met by a call ----------

  /** The process is on its way to storing a record, which may fail. */
  predicate WillStore(records: nat, proc: Proc) {
    && proc.calls != [] && (proc.calls[0].Insert? || proc.calls[0].Update?)
    && match proc.pc
       case EndLookup(found) =>
         if proc.calls[0].Insert? then found.None? && TableLockWorks(records)
         else found.Some? && RecordLockable(records, found.value)
       case WantTable => TableLockWorks(records)
       case WantRecord(position) => RecordLockable(records, position)
       case Work(_, left) => left > 0
       case _ => false
  }

  /** From its lookup on, a call gets to its end, and where it stores a record, it does so with or without success. */
  lemma {:induction false} CallEnds(records: nat, proc: Proc, failed: bool) returns (os: seq<Oracle>)
    requires InCall(records, proc) && !Finished(proc) && proc.calls != []
    requires !proc.pc.Idle? && !proc.pc.WantLookup? && !proc.pc.InLookup?
    requires failed ==> WillStore(records, proc)
    ensures Completes(records, proc, os) && (Fails in os <==> failed)
    decreases Weight(proc)
  {
    hide TableSem, RecordSem, TableLockWorks, RecordLockable, Stripes, Weight;
    var o := if failed && proc.pc.Work? then Fails else Succeeds;
    StepKeepsInCall(records, proc, o);
    StepLosesWeight(records, proc, o);
    var next := After(records, proc, o);
    if next.pc.Idle? {
      os := [o];
    } else {
      var rest := CallEnds(records, next, failed && o.Succeeds?);
      os := [o] + rest;
    }
  }

  /** Whatever a call finds, there are steps on which it finds that and comes to its end. */
  lemma EveryFindingIsMet(records: nat, calls: seq<Call>, found: Option<nat>, failed: bool) returns (os: seq<Oracle>)
    requires calls != [] && calls[0] != Update(0)
    requires failed ==> WillStore(records, Proc(EndLookup(found), calls))
    ensures Completes(records, Proc(Idle, calls), os)
    ensures |os| > 2 && os[2] == Finds(found) && (Fails in os <==> failed)
  {
    hide TableLockWorks, RecordLockable, Stripes;
    var rest := CallEnds(records, Proc(EndLookup(found), calls), failed);
    os := [Succeeds, Succeeds, Finds(found)] + rest;
    assert os[1..] == [Succeeds, Finds(found)] + rest && os[1..][1..] == [Finds(found)] + rest;
    assert os[1..][1..][1..] == rest;
    assert Completes(records, Proc(InLookup, calls), os[1..][1..]);
    assert Completes(records, Proc(WantLookup, calls), os[1..]);
  }

  datatype Move = Moves(p: nat, o: Oracle) | Exits(p: nat)

  ghost predicate Made(records: nat, s: State, m: Move, s': State) {
    && SameShape(s.table) && SameShape(s.index)
    && match m
       case Moves(p, o) => ProcStep(records, s, p, o, s')
       case Exits(p) => ExitStep(s, p, s')
  }

  ghost predicate ProtocolRun(records: nat, trace: seq<State>, moves: seq<Move>) {
    && |trace| == |moves| + 1
    && forall i | 0 <= i < |moves| :: Made(records, trace[i], moves[i], trace[i + 1])
  }

  lemma MoveKeepsInv(records: nat, s: State, m: Move, s': State)
    requires Inv(records, s) && Made(records, s, m, s')
    ensures Inv(records, s') && TotalWeight(s'.procs) < TotalWeight(s.procs)
  {
    hide Conserved, Stripes, After;
    TotalWeightUpdate(s.procs, m.p, s'.procs[m.p]);
    match m
    case Moves(p, o) =>
      StepKeepsInv(records, s, p, o, s');
      StepLosesWeight(records, s.procs[p], o);
    case Exits(p) =>
      ExitKeepsInv(records, s, p, s');
  }

  /**
   Every run keeps the invariant and has at most as many steps as the programs weigh at its start:
   under any scheduling, no process can be kept going round for ever.
   */
  lemma {:induction false} RunsAreBounded(records: nat, trace: seq<State>, moves: seq<Move>)
    requires ProtocolRun(records, trace, moves) && Inv(records, trace[0])
    ensures |moves| + TotalWeight(trace[|moves|].procs) <= TotalWeight(trace[0].procs)
    ensures forall i | 0 <= i < |trace| :: Inv(records, trace[i])
  {
    hide Inv, Made;
    if moves != [] {
      var n := |moves| - 1;
      assert forall i | 0 <= i < n :: Made(records, trace[i], moves[i], trace[i + 1]);
      RunsAreBounded(records, trace[..n + 1], moves[..n]);
      assert trace[..n + 1][n] == trace[n] && trace[..n + 1][0] == trace[0];
      assert Made(records, trace[n], moves[n], trace[n + 1]);
      MoveKeepsInv(records, trace[n], moves[n], trace[n + 1]);
      forall i | 0 <= i < |trace| ensures Inv(records, trace[i]) {
        if i <= n {
          assert trace[i] == trace[..n + 1][i];
        }
      }
    }
  }

  /** A run that cannot go on has finished every process: nothing is left waiting, and no semaphore is left taken. */
  lemma MaximalRunsFinish(records: nat, programs: seq<seq<Call>>, trace: seq<State>, moves: seq<Move>)
    requires ProtocolRun(records, trace, moves) && trace[0] == Init(records, programs)
    requires var last := trace[|moves|];
             SameShape(last.table) && SameShape(last.index) && forall p :: !CanStep(records, last, p)
    ensures var last := trace[|moves|];
            && (forall p | 0 <= p < |last.procs| :: Finished(last.procs[p]))
            && (forall sem | 0 <= sem < |last.table.kernel.values| :: last.table.kernel.values[sem] == 1)
            && last.index.kernel.values == [1]
  {
    hide CanStep, Made, Stripes;
    InitInv(records, programs);
    RunsAreBounded(records, trace, moves);
    var last := trace[|moves|];
    if exists u | 0 <= u < |last.procs| :: !Finished(last.procs[u]) {
      NoDeadlock(records, last);
      assert false;
    }
    FinishedHoldNothing(records, last);
  }

  lemma FinishedHoldNothing(records: nat, s: State)
    requires Inv(records, s) && forall p | 0 <= p < |s.procs| :: Finished(s.procs[p])
    ensures forall sem | 0 <= sem < |s.table.kernel.values| :: s.table.kernel.values[sem] == 1
    ensures s.index.kernel.values == [1]
  {
    hide Stripes;
    forall p, sem | 0 <= p < |s.procs| && 0 <= sem < |s.table.kernel.values|
      ensures s.table.held[p][sem] == 0 && s.index.held[p][0] == 0
    {
      assert HoldsAsPlaced(s, p) && Finished(s.procs[p]);
    }
    forall sem | 0 <= sem < |s.table.kernel.values| ensures s.table.kernel.values[sem] == 1 {
      HeldSumZero(s.table.held, sem);
    }
    forall p | 0 <= p < |s.procs| ensures s.index.held[p][0] == 0 {
      assert HoldsAsPlaced(s, p) && Finished(s.procs[p]);
    }
    HeldSumZero(s.index.held, 0);
  }
}
