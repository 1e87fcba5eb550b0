/**
 System V semaphores as the table uses them (src/internal/semaphore.rs): which semaphore guards
 which record, the kernel's `semop` with SEM_UNDO, and the lock guards.
 */
module Semaphores {
  import opened Results

  // ---------- Which semaphore ----------

  const STRIPE_SIZE: nat := 1024

  function StripeSize(records: nat): (size: nat)
    ensures size > 0
  {
    if records < STRIPE_SIZE then 1 else STRIPE_SIZE
  }

  /** Semaphores in the set: one for each stripe of records, and one more. */
  function Stripes(records: nat): (stripes: nat)
    ensures stripes > 0
  {
    (records + StripeSize(records) - 1) / StripeSize(records) + 1
  }

  /** `sem_num` is sixteen bits wide. */
  function SemNum(position: nat): (num: nat)
    ensures num < 65536
  {
    position % 65536
  }

  function RecordSem(records: nat, position: nat): nat {
    SemNum(position / StripeSize(records))
  }

  function TableSem(records: nat): nat {
    SemNum(records)
  }

  /** The numbers themselves: one semaphore for each record below 1024, then one for each 1024, and one more. */
  lemma StripesAre(records: nat)
    ensures records < 1024 ==> StripeSize(records) == 1 && Stripes(records) == records + 1
    ensures records >= 1024 ==> StripeSize(records) == 1024 && Stripes(records) == (records + 1023) / 1024 + 1
  {
  }

  lemma RecordSemIs(records: nat, position: nat)
    ensures RecordSem(records, position) == (if records < 1024 then position else position / 1024) % 65536
    ensures position < records < 1024 ==> RecordSem(records, position) == position
  {
    StripesAre(records);
  }

  /** From 1024 records on, as long as semaphore numbers fit, records share a semaphore exactly within a stripe. */
  lemma RecordsShareStripes(records: nat, p: nat, q: nat)
    requires 1024 <= records <= 65536 * 1024 && p < records && q < records
    ensures RecordSem(records, p) == RecordSem(records, q) <==> p / 1024 == q / 1024
  {
    RecordSemIs(records, p);
    RecordSemIs(records, q);
  }

  /** The table lock names a semaphore that exists. */
  predicate TableLockWorks(records: nat) {
    TableSem(records) < Stripes(records)
  }

  /** The lock of a position passes the range check and names a semaphore that exists. */
  predicate RecordLockable(records: nat, position: nat) {
    position / StripeSize(records) <= Stripes(records) && RecordSem(records, position) < Stripes(records)
  }

  /** A record lock never fails: its semaphore exists for every capacity and every record. */
  lemma RecordLockWorks(records: nat, position: nat)
    requires position < records
    ensures position / StripeSize(records) < Stripes(records) - 1
    ensures RecordSem(records, position) < Stripes(records) - 1
    ensures RecordLockable(records, position)
  {
    var size := StripeSize(records);
    assert position / size <= (records - 1) / size;
    assert (records - 1 + size) / size == (records - 1) / size + 1;
  }

  /** Below the stripe size each record has a semaphore of its own and the table has one more. */
  lemma SmallTablesLockApart(records: nat, p: nat, q: nat)
    requires records < STRIPE_SIZE && p < records && q < records
    ensures RecordSem(records, p) == RecordSem(records, q) <==> p == q
    ensures TableLockWorks(records) && TableSem(records) != RecordSem(records, p)
  {
  }

  /**
   From the stripe size on, the table lock names semaphore `records`, cut to sixteen bits. It exists
   exactly when the cut number is at most the number of stripes; up to 65535 records it never does.
   */
  lemma LargeTableLock(records: nat)
    requires records >= STRIPE_SIZE
    ensures TableLockWorks(records) <==> records % 65536 <= (records + 1023) / 1024
    ensures records < 65536 ==> !TableLockWorks(records)
  {
    assert records + 1023 < 1024 * records;
  }

  /**
   The table has a semaphore that no record uses exactly when it has fewer than 1024 records or its
   capacity, cut to sixteen bits, is the number of stripes.
   */
  lemma TableSemaphoreIsItsOwn(records: nat)
    requires records > 0
    ensures (TableLockWorks(records) && forall p: nat | p < records :: RecordSem(records, p) != TableSem(records))
       <==> records < STRIPE_SIZE || records % 65536 == (records + 1023) / 1024
  {
    if records < STRIPE_SIZE {
      forall p: nat | p < records ensures RecordSem(records, p) != TableSem(records) {
        SmallTablesLockApart(records, p, p);
      }
    } else {
      LargeTableLock(records);
      var stripes := (records + 1023) / 1024;
      if records % 65536 < stripes {
        var p := 1024 * (records % 65536);
        assert p < records;
        assert RecordSem(records, p) == TableSem(records);
      } else if records % 65536 == stripes {
        forall p: nat | p < records ensures RecordSem(records, p) != TableSem(records) {
          RecordLockWorks(records, p);
        }
      }
    }
  }

  // ---------- The kernel ----------

  /** Semaphore values, and for each process the adjustment the kernel applies when it exits. */
  datatype Kernel = Kernel(values: seq<nat>, adjust: seq<seq<int>>) {
    ghost predicate Valid() {
      forall p | 0 <= p < |adjust| :: |adjust[p]| == |values|
    }
  }

  datatype SemopResult = Failed | Blocks | Completed(kernel: Kernel)

  /** One `semop` on one semaphore by process `p`. */
  function Semop(k: Kernel, p: nat, num: nat, op: int, undo: bool): SemopResult
    requires p < |k.adjust| && |k.adjust[p]| == |k.values|
  {
    if num >= |k.values| then Failed
    else if k.values[num] + op < 0 then Blocks
    else
      var values := k.values[num := k.values[num] + op];
      if undo then
        Completed(Kernel(values, k.adjust[p := k.adjust[p][num := k.adjust[p][num] - op]]))
      else
        Completed(Kernel(values, k.adjust))
  }

  function Max0(x: int): nat {
    if x < 0 then 0 else x
  }

  /** The kernel's share of process exit: every adjustment is added to its semaphore. */
  function ExitProcess(k: Kernel, p: nat): Kernel
    requires p < |k.adjust| && |k.adjust[p]| == |k.values|
  {
    Kernel(seq(|k.values|, s requires 0 <= s < |k.values| => Max0(k.values[s] + k.adjust[p][s])),
           k.adjust[p := seq(|k.values|, _ => 0)])
  }

  // ---------- Lock guards of many processes ----------

  /** A kernel and the live guards of each process: `held[p][s]` guards on semaphore `s`. */
  datatype Guards = Guards(kernel: Kernel, held: seq<seq<nat>>)

  datatype Event = Acquire(p: nat, num: nat) | Drop(p: nat, num: nat) | Exit(p: nat)

  ghost predicate SameShape(g: Guards) {
    && g.kernel.Valid()
    && |g.held| == |g.kernel.adjust|
    && forall p | 0 <= p < |g.held| :: |g.held[p]| == |g.kernel.values|
  }

  function HeldSum(held: seq<seq<nat>>, s: nat): nat {
    if held == [] then 0 else (if s < |held[0]| then held[0][s] else 0) + HeldSum(held[1..], s)
  }

  /** A guard adds one on `drop` what it took on `try_lock`; a dying process leaves its guards to the kernel. */
  ghost predicate Step(g: Guards, e: Event, g': Guards)
    requires SameShape(g)
  {
    match e
    case Acquire(p, num) =>
      && p < |g.held| && num < |g.kernel.values|
      && Semop(g.kernel, p, num, -1, true) == Completed(g'.kernel)
      && g'.held == g.held[p := g.held[p][num := g.held[p][num] + 1]]
    case Drop(p, num) =>
      && p < |g.held| && num < |g.kernel.values| && g.held[p][num] > 0
      && Semop(g.kernel, p, num, 1, true) == Completed(g'.kernel)
      && g'.held == g.held[p := g.held[p][num := g.held[p][num] - 1]]
    case Exit(p) =>
      && p < |g.held|
      && g'.kernel == ExitProcess(g.kernel, p)
      && g'.held == g.held[p := seq(|g.kernel.values|, _ => 0)]
  }

  /** A set after `create`, before any guard. */
  function Created(stripes: nat, processes: nat): Guards {
    Guards(Kernel(seq(stripes, _ => 1), seq(processes, _ => seq(stripes, _ => 0))),
           seq(processes, _ => seq(stripes, _ => 0)))
  }

  ghost predicate Run(trace: seq<Guards>, events: seq<Event>) {
    && |trace| == |events| + 1
    && (forall i | 0 <= i < |trace| :: SameShape(trace[i]))
    && forall i | 0 <= i < |events| :: Step(trace[i], events[i], trace[i + 1])
  }

  /** Each semaphore's value and its live guards add up to one, and the kernel owes each process its guards. */
  ghost predicate Conserved(g: Guards) {
    && SameShape(g)
    && (forall s | 0 <= s < |g.kernel.values| :: g.kernel.values[s] + HeldSum(g.held, s) == 1)
    && (forall p, s | 0 <= p < |g.held| && 0 <= s < |g.kernel.values| :: g.kernel.adjust[p][s] == g.held[p][s])
  }

  lemma {:induction false} HeldSumUpdate(held: seq<seq<nat>>, p: nat, row: seq<nat>, s: nat)
    requires p < |held| && s < |held[p]| == |row|
    ensures HeldSum(held[p := row], s) == HeldSum(held, s) - held[p][s] + row[s]
  {
    if p == 0 {
      assert held[0 := row][1..] == held[1..];
    } else {
      assert held[p := row][1..] == held[1..][p - 1 := row];
      HeldSumUpdate(held[1..], p - 1, row, s);
    }
  }

  lemma {:induction false} HeldSumZero(held: seq<seq<nat>>, s: nat)
    requires forall p | 0 <= p < |held| :: s < |held[p]| && held[p][s] == 0
    ensures HeldSum(held, s) == 0
  {
    if held != [] {
      HeldSumZero(held[1..], s);
    }
  }

  lemma {:induction false} HeldSumAtLeast(held: seq<seq<nat>>, p: nat, s: nat)
    requires p < |held| && s < |held[p]|
    ensures HeldSum(held, s) >= held[p][s]
  {
    if p > 0 {
      HeldSumAtLeast(held[1..], p - 1, s);
    }
  }

  lemma CreatedConserved(stripes: nat, processes: nat)
    ensures Conserved(Created(stripes, processes))
  {
    var g := Created(stripes, processes);
    forall s | 0 <= s < stripes ensures HeldSum(g.held, s) == 0 {
      HeldSumZero(g.held, s);
    }
  }

  lemma StepConserves(g: Guards, e: Event, g': Guards)
    requires Conserved(g) && Step(g, e, g')
    ensures Conserved(g')
  {
    var p := e.p;
    forall s | 0 <= s < |g.kernel.values| ensures g'.kernel.values[s] + HeldSum(g'.held, s) == 1 {
      HeldSumUpdate(g.held, p, g'.held[p], s);
      if e.Exit? {
        assert g.kernel.adjust[p][s] == g.held[p][s];
      }
    }
  }

  /** Over every run of acquiring, dropping and process exit, by any number of processes. */
  lemma {:induction false} RunConserves(trace: seq<Guards>, events: seq<Event>)
    requires Run(trace, events) && Conserved(trace[0])
    ensures forall i | 0 <= i < |trace| :: Conserved(trace[i])
  {
    if events != [] {
      var n := |events| - 1;
      var before := trace[..n + 1];
      assert forall i | 0 <= i < n :: Step(trace[i], events[i], trace[i + 1]);
      RunConserves(before, events[..n]);
      assert before[n] == trace[n] && Conserved(trace[n]);
      assert Step(trace[n], events[n], trace[n + 1]);
      StepConserves(trace[n], events[n], trace[n + 1]);
    }
  }

  /**
   Mutual exclusion and freedom of the lock, in every conserved state: at most one guard is alive
   for a semaphore, and taking the lock completes exactly when none is.
   */
  lemma LockIsExclusive(g: Guards, p: nat, q: nat, s: nat)
    requires Conserved(g) && p < |g.held| && q < |g.held| && s < |g.kernel.values|
    ensures g.held[p][s] <= 1
    ensures p != q ==> g.held[p][s] + g.held[q][s] <= 1
    ensures Semop(g.kernel, p, s, -1, true).Completed? <==> HeldSum(g.held, s) == 0
  {
    HeldSumAtLeast(g.held, p, s);
    if p != q {
      var row := g.held[p][s := 0];
      HeldSumUpdate(g.held, p, row, s);
      HeldSumAtLeast(g.held[p := row], q, s);
    }
  }

  /** SEM_UNDO: whatever a process held, its exit leaves those semaphores free. */
  lemma ExitFreesSemaphores(g: Guards, p: nat, g': Guards, s: nat)
    requires Conserved(g) && Step(g, Exit(p), g') && s < |g.kernel.values|
    requires g.held[p][s] > 0
    ensures g'.kernel.values[s] == 1 && HeldSum(g'.held, s) == 0
  {
    StepConserves(g, Exit(p), g');
    HeldSumAtLeast(g.held, p, s);
    HeldSumUpdate(g.held, p, g'.held[p], s);
  }

  /** A lock and the drop of its guard cancel out, undo included. */
  lemma DropUndoesLock(before: Kernel, num: nat, held: Kernel, after: Kernel)
    requires |before.adjust| == 1 && |before.adjust[0]| == |before.values|
    requires Semop(before, 0, num, -1, true) == Completed(held)
    requires |held.adjust| == 1 && |held.adjust[0]| == |held.values|
    requires Semop(held, 0, num, 1, true) == Completed(after)
    ensures after == before
  {
    assert after.values == before.values;
    assert after.adjust[0] == before.adjust[0];
    assert after.adjust == before.adjust;
  }

  // ---------- The set as one process uses it ----------

  datatype Locker = Locker(position: nat)

  class SemaphoreSet {
    const values: array<nat>
    const adjust: array<int>  // the kernel's adjustments for this process
    const stripeSize: nat
    const stripes: nat
    const numRecords: nat

    ghost function View(): Kernel
      reads values, adjust
    {
      Kernel(values[..], [adjust[..]])
    }

    ghost predicate Valid()
    {
      && values.Length == adjust.Length == stripes == Stripes(numRecords)
      && stripeSize == StripeSize(numRecords)
    }

    /** No guard is alive: every semaphore is free and the kernel owes this process nothing. */
    ghost predicate AllFree()
      reads values, adjust
    {
      && Valid()
      && (forall s | 0 <= s < values.Length :: values[s] == 1)
      && (forall s | 0 <= s < adjust.Length :: adjust[s] == 0)
    }

    /** Exactly one guard is alive, on semaphore `num`. */
    ghost predicate Holding(num: nat)
      reads values, adjust
    {
      && Valid() && num < stripes
      && (forall s | 0 <= s < values.Length :: values[s] == if s == num then 0 else 1)
      && (forall s | 0 <= s < adjust.Length :: adjust[s] == if s == num then 1 else 0)
    }

    constructor (numRecords: nat)
      ensures AllFree() && this.numRecords == numRecords
      ensures values.Length == if numRecords < 1024 then numRecords + 1 else (numRecords + 1023) / 1024 + 1
      ensures adjust.Length == values.Length == stripes
      ensures stripeSize == if numRecords < 1024 then 1 else 1024
      ensures forall s | 0 <= s < stripes :: values[s] == 1 && adjust[s] == 0
      ensures View() == Created(stripes, 1).kernel
      ensures fresh(values) && fresh(adjust)
    {
      var size := if numRecords < STRIPE_SIZE then 1 else STRIPE_SIZE;
      var count := (numRecords + size - 1) / size + 1;
      stripeSize := size;
      stripes := count;
      this.numRecords := numRecords;
      values := new nat[count](_ => 0);
      adjust := new int[count](_ => 0);
      new;
      SemReset();
      assert values[..] == seq(stripes, _ => 1);
      assert adjust[..] == seq(stripes, _ => 0);
      assert [adjust[..]] == Created(stripes, 1).kernel.adjust;
    }

    /** Raises every semaphore from 0 to 1, without undo: the creator's exit must not take it back. */
    method SemReset()
      requires Valid() && forall s | 0 <= s < values.Length :: values[s] == 0
      modifies values
      ensures forall s | 0 <= s < values.Length :: values[s] == 1
    {
      for position := 0 to stripes
        invariant forall s | 0 <= s < values.Length :: values[s] == if s < position then 1 else 0
      {
        values[position] := values[position] + 1;
      }
    }

    /** Acquires semaphore `position`, cut to sixteen bits; the caller does not start it where it would block. */
    method TryLock(position: nat) returns (r: Result<Locker>)
      requires Valid()
      requires Semop(View(), 0, SemNum(position), -1, true) != Blocks
      modifies values, adjust
      ensures match Semop(old(View()), 0, SemNum(position), -1, true)
              case Completed(kernel) => View() == kernel && r == Ok(Locker(position))
              case _ => View() == old(View()) && r == Err(SemaphoreInvalidIndex(position, stripes))
      ensures r.Ok? <==> position % 65536 < stripes
      ensures forall s | 0 <= s < stripes ::
                var taken := if s == position % 65536 then 1 else 0;
                values[s] == old(values[s]) - taken && adjust[s] == old(adjust[s]) + taken
    {
      var num := SemNum(position);
      if num >= stripes {
        return Err(SemaphoreInvalidIndex(position, stripes));
      }
      values[num] := values[num] - 1;
      adjust[num] := adjust[num] + 1;
      r := Ok(Locker(position));
    }

    /** Dropping a guard releases its semaphore and withdraws its undo. */
    method Drop(locker: Locker)
      requires Valid() && SemNum(locker.position) < stripes
      modifies values, adjust
      ensures Semop(old(View()), 0, SemNum(locker.position), 1, true) == Completed(View())
      ensures forall s | 0 <= s < stripes ::
                var given := if s == locker.position % 65536 then 1 else 0;
                values[s] == old(values[s]) + given && adjust[s] == old(adjust[s]) - given
      ensures old(Holding(SemNum(locker.position))) ==> AllFree()
    {
      var num := SemNum(locker.position);
      values[num] := values[num] + 1;
      adjust[num] := adjust[num] - 1;
    }

    /** Locks the stripe of one position; for the position of a record it never fails. */
    method LockRecord(position: nat) returns (r: Result<Locker>)
      requires AllFree()
      modifies values, adjust
      ensures r == if RecordLockable(numRecords, position) then Ok(Locker(position / stripeSize))
                   else Err(SemaphoreInvalidIndex(position / stripeSize, stripes))
      ensures var semNum := if numRecords < 1024 then position else position / 1024;
              && (r == if semNum <= stripes && semNum % 65536 < stripes then Ok(Locker(semNum))
                       else Err(SemaphoreInvalidIndex(semNum, stripes)))
              && (r.Ok? ==> forall s | 0 <= s < stripes :: values[s] == if s == semNum % 65536 then 0 else 1)
      ensures if r.Ok? then Holding(RecordSem(numRecords, position)) else AllFree()
      ensures r.Ok? ==> SemNum(r.value.position) == RecordSem(numRecords, position)
      ensures position < numRecords ==> r.Ok?
    {
      StripesAre(numRecords);
      if position < numRecords {
        RecordLockWorks(numRecords, position);
      }
      var semNum := position / stripeSize;
      if semNum > stripes {
        return Err(SemaphoreInvalidIndex(semNum, stripes));
      }
      r := TryLock(semNum);
      assert View().values == values[..] && View().adjust[0] == adjust[..];
      assert old(View()).values == old(values[..]) && old(View()).adjust[0] == old(adjust[..]);
    }

    method LockTable() returns (r: Result<Locker>)
      requires AllFree()
      modifies values, adjust
      ensures r == if TableLockWorks(numRecords) then Ok(Locker(numRecords))
                   else Err(SemaphoreInvalidIndex(numRecords, stripes))
      ensures r == if numRecords % 65536 < stripes then Ok(Locker(numRecords))
                   else Err(SemaphoreInvalidIndex(numRecords, stripes))
      ensures r.Ok? ==> forall s | 0 <= s < stripes :: values[s] == if s == numRecords % 65536 then 0 else 1
      ensures if r.Ok? then Holding(TableSem(numRecords)) else AllFree()
    {
      r := TryLock(numRecords);
      assert View().values == values[..] && View().adjust[0] == adjust[..];
      assert old(View()).values == old(values[..]) && old(View()).adjust[0] == old(adjust[..]);
    }
  }
}
