/** What callers of the table can rely on, beyond single operations. */
module TableProperties {
  import opened Results
  import opened SlotModel
  import opened IndexModel
  import opened Semaphores
  import opened TableModel
  import opened TableRefinement

  // ---------- keys() and iter() ----------

  function KeysAt<K>(ix: Ix<K>, slots: seq<nat>): (s: seq<K>)
    requires forall i | i in slots :: i in ix.entries
    ensures |s| == |slots|
  {
    seq(|slots|, n requires 0 <= n < |slots| => ix.entries[slots[n]].key)
  }

  ghost function RecordsAt<K, T>(env: Env<K, T>, t: TableState<K>, slots: seq<nat>): (s: seq<T>)
    requires Decodable(env, t) && forall i | i in slots :: i in t.records.live
    ensures |s| == |slots|
  {
    seq(|slots|, n requires 0 <= n < |slots| => RecordAt(env, t, slots[n]))
  }

  /**
   `keys()` and `iter()` walk the slots of two different allocators. They meet the same slots in the
   same order: the nth record is the table's record under the nth key, and every key comes once.
   */
  lemma EnumerationsAgree<K(!new), T(!new)>(env: Env<K, T>, t: TableState<K>, nodes: Arena)
    requires TableValid(env, t)
    requires nodes.Valid() && nodes.capacity == t.ix.capacity && nodes.live.Keys == t.ix.entries.Keys
    ensures var slots := OccupiedFrom(t.records, 0);
            && OccupiedFrom(nodes, 0) == slots && |slots| == |Contents(env, t)|
            && (forall i | i in slots :: i in t.ix.entries && i in t.records.live)
            && (var keys, records, m := KeysAt(t.ix, slots), RecordsAt(env, t, slots), Contents(env, t);
                && (forall n | 0 <= n < |slots| :: keys[n] in m && records[n] == m[keys[n]])
                && Distinct(keys)
                && (forall key :: key in m <==> key in keys))
  {
    hide OccupiedFrom, Partition, IxValid, Distinct, TableValid, Ascending, RecordFor, RecordAt, KeySet;
    var slots := EnumeratedSlots(env, t, nodes);
    TableDecodes(env, t);
    CountIsSize(env, t);
    EnumeratedKeys(t.ix, slots);
    EnumeratedRecords(env, t, slots);
  }

  /** The record in each enumerated slot is the one under the slot's key. */
  lemma EnumeratedRecords<K(!new), T(!new)>(env: Env<K, T>, t: TableState<K>, slots: seq<nat>)
    requires TableValid(env, t)
    requires forall i | i in slots :: i in t.ix.entries && i in t.records.live
    ensures Decodable(env, t)
    ensures var keys, records, m := KeysAt(t.ix, slots), RecordsAt(env, t, slots), Contents(env, t);
            forall n | 0 <= n < |slots| :: keys[n] in m && records[n] == m[keys[n]]
  {
    hide Partition, IxValid, RecordFor;
    TableDecodes(env, t);
    forall n | 0 <= n < |slots|
      ensures KeysAt(t.ix, slots)[n] in Contents(env, t)
      ensures RecordsAt(env, t, slots)[n] == Contents(env, t)[KeysAt(t.ix, slots)[n]]
    {
      assert slots[n] in slots;
      EntryHoldsContents(env, t, slots[n]);
    }
  }

  lemma EnumeratedSlots<K(!new), T(!new)>(env: Env<K, T>, t: TableState<K>, nodes: Arena) returns (slots: seq<nat>)
    requires TableValid(env, t)
    requires nodes.Valid() && nodes.capacity == t.ix.capacity && nodes.live.Keys == t.ix.entries.Keys
    ensures slots == OccupiedFrom(t.records, 0) == OccupiedFrom(nodes, 0)
    ensures |slots| == |t.records.live| && Ascending(slots)
    ensures forall i: nat :: i in slots <==> i in t.ix.entries
    ensures forall i | i in slots :: i in t.records.live
  {
    slots := OccupiedFrom(t.records, 0);
    SameSlotsSameEnumeration(nodes, t.records, 0);
    EnumerationExact(t.records);
    forall i: nat ensures i in slots <==> i in t.ix.entries {
      assert i in t.records.live.Keys <==> i in t.ix.entries.Keys;
    }
  }

  lemma EnumeratedKeys<K(!new)>(ix: Ix<K>, slots: seq<nat>)
    requires UniqueKeys(ix) && Ascending(slots) && forall i: nat :: i in slots <==> i in ix.entries
    ensures Distinct(KeysAt(ix, slots))
    ensures forall key :: key in KeySet(ix) <==> key in KeysAt(ix, slots)
  {
    var keys := KeysAt(ix, slots);
    forall n, k | 0 <= n < k < |slots| ensures keys[n] != keys[k] {
      assert slots[n] < slots[k];
      assert slots[n] in slots && slots[k] in slots;
    }
    forall key ensures key in KeySet(ix) <==> key in keys {
      if key in KeySet(ix) {
        var i :| i in ix.entries && ix.entries[i].key == key;
        var n :| 0 <= n < |slots| && slots[n] == i;
        assert keys[n] == key;
      }
      if key in keys {
        var n :| 0 <= n < |keys| && keys[n] == key;
        assert slots[n] in slots;
      }
    }
  }

  lemma EntryHoldsContents<K(!new), T(!new)>(env: Env<K, T>, t: TableState<K>, i: nat)
    requires TableValid(env, t) && i in t.records.live && i in t.ix.entries
    ensures t.ix.entries[i].key in Contents(env, t)
    ensures Contents(env, t)[t.ix.entries[i].key] == RecordAt(env, t, i)
  {
    LookupOfEntry(env, t, i);
    ContentsAt(env, t, t.ix.entries[i].key);
  }

  // ---------- Records under their own keys ----------

  /** Every record lies under the key that it reports itself. */
  ghost predicate KeyFaithful<K, T>(env: Env<K, T>, m: map<K, T>) {
    forall key | key in m :: env.codec.key(m[key]) == key
  }

  ghost predicate KeepsKeys<K, T(!new)>(env: Env<K, T>, f: T -> T) {
    forall r :: env.codec.key(f(r)) == env.codec.key(r)
  }

  ghost predicate OpKeepsKeys<K, T(!new)>(env: Env<K, T>, op: Op<K, T>) {
    match op
    case UpdateOp(_, f) => KeepsKeys(env, f)
    case UpdateManyOp(_, f) => KeepsKeys(env, f)
    case _ => true
  }

  lemma {:induction false} UpdateManyFaithful<K(!new), T(!new)>(
      env: Env<K, T>, limits: Limits, m: map<K, T>, keys: seq<K>, f: T -> T, found: nat)
    requires KeyFaithful(env, m) && KeepsKeys(env, f)
    ensures KeyFaithful(env, MUpdateMany(env, limits, m, keys, f, found).0)
    decreases |keys|
  {
    if keys != [] {
      var (after, updated) := MUpdate(env, limits, m, keys[0], (record: T) => (f(record), ()));
      assert KeyFaithful(env, after);
      if updated.Ok? {
        UpdateManyFaithful(env, limits, after, keys[1..], f, if updated.value.Some? then found + 1 else found);
      }
    }
  }

  /** As long as closures leave keys alone, every run keeps every record under its own key. */
  lemma {:induction false} RunFaithful<K(!new), T(!new)>(
      env: Env<K, T>, limits: Limits, m: map<K, T>, ops: seq<Op<K, T>>)
    requires KeyFaithful(env, m)
    requires forall i | 0 <= i < |ops| :: OpKeepsKeys(env, ops[i])
    ensures KeyFaithful(env, MapRun(env, limits, m, ops).0)
    decreases |ops|
  {
    if ops != [] {
      var op, next := ops[0], MapStep(env, limits, m, ops[0]).0;
      assert OpKeepsKeys(env, op);
      if op.UpdateManyOp? {
        UpdateManyFaithful(env, limits, m, op.keys, op.f, 0);
      }
      assert KeyFaithful(env, next);
      RunFaithful(env, limits, next, ops[1..]);
    }
  }

  /**
   From a fresh table, after any run whose closures leave keys alone, the nth item of `keys()` is the
   key of the nth item of `iter()`.
   */
  lemma KeysMatchRecords<K(!new), T(!new)>(
      env: Env<K, T>, capacity: nat, recordSize: nat, buckets: nat, ops: seq<Op<K, T>>, nodes: Arena)
    requires Sound(env.codec) && buckets > 0
    requires forall i | 0 <= i < |ops| :: OpKeepsKeys(env, ops[i])
    requires var t := TableRun(env, TCreate(capacity, recordSize, buckets), ops).0;
             nodes.Valid() && nodes.capacity == t.ix.capacity && nodes.live.Keys == t.ix.entries.Keys
    ensures var t := TableRun(env, TCreate(capacity, recordSize, buckets), ops).0;
            var slots := OccupiedFrom(t.records, 0);
            && TableValid(env, t) && OccupiedFrom(nodes, 0) == slots
            && (forall i | i in slots :: i in t.ix.entries && i in t.records.live)
            && (forall n | 0 <= n < |slots| ::
                  env.codec.key(RecordsAt(env, t, slots)[n]) == KeysAt(t.ix, slots)[n])
  {
    hide TableRun, MapRun, TableValid, OccupiedFrom, Distinct;
    var t0: TableState<K> := TCreate(capacity, recordSize, buckets);
    CreateRefines(env, capacity, recordSize, buckets);
    RunRefines(env, t0, ops);
    RunFaithful(env, LimitsOf(t0), map[], ops);
    var t := TableRun(env, t0, ops).0;
    EnumerationsAgree(env, t, nodes);
    var slots := OccupiedFrom(t.records, 0);
    TableDecodes(env, t);
    forall n | 0 <= n < |slots|
      ensures env.codec.key(RecordsAt(env, t, slots)[n]) == KeysAt(t.ix, slots)[n]
    {
      assert KeysAt(t.ix, slots)[n] in Contents(env, t);
    }
  }

  lemma TableDecodes<K(!new), T>(env: Env<K, T>, t: TableState<K>)
    requires TableValid(env, t)
    ensures Decodable(env, t) && UniqueKeys(t.ix)
  {
  }

  // ---------- Large tables ----------

  /** Where the table lock does not exist, no insertion ever succeeds: the table stays empty for good. */
  lemma {:induction false} UnlockableTableStaysEmpty<K(!new), T(!new)>(
      env: Env<K, T>, limits: Limits, ops: seq<Op<K, T>>)
    requires !TableLockWorks(limits.capacity)
    ensures MapRun(env, limits, map[], ops).0 == map[]
    decreases |ops|
  {
    if ops != [] {
      var op := ops[0];
      if op.UpdateManyOp? {
        assert MUpdateMany(env, limits, map[], op.keys, op.f, 0).0.Keys == {};
      }
      assert MapStep(env, limits, map[], op).0 == map[];
      UnlockableTableStaysEmpty(env, limits, ops[1..]);
    }
  }

  /** So it is for every capacity from 1024 to 65535, whatever the run; the documented 100000 is no better. */
  lemma TableOfMediumCapacityStaysEmpty<K(!new), T(!new)>(
      env: Env<K, T>, capacity: nat, recordSize: nat, buckets: nat, ops: seq<Op<K, T>>)
    requires Sound(env.codec) && buckets > 0
    requires 1024 <= capacity < 65536 || capacity == 100_000
    ensures TableRun(env, TCreate(capacity, recordSize, buckets), ops).0.records.live == map[]
  {
    hide TableRun, MapRun;
    LargeTableLock(capacity);
    var t0: TableState<K> := TCreate(capacity, recordSize, buckets);
    CreateRefines(env, capacity, recordSize, buckets);
    RunRefines(env, t0, ops);
    UnlockableTableStaysEmpty(env, LimitsOf(t0), ops);
    var t := TableRun(env, t0, ops).0;
    CountIsSize(env, t);
    assert |t.records.live| == 0;
  }

  // ---------- Filling a table ----------

  /** The record cannot be stored. */
  predicate Refuses<K, T>(env: Env<K, T>, limits: Limits, record: T) {
    var data := env.codec.serialize(record);
    data.None? || |data.value| > limits.recordSize
  }

  /** The error of storing a record. */
  function StoreError<K, T>(env: Env<K, T>, limits: Limits, record: T): Error
    requires Refuses(env, limits, record)
  {
    var data := env.codec.serialize(record);
    if data.None? then SerializationError else RecordSizeTooBig(|data.value|, limits.recordSize)
  }

  function Inserts<K, T>(records: seq<T>): (ops: seq<Op<K, T>>)
    ensures |ops| == |records|
  {
    seq(|records|, i requires 0 <= i < |records| => InsertOp(records[i]))
  }

  /** Storable records under different keys, none of them in use. */
  ghost predicate FitBeside<K, T>(env: Env<K, T>, limits: Limits, m: map<K, T>, records: seq<T>) {
    && (forall i | 0 <= i < |records| :: !Refuses(env, limits, records[i]) && env.codec.key(records[i]) !in m)
    && (forall i, j | 0 <= i < j < |records| :: env.codec.key(records[i]) != env.codec.key(records[j]))
  }

  /** The answer to an insertion that nothing but the lock can stop. */
  function LockAnswer<T>(limits: Limits): Reply<T> {
    if TableLockWorks(limits.capacity) then Inserted
    else Refused(SemaphoreInvalidIndex(limits.capacity, Stripes(limits.capacity)))
  }

  lemma {:induction false} InsertsFill<K(!new), T(!new)>(env: Env<K, T>, limits: Limits, m: map<K, T>, records: seq<T>)
    requires FitBeside(env, limits, m, records) && |m| + |records| <= limits.capacity
    ensures var (after, replies) := MapRun(env, limits, m, Inserts(records));
            && |replies| == |records| && (forall i | 0 <= i < |records| :: replies[i] == LockAnswer(limits))
            && (if TableLockWorks(limits.capacity) then
                  && |after| == |m| + |records|
                  && (forall k | k in m :: k in after && after[k] == m[k])
                  && forall i | 0 <= i < |records| ::
                       env.codec.key(records[i]) in after && after[env.codec.key(records[i])] == records[i]
                else after == m)
    decreases |records|
  {
    hide TableLockWorks, Stripes;
    if records != [] {
      var key, ops := env.codec.key(records[0]), Inserts<K, T>(records);
      var next := MapStep(env, limits, m, ops[0]).0;
      assert ops[1..] == Inserts<K, T>(records[1..]);
      assert next == if TableLockWorks(limits.capacity) then m[key := records[0]] else m;
      InsertsFill(env, limits, next, records[1..]);
      forall i | 0 < i < |records| ensures records[i] == records[1..][i - 1] {
      }
    }
  }

  lemma LockableCapacities(capacity: nat)
    ensures TableLockWorks(capacity) <==>
            capacity < STRIPE_SIZE || capacity % 65536 <= (capacity + STRIPE_SIZE - 1) / STRIPE_SIZE
  {
    if capacity < STRIPE_SIZE {
      SmallTablesLock(capacity);
    } else {
      LargeTableLock(capacity);
    }
  }

  lemma SmallTablesLock(capacity: nat)
    requires capacity < STRIPE_SIZE
    ensures TableLockWorks(capacity)
  {
  }

  /**
   Which tables can be filled. Any storable records under different keys, no more than the capacity, are
   all accepted by a fresh table if the capacity is below 1024 or, cut to sixteen bits, at most the
   number of stripes; by any other table every one of them is refused.
   */
  lemma TableFillsExactlyIfLockable<K(!new), T(!new)>(
      env: Env<K, T>, capacity: nat, recordSize: nat, buckets: nat, records: seq<T>)
    requires Sound(env.codec) && buckets > 0
    requires FitBeside(env, Limits(capacity, recordSize), map[], records) && |records| <= capacity
    ensures var (t, replies) := TableRun(env, TCreate(capacity, recordSize, buckets), Inserts(records));
            var fills := capacity < STRIPE_SIZE || capacity % 65536 <= (capacity + STRIPE_SIZE - 1) / STRIPE_SIZE;
            && TableValid(env, t) && |replies| == |records|
            && (if fills then |t.records.live| == |records| else t.records.live == map[])
            && (forall i | 0 <= i < |records| ::
                  replies[i] == LockAnswer(LimitsOf(t)) && (replies[i] == Inserted <==> fills))
            && (fills ==> forall i | 0 <= i < |records| ::
                  RecordFor(env, t, env.codec.key(records[i])) == Some(records[i]))
  {
    hide TableRun, MapRun, TableLockWorks, Stripes, TableValid, RecordFor, FitBeside;
    LockableCapacities(capacity);
    var t0: TableState<K> := TCreate(capacity, recordSize, buckets);
    CreateRefines(env, capacity, recordSize, buckets);
    RunRefines(env, t0, Inserts(records));
    InsertsFill(env, LimitsOf(t0), map[], records);
    var t := TableRun(env, t0, Inserts(records)).0;
    CountIsSize(env, t);
    forall i | 0 <= i < |records| && TableLockWorks(capacity)
      ensures RecordFor(env, t, env.codec.key(records[i])) == Some(records[i])
    {
      ContentsAt(env, t, env.codec.key(records[i]));
    }
  }

  // ---------- update_many as a fold ----------

  /** The updater applied once for each key, from left to right, where the key is present. */
  function FoldOver<K(==), T>(m: map<K, T>, keys: seq<K>, f: T -> T): (r: map<K, T>)
    ensures r.Keys == m.Keys
    decreases |keys|
  {
    if keys == [] then m
    else
      var before, key := FoldOver(m, keys[..|keys| - 1], f), keys[|keys| - 1];
      if key in before then before[key := f(before[key])] else before
  }

  function Present<K(==), T>(m: map<K, T>, keys: seq<K>): nat {
    if keys == [] then 0 else (if keys[0] in m then 1 else 0) + Present(m, keys[1..])
  }

  lemma {:induction false} FoldFromLeft<K(!new), T>(m: map<K, T>, keys: seq<K>, f: T -> T)
    requires keys != []
    ensures var first := if keys[0] in m then m[keys[0] := f(m[keys[0]])] else m;
            FoldOver(m, keys, f) == FoldOver(first, keys[1..], f)
    decreases |keys|
  {
    var n := |keys| - 1;
    if n > 0 {
      FoldFromLeft(m, keys[..n], f);
      assert keys[..n][1..] == keys[1..][..n - 1];
      assert keys[1..][n - 1] == keys[n];
    } else {
      assert keys[..0] == [] && keys[1..] == [];
    }
  }

  /**
   Without an error the result is the whole fold and the count is that of the occurrences of present
   keys; an error at position `n` leaves exactly the fold of the first `n` keys, of which the next
   record would not fit.
   */
  lemma {:induction false} UpdateManyIsFold<K(!new), T(!new)>(
      env: Env<K, T>, limits: Limits, m: map<K, T>, keys: seq<K>, f: T -> T, found: nat) returns (n: nat)
    ensures n <= |keys|
    ensures var (after, r) := MUpdateMany(env, limits, m, keys, f, found);
            && after == FoldOver(m, keys[..n], f)
            && (r.Ok? ==> n == |keys| && r.value == found + Present(m, keys))
            && (r.Err? ==> n < |keys| && keys[n] in after && Refuses(env, limits, f(after[keys[n]]))
                           && r.error == StoreError(env, limits, f(after[keys[n]])))
    decreases |keys|
  {
    if keys == [] {
      return 0;
    }
    var (next, updated) := MUpdate(env, limits, m, keys[0], (record: T) => (f(record), ()));
    if updated.Err? {
      assert keys[..0] == [];
      return 0;
    }
    var k := UpdateManyIsFold(env, limits, next, keys[1..], f, if updated.value.Some? then found + 1 else found);
    n := k + 1;
    assert keys[..n][1..] == keys[1..][..k];
    FoldFromLeft(m, keys[..n], f);
    PresentByKeys(m, next, keys[1..]);
  }

  lemma {:induction false} PresentByKeys<K(!new), T>(m: map<K, T>, next: map<K, T>, keys: seq<K>)
    requires m.Keys == next.Keys
    ensures Present(m, keys) == Present(next, keys)
  {
    if keys != [] {
      PresentByKeys(m, next, keys[1..]);
      assert keys[0] in m.Keys <==> keys[0] in next.Keys;
    }
  }

  /** The fold, key by key. */
  lemma FoldIs<K(!new), T(!new)>(m: map<K, T>, keys: seq<K>, key: K, f: T -> T)
    ensures FoldOver(m, [], f) == m
    ensures var before := FoldOver(m, keys, f);
            FoldOver(m, keys + [key], f) == if key in before then before[key := f(before[key])] else before
  {
    assert (keys + [key])[..|keys|] == keys;
  }

  /** The count of the occurrences of present keys. */
  lemma {:induction false} PresentIs<K(!new), T>(m: map<K, T>, keys: seq<K>)
    ensures Present(m, keys) == |set i | 0 <= i < |keys| && keys[i] in m|
  {
    if keys != [] {
      var n := |keys| - 1;
      var before, all := set i | 0 <= i < n && keys[i] in m, set i | 0 <= i < |keys| && keys[i] in m;
      PresentIs(m, keys[..n]);
      PresentAppend(m, keys[..n], keys[n]);
      assert keys == keys[..n] + [keys[n]];
      assert before == set i | 0 <= i < |keys[..n]| && keys[..n][i] in m;
      assert all == before + if keys[n] in m then {n} else {};
    }
  }

  lemma {:induction false} PresentAppend<K(!new), T>(m: map<K, T>, keys: seq<K>, key: K)
    ensures Present(m, keys + [key]) == Present(m, keys) + if key in m then 1 else 0
  {
    if keys == [] {
      assert [key][1..] == [];
    } else {
      assert (keys + [key])[1..] == keys[1..] + [key];
      PresentAppend(m, keys[1..], key);
    }
  }

  // ---------- What each operation answers ----------

  /** The answer to an insertion into a table of `capacity` records that stands for `m`. */
  ghost predicate InsertAnswers<K, T>(
      env: Env<K, T>, capacity: nat, recordSize: nat, m: map<K, T>, record: T, m': map<K, T>, reply: Result<()>)
  {
    var key, data := env.codec.key(record), env.codec.serialize(record);
    var semaphores := if capacity < 1024 then capacity + 1 else (capacity + 1023) / 1024 + 1;
    && (m' == if reply.Ok? then m[key := record] else m)
    && reply == if key in m then Err(RecordDuplicated)
                else if capacity % 65536 >= semaphores then Err(SemaphoreInvalidIndex(capacity, semaphores))
                else if data.None? then Err(SerializationError)
                else if |m| >= capacity then Err(TableFull(|m|, capacity))
                else if |data.value| > recordSize then Err(RecordSizeTooBig(|data.value|, recordSize))
                else Ok(())
  }

  /** The answer to an update, with the closure's result. */
  ghost predicate UpdateAnswers<K, T, R>(
      env: Env<K, T>, recordSize: nat, m: map<K, T>, key: K, f: T -> (T, R), m': map<K, T>, reply: Result<Option<R>>)
  {
    if key !in m then m' == m && reply == Ok(None)
    else
      var (changed, result) := f(m[key]);
      var data := env.codec.serialize(changed);
      && (m' == if reply.Ok? then m[key := changed] else m)
      && reply == if data.None? then Err(SerializationError)
                  else if |data.value| > recordSize then Err(RecordSizeTooBig(|data.value|, recordSize))
                  else Ok(Some(result))
  }

  /** The answer to an update of many keys, of which the first `n` are done. */
  ghost predicate UpdateManyAnswers<K, T>(
      env: Env<K, T>, recordSize: nat, m: map<K, T>, keys: seq<K>, f: T -> T, n: nat, m': map<K, T>, reply: Result<nat>)
  {
    && n <= |keys| && m' == FoldOver(m, keys[..n], f)
    && if reply.Ok? then n == |keys| && reply.value == |set i | 0 <= i < |keys| && keys[i] in m|
       else
         && n < |keys| && keys[n] in m'
         && var data := env.codec.serialize(f(m'[keys[n]]));
            if data.None? then reply.error == SerializationError
            else |data.value| > recordSize && reply.error == RecordSizeTooBig(|data.value|, recordSize)
  }

  lemma InsertAnswered<K(!new), T(!new)>(env: Env<K, T>, limits: Limits, m: map<K, T>, record: T)
    ensures var (m', r) := MInsert(env, limits, m, record);
            InsertAnswers(env, limits.capacity, limits.recordSize, m, record, m', r)
  {
    StripesAre(limits.capacity);
  }

  lemma UpdateAnswered<K(!new), T(!new), R>(env: Env<K, T>, limits: Limits, m: map<K, T>, key: K, f: T -> (T, R))
    ensures var (m', r) := MUpdate(env, limits, m, key, f);
            UpdateAnswers(env, limits.recordSize, m, key, f, m', r)
  {
  }

  lemma UpdateManyAnswered<K(!new), T(!new)>(env: Env<K, T>, limits: Limits, m: map<K, T>, keys: seq<K>, f: T -> T)
    ensures var (m', r) := MUpdateMany(env, limits, m, keys, f, 0);
            exists n :: UpdateManyAnswers(env, limits.recordSize, m, keys, f, n, m', r)
  {
    hide MUpdateMany, FoldOver, Present;
    var n := UpdateManyIsFold(env, limits, m, keys, f, 0);
    PresentIs(m, keys);
    var (m', r) := MUpdateMany(env, limits, m, keys, f, 0);
    assert UpdateManyAnswers(env, limits.recordSize, m, keys, f, n, m', r);
  }

  lemma UpdateMeets<K(!new), T(!new)>(env: Env<K, T>, limits: Limits, m: map<K, T>, key: K, f: T -> T)
    ensures var (m', r) := MUpdate(env, limits, m, key, Meeting(f));
            && (r.Ok? ==> r.value == if key in m then Some(m[key]) else None)
            && m' == if r.Ok? && key in m then m[key := f(m[key])] else m
  {
  }

  /** What every operation answers, and what it leaves, in terms of the records that the table stands for. */
  lemma StepAnswers<K(!new), T(!new)>(env: Env<K, T>, t: TableState<K>, op: Op<K, T>)
    requires TableValid(env, t) && Sound(env.codec)
    ensures var (after, reply) := TableStep(env, t, op);
            && TableValid(env, after) && LimitsOf(after) == LimitsOf(t)
            && var m, m' := Contents(env, t), Contents(env, after);
               var capacity, size := t.records.capacity, t.records.dataSize;
               match op
               case InsertOp(record) =>
                 (reply == Inserted && InsertAnswers(env, capacity, size, m, record, m', Ok(())))
                 || (reply.Refused? && InsertAnswers(env, capacity, size, m, record, m', Err(reply.error)))
               case RemoveOp(key) => reply == Removed && m' == m - {key}
               case UpdateOp(key, f) =>
                 && (reply.Updated? ==> reply.met == if key in m then Some(m[key]) else None)
                 && ((reply.Updated? && UpdateAnswers(env, size, m, key, Meeting(f), m', Ok(reply.met)))
                     || (reply.Refused? && UpdateAnswers(env, size, m, key, Meeting(f), m', Err(reply.error))))
                 && m' == if reply.Updated? && key in m then m[key := f(m[key])] else m
               case UpdateManyOp(keys, f) =>
                 exists n ::
                   (reply.Counted? && UpdateManyAnswers(env, size, m, keys, f, n, m', Ok(reply.found)))
                   || (reply.Refused? && UpdateManyAnswers(env, size, m, keys, f, n, m', Err(reply.error)))
               case FindOp(key) => m' == m && reply == Found(if key in m then Some(m[key]) else None)
  {
    hide TableValid, TableStep, MInsert, MUpdate, MUpdateMany, InsertAnswers, UpdateAnswers, UpdateManyAnswers,
         Contents;
    StepRefines(env, t, op);
    var m, limits := Contents(env, t), LimitsOf(t);
    match op
    case InsertOp(record) => InsertAnswered(env, limits, m, record);
    case RemoveOp(_) =>
    case UpdateOp(key, f) =>
      UpdateAnswered(env, limits, m, key, Meeting(f));
      UpdateMeets(env, limits, m, key, f);
    case UpdateManyOp(keys, f) => UpdateManyAnswered(env, limits, m, keys, f);
    case FindOp(_) =>
  }

  /**
   An accepted record is found under its key, a removed key is not found, and finding any other key
   answers as before.
   */
  lemma FindAfter<K(!new), T(!new)>(env: Env<K, T>, t: TableState<K>, record: T, gone: K, other: K)
    requires TableValid(env, t) && Sound(env.codec)
    ensures var key := env.codec.key(record);
            var inserted := TableRun(env, t, [InsertOp(record), FindOp(key)]).1;
            |inserted| == 2 && (inserted[0] == Inserted ==> inserted[1] == Found(Some(record)))
    ensures TableRun(env, t, [RemoveOp(gone), FindOp(gone)]).1 == [Removed, Found(None)]
    ensures other != env.codec.key(record) ==>
              TableRun(env, t, [InsertOp(record), FindOp(other)]).1[1..] == TableRun(env, t, [FindOp(other)]).1
    ensures other != gone ==>
              TableRun(env, t, [RemoveOp(gone), FindOp(other)]).1[1..] == TableRun(env, t, [FindOp(other)]).1
  {
    hide TableValid, TableStep, Contents, TableLockWorks, Stripes;
    FindAfterStep(env, t, InsertOp(record), env.codec.key(record));
    FindAfterStep(env, t, InsertOp(record), other);
    FindAfterStep(env, t, RemoveOp(gone), gone);
    FindAfterStep(env, t, RemoveOp(gone), other);
    StepAnswers(env, t, InsertOp(record));
    StepAnswers(env, t, RemoveOp(gone));
    StepAnswers(env, t, FindOp(other));
    OneStep(env, t, FindOp(other));
  }

  lemma OneStep<K(!new), T(!new)>(env: Env<K, T>, t: TableState<K>, op: Op<K, T>)
    requires TableValid(env, t)
    ensures |t.ix.chains| > 0 && TableRun(env, t, [op]).1 == [TableStep(env, t, op).1]
  {
    hide TableStep, IxValid;
    HasBuckets(env, t);
    assert [op][1..] == [];
    assert TableRun(env, TableStep(env, t, op).0, []).1 == [];
  }

  /** The answer of a lookup after one operation. */
  lemma FindAfterStep<K(!new), T(!new)>(env: Env<K, T>, t: TableState<K>, op: Op<K, T>, key: K)
    requires TableValid(env, t) && Sound(env.codec)
    ensures |t.ix.chains| > 0
    ensures var (after, reply) := TableStep(env, t, op);
            && TableValid(env, after)
            && var m := Contents(env, after);
               TableRun(env, t, [op, FindOp(key)]).1 == [reply, Found(if key in m then Some(m[key]) else None)]
  {
    hide TableValid, TableStep, Contents;
    HasBuckets(env, t);
    StepRefines(env, t, op);
    var after := TableStep(env, t, op).0;
    StepAnswers(env, after, FindOp(key));
    OneStep(env, after, FindOp(key));
    assert [op, FindOp(key)][1..] == [FindOp(key)];
  }
}
