/**
 The table refines a bounded map: every operation, and every run of operations, answers as the map
 does and leaves a table that stands for the map's next value.
 */
module TableRefinement {
  import opened Bytes
  import opened Results
  import opened SlotModel
  import opened IndexModel
  import opened Semaphores
  import opened TableModel

  // ---------- The bounded map ----------

  datatype Limits = Limits(capacity: nat, recordSize: nat)

  function MInsert<K(==), T>(env: Env<K, T>, limits: Limits, m: map<K, T>, record: T): (r: (map<K, T>, Result<()>)) {
    var key := env.codec.key(record);
    if key in m then (m, Err(RecordDuplicated))
    else if !TableLockWorks(limits.capacity) then
      (m, Err(SemaphoreInvalidIndex(limits.capacity, Stripes(limits.capacity))))
    else
      match env.codec.serialize(record)
      case None => (m, Err(SerializationError))
      case Some(data) =>
        if |m| >= limits.capacity then (m, Err(TableFull(|m|, limits.capacity)))
        else if |data| > limits.recordSize then (m, Err(RecordSizeTooBig(|data|, limits.recordSize)))
        else (m[key := record], Ok(()))
  }

  function MUpdate<K(==), T, R>(
      env: Env<K, T>, limits: Limits, m: map<K, T>, key: K, f: T -> (T, R)): (r: (map<K, T>, Result<Option<R>>))
    ensures r.0.Keys == m.Keys
  {
    if key !in m then (m, Ok(None))
    else
      var (changed, result) := f(m[key]);
      match env.codec.serialize(changed)
      case None => (m, Err(SerializationError))
      case Some(data) =>
        if |data| > limits.recordSize then (m, Err(RecordSizeTooBig(|data|, limits.recordSize)))
        else (m[key := changed], Ok(Some(result)))
  }

  /** The fold of the updater over the keys, up to the first error. */
  function MUpdateMany<K(==), T>(
      env: Env<K, T>, limits: Limits, m: map<K, T>, keys: seq<K>, updater: T -> T, found: nat)
    : (r: (map<K, T>, Result<nat>))
    ensures r.0.Keys == m.Keys
    decreases |keys|
  {
    if keys == [] then
      (m, Ok(found))
    else
      var (after, updated) := MUpdate(env, limits, m, keys[0], (record: T) => (updater(record), ()));
      if updated.Err? then (after, Err(updated.error))
      else MUpdateMany(env, limits, after, keys[1..], updater, if updated.value.Some? then found + 1 else found)
  }

  function MFind<K(==), T>(m: map<K, T>, key: K): Option<T> {
    if key in m then Some(m[key]) else None
  }

  function LimitsOf<K>(t: TableState<K>): Limits {
    Limits(t.records.capacity, t.records.dataSize)
  }

  /** What a map answers where the table also names the slot it used. */
  function Forget(r: Result<nat>): Result<()> {
    if r.Ok? then Ok(()) else Err(r.error)
  }

  // ---------- Creation ----------

  lemma CreateRefines<K(!new), T(!new)>(env: Env<K, T>, capacity: nat, recordSize: nat, buckets: nat)
    requires buckets > 0
    ensures var t := TCreate<K>(capacity, recordSize, buckets);
            TableValid(env, t) && Contents(env, t) == map[] && LimitsOf(t) == Limits(capacity, recordSize)
  {
    CreateValid(capacity, recordSize);
    CreateIxValid(env.keys, capacity, buckets);
  }

  // ---------- Find ----------

  lemma FindRefines<K(!new), T(!new)>(env: Env<K, T>, t: TableState<K>, key: K)
    requires TableValid(env, t)
    ensures TFind(env, t, key) == Ok(MFind(Contents(env, t), key))
    ensures TFind(env, t, key) == Ok(if key in Contents(env, t) then Some(Contents(env, t)[key]) else None)
  {
    LookupPresent(env, t, key);
  }

  // ---------- Insert ----------

  /**
   No insertion stops between the two allocators: the index finds room whenever the records do, so
   either both have taken the slot or nothing has changed.
   */
  lemma InsertIsAtomic<K(!new), T(!new)>(env: Env<K, T>, t: TableState<K>, record: T)
    requires TableValid(env, t)
    ensures var (after, r) := TInsert(env, t, record);
            match r
            case Ok(slot) =>
              && slot !in t.records.live && slot !in t.ix.entries
              && after.records.live.Keys == t.records.live.Keys + {slot}
              && after.ix.entries == t.ix.entries[slot := Entry(env.codec.key(record), slot)]
            case Err(_) => after == t
  {
    hide Bucket, FirstWith, IxGet, TableLockWorks;
    if t.records.free != [] {
      FirstFreeInRange(t.records);
      assert t.records.free[0] !in t.ix.entries.Keys;
    }
  }

  lemma InsertKeepsKeysUnique<K(!new), T(!new)>(env: Env<K, T>, t: TableState<K>, key: K, slot: nat)
    requires TableValid(env, t) && IxGet(env.keys, t.ix, key).None?
    ensures UniqueKeys(t.ix.(entries := t.ix.entries[slot := Entry(key, slot)]))
  {
    hide Partition, IxValid, Bucket, FirstWith;
    LookupPresent(env, t, key);
    assert forall i | i in t.ix.entries :: t.ix.entries[i].key in KeySet(t.ix);
  }

  /** The first free slot of both allocators is the same, and both take it. */
  lemma BothTakeFirstFree<K(!new), T(!new)>(env: Env<K, T>, t: TableState<K>, key: K, data: seq<byte>)
    requires TableValid(env, t) && IxGet(env.keys, t.ix, key).None?
    requires t.records.free != [] && |data| <= t.records.dataSize && env.codec.deserialize(data).Some?
    ensures TableValid(env, TableState(Insert(t.records, data).0, IxInsert(env.keys, t.ix, key, t.records.free[0]).0))
  {
    hide Bucket, Partition, IxValid, FirstWith, UniqueKeys;
    HasBuckets(env, t);
    var slot := t.records.free[0];
    var records, ix := Insert(t.records, data).0, IxInsert(env.keys, t.ix, key, slot).0;
    InsertValid(t.records, data);
    InsertIxValid(env.keys, t.ix, key, slot);
    InsertKeepsKeysUnique(env, t, key, slot);
    assert ix.entries == t.ix.entries[slot := Entry(key, slot)];
    UniqueKeysOfEntries(t.ix.(entries := ix.entries), ix);
  }

  lemma UniqueKeysOfEntries<K>(ix: Ix<K>, ix': Ix<K>)
    requires ix.entries == ix'.entries && UniqueKeys(ix)
    ensures UniqueKeys(ix')
  {
  }

  lemma InsertCoupled<K(!new), T(!new)>(env: Env<K, T>, t: TableState<K>, record: T)
    requires TableValid(env, t) && Sound(env.codec)
    ensures var (after, r) := TInsert(env, t, record);
            && TableValid(env, after) && LimitsOf(after) == LimitsOf(t)
            && (r.Ok? ==> t.records.free != [] && r.value == t.records.free[0])
            && (r.Err? ==> after == t)
  {
    if TInsert(env, t, record).1.Ok? {
      BothTakeFirstFree(env, t, env.codec.key(record), env.codec.serialize(record).value);
    }
  }

  /** A successful insert adds the record under its key and uses the first free slot; a failed one changes nothing. */
  lemma InsertRefines<K(!new), T(!new)>(env: Env<K, T>, t: TableState<K>, record: T)
    requires TableValid(env, t) && Sound(env.codec)
    ensures var (after, r) := TInsert(env, t, record);
            && TableValid(env, after) && LimitsOf(after) == LimitsOf(t)
            && (Contents(env, after), Forget(r)) == MInsert(env, LimitsOf(t), Contents(env, t), record)
            && (r.Ok? ==> t.records.free != [] && r.value == t.records.free[0])
            && (r.Err? ==> after == t)
  {
    hide Partition, IxValid, Bucket, FirstWith, TableLockWorks, Stripes;
    HasBuckets(env, t);
    var (after, r) := TInsert(env, t, record);
    var key := env.codec.key(record);
    InsertCoupled(env, t, record);
    LookupPresent(env, t, key);
    CountIsSize(env, t);
    FreeAndLiveCount(t.records);
    if r.Ok? {
      InsertedLookups(env, t, record);
    }
  }

  lemma InsertedLookups<K(!new), T(!new)>(env: Env<K, T>, t: TableState<K>, record: T)
    requires TableValid(env, t) && Sound(env.codec) && TInsert(env, t, record).1.Ok?
    requires TableValid(env, TInsert(env, t, record).0)
    ensures Contents(env, TInsert(env, t, record).0) == Contents(env, t)[env.codec.key(record) := record]
  {
    hide TableValid, TInsert;
    HasBuckets(env, t);
    var after := TInsert(env, t, record).0;
    var m := Contents(env, t)[env.codec.key(record) := record];
    forall other ensures RecordFor(env, after, other) == if other in m then Some(m[other]) else None {
      InsertedLookup(env, t, record, other);
      ContentsAt(env, t, other);
    }
    ContentsFromLookups(env, after, m);
  }

  lemma InsertedLookup<K(!new), T(!new)>(env: Env<K, T>, t: TableState<K>, record: T, other: K)
    requires TableValid(env, t) && Sound(env.codec) && TInsert(env, t, record).1.Ok?
    ensures RecordFor(env, TInsert(env, t, record).0, other)
         == if other == env.codec.key(record) then Some(record) else RecordFor(env, t, other)
  {
    hide Partition, IxValid, Bucket, FirstWith, IxSearch, IxInsert;
    HasBuckets(env, t);
    var key, slot := env.codec.key(record), t.records.free[0];
    FirstFreeInRange(t.records);
    LookupAfterInsert(env.keys, t.ix, key, slot, other);
    LookupPresent(env, t, other);
    LookupPresent(env, t, key);
    SearchFindsKey(env.keys, t.ix, key);
    assert IxSearch(env.keys, t.ix, key).None? by {
      SearchNoneIfGetNone(env.keys, t.ix, key);
    }
  }

  lemma SearchNoneIfGetNone<K(!new)>(keys: Keys<K>, ix: Ix<K>, key: K)
    requires IxValid(keys, ix) && IxGet(keys, ix, key).None?
    ensures IxSearch(keys, ix, key).None?
  {
    SearchFindsKey(keys, ix, key);
  }

  // ---------- Update ----------

  lemma WriteKeepsTable<K(!new), T(!new)>(env: Env<K, T>, t: TableState<K>, index: nat, record: T)
    requires TableValid(env, t) && Sound(env.codec) && index in t.records.live
    ensures var (after, r) := TWrite(env, t, index, record);
            && TableValid(env, after) && LimitsOf(after) == LimitsOf(t) && after.records.free == t.records.free
            && (r.Err? ==> after == t)
            && (r.Ok? ==> after.records.live.Keys == t.records.live.Keys && RecordAt(env, after, index) == record)
            && (forall i | i in t.records.live && i != index :: after.records.live[i] == t.records.live[i])
  {
    hide Partition, IxValid;
    var (after, r) := TWrite(env, t, index, record);
    if r.Ok? {
      var data := env.codec.serialize(record).value;
      UpdateValid(t.records, index, data);
      assert after.records.live == t.records.live[index := data];
      assert after.records.live.Keys == t.records.live.Keys;
    }
  }

  lemma WriteContents<K(!new), T(!new)>(env: Env<K, T>, t: TableState<K>, key: K, index: nat, record: T)
    requires TableValid(env, t) && Sound(env.codec)
    requires IxGet(env.keys, t.ix, key) == Some(index) && index in t.records.live
    requires TableValid(env, TWrite(env, t, index, record).0) && TWrite(env, t, index, record).1.Ok?
    ensures key in Contents(env, t)
    ensures Contents(env, TWrite(env, t, index, record).0) == Contents(env, t)[key := record]
  {
    hide Partition, IxValid, Bucket, FirstWith;
    var after := TWrite(env, t, index, record).0;
    WriteKeepsTable(env, t, index, record);
    LookupPresent(env, t, key);
    var m := Contents(env, t)[key := record];
    forall other ensures RecordFor(env, after, other) == if other in m then Some(m[other]) else None {
      LookupPresent(env, t, other);
      ContentsAt(env, t, other);
    }
    ContentsFromLookups(env, after, m);
  }

  /** A successful update replaces the key's record by what the closure made of it; a failed one changes nothing. */
  lemma UpdateRefines<K(!new), T(!new), R>(env: Env<K, T>, t: TableState<K>, key: K, f: T -> (T, R))
    requires TableValid(env, t) && Sound(env.codec)
    ensures var (after, r) := TUpdate(env, t, key, f);
            && TableValid(env, after) && LimitsOf(after) == LimitsOf(t)
            && after.records.free == t.records.free && after.records.live.Keys == t.records.live.Keys
            && (Contents(env, after), r) == MUpdate(env, LimitsOf(t), Contents(env, t), key, f)
            && (r.Err? ==> after == t)
  {
    hide Partition, IxValid, Bucket, FirstWith;
    LookupPresent(env, t, key);
    var found := IxGet(env.keys, t.ix, key);
    if found.Some? {
      var changed := f(RecordAt(env, t, found.value)).0;
      WriteKeepsTable(env, t, found.value, changed);
      if TWrite(env, t, found.value, changed).1.Ok? {
        WriteContents(env, t, key, found.value, changed);
      }
    }
  }

  /**
   `update_many` is the fold of the updater over the keys: a repeated key is updated once for each
   occurrence, absent keys are skipped, the count is that of the updates done, and after an error
   the table stands for the fold of the keys before it. No slot and no index node is taken or freed.
   */
  lemma {:induction false} UpdateManyRefines<K(!new), T(!new)>(
      env: Env<K, T>, t: TableState<K>, keys: seq<K>, updater: T -> T, found: nat)
    requires TableValid(env, t) && Sound(env.codec)
    ensures var (after, r) := TUpdateMany(env, t, keys, updater, found);
            && TableValid(env, after) && LimitsOf(after) == LimitsOf(t)
            && after.records.free == t.records.free && after.records.live.Keys == t.records.live.Keys
            && (Contents(env, after), r) == MUpdateMany(env, LimitsOf(t), Contents(env, t), keys, updater, found)
    decreases |keys|
  {
    if keys != [] {
      hide Partition, IxValid, Bucket, FirstWith, TUpdate, MUpdate, TableValid;
      var f := (record: T) => (updater(record), ());
      UpdateRefines(env, t, keys[0], f);
      var (after, updated) := TUpdate(env, t, keys[0], f);
      if updated.Ok? {
        UpdateManyRefines(env, after, keys[1..], updater, if updated.value.Some? then found + 1 else found);
      }
    }
  }

  // ---------- Remove ----------

  lemma RemoveCoupled<K(!new), T(!new)>(env: Env<K, T>, t: TableState<K>, key: K)
    requires TableValid(env, t)
    ensures TableValid(env, TRemove(env, t, key)) && LimitsOf(TRemove(env, t, key)) == LimitsOf(t)
    ensures match IxGet(env.keys, t.ix, key)
            case None => TRemove(env, t, key) == t
            case Some(index) =>
              index in t.records.live && TRemove(env, t, key).records.free == [index] + t.records.free
  {
    hide Partition, Bucket, FirstWith;
    LookupPresent(env, t, key);
    var found := IxGet(env.keys, t.ix, key);
    if found.Some? {
      var index := found.value;
      SearchFindsKey(env.keys, t.ix, key);
      assert IxSearch(env.keys, t.ix, key) == Some(index);
      RemoveValid(t.records, index);
      RemoveIxValid(env.keys, t.ix, key);
      var after := TRemove(env, t, key);
      assert after.ix.entries == t.ix.entries - {index} && after.records.live == t.records.live - {index};
    }
  }

  /** Removal deletes the key; on an absent key it does nothing. The freed slot is the next to be used. */
  lemma RemoveRefines<K(!new), T(!new)>(env: Env<K, T>, t: TableState<K>, key: K)
    requires TableValid(env, t)
    ensures var after := TRemove(env, t, key);
            && TableValid(env, after) && LimitsOf(after) == LimitsOf(t)
            && Contents(env, after) == Contents(env, t) - {key}
            && (key in Contents(env, t) ==> after.records.free == [IxGet(env.keys, t.ix, key).value] + t.records.free)
  {
    hide TableValid, TRemove, RecordFor;
    HasBuckets(env, t);
    var after := TRemove(env, t, key);
    RemoveCoupled(env, t, key);
    LookupPresent(env, t, key);
    var m := Contents(env, t) - {key};
    forall other ensures RecordFor(env, after, other) == if other in m then Some(m[other]) else None {
      RemovedLookup(env, t, key, other);
      ContentsAt(env, t, other);
    }
    ContentsFromLookups(env, after, m);
  }

  lemma RemovedLookup<K(!new), T(!new)>(env: Env<K, T>, t: TableState<K>, key: K, other: K)
    requires TableValid(env, t)
    ensures RecordFor(env, TRemove(env, t, key), other)
         == if other == key then None else RecordFor(env, t, other)
  {
    hide Partition, IxValid, Bucket, FirstWith, IxRemove, IxSearch, IxGet;
    LookupAfterRemove(env.keys, t.ix, key, other);
    LookupPresent(env, t, key);
    LookupPresent(env, t, other);
  }

  // ---------- Runs ----------

  datatype Op<!K, !T> =
    | InsertOp(record: T)
    | RemoveOp(key: K)
    | UpdateOp(key: K, f: T -> T)
    | UpdateManyOp(keys: seq<K>, f: T -> T)
    | FindOp(key: K)

  datatype Reply<T> =
    | Inserted
    | Removed
    | Updated(met: Option<T>)
    | Counted(found: nat)
    | Found(record: Option<T>)
    | Refused(error: Error)

  /** The closure with the record it met as its result: whatever else it returns is a function of that. */
  function Meeting<T>(f: T -> T): T -> (T, T) {
    (record: T) => (f(record), record)
  }

  function TableStep<K(==), T>(env: Env<K, T>, t: TableState<K>, op: Op<K, T>): (r: (TableState<K>, Reply<T>))
    requires |t.ix.chains| > 0
    ensures |r.0.ix.chains| == |t.ix.chains|
  {
    match op
    case InsertOp(record) =>
      var (after, r) := TInsert(env, t, record);
      (after, if r.Ok? then Inserted else Refused(r.error))
    case RemoveOp(key) =>
      (TRemove(env, t, key), Removed)
    case UpdateOp(key, f) =>
      var (after, r) := TUpdate(env, t, key, Meeting(f));
      (after, if r.Ok? then Updated(r.value) else Refused(r.error))
    case UpdateManyOp(keys, f) =>
      var (after, r) := TUpdateMany(env, t, keys, f, 0);
      (after, if r.Ok? then Counted(r.value) else Refused(r.error))
    case FindOp(key) =>
      var r := TFind(env, t, key);
      (t, if r.Ok? then Found(r.value) else Refused(r.error))
  }

  function MapStep<K(==), T>(env: Env<K, T>, limits: Limits, m: map<K, T>, op: Op<K, T>): (map<K, T>, Reply<T>) {
    match op
    case InsertOp(record) =>
      var (after, r) := MInsert(env, limits, m, record);
      (after, if r.Ok? then Inserted else Refused(r.error))
    case RemoveOp(key) =>
      (m - {key}, Removed)
    case UpdateOp(key, f) =>
      var (after, r) := MUpdate(env, limits, m, key, Meeting(f));
      (after, if r.Ok? then Updated(r.value) else Refused(r.error))
    case UpdateManyOp(keys, f) =>
      var (after, r) := MUpdateMany(env, limits, m, keys, f, 0);
      (after, if r.Ok? then Counted(r.value) else Refused(r.error))
    case FindOp(key) =>
      (m, Found(MFind(m, key)))
  }

  function TableRun<K(==), T>(env: Env<K, T>, t: TableState<K>, ops: seq<Op<K, T>>): (r: (TableState<K>, seq<Reply<T>>))
    requires |t.ix.chains| > 0
    ensures |r.0.ix.chains| == |t.ix.chains|
    decreases |ops|
  {
    if ops == [] then (t, [])
    else
      var (next, reply) := TableStep(env, t, ops[0]);
      var (last, replies) := TableRun(env, next, ops[1..]);
      (last, [reply] + replies)
  }

  function MapRun<K(==), T>(
      env: Env<K, T>, limits: Limits, m: map<K, T>, ops: seq<Op<K, T>>): (map<K, T>, seq<Reply<T>>)
    decreases |ops|
  {
    if ops == [] then (m, [])
    else
      var (next, reply) := MapStep(env, limits, m, ops[0]);
      var (last, replies) := MapRun(env, limits, next, ops[1..]);
      (last, [reply] + replies)
  }

  lemma StepRefines<K(!new), T(!new)>(env: Env<K, T>, t: TableState<K>, op: Op<K, T>)
    requires TableValid(env, t) && Sound(env.codec)
    ensures var (after, reply) := TableStep(env, t, op);
            && TableValid(env, after) && LimitsOf(after) == LimitsOf(t)
            && (Contents(env, after), reply) == MapStep(env, LimitsOf(t), Contents(env, t), op)
  {
    hide Partition, IxValid, Bucket, FirstWith, TInsert, MInsert, TUpdate, MUpdate, TUpdateMany, MUpdateMany, TRemove,
         TFind;
    match op
    case InsertOp(record) => InsertRefines(env, t, record);
    case RemoveOp(key) => RemoveRefines(env, t, key);
    case UpdateOp(key, f) => UpdateRefines(env, t, key, Meeting(f));
    case UpdateManyOp(keys, f) => UpdateManyRefines(env, t, keys, f, 0);
    case FindOp(key) => FindRefines(env, t, key);
  }

  /**
   Every run of operations answers exactly as the bounded map does and ends in a table that stands
   for the map's value; throughout, the two allocators stay in lockstep (`TableValid`).
   */
  lemma {:induction false} RunRefines<K(!new), T(!new)>(env: Env<K, T>, t: TableState<K>, ops: seq<Op<K, T>>)
    requires TableValid(env, t) && Sound(env.codec)
    ensures var (last, replies) := TableRun(env, t, ops);
            && TableValid(env, last) && LimitsOf(last) == LimitsOf(t)
            && (Contents(env, last), replies) == MapRun(env, LimitsOf(t), Contents(env, t), ops)
    decreases |ops|
  {
    if ops != [] {
      hide TableStep, MapStep, TableValid;
      StepRefines(env, t, ops[0]);
      RunRefines(env, TableStep(env, t, ops[0]).0, ops[1..]);
    }
  }
}
