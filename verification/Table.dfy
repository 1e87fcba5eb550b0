/** The shared-memory table (src/table.rs). */
module SharedTable {
  import opened Bytes
  import opened Results
  import opened SlotModel
  import opened SlotMemory
  import opened IndexModel
  import opened IndexLinks
  import opened HashIndex
  import opened Semaphores
  import opened TableModel
  import opened TableRefinement
  import opened TableProperties

  const TABLE_HEADER_SIZE: nat := 16

  class Table<K(==,!new), T(!new)> {
    const env: Env<K, T>
    const capacity: nat
    const slots: Slots
    const semaphores: SemaphoreSet
    const primaryKeys: Index<K>

    /** The table and its index share no memory and no semaphore. */
    ghost predicate Separate() {
      && slots != primaryKeys.slots && slots.memory != primaryKeys.slots.memory
      && semaphores != primaryKeys.semaphores
      && semaphores.values != primaryKeys.semaphores.values
      && semaphores.adjust != primaryKeys.semaphores.adjust
    }

    /** The two allocators as values. */
    ghost function State(): TableState<K>
      reads slots, primaryKeys
    {
      TableState(slots.view, primaryKeys.view)
    }

    /** Memory and index are sound and in lockstep; says nothing about the table's own semaphores. */
    ghost predicate DataValid()
      reads slots, slots.memory, primaryKeys, primaryKeys.buckets, primaryKeys.slots, primaryKeys.slots.memory
      reads primaryKeys.semaphores.values, primaryKeys.semaphores.adjust
    {
      && Separate()
      && 0 < capacity == slots.capacity == semaphores.numRecords < USIZE_LIMIT
      && primaryKeys.keys == env.keys && Sound(env.codec)
      && slots.Valid() && primaryKeys.Valid()
      && TableValid(env, State()) && slots.view.capacity == capacity
    }

    ghost predicate Valid()
      reads slots, slots.memory, primaryKeys, primaryKeys.buckets, primaryKeys.slots, primaryKeys.slots.memory
      reads primaryKeys.semaphores.values, primaryKeys.semaphores.adjust, semaphores.values, semaphores.adjust
    {
      DataValid() && semaphores.AllFree()
    }

    /** The map that the table stands for. */
    ghost function Map(): map<K, T>
      requires Valid()
      reads slots, slots.memory, primaryKeys, primaryKeys.buckets, primaryKeys.slots, primaryKeys.slots.memory
      reads primaryKeys.semaphores.values, primaryKeys.semaphores.adjust, semaphores.values, semaphores.adjust
    {
      Contents(env, State())
    }

    constructor CreateWithSize(env: Env<K, T>, capacity: nat, recordSize: nat)
      requires Lawful(env.keys) && Sound(env.codec)
      requires 0 < capacity < USIZE_LIMIT && METADATA_SIZE + recordSize < USIZE_LIMIT
      ensures Valid() && this.env == env && this.capacity == capacity
      ensures State() == TCreate(capacity, recordSize, TotalBuckets(capacity))
      ensures Map() == map[]
      ensures slots.start == 16 + 32 && slots.slotSize == 16 + recordSize && slots.view.dataSize == recordSize
      ensures primaryKeys.totalBuckets == (3 * capacity + 3) / 4
    {
      hide Represents, Links, TableValid, Contents, Stripes, StripeSize;
      var memory := new byte[TABLE_HEADER_SIZE + HEADER_SIZE + capacity * (METADATA_SIZE + recordSize)](_ => 0);
      var recordSlots := new Slots(TABLE_HEADER_SIZE, memory, capacity, recordSize);
      var semaphoreSet := new SemaphoreSet(capacity);
      var index := new Index<K>(env.keys, capacity);
      this.env := env;
      this.capacity := capacity;
      slots := recordSlots;
      semaphores := semaphoreSet;
      primaryKeys := index;
      new;
      CreateRefines(env, capacity, recordSize, TotalBuckets(capacity));
    }

    method Count() returns (n: nat)
      requires Valid()
      ensures n == |Map()|
    {
      n := slots.Count();
      CountIsSize(env, State());
    }

    /** The record in a slot. */
    method GetAt(index: nat) returns (r: Result<T>)
      requires slots.Valid() && slots.view.capacity == capacity == slots.capacity
      ensures r == TGet(env, State(), index)
      ensures if index >= capacity then r == Err(InvalidIndex(index, capacity))
              else
                var record := env.codec.deserialize(if index in slots.view.live then slots.view.live[index] else []);
                r == if record.Some? then Ok(record.value) else Err(DeserializationError)
    {
      hide Represents;
      if index >= capacity {
        return Err(InvalidIndex(index, capacity));
      }
      var data := slots.Get(index);
      var record := env.codec.deserialize(data);
      r := if record.Some? then Ok(record.value) else Err(DeserializationError);
    }

    method Find(key: K) returns (r: Result<Option<T>>)
      requires Valid()
      modifies primaryKeys.semaphores.values, primaryKeys.semaphores.adjust
      ensures Valid() && State() == old(State())
      ensures r == Ok(MFind(old(Map()), key))
      ensures r == Ok(if key in old(Map()) then Some(old(Map())[key]) else None)
    {
      hide Represents, Links, TableValid, Contents, IxGet, MFind;
      var index := primaryKeys.Get(key);
      if index.Some? {
        var record := GetAt(index.value);
        r := if record.Ok? then Ok(Some(record.value)) else Err(record.error);
      } else {
        r := Ok(None);
      }
      FindRefines(env, State(), key);
    }

    /**
     Adds a record under its key, in the first free slot. A failed call changes nothing, and every
     call releases the locks it took.
     */
    method Insert(record: T) returns (r: Result<nat>)
      requires Valid()
      modifies slots, slots.memory, primaryKeys, primaryKeys.buckets, primaryKeys.slots, primaryKeys.slots.memory
      modifies primaryKeys.semaphores.values, primaryKeys.semaphores.adjust, semaphores.values, semaphores.adjust
      ensures Valid()
      ensures (State(), r) == TInsert(env, old(State()), record)
      ensures (Map(), Forget(r)) == MInsert(env, LimitsOf(old(State())), old(Map()), record)
      ensures r.Ok? ==> old(slots.view).free != [] && r.value == old(slots.view).free[0]
      ensures InsertAnswers(env, capacity, slots.view.dataSize, old(Map()), record, Map(),
                            if r.Ok? then Ok(()) else Err(r.error))
    {
      hide Represents, Links, TableValid, Contents, MInsert, IxGet, SlotModel.Insert, IxInsert, InsertAnswers;
      ghost var before := State();
      InsertRefines(env, before, record);
      InsertAnswered(env, LimitsOf(before), Map(), record);
      var present := primaryKeys.Get(env.codec.key(record));
      if present.Some? {
        return Err(RecordDuplicated);
      }
      var locked :- semaphores.LockTable();
      r := InsertLocked(record);
      semaphores.Drop(locked);
    }

    method InsertLocked(record: T) returns (r: Result<nat>)
      requires DataValid() && TableLockWorks(capacity) && semaphores.Holding(capacity % 65536)
      requires IxGet(env.keys, primaryKeys.view, env.codec.key(record)).None?
      modifies slots, slots.memory, primaryKeys, primaryKeys.buckets, primaryKeys.slots, primaryKeys.slots.memory
      modifies primaryKeys.semaphores.values, primaryKeys.semaphores.adjust
      ensures DataValid()
      ensures (State(), r) == TInsert(env, old(State()), record)
    {
      hide Represents, Links, TableValid, IxGet, SlotModel.Insert, IxInsert, TableLockWorks;
      InsertRefines(env, State(), record);
      var serialized := env.codec.serialize(record);
      if serialized.None? {
        return Err(SerializationError);
      }
      SlotIsUsize(env, State(), serialized.value);
      var index :- slots.Insert(serialized.value);
      var indexed := primaryKeys.Insert(env.codec.key(record), index);
      match indexed {
        case Ok(_) => r := Ok(index);
        case Err(error) => r := Err(error);
      }
    }

    /** Serializes a record into its slot. */
    method UpdateAt(index: nat, record: T) returns (r: Result<()>)
      requires slots.Valid() && index in slots.view.live
      modifies slots`view, slots.memory
      ensures slots.Valid()
      ensures (State(), r) == TWrite(env, old(State()), index, record)
      ensures var data, a := env.codec.serialize(record), old(slots.view);
              if data.None? then r == Err(SerializationError) && slots.view == a
              else if |data.value| > a.dataSize then
                r == Err(RecordSizeTooBig(|data.value|, a.dataSize)) && slots.view == a
              else r == Ok(()) && slots.view == a.(live := a.live[index := data.value])
    {
      hide Represents;
      var serialized := env.codec.serialize(record);
      if serialized.None? {
        return Err(SerializationError);
      }
      r := slots.Update(index, serialized.value);
    }

    /** Reads the record of a slot, applies the closure and writes the result back. */
    method UpdateLocked<R>(index: nat, f: T -> (T, R)) returns (r: Result<Option<R>>)
      requires semaphores.Holding((if capacity < 1024 then index else index / 1024) % 65536)
      requires slots.Valid() && index in slots.view.live && slots.view.capacity == capacity == slots.capacity
      modifies slots`view, slots.memory
      ensures slots.Valid()
      ensures (State(), r) == TUpdateAt(env, old(State()), index, f)
    {
      hide Represents, TGet, TWrite;
      var record := GetAt(index);
      if record.Err? {
        return Err(record.error);
      }
      var (changed, result) := f(record.value);
      var written := UpdateAt(index, changed);
      r := if written.Ok? then Ok(Some(result)) else Err(written.error);
    }

    /** Replaces the record of a key by what the closure makes of it, under the lock of the record's slot. */
    method UpdateWithLock<R>(key: K, f: T -> (T, R)) returns (r: Result<Option<R>>)
      requires Valid()
      modifies slots, slots.memory, primaryKeys, primaryKeys.buckets, primaryKeys.slots, primaryKeys.slots.memory
      modifies primaryKeys.semaphores.values, primaryKeys.semaphores.adjust, semaphores.values, semaphores.adjust
      ensures Valid()
      ensures (State(), r) == TUpdate(env, old(State()), key, f)
      ensures (Map(), r) == MUpdate(env, LimitsOf(old(State())), old(Map()), key, f)
      ensures UpdateAnswers(env, slots.view.dataSize, old(Map()), key, f, Map(), r)
      ensures slots.view.dataSize == old(slots.view.dataSize)
    {
      hide Represents, Links, TableValid, Contents, MUpdate, IxGet, TUpdateAt, RecordSem, Stripes, UpdateAnswers,
           RecordLockable, SemaphoreSet.Holding, SemaphoreSet.AllFree;
      UpdateAnswered(env, LimitsOf(State()), Map(), key, f);
      UpdateRefines(env, State(), key, f);
      LookupInRange(env, State(), key);
      var found := primaryKeys.Get(key);
      if found.None? {
        return Ok(None);
      }
      var locked := semaphores.LockRecord(found.value);  // never an error
      RecordSemIs(capacity, found.value);
      r := UpdateLocked(found.value, f);
      assert DataValid();
      semaphores.Drop(locked.value);
    }

    /** Updates the records of all keys in turn; keys without a record are skipped, an error ends the call. */
    method UpdateMany(keys: seq<K>, updater: T -> T) returns (r: Result<nat>)
      requires Valid()
      modifies slots, slots.memory, primaryKeys, primaryKeys.buckets, primaryKeys.slots, primaryKeys.slots.memory
      modifies primaryKeys.semaphores.values, primaryKeys.semaphores.adjust, semaphores.values, semaphores.adjust
      ensures Valid()
      ensures (State(), r) == TUpdateMany(env, old(State()), keys, updater, 0)
      ensures (Map(), r) == MUpdateMany(env, LimitsOf(old(State())), old(Map()), keys, updater, 0)
      ensures exists n :: UpdateManyAnswers(env, slots.view.dataSize, old(Map()), keys, updater, n, Map(), r)
    {
      hide Represents, Links, TableValid, Contents, MUpdateMany, TUpdate, UpdateManyAnswers, UpdateAnswers;
      UpdateManyAnswered(env, LimitsOf(State()), Map(), keys, updater);
      UpdateManyRefines(env, State(), keys, updater, 0);
      var found := 0;
      for k := 0 to |keys|
        invariant Valid()
        invariant TUpdateMany(env, old(State()), keys, updater, 0)
               == TUpdateMany(env, State(), keys[k..], updater, found)
      {
        assert keys[k..][0] == keys[k] && keys[k..][1..] == keys[k + 1..];
        var updated := UpdateWithLock(keys[k], (record: T) => (updater(record), ()));
        if updated.Err? {
          return Err(updated.error);
        }
        if updated.value.Some? {
          found := found + 1;
        }
      }
      r := Ok(found);
    }

    /** Deletes the record of a key; does nothing if there is none. */
    method Remove(key: K) returns (r: Result<()>)
      requires Valid()
      modifies slots, slots.memory, primaryKeys, primaryKeys.buckets, primaryKeys.slots, primaryKeys.slots.memory
      modifies primaryKeys.semaphores.values, primaryKeys.semaphores.adjust, semaphores.values, semaphores.adjust
      ensures Valid()
      ensures r == Ok(()) && State() == TRemove(env, old(State()), key)
      ensures Map() == old(Map()) - {key}
    {
      hide Represents, Links, TableValid, Contents, IxGet, SlotModel.Remove, IxRemove, RecordSem, Stripes,
           RecordLockable, SemaphoreSet.Holding, SemaphoreSet.AllFree;
      RemoveRefines(env, State(), key);
      LookupInRange(env, State(), key);
      var found := primaryKeys.Get(key);
      if found.None? {
        return Ok(());
      }
      var locked := semaphores.LockRecord(found.value);  // never an error
      RecordSemIs(capacity, found.value);
      r := RemoveLocked(key, found.value);
      semaphores.Drop(locked.value);
    }

    method RemoveLocked(key: K, index: nat) returns (r: Result<()>)
      requires semaphores.Holding((if capacity < 1024 then index else index / 1024) % 65536)
      requires DataValid()
      requires IxGet(env.keys, primaryKeys.view, key) == Some(index) && index in slots.view.live
      modifies slots, slots.memory, primaryKeys, primaryKeys.buckets, primaryKeys.slots, primaryKeys.slots.memory
      modifies primaryKeys.semaphores.values, primaryKeys.semaphores.adjust
      ensures DataValid()
      ensures r == Ok(()) && State() == TRemove(env, old(State()), key)
    {
      hide Represents, Links, TableValid, IxGet, SlotModel.Remove, IxRemove;
      RemoveRefines(env, State(), key);
      slots.Remove(index);
      r := primaryKeys.Remove(key);
    }

    /** Enumerates the records in slot order. */
    method Iter() returns (it: TableIterator<K, T>)
      requires Valid()
      ensures it.Valid() && it.table == this && fresh(it.inner)
      ensures it.inner.Remaining() == OccupiedFrom(State().records, 0)
    {
      it := new TableIterator(this);
    }

    /** Enumerates the keys in slot order: the same slots, in the same order, as `Iter`. */
    method Keys() returns (it: IndexIterator<K>)
      requires Valid()
      ensures it.Valid() && it.index == primaryKeys && fresh(it.inner)
      ensures it.inner.Remaining() == OccupiedFrom(State().records, 0)
      ensures |it.inner.Remaining()| == |Map()|
    {
      hide Represents, Links, TableValid, Contents, OccupiedFrom;
      it := new IndexIterator(primaryKeys);
      SameSlots(env, State(), primaryKeys);
    }
  }

  lemma SlotIsUsize<K(!new), T(!new)>(env: Env<K, T>, t: TableState<K>, data: seq<byte>)
    requires TableValid(env, t)
    ensures var stored := SlotModel.Insert(t.records, data).1;
            stored.Ok? ==> stored.value < t.records.capacity
  {
    if t.records.free != [] {
      FirstFreeInRange(t.records);
    }
  }

  lemma LookupInRange<K(!new), T(!new)>(env: Env<K, T>, t: TableState<K>, key: K)
    requires TableValid(env, t)
    ensures var found := IxGet(env.keys, t.ix, key);
            found.Some? ==> found.value in t.records.live && found.value < t.records.capacity
  {
    LookupPresent(env, t, key);
  }

  lemma SameSlots<K(!new), T(!new)>(env: Env<K, T>, t: TableState<K>, index: Index<K>)
    requires TableValid(env, t) && index.Linked() && index.view == t.ix
    ensures OccupiedFrom(index.slots.view, 0) == OccupiedFrom(t.records, 0)
    ensures |OccupiedFrom(t.records, 0)| == |Contents(env, t)|
  {
    EnumerationsAgree(env, t, index.slots.view);
  }

  class TableIterator<K(==,!new), T(!new)> {
    const table: Table<K, T>
    const inner: SlotsIterator

    ghost predicate Valid()
      reads this, inner, table, table.slots, table.slots.memory, table.primaryKeys, table.primaryKeys.buckets,
            table.primaryKeys.slots, table.primaryKeys.slots.memory, table.primaryKeys.semaphores.values,
            table.primaryKeys.semaphores.adjust
    {
      && inner.slots == table.slots
      && table.DataValid() && inner.Valid()
    }

    constructor (table: Table<K, T>)
      requires table.DataValid()
      ensures Valid() && this.table == table && fresh(inner)
      ensures inner.Remaining() == OccupiedFrom(table.State().records, 0)
    {
      hide Represents, Links, TableValid, OccupiedFrom;
      this.table := table;
      inner := new SlotsIterator(table.slots);
    }

    /** Yields the record in the first remaining slot; once none remains, it stays at the end. */
    method Next() returns (r: Option<T>)
      requires Valid()
      modifies inner
      ensures Valid()
      ensures old(inner.Remaining()) == [] ==> r == None && inner.Remaining() == []
      ensures old(inner.Remaining()) != [] ==>
                && old(inner.Remaining())[0] in table.slots.view.live
                && r == table.env.codec.deserialize(table.slots.view.live[old(inner.Remaining())[0]])
                && r.Some?
                && inner.Remaining() == old(inner.Remaining())[1..]
    {
      hide Represents, Links, TableValid, OccupiedFrom;
      var data := inner.Next();
      if data.None? {
        return None;
      }
      TableDecodes(table.env, table.State());
      r := table.env.codec.deserialize(data.value);
    }
  }
}
