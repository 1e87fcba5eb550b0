/**
 The table as values: the record arena and the key index side by side, what each table operation
 does to the two, and the bounded map that the pair stands for.
 */
module TableModel {
  import opened Bytes
  import opened Results
  import opened SlotModel
  import opened IndexModel
  import opened Semaphores

  /** What the record type provides: its key, and its serialization, which may fail. */
  datatype Codec<!K, !T> = Codec(
    key: T -> K, serialize: T -> Option<seq<byte>>, deserialize: seq<byte> -> Option<T>)

  ghost predicate Sound<K, T(!new)>(codec: Codec<K, T>) {
    forall r :: codec.serialize(r).Some? ==> codec.deserialize(codec.serialize(r).value) == Some(r)
  }

  datatype Env<!K, !T> = Env(keys: Keys<K>, codec: Codec<K, T>)

  /** The two allocators of a table: records by slot, and the index from keys to slots. */
  datatype TableState<K> = TableState(records: Arena, ix: Ix<K>)

  // ---------- Operations ----------

  function TCreate<K>(capacity: nat, recordSize: nat, buckets: nat): TableState<K> {
    TableState(Create(capacity, recordSize), IxCreate(capacity, buckets))
  }

  function TInsert<K(==), T>(env: Env<K, T>, t: TableState<K>, record: T): (r: (TableState<K>, Result<nat>))
    requires |t.ix.chains| > 0
    ensures |r.0.ix.chains| == |t.ix.chains|
  {
    var key := env.codec.key(record);
    if IxGet(env.keys, t.ix, key).Some? then
      (t, Err(RecordDuplicated))
    else if !TableLockWorks(t.records.capacity) then
      (t, Err(SemaphoreInvalidIndex(t.records.capacity, Stripes(t.records.capacity))))
    else
      match env.codec.serialize(record)
      case None => (t, Err(SerializationError))
      case Some(data) =>
        var (records, stored) := Insert(t.records, data);
        if stored.Err? then
          (t, stored)
        else
          var (ix, indexed) := IxInsert(env.keys, t.ix, key, stored.value);
          (TableState(records, ix), if indexed.Err? then Err(indexed.error) else stored)
  }

  function TGet<K, T>(env: Env<K, T>, t: TableState<K>, index: nat): Result<T> {
    if index >= t.records.capacity then
      Err(InvalidIndex(index, t.records.capacity))
    else
      match env.codec.deserialize(if index in t.records.live then t.records.live[index] else [])
      case None => Err(DeserializationError)
      case Some(record) => Ok(record)
  }

  function TFind<K(==), T>(env: Env<K, T>, t: TableState<K>, key: K): Result<Option<T>>
    requires |t.ix.chains| > 0
  {
    match IxGet(env.keys, t.ix, key)
    case None => Ok(None)
    case Some(index) =>
      var record := TGet(env, t, index);
      if record.Err? then Err(record.error) else Ok(Some(record.value))
  }

  function TWrite<K, T>(env: Env<K, T>, t: TableState<K>, index: nat, record: T): (r: (TableState<K>, Result<()>))
    ensures r.0.ix == t.ix
  {
    match env.codec.serialize(record)
    case None => (t, Err(SerializationError))
    case Some(data) =>
      var (records, written) := Update(t.records, index, data);
      (TableState(records, t.ix), written)
  }

  /** The closure gets the record and returns it changed, with a result for the caller. */
  function TUpdateAt<K, T, R>(
      env: Env<K, T>, t: TableState<K>, index: nat, f: T -> (T, R)): (r: (TableState<K>, Result<Option<R>>))
    ensures r.0.ix == t.ix
  {
    var record := TGet(env, t, index);
    if record.Err? then
      (t, Err(record.error))
    else
      var (changed, result) := f(record.value);
      var (after, written) := TWrite(env, t, index, changed);
      (after, if written.Err? then Err(written.error) else Ok(Some(result)))
  }

  function TUpdate<K(==), T, R>(
      env: Env<K, T>, t: TableState<K>, key: K, f: T -> (T, R)): (r: (TableState<K>, Result<Option<R>>))
    requires |t.ix.chains| > 0
    ensures r.0.ix == t.ix
  {
    match IxGet(env.keys, t.ix, key)
    case None => (t, Ok(None))
    case Some(index) => TUpdateAt(env, t, index, f)
  }

  /** Left to right over the keys; the count of records found so far travels along. */
  function TUpdateMany<K(==), T>(
      env: Env<K, T>, t: TableState<K>, keys: seq<K>, updater: T -> T, found: nat): (r: (TableState<K>, Result<nat>))
    requires |t.ix.chains| > 0
    ensures r.0.ix == t.ix
    decreases |keys|
  {
    if keys == [] then
      (t, Ok(found))
    else
      var (after, updated) := TUpdate(env, t, keys[0], (record: T) => (updater(record), ()));
      if updated.Err? then (after, Err(updated.error))
      else TUpdateMany(env, after, keys[1..], updater, if updated.value.Some? then found + 1 else found)
  }

  function TRemove<K(==), T>(env: Env<K, T>, t: TableState<K>, key: K): (r: TableState<K>)
    requires |t.ix.chains| > 0
    ensures |r.ix.chains| == |t.ix.chains|
  {
    match IxGet(env.keys, t.ix, key)
    case None => t
    case Some(index) => TableState(Remove(t.records, index), IxRemove(env.keys, t.ix, key))
  }

  // ---------- The coupling ----------

  /**
   The two allocators are in lockstep: the same free list, in the same order, so the node of a
   record always lies at the record's own slot number.
   */
  ghost predicate Coupled<K>(t: TableState<K>) {
    && t.records.capacity == t.ix.capacity
    && t.records.free == t.ix.free
    && t.records.live.Keys == t.ix.entries.Keys
    && (forall i | i in t.ix.entries :: t.ix.entries[i].position == i)
  }

  ghost predicate Decodable<K, T>(env: Env<K, T>, t: TableState<K>) {
    forall i | i in t.records.live :: env.codec.deserialize(t.records.live[i]).Some?
  }

  ghost predicate TableValid<K(!new), T>(env: Env<K, T>, t: TableState<K>) {
    && t.records.Valid()
    && IxValid(env.keys, t.ix)
    && Coupled(t)
    && UniqueKeys(t.ix)
    && Decodable(env, t)
  }

  lemma HasBuckets<K(!new), T>(env: Env<K, T>, t: TableState<K>)
    requires TableValid(env, t)
    ensures |t.ix.chains| > 0
  {
  }

  // ---------- The map that a table stands for ----------

  ghost function KeySet<K>(ix: Ix<K>): set<K> {
    set i | i in ix.entries :: ix.entries[i].key
  }

  ghost function RecordAt<K, T>(env: Env<K, T>, t: TableState<K>, i: nat): T
    requires Decodable(env, t) && i in t.records.live
  {
    env.codec.deserialize(t.records.live[i]).value
  }

  /** The record that lookup of a key leads to. */
  ghost function RecordFor<K(!new), T>(env: Env<K, T>, t: TableState<K>, key: K): Option<T>
    requires |t.ix.chains| > 0
  {
    match IxGet(env.keys, t.ix, key)
    case None => None
    case Some(i) => if i in t.records.live then env.codec.deserialize(t.records.live[i]) else None
  }

  /** Each key of the index with the record that its lookup leads to. */
  ghost function Contents<K(!new), T>(env: Env<K, T>, t: TableState<K>): (m: map<K, T>)
    requires TableValid(env, t)
    ensures m.Keys == KeySet(t.ix)
  {
    LookupsPresent(env, t);
    map key | key in KeySet(t.ix) :: RecordFor(env, t, key).value
  }

  lemma LookupsPresent<K(!new), T>(env: Env<K, T>, t: TableState<K>)
    requires TableValid(env, t)
    ensures forall key :: RecordFor(env, t, key).Some? <==> key in KeySet(t.ix)
  {
    forall key ensures RecordFor(env, t, key).Some? <==> key in KeySet(t.ix) {
      LookupPresent(env, t, key);
    }
  }

  lemma ContentsAt<K(!new), T>(env: Env<K, T>, t: TableState<K>, key: K)
    requires TableValid(env, t)
    ensures var m := Contents(env, t);
            RecordFor(env, t, key) == if key in m then Some(m[key]) else None
  {
    LookupsPresent(env, t);
  }

  /** A table stands for `m` if its lookups are those of `m`. */
  lemma ContentsFromLookups<K(!new), T>(env: Env<K, T>, t: TableState<K>, m: map<K, T>)
    requires TableValid(env, t)
    requires forall key :: RecordFor(env, t, key) == if key in m then Some(m[key]) else None
    ensures Contents(env, t) == m
  {
    hide TableValid;
    var c := Contents(env, t);
    forall key ensures (key in c <==> key in m) && (key in c ==> c[key] == m[key]) {
      ContentsAt(env, t, key);
    }
  }

  /** Looking up a present key gives the one slot whose entry has it. */
  lemma LookupPresent<K(!new), T>(env: Env<K, T>, t: TableState<K>, key: K)
    requires TableValid(env, t)
    ensures match IxGet(env.keys, t.ix, key)
            case Some(i) => i in t.ix.entries && i in t.records.live && i < t.records.capacity
                            && t.ix.entries[i].key == key && key in KeySet(t.ix)
            case None => key !in KeySet(t.ix)
  {
    hide Bucket, Partition, FirstWith;
    SearchFindsKey(env.keys, t.ix, key);
    var found := IxSearch(env.keys, t.ix, key);
    if found.Some? {
      assert found.value in t.ix.entries.Keys && found.value in t.records.live.Keys;
      LiveInRange(t.records, found.value);
    }
  }

  lemma LiveInRange(a: Arena, i: nat)
    requires a.Valid() && i in a.live
    ensures i < a.capacity && i !in a.free
  {
  }

  /** With unique keys, the slot of an entry is where lookup leads. */
  lemma LookupOfEntry<K(!new), T>(env: Env<K, T>, t: TableState<K>, i: nat)
    requires TableValid(env, t) && i in t.ix.entries
    ensures IxGet(env.keys, t.ix, t.ix.entries[i].key) == Some(i)
  {
    var key := t.ix.entries[i].key;
    assert key in KeySet(t.ix);
    LookupPresent(env, t, key);
  }

  /** `count()` is the number of records in the map. */
  lemma CountIsSize<K(!new), T>(env: Env<K, T>, t: TableState<K>)
    requires TableValid(env, t)
    ensures |t.records.live| == |t.ix.entries| == |Contents(env, t)|
  {
    assert |t.records.live.Keys| == |t.records.live| && |t.ix.entries.Keys| == |t.ix.entries|;
    KeySetSize(t.ix, t.ix.entries.Keys);
    assert KeySet(t.ix) == KeysOf(t.ix, t.ix.entries.Keys);
    assert |Contents(env, t).Keys| == |Contents(env, t)|;
  }

  ghost function KeysOf<K>(ix: Ix<K>, slots: set<nat>): set<K>
    requires slots <= ix.entries.Keys
  {
    set i | i in slots :: ix.entries[i].key
  }

  lemma {:induction false} KeySetSize<K>(ix: Ix<K>, slots: set<nat>)
    requires UniqueKeys(ix) && slots <= ix.entries.Keys
    ensures |KeysOf(ix, slots)| == |slots|
    decreases |slots|
  {
    if slots != {} {
      var x :| x in slots;
      var rest := slots - {x};
      KeySetSize(ix, rest);
      assert KeysOf(ix, slots) == KeysOf(ix, rest) + {ix.entries[x].key};
    }
  }
}
