/**
 Concurrent runs against the bounded map: whatever the interleaving, the calls of all programs, made
 one after the other on the map in the order of the history, give the same answers and contents.
 */
module ConcurrentReplay {
  import opened Results
  import opened SlotModel
  import opened IndexModel
  import opened TableModel
  import opened TableRefinement
  import opened TableProperties
  import opened Semaphores
  import opened ConcurrentModel
  import opened ConcurrentTable
  import opened ConcurrentProperties
  import opened ConcurrentCalls
  import opened ConcurrentKeys
  import opened ConcurrentHistory

  /** The call of an entry, as an operation on the map. */
  function OpOf<K, T>(x: LogEntry<K, T>): Op<K, T> {
    match x
    case Stored(_, _, record) => InsertOp(record)
    case Changed(_, _, key, f, _) => UpdateOp(key, f)
    case Unmet(_, op, _) => op
  }

  function OpsOf<K, T>(log: seq<LogEntry<K, T>>): (ops: seq<Op<K, T>>)
    ensures |ops| == |log|
  {
    seq(|log|, e requires 0 <= e < |log| => OpOf(log[e]))
  }

  ghost predicate Injective<K>(keys: map<nat, K>) {
    forall i, j | i in keys && j in keys && keys[i] == keys[j] :: i == j
  }

  /** The map has, under the key of each slot, the record that the history says, and nothing else. */
  ghost predicate Mirrors<K(!new), T>(w: World<K, T>, m: map<K, T>, keys: map<nat, K>, log: seq<LogEntry<K, T>>) {
    && m.Keys == keys.Values
    && forall i | i in keys :: keys[i] in m && Fold(w.initial, log, i) == Some(m[keys[i]])
  }

  function MapLimits<K, T>(w: World<K, T>): Limits {
    Limits(w.capacity, w.dataSize)
  }

  lemma {:induction false} MapRunAppend<K(!new), T(!new)>(
      env: Env<K, T>, limits: Limits, m: map<K, T>, ops: seq<Op<K, T>>, op: Op<K, T>)
    ensures var (before, replies) := MapRun(env, limits, m, ops);
            var (after, reply) := MapStep(env, limits, before, op);
            MapRun(env, limits, m, ops + [op]) == (after, replies + [reply])
    decreases |ops|
  {
    hide MapStep;
    if ops == [] {
      assert ops + [op] == [op] && [op][1..] == [];
      EmptyRun(env, limits, m);
      var (after, reply) := MapStep(env, limits, m, op);
      EmptyRun(env, limits, after);
      assert [reply] + [] == [] + [reply];
    } else {
      assert (ops + [op])[0] == ops[0] && (ops + [op])[1..] == ops[1..] + [op];
      var (next, first) := MapStep(env, limits, m, ops[0]);
      MapRunAppend(env, limits, next, ops[1..], op);
      var (before, replies) := MapRun(env, limits, next, ops[1..]);
      var reply := MapStep(env, limits, before, op).1;
      assert [first] + (replies + [reply]) == ([first] + replies) + [reply];
    }
  }

  lemma EmptyRun<K(!new), T(!new)>(env: Env<K, T>, limits: Limits, m: map<K, T>)
    ensures MapRun(env, limits, m, []) == (m, [])
  {
  }

  // ---------- One entry ----------

  /** The map answers an insertion by its keys alone, and changes only if it accepts. */
  lemma MapAnswersInsert<K(!new), T(!new)>(w: World<K, T>, m: map<K, T>, record: T)
    ensures var (after, reply) := MapStep(w.env, MapLimits(w), m, InsertOp(record));
            && reply == InsertAnswer(w, m.Keys, record)
            && after == if reply == Reply.Inserted then m[w.env.codec.key(record) := record] else m
  {
    hide TableLockWorks, Stripes;
    assert |m.Keys| == |m|;
  }

  lemma StoredReplays<K(!new), T(!new)>(
      w: World<K, T>, initial: map<nat, K>, m: map<K, T>, log: seq<LogEntry<K, T>>, x: LogEntry<K, T>)
    requires x.Stored? && EntryOk(w, initial, log, x)
    requires var keys := SlotKeys(w, initial, log); Mirrors(w, m, keys, log) && Injective(keys)
    ensures var (after, reply) := MapStep(w.env, MapLimits(w), m, OpOf(x));
            var keys' := SlotKeys(w, initial, log + [x]);
            Mirrors(w, after, keys', log + [x]) && Injective(keys') && AnswerOf(x) == Some(reply)
  {
    hide TableLockWorks, Fits, Fold, SlotKeys, MapStep, NoRoom, Injective;
    SlotKeysAppend(w, initial, log, x);
    MapAnswersInsert(w, m, x.record);
    StoredMirrors(w, m, SlotKeys(w, initial, log), log, x);
  }

  lemma StoredMirrors<K(!new), T(!new)>(
      w: World<K, T>, m: map<K, T>, keys: map<nat, K>, log: seq<LogEntry<K, T>>, x: LogEntry<K, T>)
    requires x.Stored? && x.slot !in keys && w.env.codec.key(x.record) !in keys.Values
    requires Mirrors(w, m, keys, log) && Injective(keys)
    ensures var key := w.env.codec.key(x.record);
            Mirrors(w, m[key := x.record], keys[x.slot := key], log + [x]) && Injective(keys[x.slot := key])
  {
    hide Fold;
    var slot, key := x.slot, w.env.codec.key(x.record);
    var keys', after := keys[slot := key], m[key := x.record];
    forall i | i in keys ensures keys[i] != key {
      assert keys[i] in keys.Values;
    }
    forall i | i in keys' ensures keys'[i] in after && Fold(w.initial, log + [x], i) == Some(after[keys'[i]]) {
      FoldAppend(w.initial, log, x, i);
    }
    ExtendedValues(keys, slot, key);
  }

  lemma ExtendedValues<K>(keys: map<nat, K>, slot: nat, key: K)
    requires slot !in keys
    ensures keys[slot := key].Values == keys.Values + {key}
  {
    var keys' := keys[slot := key];
    forall k ensures k in keys'.Values <==> k in keys.Values + {key} {
      if k in keys.Values {
        var i :| i in keys && keys[i] == k;
        assert keys'[i] == k;
      }
      if k == key {
        assert keys'[slot] == k;
      }
    }
  }

  lemma ChangedReplays<K(!new), T(!new)>(
      w: World<K, T>, initial: map<nat, K>, m: map<K, T>, log: seq<LogEntry<K, T>>, x: LogEntry<K, T>)
    requires x.Changed? && !x.status.Pending? && EntryOk(w, initial, log, x)
    requires var keys := SlotKeys(w, initial, log); Mirrors(w, m, keys, log) && Injective(keys)
    ensures var (after, reply) := MapStep(w.env, MapLimits(w), m, OpOf(x));
            var keys' := SlotKeys(w, initial, log + [x]);
            Mirrors(w, after, keys', log + [x]) && Injective(keys') && AnswerOf(x) == Some(reply)
  {
    hide Fold, SlotKeys;
    var keys := SlotKeys(w, initial, log);
    SlotKeysAppend(w, initial, log, x);
    var after := MapStep(w.env, MapLimits(w), m, OpOf(x)).0;
    assert after.Keys == m.Keys;
    forall i | i in keys ensures keys[i] in after && Fold(w.initial, log + [x], i) == Some(after[keys[i]]) {
      FoldAppend(w.initial, log, x, i);
      assert i != x.slot ==> keys[i] != keys[x.slot];
    }
  }

  lemma UnmetReplays<K(!new), T(!new)>(
      w: World<K, T>, initial: map<nat, K>, m: map<K, T>, log: seq<LogEntry<K, T>>, x: LogEntry<K, T>)
    requires x.Unmet? && EntryOk(w, initial, log, x)
    requires var keys := SlotKeys(w, initial, log); Mirrors(w, m, keys, log) && Injective(keys)
    ensures var (after, reply) := MapStep(w.env, MapLimits(w), m, OpOf(x));
            var keys' := SlotKeys(w, initial, log + [x]);
            Mirrors(w, after, keys', log + [x]) && Injective(keys') && AnswerOf(x) == Some(reply)
  {
    hide Fold, SlotKeys, InsertAnswer, MInsert;
    var keys := SlotKeys(w, initial, log);
    SlotKeysAppend(w, initial, log, x);
    if x.op.InsertOp? {
      MapAnswersInsert(w, m, x.op.record);
    }
    forall i | i in keys ensures Fold(w.initial, log + [x], i) == Fold(w.initial, log, i) {
      FoldAppend(w.initial, log, x, i);
    }
  }

  // ---------- Whole histories ----------

  ghost predicate NonePending<K, T>(log: seq<LogEntry<K, T>>) {
    forall e: nat :: !IsPending(log, e)
  }

  lemma PrefixOk<K(!new), T(!new)>(w: World<K, T>, initial: map<nat, K>, log: seq<LogEntry<K, T>>)
    requires log != [] && HistoryOk(w, initial, log) && NonePending(log)
    ensures var before, x := log[..|log| - 1], log[|log| - 1];
            && HistoryOk(w, initial, before) && NonePending(before)
            && EntryOk(w, initial, before, x) && (x.Changed? ==> !x.status.Pending?)
  {
    hide EntryOk;
    var before, x := log[..|log| - 1], log[|log| - 1];
    forall e | 0 <= e < |before| ensures EntryOk(w, initial, before[..e], before[e]) {
      assert before[..e] == log[..e] && before[e] == log[e];
    }
    forall e: nat ensures !IsPending(before, e) {
      assert !IsPending(log, e);
    }
    assert !IsPending(log, |log| - 1);
  }

  /** A sound and settled history, replayed on the map call by call. */
  lemma {:induction false} HistoryReplays<K(!new), T(!new)>(
      w: World<K, T>, initial: map<nat, K>, m: map<K, T>, log: seq<LogEntry<K, T>>)
    requires HistoryOk(w, initial, log) && NonePending(log)
    requires Injective(initial) && Mirrors(w, m, initial, [])
    ensures var (after, replies) := MapRun(w.env, MapLimits(w), m, OpsOf(log));
            && Mirrors(w, after, SlotKeys(w, initial, log), log) && Injective(SlotKeys(w, initial, log))
            && |replies| == |log| && forall e | 0 <= e < |log| :: AnswerOf(log[e]) == Some(replies[e])
    decreases |log|
  {
    hide HistoryOk, Mirrors, Injective, MapStep, MapRun, EntryOk, NonePending, OpsOf, AnswerOf;
    if log != [] {
      var n := |log| - 1;
      var before, x := log[..n], log[n];
      PrefixOk(w, initial, log);
      HistoryReplays(w, initial, m, before);
      var (middle, replies) := MapRun(w.env, MapLimits(w), m, OpsOf(before));
      assert log == before + [x];
      OpsAppend(before, x);
      MapRunAppend(w.env, MapLimits(w), m, OpsOf(before), OpOf(x));
      match x
      case Stored(_, _, _) => StoredReplays(w, initial, middle, before, x);
      case Changed(_, _, _, _, _) => ChangedReplays(w, initial, middle, before, x);
      case Unmet(_, _, _) => UnmetReplays(w, initial, middle, before, x);
    } else {
      assert OpsOf(log) == [];
      EmptyRun(w.env, MapLimits(w), m);
    }
  }

  lemma OpsAppend<K(!new), T(!new)>(log: seq<LogEntry<K, T>>, x: LogEntry<K, T>)
    ensures OpsOf(log + [x]) == OpsOf(log) + [OpOf(x)]
  {
  }

  // ---------- Whole runs ----------

  lemma HoldingIsTable<K(!new), T(!new)>(w: World<K, T>, mem: Memory<K>, arena: Arena)
    requires Holding(w, mem, arena) && UniqueKeys(mem.ix)
    ensures TableValid(w.env, TableState(arena, mem.ix))
  {
    hide Threads, Partition, IxValid;
  }

  lemma StartMirrors<K(!new), T(!new)>(w: World<K, T>, mem: Memory<K>, arena: Arena)
    requires Holding(w, mem, arena) && TableValid(w.env, TableState(arena, mem.ix))
    ensures Mirrors(w, Contents(w.env, TableState(arena, mem.ix)), KeysOfIndex(mem.ix), [])
    ensures Injective(KeysOfIndex(mem.ix))
  {
    hide Represents, Partition, IxValid, RecordFor;
    var t, keys := TableState(arena, mem.ix), KeysOfIndex(mem.ix);
    ValuesAreKeys(mem.ix);
    forall i | i in keys
      ensures keys[i] in Contents(w.env, t) && Fold<K, T>(w.initial, [], i) == Some(Contents(w.env, t)[keys[i]])
    {
      assert i in t.ix.entries.Keys && i in t.records.live.Keys;
      EntryHoldsContents(w.env, t, i);
    }
  }

  lemma StartHistory<K(!new), T(!new)>(w: World<K, T>, mem: Memory<K>, programs: seq<seq<Job<K, T>>>)
    ensures HistoryInv(w, KeysOfIndex(mem.ix), Start(w, mem, programs))
  {
  }

  /** With all jobs done no update is pending, and every program has made all its calls. */
  lemma EndHistory<K(!new), T(!new)>(
      w: World<K, T>, initial: map<nat, K>, programs: seq<seq<Job<K, T>>>, s: Config<K, T>)
    requires Inv(w, s) && HistoryInv(w, initial, s) && CallsInv(programs, s) && AllDone(s)
    ensures HistoryOk(w, initial, s.log) && NonePending(s.log)
    ensures SlotKeys(w, initial, s.log) == KeysOfIndex(s.mem.ix)
    ensures AllCallsMade(programs, s)
  {
    hide Frame, ListOk, Values, Place, HistoryOk, SlotKeys, Left;
    forall e: nat ensures !IsPending(s.log, e) {
      assert !Owned(s, e);
    }
    forall p | 0 <= p < |programs| ensures Left(programs[p], s.log, p) == Some(TallyOf(s.workers[p])) {
      assert Accounted(programs[p], s.log, s.lock.procs[p].pc, s.workers[p]);
    }
  }

  /**
   The entries of each process are its program's calls, in order, from the first to the last, and its
   calls have returned the answers that these entries make up: for an update, the count of the records
   changed.
   */
  ghost predicate AllCallsMade<K, T>(programs: seq<seq<Job<K, T>>>, s: Config<K, T>) {
    && |s.workers| == |programs|
    && (forall p | 0 <= p < |programs| ::
          s.workers[p].jobs == [] && Left(programs[p], s.log, p) == Some(TallyOf(s.workers[p])))
    && (forall e | 0 <= e < |s.log| :: s.log[e].p < |programs|)
  }

  /** A table whose entries hold the records of the history stands for the map that mirrors it. */
  lemma MirrorIsContents<K(!new), T(!new)>(w: World<K, T>, t: TableState<K>, m: map<K, T>, log: seq<LogEntry<K, T>>)
    requires TableValid(w.env, t) && Mirrors(w, m, KeysOfIndex(t.ix), log)
    requires forall i | i in t.ix.entries ::
               && t.ix.entries[i].key in Contents(w.env, t)
               && Fold(w.initial, log, i) == Some(Contents(w.env, t)[t.ix.entries[i].key])
    ensures Contents(w.env, t) == m
  {
    hide Fold, RecordFor, TableValid;
    var c, keys := Contents(w.env, t), KeysOfIndex(t.ix);
    ValuesAreKeys(t.ix);
    forall k | k in c ensures c[k] == m[k] {
      var i :| i in t.ix.entries && t.ix.entries[i].key == k;
      assert keys[i] == k;
    }
  }

  /**
   Concurrent runs refine the bounded map. Any number of processes insert records, no two of them
   under the same new key, and update any keys, in any interleaving. Once all have finished, the
   history has the calls of every program, each program's in its own order. Made one after the other
   on the map that the table stood for at the start, these calls give the answers that they gave, the
   records that closures met and the errors included, and the map that the table stands for at the end.
   */
  lemma ConcurrentRunRefinesMap<K(!new), T(!new)>(
      w: World<K, T>, mem: Memory<K>, arena: Arena, programs: seq<seq<Job<K, T>>>,
      trace: seq<Config<K, T>>, who: seq<nat>)
    requires Sound(w.env.codec) && Holding(w, mem, arena)
    requires UniqueKeys(mem.ix) && NoRace(w, mem.ix, programs)
    requires Interleaving(w, trace, who) && trace[0] == Start(w, mem, programs)
    requires AllDone(trace[|who|])
    ensures var last := trace[|who|];
            var before, after := TableState(arena, mem.ix), TableState(SettledArena(w, last.mem), last.mem.ix);
            && TableValid(w.env, before) && TableValid(w.env, after)
            && AllCallsMade(programs, last)
            && var (m, replies) := MapRun(w.env, MapLimits(w), Contents(w.env, before), OpsOf(last.log));
               && Contents(w.env, after) == m
               && |replies| == |last.log| && forall e | 0 <= e < |last.log| :: AnswerOf(last.log[e]) == Some(replies[e])
  {
    hide Inv, HistoryInv, KeysInv, CallsInv, Holding, WorkStep, Fold, Represents, TableValid, UniqueKeys, Mirrors,
         Injective, HistoryOk, SlotKeys, MapRun, Contents, SettledArena, NoRace, Start, NonePending, OpsOf, AnswerOf,
         AllCallsMade, AllDone;
    var initial, last := KeysOfIndex(mem.ix), trace[|who|];
    StartInv(w, mem, arena, programs);
    StartKeys(w, mem, programs);
    StartCalls(w, mem, programs);
    StartHistory(w, mem, programs);
    HoldingIsTable(w, mem, arena);
    StartMirrors(w, mem, arena);
    RunKeepsCalls(w, programs, trace, who);
    RunKeepsHistory(w, initial, KeySet(mem.ix), trace, who);
    FinishedRunIsTable(w, mem, arena, programs, trace, who);
    var after := TableState(SettledArena(w, last.mem), last.mem.ix);
    TableDecodes(w.env, after);
    EndHistory(w, initial, programs, last);
    var m0 := Contents(w.env, TableState(arena, mem.ix));
    HistoryReplays(w, initial, m0, last.log);
    MirrorIsContents(w, after, MapRun(w.env, MapLimits(w), m0, OpsOf(last.log)).0, last.log);
  }
}
