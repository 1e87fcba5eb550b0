/**
 What the calls of a process return, and on which keys they are made, in terms of its entries in the
 history: each call by itself, and a program as its calls one after the other.
 */
module ConcurrentAnswers {
  import opened Results
  import opened TableRefinement
  import opened ConcurrentModel
  import opened ConcurrentCalls

  // ---------- One call ----------

  predicate IsApplied<K, T>(x: LogEntry<K, T>, p: nat) {
    x.p == p && x.Changed? && x.status.Applied?
  }

  function AppliedBy<K, T>(log: seq<LogEntry<K, T>>, p: nat): nat
    decreases |log|
  {
    if log == [] then 0
    else
      var n := |log| - 1;
      AppliedBy(log[..n], p) + if IsApplied(log[n], p) then 1 else 0
  }

  lemma {:induction false} AppliedByIs<K, T>(log: seq<LogEntry<K, T>>, p: nat)
    ensures AppliedBy(log, p) == |set e: nat | e < |log| && IsApplied(log[e], p)|
    ensures forall e: nat | e < |log| ::
      IsApplied(log[e], p) <==> log[e].p == p && log[e].Changed? && log[e].status.Applied?
    decreases |log|
  {
    if log != [] {
      var n := |log| - 1;
      AppliedByIs(log[..n], p);
      var before := set e: nat | e < |log[..n]| && IsApplied(log[..n][e], p);
      var all := set e: nat | e < |log| && IsApplied(log[e], p);
      assert all == before + if IsApplied(log[n], p) then {n} else {};
    }
  }

  lemma NextOfOne<K, T>(t: Tally<K, T>)
    requires |t.jobs| == 1 && t.jobs[0].UpdateJob? && t.answers == []
    ensures Next(t) == if t.jobs[0].keys == [] then Tally([], 0, [Reply.Counted(t.found)]) else t
  {
    if t.jobs[0].keys == [] {
      assert Return(t, Reply.Counted(t.found)) == Tally([], 0, [Reply.Counted(t.found)]);
    }
  }

  /** The last entry of the process is an update rejected with this error. */
  ghost predicate EndsRejected<K, T>(log: seq<LogEntry<K, T>>, p: nat, e: nat, error: Error) {
    && e < |log| && LastBy(log, p, e) && log[e].p == p
    && log[e].Changed? && log[e].status == Rejected(error)
  }

  /** An update returns the number of its applied entries in the history, or the error of its last entry. */
  lemma {:induction false} UpdateReturnsCount<K, T>(keys: seq<K>, f: T -> T, log: seq<LogEntry<K, T>>, p: nat)
    requires Left([UpdateJob(keys, f)], log, p).Some?
    ensures var t := Left([UpdateJob(keys, f)], log, p).value;
            if t.jobs != [] then
              |t.jobs| == 1 && t.jobs[0].UpdateJob? && t.answers == [] && t.found == AppliedBy(log, p)
            else
              || t.answers == [Reply.Counted(AppliedBy(log, p))]
              || exists e, error :: EndsRejected(log, p, e, error) && t.answers == [Refused(error)]
    decreases |log|
  {
    var jobs := [UpdateJob(keys, f)];
    if log == [] {
      NextOfOne(Tally(jobs, 0, []));
    } else {
      var n := |log| - 1;
      UpdateReturnsCount(keys, f, log[..n], p);
      var t, x := Left(jobs, log[..n], p).value, log[n];
      if x.p != p {
        if e, error :| EndsRejected(log[..n], p, e, error) && t.answers == [Refused(error)] {
          assert EndsRejected(log, p, e, error);
        }
      } else {
        UpdateEntryReturns(t, x);
        if x.Changed? && x.status.Rejected? {
          assert EndsRejected(log, p, n, x.status.error);
        }
      }
    }
  }

  /** One more entry of the only job, an update. */
  lemma UpdateEntryReturns<K, T>(t: Tally<K, T>, x: LogEntry<K, T>)
    requires Make(t, x).Some? && |t.jobs| == 1 && t.jobs[0].UpdateJob? && t.answers == []
    ensures var t', applied := Make(t, x).value, if x.Changed? && x.status.Applied? then 1 else 0;
            if x.Changed? && x.status.Rejected? then t' == Tally([], 0, [Refused(x.status.error)])
            else if t'.jobs == [] then t'.answers == [Reply.Counted(t.found + applied)]
            else |t'.jobs| == 1 && t'.jobs[0].UpdateJob? && t'.answers == [] && t'.found == t.found + applied
  {
    assert t.jobs[1..] == [];
    NextOfOne(PassKey(t, true));
    NextOfOne(PassKey(t, false));
  }

  /** How many entries of the history are the process's. */
  ghost function EntriesOf<K, T>(log: seq<LogEntry<K, T>>, p: nat): nat {
    |set e: nat | e < |log| && log[e].p == p|
  }

  lemma EntriesAppend<K, T>(log: seq<LogEntry<K, T>>, x: LogEntry<K, T>, p: nat)
    ensures EntriesOf(log + [x], p) == EntriesOf(log, p) + if x.p == p then 1 else 0
  {
    var before := set e: nat | e < |log| && log[e].p == p;
    var after := set e: nat | e < |log + [x]| && (log + [x])[e].p == p;
    assert after == before + if x.p == p then {|log|} else {};
  }

  /** The update of a key, or the finding that the key is absent. */
  ghost predicate IsCallOn<K, T>(x: LogEntry<K, T>, key: K, f: T -> T) {
    if x.Changed? then x.key == key && x.f == f else x == Unmet(x.p, UpdateOp(key, f), Reply.Updated(None))
  }

  /** An update makes one call for each key, from the first key on. */
  lemma {:induction false} UpdateTakesKeysInOrder<K, T>(keys: seq<K>, f: T -> T, log: seq<LogEntry<K, T>>, p: nat)
    requires Left([UpdateJob(keys, f)], log, p).Some?
    requires forall e | 0 <= e < |log| && log[e].p == p && log[e].Changed? :: !log[e].status.Pending?
    ensures var t, made := Left([UpdateJob(keys, f)], log, p).value, EntriesOf(log, p);
            && made <= |keys|
            && (t.jobs != [] ==> made < |keys| && t.jobs == [UpdateJob(keys[made..], f)] && t.answers == [])
    ensures forall e | 0 <= e < |log| && log[e].p == p ::
              EntriesOf(log[..e], p) < |keys| && IsCallOn(log[e], keys[EntriesOf(log[..e], p)], f)
    decreases |log|
  {
    if log == [] {
      NextOfOne(Tally([UpdateJob(keys, f)], 0, []));
    } else {
      var n := |log| - 1;
      assert log == log[..n] + [log[n]];
      EntriesAppend(log[..n], log[n], p);
      UpdateTakesKeysInOrder(keys, f, log[..n], p);
      var t := Left([UpdateJob(keys, f)], log[..n], p).value;
      forall e | 0 <= e < n && log[e].p == p
        ensures EntriesOf(log[..e], p) < |keys| && IsCallOn(log[e], keys[EntriesOf(log[..e], p)], f)
      {
        assert log[..n][..e] == log[..e] && log[..n][e] == log[e];
      }
      if log[n].p == p {
        NextOfOne(PassKey(t, true));
        NextOfOne(PassKey(t, false));
      }
    }
  }

  /** The entry is the call of an insertion that gave the answer. */
  ghost predicate Inserts<K, T>(x: LogEntry<K, T>, record: T, answer: Reply<T>) {
    if x.Stored? then x.record == record && answer == Reply.Inserted
    else x == Unmet(x.p, InsertOp(record), answer)
  }

  /** An insertion returns the answer of its entry. */
  lemma {:induction false} InsertReturnsAnswer<K, T>(record: T, log: seq<LogEntry<K, T>>, p: nat)
    requires Left([InsertJob(record)], log, p).Some?
    ensures var t := Left([InsertJob(record)], log, p).value;
            || t == Tally([InsertJob(record)], 0, [])
            || (t.jobs == [] && |t.answers| == 1
                && exists e :: 0 <= e < |log| && log[e].p == p && Inserts(log[e], record, t.answers[0]))
    decreases |log|
  {
    if log != [] {
      var n, jobs := |log| - 1, [InsertJob(record)];
      InsertReturnsAnswer(record, log[..n], p);
      var t := Left(jobs, log[..n], p).value;
      if log[n].p == p {
        assert t.jobs[1..] == [];
        assert Next(Return(t, AnswerOf(log[n]).value)) == Tally([], 0, [AnswerOf(log[n]).value]);
        assert Inserts(log[n], record, AnswerOf(log[n]).value);
      } else if t.jobs == [] {
        var e :| 0 <= e < n && log[..n][e].p == p && Inserts(log[..n][e], record, t.answers[0]);
        assert log[e] == log[..n][e];
      }
    }
  }

  // ---------- A program call by call ----------

  /** The answers so far follow earlier ones. */
  function Following<K, T>(before: seq<Reply<T>>, t: Tally<K, T>): Tally<K, T> {
    t.(answers := before + t.answers)
  }

  lemma {:induction false} NextFollows<K, T>(before: seq<Reply<T>>, t: Tally<K, T>)
    ensures Next(Following(before, t)) == Following(before, Next(t))
    decreases |t.jobs|
  {
    if t.jobs != [] && t.jobs[0].UpdateJob? && t.jobs[0].keys == [] {
      ReturnFollows(before, t, Reply.Counted(t.found));
      NextFollows(before, Return(t, Reply.Counted(t.found)));
    }
  }

  lemma ReturnFollows<K, T>(before: seq<Reply<T>>, t: Tally<K, T>, answer: Reply<T>)
    requires t.jobs != []
    ensures Return(Following(before, t), answer) == Following(before, Return(t, answer))
  {
    assert before + t.answers + [answer] == before + (t.answers + [answer]);
  }

  lemma MakeFollows<K, T>(before: seq<Reply<T>>, t: Tally<K, T>, x: LogEntry<K, T>)
    requires Make(t, x).Some?
    ensures Make(Following(before, t), x) == Some(Following(before, Make(t, x).value))
  {
    hide Next;
    if AnswerOf(x).Some? {
      ReturnFollows(before, t, AnswerOf(x).value);
      NextFollows(before, Return(t, AnswerOf(x).value));
    }
    if t.jobs[0].UpdateJob? {
      NextFollows(before, PassKey(t, true));
      NextFollows(before, PassKey(t, false));
    }
  }

  /** The first call of the program returned by moment `n`, and from there on the rest of it ran on its own. */
  ghost predicate SplitsAt<K, T>(
      job: Job<K, T>, rest: seq<Job<K, T>>, log: seq<LogEntry<K, T>>, p: nat, n: nat, t: Tally<K, T>)
  {
    && n <= |log| && t.answers != []
    && Left([job], log[..n], p) == Some(Tally([], 0, [t.answers[0]]))
    && Left(rest, log[n..], p) == Some(t.(answers := t.answers[1..]))
  }

  /** The first call of the program has not returned; the rest of it has not begun. */
  ghost predicate UnderWay<K, T>(
      job: Job<K, T>, rest: seq<Job<K, T>>, log: seq<LogEntry<K, T>>, p: nat, t: Tally<K, T>)
  {
    && t.answers == [] && t.jobs != [] && t.jobs[1..] == rest
    && Left([job], log, p) == Some(Tally([t.jobs[0]], t.found, []))
  }

  /** A program is its calls one after the other: each starts from nothing and answers as if it were alone. */
  lemma {:induction false} ProgramSplits<K, T>(
      job: Job<K, T>, rest: seq<Job<K, T>>, log: seq<LogEntry<K, T>>, p: nat)
    requires Left([job] + rest, log, p).Some?
    ensures var t := Left([job] + rest, log, p).value;
            UnderWay(job, rest, log, p, t) || exists n :: SplitsAt(job, rest, log, p, n, t)
    decreases |log|
  {
    hide Make, Left;
    if log == [] {
      StartSplits(job, rest, p);
    } else {
      var n := |log| - 1;
      assert log == log[..n] + [log[n]];
      LeftAppend([job] + rest, log[..n], log[n], p);
      LeftAppend([job], log[..n], log[n], p);
      ProgramSplits(job, rest, log[..n], p);
      var t := Left([job] + rest, log[..n], p).value;
      if UnderWay(job, rest, log[..n], p, t) {
        if log[n].p == p {
          EntrySplits(job, rest, log, p, t);
        }
      } else {
        var k :| SplitsAt(job, rest, log[..n], p, k, t);
        LaterSplits(job, rest, log, p, k, t);
      }
    }
  }

  lemma StartSplits<K, T>(job: Job<K, T>, rest: seq<Job<K, T>>, p: nat)
    ensures Left([job] + rest, [], p).Some?
    ensures var t := Left([job] + rest, [], p).value;
            UnderWay(job, rest, [], p, t) || SplitsAt(job, rest, [], p, 0, t)
  {
    var start := Tally([job] + rest, 0, []);
    assert start.jobs[1..] == rest;
    if job.UpdateJob? && job.keys == [] {
      NextFollows([Reply.Counted(0)], Tally(rest, 0, []));
      assert Return(start, Reply.Counted(0)) == Following([Reply.Counted(0)], Tally(rest, 0, []));
      NextOfOne(Tally([job], 0, []));
    }
  }

  /** One more entry, of the first call. */
  lemma EntrySplits<K, T>(
      job: Job<K, T>, rest: seq<Job<K, T>>, log: seq<LogEntry<K, T>>, p: nat, t: Tally<K, T>)
    requires log != [] && log[|log| - 1].p == p
    requires UnderWay(job, rest, log[..|log| - 1], p, t) && Make(t, log[|log| - 1]).Some?
    requires Left([job], log, p) == Make(Tally([t.jobs[0]], t.found, []), log[|log| - 1])
    ensures var t' := Make(t, log[|log| - 1]).value;
            UnderWay(job, rest, log, p, t') || SplitsAt(job, rest, log, p, |log|, t')
  {
    var x, one := log[|log| - 1], Tally([t.jobs[0]], t.found, []);
    assert one.jobs[1..] == [] && t.jobs == [t.jobs[0]] + rest;
    assert log[..|log|] == log && log[|log|..] == [];
    if AnswerOf(x).Some? {
      NextFollows([AnswerOf(x).value], Tally(rest, 0, []));
      assert Return(t, AnswerOf(x).value) == Following([AnswerOf(x).value], Tally(rest, 0, []));
      assert Next(Return(one, AnswerOf(x).value)) == Tally([], 0, [AnswerOf(x).value]);
    }
    if t.jobs[0].UpdateJob? {
      PassSplits(t, one, rest, true);
      PassSplits(t, one, rest, false);
    }
  }

  lemma PassSplits<K, T>(t: Tally<K, T>, one: Tally<K, T>, rest: seq<Job<K, T>>, present: bool)
    requires t.jobs != [] && t.jobs[1..] == rest && t.answers == [] && one == Tally([t.jobs[0]], t.found, [])
    requires t.jobs[0].UpdateJob? && t.jobs[0].keys != []
    ensures var t', one' := PassKey(t, present), PassKey(one, present);
            if t'.jobs[0].keys != [] then
              Next(t') == t' && Next(one') == one' && t'.jobs[1..] == rest && one' == Tally([t'.jobs[0]], t'.found, [])
            else
              && Next(one') == Tally([], 0, [Reply.Counted(t'.found)])
              && Next(t') == Following([Reply.Counted(t'.found)], Next(Tally(rest, 0, [])))
  {
    var t', one' := PassKey(t, present), PassKey(one, present);
    assert t'.jobs[1..] == rest && one'.jobs[1..] == [];
    NextOfOne(one');
    if t'.jobs[0].keys == [] {
      NextFollows([Reply.Counted(t'.found)], Tally(rest, 0, []));
      assert Return(t', Reply.Counted(t'.found)) == Following([Reply.Counted(t'.found)], Tally(rest, 0, []));
    }
  }

  /** One more entry, after the first call. */
  lemma LaterSplits<K, T>(
      job: Job<K, T>, rest: seq<Job<K, T>>, log: seq<LogEntry<K, T>>, p: nat, k: nat, t: Tally<K, T>)
    requires log != [] && SplitsAt(job, rest, log[..|log| - 1], p, k, t)
    requires log[|log| - 1].p == p ==> Make(t, log[|log| - 1]).Some?
    ensures SplitsAt(job, rest, log, p, k, if log[|log| - 1].p == p then Make(t, log[|log| - 1]).value else t)
  {
    hide Make, Next, Left;
    var n, x, first := |log| - 1, log[|log| - 1], [t.answers[0]];
    var later := t.(answers := t.answers[1..]);
    assert log[..k] == log[..n][..k] && log[k..] == log[..n][k..] + [x];
    LeftAppend(rest, log[..n][k..], x, p);
    assert t == Following(first, later);
    if x.p == p {
      MakeAlso(first, later, x);
      MakeFollows(first, later, x);
      var next := Make(later, x).value;
      assert Following(first, next).answers[1..] == next.answers;
    }
  }

  /** Whether an entry is the next call does not depend on earlier answers. */
  lemma MakeAlso<K, T>(before: seq<Reply<T>>, t: Tally<K, T>, x: LogEntry<K, T>)
    ensures Make(t, x).Some? <==> Make(Following(before, t), x).Some?
  {
    hide Next;
  }
}
