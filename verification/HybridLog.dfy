/** The log store with a persistent backend attached: the hot buffer always takes a batch,
    the table takes it in one transaction and is swept afterwards. */
module HybridLog {
  import opened Common
  import opened LogLines
  import opened LogDisk
  import LogBuffer

  class HybridLog {
    const hot: LogBuffer.LogStore
    const disk: SqliteLog

    ghost predicate Valid()
      reads this, hot, disk
    {
      hot.Valid() && disk.Valid()
    }

    /** Whatever the hot buffers have seen since they were last cleared the table has seen, too,
        and last. It may know older lines: those of earlier runs of the daemon, and those that
        a failed DELETE did not remove. */
    ghost predicate Synced()
      reads this, hot, disk
    {
      SuffixHistory(hot.history, disk.history)
    }

    /** The daemon starts with empty buffers and whatever the table holds. */
    constructor (hot: LogBuffer.LogStore, disk: SqliteLog)
      requires hot.Valid() && disk.Valid() && hot.history == map[]
      ensures this.hot == hot && this.disk == disk && Valid() && Synced()
    {
      this.hot, this.disk := hot, disk;
    }

    /** Whatever happens to the table, each hot buffer takes its lines of the batch, up to the
        cap, unless a memory limit makes it give up some.
        A failed transaction is reported, leaves the table as it was, and skips the sweep;
        the hot buffer keeps the batch. A committed one is swept at once. A sweep that fails
        is reported, too, with the batch in the table. */
    method PushBatch(logs: seq<LogLine>, failure: Option<nat>, size: seq<Row> -> int, sweepFailure: Option<nat>)
      returns (r: Result<(), LogError>)
      requires Valid()
      modifies hot`buffers, hot`estimatedMemory, hot`history, disk
      ensures Valid() && hot.history == RecordedAll(old(hot.history), logs)
      ensures hot.memoryLimit.None? ==> TookBatch(old(hot.buffers), logs, hot.maxLines, hot.buffers)
      ensures hot.memoryLimit.None? && old(hot.Full()) ==> hot.Full()
      ensures r == Err(Write) <==> logs != [] && failure.Some? && failure.value <= |logs|
      ensures r == Err(Retention) ==> disk.policy.Some? && sweepFailure.Some?
      ensures r == Err(Write) ==> disk.rows == old(disk.rows) && disk.history == old(disk.history)
      ensures r != Err(Write) ==> disk.history == RecordedAll(old(disk.history), logs) && (old(Synced()) ==> Synced())
      ensures r != Err(Write) ==>
                exists staged :: Inserted(old(disk.rows), logs, staged) &&
                                 if disk.policy.None? then disk.rows == staged
                                 else if r.Ok? then Swept(staged, disk.rows, disk.policy.value, size)
                                 else SweptInPart(staged, disk.rows, disk.policy.value, size)
    {
      hide Inserted, Swept, SweptInPart, RecordedAll, WithinLimits, LimitsHold, SuffixHistory, TookBatch;
      PushHot(logs);
      var committed := disk.PushBatch(logs, failure);
      if !committed {
        return Err(Write);
      }
      if SuffixHistory(old(hot.history), old(disk.history)) {
        RecordedOnBoth(old(hot.history), old(disk.history), logs);
      }
      ghost var staged := disk.rows;
      var swept := disk.EnforceRetention(size, sweepFailure);
      assert Inserted(old(disk.rows), logs, staged);
      return if swept then Ok(()) else Err(Retention);
    }

    method PushHot(logs: seq<LogLine>)
      requires Valid()
      modifies hot`buffers, hot`estimatedMemory, hot`history
      ensures hot.Valid() && hot.history == RecordedAll(old(hot.history), logs)
      ensures hot.memoryLimit.None? ==> TookBatch(old(hot.buffers), logs, hot.maxLines, hot.buffers)
      ensures hot.memoryLimit.None? && old(hot.Full()) ==> hot.Full()
    {
      hide RecordedAll, TookBatch, LogBuffer.Buffered, LogBuffer.IsFull, LogBuffer.EvictionPass,
           LogBuffer.Stores, LogBuffer.Pushed, TotalBytes;
      NothingRecorded(hot.history);
      NothingTaken(hot);
      for i := 0 to |logs|
        invariant hot.Valid() && hot.history == RecordedAll(old(hot.history), logs[..i])
        invariant hot.memoryLimit.None? ==> TookBatch(old(hot.buffers), logs[..i], hot.maxLines, hot.buffers)
        invariant hot.memoryLimit.None? && old(hot.Full()) ==> hot.Full()
      {
        OneMoreRecorded(old(hot.history), logs, i);
        ghost var now := hot.buffers;
        hot.PushInternal(logs[i]);
        if hot.memoryLimit.None? {
          OneMoreTaken(old(hot.buffers), logs, i, hot.maxLines, now, hot.buffers);
        }
      }
      assert logs[..|logs|] == logs;
    }

    /** The hot buffers are cleared first. If the table's DELETE then fails, the error is
        reported and the table keeps its rows. */
    method Clear(deleteFails: bool) returns (ok: bool)
      requires Valid()
      modifies hot`buffers, hot`estimatedMemory, hot`history, disk
      ensures Valid() && Synced() && ok == !deleteFails && hot.buffers == map[] && hot.history == map[]
      ensures if ok then disk.rows == [] && disk.history == map[]
              else disk.rows == old(disk.rows) && disk.history == old(disk.history)
    {
      hot.Clear();
      ok := !deleteFails;
      if ok {
        disk.Clear();
      }
    }

    /** One process is forgotten and no other touched, with the same failure. */
    method ClearProcess(name: string, deleteFails: bool) returns (ok: bool)
      requires Valid()
      modifies hot`buffers, hot`estimatedMemory, hot`history, disk
      ensures Valid() && ok == !deleteFails && (old(Synced()) ==> Synced())
      ensures hot.buffers == old(hot.buffers) - {name} && hot.history == old(hot.history) - {name}
      ensures ok ==> forall p :: LinesOf(disk.rows, p) == if p == name then [] else LinesOf(old(disk.rows), p)
      ensures !ok ==> disk.rows == old(disk.rows) && disk.history == old(disk.history)
    {
      ForgottenOnOne(hot.history, disk.history, name);
      hot.ClearProcess(name);
      ok := !deleteFails;
      if ok {
        disk.ClearProcess(name);
      }
    }

    /** As long as every batch has been committed, hot buffer and table hold, for each
        process, the newest lines of one history: one is a suffix of the other. */
    lemma HotAndDiskComparable(p: string)
      requires Valid() && Synced()
      ensures IsSuffix(Lines(hot.buffers, p), LinesOf(disk.rows, p)) ||
              IsSuffix(LinesOf(disk.rows, p), Lines(hot.buffers, p))
    {
      assert LogBuffer.Holds(p, Lines(hot.buffers, p), Lines(hot.history, p), hot.maxLines);
      assert IsSuffix(Lines(hot.history, p), Lines(disk.history, p));
      assert IsSuffix(LinesOf(disk.rows, p), Lines(disk.history, p));
      hide IsSuffix, Lines, LinesOf;
      SuffixTransitive(Lines(hot.buffers, p), Lines(hot.history, p), Lines(disk.history, p));
      SuffixesComparable(Lines(hot.buffers, p), LinesOf(disk.rows, p), Lines(disk.history, p));
    }
  }

  /** The lines of one process in a batch, in their order. */
  function LinesIn(logs: seq<LogLine>, p: string): (r: seq<LogLine>)
    ensures forall l :: l in r <==> l in logs && l.process == p
  {
    if logs == [] then []
    else
      var n := |logs| - 1;
      assert logs == logs[..n] + [logs[n]];
      LinesIn(logs[..n], p) + if logs[n].process == p then [logs[n]] else []
  }

  /** Each buffer has the newest of its old lines followed by those of the batch. */
  ghost predicate TookBatch(before: Buffers, logs: seq<LogLine>, maxLines: nat, after: Buffers) {
    forall p :: Took(Lines(before, p), LinesIn(logs, p), maxLines, Lines(after, p))
  }

  ghost predicate Took(past: seq<LogLine>, more: seq<LogLine>, maxLines: nat, now: seq<LogLine>) {
    var all := past + more;
    now == all[if |all| <= maxLines then 0 else |all| - maxLines..]
  }

  lemma NothingTaken(hot: LogBuffer.LogStore)
    requires hot.Valid()
    ensures TookBatch(hot.buffers, [], hot.maxLines, hot.buffers)
  {
    forall p ensures Took(Lines(hot.buffers, p), LinesIn([], p), hot.maxLines, Lines(hot.buffers, p)) {
      assert LogBuffer.Holds(p, Lines(hot.buffers, p), Lines(hot.history, p), hot.maxLines);
      hide IsSuffix, Lines;
    }
  }

  lemma StoredAt(now: Buffers, log: LogLine, maxLines: nat, stored: Buffers, p: string)
    requires LogBuffer.Stores(now, log, maxLines, stored)
    ensures var s := Lines(now, p);
            Lines(stored, p) ==
            if p == log.process then (s + [log])[if |s| + 1 <= maxLines then 0 else |s| + 1 - maxLines..] else s
  {
  }

  /** One more line of the batch is pushed. */
  lemma OneMoreTaken(before: Buffers, logs: seq<LogLine>, i: nat, maxLines: nat, now: Buffers, stored: Buffers)
    requires i < |logs| && TookBatch(before, logs[..i], maxLines, now)
    requires LogBuffer.Stores(now, logs[i], maxLines, stored)
    ensures TookBatch(before, logs[..i + 1], maxLines, stored)
  {
    hide Took, LinesIn, LogBuffer.Stores, Lines;
    forall p ensures Took(Lines(before, p), LinesIn(logs[..i + 1], p), maxLines, Lines(stored, p)) {
      assert Took(Lines(before, p), LinesIn(logs[..i], p), maxLines, Lines(now, p));
      LinesInMore(logs, i, p);
      StoredAt(now, logs[i], maxLines, stored, p);
      TookOneMore(Lines(before, p), LinesIn(logs[..i], p), maxLines, Lines(now, p), logs[i]);
    }
  }

  lemma LinesInMore(logs: seq<LogLine>, i: nat, p: string)
    requires i < |logs|
    ensures LinesIn(logs[..i + 1], p) ==
            if logs[i].process == p then LinesIn(logs[..i], p) + [logs[i]] else LinesIn(logs[..i], p)
  {
    assert logs[..i + 1][..i] == logs[..i];
  }

  lemma TookOneMore(before: seq<LogLine>, more: seq<LogLine>, maxLines: nat, now: seq<LogLine>, x: LogLine)
    requires Took(before, more, maxLines, now)
    ensures Took(before, more + [x], maxLines, (now + [x])[if |now| + 1 <= maxLines then 0 else |now| + 1 - maxLines..])
  {
    var all := before + more;
    assert before + (more + [x]) == all + [x];
  }

  datatype LogError = Write | Retention

  ghost predicate SuffixHistory(recent: Buffers, all: Buffers) {
    forall p :: IsSuffix(Lines(recent, p), Lines(all, p))
  }

  lemma RecordedOne(recent: Buffers, all: Buffers, log: LogLine)
    requires SuffixHistory(recent, all)
    ensures SuffixHistory(Recorded(recent, log), Recorded(all, log))
  {
    hide IsSuffix;
    forall p ensures IsSuffix(Lines(Recorded(recent, log), p), Lines(Recorded(all, log), p)) {
      assert IsSuffix(Lines(recent, p), Lines(all, p));
      SuffixAppend(Lines(recent, p), Lines(all, p), log);
    }
  }

  /** A batch recorded on both sides. */
  lemma {:induction false} RecordedOnBoth(recent: Buffers, all: Buffers, logs: seq<LogLine>)
    requires SuffixHistory(recent, all)
    ensures SuffixHistory(RecordedAll(recent, logs), RecordedAll(all, logs))
  {
    hide SuffixHistory;
    if logs == [] {
    } else {
      var init := logs[..|logs| - 1];
      RecordedOnBoth(recent, all, init);
      RecordedOne(RecordedAll(recent, init), RecordedAll(all, init), logs[|logs| - 1]);
    }
  }

  /** A process forgotten on the recent side, or on both. */
  lemma ForgottenOnOne(recent: Buffers, all: Buffers, name: string)
    ensures SuffixHistory(recent, all) ==>
              SuffixHistory(recent - {name}, all) && SuffixHistory(recent - {name}, all - {name})
  {
    hide IsSuffix;
    if SuffixHistory(recent, all) {
      forall p
        ensures IsSuffix(Lines(recent - {name}, p), Lines(all, p))
        ensures IsSuffix(Lines(recent - {name}, p), Lines(all - {name}, p))
      {
        assert IsSuffix(Lines(recent, p), Lines(all, p));
        NothingIsSuffix(Lines(all, p));
        NothingIsSuffix([]);
      }
    }
  }

  lemma NothingIsSuffix(s: seq<LogLine>)
    ensures IsSuffix([], s)
  {
  }
}
