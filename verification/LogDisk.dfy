/** The persistent log: a table of rows with growing ids, written in atomic batches and
    pruned by a retention sweep. Every method leaves each process's rows a suffix of the
    lines committed for it, so a sweep that fails half-way does too. */
module LogDisk {
  import opened Common
  import opened LogLines

  datatype Row = Row(id: nat, line: LogLine)

  datatype Policy = Policy(maxSizeBytes: nat, maxLinesPerProcess: nat)

  const RETENTION_CHUNK: nat := 1000

  /** The lines of one process, in row order. */
  function LinesOf(rows: seq<Row>, p: string): seq<LogLine> {
    if rows == [] then []
    else if rows[0].line.process == p then [rows[0].line] + LinesOf(rows[1..], p)
    else LinesOf(rows[1..], p)
  }

  lemma {:induction false} LinesOfConcat(a: seq<Row>, b: seq<Row>, p: string)
    ensures LinesOf(a + b, p) == LinesOf(a, p) + LinesOf(b, p)
  {
    if a == [] {
      assert a + b == b;
    } else {
      assert (a + b)[1..] == a[1..] + b;
      LinesOfConcat(a[1..], b, p);
      hide LinesOf;
    }
  }

  lemma LinesOfCons(row: Row, rows: seq<Row>, p: string)
    ensures LinesOf([row] + rows, p) ==
            if row.line.process == p then [row.line] + LinesOf(rows, p) else LinesOf(rows, p)
  {
    assert ([row] + rows)[1..] == rows;
  }

  lemma LinesOfDrop(rows: seq<Row>, n: nat, p: string)
    requires n <= |rows|
    ensures IsSuffix(LinesOf(rows[n..], p), LinesOf(rows, p))
  {
    assert rows == rows[..n] + rows[n..];
    LinesOfConcat(rows[..n], rows[n..], p);
  }

  /** The ids grow from row to row and stay below the next one. */
  ghost predicate IdsGrow(rows: seq<Row>, nextId: nat) {
    rows != [] ==>
      rows[0].id < nextId && (forall r :: r in rows[1..] ==> rows[0].id < r.id) && IdsGrow(rows[1..], nextId)
  }

  /** `DELETE ... WHERE process = p ORDER BY id LIMIT n` */
  function DropOldestOf(rows: seq<Row>, p: string, n: nat): seq<Row> {
    if rows == [] || n == 0 then rows
    else if rows[0].line.process == p then DropOldestOf(rows[1..], p, n - 1)
    else [rows[0]] + DropOldestOf(rows[1..], p, n)
  }

  lemma {:induction false} DropOldestOfLines(rows: seq<Row>, p: string, n: nat, q: string)
    ensures LinesOf(DropOldestOf(rows, p, n), q) == if q == p then Drop(LinesOf(rows, p), n) else LinesOf(rows, q)
  {
    hide Drop;
    if rows == [] || n == 0 {
      DropNone(LinesOf(rows, p), n);
    } else if rows[0].line.process == p {
      DropOldestOfLines(rows[1..], p, n - 1, q);
      DropFirst(rows[0].line, LinesOf(rows[1..], p), n);
    } else {
      DropOldestOfLines(rows[1..], p, n, q);
      assert LinesOf(rows, p) == LinesOf(rows[1..], p);
      assert ([rows[0]] + DropOldestOf(rows[1..], p, n))[1..] == DropOldestOf(rows[1..], p, n);
    }
  }

  lemma DropNone(s: seq<LogLine>, n: nat)
    ensures s == [] || n == 0 ==> Drop(s, n) == s
  {
  }

  lemma DropFirst(x: LogLine, s: seq<LogLine>, n: nat)
    requires n > 0
    ensures Drop([x] + s, n) == Drop(s, n - 1)
  {
  }

  /** What remains is in the table's order. */
  lemma {:induction false} DropOldestOfIds(rows: seq<Row>, p: string, n: nat, nextId: nat)
    requires IdsGrow(rows, nextId)
    ensures IdsGrow(DropOldestOf(rows, p, n), nextId)
    ensures forall r :: r in DropOldestOf(rows, p, n) ==> r in rows
  {
    if rows == [] || n == 0 {
    } else {
      var rest := DropOldestOf(rows[1..], p, n);
      DropOldestOfIds(rows[1..], p, if rows[0].line.process == p then n - 1 else n, nextId);
      assert ([rows[0]] + rest)[1..] == rest;
    }
  }

  /** How many of its `count` rows the per-process pass leaves a process, with the cast of
      the cap to a signed number and the subtraction of the two. */
  function Left(max: nat, count: nat): nat {
    var cap := AsI64(max);
    var excess := AsI64(count - cap);
    if count <= cap || excess <= 0 then count
    else if excess <= count then count - excess
    else 0
  }

  /** The cap is never exceeded. Whatever is within it is kept, unless the cap is too large
      for a signed number: then all rows go, while there are few of them. */
  lemma LeftWithinCap(max: nat, count: nat)
    requires Fits(count) && max < 0x1_0000_0000_0000_0000
    ensures Left(max, count) <= count && Left(max, count) <= max
    ensures Left(max, count) == (if count <= max then count else max) <==>
            Fits(max) || count == 0 || count >= max - 0x8000_0000_0000_0000
    ensures Left(max, count) == (if count <= max then count else max) || Left(max, count) == 0
  {
    CastOf(max);
    if Fits(max) && count > max {
      CastOf(count - max);
    } else if !Fits(max) {
      CastOf(count + 0x1_0000_0000_0000_0000 - max);
    }
  }

  lemma CastOf(n: nat)
    requires n < 0x1_0000_0000_0000_0000
    ensures AsI64(n) == if Fits(n) then n else n - 0x1_0000_0000_0000_0000
  {
  }

  /** The rows that stay when each process keeps its newest, as many as its quota: a row
      stays if, from it on, there are no more rows of its process than that. */
  function Survivors(rows: seq<Row>, quota: string -> nat): seq<Row> {
    if rows == [] then []
    else if |LinesOf(rows, rows[0].line.process)| <= quota(rows[0].line.process) then
      [rows[0]] + Survivors(rows[1..], quota)
    else Survivors(rows[1..], quota)
  }

  /** What the per-process pass leaves each process. */
  function Quota(rows: seq<Row>, max: nat): string -> nat {
    (p: string) => Left(max, |LinesOf(rows, p)|)
  }

  /** Each process keeps its newest lines, in their order. */
  lemma {:induction false} SurvivorsLines(rows: seq<Row>, quota: string -> nat, p: string)
    ensures LinesOf(Survivors(rows, quota), p) == Newest(LinesOf(rows, p), quota(p))
  {
    if rows == [] {
    } else {
      var head, rest := rows[0], Survivors(rows[1..], quota);
      SurvivorsLines(rows[1..], quota, p);
      LinesOfCons(head, rows[1..], p);
      LinesOfCons(head, rest, p);
      assert rows == [head] + rows[1..];
      NewestCons(head.line, LinesOf(rows[1..], p), quota(p));
      hide LinesOf, Newest;
    }
  }

  lemma NewestCons(x: LogLine, s: seq<LogLine>, n: nat)
    ensures Newest([x] + s, n) == if |s| + 1 <= n then [x] + s else Newest(s, n)
    ensures |s| <= n ==> Newest(s, n) == s
  {
  }

  /** Quotas that differ only beyond what there is make no difference. */
  lemma {:induction false} SurvivorsSame(rows: seq<Row>, quota: string -> nat, other: string -> nat)
    requires forall p :: quota(p) == other(p) || (quota(p) >= |LinesOf(rows, p)| && other(p) >= |LinesOf(rows, p)|)
    ensures Survivors(rows, quota) == Survivors(rows, other)
  {
    if rows == [] {
    } else {
      SurvivorsSame(rows[1..], quota, other);
    }
  }

  lemma {:induction false} SurvivorsAll(rows: seq<Row>, quota: string -> nat)
    requires forall p :: quota(p) >= |LinesOf(rows, p)|
    ensures Survivors(rows, quota) == rows
  {
    if rows == [] {
    } else {
      SurvivorsAll(rows[1..], quota);
      assert rows == [rows[0]] + rows[1..];
    }
  }

  /** Dropping the oldest rows of a process that still has all of its rows lowers its quota. */
  lemma {:induction false} DropSurvivors(rows: seq<Row>, quota: string -> nat, next: string -> nat, p: string, n: nat)
    requires quota(p) >= |LinesOf(rows, p)|
    requires next(p) == if n <= |LinesOf(rows, p)| then |LinesOf(rows, p)| - n else 0
    requires forall q :: q != p ==> next(q) == quota(q)
    ensures DropOldestOf(Survivors(rows, quota), p, n) == Survivors(rows, next)
  {
    if rows == [] {
    } else if n == 0 {
      SurvivorsSame(rows, quota, next);
    } else {
      var head, rest := rows[0], Survivors(rows[1..], quota);
      assert ([head] + rest)[1..] == rest;
      DropSurvivors(rows[1..], quota, next, p, if head.line.process == p then n - 1 else n);
    }
  }

  /** The oldest rows went in whole chunks, each because the size was still over budget,
      until it no longer was or nothing was left. */
  ghost predicate PrunedToSize(before: seq<Row>, after: seq<Row>, size: seq<Row> -> int, budget: int) {
    && (size(after) <= budget || after == [])
    && exists n :: after == Chunked(before, n) && OverUntil(before, n, size, budget)
  }

  ghost predicate OverUntil(rows: seq<Row>, n: nat, size: seq<Row> -> int, budget: int) {
    forall m: nat :: m < n ==> size(Chunked(rows, m)) > budget
  }

  /** The same, broken off after some chunks. */
  ghost predicate PrunedInPart(before: seq<Row>, after: seq<Row>, size: seq<Row> -> int, budget: int) {
    exists n :: after == Chunked(before, n) && OverUntil(before, n, size, budget)
  }

  /** The per-process pass, broken off after some of the processes over the cap. */
  ghost predicate CutInPart(before: seq<Row>, after: seq<Row>, max: nat) {
    exists cut :: cut <= OverCap(before, max) && CutDown(before, after, cut, max)
  }

  /** A whole sweep: the per-process pass, then the size pass, with their casts. */
  ghost predicate Swept(before: seq<Row>, after: seq<Row>, policy: Policy, size: seq<Row> -> int) {
    PrunedToSize(Survivors(before, Quota(before, policy.maxLinesPerProcess)), after, size, AsI64(policy.maxSizeBytes))
  }

  /** A sweep broken off in one of its passes. */
  ghost predicate SweptInPart(before: seq<Row>, after: seq<Row>, policy: Policy, size: seq<Row> -> int) {
    var max := policy.maxLinesPerProcess;
    || CutInPart(before, after, max)
    || PrunedInPart(Survivors(before, Quota(before, max)), after, size, AsI64(policy.maxSizeBytes))
  }

  function Chunked(rows: seq<Row>, n: nat): seq<Row> {
    if RETENTION_CHUNK * n <= |rows| then rows[RETENTION_CHUNK * n..] else []
  }

  /** The history of committed lines after one more batch. */
  function RecordedAll(history: Buffers, logs: seq<LogLine>): Buffers {
    if logs == [] then history
    else
      var n := |logs| - 1;
      var h := RecordedAll(history, logs[..n]);
      Recorded(h, logs[n])
  }

  lemma NothingRecorded(history: Buffers)
    ensures RecordedAll(history, []) == history
  {
  }

  lemma OneMoreRecorded(history: Buffers, logs: seq<LogLine>, i: nat)
    requires i < |logs|
    ensures RecordedAll(history, logs[..i + 1]) == Recorded(RecordedAll(history, logs[..i]), logs[i])
  {
    assert logs[..i + 1][..i] == logs[..i];
  }

  /** `after` is `before` followed by one row for each log line. */
  ghost predicate Inserted(before: seq<Row>, logs: seq<LogLine>, after: seq<Row>) {
    before <= after && |after| == |before| + |logs| &&
    forall i :: |before| <= i < |after| ==> after[i].line == logs[i - |before|]
  }

  lemma InsertedNone(rows: seq<Row>)
    ensures Inserted(rows, [], rows)
  {
  }

  lemma InsertedMore(before: seq<Row>, logs: seq<LogLine>, i: nat, after: seq<Row>, row: Row)
    requires i < |logs| && Inserted(before, logs[..i], after) && row.line == logs[i]
    ensures Inserted(before, logs[..i + 1], after + [row])
  {
  }

  ghost predicate KeepsSuffixes(rows: seq<Row>, history: Buffers) {
    forall p :: IsSuffix(LinesOf(rows, p), Lines(history, p))
  }

  /** The lines of each process that has any. */
  ghost function HistoryOf(rows: seq<Row>): Buffers {
    map p | p in (set r | r in rows :: r.line.process) :: LinesOf(rows, p)
  }

  lemma HistoryOfKeeps(rows: seq<Row>)
    ensures KeepsSuffixes(rows, HistoryOf(rows))
  {
    forall p ensures Lines(HistoryOf(rows), p) == LinesOf(rows, p) {
      if LinesOf(rows, p) != [] {
        var r := RowOf(rows, p);
      }
    }
  }

  class SqliteLog {
    var rows: seq<Row>
    var nextId: nat
    const policy: Option<Policy>
    ghost var history: Buffers  // lines committed for each process since its last clear

    ghost predicate Valid()
      reads this
    {
      IdsGrow(rows, nextId) && KeepsSuffixes(rows, history)
    }

    /** A table kept from earlier runs of the daemon; its rows are the history so far. */
    constructor Open(rows: seq<Row>, nextId: nat, policy: Option<Policy>)
      requires IdsGrow(rows, nextId)
      ensures Valid() && this.rows == rows && this.nextId == nextId && this.policy == policy
      ensures history == HistoryOf(rows)
    {
      this.policy := policy;
      this.rows, this.nextId, history := rows, nextId, HistoryOf(rows);
      HistoryOfKeeps(rows);
    }

    constructor (policy: Option<Policy>)
      ensures Valid() && rows == [] && history == map[] && this.policy == policy
    {
      this.policy := policy;
      rows, nextId, history := [], 0, map[];
    }

    /** One transaction. The statement numbered `failure`, if there is one, fails; the last
        number is the commit. Then nothing at all is written. */
    method PushBatch(logs: seq<LogLine>, failure: Option<nat>) returns (ok: bool)
      requires Valid()
      modifies this
      ensures Valid()
      ensures ok <==> logs == [] || failure.None? || failure.value > |logs|
      ensures !ok ==> rows == old(rows) && history == old(history)
      ensures ok ==> history == RecordedAll(old(history), logs)
      ensures ok ==> Inserted(old(rows), logs, rows)
    {
      hide IdsGrow, KeepsSuffixes, Recorded, Inserted;
      InsertedNone(rows);
      if logs == [] {
        return true;
      }
      var staged, id := rows, nextId;
      ghost var past := history;
      for i := 0 to |logs|
        invariant IdsGrow(staged, id) && past == RecordedAll(history, logs[..i])
        invariant KeepsSuffixes(staged, past) && Inserted(rows, logs[..i], staged)
        invariant failure.None? || failure.value >= i
        invariant rows == old(rows) && history == old(history) && nextId == old(nextId)
      {
        if failure == Some(i) {
          return false;
        }
        OneMoreRecorded(history, logs, i);
        InsertedRow(staged, past, Row(id, logs[i]));
        InsertedIds(staged, id, logs[i]);
        InsertedMore(rows, logs, i, staged, Row(id, logs[i]));
        staged := staged + [Row(id, logs[i])];
        past := Recorded(past, logs[i]);
        id := id + 1;
      }
      if failure == Some(|logs|) {
        return false;
      }
      assert logs[..|logs|] == logs;
      rows, nextId, history := staged, id, past;
      return true;
    }

    method Clear()
      requires Valid()
      modifies this
      ensures Valid() && rows == [] && history == map[]
    {
      rows, history := [], map[];
    }

    method ClearProcess(name: string)
      requires Valid()
      modifies this
      ensures Valid() && history == old(history) - {name}
      ensures rows == DropOldestOf(old(rows), name, |LinesOf(old(rows), name)|)
      ensures forall p :: LinesOf(rows, p) == if p == name then [] else LinesOf(old(rows), p)
    {
      hide IdsGrow;
      DropOldestOfIds(rows, name, |LinesOf(rows, name)|, nextId);
      ghost var n := |LinesOf(rows, name)|;
      forall p ensures LinesOf(DropOldestOf(rows, name, n), p) == if p == name then [] else LinesOf(rows, p) {
        DropOldestOfLines(rows, name, n, p);
      }
      forall p ensures p != name ==> Lines(history - {name}, p) == Lines(history, p) {
      }
      rows := DropOldestOf(rows, name, |LinesOf(rows, name)|);
      history := history - {name};
    }

    /** Deletes the `excess` oldest rows of one process, or as many as there are. */
    method DeleteExcess(process: string, excess: nat)
      requires Valid()
      modifies this`rows
      ensures Valid() && rows == DropOldestOf(old(rows), process, excess)
    {
      hide IdsGrow;
      DropOldestOfIds(rows, process, excess, nextId);
      DroppedKeeps(rows, process, excess, history);
      rows := DropOldestOf(rows, process, excess);
    }

    /** The processes over the cap are found first and cut one after the other. The statement
        numbered `failure`, if it is reached, fails and ends the pass; `run` of them did not. */
    method PrunePerProcess(max: nat, failure: Option<nat>) returns (ok: bool, run: nat)
      requires Valid()
      modifies this`rows
      ensures Valid() && (if ok then failure.None? || run <= failure.value else failure == Some(run))
      ensures ok ==> rows == Survivors(old(rows), Quota(old(rows), max))
      ensures !ok ==> CutInPart(old(rows), rows, max)
    {
      hide Valid, CutDown, OverCap, AsI64, LinesOf;
      ghost var before, cut := rows, {};
      run := 0;
      NothingCut(before, max);
      if failure == Some(run) {
        return false, run;
      }
      var over := OverCap(rows, max);
      run := run + 1;
      while over != {}
        invariant Valid() && CutDown(before, rows, cut, max)
        invariant over !! cut && over + cut == OverCap(before, max)
        invariant failure.None? || run <= failure.value
      {
        var process :| process in over;
        var excess := AsI64(|LinesOf(rows, process)| - AsI64(max));
        if excess > 0 {
          if failure == Some(run) {
            return false, run;
          }
          run := run + 1;
        }
        CutProcess(process, excess, max, before, cut);
        over, cut := over - {process}, cut + {process};
      }
      assert cut == OverCap(before, max);
      CutAll(before, rows, max);
      return true, run;
    }

    /** A process is over the cap by a signed number of rows, which may have wrapped. */
    method CutProcess(process: string, excess: int, max: nat, ghost before: seq<Row>, ghost cut: set<string>)
      requires excess == AsI64(|LinesOf(rows, process)| - AsI64(max))
      requires Valid() && CutDown(before, rows, cut, max) && process in OverCap(before, max) - cut
      modifies this`rows
      ensures Valid() && CutDown(before, rows, cut + {process}, max)
    {
      hide Valid, CutDown, LinesOf, OverCap, AsI64;
      CutOneMore(before, rows, cut, max, process);
      if excess > 0 {
        DeleteExcess(process, excess);
      }
    }

    /** Ends for any measure of size: every round deletes rows or stops. The statements count
        on from `first`; measuring is one, deleting another. */
    method PruneToSize(size: seq<Row> -> int, budget: int, failure: Option<nat>, first: nat) returns (ok: bool)
      requires Valid() && (failure.None? || first <= failure.value)
      modifies this`rows
      ensures Valid() && (failure.None? ==> ok)
      ensures ok ==> PrunedToSize(old(rows), rows, size, budget)
      ensures !ok ==> PrunedInPart(old(rows), rows, size, budget)
    {
      hide Chunked, OverUntil, IdsGrow, KeepsSuffixes;
      ghost var before, n := rows, 0;
      var run := first;
      NotYetPruned(before, size, budget);
      while true
        invariant Valid() && rows == Chunked(before, n) && OverUntil(before, n, size, budget)
        decreases |rows|
      {
        if failure == Some(run) {
          return false;
        }
        if size(rows) <= budget {
          return true;
        }
        if failure == Some(run + 1) {
          return false;
        }
        var deleted := if |rows| < RETENTION_CHUNK then |rows| else RETENTION_CHUNK;
        if deleted == 0 {
          return true;
        }
        ChunkedNext(before, n, size, budget);
        SuffixKeeps(rows, deleted, history, nextId);
        rows := rows[deleted..];
        n, run := n + 1, run + 2;
      }
    }

    /** Both passes, unless a statement fails. A table within both limits is left alone
        exactly when it is empty or the limits, as far as they matter to it, survive their
        casts. */
    method EnforceRetention(size: seq<Row> -> int, failure: Option<nat>) returns (ok: bool)
      requires Valid()
      modifies this`rows
      ensures Valid() && (policy.None? ==> rows == old(rows)) && (policy.None? || failure.None? ==> ok)
      ensures policy.Some? && ok ==> Swept(old(rows), rows, policy.value, size)
      ensures policy.Some? && !ok ==> SweptInPart(old(rows), rows, policy.value, size)
      ensures policy.Some? && ok && WithinLimits(old(rows), policy.value, size) ==>
                (rows == old(rows) <==> old(rows) == [] || LimitsHold(old(rows), policy.value))
    {
      hide Survivors, Quota, PrunedToSize, PrunedInPart, CutInPart, WithinLimits, LimitsHold;
      if policy.None? {
        return true;
      }
      var run;
      ok, run := PrunePerProcess(policy.value.maxLinesPerProcess, failure);
      if !ok {
        return;
      }
      ok := PruneToSize(size, AsI64(policy.value.maxSizeBytes), failure, run);
      if ok && WithinLimits(old(rows), policy.value, size) {
        LeftAlone(old(rows), rows, policy.value, size);
      }
    }
  }

  lemma LinesOfAppend(rows: seq<Row>, row: Row, p: string)
    ensures LinesOf(rows + [row], p) ==
            if p == row.line.process then LinesOf(rows, p) + [row.line] else LinesOf(rows, p)
  {
    LinesOfConcat(rows, [row], p);
    LinesOfCons(row, [], p);
    assert [row] + [] == [row];
  }

  lemma InsertedRow(rows: seq<Row>, history: Buffers, row: Row)
    requires KeepsSuffixes(rows, history)
    ensures KeepsSuffixes(rows + [row], Recorded(history, row.line))
  {
    hide IsSuffix, LinesOf;
    var p := row.line.process;
    forall q ensures IsSuffix(LinesOf(rows + [row], q), Lines(Recorded(history, row.line), q)) {
      LinesOfAppend(rows, row, q);
      assert IsSuffix(LinesOf(rows, q), Lines(history, q));
      if q == p {
        SuffixAppend(LinesOf(rows, p), Lines(history, p), row.line);
      }
    }
  }

  lemma {:induction false} InsertedIds(rows: seq<Row>, nextId: nat, line: LogLine)
    requires IdsGrow(rows, nextId)
    ensures IdsGrow(rows + [Row(nextId, line)], nextId + 1)
  {
    if rows == [] {
    } else {
      InsertedIds(rows[1..], nextId, line);
      assert (rows + [Row(nextId, line)])[1..] == rows[1..] + [Row(nextId, line)];
      IdsBelow(rows, nextId);
    }
  }

  lemma {:induction false} IdsBelow(rows: seq<Row>, nextId: nat)
    requires IdsGrow(rows, nextId)
    ensures forall r :: r in rows ==> r.id < nextId
  {
    if rows == [] {
    } else {
      IdsBelow(rows[1..], nextId);
      assert rows == [rows[0]] + rows[1..];
    }
  }

  lemma {:induction false} SuffixIds(rows: seq<Row>, n: nat, nextId: nat)
    requires IdsGrow(rows, nextId) && n <= |rows|
    ensures IdsGrow(rows[n..], nextId)
  {
    if n == 0 {
      assert rows[n..] == rows;
    } else {
      assert rows[n..] == rows[1..][n - 1..];
      SuffixIds(rows[1..], n - 1, nextId);
    }
  }

  /** The processes with more than `max` rows. */
  function OverCap(rows: seq<Row>, max: nat): set<string> {
    set r | r in rows && |LinesOf(rows, r.line.process)| > AsI64(max) :: r.line.process
  }

  lemma OverCapExact(rows: seq<Row>, max: nat)
    ensures forall p :: p in OverCap(rows, max) ==> |LinesOf(rows, p)| > AsI64(max)
    ensures forall p :: |LinesOf(rows, p)| > AsI64(max) && LinesOf(rows, p) != [] ==> p in OverCap(rows, max)
  {
    forall p | |LinesOf(rows, p)| > AsI64(max) && LinesOf(rows, p) != [] ensures p in OverCap(rows, max) {
      var r := RowOf(rows, p);
    }
  }

  lemma {:induction false} RowOf(rows: seq<Row>, p: string) returns (r: Row)
    requires LinesOf(rows, p) != []
    ensures r in rows && r.line.process == p
  {
    if rows[0].line.process == p {
      r := rows[0];
    } else {
      r := RowOf(rows[1..], p);
    }
  }

  lemma DroppedKeeps(rows: seq<Row>, p: string, n: nat, history: Buffers)
    requires KeepsSuffixes(rows, history)
    ensures KeepsSuffixes(DropOldestOf(rows, p, n), history)
  {
    hide LinesOf, DropOldestOf;
    forall q ensures IsSuffix(LinesOf(DropOldestOf(rows, p, n), q), Lines(history, q)) {
      DropOldestOfLines(rows, p, n, q);
      assert IsSuffix(LinesOf(rows, q), Lines(history, q));
      if q == p {
        SuffixTransitive(LinesOf(DropOldestOf(rows, p, n), p), LinesOf(rows, p), Lines(history, p));
      }
    }
  }

  /** The processes in `cut` have been cut to what the pass leaves them, the others not
      touched. */
  ghost predicate CutDown(before: seq<Row>, rows: seq<Row>, cut: set<string>, max: nat) {
    rows == Survivors(before, QuotaOf(before, cut, max))
  }

  ghost function QuotaOf(rows: seq<Row>, cut: set<string>, max: nat): string -> nat {
    (p: string) => if p in cut then Left(max, |LinesOf(rows, p)|) else |LinesOf(rows, p)|
  }

  lemma NothingCut(rows: seq<Row>, max: nat)
    ensures CutDown(rows, rows, {}, max)
  {
    SurvivorsAll(rows, QuotaOf(rows, {}, max));
  }

  lemma CutOneMore(before: seq<Row>, rows: seq<Row>, cut: set<string>, max: nat, p: string)
    requires CutDown(before, rows, cut, max) && p !in cut && p in OverCap(before, max)
    ensures var excess := AsI64(|LinesOf(rows, p)| - AsI64(max));
            CutDown(before, if excess > 0 then DropOldestOf(rows, p, excess) else rows, cut + {p}, max)
  {
    var quota, next := QuotaOf(before, cut, max), QuotaOf(before, cut + {p}, max);
    OverCapExact(before, max);
    SurvivorsLines(before, quota, p);
    hide LinesOf, DropOldestOf, AsI64, OverCap, Survivors;
    assert LinesOf(rows, p) == LinesOf(before, p);
    var excess := AsI64(|LinesOf(rows, p)| - AsI64(max));
    if excess > 0 {
      DropSurvivors(before, quota, next, p, excess);
    } else {
      SurvivorsSame(before, quota, next);
    }
  }

  lemma CutAll(before: seq<Row>, rows: seq<Row>, max: nat)
    requires CutDown(before, rows, OverCap(before, max), max)
    ensures rows == Survivors(before, Quota(before, max))
  {
    OverCapExact(before, max);
    var quota, next := QuotaOf(before, OverCap(before, max), max), Quota(before, max);
    hide LinesOf, AsI64, OverCap, Survivors;
    SurvivorsSame(before, quota, next);
  }

  lemma NotYetPruned(rows: seq<Row>, size: seq<Row> -> int, budget: int)
    ensures rows == Chunked(rows, 0) && OverUntil(rows, 0, size, budget)
  {
  }

  lemma ChunkedNext(rows: seq<Row>, n: nat, size: seq<Row> -> int, budget: int)
    requires OverUntil(rows, n, size, budget) && size(Chunked(rows, n)) > budget
    ensures var c := Chunked(rows, n);
            Chunked(rows, n + 1) == c[if |c| < RETENTION_CHUNK then |c| else RETENTION_CHUNK..]
    ensures OverUntil(rows, n + 1, size, budget)
  {
  }

  lemma SuffixKeeps(rows: seq<Row>, n: nat, history: Buffers, nextId: nat)
    requires KeepsSuffixes(rows, history) && IdsGrow(rows, nextId) && n <= |rows|
    ensures KeepsSuffixes(rows[n..], history) && IdsGrow(rows[n..], nextId)
  {
    SuffixIds(rows, n, nextId);
    hide IdsGrow;
    forall p ensures IsSuffix(LinesOf(rows[n..], p), Lines(history, p)) {
      LinesOfDrop(rows, n, p);
      assert IsSuffix(LinesOf(rows, p), Lines(history, p));
      SuffixTransitive(LinesOf(rows[n..], p), LinesOf(rows, p), Lines(history, p));
    }
  }

  predicate IsU64(n: nat) {
    n < 0x1_0000_0000_0000_0000
  }

  /** A sweep leaves each process a suffix of its rows, within the cap, and the table within
      the size budget or empty, whatever the casts do to the limits. */
  lemma SweptProcess(before: seq<Row>, after: seq<Row>, policy: Policy, size: seq<Row> -> int, p: string)
    requires Swept(before, after, policy, size) && Fits(|LinesOf(before, p)|)
    requires IsU64(policy.maxLinesPerProcess) && IsU64(policy.maxSizeBytes)
    ensures IsSuffix(LinesOf(after, p), LinesOf(before, p)) && |LinesOf(after, p)| <= policy.maxLinesPerProcess
    ensures size(after) <= policy.maxSizeBytes || after == []
  {
    var max := policy.maxLinesPerProcess;
    var mid := Survivors(before, Quota(before, max));
    LeftWithinCap(max, |LinesOf(before, p)|);
    CastOf(policy.maxSizeBytes);
    SurvivorsLines(before, Quota(before, max), p);
    hide LinesOf, Left, AsI64, Survivors;
    ChunkedLines(mid, after, size, AsI64(policy.maxSizeBytes), p);
    SuffixTransitive(LinesOf(after, p), LinesOf(mid, p), LinesOf(before, p));
  }

  /** A sweep that failed half-way, too, leaves each process a suffix of its rows. */
  lemma PartlySweptProcess(before: seq<Row>, after: seq<Row>, policy: Policy, size: seq<Row> -> int, p: string)
    requires SweptInPart(before, after, policy, size)
    ensures IsSuffix(LinesOf(after, p), LinesOf(before, p)) && |after| <= |before|
  {
    var max := policy.maxLinesPerProcess;
    hide LinesOf, Survivors, PrunedInPart, OverCap, Left, AsI64;
    if cut :| cut <= OverCap(before, max) && CutDown(before, after, cut, max) {
      SurvivorsLines(before, QuotaOf(before, cut, max), p);
      FewerSurvivors(before, QuotaOf(before, cut, max));
    } else {
      var mid := Survivors(before, Quota(before, max));
      SurvivorsLines(before, Quota(before, max), p);
      FewerSurvivors(before, Quota(before, max));
      ChunkedLines(mid, after, size, AsI64(policy.maxSizeBytes), p);
      SuffixTransitive(LinesOf(after, p), LinesOf(mid, p), LinesOf(before, p));
    }
  }

  /** The size pass deletes whole thousands of the oldest rows, or all. */
  lemma DeletesThousands(before: seq<Row>, after: seq<Row>, size: seq<Row> -> int, budget: int)
    requires PrunedToSize(before, after, size, budget) && after != []
    ensures exists n: nat :: 1000 * n <= |before| && after == before[1000 * n..]
    ensures after != before ==>
              exists n: nat :: 1000 * n + 1000 <= |before| && size(before[1000 * n..]) > budget &&
                               after == before[1000 * n + 1000..]
  {
    var n: nat :| after == Chunked(before, n) && OverUntil(before, n, size, budget);
    if n > 0 {
      var m: nat := n - 1;
      assert size(Chunked(before, m)) > budget && 1000 * m + 1000 == 1000 * n;
      assert 1000 * m + 1000 <= |before| && after == before[1000 * m + 1000..];
    }
  }

  lemma {:induction false} FewerSurvivors(rows: seq<Row>, quota: string -> nat)
    ensures |Survivors(rows, quota)| <= |rows|
  {
    if rows == [] {
    } else {
      FewerSurvivors(rows[1..], quota);
    }
  }

  lemma ChunkedLines(before: seq<Row>, after: seq<Row>, size: seq<Row> -> int, budget: int, p: string)
    requires PrunedInPart(before, after, size, budget)
    ensures IsSuffix(LinesOf(after, p), LinesOf(before, p)) && |after| <= |before|
  {
    var n: nat :| after == Chunked(before, n);
    if RETENTION_CHUNK * n <= |before| {
      LinesOfDrop(before, RETENTION_CHUNK * n, p);
    }
  }

  /** The size pass leaves a table within its budget alone exactly when the budget fits a
      signed number or there is nothing to delete. */
  lemma WithinBudgetKept(before: seq<Row>, after: seq<Row>, size: seq<Row> -> int, budget: nat)
    requires PrunedToSize(before, after, size, AsI64(budget)) && IsU64(budget) && 0 <= size(before) <= budget
    ensures after == before <==> Fits(budget) || before == []
  {
    CastOf(budget);
    var n: nat :| after == Chunked(before, n) && OverUntil(before, n, size, AsI64(budget));
    assert Chunked(before, 0) == before;
  }

  /** A budget that does not fit empties the table, whatever it holds. */
  lemma OversizedBudgetEmpties(before: seq<Row>, after: seq<Row>, size: seq<Row> -> int, budget: nat)
    requires PrunedToSize(before, after, size, AsI64(budget)) && IsU64(budget) && !Fits(budget)
    requires forall rows :: size(rows) >= 0
    ensures after == []
  {
    CastOf(budget);
  }

  ghost predicate WithinLimits(rows: seq<Row>, policy: Policy, size: seq<Row> -> int) {
    && IsU64(policy.maxLinesPerProcess) && IsU64(policy.maxSizeBytes)
    && 0 <= size(rows) <= policy.maxSizeBytes
    && forall p :: |LinesOf(rows, p)| <= policy.maxLinesPerProcess && Fits(|LinesOf(rows, p)|)
  }

  /** The size budget fits a signed number, and so does the cap, except for processes with
      so many rows that the subtraction wraps. */
  ghost predicate LimitsHold(rows: seq<Row>, policy: Policy) {
    && Fits(policy.maxSizeBytes)
    && forall p :: CapHolds(policy.maxLinesPerProcess, |LinesOf(rows, p)|)
  }

  predicate CapHolds(max: nat, count: nat) {
    Fits(max) || count == 0 || count >= max - 0x8000_0000_0000_0000
  }

  lemma LeftAlone(before: seq<Row>, after: seq<Row>, policy: Policy, size: seq<Row> -> int)
    requires Swept(before, after, policy, size) && WithinLimits(before, policy, size)
    ensures after == before <==> before == [] || LimitsHold(before, policy)
  {
    var max := policy.maxLinesPerProcess;
    var mid := Survivors(before, Quota(before, max));
    forall p ensures Left(max, |LinesOf(before, p)|) == |LinesOf(before, p)| <==> CapHolds(max, |LinesOf(before, p)|) {
      LeftWithinCap(max, |LinesOf(before, p)|);
    }
    hide LinesOf, Left, AsI64, PrunedToSize, Survivors, Fits;
    if p :| !CapHolds(max, |LinesOf(before, p)|) {
      LeftWithinCap(max, |LinesOf(before, p)|);
      SurvivorsLines(before, Quota(before, max), p);
      ChunkedLines(mid, after, size, AsI64(policy.maxSizeBytes), p);
    } else {
      SurvivorsAll(before, Quota(before, max));
      WithinBudgetKept(before, after, size, policy.maxSizeBytes);
    }
  }
}
