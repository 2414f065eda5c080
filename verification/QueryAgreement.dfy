/** When the in-memory and the persistent log answer a query alike. */
module QueryAgreement {
  import opened Common
  import opened LogLines
  import opened LogSort
  import opened LogDisk
  import opened LogQuery

  /** Neither side has dropped a line the other still has. */
  ghost predicate SameLines(b: Buffers, rows: seq<Row>) {
    forall p :: Lines(b, p) == LinesOf(rows, p)
  }

  /** The two stores hold the same lines, logged at times a signed number can hold. */
  ghost predicate Alike(fold: Fold, b: Buffers, rows: seq<Row>, nextId: nat) {
    && FoldsAscii(fold) && SameLines(b, rows)
    && IdsGrow(rows, nextId) && Fits(|rows|) && forall r :: r in rows ==> Fits(r.line.timestamp)
  }

  /** A request as it arrives: a search is for ASCII text in ASCII text, and the bounds on
      time are unsigned 64-bit numbers. */
  ghost predicate Request(rows: seq<Row>, q: Query) {
    && (q.search.Some? ==> Ascii(q.search.value) && forall r :: r in rows ==> Ascii(r.line.content))
    && (q.since.Some? ==> IsU64(q.since.value)) && (q.until.Some? ==> IsU64(q.until.value))
  }

  predicate SinceFits(q: Query) {
    q.since.Some? ==> Fits(q.since.value)
  }

  predicate UntilFits(q: Query) {
    q.until.Some? ==> Fits(q.until.value)
  }

  predicate BoundsFit(q: Query) {
    SinceFits(q) && UntilFits(q)
  }

  /** The query without a bound that does not fit a signed number. */
  function WithoutHuge(q: Query): Query {
    q.(since := if SinceFits(q) then q.since else None, until := if UntilFits(q) then q.until else None)
  }

  /** What the WHERE clause asks of a line. */
  function Wanted(fold: Fold, q: Query): LogLine -> bool {
    (l: LogLine) => (IsAllProcesses(q) || l.process == q.process.value) && Matches(fold, q, l)
  }

  function Of(p: string): LogLine -> bool {
    (l: LogLine) => l.process == p
  }

  // -------------------------------------------------------------------------
  // The SELECT, in terms of lines

  lemma SqlMatchesLine(fold: Fold, q: Query, rows: seq<Row>, r: Row)
    requires FoldsAscii(fold) && Request(rows, q) && BoundsFit(q) && r in rows && Fits(r.line.timestamp)
    ensures SqlMatches(q, r) <==> Wanted(fold, q)(r.line)
  {
    CastOf(r.line.timestamp);
    CastOf(q.since.GetOr(0));
    CastOf(q.until.GetOr(0));
    hide AsI64, Lower;
    if q.search.Some? {
      Strings.FindNone(Lower(r.line.content), Lower(q.search.value));
    }
  }

  lemma {:induction false} WhereLines(fold: Fold, q: Query, rows: seq<Row>)
    requires FoldsAscii(fold) && Request(rows, q) && BoundsFit(q)
    requires forall r :: r in rows ==> Fits(r.line.timestamp)
    ensures RowLines(Where(q, rows)) == Filter(Wanted(fold, q), RowLines(rows))
  {
    if rows == [] {
    } else {
      SqlMatchesLine(fold, q, rows, rows[0]);
      assert forall r :: r in rows[1..] ==> r in rows;
      WhereLines(fold, q, rows[1..]);
      hide SqlMatches, Wanted, FoldsAscii;
    }
  }

  lemma {:induction false} WhereIds(q: Query, rows: seq<Row>, nextId: nat)
    requires IdsGrow(rows, nextId)
    ensures IdsGrow(Where(q, rows), nextId)
  {
    hide SqlMatches;
    if rows == [] {
    } else {
      var rest := Where(q, rows[1..]);
      WhereIds(q, rows[1..], nextId);
      assert ([rows[0]] + rest)[1..] == rest;
    }
  }

  lemma {:induction false} InsertRowLines(x: Row, s: seq<Row>)
    requires Fits(x.line.timestamp) && forall r :: r in s ==> Fits(r.line.timestamp) && x.id < r.id
    ensures RowLines(InsertRow(x, s)) == InsertByTime(x.line, RowLines(s))
  {
    hide OrderedBefore, Fits;
    RowLinesCons(x, s);
    if s == [] {
    } else {
      RowLinesCons(s[0], s[1..]);
      assert s == [s[0]] + s[1..];
      hide RowLines;
      OrderedByTime(x, s[0]);
      if !OrderedBefore(x, s[0]) {
        InsertRowLines(x, s[1..]);
        RowLinesCons(s[0], InsertRow(x, s[1..]));
      }
    }
  }

  lemma RowLinesCons(x: Row, s: seq<Row>)
    ensures RowLines([x] + s) == [x.line] + RowLines(s)
  {
  }

  /** A row inserted before another comes first when their timestamps tie. */
  lemma OrderedByTime(x: Row, y: Row)
    requires Fits(x.line.timestamp) && Fits(y.line.timestamp) && x.id < y.id
    ensures OrderedBefore(x, y) <==> x.line.timestamp <= y.line.timestamp
  {
  }

  /** With ids in insertion order, ordering by time and id is a stable sort by time. */
  lemma {:induction false} OrderByLines(rows: seq<Row>, nextId: nat)
    requires IdsGrow(rows, nextId) && forall r :: r in rows ==> Fits(r.line.timestamp)
    ensures RowLines(OrderBy(rows)) == SortByTime(RowLines(rows))
  {
    if rows == [] {
    } else {
      OrderByLines(rows[1..], nextId);
      InsertRowLines(rows[0], OrderBy(rows[1..]));
    }
  }

  /** The SELECT finds what is wanted, stably sorted by time. */
  lemma SqlSelectLines(fold: Fold, b: Buffers, rows: seq<Row>, nextId: nat, q: Query)
    requires Alike(fold, b, rows, nextId) && Request(rows, q) && BoundsFit(q)
    ensures SqlSelect(rows, q) == SortByTime(Filter(Wanted(fold, q), RowLines(rows)))
  {
    WhereLines(fold, q, rows);
    WhereIds(q, rows, nextId);
    OrderByLines(Where(q, rows), nextId);
  }

  lemma {:induction false} LinesOfFilter(rows: seq<Row>, p: string)
    ensures LinesOf(rows, p) == Filter(Of(p), RowLines(rows))
  {
    if rows == [] {
    } else {
      LinesOfFilter(rows[1..], p);
    }
  }

  // -------------------------------------------------------------------------
  // Queries for one process

  lemma SortedIsAscending(s: seq<LogLine>)
    ensures SortByTime(s) == s <==> Ascending(s)
  {
  }

  /** When the selections for one process agree, in terms of its lines: with bounds that fit,
      if the lines that match are in the order of their timestamps; with one bound that does
      not, if none match without it; with two, always, as neither side finds anything. */
  ghost predicate OneAgrees(fold: Fold, q: Query, lines: seq<LogLine>) {
    if BoundsFit(q) then Ascending(Filter(Matching(fold, q), lines))
    else (!SinceFits(q) && !UntilFits(q)) || Filter(Matching(fold, WithoutHuge(q)), lines) == []
  }

  lemma OneProcessSelects(fold: Fold, b: Buffers, order: seq<string>, rows: seq<Row>, nextId: nat, q: Query)
    requires Alike(fold, b, rows, nextId) && Request(rows, q) && !IsAllProcesses(q)
    ensures MemSelect(fold, b, order, q) == SqlSelect(rows, q) <==> OneAgrees(fold, q, Lines(b, q.process.value))
  {
    hide Alike, Request;
    if BoundsFit(q) {
      OneProcessInRange(fold, b, order, rows, nextId, q);
      SortedIsAscending(MemSelect(fold, b, order, q));
    } else {
      HugeBounds(fold, b, order, rows, nextId, q);
      if SinceFits(q) || UntilFits(q) {
        var part := WithoutHuge(q);
        hide WithoutHuge;
        OneProcessInRange(fold, b, order, rows, nextId, part);
        SortedNone(MemSelect(fold, b, order, part));
      }
    }
  }

  lemma OneProcessInRange(fold: Fold, b: Buffers, order: seq<string>, rows: seq<Row>, nextId: nat, q: Query)
    requires Alike(fold, b, rows, nextId) && Request(rows, q) && !IsAllProcesses(q) && BoundsFit(q)
    ensures MemSelect(fold, b, order, q) == Filter(Matching(fold, q), Lines(b, q.process.value))
    ensures SqlSelect(rows, q) == SortByTime(MemSelect(fold, b, order, q))
  {
    var p, all := q.process.value, RowLines(rows);
    SqlSelectLines(fold, b, rows, nextId, q);
    LinesOfFilter(rows, p);
    assert Lines(b, p) == LinesOf(rows, p);
    FilterTwice(Matching(fold, q), Of(p), Wanted(fold, q), all);
  }

  lemma SortedNone(s: seq<LogLine>)
    ensures SortByTime(s) == [] <==> s == []
  {
    SortByTimeSorts(s);
    if s != [] {
      assert s[0] in SortByTime(s);
    }
  }

  /** What bounds that do not fit do to either side: cast to a negative number, a lower bound
      lets every row pass and an upper bound none; in memory it is the other way round. */
  lemma HugeBounds(fold: Fold, b: Buffers, order: seq<string>, rows: seq<Row>, nextId: nat, q: Query)
    requires Alike(fold, b, rows, nextId) && Request(rows, q) && !BoundsFit(q)
    requires IsAllProcesses(q) ==> KeyOrder(b, order)
    ensures var part := WithoutHuge(q);
            Request(rows, part) && BoundsFit(part) && IsAllProcesses(part) == IsAllProcesses(q)
    ensures MemSelect(fold, b, order, q) == if SinceFits(q) then MemSelect(fold, b, order, WithoutHuge(q)) else []
    ensures SqlSelect(rows, q) == if UntilFits(q) then SqlSelect(rows, WithoutHuge(q)) else []
  {
    var part := WithoutHuge(q);
    var base := BaseLines(b, order, q);
    forall l | l in base ensures Fits(l.timestamp) {
      BaseLineStored(b, order, rows, q, l);
    }
    if SinceFits(q) {
      FilterSame(Matching(fold, q), Matching(fold, part), base);
    } else {
      FilterNone(Matching(fold, q), base);
    }
    forall r | r in rows ensures SqlMatches(q, r) <==> UntilFits(q) && SqlMatches(part, r) {
      HugeInSql(q, r);
    }
    hide SqlMatches;
    WhereSame(q, part, rows);
  }

  lemma HugeInSql(q: Query, r: Row)
    requires Fits(r.line.timestamp)
    requires (q.since.Some? ==> IsU64(q.since.value)) && (q.until.Some? ==> IsU64(q.until.value))
    ensures SqlMatches(q, r) <==> UntilFits(q) && SqlMatches(WithoutHuge(q), r)
  {
    CastOf(r.line.timestamp);
    CastOf(q.since.GetOr(0));
    CastOf(q.until.GetOr(0));
    hide AsI64, Lower;
  }

  lemma {:induction false} WhereSame(q: Query, part: Query, rows: seq<Row>)
    requires forall r :: r in rows ==> (SqlMatches(q, r) <==> UntilFits(q) && SqlMatches(part, r))
    ensures Where(q, rows) == if UntilFits(q) then Where(part, rows) else []
  {
    hide SqlMatches;
    if rows == [] {
    } else {
      assert rows[0] in rows && forall r :: r in rows[1..] ==> r in rows;
      WhereSame(q, part, rows[1..]);
    }
  }

  /** The lines an in-memory query starts from are in the table. */
  lemma BaseLineStored(b: Buffers, order: seq<string>, rows: seq<Row>, q: Query, l: LogLine)
    requires SameLines(b, rows) && l in BaseLines(b, order, q)
    ensures exists r :: r in rows && r.line == l
  {
    if IsAllProcesses(q) {
      SortByTimeSorts(Concatenated(b, order));
      var p := ConcatenatedFrom(b, order, l);
      BufferedLine(b, rows, p, l);
    } else {
      BufferedLine(b, rows, q.process.value, l);
    }
    var i :| 0 <= i < |rows| && RowLines(rows)[i] == l;
    assert rows[i] in rows;
  }

  lemma {:induction false} ConcatenatedFrom(b: Buffers, order: seq<string>, l: LogLine) returns (p: string)
    requires l in Concatenated(b, order)
    ensures p in order && l in Lines(b, p)
  {
    if l in Lines(b, order[0]) {
      p := order[0];
    } else {
      p := ConcatenatedFrom(b, order[1..], l);
    }
  }

  lemma {:induction false} AscendingFilter(f: LogLine -> bool, s: seq<LogLine>)
    requires Ascending(s)
    ensures Ascending(Filter(f, s))
  {
    if s == [] {
    } else {
      AscendingFilter(f, s[1..]);
    }
  }

  // -------------------------------------------------------------------------
  // Queries for all processes

  /** No two processes have matching lines with one timestamp. */
  ghost predicate NoCrossTies(fold: Fold, q: Query, lines: seq<LogLine>) {
    forall l, m ::
      l in lines && m in lines && Matches(fold, q, l) && Matches(fold, q, m) && l.timestamp == m.timestamp ==>
        l.process == m.process
  }

  function MatchingAt(fold: Fold, q: Query, t: nat): LogLine -> bool {
    (l: LogLine) => Matches(fold, q, l) && l.timestamp == t
  }

  /** Lines that only one process has are found in its buffer, whatever the order. */
  lemma {:induction false} ConcatenatedOne(b: Buffers, order: seq<string>, f: LogLine -> bool, p: string)
    requires NoDup(order)
    requires forall x, l :: x in order && l in Lines(b, x) && f(l) ==> x == p
    ensures Filter(f, Concatenated(b, order)) == if p in order then Filter(f, Lines(b, p)) else []
  {
    if order == [] {
    } else {
      ConcatenatedOne(b, order[1..], f, p);
      FilterConcat(f, Lines(b, order[0]), Concatenated(b, order[1..]));
      if order[0] == p {
        assert Filter(f, Lines(b, p)) + [] == Filter(f, Lines(b, p));
      } else {
        FilterNone(f, Lines(b, order[0]));
      }
    }
  }

  /** Both selections ascend, so they agree when they agree at each timestamp. */
  lemma SelectsAt(fold: Fold, b: Buffers, order: seq<string>, rows: seq<Row>, nextId: nat, q: Query, t: nat)
    requires Alike(fold, b, rows, nextId) && Request(rows, q) && BoundsFit(q) && IsAllProcesses(q)
    ensures Filter(At(t), MemSelect(fold, b, order, q)) == Filter(MatchingAt(fold, q, t), Concatenated(b, order))
    ensures Filter(At(t), SqlSelect(rows, q)) == Filter(MatchingAt(fold, q, t), RowLines(rows))
    ensures Ascending(MemSelect(fold, b, order, q)) && Ascending(SqlSelect(rows, q))
  {
    var concat, all := Concatenated(b, order), RowLines(rows);
    SqlSelectLines(fold, b, rows, nextId, q);
    SortByTimeSorts(concat);
    SortByTimeSorts(Filter(Wanted(fold, q), all));
    AscendingFilter(Matching(fold, q), SortByTime(concat));
    hide Alike, Request, Ascending;
    FilterTwice(At(t), Matching(fold, q), MatchingAt(fold, q, t), SortByTime(concat));
    FilterTwice(Matching(fold, q), At(t), MatchingAt(fold, q, t), SortByTime(concat));
    FilterTwice(Matching(fold, q), At(t), MatchingAt(fold, q, t), concat);
    assert Filter(At(t), SortByTime(concat)) == Filter(At(t), concat);
    FilterTwice(At(t), Wanted(fold, q), MatchingAt(fold, q, t), all);
    assert Filter(At(t), SortByTime(Filter(Wanted(fold, q), all))) == Filter(At(t), Filter(Wanted(fold, q), all));
  }

  lemma TiesAgree(fold: Fold, b: Buffers, order: seq<string>, rows: seq<Row>, nextId: nat, q: Query)
    requires Alike(fold, b, rows, nextId) && Request(rows, q) && BoundsFit(q) && IsAllProcesses(q)
    requires KeyOrder(b, order) && NoCrossTies(fold, q, RowLines(rows))
    ensures MemSelect(fold, b, order, q) == SqlSelect(rows, q)
  {
    forall t ensures Filter(At(t), MemSelect(fold, b, order, q)) == Filter(At(t), SqlSelect(rows, q)) {
      SelectsAt(fold, b, order, rows, nextId, q, t);
      AtOneTime(fold, b, order, rows, q, t);
    }
    SelectsAt(fold, b, order, rows, nextId, q, 0);
    AscendingUnique(MemSelect(fold, b, order, q), SqlSelect(rows, q));
  }

  /** Without ties the lines of one timestamp all come from one process. */
  lemma AtOneTime(fold: Fold, b: Buffers, order: seq<string>, rows: seq<Row>, q: Query, t: nat)
    requires SameLines(b, rows) && KeyOrder(b, order) && NoCrossTies(fold, q, RowLines(rows))
    ensures Filter(MatchingAt(fold, q, t), Concatenated(b, order)) == Filter(MatchingAt(fold, q, t), RowLines(rows))
  {
    var all, f := RowLines(rows), MatchingAt(fold, q, t);
    var p := if exists l :: l in all && f(l) then (var l :| l in all && f(l); l.process) else "";
    forall x, l | l in Lines(b, x) && f(l) ensures x == p {
      BufferedLine(b, rows, x, l);
    }
    ConcatenatedOne(b, order, f, p);
    FilterTwice(f, Of(p), (l: LogLine) => f(l) && l.process == p, all);
    FilterSame((l: LogLine) => f(l) && l.process == p, f, all);
    LinesOfFilter(rows, p);
    assert Lines(b, p) == LinesOf(rows, p);
    if p !in order {
      assert p !in Elems(order);
    }
  }

  lemma BufferedLine(b: Buffers, rows: seq<Row>, p: string, l: LogLine)
    requires SameLines(b, rows)
    ensures l in Lines(b, p) <==> l in RowLines(rows) && l.process == p
  {
    LinesOfFilter(rows, p);
    assert Lines(b, p) == LinesOf(rows, p);
  }

  /** If the process `p` comes first its lines do. */
  lemma FirstProcessFirst(b: Buffers, rows: seq<Row>, rest: seq<string>, f: LogLine -> bool, l: LogLine)
    requires SameLines(b, rows) && l in RowLines(rows) && f(l)
    ensures var found := Filter(f, Concatenated(b, [l.process] + rest));
            found != [] && found[0].process == l.process
  {
    var p := l.process;
    BufferedLine(b, rows, p, l);
    assert ([p] + rest)[1..] == rest;
    FilterConcat(f, Lines(b, p), Concatenated(b, rest));
    var mine := Filter(f, Lines(b, p));
    assert l in mine;
    BufferedLine(b, rows, p, mine[0]);
  }

  /** An order of the keys that starts with `p`. */
  lemma OrderFrom(keys: set<string>, p: string) returns (rest: seq<string>)
    requires p in keys
    ensures NoDup([p] + rest) && Elems([p] + rest) == keys
    decreases |keys|
  {
    if keys - {p} == {} {
      rest := [];
      assert keys == {p};
    } else {
      var q :| q in keys - {p};
      var more := OrderFrom(keys - {p}, q);
      rest := [q] + more;
      assert p !in Elems(rest);
      ElemsConcat([p], rest);
      NoDupConcat([p], rest);
    }
  }

  /** When the selections for all processes agree: as for one process, with ties between
      processes in the place of lines out of order. */
  ghost predicate AllAgree(fold: Fold, q: Query, lines: seq<LogLine>) {
    if BoundsFit(q) then NoCrossTies(fold, q, lines)
    else (!SinceFits(q) && !UntilFits(q)) || Filter(Matching(fold, WithoutHuge(q)), lines) == []
  }

  /** A hash map may yield the buffers in any order. */
  lemma AllProcessesSelects(fold: Fold, b: Buffers, rows: seq<Row>, nextId: nat, q: Query)
    requires Alike(fold, b, rows, nextId) && Request(rows, q) && IsAllProcesses(q)
    ensures (forall order :: KeyOrder(b, order) ==> MemSelect(fold, b, order, q) == SqlSelect(rows, q)) <==>
            AllAgree(fold, q, RowLines(rows))
  {
    hide Alike, Request, KeyOrder, MemSelect, SqlSelect;
    if AllAgree(fold, q, RowLines(rows)) {
      forall order | KeyOrder(b, order) ensures MemSelect(fold, b, order, q) == SqlSelect(rows, q) {
        if BoundsFit(q) {
          TiesAgree(fold, b, order, rows, nextId, q);
        } else {
          HugeBounds(fold, b, order, rows, nextId, q);
          hide WithoutHuge;
          if SinceFits(q) || UntilFits(q) {
            NothingFound(fold, b, order, rows, nextId, WithoutHuge(q));
          }
        }
      }
    } else if BoundsFit(q) {
      hide Matches;
      var l, m :| l in RowLines(rows) && m in RowLines(rows) && Matches(fold, q, l) && Matches(fold, q, m) &&
                  l.timestamp == m.timestamp && l.process != m.process;
      var order := OrderThatDiffers(fold, b, rows, nextId, q, l, m);
    } else {
      hide WithoutHuge;
      var l := Filter(Matching(fold, WithoutHuge(q)), RowLines(rows))[0];
      var order := SomeOrder(fold, b, rows, nextId, l);
      HugeBounds(fold, b, order, rows, nextId, q);
      NothingFound(fold, b, order, rows, nextId, WithoutHuge(q));
    }
  }

  /** Whether a query for all processes finds anything is the same question on both sides. */
  lemma NothingFound(fold: Fold, b: Buffers, order: seq<string>, rows: seq<Row>, nextId: nat, q: Query)
    requires Alike(fold, b, rows, nextId) && Request(rows, q) && BoundsFit(q) && IsAllProcesses(q) && KeyOrder(b, order)
    ensures MemSelect(fold, b, order, q) == [] <==> Filter(Matching(fold, q), RowLines(rows)) == []
    ensures SqlSelect(rows, q) == [] <==> Filter(Matching(fold, q), RowLines(rows)) == []
  {
    var all, base := RowLines(rows), BaseLines(b, order, q);
    SqlSelectLines(fold, b, rows, nextId, q);
    SortedNone(Filter(Wanted(fold, q), all));
    FilterSame(Wanted(fold, q), Matching(fold, q), all);
    SortByTimeSorts(Concatenated(b, order));
    hide Matches, SortByTime, Concatenated, RowLines, Filter, Alike, Request;
    var found, kept := Filter(Matching(fold, q), all), MemSelect(fold, b, order, q);
    if kept != [] {
      var r := StoredRow(b, order, rows, q, kept[0]);
      assert r.line in found;
    }
    if found != [] {
      InConcatenated(fold, b, order, rows, nextId, found[0]);
      assert found[0] in kept;
    }
  }

  lemma StoredRow(b: Buffers, order: seq<string>, rows: seq<Row>, q: Query, l: LogLine) returns (r: Row)
    requires SameLines(b, rows) && l in BaseLines(b, order, q)
    ensures r in rows && r.line == l && l in RowLines(rows)
  {
    BaseLineStored(b, order, rows, q, l);
    r :| r in rows && r.line == l;
    var i :| 0 <= i < |rows| && rows[i] == r;
    assert RowLines(rows)[i] == l;
  }

  lemma InConcatenated(fold: Fold, b: Buffers, order: seq<string>, rows: seq<Row>, nextId: nat, l: LogLine)
    requires Alike(fold, b, rows, nextId) && KeyOrder(b, order) && l in RowLines(rows)
    ensures l in Concatenated(b, order)
  {
    BufferedLine(b, rows, l.process, l);
    assert l.process in Elems(order);
    ConcatenatedHas(b, order, l.process, l);
  }

  lemma {:induction false} ConcatenatedHas(b: Buffers, order: seq<string>, p: string, l: LogLine)
    requires p in order && l in Lines(b, p)
    ensures l in Concatenated(b, order)
  {
    if order[0] == p {
    } else {
      ConcatenatedHas(b, order[1..], p, l);
    }
  }

  lemma SomeOrder(fold: Fold, b: Buffers, rows: seq<Row>, nextId: nat, l: LogLine) returns (order: seq<string>)
    requires Alike(fold, b, rows, nextId) && l in RowLines(rows)
    ensures KeyOrder(b, order)
  {
    BufferedLine(b, rows, l.process, l);
    var rest := OrderFrom(b.Keys, l.process);
    order := [l.process] + rest;
  }

  lemma OrderThatDiffers(fold: Fold, b: Buffers, rows: seq<Row>, nextId: nat, q: Query, l: LogLine, m: LogLine)
    returns (order: seq<string>)
    requires Alike(fold, b, rows, nextId) && Request(rows, q) && BoundsFit(q) && IsAllProcesses(q)
    requires l in RowLines(rows) && m in RowLines(rows) && Matches(fold, q, l) && Matches(fold, q, m)
    requires l.timestamp == m.timestamp && l.process != m.process
    ensures KeyOrder(b, order) && MemSelect(fold, b, order, q) != SqlSelect(rows, q)
  {
    BufferedLine(b, rows, l.process, l);
    BufferedLine(b, rows, m.process, m);
    var afterL := OrderFrom(b.Keys, l.process);
    var afterM := OrderFrom(b.Keys, m.process);
    var t, f := l.timestamp, MatchingAt(fold, q, l.timestamp);
    FirstProcessFirst(b, rows, afterL, f, l);
    FirstProcessFirst(b, rows, afterM, f, m);
    SelectsAt(fold, b, [l.process] + afterL, rows, nextId, q, t);
    SelectsAt(fold, b, [m.process] + afterM, rows, nextId, q, t);
    hide Alike, Request, Matches, MemSelect, SqlSelect, Filter, Concatenated, RowLines, Ascending;
    order := if MemSelect(fold, b, [l.process] + afterL, q) != SqlSelect(rows, q) then [l.process] + afterL
             else [m.process] + afterM;
  }

  // -------------------------------------------------------------------------
  // What either side finds, field by field

  /** Buffered for a process the query is about. */
  ghost predicate InScope(b: Buffers, q: Query, l: LogLine) {
    exists p :: p in b && l in b[p] && (q.process == None || q.process == Some("*") || q.process == Some(p))
  }

  /** The in-memory store finds a line exactly when it is in scope and meets each of the
      filters the query has. */
  lemma MemFinds(fold: Fold, b: Buffers, order: seq<string>, q: Query, l: LogLine)
    requires KeyOrder(b, order)
    ensures l in MemSelect(fold, b, order, q) <==>
              && InScope(b, q, l)
              && (q.group == None || l.group == q.group)
              && (q.since == None || l.timestamp >= q.since.value)
              && (q.until == None || l.timestamp <= q.until.value)
              && (q.search == None || Strings.Contains(fold(l.content), fold(q.search.value)))
  {
    BaseFinds(b, order, q, l);
    hide InScope, KeyOrder, BaseLines, Strings.Contains;
  }

  lemma BaseFinds(b: Buffers, order: seq<string>, q: Query, l: LogLine)
    requires KeyOrder(b, order)
    ensures l in BaseLines(b, order, q) <==> InScope(b, q, l)
  {
    if IsAllProcesses(q) {
      SortByTimeSorts(Concatenated(b, order));
      ConcatenatedIff(b, order, l);
      hide Concatenated, KeyOrder;
      assert InScope(b, q, l) <==> exists p :: p in b && l in b[p];
    }
  }

  lemma ConcatenatedIff(b: Buffers, order: seq<string>, l: LogLine)
    requires KeyOrder(b, order)
    ensures l in Concatenated(b, order) <==> exists p :: p in b && l in b[p]
  {
    if l in Concatenated(b, order) {
      var p := ConcatenatedFrom(b, order, l);
    }
    if p :| p in b && l in b[p] {
      assert p in Elems(order);
      ConcatenatedHas(b, order, p, l);
    }
  }

  /** The SELECT finds a line exactly when some row holds it that meets each of the conditions
      the query gives rise to, numbers being compared as signed ones. */
  lemma SqlFinds(rows: seq<Row>, q: Query, l: LogLine)
    ensures l in SqlSelect(rows, q) <==>
              && (exists r :: r in rows && r.line == l)
              && (q.process == None || q.process == Some("*") || q.process == Some(l.process))
              && (q.group == None || l.group == q.group)
              && (q.since == None || AsI64(l.timestamp) >= AsI64(q.since.value))
              && (q.until == None || AsI64(l.timestamp) <= AsI64(q.until.value))
              && (q.search == None || Strings.Contains(Lower(l.content), Lower(q.search.value)))
  {
    hide AsI64, Lower;
    if q.search.Some? {
      Strings.FindNone(Lower(l.content), Lower(q.search.value));
    }
    hide Strings.Contains, Instr;
    InLines(OrderBy(Where(q, rows)), l);
    WhereFinds(q, rows);
  }

  lemma InLines(rows: seq<Row>, l: LogLine)
    ensures l in RowLines(rows) <==> exists r :: r in rows && r.line == l
  {
    if l in RowLines(rows) {
      var i :| 0 <= i < |rows| && RowLines(rows)[i] == l;
      assert rows[i] in rows;
    }
    if r :| r in rows && r.line == l {
      var i :| 0 <= i < |rows| && rows[i] == r;
      assert RowLines(rows)[i] == l;
    }
  }

  lemma {:induction false} WhereFinds(q: Query, rows: seq<Row>)
    ensures forall r :: r in Where(q, rows) <==> r in rows && SqlMatches(q, r)
  {
    hide SqlMatches;
    if rows == [] {
    } else {
      WhereFinds(q, rows[1..]);
      assert rows == [rows[0]] + rows[1..];
    }
  }

  // -------------------------------------------------------------------------
  // Pages

  /** Given the same lines, the pages agree unless the offset is too large for a signed
      number: SQLite then starts from the beginning. */
  lemma PagesAgree(logs: seq<LogLine>, q: Query)
    requires Fits(|logs|) && q.offset.GetOr(0) < 0x1_0000_0000_0000_0000
    requires q.limit.Some? ==> q.limit.value < 0x1_0000_0000_0000_0000
    ensures SqlPage(logs, q) == MemPage(logs, q) <==>
            Fits(q.offset.GetOr(0)) || logs == [] || q.limit == Some(0)
  {
    CastOf(q.offset.GetOr(0));
    CastOf(q.limit.GetOr(0));
    hide AsI64;
    var mem, sql := MemPage(logs, q), SqlPage(logs, q);
    if !Fits(q.offset.GetOr(0)) && logs != [] && q.limit != Some(0) {
      assert mem.logs == [] && |sql.logs| > 0;
    }
  }

  /** Every page of a query has its filters. */
  function Paged(q: Query, offset: Option<nat>, limit: Option<nat>): Query {
    q.(offset := offset, limit := limit)
  }

  predicate PagingFits(offset: Option<nat>, limit: Option<nat>) {
    Fits(offset.GetOr(0)) && (limit.Some? ==> IsU64(limit.value))
  }

  lemma PagedSelects(fold: Fold, b: Buffers, order: seq<string>, rows: seq<Row>, q: Query,
                     offset: Option<nat>, limit: Option<nat>)
    ensures MemSelect(fold, b, order, Paged(q, offset, limit)) == MemSelect(fold, b, order, q)
    ensures SqlSelect(rows, Paged(q, offset, limit)) == SqlSelect(rows, q)
  {
    FilterSame(Matching(fold, Paged(q, offset, limit)), Matching(fold, q), BaseLines(b, order, q));
    WherePaged(q, rows, offset, limit);
  }

  lemma {:induction false} WherePaged(q: Query, rows: seq<Row>, offset: Option<nat>, limit: Option<nat>)
    ensures Where(Paged(q, offset, limit), rows) == Where(q, rows)
  {
    if rows == [] {
    } else {
      WherePaged(q, rows[1..], offset, limit);
    }
  }

  ghost predicate SameAnswer(fold: Fold, b: Buffers, order: seq<string>, rows: seq<Row>, q: Query) {
    MemAnswer(fold, b, order, q) == SqlAnswer(rows, q)
  }

  ghost predicate SamePages(fold: Fold, b: Buffers, order: seq<string>, rows: seq<Row>, q: Query) {
    forall offset, limit :: PagingFits(offset, limit) ==> SameAnswer(fold, b, order, rows, Paged(q, offset, limit))
  }

  /** All pages agree exactly when the selections do. */
  lemma SelectionsDecide(fold: Fold, b: Buffers, order: seq<string>, rows: seq<Row>, q: Query)
    requires Fits(|rows|)
    ensures SamePages(fold, b, order, rows, q) <==> MemSelect(fold, b, order, q) == SqlSelect(rows, q)
  {
    assert |SqlSelect(rows, q)| <= |rows|;
    if SamePages(fold, b, order, rows, q) {
      PagedSelects(fold, b, order, rows, q, None, None);
      assert SameAnswer(fold, b, order, rows, Paged(q, None, None));
    }
    hide MemSelect, SqlSelect, MemPage, SqlPage;
    if MemSelect(fold, b, order, q) == SqlSelect(rows, q) {
      forall offset, limit | PagingFits(offset, limit)
        ensures SameAnswer(fold, b, order, rows, Paged(q, offset, limit))
      {
        PagedSelects(fold, b, order, rows, q, offset, limit);
        PagesAgree(SqlSelect(rows, q), Paged(q, offset, limit));
      }
    }
  }

  // -------------------------------------------------------------------------
  // Answers

  /** Every page of a query for one process is answered alike, exactly when `OneAgrees`. */
  lemma OneProcessAgrees(fold: Fold, b: Buffers, order: seq<string>, rows: seq<Row>, nextId: nat, q: Query)
    requires Alike(fold, b, rows, nextId) && Request(rows, q) && !IsAllProcesses(q)
    ensures SamePages(fold, b, order, rows, q) <==> OneAgrees(fold, q, Lines(b, q.process.value))
  {
    hide SamePages, MemSelect, SqlSelect, OneAgrees, Request;
    OneProcessSelects(fold, b, order, rows, nextId, q);
    SelectionsDecide(fold, b, order, rows, q);
  }

  /** Every page of a query for all processes is answered alike, in whatever order a hash map
      yields the buffers, exactly when `AllAgree`. */
  lemma AllProcessesAgree(fold: Fold, b: Buffers, rows: seq<Row>, nextId: nat, q: Query)
    requires Alike(fold, b, rows, nextId) && Request(rows, q) && IsAllProcesses(q)
    ensures (forall order :: KeyOrder(b, order) ==> SamePages(fold, b, order, rows, q)) <==>
            AllAgree(fold, q, RowLines(rows))
  {
    AllProcessesSelects(fold, b, rows, nextId, q);
    hide SamePages, MemSelect, SqlSelect, AllAgree, Request, KeyOrder;
    forall order
      ensures SamePages(fold, b, order, rows, q) <==> MemSelect(fold, b, order, q) == SqlSelect(rows, q)
    {
      SelectionsDecide(fold, b, order, rows, q);
    }
  }

  /** All numbers of the request fit signed ones. */
  ghost predicate InRange(rows: seq<Row>, q: Query) {
    Request(rows, q) && BoundsFit(q) && PagingFits(q.offset, q.limit)
  }

  function Everything(process: Option<string>): Query {
    Query(process, None, None, None, None, None, None)
  }

  /** Every query for one process is answered alike exactly when its lines were logged in the
      order of their timestamps. */
  lemma OneProcessAlwaysAgrees(fold: Fold, b: Buffers, order: seq<string>, rows: seq<Row>, nextId: nat, p: string)
    requires Alike(fold, b, rows, nextId) && p != "*"
    ensures (forall q: Query :: q.process == Some(p) && InRange(rows, q) ==> SameAnswer(fold, b, order, rows, q)) <==>
            Ascending(Lines(b, p))
  {
    hide Alike, Request, Matching;
    if Ascending(Lines(b, p)) {
      forall q: Query | q.process == Some(p) && InRange(rows, q) ensures SameAnswer(fold, b, order, rows, q) {
        AscendingFilter(Matching(fold, q), Lines(b, p));
        OneProcessAgrees(fold, b, order, rows, nextId, q);
        PagedAsAsked(fold, b, order, rows, q);
      }
    } else {
      var q := Everything(Some(p));
      EverythingMatches(fold, rows, Some(p), Lines(b, p));
      OneProcessAgrees(fold, b, order, rows, nextId, q);
      var offset, limit :| PagingFits(offset, limit) && !SameAnswer(fold, b, order, rows, Paged(q, offset, limit));
      assert InRange(rows, Paged(q, offset, limit));
    }
  }

  lemma PagedAsAsked(fold: Fold, b: Buffers, order: seq<string>, rows: seq<Row>, q: Query)
    requires SamePages(fold, b, order, rows, q) && PagingFits(q.offset, q.limit)
    ensures SameAnswer(fold, b, order, rows, q)
  {
    assert Paged(q, q.offset, q.limit) == q;
  }

  lemma EverythingMatches(fold: Fold, rows: seq<Row>, process: Option<string>, s: seq<LogLine>)
    ensures Filter(Matching(fold, Everything(process)), s) == s
    ensures BoundsFit(Everything(process))
    ensures forall offset, limit :: Request(rows, Paged(Everything(process), offset, limit))
    ensures Request(rows, Everything(process))
  {
    FilterAll(Matching(fold, Everything(process)), s);
  }

  lemma {:induction false} FilterAll(f: LogLine -> bool, s: seq<LogLine>)
    requires forall l :: l in s ==> f(l)
    ensures Filter(f, s) == s
  {
    if s == [] {
    } else {
      FilterAll(f, s[1..]);
      assert s == [s[0]] + s[1..];
    }
  }

  /** No two processes ever logged at the same time. */
  ghost predicate Untied(lines: seq<LogLine>) {
    forall l, m :: l in lines && m in lines && l.timestamp == m.timestamp ==> l.process == m.process
  }

  /** Every query for all processes is answered alike, in whatever order of the buffers,
      exactly when no two processes logged at the same time. */
  lemma AllProcessesAlwaysAgree(fold: Fold, b: Buffers, rows: seq<Row>, nextId: nat)
    requires Alike(fold, b, rows, nextId)
    ensures (forall q, order :: IsAllProcesses(q) && InRange(rows, q) && KeyOrder(b, order) ==>
               SameAnswer(fold, b, order, rows, q)) <==>
            Untied(RowLines(rows))
  {
    hide Alike, Request, KeyOrder, Matches, SameAnswer;
    if Untied(RowLines(rows)) {
      forall q, order | IsAllProcesses(q) && InRange(rows, q) && KeyOrder(b, order)
        ensures SameAnswer(fold, b, order, rows, q)
      {
        AllProcessesAgree(fold, b, rows, nextId, q);
        PagedAsAsked(fold, b, order, rows, q);
      }
    } else {
      var q := Everything(None);
      EverythingMatches(fold, rows, None, RowLines(rows));
      EveryLine(fold);
      AllProcessesAgree(fold, b, rows, nextId, q);
      var order :| KeyOrder(b, order) && !SamePages(fold, b, order, rows, q);
      var offset, limit :| PagingFits(offset, limit) && !SameAnswer(fold, b, order, rows, Paged(q, offset, limit));
      assert InRange(rows, Paged(q, offset, limit)) && IsAllProcesses(Paged(q, offset, limit));
    }
  }

  lemma EveryLine(fold: Fold)
    ensures forall l :: Matches(fold, Everything(None), l)
  {
  }

  /** For instance: one line is stored on both sides, and the upper bound on its time is the
      first number that does not fit. Memory finds the line, the table does not. */
  lemma HugeUntilDiffers(fold: Fold, l: LogLine)
    requires FoldsAscii(fold) && Fits(l.timestamp) && l.process != "*"
    ensures var b, rows := map[l.process := [l]], [Row(0, l)];
            var q := Everything(Some(l.process)).(until := Some(0x8000_0000_0000_0000));
            && Alike(fold, b, rows, 1) && Request(rows, q)
            && MemSelect(fold, b, [l.process], q) == [l] && SqlSelect(rows, q) == []
            && !SameAnswer(fold, b, [l.process], rows, q)
  {
    CastOf(l.timestamp);
    CastOf(0x8000_0000_0000_0000);
    hide AsI64;
    var b, rows := map[l.process := [l]], [Row(0, l)];
    assert rows[1..] == [] && [l][1..] == [] && IdsGrow(rows[1..], 1);
    forall p ensures Lines(b, p) == LinesOf(rows, p) {
      assert LinesOf(rows[1..], p) == [];
    }
    assert IdsGrow(rows, 1);
    var q := Everything(Some(l.process)).(until := Some(0x8000_0000_0000_0000));
    assert Matching(fold, q)(l) && !SqlMatches(q, rows[0]);
    assert Filter(Matching(fold, q), [l][1..]) == [] && Where(q, rows[1..]) == [];
    assert BaseLines(b, [l.process], q) == [l];
    assert Where(q, rows) == [];
  }

  // -------------------------------------------------------------------------
  // Reading page by page

  /** A client that asks for pages of `k` lines until it is told there are no more. */
  function WalkPages(logs: seq<LogLine>, k: nat, offset: nat, q: Query): seq<LogLine>
    requires k >= 1
    decreases if offset <= |logs| then |logs| - offset else 0
  {
    var answer := MemPage(logs, Paged(q, Some(offset), Some(k)));
    answer.logs + if answer.hasMore then WalkPages(logs, k, offset + |answer.logs|, q) else []
  }

  /** A page in memory: the lines from the offset on, if there are any, up to the limit, if
      there is one; the count is that of all lines. */
  lemma PageIs(logs: seq<LogLine>, q: Query)
    ensures var offset := q.offset.GetOr(0);
            var from := if offset <= |logs| then offset else |logs|;
            var to := if q.limit.Some? && from + q.limit.value <= |logs| then from + q.limit.value else |logs|;
            MemPage(logs, q) == Answer(logs[from..to], |logs|, offset <= |logs| && to < |logs|, offset)
  {
    var offset := q.offset.GetOr(0);
    if offset <= |logs| && q.limit.Some? && offset + q.limit.value <= |logs| {
      assert logs[offset..][..q.limit.value] == logs[offset..offset + q.limit.value];
    }
  }

  lemma OnePage(logs: seq<LogLine>, k: nat, offset: nat, q: Query)
    requires offset <= |logs|
    ensures var end := if offset + k <= |logs| then offset + k else |logs|;
            MemPage(logs, Paged(q, Some(offset), Some(k))) == Answer(logs[offset..end], |logs|, end < |logs|, offset)
  {
    PageIs(logs, Paged(q, Some(offset), Some(k)));
  }

  lemma SliceAndRest(logs: seq<LogLine>, from: nat, to: nat)
    requires from <= to <= |logs|
    ensures logs[from..] == logs[from..to] + logs[to..]
  {
  }

  /** It sees every line that matches, once, in order. */
  lemma {:induction false} WalkSeesAll(logs: seq<LogLine>, k: nat, offset: nat, q: Query)
    requires k >= 1 && offset <= |logs|
    ensures WalkPages(logs, k, offset, q) == logs[offset..]
    decreases |logs| - offset
  {
    hide MemPage;
    OnePage(logs, k, offset, q);
    var end := if offset + k <= |logs| then offset + k else |logs|;
    SliceAndRest(logs, offset, end);
    if end < |logs| {
      WalkSeesAll(logs, k, end, q);
    }
  }

  /** The same client when the table answers. */
  function WalkSqlPages(logs: seq<LogLine>, k: nat, offset: nat, q: Query): seq<LogLine>
    requires k >= 1 && IsU64(k) && Fits(|logs|)
    decreases if offset <= |logs| then |logs| - offset else 0
  {
    var answer := SqlPage(logs, Paged(q, Some(offset), Some(k)));
    answer.logs +
    if answer.hasMore then
      OneSqlPage(logs, k, offset, q);
      WalkSqlPages(logs, k, offset + |answer.logs|, q)
    else []
  }

  lemma OneSqlPage(logs: seq<LogLine>, k: nat, offset: nat, q: Query)
    requires k >= 1 && IsU64(k) && Fits(|logs|) && offset <= |logs|
    ensures SqlPage(logs, Paged(q, Some(offset), Some(k))) == MemPage(logs, Paged(q, Some(offset), Some(k)))
    ensures var answer := MemPage(logs, Paged(q, Some(offset), Some(k)));
            answer.hasMore ==> |answer.logs| > 0
  {
    hide MemPage, SqlPage;
    PagesAgree(logs, Paged(q, Some(offset), Some(k)));
    OnePage(logs, k, offset, q);
  }

  /** It sees the same. */
  lemma {:induction false} SqlWalkSeesAll(logs: seq<LogLine>, k: nat, offset: nat, q: Query)
    requires k >= 1 && IsU64(k) && Fits(|logs|) && offset <= |logs|
    ensures WalkSqlPages(logs, k, offset, q) == logs[offset..]
    decreases |logs| - offset
  {
    hide MemPage, SqlPage;
    OnePage(logs, k, offset, q);
    OneSqlPage(logs, k, offset, q);
    var end := if offset + k <= |logs| then offset + k else |logs|;
    SliceAndRest(logs, offset, end);
    if end < |logs| {
      SqlWalkSeesAll(logs, k, end, q);
    }
  }

  /** With pages of no lines it would never be done. */
  lemma EmptyPagesGoNowhere(logs: seq<LogLine>, offset: nat, q: Query)
    requires offset < |logs|
    ensures var answer := MemPage(logs, q.(offset := Some(offset), limit := Some(0)));
            answer.logs == [] && answer.hasMore
  {
  }
}
