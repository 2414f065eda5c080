/** Queries over the log: the in-memory store filters and sorts its buffers, the persistent
    one selects, orders and cuts in SQL. When do the two answers agree? */
module LogQuery {
  import opened Common
  import opened LogLines
  import opened LogSort
  import opened LogDisk
  import opened Strings

  datatype Query = Query(process: Option<string>, group: Option<string>, offset: Option<nat>, limit: Option<nat>,
                         search: Option<string>, since: Option<nat>, until: Option<nat>)

  datatype Answer = Answer(logs: seq<LogLine>, totalCount: nat, hasMore: bool, offset: nat)

  predicate IsAllProcesses(q: Query) {
    q.process.None? || q.process.value == "*"
  }

  // -------------------------------------------------------------------------
  // What a query asks of a line. The in-memory store folds case by Unicode's rules, which
  // `fold` stands for; SQLite's LOWER folds ASCII letters only.

  type Fold = string -> string

  predicate Ascii(s: string) {
    forall c :: c in s ==> c < 128 as char
  }

  /** Unicode's rules extend the ASCII ones. */
  ghost predicate FoldsAscii(fold: Fold) {
    forall s :: Ascii(s) ==> fold(s) == Lower(s)
  }

  function LowerChar(c: char): char {
    if 'A' <= c <= 'Z' then c + 32 as char else c
  }

  function Lower(s: string): (r: string)
    ensures |r| == |s|
  {
    if s == [] then [] else [LowerChar(s[0])] + Lower(s[1..])
  }

  /** The same letter, in upper or lower case. */
  predicate SameLetter(c: char, d: char) {
    || c == d
    || ('A' <= c <= 'Z' && d as int == c as int + 32)
    || ('A' <= d <= 'Z' && c as int == d as int + 32)
  }

  predicate SameButForCase(s: string, t: string) {
    |s| == |t| && forall i :: 0 <= i < |s| ==> SameLetter(s[i], t[i])
  }

  /** Folding makes texts equal exactly when they differ in the case of ASCII letters only. */
  lemma {:induction false} LowerIgnoresCase(s: string, t: string)
    ensures Lower(s) == Lower(t) <==> SameButForCase(s, t)
  {
    if s == [] || t == [] {
    } else {
      LowerIgnoresCase(s[1..], t[1..]);
      assert Lower(s) == [LowerChar(s[0])] + Lower(s[1..]) && Lower(t) == [LowerChar(t[0])] + Lower(t[1..]);
      assert Lower(s) == Lower(t) <==> LowerChar(s[0]) == LowerChar(t[0]) && Lower(s[1..]) == Lower(t[1..]) by {
        assert Lower(s)[0] == LowerChar(s[0]) && Lower(s)[1..] == Lower(s[1..]);
        assert Lower(t)[0] == LowerChar(t[0]) && Lower(t)[1..] == Lower(t[1..]);
      }
      assert SameButForCase(s, t) <==> SameLetter(s[0], t[0]) && SameButForCase(s[1..], t[1..]) by {
        assert forall i :: 0 <= i < |s[1..]| ==> s[1..][i] == s[i + 1];
        assert forall i :: 0 <= i < |t[1..]| ==> t[1..][i] == t[i + 1];
      }
    }
  }

  /** A search finds a text in whatever case either is written, on both sides alike. */
  lemma SearchIgnoresCase(fold: Fold, text: string, search: string, otherText: string, otherSearch: string)
    requires FoldsAscii(fold) && Ascii(text) && Ascii(search) && Ascii(otherText) && Ascii(otherSearch)
    requires SameButForCase(text, otherText) && SameButForCase(search, otherSearch)
    ensures Contains(text, search) ==> Contains(fold(otherText), fold(otherSearch))
    ensures Contains(text, search) ==> Instr(Lower(otherText), Lower(otherSearch)) > 0
    ensures Contains(fold(text), fold(search)) <==> Contains(fold(otherText), fold(otherSearch))
    ensures Instr(Lower(text), Lower(search)) > 0 <==> Instr(Lower(otherText), Lower(otherSearch)) > 0
  {
    hide Lower, SameButForCase, Ascii, FoldsAscii, OccursAt, Contains;
    FoldedAlike(fold, text, otherText);
    FoldedAlike(fold, search, otherSearch);
    FindNone(Lower(text), Lower(search));
    LowerContains(text, search);
  }

  lemma FoldedAlike(fold: Fold, s: string, t: string)
    requires FoldsAscii(fold) && Ascii(s) && Ascii(t) && SameButForCase(s, t)
    ensures fold(s) == fold(t) == Lower(s) == Lower(t)
  {
    hide Lower, SameButForCase, Ascii;
    LowerIgnoresCase(s, t);
  }

  lemma LowerContains(text: string, search: string)
    ensures Contains(text, search) ==> Contains(Lower(text), Lower(search))
  {
    hide Lower, OccursAt;
    if i: nat :| i <= |text| && OccursAt(text, search, i) {
      LowerOccurs(text, search, i);
    }
  }

  lemma LowerOccurs(text: string, search: string, i: nat)
    requires OccursAt(text, search, i)
    ensures OccursAt(Lower(text), Lower(search), i)
  {
    forall k | 0 <= k < |search| ensures Lower(search)[k] == Lower(text)[i + k] {
      LowerAt(search, k);
      LowerAt(text, i + k);
    }
  }

  lemma {:induction false} LowerAt(s: string, k: nat)
    requires k < |s|
    ensures Lower(s)[k] == LowerChar(s[k])
  {
    if k == 0 {
    } else {
      LowerAt(s[1..], k - 1);
    }
  }

  /** SQLite's `instr`: one more than the characters before the first occurrence, or 0. */
  function Instr(s: string, needle: string): nat {
    match Find(s, needle)
    case Some(i) => i + 1
    case None => 0
  }

  function GroupFilter(q: Query): LogLine -> bool {
    (l: LogLine) => q.group.Some? ==> l.group == q.group
  }

  function SinceFilter(q: Query): LogLine -> bool {
    (l: LogLine) => q.since.Some? ==> l.timestamp >= q.since.value
  }

  function UntilFilter(q: Query): LogLine -> bool {
    (l: LogLine) => q.until.Some? ==> l.timestamp <= q.until.value
  }

  function SearchFilter(fold: Fold, q: Query): LogLine -> bool {
    (l: LogLine) => q.search.Some? ==> Contains(fold(l.content), fold(q.search.value))
  }

  predicate Matches(fold: Fold, q: Query, l: LogLine) {
    GroupFilter(q)(l) && SinceFilter(q)(l) && UntilFilter(q)(l) && SearchFilter(fold, q)(l)
  }

  function Matching(fold: Fold, q: Query): LogLine -> bool {
    (l: LogLine) => Matches(fold, q, l)
  }

  // -------------------------------------------------------------------------
  // The in-memory store

  /** All buffers, one after the other, in the order a hash map happens to yield. */
  function Concatenated(b: Buffers, order: seq<string>): seq<LogLine> {
    if order == [] then [] else Lines(b, order[0]) + Concatenated(b, order[1..])
  }

  ghost predicate KeyOrder(b: Buffers, order: seq<string>) {
    NoDup(order) && Elems(order) == b.Keys
  }

  function BaseLines(b: Buffers, order: seq<string>, q: Query): seq<LogLine> {
    if IsAllProcesses(q) then SortByTime(Concatenated(b, order)) else Lines(b, q.process.value)
  }

  /** Which lines an in-memory query finds, before paging. */
  function MemSelect(fold: Fold, b: Buffers, order: seq<string>, q: Query): seq<LogLine> {
    Filter(Matching(fold, q), BaseLines(b, order, q))
  }

  /** `Vec::retain` */
  method Retain(f: LogLine -> bool, s: seq<LogLine>) returns (kept: seq<LogLine>)
    ensures kept == Filter(f, s)
  {
    kept := [];
    for i := 0 to |s|
      invariant kept == Filter(f, s[..i])
    {
      FilterConcat(f, s[..i], [s[i]]);
      assert s[..i + 1] == s[..i] + [s[i]];
      if f(s[i]) {
        kept := kept + [s[i]];
      }
    }
    assert s[..|s|] == s;
  }

  /** The filters are applied one after the other; together they keep what matches. */
  method QueryInternal(fold: Fold, b: Buffers, order: seq<string>, q: Query) returns (logs: seq<LogLine>, len: nat)
    ensures logs == MemSelect(fold, b, order, q) && len == |logs|
  {
    var base := BaseLines(b, order, q);
    logs := Retain(GroupFilter(q), base);
    logs := Retain(SinceFilter(q), logs);
    logs := Retain(UntilFilter(q), logs);
    logs := Retain(SearchFilter(fold, q), logs);
    len := |logs|;
    var gs := (l: LogLine) => SinceFilter(q)(l) && GroupFilter(q)(l);
    var gsu := (l: LogLine) => UntilFilter(q)(l) && gs(l);
    FilterTwice(SinceFilter(q), GroupFilter(q), gs, base);
    FilterTwice(UntilFilter(q), gs, gsu, base);
    FilterTwice(SearchFilter(fold, q), gsu, Matching(fold, q), base);
  }

  /** `skip(offset).take(limit)` and the bookkeeping around it. */
  function MemPage(logs: seq<LogLine>, q: Query): Answer {
    var offset := q.offset.GetOr(0);
    var rest := if offset <= |logs| then logs[offset..] else [];
    var page := if q.limit.Some? && q.limit.value <= |rest| then rest[..q.limit.value] else rest;
    Answer(page, |logs|, offset + |page| < |logs|, offset)
  }

  function MemAnswer(fold: Fold, b: Buffers, order: seq<string>, q: Query): Answer {
    MemPage(MemSelect(fold, b, order, q), q)
  }

  // -------------------------------------------------------------------------
  // The persistent store

  /** The WHERE clause. */
  predicate SqlMatches(q: Query, r: Row) {
    && (!IsAllProcesses(q) ==> r.line.process == q.process.value)
    && (q.group.Some? ==> r.line.group == q.group)
    && (q.since.Some? ==> AsI64(r.line.timestamp) >= AsI64(q.since.value))
    && (q.until.Some? ==> AsI64(r.line.timestamp) <= AsI64(q.until.value))
    && (q.search.Some? ==> Instr(Lower(r.line.content), Lower(q.search.value)) > 0)
  }

  function Where(q: Query, rows: seq<Row>): (r: seq<Row>)
    ensures |r| <= |rows| && forall x :: x in r ==> x in rows
  {
    if rows == [] then []
    else if SqlMatches(q, rows[0]) then [rows[0]] + Where(q, rows[1..])
    else Where(q, rows[1..])
  }

  /** ORDER BY timestamp_ms, id */
  predicate OrderedBefore(a: Row, b: Row) {
    var s, t := AsI64(a.line.timestamp), AsI64(b.line.timestamp);
    s < t || (s == t && a.id <= b.id)
  }

  function InsertRow(x: Row, s: seq<Row>): (r: seq<Row>)
    ensures |r| == |s| + 1 && forall y :: y in r <==> y == x || y in s
  {
    if s == [] || OrderedBefore(x, s[0]) then [x] + s else [s[0]] + InsertRow(x, s[1..])
  }

  function OrderBy(rows: seq<Row>): (r: seq<Row>)
    ensures |r| == |rows| && forall y :: y in r <==> y in rows
  {
    if rows == [] then [] else InsertRow(rows[0], OrderBy(rows[1..]))
  }

  function RowLines(rows: seq<Row>): (r: seq<LogLine>)
    ensures |r| == |rows| && forall i :: 0 <= i < |r| ==> r[i] == rows[i].line
  {
    if rows == [] then [] else [rows[0].line] + RowLines(rows[1..])
  }

  /** Which lines the SELECT finds, before LIMIT and OFFSET. */
  function SqlSelect(rows: seq<Row>, q: Query): seq<LogLine> {
    RowLines(OrderBy(Where(q, rows)))
  }

  /** LIMIT and OFFSET, where a negative limit means none and a negative offset zero. */
  function SqlPage(logs: seq<LogLine>, q: Query): Answer {
    var offset := q.offset.GetOr(0);
    var skip: int := AsI64(offset);
    var take: int := if q.limit.Some? then AsI64(q.limit.value) else -1;
    var rest := if skip < 0 then logs else if skip <= |logs| then logs[skip..] else [];
    var page := if 0 <= take <= |rest| then rest[..take] else rest;
    Answer(page, |logs|, offset + |page| < |logs|, offset)
  }

  function SqlAnswer(rows: seq<Row>, q: Query): Answer {
    SqlPage(SqlSelect(rows, q), q)
  }
}
