/** Filtering log lines and sorting them stably by timestamp. */
module LogSort {
  import opened Common
  import opened LogLines

  function Filter(f: LogLine -> bool, s: seq<LogLine>): (r: seq<LogLine>)
    ensures forall l :: l in r <==> l in s && f(l)
  {
    if s == [] then []
    else if f(s[0]) then [s[0]] + Filter(f, s[1..])
    else Filter(f, s[1..])
  }

  lemma {:induction false} FilterConcat(f: LogLine -> bool, s: seq<LogLine>, t: seq<LogLine>)
    ensures Filter(f, s + t) == Filter(f, s) + Filter(f, t)
  {
    if s == [] {
      assert s + t == t;
    } else {
      assert (s + t)[1..] == s[1..] + t;
      FilterConcat(f, s[1..], t);
    }
  }

  lemma {:induction false} FilterTwice(f: LogLine -> bool, g: LogLine -> bool, h: LogLine -> bool, s: seq<LogLine>)
    requires forall l :: h(l) <==> f(l) && g(l)
    ensures Filter(f, Filter(g, s)) == Filter(h, s)
  {
    if s == [] {
    } else {
      FilterTwice(f, g, h, s[1..]);
      if g(s[0]) {
        assert ([s[0]] + Filter(g, s[1..]))[1..] == Filter(g, s[1..]);
      }
    }
  }

  lemma {:induction false} FilterSame(f: LogLine -> bool, g: LogLine -> bool, s: seq<LogLine>)
    requires forall l :: l in s ==> (f(l) <==> g(l))
    ensures Filter(f, s) == Filter(g, s)
  {
    if s == [] {
    } else {
      FilterSame(f, g, s[1..]);
    }
  }

  lemma {:induction false} FilterNone(f: LogLine -> bool, s: seq<LogLine>)
    requires forall l :: l in s ==> !f(l)
    ensures Filter(f, s) == []
  {
    if s == [] {
    } else {
      FilterNone(f, s[1..]);
    }
  }

  function At(t: nat): LogLine -> bool {
    (l: LogLine) => l.timestamp == t
  }

  function InsertByTime(x: LogLine, s: seq<LogLine>): seq<LogLine> {
    if s == [] || x.timestamp <= s[0].timestamp then [x] + s
    else [s[0]] + InsertByTime(x, s[1..])
  }

  /** `sort_by_key(timestamp)`: lines of equal timestamp keep their order. */
  function SortByTime(s: seq<LogLine>): seq<LogLine> {
    if s == [] then [] else InsertByTime(s[0], SortByTime(s[1..]))
  }

  ghost predicate Ascending(s: seq<LogLine>) {
    s != [] ==> (forall l :: l in s ==> s[0].timestamp <= l.timestamp) && Ascending(s[1..])
  }

  lemma {:induction false} InsertByTimeSorts(x: LogLine, s: seq<LogLine>)
    requires Ascending(s)
    ensures Ascending(InsertByTime(x, s))
    ensures forall l :: l in InsertByTime(x, s) <==> l == x || l in s
  {
    var r := InsertByTime(x, s);
    if s == [] || x.timestamp <= s[0].timestamp {
      assert r[1..] == s;
    } else {
      InsertByTimeSorts(x, s[1..]);
      assert r[1..] == InsertByTime(x, s[1..]);
    }
  }

  /** Among the lines of one timestamp the inserted one comes first. */
  lemma {:induction false} InsertByTimeAt(x: LogLine, s: seq<LogLine>, t: nat)
    requires Ascending(s)
    ensures Filter(At(t), InsertByTime(x, s)) == (if x.timestamp == t then [x] else []) + Filter(At(t), s)
  {
    if s != [] && s[0].timestamp < x.timestamp {
      InsertByTimeAt(x, s[1..], t);
      assert InsertByTime(x, s)[1..] == InsertByTime(x, s[1..]);
    } else {
      assert InsertByTime(x, s)[1..] == s;
    }
  }

  lemma {:induction false} SortByTimeSorts(s: seq<LogLine>)
    ensures Ascending(SortByTime(s))
    ensures forall l :: l in SortByTime(s) <==> l in s
    ensures forall t :: Filter(At(t), SortByTime(s)) == Filter(At(t), s)
  {
    if s == [] {
    } else {
      SortByTimeSorts(s[1..]);
      InsertByTimeSorts(s[0], SortByTime(s[1..]));
      forall t ensures Filter(At(t), SortByTime(s)) == Filter(At(t), s) {
        InsertByTimeAt(s[0], SortByTime(s[1..]), t);
      }
    }
  }

  lemma TailAt(s: seq<LogLine>, u: nat)
    requires s != []
    ensures var all := Filter(At(u), s);
            if s[0].timestamp == u then all != [] && all[0] == s[0] && Filter(At(u), s[1..]) == all[1..]
            else Filter(At(u), s[1..]) == all
  {
  }

  lemma HeadsEqual(a: seq<LogLine>, b: seq<LogLine>)
    requires Ascending(a) && Ascending(b) && a != [] && b != []
    requires forall t :: Filter(At(t), a) == Filter(At(t), b)
    ensures a[0] == b[0]
  {
    var t, u := a[0].timestamp, b[0].timestamp;
    TailAt(a, t);
    TailAt(b, u);
    assert Filter(At(t), a) == Filter(At(t), b) && Filter(At(u), a) == Filter(At(u), b);
    assert a[0] in Filter(At(t), b) && b[0] in Filter(At(u), a);
  }

  /** Ascending lines are determined by what they hold at each timestamp. */
  lemma {:induction false} AscendingUnique(a: seq<LogLine>, b: seq<LogLine>)
    requires Ascending(a) && Ascending(b)
    requires forall t :: Filter(At(t), a) == Filter(At(t), b)
    ensures a == b
  {
    if a == [] && b == [] {
    } else if a == [] {
      TailAt(b, b[0].timestamp);
    } else if b == [] {
      TailAt(a, a[0].timestamp);
    } else {
      HeadsEqual(a, b);
      forall u ensures Filter(At(u), a[1..]) == Filter(At(u), b[1..]) {
        assert Filter(At(u), a) == Filter(At(u), b);
        TailAt(a, u);
        TailAt(b, u);
      }
      hide Filter;
      AscendingUnique(a[1..], b[1..]);
      assert a == [a[0]] + a[1..] && b == [b[0]] + b[1..];
    }
  }
}
