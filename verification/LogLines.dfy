/** Log lines and their bookkeeping, shared by the log backends. */
module LogLines {
  import opened Common

  datatype Source = Process | Daemon

  datatype OutputKind = Stdout | Stderr | Combined

  datatype LogLine = LogLine(process: string, group: Option<string>, content: string, timestamp: nat,
                             source: Source, outputKind: OutputKind)

  type Buffers = map<string, seq<LogLine>>

  /** Estimated bytes of a line: the structure itself, `base` bytes, and its texts. */
  function LineSize(base: nat, l: LogLine): nat {
    base + |l.process| + |l.content| + match l.group case Some(g) => |g| case None => 0
  }

  /** Every character of a line's texts costs one byte more. */
  lemma SizeGrows(base: nat, l: LogLine, more: string)
    ensures LineSize(base, l.(content := l.content + more)) == LineSize(base, l) + |more|
    ensures LineSize(base, l.(process := l.process + more)) == LineSize(base, l) + |more|
    ensures LineSize(base, l.(group := Some(more))) == LineSize(base, l.(group := None)) + |more|
    ensures LineSize(base, l.(process := "", content := "", group := None)) == base
  {
  }

  function Bytes(base: nat, s: seq<LogLine>): nat {
    if s == [] then 0 else LineSize(base, s[0]) + Bytes(base, s[1..])
  }

  lemma {:induction false} BytesConcat(base: nat, s: seq<LogLine>, t: seq<LogLine>)
    ensures Bytes(base, s + t) == Bytes(base, s) + Bytes(base, t)
  {
    if s == [] {
      assert s + t == t;
    } else {
      assert (s + t)[1..] == s[1..] + t;
      BytesConcat(base, s[1..], t);
    }
  }

  /** The sum over all buffers. */
  ghost function TotalBytes(base: nat, b: Buffers): nat {
    if b == map[] then 0
    else
      var p :| p in b;
      Bytes(base, b[p]) + TotalBytes(base, b - {p})
  }

  lemma {:induction false} TotalAt(base: nat, b: Buffers, p: string)
    requires p in b
    ensures TotalBytes(base, b) == Bytes(base, b[p]) + TotalBytes(base, b - {p})
    decreases |b|
  {
    var q :| q in b && TotalBytes(base, b) == Bytes(base, b[q]) + TotalBytes(base, b - {q});
    if p != q {
      var rest := b - {p} - {q};
      assert b - {q} - {p} == rest;
      TotalAt(base, b - {q}, p);
      TotalAt(base, b - {p}, q);
    }
  }

  lemma TotalUpdate(base: nat, b: Buffers, p: string, s: seq<LogLine>)
    ensures TotalBytes(base, b[p := s]) ==
            TotalBytes(base, b) - (if p in b then Bytes(base, b[p]) else 0) + Bytes(base, s)
  {
    TotalAt(base, b[p := s], p);
    assert b[p := s] - {p} == b - {p};
    if p in b {
      TotalAt(base, b, p);
    } else {
      assert b - {p} == b;
    }
  }

  lemma {:induction false} TotalZero(base: nat, b: Buffers)
    requires forall p :: p in b ==> b[p] == []
    ensures TotalBytes(base, b) == 0
    decreases |b|
  {
    if b == map[] {
    } else {
      var p :| p in b;
      TotalAt(base, b, p);
      TotalZero(base, b - {p});
    }
  }

  /** The newest `n` elements. */
  function Newest<T>(s: seq<T>, n: nat): (r: seq<T>)
    ensures IsSuffix(r, s) && |r| == if |s| <= n then |s| else n
  {
    if |s| <= n then s else s[|s| - n..]
  }

  function Lines(b: Buffers, p: string): seq<LogLine> {
    if p in b then b[p] else []
  }

  /** All but the oldest `n` elements. */
  function Drop<T>(s: seq<T>, n: nat): (r: seq<T>)
    ensures IsSuffix(r, s)
  {
    if n <= |s| then s[n..] else []
  }

  function SaturatingSub(a: nat, b: nat): nat {
    if a < b then 0 else a - b
  }

  /** What is left of a number in 64 signed bits: `as i64`, or arithmetic that wraps. */
  function AsI64(n: int): int {
    var m := n % 0x1_0000_0000_0000_0000;
    if m < 0x8000_0000_0000_0000 then m else m - 0x1_0000_0000_0000_0000
  }

  /** Small enough for the cast to change nothing. */
  predicate Fits(n: nat) {
    n < 0x8000_0000_0000_0000
  }

  /** The lines seen for each process, after one more. */
  function Recorded(history: Buffers, log: LogLine): (r: Buffers)
    ensures var p := log.process;
            r == history[p := (if p in history then history[p] else []) + [log]]
  {
    history[log.process := Lines(history, log.process) + [log]]
  }
}
