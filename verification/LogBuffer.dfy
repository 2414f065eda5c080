/** The in-memory log store: one ring buffer per process under a line cap, and a memory
    budget for all of them together, enforced by taking lines from the longest buffer. */
module LogBuffer {
  import opened Common
  import opened LogLines

  /** What one eviction pass may do: nothing while memory is within the threshold;
      otherwise the oldest lines go, from whichever buffer is longest, until the target is
      met and no further. */
  ghost predicate EvictionPass(base: nat, threshold: nat, target: nat, before: Buffers, after: Buffers) {
    if TotalBytes(base, before) <= threshold then after == before
    else
      && Shrinks(before, after)
      && TotalBytes(base, after) <= target
      && Fair(before, after)
      && (after != before ==> LastWasNeeded(base, target, before, after))
  }

  ghost predicate Shrinks(before: Buffers, after: Buffers) {
    after.Keys == before.Keys && forall p :: p in before ==> IsSuffix(after[p], before[p])
  }

  /** A buffer that lost a line is at most one line shorter than any other is long. */
  ghost predicate Fair(before: Buffers, after: Buffers) {
    forall p, q :: p in before && q in after && p in after && |after[p]| < |before[p]| ==> |after[q]| <= |after[p]| + 1
  }

  /** With the last evicted line back in place the target would be missed. */
  ghost predicate LastWasNeeded(base: nat, target: nat, before: Buffers, after: Buffers) {
    exists p :: p in before && p in after && |after[p]| < |before[p]| &&
                TotalBytes(base, after) + LineSize(base, before[p][|before[p]| - |after[p]| - 1]) > target
  }

  lemma PassStart(b: Buffers)
    ensures Shrinks(b, b) && Fair(b, b)
  {
  }

  lemma LongestExists(b: Buffers, some: string)
    requires some in b && b[some] != []
    ensures exists p :: p in b && b[p] != [] && forall q :: q in b ==> |b[q]| <= |b[p]|
    decreases |b|
  {
    if p :| p in b && |b[some]| < |b[p]| {
      var rest := b - {some};
      assert p in rest && rest[p] == b[p];
      LongestExists(rest, p);
      var m :| m in rest && rest[m] != [] && forall q :: q in rest ==> |rest[q]| <= |rest[m]|;
      assert |rest[p]| <= |rest[m]|;
      forall q | q in b ensures |b[q]| <= |b[m]| {
        assert q != some ==> q in rest && rest[q] == b[q];
      }
    }
  }

  /** One line taken from a longest buffer keeps the pass fair. */
  lemma EvictOne(base: nat, target: nat, before: Buffers, b: Buffers, p: string)
    requires Shrinks(before, b) && Fair(before, b) && TotalBytes(base, b) > target
    requires p in b && b[p] != [] && forall q :: q in b ==> |b[q]| <= |b[p]|
    ensures var next := b[p := b[p][1..]];
            && Shrinks(before, next) && Fair(before, next)
            && TotalBytes(base, next) == TotalBytes(base, b) - LineSize(base, b[p][0])
            && LastWasNeeded(base, target, before, next)
  {
    TotalUpdate(base, b, p, b[p][1..]);
    EvictKeepsSuffixes(before, b, p);
    hide TotalBytes, Shrinks, Bytes, LineSize;
    EvictKeepsFair(before, b, p);
    hide Fair;
    var next := b[p := b[p][1..]];
    assert p in next && |next[p]| < |before[p]|;
  }

  lemma EvictKeepsSuffixes(before: Buffers, b: Buffers, p: string)
    requires Shrinks(before, b) && p in b && b[p] != []
    ensures Shrinks(before, b[p := b[p][1..]]) && p in before && |b[p]| <= |before[p]|
    ensures before[p][|before[p]| - |b[p]|] == b[p][0]
  {
    SuffixTransitive(b[p][1..], b[p], before[p]);
  }

  lemma EvictKeepsFair(before: Buffers, b: Buffers, p: string)
    requires Fair(before, b) && p in b && b[p] != [] && forall q :: q in b ==> |b[q]| <= |b[p]|
    ensures Fair(before, b[p := b[p][1..]])
  {
  }

  /** Each buffer holds the newest lines pushed for its process, within the cap. */
  ghost predicate Buffered(b: Buffers, history: Buffers, maxLines: nat) {
    forall p :: Holds(p, Lines(b, p), Lines(history, p), maxLines)
  }

  ghost predicate Holds(p: string, s: seq<LogLine>, past: seq<LogLine>, maxLines: nat) {
    |s| <= maxLines && IsSuffix(s, past) && forall l :: l in s ==> l.process == p
  }

  lemma HoldsLess(p: string, s: seq<LogLine>, t: seq<LogLine>, past: seq<LogLine>, maxLines: nat, cap: nat)
    requires Holds(p, t, past, maxLines) && IsSuffix(s, t) && |s| <= cap
    ensures Holds(p, s, past, cap)
  {
  }

  lemma HoldsPushed(s: seq<LogLine>, past: seq<LogLine>, maxLines: nat, log: LogLine)
    requires Holds(log.process, s, past, maxLines)
    ensures Holds(log.process, Newest(s + [log], maxLines), past + [log], maxLines)
  {
    hide IsSuffix;
    var all := s + [log];
    SuffixAppend(s, past, log);
    assert Holds(log.process, all, past + [log], maxLines + 1);
    HoldsLess(log.process, Newest(all, maxLines), all, past + [log], maxLines + 1, maxLines);
  }

  /** After a push and the per-process trim. */
  lemma PushedBuffered(b: Buffers, history: Buffers, maxLines: nat, log: LogLine)
    requires Buffered(b, history, maxLines)
    ensures Buffered(Pushed(b, maxLines, log), Recorded(history, log), maxLines)
  {
    hide Holds, Newest;
    forall p ensures Holds(p, Lines(Pushed(b, maxLines, log), p), Lines(Recorded(history, log), p), maxLines) {
      assert Holds(p, Lines(b, p), Lines(history, p), maxLines);
      if p == log.process {
        HoldsPushed(Lines(b, p), Lines(history, p), maxLines, log);
      }
    }
  }

  /** The line has joined its process's buffer, whose newest lines are kept, up to the cap;
      no other buffer has changed. */
  ghost predicate Stores(before: Buffers, log: LogLine, maxLines: nat, after: Buffers) {
    var all := (if log.process in before then before[log.process] else []) + [log];
    after == before[log.process := all[if |all| <= maxLines then 0 else |all| - maxLines..]]
  }

  lemma PushedStores(b: Buffers, maxLines: nat, log: LogLine)
    ensures forall stored :: Stores(b, log, maxLines, stored) <==> stored == Pushed(b, maxLines, log)
  {
    hide Newest, IsSuffix;
    var l := if log.process in b then b[log.process] else [];
    assert Lines(b, log.process) == l;
    hide Lines;
    NewestExplicitly(l + [log], maxLines);
  }

  lemma NewestExplicitly(s: seq<LogLine>, n: nat)
    ensures Newest(s, n) == s[if |s| <= n then 0 else |s| - n..]
  {
  }

  lemma LengthsAfterPush(b: Buffers, history: Buffers, maxLines: nat, log: LogLine, p: string)
    ensures var now := |Lines(Pushed(b, maxLines, log), p)|;
            if p != log.process then now == |Lines(b, p)|
            else now == if |Lines(b, p)| + 1 <= maxLines then |Lines(b, p)| + 1 else maxLines
    ensures |Lines(Recorded(history, log), p)| == |Lines(history, p)| + if p == log.process then 1 else 0
  {
    hide IsSuffix, Newest;
  }

  ghost predicate IsFull(b: Buffers, history: Buffers, maxLines: nat) {
    forall p :: |Lines(b, p)| == if |Lines(history, p)| <= maxLines then |Lines(history, p)| else maxLines
  }

  lemma PushedFull(b: Buffers, history: Buffers, maxLines: nat, log: LogLine)
    ensures IsFull(b, history, maxLines) ==> IsFull(Pushed(b, maxLines, log), Recorded(history, log), maxLines)
  {
    if IsFull(b, history, maxLines) {
      forall p
        ensures var n := |Lines(Recorded(history, log), p)|;
                |Lines(Pushed(b, maxLines, log), p)| == if n <= maxLines then n else maxLines
      {
        LengthsAfterPush(b, history, maxLines, log, p);
        hide Pushed, Recorded, Lines;
      }
    }
  }

  lemma ClearedFull(b: Buffers, history: Buffers, maxLines: nat, name: string)
    ensures IsFull(b, history, maxLines) ==> IsFull(b - {name}, history - {name}, maxLines)
  {
    if IsFull(b, history, maxLines) {
      forall p
        ensures var n := |Lines(history - {name}, p)|;
                |Lines(b - {name}, p)| == if n <= maxLines then n else maxLines
      {
        assert p != name ==> Lines(b - {name}, p) == Lines(b, p) && Lines(history - {name}, p) == Lines(history, p);
      }
    }
  }

  /** Within the threshold nothing is evicted. */
  lemma PassWithin(base: nat, threshold: nat, target: nat, before: Buffers, after: Buffers)
    requires EvictionPass(base, threshold, target, before, after)
    ensures TotalBytes(base, before) <= threshold ==> after == before
  {
  }

  lemma TrimmedExplicitly(b: Buffers, history: Buffers, cap: nat, max: nat)
    ensures var after := Trimmed(b, b.Keys, max);
            && after.Keys == b.Keys
            && (forall p :: p in after ==> after[p] == b[p][if |b[p]| <= max then 0 else |b[p]| - max..])
            && (max <= cap && IsFull(b, history, cap) ==> IsFull(after, history, max))
  {
    forall p | p in b ensures Newest(b[p], max) == b[p][if |b[p]| <= max then 0 else |b[p]| - max..] {
      NewestExplicitly(b[p], max);
    }
    hide IsSuffix, Newest;
  }

  function Pushed(b: Buffers, maxLines: nat, log: LogLine): Buffers {
    b[log.process := Newest(Lines(b, log.process) + [log], maxLines)]
  }

  class LogStore {
    const base: nat                 // bytes of a line apart from its texts
    const thresholdOf: nat -> nat   // memory limit -> usage at which eviction starts
    const targetOf: nat -> nat      // memory limit -> usage at which it stops
    var buffers: Buffers
    var estimatedMemory: nat
    var maxLines: nat
    var memoryLimit: Option<nat>
    ghost var history: Buffers      // lines pushed for each process since its last clear

    ghost predicate Valid()
      reads this
    {
      && (forall limit :: targetOf(limit) <= thresholdOf(limit) <= limit)
      && estimatedMemory == TotalBytes(base, buffers)
      && (memoryLimit.Some? ==> estimatedMemory <= thresholdOf(memoryLimit.value))
      && Buffered(buffers, history, maxLines)
    }

    /** Every buffer holds all of its process's history, or as much as the cap allows. */
    ghost predicate Full()
      reads this
    {
      IsFull(buffers, history, maxLines)
    }

    constructor (base: nat, thresholdOf: nat -> nat, targetOf: nat -> nat, maxLines: nat, memoryLimit: Option<nat>)
      requires forall limit :: targetOf(limit) <= thresholdOf(limit) <= limit
      ensures Valid() && Full() && buffers == map[] && history == map[]
      ensures this.base == base && this.thresholdOf == thresholdOf && this.targetOf == targetOf
      ensures this.maxLines == maxLines && this.memoryLimit == memoryLimit
    {
      hide TotalBytes, Buffered;
      EmptyStore(base, maxLines);
      this.base, this.thresholdOf, this.targetOf := base, thresholdOf, targetOf;
      this.maxLines, this.memoryLimit := maxLines, memoryLimit;
      buffers, estimatedMemory, history := map[], 0, map[];
    }

    /** Terminates with the memory counter exact, never saturating it. A longest nonempty
        buffer always exists while memory is above the target, so the source's ways out of
        the loop for a missing or empty buffer are dead. */
    method MaybeEvictForMemory()
      requires estimatedMemory == TotalBytes(base, buffers)
      requires forall limit :: targetOf(limit) <= thresholdOf(limit)
      modifies this`buffers, this`estimatedMemory
      ensures estimatedMemory == TotalBytes(base, buffers)
      ensures if memoryLimit.None? then buffers == old(buffers)
              else
                var limit := memoryLimit.value;
                EvictionPass(base, thresholdOf(limit), targetOf(limit), old(buffers), buffers)
    {
      if memoryLimit.None? {
        return;
      }
      var threshold, target := thresholdOf(memoryLimit.value), targetOf(memoryLimit.value);
      if estimatedMemory <= threshold {
        return;
      }
      ghost var before := buffers;
      PassStart(before);
      hide Shrinks, Fair, LastWasNeeded, TotalBytes, LineCount;
      while estimatedMemory > target
        invariant estimatedMemory == TotalBytes(base, buffers)
        invariant Shrinks(before, buffers) && Fair(before, buffers)
        invariant buffers != before ==> LastWasNeeded(base, target, before, buffers)
        decreases LineCount(buffers)
      {
        EvictFromLongest(target, before);
      }
    }

    method EvictFromLongest(target: nat, ghost before: Buffers)
      requires estimatedMemory == TotalBytes(base, buffers) && estimatedMemory > target
      requires Shrinks(before, buffers) && Fair(before, buffers)
      modifies this`buffers, this`estimatedMemory
      ensures estimatedMemory == TotalBytes(base, buffers)
      ensures Shrinks(before, buffers) && Fair(before, buffers) && LastWasNeeded(base, target, before, buffers)
      ensures LineCount(buffers) < LineCount(old(buffers))
    {
      hide Shrinks, Fair, LastWasNeeded, TotalBytes, LineCount;
      NonemptyBuffer(base, buffers);
      var longest :| longest in buffers && buffers[longest] != [] &&
                     forall q :: q in buffers ==> |buffers[q]| <= |buffers[longest]|;
      EvictOne(base, target, before, buffers, longest);
      LineCountFalls(buffers, longest);
      var evicted := buffers[longest][0];
      buffers := buffers[longest := buffers[longest][1..]];
      estimatedMemory := SaturatingSub(estimatedMemory, LineSize(base, evicted));
    }

    /** Drops the oldest lines of one buffer until it is within the cap. */
    method TrimBuffer(name: string)
      requires name in buffers && estimatedMemory == TotalBytes(base, buffers)
      modifies this`buffers, this`estimatedMemory
      ensures buffers == old(buffers)[name := Newest(old(buffers)[name], maxLines)]
      ensures estimatedMemory == TotalBytes(base, buffers)
    {
      hide TotalBytes;
      ghost var whole, dropped := buffers[name], 0;
      while |buffers[name]| > maxLines
        invariant name in buffers && dropped <= |whole| && buffers[name] == whole[dropped..]
        invariant dropped == 0 || |whole| - dropped >= maxLines
        invariant buffers == old(buffers)[name := buffers[name]]
        invariant estimatedMemory == TotalBytes(base, buffers)
      {
        TotalUpdate(base, buffers, name, buffers[name][1..]);
        TailOfTail(whole, dropped);
        dropped := dropped + 1;
        var evicted := buffers[name][0];
        buffers := buffers[name := buffers[name][1..]];
        estimatedMemory := SaturatingSub(estimatedMemory, LineSize(base, evicted));
      }
    }

    /** A pushed line joins its process's buffer, which is trimmed to the cap. */
    method Store(log: LogLine)
      requires estimatedMemory == TotalBytes(base, buffers)
      modifies this`buffers, this`estimatedMemory
      ensures estimatedMemory == TotalBytes(base, buffers)
      ensures buffers == Pushed(old(buffers), maxLines, log)
    {
      hide TotalBytes;
      var p := log.process;
      TotalUpdate(base, buffers, p, Lines(buffers, p) + [log]);
      BytesConcat(base, Lines(buffers, p), [log]);
      assert Bytes(base, [log]) == LineSize(base, log);
      estimatedMemory := estimatedMemory + LineSize(base, log);
      buffers := buffers[p := Lines(buffers, p) + [log]];
      TrimBuffer(p);
    }

    /** Then one eviction pass brings memory back under the threshold. Where there is no limit,
        or the threshold is not exceeded, the process's buffer has the newest of its old lines
        followed by the pushed one, as many as the cap allows, and no other buffer changes. */
    method PushInternal(log: LogLine)
      requires Valid()
      modifies this`buffers, this`estimatedMemory, this`history
      ensures Valid() && history == Recorded(old(history), log)
      ensures memoryLimit.None? ==> Stores(old(buffers), log, maxLines, buffers)
      ensures memoryLimit.Some? ==>
                forall stored ::
                  && Stores(old(buffers), log, maxLines, stored)
                  && TotalBytes(base, stored) <= thresholdOf(memoryLimit.value) ==>
                    buffers == stored
      ensures memoryLimit.None? && old(Full()) ==> Full()
      ensures var pushed := Pushed(old(buffers), maxLines, log);
              if memoryLimit.None? then buffers == pushed
              else EvictionPass(base, thresholdOf(memoryLimit.value), targetOf(memoryLimit.value), pushed, buffers)
    {
      hide TotalBytes, EvictionPass, Buffered, Pushed, Recorded, IsFull, Lines, Stores;
      PushedStores(buffers, maxLines, log);
      PushedBuffered(buffers, history, maxLines, log);
      PushedFull(buffers, history, maxLines, log);
      Store(log);
      history := Recorded(history, log);
      ghost var pushed := buffers;
      MaybeEvictForMemory();
      if memoryLimit.Some? {
        var limit := memoryLimit.value;
        PassKeeps(base, thresholdOf(limit), targetOf(limit), pushed, buffers, history, maxLines);
        PassWithin(base, thresholdOf(limit), targetOf(limit), pushed, buffers);
      }
    }

    method SetMemoryLimit(bytes: nat) returns (previous: Option<nat>)
      requires Valid()
      modifies this`buffers, this`estimatedMemory, this`memoryLimit
      ensures Valid() && previous == old(memoryLimit) && memoryLimit == Some(bytes)
      ensures EvictionPass(base, thresholdOf(bytes), targetOf(bytes), old(buffers), buffers)
    {
      hide TotalBytes, EvictionPass, Buffered;
      previous := memoryLimit;
      memoryLimit := Some(bytes);
      MaybeEvictForMemory();
      PassKeeps(base, thresholdOf(bytes), targetOf(bytes), old(buffers), buffers, history, maxLines);
    }

    method SetMaxLinesPerProcess(max: nat) returns (previous: nat)
      requires Valid()
      modifies this`buffers, this`estimatedMemory, this`maxLines
      ensures Valid() && previous == old(maxLines) && maxLines == max
      ensures buffers == Trimmed(old(buffers), old(buffers).Keys, max)
      ensures buffers.Keys == old(buffers).Keys
      ensures forall p :: p in buffers ==>
                var s := old(buffers)[p]; buffers[p] == s[if |s| <= max then 0 else |s| - max..]
      ensures max <= old(maxLines) && old(Full()) ==> Full()
    {
      hide TotalBytes, Buffered;
      previous := maxLines;
      maxLines := max;
      var names := buffers.Keys;
      while names != {}
        invariant maxLines == max && names <= old(buffers).Keys == buffers.Keys
        invariant estimatedMemory == TotalBytes(base, buffers) && estimatedMemory <= old(estimatedMemory)
        invariant buffers == Trimmed(old(buffers), old(buffers).Keys - names, max)
      {
        hide Newest, Trimmed;
        var name :| name in names;
        TrimmedOne(old(buffers), old(buffers).Keys - names, max, name);
        assert old(buffers).Keys - (names - {name}) == old(buffers).Keys - names + {name};
        names := names - {name};
        ghost var before := buffers;
        TrimBuffer(name);
        TotalUpdate(base, before, name, buffers[name]);
        BytesOfSuffix(base, buffers[name], before[name]);
      }
      assert old(buffers).Keys - {} == old(buffers).Keys;
      NewestBuffered(old(buffers), history, old(maxLines), max);
      TrimmedExplicitly(old(buffers), history, old(maxLines), max);
    }

    method Clear()
      requires Valid()
      modifies this`buffers, this`estimatedMemory, this`history
      ensures Valid() && Full() && buffers == map[] && history == map[]
    {
      hide TotalBytes, Buffered;
      EmptyStore(base, maxLines);
      buffers, estimatedMemory, history := map[], 0, map[];
    }

    method ClearProcess(name: string)
      requires Valid()
      modifies this`buffers, this`estimatedMemory, this`history
      ensures Valid() && buffers == old(buffers) - {name} && history == old(history) - {name}
      ensures old(Full()) ==> Full()
    {
      hide IsFull, Buffered, Lines;
      ClearedFull(buffers, history, maxLines, name);
      if name in buffers {
        TotalAt(base, buffers, name);
        var freed := Bytes(base, buffers[name]);
        buffers := buffers - {name};
        estimatedMemory := SaturatingSub(estimatedMemory, freed);
      } else {
        assert buffers - {name} == buffers;
      }
      history := history - {name};
      ClearedBuffered(old(buffers), old(history), maxLines, name);
    }
  }

  lemma TailOfTail(s: seq<LogLine>, n: nat)
    requires n < |s|
    ensures s[n..][1..] == s[n + 1..]
  {
  }

  lemma EmptyStore(base: nat, maxLines: nat)
    ensures TotalBytes(base, map[]) == 0 && Buffered(map[], map[], maxLines)
  {
  }

  /** An eviction pass keeps buffers within cap and history, and memory within the limit. */
  lemma PassKeeps(base: nat, threshold: nat, target: nat, before: Buffers, after: Buffers, history: Buffers,
                  maxLines: nat)
    requires EvictionPass(base, threshold, target, before, after) && target <= threshold
    requires Buffered(before, history, maxLines)
    ensures Buffered(after, history, maxLines) && TotalBytes(base, after) <= threshold
  {
  }

  /** The buffers once those of `names` have been cut to their newest `max` lines. */
  function Trimmed(b: Buffers, names: set<string>, max: nat): Buffers {
    map p | p in b :: if p in names then Newest(b[p], max) else b[p]
  }

  lemma TrimmedOne(b: Buffers, names: set<string>, max: nat, name: string)
    requires name in b && name !in names
    ensures var t := Trimmed(b, names, max);
            name in t && IsSuffix(Newest(t[name], max), t[name]) &&
            Trimmed(b, names + {name}, max) == t[name := Newest(t[name], max)]
    ensures Trimmed(b, names, max).Keys == b.Keys
  {
  }

  lemma NewestBuffered(b: Buffers, history: Buffers, cap: nat, max: nat)
    requires Buffered(b, history, cap)
    ensures Buffered(Trimmed(b, b.Keys, max), history, max)
  {
  }

  lemma ClearedBuffered(b: Buffers, history: Buffers, maxLines: nat, name: string)
    requires Buffered(b, history, maxLines)
    ensures Buffered(b - {name}, history - {name}, maxLines)
  {
    forall p ensures Holds(p, Lines(b - {name}, p), Lines(history - {name}, p), maxLines) {
      assert Holds(p, Lines(b, p), Lines(history, p), maxLines);
    }
  }

  lemma BytesOfSuffix(base: nat, s: seq<LogLine>, t: seq<LogLine>)
    requires IsSuffix(s, t)
    ensures Bytes(base, s) <= Bytes(base, t)
  {
  }

  lemma NonemptyBuffer(base: nat, b: Buffers)
    requires TotalBytes(base, b) > 0
    ensures exists p :: p in b && b[p] != [] && forall q :: q in b ==> |b[q]| <= |b[p]|
  {
    if forall p :: p in b ==> b[p] == [] {
      TotalZero(base, b);
    } else {
      var p :| p in b && b[p] != [];
      LongestExists(b, p);
    }
  }

  /** Lines held in all buffers, which bounds an eviction pass. */
  ghost function LineCount(b: Buffers): nat {
    if b == map[] then 0
    else
      var p :| p in b;
      |b[p]| + LineCount(b - {p})
  }

  lemma {:induction false} LineCountAt(b: Buffers, p: string)
    requires p in b
    ensures LineCount(b) == |b[p]| + LineCount(b - {p})
    decreases |b|
  {
    var q :| q in b && LineCount(b) == |b[q]| + LineCount(b - {q});
    if p != q {
      assert b - {q} - {p} == b - {p} - {q};
      LineCountAt(b - {q}, p);
      LineCountAt(b - {p}, q);
    }
  }

  lemma LineCountFalls(b: Buffers, p: string)
    requires p in b && b[p] != []
    ensures LineCount(b[p := b[p][1..]]) < LineCount(b)
  {
    LineCountAt(b, p);
    LineCountAt(b[p := b[p][1..]], p);
    assert b[p := b[p][1..]] - {p} == b - {p};
  }
}
