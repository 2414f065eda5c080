/** Splicing generated text into a document between a pair of markers. */
module Splicer {
  import opened Common
  import opened Strings

  const BEGIN_PREFIX := "<!-- BEGIN: "
  const END_PREFIX := "<!-- END: "
  const MARKER_SUFFIX := " -->"

  datatype Error = MissingBegin(marker: string) | MissingEnd(marker: string) | DuplicateBegin(offset: nat)

  function BeginMarker(name: string): (m: string)
    ensures m != [] && ('\n' in m <==> '\n' in name)
  {
    Newlines(BEGIN_PREFIX, name, MARKER_SUFFIX);
    BEGIN_PREFIX + name + MARKER_SUFFIX
  }

  function EndMarker(name: string): (m: string)
    ensures m != [] && ('\n' in m <==> '\n' in name)
  {
    Newlines(END_PREFIX, name, MARKER_SUFFIX);
    END_PREFIX + name + MARKER_SUFFIX
  }

  lemma Newlines(a: string, b: string, c: string)
    ensures '\n' in a + b + c <==> '\n' in a || '\n' in b || '\n' in c
  {
  }

  function TrimStart(s: string): string {
    if s != [] && s[0] == '\n' then TrimStart(s[1..]) else s
  }

  function TrimEnd(s: string): string {
    if s != [] && s[|s| - 1] == '\n' then TrimEnd(s[..|s| - 1]) else s
  }

  function FormatBody(content: string): (body: string)
    ensures body != [] && body[0] == '\n' && body[|body| - 1] == '\n'
  {
    var trimmed := TrimEnd(TrimStart(content));
    if trimmed == [] then "\n" else "\n" + trimmed + "\n\n"
  }

  predicate Newline(s: string) {
    forall i :: 0 <= i < |s| ==> s[i] == '\n'
  }

  /** `trimmed` is the content without the newlines before and after it. */
  ghost predicate IsTrimmed(content: string, before: string, trimmed: string, after: string) {
    && content == before + (trimmed + after) && Newline(before) && Newline(after)
    && (trimmed != [] ==> trimmed[0] != '\n' && trimmed[|trimmed| - 1] != '\n')
  }

  /** The content without the newlines around it stands between one newline and two; without
      any there is just one. */
  lemma BodyOf(content: string, before: string, trimmed: string, after: string)
    requires IsTrimmed(content, before, trimmed, after)
    ensures FormatBody(content) == if trimmed == [] then "\n" else "\n" + trimmed + "\n\n"
  {
    TrimStartOf(before, trimmed + after);
    if trimmed == [] {
      TrimStartOf(after, []);
      assert after + [] == after && trimmed + after == after;
    } else {
      assert TrimStart(trimmed + after) == trimmed + after;
      TrimEndOf(trimmed, after);
    }
  }

  lemma {:induction false} TrimStartOf(before: string, s: string)
    requires Newline(before)
    ensures TrimStart(before + s) == TrimStart(s)
  {
    if before == [] {
      assert before + s == s;
    } else {
      assert (before + s)[1..] == before[1..] + s;
      TrimStartOf(before[1..], s);
    }
  }

  lemma {:induction false} TrimEndOf(s: string, after: string)
    requires Newline(after)
    ensures TrimEnd(s + after) == TrimEnd(s)
  {
    if after == [] {
      assert s + after == s;
    } else {
      var shorter := after[..|after| - 1];
      assert (s + after)[..|s + after| - 1] == s + shorter;
      TrimEndOf(s, shorter);
    }
  }

  /** Every content can be taken apart like that. */
  lemma TrimmedParts(content: string) returns (before: string, trimmed: string, after: string)
    ensures IsTrimmed(content, before, trimmed, after)
  {
    var start: string;
    before, start := LeadingNewlines(content);
    trimmed, after := TrailingNewlines(start);
  }

  lemma {:induction false} LeadingNewlines(s: string) returns (before: string, rest: string)
    ensures s == before + rest && Newline(before) && (rest != [] ==> rest[0] != '\n')
  {
    if s != [] && s[0] == '\n' {
      before, rest := LeadingNewlines(s[1..]);
      before := [s[0]] + before;
    } else {
      before, rest := [], s;
    }
  }

  lemma {:induction false} TrailingNewlines(s: string) returns (rest: string, after: string)
    ensures s == rest + after && Newline(after)
    ensures rest != [] ==> rest[|rest| - 1] != '\n' && rest[0] == s[0]
  {
    if s != [] && s[|s| - 1] == '\n' {
      rest, after := TrailingNewlines(s[..|s| - 1]);
      after := after + [s[|s| - 1]];
    } else {
      rest, after := s, [];
    }
  }

  /** Where a block's body starts and where it ends. */
  datatype Block = Block(start: nat, end: nat)

  function LocateBlock(b: string, e: string, text: string): (r: Result<Block, Error>)
    ensures r.Ok? ==> |b| <= r.value.start <= r.value.end && r.value.end + |e| <= |text|
  {
    match Find(text, b)
    case None => Err(MissingBegin(b))
    case Some(i) =>
      var start := i + |b|;
      match Find(text[start..], e)
      case None => Err(MissingEnd(e))
      case Some(j) =>
        match Find(text[start..start + j], b)
        case Some(k) => Err(DuplicateBegin(start + k))
        case None => Ok(Block(start, start + j))
  }

  function Replace(text: string, block: Block, body: string): string
    requires block.start <= block.end <= |text|
  {
    text[..block.start] + body + text[block.end..]
  }

  function Splice(name: string, content: string, text: string): Result<string, Error> {
    match LocateBlock(BeginMarker(name), EndMarker(name), text)
    case Err(error) => Err(error)
    case Ok(block) => Ok(Replace(text, block, FormatBody(content)))
  }

  // -------------------------------------------------------------------------
  // What LocateBlock finds

  /** `block` is the block of the first begin marker: no begin marker starts earlier, no end
      marker starts inside, and no begin marker lies inside. */
  ghost predicate IsBlock(b: string, e: string, text: string, block: Block) {
    && |b| <= block.start <= block.end && block.end + |e| <= |text|
    && OccursAt(text, b, block.start - |b|) && (forall i: nat :: i < block.start - |b| ==> !OccursAt(text, b, i))
    && OccursAt(text, e, block.end) && (forall i: nat :: block.start <= i < block.end ==> !OccursAt(text, e, i))
    && (forall i: nat :: block.start <= i && i + |b| <= block.end ==> !OccursAt(text, b, i))
  }

  lemma OccursInSlice(text: string, lo: nat, hi: nat, m: string, i: nat)
    requires lo <= hi <= |text|
    ensures OccursAt(text[lo..hi], m, i) <==> lo + i + |m| <= hi && OccursAt(text, m, lo + i)
  {
  }

  lemma OccursInTail(text: string, lo: nat, m: string, i: nat)
    requires lo <= |text|
    ensures OccursAt(text[lo..], m, i) <==> OccursAt(text, m, lo + i)
  {
  }

  lemma LocateIsBlock(b: string, e: string, text: string)
    ensures var r := LocateBlock(b, e, text); r.Ok? ==> IsBlock(b, e, text, r.value)
  {
    var r := LocateBlock(b, e, text);
    hide OccursAt;
    if r.Ok? {
      var start, end := r.value.start, r.value.end;
      OccursInTail(text, start, e, end - start);
      forall i: nat | start <= i < end ensures !OccursAt(text, e, i) {
        OccursInTail(text, start, e, i - start);
      }
      forall i: nat | start <= i && i + |b| <= end ensures !OccursAt(text, b, i) {
        OccursInSlice(text, start, end, b, i - start);
      }
    }
  }

  lemma BlockIsLocated(b: string, e: string, text: string, block: Block)
    requires IsBlock(b, e, text, block)
    ensures LocateBlock(b, e, text) == Ok(block)
  {
    hide OccursAt;
    var start, end := block.start, block.end;
    FindIs(text, b, start - |b|);
    forall j: nat ensures OccursAt(text[start..], e, j) <==> OccursAt(text, e, start + j) {
      OccursInTail(text, start, e, j);
    }
    FindIs(text[start..], e, end - start);
    forall j: nat ensures !OccursAt(text[start..end], b, j) {
      OccursInSlice(text, start, end, b, j);
    }
  }

  // -------------------------------------------------------------------------
  // What a splice does to its own block and to others

  /** Fenced by newlines, a text keeps newline-free markers from reaching across its ends. */
  ghost predicate Fenced(body: string) {
    body != [] && body[0] == '\n' && body[|body| - 1] == '\n'
  }

  ghost predicate Clean(body: string, m: string) {
    forall i: nat :: !OccursAt(body, m, i)
  }

  ghost predicate IsMarker(m: string) {
    m != [] && '\n' !in m
  }

  /** Where a marker can occur once `body` stands in for the text between `lo` and `hi`:
      before it, after it, or inside it. */
  lemma OccursAfterReplace(text: string, lo: nat, hi: nat, body: string, m: string, i: nat)
    requires lo <= hi <= |text| && Fenced(body) && IsMarker(m)
    ensures var out := text[..lo] + body + text[hi..];
            OccursAt(out, m, i) <==>
              if i + |m| <= lo then OccursAt(text, m, i)
              else if i >= lo + |body| then OccursAt(text, m, i - |body| - lo + hi)
              else lo <= i && i + |m| <= lo + |body| && OccursAt(body, m, i - lo)
  {
    var out := text[..lo] + body + text[hi..];
    if i < lo < i + |m| {
      assert m[lo - i] in m && out[lo] == '\n';
    } else if lo <= i < lo + |body| < i + |m| {
      var last := lo + |body| - 1;
      assert m[last - i] in m && out[last] == '\n';
    }
  }

  /** A clean body is found again as the block. */
  lemma OwnBlockAfter(b: string, e: string, text: string, block: Block, body: string)
    requires IsBlock(b, e, text, block) && IsMarker(b) && IsMarker(e)
    requires Fenced(body) && Clean(body, b) && Clean(body, e)
    ensures IsBlock(b, e, Replace(text, block, body), Block(block.start, block.start + |body|))
  {
    hide OccursAt;
    var out := Replace(text, block, body);
    forall i: nat
      ensures i + |b| <= block.start ==> (OccursAt(out, b, i) <==> OccursAt(text, b, i))
      ensures block.start < i + |b| <= block.start + |body| ==> !OccursAt(out, b, i)
    {
      OccursAfterReplace(text, block.start, block.end, body, b, i);
    }
    forall i: nat | block.start <= i
      ensures OccursAt(out, e, i) <==>
              i >= block.start + |body| && OccursAt(text, e, i - |body| - block.start + block.end)
    {
      OccursAfterReplace(text, block.start, block.end, body, e, i);
    }
  }

  /** A block that ends before the replaced one is found where it was. */
  lemma EarlierBlockAfter(b: string, e: string, text: string, mine: Block, other: Block, body: string)
    requires IsBlock(b, e, text, mine) && IsMarker(b) && IsMarker(e) && Fenced(body)
    requires mine.end + |e| <= other.start <= other.end <= |text|
    ensures IsBlock(b, e, Replace(text, other, body), mine)
  {
    hide OccursAt;
    forall i: nat, m | (m == b || m == e) && i + |m| <= other.start
      ensures OccursAt(Replace(text, other, body), m, i) <==> OccursAt(text, m, i)
    {
      OccursAfterReplace(text, other.start, other.end, body, m, i);
    }
  }

  /** A block that starts after the replaced one is found as far from the end as before,
      provided the new text does not bring in its begin marker. */
  lemma LaterBlockAfter(b: string, e: string, text: string, mine: Block, other: Block, body: string)
    requires IsBlock(b, e, text, mine) && IsMarker(b) && IsMarker(e) && Fenced(body) && Clean(body, b)
    requires other.start <= other.end <= mine.start - |b|
    ensures IsBlock(b, e, Replace(text, other, body), Shifted(mine, other, body))
  {
    hide OccursAt;
    var out, moved := Replace(text, other, body), Shifted(mine, other, body);
    var back := mine.start - moved.start;
    forall i: nat | i < moved.start - |b| || (moved.start <= i && i + |b| <= moved.end) ensures !OccursAt(out, b, i) {
      OccursAfterReplace(text, other.start, other.end, body, b, i);
      if i >= other.start + |body| {
        assert !OccursAt(text, b, i + back);
      }
    }
    forall i: nat | moved.start <= i < moved.end ensures !OccursAt(out, e, i) {
      OccursAfterReplace(text, other.start, other.end, body, e, i);
      assert !OccursAt(text, e, i + back);
    }
    OccursAfterReplace(text, other.start, other.end, body, b, moved.start - |b|);
    OccursAfterReplace(text, other.start, other.end, body, e, moved.end);
  }

  function Shifted(block: Block, other: Block, body: string): Block
    requires other.start <= other.end <= block.start <= block.end
  {
    Block(block.start - other.end + other.start + |body|, block.end - other.end + other.start + |body|)
  }

  // -------------------------------------------------------------------------
  // Markers in generated content

  lemma CleanAfterNewline(s: string, m: string)
    requires s != [] && s[0] == '\n' && IsMarker(m)
    ensures Clean(s, m) <==> Clean(s[1..], m)
  {
    assert m[0] in m && !OccursAt(s, m, 0);
    forall i: nat ensures OccursAt(s[1..], m, i) <==> OccursAt(s, m, 1 + i) {
      OccursInTail(s, 1, m, i);
    }
    if Clean(s[1..], m) {
      forall i: nat ensures !OccursAt(s, m, i) {
        assert i > 0 ==> !OccursAt(s[1..], m, i - 1);
      }
    }
  }

  lemma OccursBeforeNewline(s: string, m: string, i: nat)
    requires s != [] && s[|s| - 1] == '\n' && IsMarker(m)
    ensures OccursAt(s[..|s| - 1], m, i) <==> OccursAt(s, m, i)
  {
    if i <= |s| - 1 < i + |m| {
      assert m[|s| - 1 - i] in m;
    }
  }

  lemma CleanBeforeNewline(s: string, m: string)
    requires s != [] && s[|s| - 1] == '\n' && IsMarker(m)
    ensures Clean(s, m) <==> Clean(s[..|s| - 1], m)
  {
    hide OccursAt;
    var t := s[..|s| - 1];
    forall i: nat ensures OccursAt(t, m, i) <==> OccursAt(s, m, i) {
      OccursBeforeNewline(s, m, i);
    }
  }

  lemma {:induction false} CleanTrimStart(s: string, m: string)
    requires IsMarker(m)
    ensures Clean(TrimStart(s), m) <==> Clean(s, m)
  {
    if s != [] && s[0] == '\n' {
      CleanTrimStart(s[1..], m);
      CleanAfterNewline(s, m);
    }
  }

  lemma {:induction false} CleanTrimEnd(s: string, m: string)
    requires IsMarker(m)
    ensures Clean(TrimEnd(s), m) <==> Clean(s, m)
  {
    if s != [] && s[|s| - 1] == '\n' {
      CleanTrimEnd(s[..|s| - 1], m);
      CleanBeforeNewline(s, m);
    }
  }

  /** The body contains a marker exactly when the content does. */
  lemma CleanBody(content: string, m: string)
    requires IsMarker(m)
    ensures Clean(FormatBody(content), m) <==> Clean(content, m)
  {
    var trimmed, body := TrimEnd(TrimStart(content)), FormatBody(content);
    CleanTrimStart(content, m);
    CleanTrimEnd(TrimStart(content), m);
    CleanAfterNewline(body, m);
    if trimmed == [] {
      assert body[1..] == trimmed;
    } else {
      assert body[1..] == trimmed + "\n\n" && (trimmed + "\n\n")[..|trimmed| + 1] == trimmed + "\n";
      assert (trimmed + "\n")[..|trimmed|] == trimmed;
      CleanBeforeNewline(trimmed + "\n\n", m);
      CleanBeforeNewline(trimmed + "\n", m);
    }
  }

  // -------------------------------------------------------------------------
  // Main properties

  /** Everything outside the block of the first begin marker is kept to the letter. */
  lemma KeepsOutside(name: string, content: string, text: string, out: string)
    requires Splice(name, content, text) == Ok(out)
    ensures exists before, inner, after ::
              SplicedBetween(BeginMarker(name), EndMarker(name), FormatBody(content), text, out, before, inner, after)
  {
    var b, e := BeginMarker(name), EndMarker(name);
    hide OccursAt, BeginMarker, EndMarker, FormatBody;
    var block := LocateBlock(b, e, text).value;
    LocateIsBlock(b, e, text);
    BlockParts(b, e, text, block, FormatBody(content));
    FindIs(text, b, block.start - |b|);
    assert SplicedBetween(b, e, FormatBody(content), text, out,
                          text[..block.start - |b|], text[block.start..block.end], text[block.end + |e|..]);
  }

  /** The first `b` in `text` comes after `before`; what follows up to the next `e` gave way
      to `body`. */
  ghost predicate SplicedBetween(b: string, e: string, body: string, text: string, out: string,
                                 before: string, inner: string, after: string) {
    && text == before + b + inner + e + after && Find(text, b) == Some(|before|)
    && Clean(inner, b) && Clean(inner, e)
    && out == before + b + body + e + after
  }

  lemma BlockParts(b: string, e: string, text: string, block: Block, body: string)
    requires IsBlock(b, e, text, block) && b != [] && e != []
    ensures var before, after := text[..block.start - |b|], text[block.end + |e|..];
            var inner := text[block.start..block.end];
            && text == before + b + inner + e + after
            && Replace(text, block, body) == before + b + body + e + after
            && Clean(inner, b) && Clean(inner, e)
  {
    InsideIsClean(b, e, text, block);
    OccursSlice(text, b, block.start - |b|);
    OccursSlice(text, e, block.end);
    hide OccursAt, Clean, IsBlock;
    var before, inner, after := text[..block.start - |b|], text[block.start..block.end], text[block.end + |e|..];
    assert text[..block.start] == before + b && text[block.end..] == e + after;
    assert text == text[..block.start] + inner + text[block.end..];
  }

  lemma InsideIsClean(b: string, e: string, text: string, block: Block)
    requires IsBlock(b, e, text, block) && b != [] && e != []
    ensures Clean(text[block.start..block.end], b) && Clean(text[block.start..block.end], e)
  {
    hide OccursAt;
    var inner := text[block.start..block.end];
    forall i: nat ensures !OccursAt(inner, b, i) && !OccursAt(inner, e, i) {
      OccursFits(inner, b, i);
      OccursFits(inner, e, i);
      OccursInSlice(text, block.start, block.end, b, i);
      OccursInSlice(text, block.start, block.end, e, i);
      assert block.start + i + |b| <= block.end ==> !OccursAt(text, b, block.start + i);
      assert block.start + i < block.end ==> !OccursAt(text, e, block.start + i);
    }
  }

  lemma OccursSlice(s: string, m: string, i: nat)
    requires OccursAt(s, m, i)
    ensures s[i..i + |m|] == m
  {
  }

  /** The first occurrence that starts at `from` or later. */
  ghost predicate FirstFrom(text: string, m: string, from: nat, i: nat) {
    from <= i && OccursAt(text, m, i) && forall j: nat :: from <= j < i ==> !OccursAt(text, m, j)
  }

  ghost predicate NoneFrom(text: string, m: string, from: nat) {
    forall j: nat :: from <= j ==> !OccursAt(text, m, j)
  }

  lemma FindInTail(text: string, from: nat, m: string)
    requires from <= |text|
    ensures match Find(text[from..], m)
            case Some(i) => FirstFrom(text, m, from, from + i) && from + i + |m| <= |text|
            case None => NoneFrom(text, m, from)
  {
    forall i: nat ensures OccursAt(text[from..], m, i) <==> OccursAt(text, m, from + i) {
      OccursInTail(text, from, m, i);
    }
    hide OccursAt;
    var found := Find(text[from..], m);
    forall j: nat | from <= j && (found.Some? ==> j < from + found.value) ensures !OccursAt(text, m, j) {
      assert !OccursAt(text[from..], m, j - from);
    }
  }

  /** Searching a slice finds the first occurrence overall, if that one fits. */
  lemma FindInSlice(text: string, lo: nat, hi: nat, m: string)
    requires lo <= hi <= |text|
    ensures match Find(text[lo..hi], m)
            case Some(i) => FirstFrom(text, m, lo, lo + i) && lo + i + |m| <= hi
            case None => forall k: nat :: FirstFrom(text, m, lo, k) ==> k + |m| > hi
  {
    forall i: nat ensures OccursAt(text[lo..hi], m, i) <==> lo + i + |m| <= hi && OccursAt(text, m, lo + i) {
      OccursInSlice(text, lo, hi, m, i);
    }
    hide OccursAt;
    var found := Find(text[lo..hi], m);
    if found.Some? {
      forall j: nat | lo <= j < lo + found.value ensures !OccursAt(text, m, j) {
        assert !OccursAt(text[lo..hi], m, j - lo);
      }
    } else {
      forall k: nat | FirstFrom(text, m, lo, k) ensures k + |m| > hi {
        assert !OccursAt(text[lo..hi], m, k - lo);
      }
    }
  }

  /** The first `m` after a begin marker at `i`. */
  ghost predicate FirstAfter(b: string, text: string, i: nat, m: string, j: nat) {
    FirstFrom(text, m, i + |b|, j)
  }

  /** No end marker after the first begin marker. */
  ghost predicate EndMissing(b: string, e: string, text: string) {
    exists i: nat :: FirstFrom(text, b, 0, i) && NoneFrom(text, e, i + |b|)
  }

  /** Between the first begin marker and the first end marker after it, the next begin marker
      is at `k`. */
  ghost predicate BeginRepeated(b: string, e: string, text: string, k: nat) {
    exists i: nat, j: nat ::
      FirstFrom(text, b, 0, i) && FirstAfter(b, text, i, e, j) && FirstAfter(b, text, i, b, k) && k + |b| <= j
  }

  lemma LocateFails(b: string, e: string, text: string)
    ensures LocateBlock(b, e, text) == Err(MissingBegin(b)) <==> NoneFrom(text, b, 0)
    ensures LocateBlock(b, e, text) == Err(MissingEnd(e)) <==> EndMissing(b, e, text)
    ensures forall k: nat :: LocateBlock(b, e, text) == Err(DuplicateBegin(k)) <==> BeginRepeated(b, e, text, k)
  {
    hide OccursAt, FirstFrom, NoneFrom, EndMissing, BeginRepeated;
    assert text[0..] == text;
    FindInTail(text, 0, b);
    if Find(text, b).None? {
      NoBegin(b, e, text);
    } else {
      var i := Find(text, b).value;
      FindInTail(text, i + |b|, e);
      FoundFirst(b, e, text, i);
      if Find(text[i + |b|..], e).Some? {
        LocateRepeated(b, e, text, i, Find(text[i + |b|..], e).value);
      }
    }
  }

  lemma NoBegin(b: string, e: string, text: string)
    requires NoneFrom(text, b, 0)
    ensures !EndMissing(b, e, text) && forall k: nat :: !BeginRepeated(b, e, text, k)
  {
  }

  lemma LocateRepeated(b: string, e: string, text: string, i: nat, j: nat)
    requires Find(text, b) == Some(i) && i + |b| + j <= |text| && Find(text[i + |b|..], e) == Some(j)
    requires FirstFrom(text, b, 0, i) && FirstFrom(text, e, i + |b|, i + |b| + j)
    ensures LocateBlock(b, e, text) != Err(MissingEnd(e)) && LocateBlock(b, e, text) != Err(MissingBegin(b))
    ensures !NoneFrom(text, e, i + |b|)
    ensures forall k: nat :: LocateBlock(b, e, text) == Err(DuplicateBegin(k)) <==> BeginRepeated(b, e, text, k)
  {
    hide OccursAt, NoneFrom, BeginRepeated, LocateBlock, FirstFrom;
    LocateBetween(b, e, text, i, j);
    var start := i + |b|;
    var end := start + j;
    FindInSlice(text, start, end, b);
    var found := Find(text[start..end], b);
    match found
    case Some(k) => RepeatedAt(b, e, text, i, start, end, start + k);
    case None => NotRepeated(b, e, text, i, start, end);
  }

  lemma LocateBetween(b: string, e: string, text: string, i: nat, j: nat)
    requires Find(text, b) == Some(i) && i + |b| + j <= |text| && Find(text[i + |b|..], e) == Some(j)
    ensures LocateBlock(b, e, text) ==
              match Find(text[i + |b|..i + |b| + j], b)
              case Some(k) => Err(DuplicateBegin(i + |b| + k))
              case None => Ok(Block(i + |b|, i + |b| + j))
  {
    hide OccursAt;
  }

  /** With the first begin marker at `i`, a missing end is missing after it. */
  lemma FoundFirst(b: string, e: string, text: string, i: nat)
    requires FirstFrom(text, b, 0, i)
    ensures !NoneFrom(text, b, 0) && (EndMissing(b, e, text) <==> NoneFrom(text, e, i + |b|))
    ensures NoneFrom(text, e, i + |b|) ==> forall k: nat :: !BeginRepeated(b, e, text, k)
  {
    hide OccursAt;
    assert forall x: nat :: FirstFrom(text, b, 0, x) ==> x == i;
  }

  /** With the first end marker after it at `end` and the next begin marker at `k`. */
  lemma RepeatedAt(b: string, e: string, text: string, i: nat, start: nat, end: nat, k: nat)
    requires start == i + |b| && FirstFrom(text, b, 0, i) && FirstFrom(text, e, start, end)
    requires FirstFrom(text, b, start, k) && k + |b| <= end
    ensures !NoneFrom(text, e, i + |b|)
    ensures forall l: nat :: BeginRepeated(b, e, text, l) <==> l == k
  {
    hide OccursAt;
    assert forall x: nat :: FirstAfter(b, text, i, b, x) ==> x == k;
    assert forall x: nat :: FirstFrom(text, b, 0, x) ==> x == i;
    assert FirstAfter(b, text, i, e, end) && FirstAfter(b, text, i, b, k);
  }

  lemma NotRepeated(b: string, e: string, text: string, i: nat, start: nat, end: nat)
    requires start == i + |b| && FirstFrom(text, b, 0, i) && FirstFrom(text, e, start, end)
    requires forall k: nat :: FirstFrom(text, b, start, k) ==> k + |b| > end
    ensures !NoneFrom(text, e, i + |b|)
    ensures forall k: nat :: !BeginRepeated(b, e, text, k)
  {
    hide OccursAt;
    assert forall x: nat :: FirstFrom(text, b, 0, x) ==> x == i;
    assert forall x: nat :: FirstAfter(b, text, i, e, x) ==> x == end;
  }

  /** Each failure happens exactly when its part of the block is missing or in excess, and a
      splice succeeds exactly when there is a block. */
  lemma FailsWhen(name: string, content: string, text: string)
    ensures var b, e, r := BeginMarker(name), EndMarker(name), Splice(name, content, text);
            && (r == Err(MissingBegin(b)) <==> !Contains(text, b))
            && (r == Err(MissingEnd(e)) <==> EndMissing(b, e, text))
            && (forall k: nat :: r == Err(DuplicateBegin(k)) <==> BeginRepeated(b, e, text, k))
            && (r.Ok? <==> exists block :: IsBlock(b, e, text, block))
  {
    var b, e := BeginMarker(name), EndMarker(name);
    FindNone(text, b);
    LocateFails(b, e, text);
    LocateIsBlock(b, e, text);
    if block :| IsBlock(b, e, text, block) {
      BlockIsLocated(b, e, text, block);
    }
  }

  /** A block written out in full, for any name without a newline: the markers are the
      literal ones, the first begin marker opens it, the first end marker after that closes it,
      and no other begin marker is in between. Then the text between them is replaced and
      nothing else. */
  lemma SplicesWrittenBlock(name: string, content: string, before: string, inner: string, after: string)
    requires var b, e := "<!-- BEGIN: " + name + " -->", "<!-- END: " + name + " -->";
             && (forall i: nat :: i < |before| ==> !OccursAt(before + b + inner + e + after, b, i))
             && (forall i: nat :: i < |inner| ==> !OccursAt(inner + e, e, i))
             && (forall i: nat :: !OccursAt(inner, b, i))
    ensures var b, e := "<!-- BEGIN: " + name + " -->", "<!-- END: " + name + " -->";
            Splice(name, content, before + b + inner + e + after) ==
            Ok(before + b + FormatBody(content) + e + after)
  {
    hide OccursAt, BeginMarker, EndMarker, FormatBody, LocateBlock, Replace, IsBlock;
    var b, e := "<!-- BEGIN: " + name + " -->", "<!-- END: " + name + " -->";
    MarkersWritten(name);
    SplicesBetween(b, e, content, before, inner, after);
  }

  lemma SplicesBetween(b: string, e: string, content: string, before: string, inner: string, after: string)
    requires b != [] && e != []
    requires forall i: nat :: i < |before| ==> !OccursAt(before + b + inner + e + after, b, i)
    requires forall i: nat :: i < |inner| ==> !OccursAt(inner + e, e, i)
    requires forall i: nat :: !OccursAt(inner, b, i)
    ensures var text, block := before + b + inner + e + after, Block(|before| + |b|, |before| + |b| + |inner|);
            && LocateBlock(b, e, text) == Ok(block)
            && Replace(text, block, FormatBody(content)) == before + b + FormatBody(content) + e + after
  {
    WrittenReplaced(b, e, before, inner, after, FormatBody(content));
    hide OccursAt, FormatBody, LocateBlock, Replace, IsBlock;
    WrittenIsBlock(b, e, before, inner, after);
    BlockIsLocated(b, e, before + b + inner + e + after, Block(|before| + |b|, |before| + |b| + |inner|));
  }

  lemma WrittenReplaced(b: string, e: string, before: string, inner: string, after: string, body: string)
    ensures var block := Block(|before| + |b|, |before| + |b| + |inner|);
            Replace(before + b + inner + e + after, block, body) == before + b + body + e + after
  {
    var text, start, end := before + b + inner + e + after, |before| + |b|, |before| + |b| + |inner|;
    assert text[..start] == before + b && text[end..] == e + after;
    assert before + b + body + (e + after) == before + b + body + e + after;
  }

  lemma MarkersWritten(name: string)
    ensures BeginMarker(name) == "<!-- BEGIN: " + name + " -->"
    ensures EndMarker(name) == "<!-- END: " + name + " -->"
  {
  }

  lemma WrittenIsBlock(b: string, e: string, before: string, inner: string, after: string)
    requires b != [] && e != []
    requires forall i: nat :: i < |before| ==> !OccursAt(before + b + inner + e + after, b, i)
    requires forall i: nat :: i < |inner| ==> !OccursAt(inner + e, e, i)
    requires forall i: nat :: !OccursAt(inner, b, i)
    ensures IsBlock(b, e, before + b + inner + e + after, Block(|before| + |b|, |before| + |b| + |inner|))
  {
    hide OccursAt, IsBlock;
    WrittenParts(b, e, before, inner, after);
    var block := Block(|before| + |b|, |before| + |b| + |inner|);
    PartsAreBlock(b, e, before + b + inner + e + after, block, inner, inner + e);
  }

  lemma PartsAreBlock(b: string, e: string, text: string, block: Block, inner: string, closed: string)
    requires |b| <= block.start <= block.end && block.end + |e| <= |text|
    requires text[block.start - |b|..block.start] == b && text[block.end..block.end + |e|] == e
    requires forall i: nat :: i < block.start - |b| ==> !OccursAt(text, b, i)
    requires inner == text[block.start..block.end] && closed == text[block.start..block.end + |e|]
    requires forall i: nat :: i < |inner| ==> !OccursAt(closed, e, i)
    requires forall i: nat :: !OccursAt(inner, b, i)
    ensures IsBlock(b, e, text, block)
  {
    hide OccursAt;
    WrittenAt(text, b, block.start - |b|);
    WrittenAt(text, e, block.end);
    forall i: nat | block.start <= i < block.end ensures !OccursAt(text, e, i) {
      OccursInSlice(text, block.start, block.end + |e|, e, i - block.start);
    }
    forall i: nat | block.start <= i && i + |b| <= block.end ensures !OccursAt(text, b, i) {
      OccursInSlice(text, block.start, block.end, b, i - block.start);
    }
  }

  lemma WrittenParts(b: string, e: string, before: string, inner: string, after: string)
    ensures var text, start, end := before + b + inner + e + after, |before| + |b|, |before| + |b| + |inner|;
            && text[start - |b|..start] == b && text[end..end + |e|] == e
            && text[start..end] == inner && text[start..end + |e|] == inner + e
  {
  }

  lemma WrittenAt(text: string, m: string, i: nat)
    requires i + |m| <= |text| && text[i..i + |m|] == m
    ensures OccursAt(text, m, i)
  {
    forall k | 0 <= k < |m| ensures m[k] == text[i + k] {
      assert text[i..i + |m|][k] == text[i + k];
    }
  }

  /** If the text between the markers is empty or ends in a newline, it is enough that neither
      marker is in it. */
  lemma SplicesOrdinaryBlock(name: string, content: string, before: string, inner: string, after: string)
    requires '\n' !in name && (inner != [] ==> inner[|inner| - 1] == '\n')
    requires var b, e := "<!-- BEGIN: " + name + " -->", "<!-- END: " + name + " -->";
             && (forall i: nat :: i < |before| ==> !OccursAt(before + b + inner + e + after, b, i))
             && (forall i: nat :: !OccursAt(inner, b, i) && !OccursAt(inner, e, i))
    ensures var b, e := "<!-- BEGIN: " + name + " -->", "<!-- END: " + name + " -->";
            Splice(name, content, before + b + inner + e + after) ==
            Ok(before + b + FormatBody(content) + e + after)
  {
    var b, e := "<!-- BEGIN: " + name + " -->", "<!-- END: " + name + " -->";
    forall i: nat | i < |inner| ensures !OccursAt(inner + e, e, i) {
      NotAcross(inner, name, i);
    }
    hide OccursAt, Splice, FormatBody;
    SplicesWrittenBlock(name, content, before, inner, after);
  }

  lemma NotAcross(inner: string, name: string, i: nat)
    requires '\n' !in name && i < |inner| && inner[|inner| - 1] == '\n'
    ensures var e := "<!-- END: " + name + " -->";
            OccursAt(inner + e, e, i) ==> OccursAt(inner, e, i)
  {
    var e := "<!-- END: " + name + " -->";
    Newlines("<!-- END: ", name, " -->");
    if i + |e| > |inner| {
      CharAt(inner + e, e, i, |inner| - 1);
    }
  }

  lemma CharAt(s: string, m: string, i: nat, k: nat)
    requires i <= k < i + |m|
    ensures OccursAt(s, m, i) ==> k < |s| && s[k] in m
  {
    assert m[k - i] in m;
  }

  /** Otherwise it is not: an end marker may overlap the one that closes the block. */
  lemma EndMarkerMayOverlap()
    ensures var name, inner := "x --><!-- END: x", "<!-- END: x -->";
            var e := "<!-- END: " + name + " -->";
            && (forall i: nat :: !OccursAt(inner, e, i)) && OccursAt(inner + e, e, 0)
  {
    var name, inner := "x --><!-- END: x", "<!-- END: x -->";
    var e := "<!-- END: " + name + " -->";
    assert e == inner + inner;
    assert (inner + e)[0..|e|] == e;
    WrittenAt(inner + e, e, 0);
  }

  /** Different names have different markers, and no begin marker is an end marker. */
  lemma MarkersDiffer(name: string, other: string)
    ensures BeginMarker(name) == BeginMarker(other) <==> name == other
    ensures EndMarker(name) == EndMarker(other) <==> name == other
    ensures BeginMarker(name) != EndMarker(other)
  {
    MarkersWritten(name);
    MarkersWritten(other);
    Between("<!-- BEGIN: ", name, other, " -->");
    Between("<!-- END: ", name, other, " -->");
    assert BeginMarker(name)[5] == 'B' && EndMarker(other)[5] == 'E';
  }

  lemma Between(a: string, name: string, other: string, b: string)
    ensures a + name + b == a + other + b ==> name == other
  {
    var s, t := a + name + b, a + other + b;
    assert s[|a|..|s| - |b|] == name && t[|a|..|t| - |b|] == other;
  }

  lemma ReplaceSame(text: string, block: Block)
    requires block.start <= block.end <= |text|
    ensures Replace(text, block, text[block.start..block.end]) == text
  {
  }

  /** A splice is idempotent exactly when the content contains neither marker. */
  lemma Idempotent(name: string, content: string, text: string, out: string)
    requires '\n' !in name && Splice(name, content, text) == Ok(out)
    ensures Splice(name, content, out) == Ok(out) <==>
            Clean(content, BeginMarker(name)) && Clean(content, EndMarker(name))
  {
    var b, e, body := BeginMarker(name), EndMarker(name), FormatBody(content);
    var block := LocateBlock(b, e, text).value;
    LocateIsBlock(b, e, text);
    CleanBody(content, b);
    CleanBody(content, e);
    hide OccursAt, FormatBody, BeginMarker, EndMarker, LocateBlock;
    if Clean(body, b) && Clean(body, e) {
      var own := Block(block.start, block.start + |body|);
      OwnBlockAfter(b, e, text, block, body);
      BlockIsLocated(b, e, out, own);
      assert out[own.start..own.end] == body;
      ReplaceSame(out, own);
    } else if Splice(name, content, out) == Ok(out) {
      LocateIsBlock(b, e, out);
      StableIsClean(b, e, text, block, body, LocateBlock(b, e, out).value);
    }
  }

  /** If a second splice changed nothing it found the body it had put there, with no marker
      in it. */
  lemma StableIsClean(b: string, e: string, text: string, block: Block, body: string, found: Block)
    requires IsBlock(b, e, text, block) && IsMarker(b) && IsMarker(e) && Fenced(body)
    requires IsBlock(b, e, Replace(text, block, body), found)
    requires Replace(Replace(text, block, body), found, body) == Replace(text, block, body)
    ensures Clean(body, b) && Clean(body, e)
  {
    hide OccursAt;
    var out := Replace(text, block, body);
    forall i: nat | i + |b| <= block.start ensures OccursAt(out, b, i) <==> OccursAt(text, b, i) {
      OccursAfterReplace(text, block.start, block.end, body, b, i);
    }
    assert OccursAt(out, b, block.start - |b|) && found.start <= block.start;
    assert OccursAt(text, b, found.start - |b|) && found.start == block.start;
    assert |out| == |out| - (found.end - found.start) + |body|;
    forall i: nat ensures !OccursAt(body, b, i) && !OccursAt(body, e, i) {
      OccursFits(body, b, i);
      OccursFits(body, e, i);
      OccursAfterReplace(text, block.start, block.end, body, b, block.start + i);
      OccursAfterReplace(text, block.start, block.end, body, e, block.start + i);
    }
  }

  lemma OccursFits(s: string, m: string, i: nat)
    ensures OccursAt(s, m, i) ==> i + |m| <= |s|
  {
  }
}
