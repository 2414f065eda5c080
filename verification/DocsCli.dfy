/** Regenerating a document: one splice after the other, each into its own block. */
module DocsCli {
  import opened Common
  import opened Strings
  import opened Splicer

  /** A marker name and the text rendered for it. */
  datatype Section = Section(name: string, content: string)

  /** The sections spliced in turn; the first failure is the result. */
  function Regenerated(sections: seq<Section>, text: string): Result<string, Error> {
    if sections == [] then Ok(text)
    else
      match Regenerated(sections[..|sections| - 1], text)
      case Err(error) => Err(error)
      case Ok(current) => Splice(sections[|sections| - 1].name, sections[|sections| - 1].content, current)
  }

  method Regenerate(sections: seq<Section>, original: string) returns (r: Result<string, Error>)
    ensures r == Regenerated(sections, original)
  {
    var current := original;
    for i := 0 to |sections|
      invariant Regenerated(sections[..i], original) == Ok(current)
    {
      assert sections[..i + 1][..i] == sections[..i];
      var spliced := Splice(sections[i].name, sections[i].content, current);
      if spliced.Err? {
        FailureStays(sections, i + 1, original);
        return spliced;
      }
      current := spliced.value;
    }
    assert sections[..|sections|] == sections;
    return Ok(current);
  }

  lemma {:induction false} FailureStays(sections: seq<Section>, n: nat, text: string)
    requires n <= |sections| && Regenerated(sections[..n], text).Err?
    ensures Regenerated(sections, text) == Regenerated(sections[..n], text)
    decreases |sections|
  {
    if n == |sections| {
      assert sections[..n] == sections;
    } else {
      assert sections[..|sections| - 1][..n] == sections[..n];
      FailureStays(sections[..|sections| - 1], n, text);
    }
  }

  function Located(s: Section, text: string): (r: Result<Block, Error>)
    ensures r.Ok? ==> r.value.start <= r.value.end <= |text|
  {
    LocateBlock(BeginMarker(s.name), EndMarker(s.name), text)
  }

  /** Block `a`, markers included, ends before block `b` begins. */
  predicate EndsBefore(s: Section, a: Block, t: Section, b: Block) {
    a.end + |EndMarker(s.name)| + |BeginMarker(t.name)| <= b.start
  }

  predicate Disjoint(s: Section, a: Block, t: Section, b: Block) {
    EndsBefore(s, a, t, b) || EndsBefore(t, b, s, a)
  }

  /** Newline-free names, and no content that brings in another section's marker. */
  ghost predicate Compatible(s: Section, t: Section) {
    && '\n' !in s.name && '\n' !in t.name
    && Clean(s.content, BeginMarker(t.name)) && Clean(s.content, EndMarker(t.name))
    && Clean(t.content, BeginMarker(s.name)) && Clean(t.content, EndMarker(s.name))
  }

  function Body(s: Section): string {
    FormatBody(s.content)
  }

  /** Where the block of `s` is after the section `k` has been spliced. */
  function Moved(s: Section, block: Block, k: Section, replaced: Block): Block
    requires replaced.start <= replaced.end && block.start <= block.end
  {
    if EndsBefore(k, replaced, s, block) then Shifted(block, replaced, Body(k)) else block
  }

  /** Splicing one section leaves a disjoint one in place, its body untouched. */
  lemma OtherSection(s: Section, k: Section, text: string)
    requires Located(s, text).Ok? && Located(k, text).Ok? && Compatible(s, k)
    requires Disjoint(s, Located(s, text).value, k, Located(k, text).value)
    ensures var mine, replaced := Located(s, text).value, Located(k, text).value;
            var out, moved := Replace(text, replaced, Body(k)), Moved(s, mine, k, replaced);
            && Splice(k.name, k.content, text) == Ok(out)
            && Located(s, out) == Ok(moved) && moved.end <= |out|
            && out[moved.start..moved.end] == text[mine.start..mine.end]
  {
    var b, e := BeginMarker(s.name), EndMarker(s.name);
    var mine, replaced := Located(s, text).value, Located(k, text).value;
    LocateIsBlock(b, e, text);
    CleanBody(k.content, b);
    hide OccursAt, BeginMarker, EndMarker, FormatBody, LocateBlock;
    var out, moved := Replace(text, replaced, Body(k)), Moved(s, mine, k, replaced);
    if EndsBefore(k, replaced, s, mine) {
      LaterBlockAfter(b, e, text, mine, replaced, Body(k));
    } else {
      EarlierBlockAfter(b, e, text, mine, replaced, Body(k));
    }
    BlockIsLocated(b, e, out, moved);
    SameInside(text, replaced, Body(k), mine);
  }

  lemma SameInside(text: string, replaced: Block, body: string, mine: Block)
    requires replaced.start <= replaced.end <= |text| && mine.start <= mine.end <= |text|
    ensures mine.end <= replaced.start ==>
              Replace(text, replaced, body)[mine.start..mine.end] == text[mine.start..mine.end]
    ensures replaced.end <= mine.start ==>
              var moved := Shifted(mine, replaced, body);
              moved.end <= |Replace(text, replaced, body)| &&
              Replace(text, replaced, body)[moved.start..moved.end] == text[mine.start..mine.end]
  {
  }

  lemma CommutesInOrder(s: Section, t: Section, text: string)
    requires Located(s, text).Ok? && Located(t, text).Ok? && Compatible(s, t)
    requires EndsBefore(s, Located(s, text).value, t, Located(t, text).value)
    ensures Regenerated([s, t], text).Ok? && Regenerated([s, t], text) == Regenerated([t, s], text)
  {
    var a, b := Located(s, text).value, Located(t, text).value;
    OtherSection(s, t, text);
    OtherSection(t, s, text);
    TwoSplices(s, t);
    TwoSplices(t, s);
    hide Compatible, Regenerated, Replace, LocateBlock, FormatBody, BeginMarker, EndMarker;
    ReplaceBoth(text, a, Body(s), b, Body(t));
  }

  /** The order in which two sections with disjoint blocks are spliced does not matter. */
  lemma Commutes(s: Section, t: Section, text: string)
    requires Located(s, text).Ok? && Located(t, text).Ok? && Compatible(s, t)
    requires Disjoint(s, Located(s, text).value, t, Located(t, text).value)
    ensures Regenerated([s, t], text).Ok? && Regenerated([s, t], text) == Regenerated([t, s], text)
  {
    if EndsBefore(s, Located(s, text).value, t, Located(t, text).value) {
      CommutesInOrder(s, t, text);
    } else {
      CommutesInOrder(t, s, text);
    }
  }

  lemma TwoSplices(s: Section, t: Section)
    ensures forall text :: Regenerated([s, t], text) ==
              match Splice(s.name, s.content, text)
              case Err(error) => Err(error)
              case Ok(current) => Splice(t.name, t.content, current)
  {
    assert [s, t][..1] == [s] && [s][..0] == [];
    forall text ensures Regenerated([s], text) == Splice(s.name, s.content, text) {
      assert Regenerated([], text) == Ok(text);
    }
  }

  lemma ReplaceBoth(text: string, a: Block, first: string, b: Block, second: string)
    requires a.start <= a.end <= b.start <= b.end <= |text|
    ensures Replace(Replace(text, b, second), a, first) ==
            Replace(Replace(text, a, first), Shifted(b, a, first), second)
  {
  }

  // -------------------------------------------------------------------------
  // Regenerating twice

  /** Every section has its block, no two blocks overlap, no content brings in a marker. */
  ghost predicate LaidOut(sections: seq<Section>, text: string) {
    && NoDup(sections)
    && (forall s :: s in sections ==> Located(s, text).Ok? && Compatible(s, s))
    && (forall s, t :: s in sections && t in sections && s != t ==> Apart(s, t, text))
  }

  ghost predicate Apart(s: Section, t: Section, text: string) {
    && Compatible(s, t) && Located(s, text).Ok? && Located(t, text).Ok?
    && Disjoint(s, Located(s, text).value, t, Located(t, text).value)
  }

  /** The block of `s` holds what the section renders to. */
  predicate UpToDate(s: Section, text: string) {
    var block := Located(s, text);
    block.Ok? && block.value.end <= |text| && text[block.value.start..block.value.end] == Body(s)
  }

  lemma SpliceUpToDate(s: Section, text: string)
    ensures UpToDate(s, text) ==> Splice(s.name, s.content, text) == Ok(text)
  {
    if UpToDate(s, text) {
      ReplaceSame(text, Located(s, text).value);
    }
  }

  lemma OwnBlockFound(k: Section, text: string)
    requires Located(k, text).Ok? && Compatible(k, k)
    ensures var replaced := Located(k, text).value;
            Located(k, Replace(text, replaced, Body(k))) == Ok(Block(replaced.start, replaced.start + |Body(k)|))
  {
    hide OccursAt, Clean, BeginMarker, EndMarker, FormatBody, LocateBlock, Replace;
    var b, e := BeginMarker(k.name), EndMarker(k.name);
    CleanBody(k.content, b);
    CleanBody(k.content, e);
    OwnBlockLocated(b, e, text, Located(k, text).value, Body(k));
  }

  lemma OwnBlockLocated(b: string, e: string, text: string, block: Block, body: string)
    requires LocateBlock(b, e, text) == Ok(block)
    requires IsMarker(b) && IsMarker(e) && Fenced(body) && Clean(body, b) && Clean(body, e)
    ensures LocateBlock(b, e, Replace(text, block, body)) == Ok(Block(block.start, block.start + |body|))
  {
    hide OccursAt, Clean, IsBlock;
    LocateIsBlock(b, e, text);
    OwnBlockAfter(b, e, text, block, body);
    BlockIsLocated(b, e, Replace(text, block, body), Block(block.start, block.start + |body|));
  }

  /** After a splice its own section is up to date, at the place where the block was. */
  lemma OwnSection(k: Section, text: string)
    requires Located(k, text).Ok? && Compatible(k, k)
    ensures var replaced := Located(k, text).value;
            var out := Replace(text, replaced, Body(k));
            && Splice(k.name, k.content, text) == Ok(out) && UpToDate(k, out)
            && Located(k, out) == Ok(Block(replaced.start, replaced.start + |Body(k)|))
  {
    OwnBlockFound(k, text);
    hide LocateBlock, BeginMarker, EndMarker, FormatBody, Replace;
    ReplacedInside(text, Located(k, text).value, Body(k));
  }

  lemma ReplacedInside(text: string, block: Block, body: string)
    requires block.start <= block.end <= |text|
    ensures var out := Replace(text, block, body);
            block.start + |body| <= |out| && out[block.start..block.start + |body|] == body
  {
  }

  lemma OtherUpToDate(s: Section, k: Section, text: string)
    requires Apart(s, k, text)
    ensures var out := Replace(text, Located(k, text).value, Body(k));
            Located(s, out).Ok? && (UpToDate(s, text) ==> UpToDate(s, out))
  {
    OtherSection(s, k, text);
  }

  /** Blocks apart from each other and from the spliced one stay apart. */
  lemma StayApart(s: Section, t: Section, k: Section, text: string)
    requires Apart(s, t, text) && Apart(s, k, text) && Apart(t, k, text)
    ensures Apart(s, t, Replace(text, Located(k, text).value, Body(k)))
  {
    OtherSection(s, k, text);
    OtherSection(t, k, text);
    hide Compatible, Replace, LocateBlock, FormatBody, BeginMarker, EndMarker;
  }

  lemma OwnStaysApart(s: Section, k: Section, text: string)
    requires Apart(s, k, text) && Compatible(k, k)
    ensures var out := Replace(text, Located(k, text).value, Body(k)); Apart(s, k, out) && Apart(k, s, out)
  {
    OtherSection(s, k, text);
    OwnSection(k, text);
    hide Replace, LocateBlock, FormatBody, BeginMarker, EndMarker;
  }

  lemma LayoutKept(sections: seq<Section>, k: Section, text: string)
    requires k in sections && LaidOut(sections, text)
    ensures LaidOut(sections, Replace(text, Located(k, text).value, Body(k)))
    ensures Splice(k.name, k.content, text) == Ok(Replace(text, Located(k, text).value, Body(k)))
  {
    hide NoDup, Apart, Compatible, Located, Replace, Body;
    var out := Replace(text, Located(k, text).value, Body(k));
    OwnSection(k, text);
    forall s | s in sections ensures Located(s, out).Ok? {
      if s != k {
        OtherUpToDate(s, k, text);
      }
    }
    forall s, t | s in sections && t in sections && s != t ensures Apart(s, t, out) {
      if t == k {
        OwnStaysApart(s, k, text);
      } else if s == k {
        OwnStaysApart(t, k, text);
      } else {
        StayApart(s, t, k, text);
      }
    }
  }

  /** The sections are spliced one after the other; after a failure none is. */
  lemma RegeneratedMore(sections: seq<Section>, k: Section, text: string)
    ensures Regenerated([], text) == Ok(text)
    ensures Regenerated(sections + [k], text) ==
              match Regenerated(sections, text)
              case Err(error) => Err(error)
              case Ok(current) => Splice(k.name, k.content, current)
  {
    assert (sections + [k])[..|sections + [k]| - 1] == sections;
  }

  /** A pass over the first `n` sections succeeds and leaves those up to date. */
  lemma {:induction false} PassBrings(sections: seq<Section>, n: nat, text: string)
    requires n <= |sections| && LaidOut(sections, text)
    ensures Regenerated(sections[..n], text).Ok?
    ensures var out := Regenerated(sections[..n], text).value;
            LaidOut(sections, out) && forall i :: 0 <= i < n ==> UpToDate(sections[i], out)
  {
    if n == 0 {
    } else {
      var k := sections[n - 1];
      assert sections[..n] == sections[..n - 1] + [k];
      RegeneratedMore(sections[..n - 1], k, text);
      hide LaidOut, UpToDate, Located, Splice, Replace, Apart, Regenerated;
      PassBrings(sections, n - 1, text);
      var before := Regenerated(sections[..n - 1], text).value;
      LaidOutAt(sections, n - 1, before);
      OwnSection(k, before);
      LayoutKept(sections, k, before);
      forall i | 0 <= i < n - 1 ensures UpToDate(sections[i], Replace(before, Located(k, before).value, Body(k))) {
        ApartAt(sections, i, n - 1, before);
        OtherUpToDate(sections[i], k, before);
      }
    }
  }

  lemma LaidOutAt(sections: seq<Section>, i: nat, text: string)
    requires LaidOut(sections, text) && i < |sections|
    ensures Located(sections[i], text).Ok? && Compatible(sections[i], sections[i])
  {
  }

  lemma ApartAt(sections: seq<Section>, i: nat, j: nat, text: string)
    requires LaidOut(sections, text) && i < |sections| && j < |sections| && i != j
    ensures Apart(sections[i], sections[j], text)
  {
    assert sections[i] != sections[j];
  }

  lemma {:induction false} PassChangesNothing(sections: seq<Section>, n: nat, text: string)
    requires n <= |sections| && forall i :: 0 <= i < n ==> UpToDate(sections[i], text)
    ensures Regenerated(sections[..n], text) == Ok(text)
  {
    hide UpToDate, Splice;
    if n == 0 {
    } else {
      hide Regenerated;
      assert sections[..n] == sections[..n - 1] + [sections[n - 1]];
      RegeneratedMore(sections[..n - 1], sections[n - 1], text);
      PassChangesNothing(sections, n - 1, text);
      SpliceUpToDate(sections[n - 1], text);
    }
  }

  /** One pass brings every block up to date, and reaches a fixed point: regenerating again
      changes nothing. */
  lemma OnePassIsEnough(sections: seq<Section>, text: string)
    requires LaidOut(sections, text)
    ensures Regenerated(sections, text).Ok?
    ensures var out := Regenerated(sections, text).value;
            && Regenerated(sections, out) == Ok(out)
            && forall s :: s in sections ==> HoldsRendered(s, out)
  {
    assert sections[..|sections|] == sections;
    PassBrings(sections, |sections|, text);
    var out := Regenerated(sections, text).value;
    PassChangesNothing(sections, |sections|, out);
    hide LaidOut, Regenerated, UpToDate;
    forall s | s in sections ensures HoldsRendered(s, out) {
      var i :| 0 <= i < |sections| && sections[i] == s;
      RenderedInside(s, out);
    }
  }

  /** The text has, between the section's literal markers, the section's content formatted. */
  ghost predicate HoldsRendered(s: Section, text: string) {
    exists before, after ::
      text == before + ("<!-- BEGIN: " + s.name + " -->") + FormatBody(s.content) +
              ("<!-- END: " + s.name + " -->") + after
  }

  lemma RenderedInside(s: Section, text: string)
    requires UpToDate(s, text)
    ensures HoldsRendered(s, text)
  {
    hide OccursAt, BeginMarker, EndMarker, FormatBody, LocateBlock, IsBlock;
    MarkersWritten(s.name);
    var before, after := PartsOf(BeginMarker(s.name), EndMarker(s.name), text, Located(s, text).value, Body(s));
  }

  lemma PartsOf(b: string, e: string, text: string, block: Block, body: string) returns (before: string, after: string)
    requires LocateBlock(b, e, text) == Ok(block) && text[block.start..block.end] == body && b != [] && e != []
    ensures text == before + b + body + e + after
  {
    hide OccursAt, LocateBlock, IsBlock, Replace, Clean;
    LocateIsBlock(b, e, text);
    BlockParts(b, e, text, block, body);
    ReplaceSame(text, block);
    before, after := text[..block.start - |b|], text[block.end + |e|..];
  }

  // -------------------------------------------------------------------------
  // Any order

  /** Splicing sections of a layout, in any order, succeeds and keeps the layout. */
  lemma {:induction false} PassKeepsLayout(sections: seq<Section>, some: seq<Section>, text: string)
    requires LaidOut(sections, text) && forall s :: s in some ==> s in sections
    ensures Regenerated(some, text).Ok? && LaidOut(sections, Regenerated(some, text).value)
  {
    if some == [] {
    } else {
      var init, k := some[..|some| - 1], some[|some| - 1];
      assert some == init + [k];
      PassKeepsLayout(sections, init, text);
      RegeneratedMore(init, k, text);
      LayoutKept(sections, k, Regenerated(init, text).value);
    }
  }

  /** A section may as well be spliced last. */
  lemma {:induction false} SpliceLast(first: seq<Section>, k: Section, rest: seq<Section>, text: string)
    requires LaidOut(first + [k] + rest, text)
    ensures Regenerated(first + [k] + rest, text) == Regenerated(first + rest + [k], text)
  {
    hide LaidOut, Regenerated;
    if rest == [] {
      assert first + [k] + rest == first + rest + [k];
    } else {
      var init, last := rest[..|rest| - 1], rest[|rest| - 1];
      assert first + [k] + rest == first + [k] + init + [last];
      assert first + rest == first + init + [last];
      PartLaidOut(first + [k] + init, last, text);
      SpliceLast(first, k, init, text);
      SwapBehind(first, k, init, last, text);
    }
  }

  lemma SwapBehind(first: seq<Section>, k: Section, rest: seq<Section>, last: Section, text: string)
    requires LaidOut(first + [k] + rest + [last], text)
    requires Regenerated(first + [k] + rest, text) == Regenerated(first + rest + [k], text)
    ensures Regenerated(first + [k] + rest + [last], text) == Regenerated(first + rest + [last] + [k], text)
  {
    hide Regenerated;
    var all := first + [k] + rest + [last];
    assert all[|first|] == k && all[|all| - 1] == last;
    assert k != last && forall x :: x in first + rest ==> x in all;
    hide LaidOut;
    SwapLast(first + rest, k, last, all, text);
    RegeneratedMore(first + [k] + rest, last, text);
    RegeneratedMore(first + rest + [k], last, text);
  }

  lemma PartLaidOut(sections: seq<Section>, k: Section, text: string)
    requires LaidOut(sections + [k], text)
    ensures LaidOut(sections, text)
  {
    var all := sections + [k];
    assert forall i :: 0 <= i < |sections| ==> sections[i] == all[i];
    assert forall s :: s in sections ==> s in all;
  }

  /** The last two of a pass may change places. */
  lemma SwapLast(some: seq<Section>, s: Section, t: Section, sections: seq<Section>, text: string)
    requires LaidOut(sections, text) && (forall x :: x in some ==> x in sections)
    requires s in sections && t in sections && s != t
    ensures Regenerated(some + [s] + [t], text) == Regenerated(some + [t] + [s], text)
  {
    PassKeepsLayout(sections, some, text);
    RegeneratedMore(some, s, text);
    RegeneratedMore(some, t, text);
    RegeneratedMore(some + [s], t, text);
    RegeneratedMore(some + [t], s, text);
    hide Regenerated, Splice, NoDup;
    var current := Regenerated(some, text).value;
    assert Apart(s, t, current);
    hide LaidOut;
    Commutes(s, t, current);
    TwoSplices(s, t);
    TwoSplices(t, s);
  }

  lemma LaidOutAnyOrder(sections: seq<Section>, other: seq<Section>, text: string)
    requires LaidOut(sections, text) && multiset(sections) == multiset(other)
    ensures LaidOut(other, text)
  {
    forall s ensures s in sections <==> s in other {
      assert s in multiset(sections) <==> s in multiset(other);
    }
    hide Apart, Compatible, Located;
    SameMultisetNoDup(sections, other);
  }

  lemma SameMultisetNoDup(a: seq<Section>, b: seq<Section>)
    requires NoDup(a) && multiset(a) == multiset(b)
    ensures NoDup(b)
  {
    forall i, j | 0 <= i < j < |b| ensures b[i] != b[j] {
      assert b == b[..j] + [b[j]] + b[j + 1..];
      if b[i] == b[j] {
        assert b[i] in b[..j];
        assert multiset(b)[b[i]] >= 2;
        NoDupOnce(a, b[i]);
      }
    }
  }

  lemma {:induction false} NoDupOnce(s: seq<Section>, x: Section)
    requires NoDup(s)
    ensures multiset(s)[x] <= 1
  {
    if s == [] {
    } else {
      var init, last := s[..|s| - 1], s[|s| - 1];
      NoDupOnce(init, x);
      assert s == init + [last];
      assert forall i :: 0 <= i < |init| ==> init[i] != last;
    }
  }

  lemma TakeOut(init: seq<Section>, k: Section, other: seq<Section>) returns (first: seq<Section>, rest: seq<Section>)
    requires multiset(init + [k]) == multiset(other)
    ensures other == first + [k] + rest && multiset(first + rest) == multiset(init)
  {
    assert k in multiset(init + [k]);
    var i :| 0 <= i < |other| && other[i] == k;
    first, rest := other[..i], other[i + 1..];
    assert other == first + [k] + rest;
    assert multiset(other) == multiset(first) + multiset{k} + multiset(rest);
    assert multiset(init + [k]) == multiset(init) + multiset{k};
    assert multiset(first + rest) == multiset(first) + multiset(rest);
    CancelOne(multiset(first + rest), multiset(init), k);
  }

  lemma CancelOne(a: multiset<Section>, b: multiset<Section>, k: Section)
    requires a + multiset{k} == b + multiset{k}
    ensures a == b
  {
    assert a == a + multiset{k} - multiset{k};
    assert b == b + multiset{k} - multiset{k};
  }

  /** The sections of a layout may be spliced in any order. */
  lemma {:induction false} AnyOrder(sections: seq<Section>, other: seq<Section>, text: string)
    requires LaidOut(sections, text) && multiset(sections) == multiset(other)
    ensures Regenerated(other, text) == Regenerated(sections, text)
  {
    if sections == [] {
      assert |multiset(other)| == |other|;
    } else {
      var init, k := sections[..|sections| - 1], sections[|sections| - 1];
      assert sections == init + [k];
      var first, rest := TakeOut(init, k, other);
      LaidOutAnyOrder(sections, other, text);
      hide LaidOut, Regenerated;
      PartLaidOut(init, k, text);
      SpliceLast(first, k, rest, text);
      AnyOrder(init, first + rest, text);
      RegeneratedMore(init, k, text);
      RegeneratedMore(first + rest, k, text);
    }
  }

  /** Disjointness is needed: a block whose only begin marker lies inside another block is
      gone once that one has been spliced. */
  lemma NestedSectionIsLost(outer: Section, inner: Section, text: string)
    requires Located(outer, text).Ok? && Compatible(outer, inner)
    requires var block := Located(outer, text).value;
             forall i: nat :: OccursAt(text, BeginMarker(inner.name), i) ==>
               block.start <= i && i + |BeginMarker(inner.name)| <= block.end
    ensures Regenerated([outer, inner], text) == Err(MissingBegin(BeginMarker(inner.name)))
  {
    var b := BeginMarker(inner.name);
    var block := Located(outer, text).value;
    var out := Replace(text, block, Body(outer));
    CleanBody(outer.content, b);
    TwoSplices(outer, inner);
    forall i: nat ensures !OccursAt(out, b, i) {
      OccursAfterReplace(text, block.start, block.end, Body(outer), b, i);
    }
    assert Find(out, b).None?;
  }
}
