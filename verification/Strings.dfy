/** Searching strings for a first occurrence. */
module Strings {
  import opened Common

  predicate OccursAt(s: string, needle: string, i: nat) {
    i + |needle| <= |s| && forall k :: 0 <= k < |needle| ==> needle[k] == s[i + k]
  }

  predicate Contains(s: string, needle: string) {
    exists i: nat :: i <= |s| && OccursAt(s, needle, i)
  }

  /** `str::find`: the first occurrence. */
  function Find(s: string, needle: string): (r: Option<nat>)
    ensures r.Some? ==> OccursAt(s, needle, r.value) && forall i: nat :: i < r.value ==> !OccursAt(s, needle, i)
    ensures r.None? ==> forall i: nat :: !OccursAt(s, needle, i)
  {
    FindFrom(s, needle, 0)
  }

  function FindFrom(s: string, needle: string, from: nat): (r: Option<nat>)
    requires from <= |s|
    ensures r.Some? ==> from <= r.value && OccursAt(s, needle, r.value) &&
                        forall i: nat :: from <= i < r.value ==> !OccursAt(s, needle, i)
    ensures r.None? ==> forall i: nat :: from <= i ==> !OccursAt(s, needle, i)
    decreases |s| - from
  {
    if OccursAt(s, needle, from) then Some(from)
    else if from == |s| then None
    else FindFrom(s, needle, from + 1)
  }

  lemma FindIs(s: string, needle: string, i: nat)
    requires OccursAt(s, needle, i) && forall j: nat :: j < i ==> !OccursAt(s, needle, j)
    ensures Find(s, needle) == Some(i)
  {
  }

  lemma FindNone(s: string, needle: string)
    ensures Find(s, needle).None? <==> !Contains(s, needle)
  {
  }

  function Join(a: string, sep: char, b: string): string {
    a + [sep] + b
  }

  /** `str::split_once`: the parts around the first separator. */
  function SplitOnce(s: string, sep: char): (r: Option<(string, string)>)
    ensures r.Some? <==> sep in s
    ensures r.Some? ==> sep !in r.value.0 && s == Join(r.value.0, sep, r.value.1)
  {
    if s == [] then None
    else if s[0] == sep then Some(("", s[1..]))
    else
      var r := SplitOnce(s[1..], sep);
      if r.None? then None else
        assert s == [s[0]] + s[1..];
        assert s == Join([s[0]] + r.value.0, sep, r.value.1);
        Some(([s[0]] + r.value.0, r.value.1))
  }

  /** Splitting undoes joining exactly when the first part has no separator. */
  lemma SplitJoin(a: string, sep: char, b: string)
    ensures SplitOnce(Join(a, sep, b), sep) == Some((a, b)) <==> sep !in a
  {
    var s := Join(a, sep, b);
    assert s[|a|] == sep;
    if sep !in a {
      JoinUnique(a, b, SplitOnce(s, sep).value.0, SplitOnce(s, sep).value.1, sep);
    }
  }

  lemma JoinUnique(a: string, b: string, c: string, d: string, sep: char)
    requires Join(a, sep, b) == Join(c, sep, d) && sep !in a && sep !in c
    ensures a == c && b == d
  {
    var s := Join(a, sep, b);
    assert s[..|a|] == a && s[|a|] == sep && s[..|c|] == c && s[|c|] == sep;
    IndexOfUnique(s, |a|, sep);
    IndexOfUnique(s, |c|, sep);
    assert b == s[|a| + 1..] && d == s[|c| + 1..];
  }
}
