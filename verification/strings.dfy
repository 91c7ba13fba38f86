/** Basic facts about strings (`seq<char>`) shared by the rewrite rules, the
    gate and the name validators: occurrences of a literal, character search. */
module Strings {

  datatype Option<+T> = None | Some(value: T)

  /** `p` occurs in `t` starting at index `i`. */
  predicate OccursAt(t: string, p: string, i: int) {
    0 <= i && i + |p| <= |t| && t[i..i + |p|] == p
  }

  /** `p` occurs nowhere in `t`. */
  ghost predicate Free(t: string, p: string) {
    forall i :: !OccursAt(t, p, i)
  }

  /** An occurrence at index 0 is a prefix. */
  lemma OccursAtZero(t: string, p: string)
    ensures OccursAt(t, p, 0) <==> p <= t
  {
  }

  /** An occurrence fixes each character under it. */
  lemma OccursAtIndex(t: string, p: string, i: int, j: int)
    ensures OccursAt(t, p, i) && 0 <= j < |p| ==> t[i + j] == p[j]
  {
    if OccursAt(t, p, i) && 0 <= j < |p| {
      assert t[i..i + |p|][j] == t[i + j];
    }
  }

  /** Occurrences in a text whose first character is `c`. */
  lemma OccursAtCons(c: char, t: string, p: string, i: int)
    ensures OccursAt([c] + t, p, 0) <==> (p == [] || (p[0] == c && OccursAt(t, p[1..], 0)))
    ensures 0 <= i ==> (OccursAt([c] + t, p, i + 1) <==> OccursAt(t, p, i))
  {
    if p != [] && |p| <= |t| + 1 {
      assert ([c] + t)[0..|p|] == [c] + t[0..|p| - 1];
      assert p == [p[0]] + p[1..];
    }
    if 0 <= i && i + |p| <= |t| {
      assert ([c] + t)[i + 1..i + 1 + |p|] == t[i..i + |p|];
    }
  }

  /** Occurrences after a known prefix `x`. */
  lemma OccursAtAppend(x: string, t: string, p: string, i: int)
    ensures 0 <= i ==> (OccursAt(x + t, p, |x| + i) <==> OccursAt(t, p, i))
  {
    if 0 <= i && i + |p| <= |t| {
      assert (x + t)[|x| + i..|x| + i + |p|] == t[i..i + |p|];
    }
  }

  /** Occurrences in a suffix are occurrences in the whole text. */
  lemma OccursAtSuffix(s: string, k: nat, p: string, i: int)
    requires k <= |s|
    ensures OccursAt(s[k..], p, i) <==> (0 <= i && OccursAt(s, p, k + i))
  {
    if 0 <= i && k + i + |p| <= |s| {
      assert s[k..][i..i + |p|] == s[k + i..k + i + |p|];
    }
  }

  /** `a` and `b` disagree at some index they both have, so neither can be a
      prefix of a string that starts with the other. */
  ghost predicate Clash(a: string, b: string) {
    exists j :: 0 <= j < |a| && j < |b| && a[j] != b[j]
  }

  /** Index of the first `c` in `t` at or after `from`, or `|t|` when there is none. */
  function IndexOf(t: string, c: char, from: nat): (r: nat)
    requires from <= |t|
    ensures from <= r <= |t|
    ensures r < |t| ==> t[r] == c
    ensures forall k :: from <= k < r ==> t[k] != c
    decreases |t| - from
  {
    if from == |t| || t[from] == c then from else IndexOf(t, c, from + 1)
  }

  /** The largest `j` with `lo <= j`, `j + |p| <= hi` and `p` occurring at `j`, if any. */
  function LastOccurrence(t: string, p: string, lo: nat, hi: nat): (r: Option<nat>)
    requires hi <= |t|
    ensures r.Some? ==> lo <= r.value && r.value + |p| <= hi && OccursAt(t, p, r.value)
    ensures r.Some? ==> forall j :: r.value < j && j + |p| <= hi ==> !OccursAt(t, p, j)
    ensures r.None? ==> forall j :: lo <= j && j + |p| <= hi ==> !OccursAt(t, p, j)
    decreases hi
  {
    if hi < lo + |p| then None
    else if OccursAt(t, p, hi - |p|) then Some(hi - |p|)
    else LastOccurrence(t, p, lo, hi - 1)
  }

  /** ASCII lower-casing of one character; every other character is left alone. */
  function LowerChar(c: char): char {
    if 'A' <= c <= 'Z' then (c as int + 32) as char else c
  }

  function Lower(s: string): (r: string)
    ensures |r| == |s|
    ensures forall k :: 0 <= k < |s| ==> r[k] == LowerChar(s[k])
  {
    seq(|s|, k requires 0 <= k < |s| => LowerChar(s[k]))
  }

  /** Whether `p` occurs in `t` at some index `>= from`. */
  function ContainsFrom(t: string, p: string, from: nat): (b: bool)
    ensures b <==> exists i :: from <= i && OccursAt(t, p, i)
    decreases |t| - from
  {
    if from + |p| > |t| then false
    else OccursAt(t, p, from) || ContainsFrom(t, p, from + 1)
  }

  /** Whether `p` occurs somewhere in `t`. */
  function Contains(t: string, p: string): (b: bool)
    ensures b <==> !Free(t, p)
  {
    ContainsFrom(t, p, 0)
  }
}
