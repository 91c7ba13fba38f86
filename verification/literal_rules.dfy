/** The literal `gsub!` steps: lines 256, 257, 261, 263 and 264 of
    webui_controller.rb. A literal pass is `split(pat).join(rep)` at the
    leftmost non-overlapping occurrences, and when the replacement cannot
    help to spell the pattern, no occurrence of the pattern survives it. */
module LiteralRules {
  import opened Strings
  import opened Rewrite
  import opened GsubFacts

  /** No occurrence of `q` can be built with help from the replacement `rep`:
      only the first character of `rep` can be the first character of `q`,
      and then `rep` still disagrees with `q`; and the first character of
      `rep` cannot continue a partial `q` that precedes it. */
  ghost predicate Unforgeable(q: string, rep: string) {
    && 0 < |q| && 0 < |rep|
    && (forall m :: 1 <= m < |q| ==> q[m] != rep[0])
    && (forall k :: 1 <= k < |rep| ==> rep[k] != q[0])
    && (rep[0] != q[0] || Clash(rep, q))
  }

  /** `segs` with `sep` between each two neighbours. */
  function Join(segs: seq<string>, sep: string): string
    requires |segs| > 0
    decreases |segs|
  {
    if |segs| == 1 then segs[0] else segs[0] + sep + Join(segs[1..], sep)
  }

  /** `segs` is how the leftmost scan splits `Join(segs, pat)`: no occurrence
      of `pat` starts inside a segment, not even one running into the `pat`
      that follows it. */
  ghost predicate LeftmostSplit(segs: seq<string>, pat: string)
    requires 0 < |pat|
  {
    && |segs| > 0
    && (forall k :: 0 <= k < |segs| - 1 ==> Free(segs[k] + pat[..|pat| - 1], pat))
    && Free(segs[|segs| - 1], pat)
  }

  /** If the output of a literal pass starts with `w`, and `w` does not contain
      the first character of the replacement, the input started with `w` too. */
  lemma {:induction false} PrefixComesFromInput(pat: string, rep: string, s: string, w: string)
    requires 0 < |rep|
    requires forall j :: 0 <= j < |w| ==> w[j] != rep[0]
    ensures OccursAt(Gsub(Literal(pat, rep), s), w, 0) ==> OccursAt(s, w, 0)
    decreases |w|
  {
    var lit := Literal(pat, rep);
    var out := Gsub(lit, s);
    if w != [] && s != [] {
      match MatchAt(lit, s)
      case Some(m) =>
        assert out == rep + Gsub(lit, s[m.len..]);
        OccursAtIndex(out, w, 0, 0);
      case None =>
        var rest := Gsub(lit, s[1..]);
        assert out == [s[0]] + rest;
        PrefixComesFromInput(pat, rep, s[1..], w[1..]);
        OccursAtCons(s[0], rest, w, 0);
        OccursAtCons(s[0], s[1..], w, 0);
        assert s == [s[0]] + s[1..];
    }
  }

  /** Inside a replacement `rep` that cannot help to spell `q`, no occurrence
      of `q` starts. */
  lemma NoOccurrenceInReplacement(q: string, rep: string, rest: string, i: int)
    requires Unforgeable(q, rep)
    requires 0 <= i < |rep|
    ensures !OccursAt(rep + rest, q, i)
  {
    var out := rep + rest;
    if i == 0 && rep[0] == q[0] {
      var j :| 0 <= j < |rep| && j < |q| && rep[j] != q[j];
      OccursAtIndex(out, q, 0, j);
    } else {
      OccursAtIndex(out, q, i, 0);
    }
  }

  /** After a literal pass whose replacement cannot spell the pattern, the
      pattern occurs nowhere in the output. */
  lemma {:induction false} LiteralLeavesNoPattern(pat: string, rep: string, s: string)
    requires Unforgeable(pat, rep)
    ensures Free(Gsub(Literal(pat, rep), s), pat)
    decreases |s|
  {
    var lit := Literal(pat, rep);
    var out := Gsub(lit, s);
    if s != [] {
      match MatchAt(lit, s)
      case Some(m) =>
        var rest := Gsub(lit, s[m.len..]);
        assert out == rep + rest;
        LiteralLeavesNoPattern(pat, rep, s[m.len..]);
        forall i
          ensures !OccursAt(out, pat, i)
        {
          if |rep| <= i {
            OccursAtAppend(rep, rest, pat, i - |rep|);
          } else if 0 <= i {
            NoOccurrenceInReplacement(pat, rep, rest, i);
          }
        }
      case None =>
        var rest := Gsub(lit, s[1..]);
        assert out == [s[0]] + rest;
        LiteralLeavesNoPattern(pat, rep, s[1..]);
        PrefixComesFromInput(pat, rep, s[1..], pat[1..]);
        OccursAtCons(s[0], s[1..], pat, 0);
        OccursAtZero(s, pat);
        assert s == [s[0]] + s[1..];
        forall i
          ensures !OccursAt(out, pat, i)
        {
          if i == 0 {
            OccursAtCons(s[0], rest, pat, 0);
          } else if 0 < i {
            OccursAtCons(s[0], rest, pat, i - 1);
          }
        }
    }
  }

  /** A literal pass whose replacement cannot help to spell `q` does not
      create an occurrence of `q`. */
  lemma {:induction false} LiteralKeepsFree(pat: string, rep: string, q: string, s: string)
    requires Unforgeable(q, rep)
    requires Free(s, q)
    ensures Free(Gsub(Literal(pat, rep), s), q)
    decreases |s|
  {
    var lit := Literal(pat, rep);
    var out := Gsub(lit, s);
    if s != [] {
      match MatchAt(lit, s)
      case Some(m) =>
        var rest := Gsub(lit, s[m.len..]);
        assert out == rep + rest;
        forall i
          ensures !OccursAt(s[m.len..], q, i)
        {
          OccursAtSuffix(s, m.len, q, i);
        }
        LiteralKeepsFree(pat, rep, q, s[m.len..]);
        forall i
          ensures !OccursAt(out, q, i)
        {
          if |rep| <= i {
            OccursAtAppend(rep, rest, q, i - |rep|);
          } else if 0 <= i {
            NoOccurrenceInReplacement(q, rep, rest, i);
          }
        }
      case None =>
        var rest := Gsub(lit, s[1..]);
        assert out == [s[0]] + rest;
        forall i
          ensures !OccursAt(s[1..], q, i)
        {
          OccursAtSuffix(s, 1, q, i);
        }
        LiteralKeepsFree(pat, rep, q, s[1..]);
        PrefixComesFromInput(pat, rep, s[1..], q[1..]);
        OccursAtCons(s[0], s[1..], q, 0);
        assert s == [s[0]] + s[1..];
        forall i
          ensures !OccursAt(out, q, i)
        {
          if i == 0 {
            OccursAtCons(s[0], rest, q, 0);
          } else if 0 < i {
            OccursAtCons(s[0], rest, q, i - 1);
          }
        }
    }
  }

  /** One occurrence at the end of a segment that hides no earlier occurrence:
      the segment is copied, the occurrence replaced, and the scan resumes. */
  lemma ReplaceFirst(pat: string, rep: string, a: string, b: string)
    requires 0 < |pat|
    requires Free(a + pat[..|pat| - 1], pat)
    ensures Gsub(Literal(pat, rep), a + pat + b) == a + rep + Gsub(Literal(pat, rep), b)
  {
    var lit := Literal(pat, rep);
    var s := a + pat + b;
    forall i | 0 <= i < |a|
      ensures MatchAt(lit, s[i..]).None?
    {
      OccursAtZero(s[i..], pat);
      OccursAtSuffix(s, i, pat, 0);
      assert s[i..i + |pat|] == (a + pat[..|pat| - 1])[i..i + |pat|];
      assert !OccursAt(a + pat[..|pat| - 1], pat, i);
    }
    assert s == a + (pat + b);
    UnmatchedPrefixCopied(lit, a, pat + b);
    assert (pat + b)[|pat|..] == b;
  }

  /** Reference characterisation of a literal pass: splitting the text at the
      leftmost non-overlapping occurrences of `pat` and joining the pieces
      with `rep` gives exactly the output of the scan. */
  lemma {:induction false} LiteralIsSplitJoin(pat: string, rep: string, segs: seq<string>)
    requires 0 < |pat|
    requires LeftmostSplit(segs, pat)
    ensures Gsub(Literal(pat, rep), Join(segs, pat)) == Join(segs, rep)
    decreases |segs|
  {
    var lit := Literal(pat, rep);
    if |segs| == 1 {
      var a := segs[0];
      forall i | 0 <= i < |a|
        ensures MatchAt(lit, (a + [])[i..]).None?
      {
        assert (a + [])[i..] == a[i..];
        OccursAtZero(a[i..], pat);
        OccursAtSuffix(a, i, pat, 0);
      }
      UnmatchedPrefixCopied(lit, a, []);
      assert a + [] == a;
    } else {
      assert LeftmostSplit(segs[1..], pat);
      LiteralIsSplitJoin(pat, rep, segs[1..]);
      ReplaceFirst(pat, rep, segs[0], Join(segs[1..], pat));
      assert Join(segs, pat) == segs[0] + pat + Join(segs[1..], pat);
    }
  }

  // The five literal steps of the pipeline.

  /** Line 256: no `</tester>` remains. */
  lemma NoTesterCloseAfterStep(s: string)
    ensures Free(Gsub(Literal(TesterClose, " "), s), TesterClose)
  {
    LiteralLeavesNoPattern(TesterClose, " ", s);
  }

  /** Line 257: no ` type="range"` remains. */
  lemma NoRangeTypeAfterStep(s: string)
    ensures Free(Gsub(Literal(RangeType, TextType), s), RangeType)
  {
    assert RangeType[7] != TextType[7];
    LiteralLeavesNoPattern(RangeType, TextType, s);
  }

  /** Line 261: no bare `<script>` remains. */
  lemma NoBareScriptAfterStep(s: string)
    ensures Free(Gsub(Literal(BareScript, TypedScript), s), BareScript)
  {
    assert BareScript[7] != TypedScript[7];
    LiteralLeavesNoPattern(BareScript, TypedScript, s);
  }

  /** A replacement `[c] + rest` cannot help to spell `q` when `rest` holds
      no first character of `q`, `c` does not occur later in `q`, and `c`
      either differs from the start of `q` or disagrees with `q` later. */
  lemma UnforgeableSplit(q: string, c: char, rest: string)
    requires 0 < |q|
    requires q[0] !in rest
    requires c !in q[1..]
    requires c != q[0] || Clash([c] + rest, q)
    ensures Unforgeable(q, [c] + rest)
  {
    var rep := [c] + rest;
    forall m | 1 <= m < |q|
      ensures q[m] != rep[0]
    {
      assert q[m] == q[1..][m - 1];
    }
    forall k | 1 <= k < |rep|
      ensures rep[k] != q[0]
    {
      assert rep[k] == rest[k - 1];
    }
  }

  /** The pieces of the XHTML doctype hold no `<` and no carriage return. */
  lemma DoctypeRestIsPlain()
    ensures '<' !in XhtmlDoctypeRest && '\r' !in XhtmlDoctypeRest
  {
    DoctypeKeywordIsPlain();
    DoctypeOwnerIsPlain();
    DoctypeLabelIsPlain();
    DoctypeHostIsPlain();
    DoctypeDirectoryIsPlain();
    DoctypeFileIsPlain();
  }

  lemma DoctypeKeywordIsPlain()
    ensures '<' !in "!DOCTYPE html PUBLIC " && '\r' !in "!DOCTYPE html PUBLIC "
  {
  }

  lemma DoctypeOwnerIsPlain()
    ensures '<' !in "\"-//W3C//DTD XHTML " && '\r' !in "\"-//W3C//DTD XHTML "
  {
  }

  lemma DoctypeLabelIsPlain()
    ensures '<' !in "1.0 Strict//EN\" " && '\r' !in "1.0 Strict//EN\" "
  {
  }

  lemma DoctypeHostIsPlain()
    ensures '<' !in "\"http://www.w3.org/TR/" && '\r' !in "\"http://www.w3.org/TR/"
  {
  }

  lemma DoctypeDirectoryIsPlain()
    ensures '<' !in "xhtml1/DTD/" && '\r' !in "xhtml1/DTD/"
  {
  }

  lemma DoctypeFileIsPlain()
    ensures '<' !in "xhtml1-strict.dtd\">" && '\r' !in "xhtml1-strict.dtd\">"
  {
  }

  /** The pieces of the XHTML root tag hold no `<` and no carriage return. */
  lemma HtmlRestIsPlain()
    ensures '<' !in XhtmlHtmlRest && '\r' !in XhtmlHtmlRest
  {
    HtmlHeadIsPlain();
    HtmlTailIsPlain();
  }

  lemma HtmlHeadIsPlain()
    ensures '<' !in "html xmlns=\"http://www.w3.org/" && '\r' !in "html xmlns=\"http://www.w3.org/"
  {
  }

  lemma HtmlTailIsPlain()
    ensures var t := "1999/xhtml\" xml:lang=\"en\" lang=\"en\">";
            '<' !in t && '\r' !in t
  {
  }

  /** Line 263: no HTML5 doctype remains. */
  lemma NoHtml5DoctypeAfterStep(s: string)
    ensures Free(Gsub(Literal(Html5Doctype, XhtmlDoctype), s), Html5Doctype)
  {
    DoctypeCannotForgeHtml5Doctype();
    LiteralLeavesNoPattern(Html5Doctype, XhtmlDoctype, s);
  }

  lemma DoctypeCannotForgeHtml5Doctype()
    ensures Unforgeable(Html5Doctype, XhtmlDoctype)
  {
    DoctypeRestIsPlain();
    assert XhtmlDoctype[14] != Html5Doctype[14];
    UnforgeableSplit(Html5Doctype, '<', XhtmlDoctypeRest);
  }

  /** Line 264: no bare `<html>` remains, and the step does not bring the
      HTML5 doctype back. */
  lemma NoBareHtmlAfterStep(s: string)
    ensures Free(Gsub(Literal(BareHtml, XhtmlHtml), s), BareHtml)
    ensures Free(s, Html5Doctype) ==> Free(Gsub(Literal(BareHtml, XhtmlHtml), s), Html5Doctype)
  {
    HtmlCannotForgeBareHtml();
    LiteralLeavesNoPattern(BareHtml, XhtmlHtml, s);
    HtmlCannotForgeHtml5Doctype();
    if Free(s, Html5Doctype) {
      LiteralKeepsFree(BareHtml, XhtmlHtml, Html5Doctype, s);
    }
  }

  lemma HtmlCannotForgeBareHtml()
    ensures Unforgeable(BareHtml, XhtmlHtml)
  {
    HtmlRestIsPlain();
    assert XhtmlHtml[5] != BareHtml[5];
    UnforgeableSplit(BareHtml, '<', XhtmlHtmlRest);
  }

  lemma HtmlCannotForgeHtml5Doctype()
    ensures Unforgeable(Html5Doctype, XhtmlHtml)
  {
    HtmlRestIsPlain();
    assert XhtmlHtml[1] != Html5Doctype[1];
    UnforgeableSplit(Html5Doctype, '<', XhtmlHtmlRest);
  }
}
