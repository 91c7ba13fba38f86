/** The pattern `gsub!` steps of lines 247-262 of webui_controller.rb: what
    each does to the text it is meant for, stated on a decomposition of the
    input, and what the whole pipeline guarantees. */
module PatternRules {
  import opened Strings
  import opened Rewrite
  import opened GsubFacts
  import opened LiteralRules

  // Line 247: /[\n\r]/ -> "\n"

  /** Each carriage return becomes a line feed, one for one; nothing else changes. */
  lemma {:induction false} LineBreaksNormalised(s: string)
    ensures |Gsub(LineBreaks, s)| == |s|
    ensures forall k :: 0 <= k < |s| ==> Gsub(LineBreaks, s)[k] == (if s[k] == '\r' then '\n' else s[k])
    decreases |s|
  {
    if s != [] {
      LineBreaksNormalised(s[1..]);
      assert Gsub(LineBreaks, s) == [if s[0] == '\r' then '\n' else s[0]] + Gsub(LineBreaks, s[1..]);
    }
  }

  /** No carriage return is left. */
  lemma NoCarriageReturnLeft(s: string)
    ensures '\r' !in Gsub(LineBreaks, s)
  {
    LineBreaksNormalised(s);
    var out := Gsub(LineBreaks, s);
    forall k | 0 <= k < |out|
      ensures out[k] != '\r'
    {
    }
  }

  /** The step works character by character, so it distributes over
      concatenation. */
  lemma LineBreaksDistribute(a: string, b: string)
    ensures Gsub(LineBreaks, a + b) == Gsub(LineBreaks, a) + Gsub(LineBreaks, b)
  {
    LineBreaksNormalised(a);
    LineBreaksNormalised(b);
    LineBreaksNormalised(a + b);
    var l := Gsub(LineBreaks, a + b);
    var r := Gsub(LineBreaks, a) + Gsub(LineBreaks, b);
    forall k | 0 <= k < |l|
      ensures l[k] == r[k]
    {
      if k < |a| {
        assert (a + b)[k] == a[k];
      } else {
        assert (a + b)[k] == b[k - |a|];
      }
    }
  }

  /** A CR LF pair becomes two line feeds. */
  lemma CrLfBecomesTwoLineFeeds(a: string, b: string)
    ensures Gsub(LineBreaks, a + "\r\n" + b) == Gsub(LineBreaks, a) + "\n\n" + Gsub(LineBreaks, b)
  {
    LineBreaksDistribute(a + "\r\n", b);
    LineBreaksDistribute(a, "\r\n");
    LineBreaksNormalised("\r\n");
    assert Gsub(LineBreaks, "\r\n") == "\n\n";
  }

  // Line 248: /&[^;]*sp;/ -> ""

  /** Text without an ampersand goes through unchanged. */
  lemma NoAmpersandUnchanged(s: string)
    requires '&' !in s
    ensures Gsub(SpaceEntity, s) == s
  {
    LeadFreeUnchanged(SpaceEntity, s);
  }

  /** An entity-like run `&X sp;` (without the space) followed by `b`. */
  function EntityText(x: string, b: string): string {
    "&" + x + "sp;" + b
  }

  /** An `&`, text without `;`, and `sp;` form a match, whatever follows. */
  lemma SpaceEntityMatch(x: string, b: string)
    requires ';' !in x
    ensures MatchAt(SpaceEntity, EntityText(x, b)) == Some(Match(|x| + 4, ""))
  {
    var t := EntityText(x, b);
    assert t == "&" + (x + ("sp;" + b));
    assert t[|x| + 1] == 's' && t[|x| + 2] == 'p' && t[|x| + 3] == ';';
    forall k | 1 <= k < |x| + 3
      ensures t[k] != ';'
    {
      if k <= |x| {
        assert t[k] == x[k - 1];
      }
    }
    assert IndexOf(t, ';', 1) == |x| + 3;
  }

  /** What follows the entity in `EntityText`. */
  lemma EntityRest(x: string, b: string)
    ensures EntityText(x, b)[|x| + 4..] == b
  {
    assert EntityText(x, b) == ("&" + x + "sp;") + b;
  }

  /** Where the leftmost match starts at an `&` followed by text without `;`
      and then `sp;`, that run is deleted, the text before it is kept and the
      scan goes on after it. */
  lemma SpaceEntityDeleted(a: string, x: string, b: string)
    requires NoMatchBefore(SpaceEntity, a + EntityText(x, b), |a|)
    requires ';' !in x
    ensures Gsub(SpaceEntity, a + EntityText(x, b)) == a + Gsub(SpaceEntity, b)
  {
    UnmatchedPrefixCopied(SpaceEntity, a, EntityText(x, b));
    SpaceEntityMatch(x, b);
    GsubAtMatch(SpaceEntity, EntityText(x, b), Match(|x| + 4, ""));
    EntityRest(x, b);
    assert "" + Gsub(SpaceEntity, b) == Gsub(SpaceEntity, b);
  }

  /** An earlier `&` that does not start a match does not stop the deletion:
      in `&amp;&nbsp;x` the `&amp;` is kept and the `&nbsp;` removed. */
  lemma EntityAfterOtherAmpersand()
    ensures Gsub(SpaceEntity, "&amp;&nbsp;x") == "&amp;x"
  {
    AmpStartsNoMatch(EntityText("nb", "x"));
    SpaceEntityDeleted("&amp;", "nb", "x");
    NoAmpersandUnchanged("x");
    assert "&amp;" + EntityText("nb", "x") == "&amp;&nbsp;x";
  }

  /** No match starts inside a leading `&amp;`. */
  lemma AmpStartsNoMatch(t: string)
    ensures NoMatchBefore(SpaceEntity, "&amp;" + t, 5)
  {
    var s := "&amp;" + t;
    forall i | 0 <= i < 5
      ensures MatchAt(SpaceEntity, s[i..]).None?
    {
      if i == 0 {
        assert s[0..] == s;
        AmpNoMatch(s);
      } else {
        assert s[i..][0] == "&amp;"[i];
      }
    }
  }

  /** `&amp;` is not a match: its run ends at `;` after `am`, not `sp`. */
  lemma AmpNoMatch(s: string)
    requires 5 <= |s| && s[..5] == "&amp;"
    ensures MatchAt(SpaceEntity, s).None?
  {
    assert s[1] == 'a' && s[2] == 'm' && s[3] == 'p' && s[4] == ';';
    var q := IndexOf(s, ';', 1);
    assert q <= 4;
  }

  // Line 251: / data-\S+="[^"]*"/ -> " "

  /** The text of a data attribute ` data-NAME="V"` followed by `b`. */
  function DataText(name: string, v: string, b: string): string {
    DataPrefix + name + "=\"" + v + "\"" + b
  }

  /** The attribute names and values the data-attribute lemmas are about: a
      name without whitespace, `=` or quote; a value without a quote that does
      not end in `=`; and after the closing quote, no `=` before the next
      whitespace. */
  ghost predicate PlainDataAttribute(name: string, v: string, b: string) {
    && 0 < |name|
    && (forall k :: 0 <= k < |name| ==> !IsSpace(name[k]) && name[k] != '=' && name[k] != '"')
    && '"' !in v
    && (v == [] || v[|v| - 1] != '=')
    && (forall k :: 0 <= k < SpaceFrom(b, 0) ==> b[k] != '=')
  }

  /** The `="` after the name can end `\S+`, and the value then runs to the
      closing quote. */
  lemma DataValueSplit(name: string, v: string, b: string)
    requires PlainDataAttribute(name, v, b)
    ensures var t := DataText(name, v, b);
            var p := |DataPrefix| + |name|;
            ValueSplit(t, p) && IndexOf(t, '"', p + 2) == p + 2 + |v|
  {
    var t := DataText(name, v, b);
    var p := |DataPrefix| + |name|;
    var c := p + 2 + |v|;
    assert t[p] == '=' && t[p + 1] == '"' && t[c] == '"';
    forall k | p + 2 <= k < c
      ensures t[k] != '"'
    {
      assert t[k] == v[k - p - 2];
    }
  }

  /** The run of non-space characters after ` data-` covers the name and the
      `="`, and ends no later than the first space after the closing quote. */
  lemma DataRun(name: string, v: string, b: string)
    requires PlainDataAttribute(name, v, b)
    ensures var t := DataText(name, v, b);
            var p := |DataPrefix| + |name|;
            p + 2 <= SpaceFrom(t, |DataPrefix|) <= p + 3 + |v| + SpaceFrom(b, 0)
  {
    var t := DataText(name, v, b);
    var p := |DataPrefix| + |name|;
    var c := p + 2 + |v|;
    forall k | |DataPrefix| <= k < p + 2
      ensures !IsSpace(t[k])
    {
      if k < p {
        assert t[k] == name[k - |DataPrefix|];
      }
    }
    var sb := SpaceFrom(b, 0);
    if c + 1 + sb < |t| {
      assert t[c + 1 + sb] == b[sb];
    }
  }

  /** No later `="` inside the run is followed by a quote. */
  lemma DataNoLaterSplit(name: string, v: string, b: string)
    requires PlainDataAttribute(name, v, b)
    ensures var t := DataText(name, v, b);
            var p := |DataPrefix| + |name|;
            forall p': nat :: p < p' < p + 3 + |v| + SpaceFrom(b, 0) ==> !ValueSplit(t, p')
  {
    var t := DataText(name, v, b);
    var p := |DataPrefix| + |name|;
    var c := p + 2 + |v|;
    var sb := SpaceFrom(b, 0);
    forall p': nat | p < p' < c + 1 + sb
      ensures !ValueSplit(t, p')
    {
      if p' + 1 < c {
        if p + 2 <= p' + 1 {
          assert t[p' + 1] == v[p' + 1 - p - 2];
        }
      } else if p' + 1 == c {
        if p + 2 <= p' {
          assert t[p'] == v[|v| - 1];
        }
      } else if c < p' {
        assert t[p'] == b[p' - c - 1];
      }
    }
  }

  /** The whole attribute, up to and including its closing quote, is the match. */
  lemma DataMatch(name: string, v: string, b: string)
    requires PlainDataAttribute(name, v, b)
    ensures MatchAt(DataAttribute, DataText(name, v, b)) == Some(Match(|DataPrefix| + |name| + |v| + 3, " "))
  {
    var t := DataText(name, v, b);
    DataValueSplit(name, v, b);
    DataRun(name, v, b);
    DataNoLaterSplit(name, v, b);
    assert DataPrefix <= t;
    var e := SpaceFrom(t, |DataPrefix|);
    assert LastValueSplit(t, e) == Some(|DataPrefix| + |name|);
  }

  /** Where the leftmost match starts at a plain data attribute, it is
      replaced by one space, the text before it is kept and the scan goes on
      after its closing quote. */
  lemma DataAttributeStripped(a: string, name: string, v: string, b: string)
    requires NoMatchBefore(DataAttribute, a + DataText(name, v, b), |a|)
    requires PlainDataAttribute(name, v, b)
    ensures Gsub(DataAttribute, a + DataText(name, v, b)) == a + (" " + Gsub(DataAttribute, b))
  {
    var t := DataText(name, v, b);
    var m := Match(|DataPrefix| + |name| + |v| + 3, " ");
    UnmatchedPrefixCopied(DataAttribute, a, t);
    DataMatch(name, v, b);
    GsubAtMatch(DataAttribute, t, m);
    DataRest(name, v, b);
  }

  /** What follows the attribute in `DataText`. */
  lemma DataRest(name: string, v: string, b: string)
    ensures DataText(name, v, b)[|DataPrefix| + |name| + |v| + 3..] == b
  {
    assert DataText(name, v, b) == (DataPrefix + name + "=\"" + v + "\"") + b;
  }

  // Lines 252-254, 258, 259: / NAME="[^"]*"/ -> " "

  /** An attribute ` NAME="V"` followed by the text `b`. */
  function AttributeText(name: string, v: string, b: string): string {
    " " + name + "=\"" + v + "\"" + b
  }

  /** The value of ` NAME="..."` runs to the first quote. */
  lemma AttributeMatch(name: string, v: string, b: string)
    requires '"' !in v
    ensures MatchAt(Attribute(name), AttributeText(name, v, b)) == Some(Match(|name| + |v| + 4, " "))
  {
    var prefix := " " + name + "=\"";
    var t := AttributeText(name, v, b);
    assert t == prefix + (v + ("\"" + b));
    assert prefix <= t;
    var q := |prefix| + |v|;
    assert t[q] == '"';
    forall k | |prefix| <= k < q
      ensures t[k] != '"'
    {
      assert t[k] == v[k - |prefix|];
    }
    assert IndexOf(t, '"', |prefix|) == q;
  }

  /** What follows the attribute in `AttributeText`. */
  lemma AttributeRest(name: string, v: string, b: string)
    ensures AttributeText(name, v, b)[|name| + |v| + 4..] == b
  {
    assert AttributeText(name, v, b) == (" " + name + "=\"" + v + "\"") + b;
  }

  /** Where the leftmost match starts at ` NAME="value"` with a quote-free
      value, it is replaced by one space, on every element alike (`min` and
      `max` included); the text before it is kept and the scan goes on after
      its closing quote. */
  lemma AttributeStripped(name: string, a: string, v: string, b: string)
    requires NoMatchBefore(Attribute(name), a + AttributeText(name, v, b), |a|)
    requires '"' !in v
    ensures Gsub(Attribute(name), a + AttributeText(name, v, b)) == a + (" " + Gsub(Attribute(name), b))
  {
    var t := AttributeText(name, v, b);
    var m := Match(|name| + |v| + 4, " ");
    UnmatchedPrefixCopied(Attribute(name), a, t);
    AttributeMatch(name, v, b);
    GsubAtMatch(Attribute(name), t, m);
    AttributeRest(name, v, b);
  }

  /** One pass is not enough to remove every attribute: when the text right
      after a stripped attribute spells the attribute again without its
      leading space, the replacement space supplies it and a new match is left
      behind. */
  lemma AttributeStripIsSinglePass(name: string, v: string, w: string)
    requires '"' !in v
    requires ' ' !in name && ' ' !in w
    ensures var again := name + "=\"" + w + "\"";
            Gsub(Attribute(name), AttributeText(name, v, again)) == " " + again
  {
    var b := name + "=\"" + w + "\"";
    var t := AttributeText(name, v, b);
    var m := Match(|name| + |v| + 4, " ");
    AttributeMatch(name, v, b);
    GsubAtMatch(Attribute(name), t, m);
    AttributeRest(name, v, b);
    NoSpaceInRepeat(name, w);
    forall k | 0 <= k < |b|
      ensures b[k] !in Leads(Attribute(name))
    {
      assert b[k] in b;
    }
    LeadFreeUnchanged(Attribute(name), b);
  }

  /** `NAME="W"` holds no space when `NAME` and `W` hold none. */
  lemma NoSpaceInRepeat(name: string, w: string)
    requires ' ' !in name && ' ' !in w
    ensures ' ' !in name + "=\"" + w + "\""
  {
  }

  // Line 255: / <tester .*/ -> " "

  /** Where the leftmost match starts at ` <tester `, everything from there to
      the end of its line, closing tag or not, becomes one space; the text
      before it is kept and the line feed itself stays. */
  lemma TesterLineDropped(a: string, x: string, b: string)
    requires NoMatchBefore(TesterLine, a + (TesterPrefix + x + b), |a|)
    requires '\n' !in x
    requires b == [] || b[0] == '\n'
    ensures Gsub(TesterLine, a + (TesterPrefix + x + b)) == a + (" " + Gsub(TesterLine, b))
  {
    var t := TesterPrefix + x + b;
    UnmatchedPrefixCopied(TesterLine, a, t);
    TesterMatch(x, b);
    GsubAtMatch(TesterLine, t, Match(|TesterPrefix| + |x|, " "));
    SuffixAfter(TesterPrefix + x, b);
  }

  /** The match of ` <tester ` runs to the end of its line. */
  lemma TesterMatch(x: string, b: string)
    requires '\n' !in x
    requires b == [] || b[0] == '\n'
    ensures MatchAt(TesterLine, TesterPrefix + x + b) == Some(Match(|TesterPrefix| + |x|, " "))
  {
    var t := TesterPrefix + x + b;
    var e := |TesterPrefix| + |x|;
    forall k | |TesterPrefix| <= k < e
      ensures t[k] != '\n'
    {
      assert t[k] == x[k - |TesterPrefix|];
    }
    if e < |t| {
      assert t[e] == b[0];
    }
    assert IndexOf(t, '\n', |TesterPrefix|) == e;
    assert TesterPrefix <= t;
  }

  /** What follows a known head. */
  lemma SuffixAfter(head: string, b: string)
    ensures (head + b)[|head|..] == b
  {
  }

  // Line 260: /(<script src="[^"]*")>/ -> '\1 type="application/javascript">'

  /** `<script src="X">` with a quote-free `X` matches up to its `>`, and the
      captured `<script src="X"` is kept in front of the script type. */
  lemma ScriptSrcMatch(x: string, b: string)
    requires '"' !in x
    ensures var head := ScriptSrcPrefix + x + "\"";
            MatchAt(ScriptSrc, head + ">" + b) == Some(Match(|head| + 1, head + ScriptType))
  {
    var head := ScriptSrcPrefix + x + "\"";
    var t := head + ">" + b;
    var q := |ScriptSrcPrefix| + |x|;
    assert t[q] == '"' && t[q + 1] == '>';
    assert ScriptSrcPrefix <= t;
    forall k | |ScriptSrcPrefix| <= k < q
      ensures t[k] != '"'
    {
      assert t[k] == x[k - |ScriptSrcPrefix|];
    }
    assert IndexOf(t, '"', |ScriptSrcPrefix|) == q;
    assert t[..q + 1] == head;
  }

  /** Where the leftmost match starts at `<script src="X">` with a quote-free
      `X`, the tag gains the script type, the text before it is kept and the
      scan goes on after the tag. */
  lemma ScriptSrcTyped(a: string, x: string, b: string)
    requires NoMatchBefore(ScriptSrc, a + (ScriptSrcPrefix + x + "\"" + ">" + b), |a|)
    requires '"' !in x
    ensures var head := ScriptSrcPrefix + x + "\"";
            Gsub(ScriptSrc, a + (head + ">" + b)) == a + ((head + ScriptType) + Gsub(ScriptSrc, b))
  {
    var head := ScriptSrcPrefix + x + "\"";
    var t := head + ">" + b;
    UnmatchedPrefixCopied(ScriptSrc, a, t);
    ScriptSrcMatch(x, b);
    GsubAtMatch(ScriptSrc, t, Match(|head| + 1, head + ScriptType));
    SuffixAfter(head + ">", b);
  }

  // Line 262: /<mark>(.*)<\/mark>/ -> '<b>\1</b>'

  /** Within the rest of a line that holds no `</mark>`, no match starts. */
  lemma NoMarkMatchIn(y: string, b: string)
    requires '\n' !in y
    requires Free(y, MarkClose)
    requires b == [] || b[0] == '\n'
    ensures NoMatchBefore(MarkSpan, y + b, |y|)
  {
    var s := y + b;
    forall i | 0 <= i < |y|
      ensures MatchAt(MarkSpan, s[i..]).None?
    {
      var t := s[i..];
      var n := |y| - i;
      assert n < |t| ==> t[n] == '\n';
      if MarkOpen <= t {
        assert forall k :: 0 <= k < |MarkOpen| ==> t[k] != '\n';
        var e := IndexOf(t, '\n', |MarkOpen|);
        assert e <= n;
        forall j | |MarkOpen| <= j && j + |MarkClose| <= e
          ensures !OccursAt(t, MarkClose, j)
        {
          assert t[j..j + |MarkClose|] == s[i + j..i + j + |MarkClose|];
          assert s[i + j..i + j + |MarkClose|] == y[i + j..i + j + |MarkClose|];
          assert !OccursAt(y, MarkClose, i + j);
        }
        assert LastOccurrence(t, MarkClose, |MarkOpen|, e).None?;
      }
    }
  }

  /** A `<mark>` span: `<mark>`, inner text, `</mark>`, then the rest of the line. */
  function MarkText(x: string, y: string, b: string): string {
    MarkOpen + x + MarkClose + y + b
  }

  /** The line of a `<mark>` span ends after `y`. */
  lemma MarkLineEnd(x: string, y: string, b: string)
    requires '\n' !in x && '\n' !in y
    requires b == [] || b[0] == '\n'
    ensures IndexOf(MarkText(x, y, b), '\n', |MarkOpen|) == |MarkOpen| + |x| + |MarkClose| + |y|
  {
    var t := MarkText(x, y, b);
    var j := |MarkOpen| + |x|;
    var e := j + |MarkClose| + |y|;
    forall k | |MarkOpen| <= k < e
      ensures t[k] != '\n'
    {
      if k < j {
        assert t[k] == x[k - |MarkOpen|];
      } else if j + |MarkClose| <= k {
        assert t[k] == y[k - j - |MarkClose|];
      }
    }
    if e < |t| {
      assert t[e] == b[0];
    }
  }

  /** The `</mark>` after `x` is the last one on the line. */
  lemma MarkLastClose(x: string, y: string, b: string)
    requires '\n' !in x && '\n' !in y
    requires Free(y, MarkClose)
    requires b == [] || b[0] == '\n'
    ensures var e := |MarkOpen| + |x| + |MarkClose| + |y|;
            LastOccurrence(MarkText(x, y, b), MarkClose, |MarkOpen|, e) == Some(|MarkOpen| + |x|)
  {
    var t := MarkText(x, y, b);
    var j := |MarkOpen| + |x|;
    var e := j + |MarkClose| + |y|;
    assert t[j..j + |MarkClose|] == MarkClose;
    assert OccursAt(t, MarkClose, j);
    forall k | j < k && k + |MarkClose| <= e
      ensures !OccursAt(t, MarkClose, k)
    {
      if k < j + |MarkClose| {
        OccursAtIndex(t, MarkClose, k, 0);
        assert t[k] == MarkClose[k - j];
      } else {
        assert t[k..k + |MarkClose|] == y[k - j - |MarkClose|..k - j];
        assert !OccursAt(y, MarkClose, k - j - |MarkClose|);
      }
    }
  }

  /** The match of a `<mark>` span ends at the last `</mark>` of its line. */
  lemma MarkMatch(x: string, y: string, b: string)
    requires '\n' !in x && '\n' !in y
    requires Free(y, MarkClose)
    requires b == [] || b[0] == '\n'
    ensures MatchAt(MarkSpan, MarkText(x, y, b)) == Some(Match(|MarkOpen| + |x| + |MarkClose|, "<b>" + x + "</b>"))
  {
    MarkLineEnd(x, y, b);
    MarkLastClose(x, y, b);
    MarkMatchOnLine(x, y, b, |MarkOpen| + |x| + |MarkClose| + |y|);
  }

  /** Once the line end `e` and the last `</mark>` before it are known. */
  lemma MarkMatchOnLine(x: string, y: string, b: string, e: nat)
    requires IndexOf(MarkText(x, y, b), '\n', |MarkOpen|) == e
    requires LastOccurrence(MarkText(x, y, b), MarkClose, |MarkOpen|, e) == Some(|MarkOpen| + |x|)
    ensures MatchAt(MarkSpan, MarkText(x, y, b)) == Some(Match(|MarkOpen| + |x| + |MarkClose|, "<b>" + x + "</b>"))
  {
    MarkInner(x, y, b);
    MatchMarkAt(MarkText(x, y, b), e, |MarkOpen| + |x|, x);
  }

  /** `MatchMark` ends the match at the last `</mark>` before the line end. */
  lemma MatchMarkAt(t: string, e: nat, j: nat, x: string)
    requires MarkOpen <= t
    requires IndexOf(t, '\n', |MarkOpen|) == e
    requires LastOccurrence(t, MarkClose, |MarkOpen|, e) == Some(j)
    requires t[|MarkOpen|..j] == x
    ensures MatchAt(MarkSpan, t) == Some(Match(j + |MarkClose|, "<b>" + x + "</b>"))
  {
  }

  /** `MarkText` starts with `<mark>`, followed by `x`. */
  lemma MarkInner(x: string, y: string, b: string)
    ensures MarkOpen <= MarkText(x, y, b)
    ensures MarkText(x, y, b)[|MarkOpen|..|MarkOpen| + |x|] == x
  {
    var t := MarkText(x, y, b);
    assert t == MarkOpen + (x + (MarkClose + y + b));
  }

  /** On one line, the span from `<mark>` to the LAST `</mark>` of the line
      becomes `<b>…</b>` with the inner text copied verbatim, inner `<mark>`
      and `</mark>` tokens included; the rest of the line is copied. */
  lemma MarkBecomesBold(a: string, x: string, y: string, b: string)
    requires NoMatchBefore(MarkSpan, a + MarkText(x, y, b), |a|)
    requires '\n' !in x && '\n' !in y
    requires Free(y, MarkClose)
    requires b == [] || b[0] == '\n'
    ensures Gsub(MarkSpan, a + MarkText(x, y, b)) == a + (("<b>" + x + "</b>") + (y + Gsub(MarkSpan, b)))
  {
    var t := MarkText(x, y, b);
    var m := Match(|MarkOpen| + |x| + |MarkClose|, "<b>" + x + "</b>");
    UnmatchedPrefixCopied(MarkSpan, a, t);
    MarkMatch(x, y, b);
    GsubAtMatch(MarkSpan, t, m);
    MarkRest(x, y, b);
    NoMarkMatchIn(y, b);
    UnmatchedPrefixCopied(MarkSpan, y, b);
  }

  /** What follows the span in `MarkText`. */
  lemma MarkRest(x: string, y: string, b: string)
    ensures MarkText(x, y, b)[|MarkOpen| + |x| + |MarkClose|..] == y + b
  {
    assert MarkText(x, y, b) == (MarkOpen + x + MarkClose) + (y + b);
  }

  /** The greedy match runs from the first `<mark>` of a line to its last
      `</mark>`, so with two spans on one line the inner `</mark>` and
      `<mark>` survive. */
  lemma MarkIsGreedyOnALine(u: string, v: string)
    requires '\n' !in u && '\n' !in v
    ensures var line := MarkOpen + u + MarkClose + " and " + MarkOpen + v + MarkClose;
            Gsub(MarkSpan, line) == "<b>" + u + MarkClose + " and " + MarkOpen + v + "</b>"
  {
    var x := u + MarkClose + " and " + MarkOpen + v;
    assert '\n' !in MarkClose + " and " + MarkOpen;
    MarkSpanAlone(x);
    Regroup(MarkOpen, u, MarkClose, " and ", MarkOpen, v, MarkClose);
    Regroup("<b>", u, MarkClose, " and ", MarkOpen, v, "</b>");
  }

  /** Concatenation regrouped around a middle of five pieces. */
  lemma Regroup(a: string, b1: string, b2: string, b3: string, b4: string, b5: string, c: string)
    ensures a + (b1 + b2 + b3 + b4 + b5) + c == a + b1 + b2 + b3 + b4 + b5 + c
  {
  }

  /** A text that is one `<mark>` span and nothing else becomes one bold span. */
  lemma MarkSpanAlone(x: string)
    requires '\n' !in x
    ensures Gsub(MarkSpan, MarkOpen + x + MarkClose) == "<b>" + x + "</b>"
  {
    assert MarkText(x, "", "") == MarkOpen + x + MarkClose;
    assert "" + MarkText(x, "", "") == MarkText(x, "", "");
    MarkBecomesBold("", x, "", "");
    assert Gsub(MarkSpan, "") == "";
  }

  // The whole pipeline.

  /** The page handed to the XML parser holds no carriage return, no HTML5
      doctype and no bare `<html>` tag. */
  lemma RewriteBodyIsCleaned(body: string)
    ensures '\r' !in RewriteBody(body)
    ensures Free(RewriteBody(body), Html5Doctype)
    ensures Free(RewriteBody(body), BareHtml)
  {
    RewriteBodyHasNoCarriageReturn(body);
    RewriteBodyHasNoHtml5Markers(body);
  }

  /** The text handed to the parser is the body after the sixteen passes of
      lines 247-264, each applied to the result of the one before, in source
      order. */
  lemma RewriteBodyStepByStep(body: string)
    ensures var s1 := Gsub(LineBreaks, body);
            var s2 := Gsub(SpaceEntity, s1);
            var s3 := Gsub(DataAttribute, s2);
            var s4 := Gsub(Attribute("autocomplete"), s3);
            var s5 := Gsub(Attribute("placeholder"), s4);
            var s6 := Gsub(Attribute("required"), s5);
            var s7 := Gsub(TesterLine, s6);
            var s8 := Gsub(Literal(TesterClose, " "), s7);
            var s9 := Gsub(Literal(RangeType, TextType), s8);
            var s10 := Gsub(Attribute("min"), s9);
            var s11 := Gsub(Attribute("max"), s10);
            var s12 := Gsub(ScriptSrc, s11);
            var s13 := Gsub(Literal(BareScript, TypedScript), s12);
            var s14 := Gsub(MarkSpan, s13);
            var s15 := Gsub(Literal(Html5Doctype, XhtmlDoctype), s14);
            RewriteBody(body) == Gsub(Literal(BareHtml, XhtmlHtml), s15)
  {
    var late := [Literal(BareScript, TypedScript), MarkSpan, Literal(Html5Doctype, XhtmlDoctype), Literal(BareHtml, XhtmlHtml)];
    var later := [Literal(RangeType, TextType), Attribute("min"), Attribute("max"), ScriptSrc] + late;
    var middle := [Attribute("placeholder"), Attribute("required"), TesterLine, Literal(TesterClose, " ")] + later;
    assert Pipeline == [LineBreaks, SpaceEntity, DataAttribute, Attribute("autocomplete")] + middle;
    ApplyAllFour(LineBreaks, SpaceEntity, DataAttribute, Attribute("autocomplete"), middle, body);
    var s1 := Gsub(LineBreaks, body);
    var s2 := Gsub(SpaceEntity, s1);
    var s3 := Gsub(DataAttribute, s2);
    var s4 := Gsub(Attribute("autocomplete"), s3);
    ApplyAllFour(Attribute("placeholder"), Attribute("required"), TesterLine, Literal(TesterClose, " "), later, s4);
    var s5 := Gsub(Attribute("placeholder"), s4);
    var s6 := Gsub(Attribute("required"), s5);
    var s7 := Gsub(TesterLine, s6);
    var s8 := Gsub(Literal(TesterClose, " "), s7);
    ApplyAllFour(Literal(RangeType, TextType), Attribute("min"), Attribute("max"), ScriptSrc, late, s8);
    var s9 := Gsub(Literal(RangeType, TextType), s8);
    var s10 := Gsub(Attribute("min"), s9);
    var s11 := Gsub(Attribute("max"), s10);
    var s12 := Gsub(ScriptSrc, s11);
    assert late == late + [];
    ApplyAllFour(Literal(BareScript, TypedScript), MarkSpan, Literal(Html5Doctype, XhtmlDoctype), Literal(BareHtml, XhtmlHtml), [], s12);
  }

  /** Line 247 turns every carriage return into a line feed and no later
      step adds one. */
  lemma RewriteBodyHasNoCarriageReturn(body: string)
    ensures '\r' !in RewriteBody(body)
  {
    assert ApplyAll(Pipeline, body) == ApplyAll(Pipeline[1..], Gsub(LineBreaks, body));
    NoCarriageReturnLeft(body);
    forall k | 0 <= k < |Pipeline[1..]|
      ensures '\r' !in Constants(Pipeline[1..][k])
    {
      LaterStepsAddNoCarriageReturn(k + 1);
    }
    ApplyAllKeepsAbsent(Pipeline[1..], Gsub(LineBreaks, body), '\r');
  }

  /** No replacement text of the pipeline holds a carriage return. */
  lemma LaterStepsAddNoCarriageReturn(k: nat)
    requires k < |Pipeline|
    ensures '\r' !in Constants(Pipeline[k])
  {
    if k == 14 {
      assert Constants(Pipeline[k]) == XhtmlDoctype;
      XhtmlDoctypeHasNoCarriageReturn();
    } else if k == 15 {
      assert Constants(Pipeline[k]) == XhtmlHtml;
      XhtmlHtmlHasNoCarriageReturn();
    } else {
      EarlyStepsAddNoCarriageReturn(k);
    }
  }

  lemma XhtmlDoctypeHasNoCarriageReturn()
    ensures '\r' !in XhtmlDoctype
  {
    DoctypeRestIsPlain();
  }

  lemma XhtmlHtmlHasNoCarriageReturn()
    ensures '\r' !in XhtmlHtml
  {
    HtmlRestIsPlain();
  }

  lemma ScriptTypesHaveNoCarriageReturn()
    ensures '\r' !in TypedScript && '\r' !in ScriptType
  {
  }

  /** The replacements of the first fourteen steps hold no carriage return. */
  lemma EarlyStepsAddNoCarriageReturn(k: nat)
    requires k < 14
    ensures '\r' !in Constants(Pipeline[k])
  {
    if k < 7 {
      FirstStepsAddNoCarriageReturn(k);
    } else {
      ScriptTypesHaveNoCarriageReturn();
      MiddleStepsAddNoCarriageReturn(k);
    }
  }

  lemma FirstStepsAddNoCarriageReturn(k: nat)
    requires k < 7
    ensures '\r' !in Constants(Pipeline[k])
  {
  }

  lemma MiddleStepsAddNoCarriageReturn(k: nat)
    requires 7 <= k < 14
    requires '\r' !in TypedScript && '\r' !in ScriptType
    ensures '\r' !in Constants(Pipeline[k])
  {
    if k == 12 {
      assert Constants(Pipeline[k]) == TypedScript;
    } else if k == 11 {
      assert Constants(Pipeline[k]) == ScriptType;
    }
  }

  /** Lines 263 and 264 run last, so the doctype and root tag they replace
      are gone from the result. */
  lemma RewriteBodyHasNoHtml5Markers(body: string)
    ensures Free(RewriteBody(body), Html5Doctype)
    ensures Free(RewriteBody(body), BareHtml)
  {
    var upToDoctype := Pipeline[..14];
    assert Pipeline == upToDoctype + [Pipeline[14]] + [Pipeline[15]];
    ApplyAllSnoc(upToDoctype + [Pipeline[14]], Pipeline[15], body);
    ApplyAllSnoc(upToDoctype, Pipeline[14], body);
    var beforeDoctype := ApplyAll(upToDoctype, body);
    var afterDoctype := Gsub(Literal(Html5Doctype, XhtmlDoctype), beforeDoctype);
    NoHtml5DoctypeAfterStep(beforeDoctype);
    NoBareHtmlAfterStep(afterDoctype);
  }
}
