/** The text rewrite that `validate_xhtml` applies to a rendered page before it
    parses it as XML: sixteen `gsub!` calls, each a single left-to-right pass
    that replaces the leftmost match, skips past it and carries on.

    Every regular expression used there has a fixed shape, so instead of a
    regular-expression engine each shape is a `Rule` constructor and `MatchAt`
    computes, for a suffix of the text, the match that Ruby's backtracking
    engine would find at its first character (greedy quantifiers included). */
module Rewrite {
  import opened Strings

  /** A match at the head of a suffix: how many characters it covers and what
      replaces them. */
  datatype Match = Match(len: nat, replacement: string)

  datatype Rule =
    | LineBreaks                        // /[\n\r]/                      -> "\n"
    | SpaceEntity                       // /&[^;]*sp;/                   -> ""
    | DataAttribute                     // / data-\S+="[^"]*"/           -> " "
    | Attribute(name: string)           // / NAME="[^"]*"/               -> " "
    | TesterLine                        // / <tester .*/                 -> " "
    | Literal(pat: string, rep: string) // a literal pattern             -> a literal
    | ScriptSrc                         // /(<script src="[^"]*")>/      -> '\1 type="application/javascript">'
    | MarkSpan                          // /<mark>(.*)<\/mark>/          -> '<b>\1</b>'

  const DataPrefix: string := " data-"
  const TesterPrefix: string := " <tester "
  const ScriptSrcPrefix: string := "<script src=\""
  const ScriptType: string := " type=\"application/javascript\">"
  const MarkOpen: string := "<mark>"
  const MarkClose: string := "</mark>"

  const BareScript: string := "<script>"
  const TypedScript: string := "<script type=\"application/javascript\">"
  const Html5Doctype: string := "<!DOCTYPE html>"
  // The two replacement texts below are the literals of lines 263 and 264.
  // They are written as a `<` and the rest, and the rest in short pieces,
  // only so that the proofs that they hold no `<` or carriage return after
  // their first character stay small for the solver.

  /** The XHTML 1.0 Strict document type declaration of appendix A of the
      W3C XHTML 1.0 Recommendation: its `<` and the rest. */
  const XhtmlDoctype: string := "<" + XhtmlDoctypeRest
  const XhtmlDoctypeRest: string :=
    "!DOCTYPE html PUBLIC " + "\"-//W3C//DTD XHTML " + "1.0 Strict//EN\" " + "\"http://www.w3.org/TR/" + "xhtml1/DTD/" + "xhtml1-strict.dtd\">"
  const BareHtml: string := "<html>"
  /** The root element start tag with the XHTML namespace and English as the
      language: its `<` and the rest. */
  const XhtmlHtml: string := "<" + XhtmlHtmlRest
  const XhtmlHtmlRest: string := "html xmlns=\"http://www.w3.org/" + "1999/xhtml\" xml:lang=\"en\" lang=\"en\">"
  const RangeType: string := " type=\"range\""
  const TextType: string := " type=\"text\""
  const TesterClose: string := "</tester>"

  /** Ruby's `\s`: space, tab, line feed, vertical tab, form feed, carriage return. */
  predicate IsSpace(c: char) {
    c == ' ' || c == '\t' || c == '\n' || c == '\r' || c as int == 11 || c as int == 12
  }

  /** The characters every match of `r` may start with. */
  function Leads(r: Rule): string {
    match r
    case LineBreaks => "\n\r"
    case SpaceEntity => "&"
    case DataAttribute => " "
    case Attribute(_) => " "
    case TesterLine => " "
    case Literal(pat, _) => if |pat| == 0 then [] else [pat[0]]
    case ScriptSrc => "<"
    case MarkSpan => "<"
  }

  /** The characters a replacement of `r` may add beyond those of the matched text. */
  function Constants(r: Rule): string {
    match r
    case LineBreaks => "\n"
    case SpaceEntity => ""
    case DataAttribute => " "
    case Attribute(_) => " "
    case TesterLine => " "
    case Literal(_, rep) => rep
    case ScriptSrc => ScriptType
    case MarkSpan => "<b></b>"
  }

  /** Index of the first Ruby whitespace character of `t` at or after `from`, or `|t|`. */
  function SpaceFrom(t: string, from: nat): (r: nat)
    requires from <= |t|
    ensures from <= r <= |t|
    ensures r < |t| ==> IsSpace(t[r])
    ensures forall k :: from <= k < r ==> !IsSpace(t[k])
    decreases |t| - from
  {
    if from == |t| || IsSpace(t[from]) then from else SpaceFrom(t, from + 1)
  }

  /** In ` data-\S+="[^"]*"`, the `="` may follow the `\S+` at index `p` of the
      suffix when it is there and a closing quote comes later. */
  predicate ValueSplit(t: string, p: nat) {
    |DataPrefix| < p && p + 1 < |t| && t[p] == '=' && t[p + 1] == '"' && IndexOf(t, '"', p + 2) < |t|
  }

  /** The largest `p < hi` with `ValueSplit(t, p)`: greedy `\S+` backs off one
      character at a time until the rest of the pattern matches. */
  function LastValueSplit(t: string, hi: nat): (r: Option<nat>)
    requires hi <= |t|
    ensures r.Some? ==> r.value < hi && ValueSplit(t, r.value)
    ensures r.Some? ==> forall p: nat :: r.value < p < hi ==> !ValueSplit(t, p)
    ensures r.None? ==> forall p: nat :: p < hi ==> !ValueSplit(t, p)
    decreases hi
  {
    if hi <= |DataPrefix| + 1 then None
    else if ValueSplit(t, hi - 1) then Some(hi - 1)
    else LastValueSplit(t, hi - 1)
  }

  /** ` data-\S+="[^"]*"` at the head of `t`. */
  function MatchData(t: string): Option<Match> {
    if DataPrefix <= t then
      var e := SpaceFrom(t, |DataPrefix|);
      match LastValueSplit(t, e)
      case Some(p) => Some(Match(IndexOf(t, '"', p + 2) + 1, " "))
      case None => None
    else None
  }

  /** ` NAME="[^"]*"` at the head of `t`: the value runs to the first quote. */
  function MatchAttribute(name: string, t: string): Option<Match> {
    var prefix := " " + name + "=\"";
    if prefix <= t then
      var q := IndexOf(t, '"', |prefix|);
      if q < |t| then Some(Match(q + 1, " ")) else None
    else None
  }

  /** ` <tester .*` at the head of `t`: `.` stops at a line feed. */
  function MatchTester(t: string): Option<Match> {
    if TesterPrefix <= t then Some(Match(IndexOf(t, '\n', |TesterPrefix|), " ")) else None
  }

  /** `(<script src="[^"]*")>` at the head of `t`. */
  function MatchScriptSrc(t: string): (m: Option<Match>)
    ensures m.Some? ==> 0 < m.value.len <= |t| && ScriptSrcPrefix <= t
    ensures m.Some? ==> forall ch :: ch in m.value.replacement ==> ch in t[..m.value.len] || ch in ScriptType
  {
    if ScriptSrcPrefix <= t then
      var q := IndexOf(t, '"', |ScriptSrcPrefix|);
      if q + 1 < |t| && t[q + 1] == '>' then
        SliceWithinPrefix(t, 0, q + 1, q + 2);
        Some(Match(q + 2, t[..q + 1] + ScriptType))
      else None
    else None
  }

  /** `<mark>(.*)</mark>` at the head of `t`: greedy `.*` reaches the end of
      the line and backs off to the last `</mark>` on it. */
  function MatchMark(t: string): (m: Option<Match>)
    ensures m.Some? ==> 0 < m.value.len <= |t| && MarkOpen <= t
    ensures m.Some? ==> forall ch :: ch in m.value.replacement ==> ch in t[..m.value.len] || ch in "<b></b>"
  {
    if MarkOpen <= t then
      var e := IndexOf(t, '\n', |MarkOpen|);
      match LastOccurrence(t, MarkClose, |MarkOpen|, e)
      case Some(j) =>
        SliceWithinPrefix(t, |MarkOpen|, j, j + |MarkClose|);
        BoldChars(t[|MarkOpen|..j]);
        Some(Match(j + |MarkClose|, "<b>" + t[|MarkOpen|..j] + "</b>"))
      case None => None
    else None
  }

  /** Every character of a slice of `t` that ends by `n` is in `t[..n]`. */
  lemma SliceWithinPrefix(t: string, a: nat, b: nat, n: nat)
    requires a <= b <= n <= |t|
    ensures forall ch :: ch in t[a..b] ==> ch in t[..n]
  {
    forall k | 0 <= k < b - a
      ensures t[a..b][k] in t[..n]
    {
      assert t[a..b][k] == t[..n][a + k];
    }
  }

  /** The characters of `<b>x</b>` are those of `x` and of the two tags. */
  lemma BoldChars(x: string)
    ensures forall ch :: ch in "<b>" + x + "</b>" ==> ch in x || ch in "<b></b>"
  {
  }

  /** The match of rule `r` at the first character of `t`, if any. */
  function MatchAt(r: Rule, t: string): (m: Option<Match>)
    ensures m.Some? ==> 0 < m.value.len <= |t|
    ensures m.Some? ==> t[0] in Leads(r)
    ensures m.Some? ==> forall ch :: ch in m.value.replacement ==> ch in t[..m.value.len] || ch in Constants(r)
  {
    match r
    case LineBreaks =>
      if |t| > 0 && (t[0] == '\n' || t[0] == '\r') then Some(Match(1, "\n")) else None
    case SpaceEntity =>
      if |t| > 0 && t[0] == '&' then
        var q := IndexOf(t, ';', 1);
        if q < |t| && 3 <= q && t[q - 2] == 's' && t[q - 1] == 'p' then Some(Match(q + 1, "")) else None
      else None
    case DataAttribute => MatchData(t)
    case Attribute(name) => MatchAttribute(name, t)
    case TesterLine => MatchTester(t)
    case Literal(pat, rep) =>
      if 0 < |pat| && pat <= t then Some(Match(|pat|, rep)) else None
    case ScriptSrc => MatchScriptSrc(t)
    case MarkSpan => MatchMark(t)
  }

  /** One `gsub!` pass of `r` over `s`: at each position either the match
      there is replaced and skipped, or one character is copied. */
  function Gsub(r: Rule, s: string): (out: string)
    ensures forall ch :: ch in out ==> ch in s || ch in Constants(r)
    decreases |s|
  {
    if s == [] then []
    else match MatchAt(r, s)
      case Some(m) =>
        var rest := Gsub(r, s[m.len..]);
        assert forall ch :: ch in m.replacement ==> ch in s || ch in Constants(r) by {
          assert forall ch :: ch in s[..m.len] ==> ch in s;
        }
        m.replacement + rest
      case None => [s[0]] + Gsub(r, s[1..])
  }

  /** The rewrite of lines 247-264, in source order. */
  const Pipeline: seq<Rule> := [
    LineBreaks,
    SpaceEntity,
    DataAttribute,
    Attribute("autocomplete"),
    Attribute("placeholder"),
    Attribute("required"),
    TesterLine,
    Literal(TesterClose, " "),
    Literal(RangeType, TextType),
    Attribute("min"),
    Attribute("max"),
    ScriptSrc,
    Literal(BareScript, TypedScript),
    MarkSpan,
    Literal(Html5Doctype, XhtmlDoctype),
    Literal(BareHtml, XhtmlHtml)
  ]

  /** Applies `rules` one after the other, each to the output of the previous one. */
  function ApplyAll(rules: seq<Rule>, s: string): string
    decreases |rules|
  {
    if rules == [] then s else ApplyAll(rules[1..], Gsub(rules[0], s))
  }

  /** The body text `validate_xhtml` hands to the XML parser. */
  function RewriteBody(body: string): string {
    ApplyAll(Pipeline, body)
  }
}
