/** The after-filter `validate_xhtml` (webui_controller.rb:239-290): when it
    applies to a response, it rewrites the body, parses it as strict XML,
    validates the document against the XHTML schema, and on any error
    replaces the response with an error page of status 400.

    The XML parser, the schema and the temporary file are outside the model:
    the parser is a function from text to `ParseResult`, the schema check a
    function from a document to its list of errors, and the path of the file
    the rewritten body is saved to is a string supplied by the caller. */
module Gate {
  import opened Strings
  import opened Decimal
  import opened Rewrite

  datatype Request = Request(xhr: bool)

  /** `contentType` is `None` when the response has no content type. */
  datatype Response = Response(status: int, contentType: Option<string>, body: string)

  /** A located error of the parser or of the schema check, and its `inspect` text. */
  datatype XmlError = XmlError(line: int, column: int, inspect: string)

  datatype ParseResult<D> = Parsed(doc: D) | SyntaxError(error: XmlError)

  datatype Outcome =
    | Untouched                                                 // the filter returned early
    | Passed                                                    // checked, nothing to report
    | Rejected(status: int, oldbody: string, errors: seq<string>) // the error page that replaces the response

  const HtmlType: string := "text/html"

  /** `s` matches `p` at `i` when letters are compared without regard to case. */
  predicate CaseInsensitiveAt(s: string, p: string, i: int) {
    0 <= i && i + |p| <= |s| && forall j :: 0 <= j < |p| ==> LowerChar(s[i + j]) == LowerChar(p[j])
  }

  /** `content_type =~ /text\/html/i`: a missing content type never matches. */
  function IsHtml(contentType: Option<string>): (b: bool)
    ensures b <==> contentType.Some? && exists i :: CaseInsensitiveAt(contentType.value, HtmlType, i)
  {
    match contentType
    case None => false
    case Some(t) =>
      LowerFindsCaseInsensitive(t, HtmlType);
      Contains(Lower(t), HtmlType)
  }

  /** An occurrence of a lower-case text in the lower-cased string is a
      case-insensitive occurrence in the string, and back. */
  lemma LowerFindsCaseInsensitive(t: string, p: string)
    requires Lower(p) == p
    ensures (exists i :: OccursAt(Lower(t), p, i)) <==> (exists i :: CaseInsensitiveAt(t, p, i))
  {
    forall i
      ensures OccursAt(Lower(t), p, i) <==> CaseInsensitiveAt(t, p, i)
    {
      if 0 <= i && i + |p| <= |t| {
        var low := Lower(t);
        if OccursAt(low, p, i) {
          forall j | 0 <= j < |p|
            ensures LowerChar(t[i + j]) == LowerChar(p[j])
          {
            OccursAtIndex(low, p, i, j);
            assert LowerChar(p[j]) == Lower(p)[j];
          }
        }
        if CaseInsensitiveAt(t, p, i) {
          forall j | 0 <= j < |p|
            ensures low[i..i + |p|][j] == p[j]
          {
            assert LowerChar(p[j]) == Lower(p)[j];
          }
        }
      }
    }
  }

  /** Lines 241-243: the check runs only for a non-Ajax request answered with
      status 200 and an HTML content type, outside production and staging. */
  function GateApplies(req: Request, resp: Response, env: string): (b: bool)
    ensures b <==> && !req.xhr
                   && resp.status == 200
                   && resp.contentType.Some?
                   && (exists i :: CaseInsensitiveAt(resp.contentType.value, HtmlType, i))
                   && env !in {"production", "stage"}
  {
    && !req.xhr
    && resp.status == 200
    && IsHtml(resp.contentType)
    && env != "production"
    && env != "stage"
  }

  /** `'[%s:%s]' % [line, column] + inspect`. */
  function FormatError(e: XmlError): (s: string)
    ensures 0 < |s| && s[0] == '['
  {
    "[" + IntToString(e.line) + ":" + IntToString(e.column) + "]" + e.inspect
  }

  /** One formatted line per error, in the order given. */
  function FormatAll(errs: seq<XmlError>): (r: seq<string>)
    ensures |r| == |errs|
    ensures forall k :: 0 <= k < |errs| ==> r[k] == FormatError(errs[k])
  {
    seq(|errs|, k requires 0 <= k < |errs| => FormatError(errs[k]))
  }

  /** Reads a line written by `FormatError` back into its error. */
  function ReadError(s: string): Option<XmlError> {
    if |s| < 1 || s[0] != '[' then None
    else
      var c := IndexOf(s, ':', 1);
      if c == |s| then None
      else
        var e := IndexOf(s, ']', c + 1);
        if e == |s| then None
        else match (ReadInt(s[1..c]), ReadInt(s[c + 1..e]))
          case (Some(line), Some(column)) => Some(XmlError(line, column, s[e + 1..]))
          case _ => None
  }

  /** The report keeps each error's position and text: reading a formatted
      line back gives the error. */
  lemma FormatErrorRoundTrip(e: XmlError)
    ensures ReadError(FormatError(e)) == Some(e)
  {
    IntRoundTrip(e.line);
    IntRoundTrip(e.column);
    ReadFields(IntToString(e.line), IntToString(e.column), e.inspect);
  }

  /** `ReadError` splits a line at the first `:` and the first `]` after it. */
  lemma ReadFields(l: string, c: string, rest: string)
    requires forall k :: 0 <= k < |l| ==> IsDigit(l[k]) || l[k] == '-'
    requires forall k :: 0 <= k < |c| ==> IsDigit(c[k]) || c[k] == '-'
    ensures var s := "[" + l + ":" + c + "]" + rest;
            ReadError(s) == (match (ReadInt(l), ReadInt(c))
                             case (Some(x), Some(y)) => Some(XmlError(x, y, rest))
                             case _ => None)
  {
    var s := "[" + l + ":" + c + "]" + rest;
    var t := ":" + c + "]" + rest;
    var u := "]" + rest;
    SplitAt("[", l, t);
    SplitAt("[" + l + ":", c, u);
    IndexOfAfterNumber(s, 1, l, ':');
    IndexOfAfterNumber(s, 2 + |l|, c, ']');
  }

  /** The pieces of `a + b + rest`. */
  lemma SplitAt(a: string, b: string, rest: string)
    ensures (a + b + rest)[|a|..|a| + |b|] == b
    ensures (a + b + rest)[|a| + |b|..] == rest
  {
  }

  /** Searching for a character that is neither a digit nor `-` past a
      written number stops right after it. */
  lemma IndexOfAfterNumber(s: string, from: nat, n: string, c: char)
    requires from + |n| < |s|
    requires s[from..from + |n|] == n && s[from + |n|] == c
    requires forall k :: 0 <= k < |n| ==> IsDigit(n[k]) || n[k] == '-'
    requires !IsDigit(c) && c != '-'
    ensures IndexOf(s, c, from) == from + |n|
  {
    forall k | from <= k < from + |n|
      ensures s[k] != c
    {
      assert s[k] == n[k - from];
    }
  }

  /** Lines 267-289 on the rewritten body `xml`: `parse` stands for the
      strict XML parser, `validate` for the schema check, and `tempPath` for
      the path `put_body_to_tempfile` returns. */
  function Check<D>(xml: string, parse: string -> ParseResult<D>, validate: D -> seq<XmlError>,
                    tempPath: string): (o: Outcome)
    ensures !o.Untouched?
    ensures o.Passed? <==> parse(xml).Parsed? && validate(parse(xml).doc) == []
    ensures o.Rejected? ==> o.status == 400 && o.oldbody == xml
    ensures parse(xml).SyntaxError? ==> o.errors == [FormatError(parse(xml).error), tempPath]
    ensures o.Rejected? && parse(xml).Parsed? ==> o.errors == [tempPath] + FormatAll(validate(parse(xml).doc))
  {
    match parse(xml)
    case SyntaxError(e) => Rejected(400, xml, [FormatError(e), tempPath])
    case Parsed(doc) =>
      var errs := validate(doc);
      if errs == [] then Passed else Rejected(400, xml, [tempPath] + FormatAll(errs))
  }

  /** `validate_xhtml` on one response: nothing happens unless the gate
      applies, and then the rewritten body is checked. */
  function ValidateXhtml<D>(req: Request, resp: Response, env: string,
                            parse: string -> ParseResult<D>, validate: D -> seq<XmlError>,
                            tempPath: string): (o: Outcome)
    ensures o.Untouched? <==> !GateApplies(req, resp, env)
    ensures GateApplies(req, resp, env) ==> o == Check(RewriteBody(resp.body), parse, validate, tempPath)
  {
    if !GateApplies(req, resp, env) then Untouched
    else Check(RewriteBody(resp.body), parse, validate, tempPath)
  }

  /** The `ses.each` loop of lines 277-279: the temporary file path, then
      one line per schema error in order. */
  method CollectSchemaErrors(tempPath: string, errs: seq<XmlError>) returns (errors: seq<string>)
    ensures |errors| == |errs| + 1 && errors[0] == tempPath
    ensures forall k :: 0 <= k < |errs| ==> ReadError(errors[k + 1]) == Some(errs[k])
    ensures errors == [tempPath] + FormatAll(errs)
  {
    errors := [tempPath];
    var i := 0;
    while i < |errs|
      invariant 0 <= i <= |errs|
      invariant errors == [tempPath] + FormatAll(errs[..i])
    {
      errors := errors + [FormatError(errs[i])];
      assert FormatAll(errs[..i + 1]) == FormatAll(errs[..i]) + [FormatError(errs[i])];
      i := i + 1;
    }
    assert errs[..i] == errs;
    SchemaLinesReadBack(tempPath, errs);
  }

  /** In production and staging the response is never touched, whatever the
      page, the parser and the schema say. */
  lemma ProductionIsNeverChecked<D>(req: Request, resp: Response, env: string,
                                    parse: string -> ParseResult<D>, validate: D -> seq<XmlError>,
                                    tempPath: string)
    ensures env == "production" || env == "stage" ==> ValidateXhtml(req, resp, env, parse, validate, tempPath) == Untouched
  {
  }

  /** The error list of a rejected page determines the reported errors: a
      syntax error reads back from the first line, and each line after the
      path reads back as the schema error it was made from. */
  lemma RejectionReportsEveryError<D>(xml: string, parse: string -> ParseResult<D>,
                                      validate: D -> seq<XmlError>, tempPath: string)
    ensures var o := Check(xml, parse, validate, tempPath);
            var p := parse(xml);
            && (p.SyntaxError? ==> ReadError(o.errors[0]) == Some(p.error))
            && (o.Rejected? && p.Parsed? ==>
                  forall k :: 0 <= k < |validate(p.doc)| ==> ReadError(o.errors[k + 1]) == Some(validate(p.doc)[k]))
  {
    match parse(xml)
    case SyntaxError(e) => FormatErrorRoundTrip(e);
    case Parsed(doc) => SchemaLinesReadBack(tempPath, validate(doc));
  }

  /** Each line after the path reads back as the schema error it was made from. */
  lemma SchemaLinesReadBack(tempPath: string, errs: seq<XmlError>)
    ensures forall k :: 0 <= k < |errs| ==> ReadError(([tempPath] + FormatAll(errs))[k + 1]) == Some(errs[k])
  {
    var lines := FormatAll(errs);
    forall k | 0 <= k < |errs|
      ensures ReadError(([tempPath] + lines)[k + 1]) == Some(errs[k])
    {
      assert ([tempPath] + lines)[k + 1] == lines[k];
      FormatErrorRoundTrip(errs[k]);
    }
  }
}
