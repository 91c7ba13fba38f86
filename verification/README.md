# XHTML gate of the web UI controller, in Dafny

The web UI of the Open Build Service has a base controller,
`src/api/webui/app/controllers/webui/webui_controller.rb`. One of its
after-filters is `validate_xhtml`. Outside production and staging, the filter
takes every non-Ajax HTML page answered with status 200 and rewrites its HTML5
markup so it looks like XHTML 1.0 Strict. It does this with sixteen `gsub!`
calls. It then parses the result as strict XML and validates it against the
XHTML schema. On any error it replaces the page with an error page of status
400. That page lists the errors and the path of a file that holds the
rewritten text.

The project models:

- the rewrite (`Rewrite`). Each `gsub!` is one `Rule`. `MatchAt` gives, for
  any suffix of the text, the match Ruby's backtracking engine finds at its
  first character, greedy quantifiers included. `Gsub` is the single
  left-to-right pass that replaces the leftmost match, skips past it and
  carries on. `Pipeline` lists the sixteen rules in source order.
- properties of one pass over any rule (`GsubFacts`), of the literal steps
  (`LiteralRules`) and of the pattern steps and the whole pipeline
  (`PatternRules`);
- the gate and its outcome (`Gate`), with the error-line format and a reader
  for it. The integer notation that format uses is in `Decimal`.
- the helpers `map_to_workers` (`Workers`) and the `valid_*_name?`
  predicates (`Names`).

The XML parser is a function parameter from text to `ParseResult` (a document
or one located syntax error). The schema check is a function parameter from a
document to its list of located errors. The path `put_body_to_tempfile`
returns is a string parameter. The deployment environment is the string
`Rails.env`.

Some facts about the code that a reader of the filter may not expect:

- The comment on line 250 speaks of XHTML 1.1. Line 263 writes the XHTML 1.0
  Strict doctype.
- Line 255 removes everything from ` <tester ` to the end of that line, not
  to a closing tag. Line 256 then replaces each remaining `</tester>` with a
  space on its own.
- The greedy `(.*)` of line 262 runs from the first `<mark>` of a line to the
  last `</mark>` of that line, so two spans on one line become one bold span.
- After a syntax error (lines 270-271) the formatted error comes before the
  path of the saved body. After schema errors (lines 278-281) the path comes
  first, then one formatted line per error.

## Model

All source paths are in `src/api/webui/app/controllers/webui/`, written out in full below.

| member | source | states |
|---|---|---|
| Rewrite.MatchAt | src/api/webui/app/controllers/webui/webui_controller.rb:247-264 | a match found at the head of a suffix covers at least one and at most all of its characters, starts with a character that can begin the step's pattern, and its replacement is made only of matched characters and the step's own replacement text |
| Rewrite.Gsub | src/api/webui/app/controllers/webui/webui_controller.rb:247-264 | every character a `gsub!` pass outputs is a character of its input or of the step's replacement text |
| GsubFacts.UnmatchedPrefixCopied | src/api/webui/app/controllers/webui/webui_controller.rb:247-264 | a stretch of text at which no match starts is copied verbatim, and the scan resumes right after it |
| GsubFacts.GsubAfterLeadFree | src/api/webui/app/controllers/webui/webui_controller.rb:247-264 | text none of whose characters can start a match is copied, the following match is replaced, and the scan resumes after the match |
| GsubFacts.LeadFreeUnchanged | src/api/webui/app/controllers/webui/webui_controller.rb:247-264 | a pass over text that holds no character a match can start with changes nothing |
| GsubFacts.ApplyAllKeepsAbsent | src/api/webui/app/controllers/webui/webui_controller.rb:247-264 | a character absent from the text that no later step writes stays absent through all of them |
| GsubFacts.ApplyAllSnoc | src/api/webui/app/controllers/webui/webui_controller.rb:247-264 | running the steps in order and then one more step is running the longer list |
| LiteralRules.LiteralIsSplitJoin | src/api/webui/app/controllers/webui/webui_controller.rb:256-264 | a literal `gsub!` equals splitting the text at the leftmost non-overlapping occurrences of the pattern and joining the pieces with the replacement |
| LiteralRules.LiteralLeavesNoPattern | src/api/webui/app/controllers/webui/webui_controller.rb:256-264 | when the replacement cannot help to spell the pattern, no occurrence of the pattern is left anywhere in the output, including across the seams between replacements and copied text |
| LiteralRules.LiteralKeepsFree | src/api/webui/app/controllers/webui/webui_controller.rb:263-264 | a literal pass whose replacement cannot help to spell another text does not create an occurrence of it |
| LiteralRules.PrefixComesFromInput | src/api/webui/app/controllers/webui/webui_controller.rb:256-264 | an output that starts with a text not holding the replacement's first character comes from an input that starts with the same text |
| LiteralRules.NoTesterCloseAfterStep | src/api/webui/app/controllers/webui/webui_controller.rb:256 | no `</tester>` is left after line 256 |
| LiteralRules.NoRangeTypeAfterStep | src/api/webui/app/controllers/webui/webui_controller.rb:257 | no ` type="range"` is left right after line 257 |
| LiteralRules.NoBareScriptAfterStep | src/api/webui/app/controllers/webui/webui_controller.rb:261 | no bare `<script>` is left after line 261 |
| LiteralRules.NoHtml5DoctypeAfterStep | src/api/webui/app/controllers/webui/webui_controller.rb:263 | no `<!DOCTYPE html>` is left after line 263 |
| LiteralRules.NoBareHtmlAfterStep | src/api/webui/app/controllers/webui/webui_controller.rb:263-264 | no bare `<html>` is left after line 264, and line 264 does not bring back an HTML5 doctype that line 263 removed |
| PatternRules.LineBreaksNormalised | src/api/webui/app/controllers/webui/webui_controller.rb:247 | line 247 keeps the length and turns each carriage return into a line feed, leaving every other character in place |
| PatternRules.NoCarriageReturnLeft | src/api/webui/app/controllers/webui/webui_controller.rb:247 | no carriage return is left after line 247 |
| PatternRules.LineBreaksDistribute | src/api/webui/app/controllers/webui/webui_controller.rb:247 | line 247 acts on the parts of a concatenation independently |
| PatternRules.CrLfBecomesTwoLineFeeds | src/api/webui/app/controllers/webui/webui_controller.rb:247 | a CR LF pair becomes two line feeds |
| PatternRules.NoAmpersandUnchanged | src/api/webui/app/controllers/webui/webui_controller.rb:248 | text without `&` is left unchanged by line 248 |
| PatternRules.EntityAfterOtherAmpersand | src/api/webui/app/controllers/webui/webui_controller.rb:248 | in `&amp;&nbsp;x` the `&amp;`, whose run ends in `am;`, is kept and `&nbsp;` is deleted |
| PatternRules.SpaceEntityDeleted | src/api/webui/app/controllers/webui/webui_controller.rb:248 | where the leftmost match of the text starts at an `&` followed by a run without `;` and `sp;`, that whole run is deleted, the text before it is kept, and the scan resumes right after it |
| PatternRules.DataMatch | src/api/webui/app/controllers/webui/webui_controller.rb:251 | for a plain data attribute, the greedy `\S+` backs off to the `="` after the name, and the match ends at the closing quote |
| PatternRules.DataAttributeStripped | src/api/webui/app/controllers/webui/webui_controller.rb:251 | where the leftmost match starts at a plain ` data-NAME="V"`, it becomes one space, the text before it is kept, and the scan resumes after the closing quote |
| PatternRules.AttributeMatch | src/api/webui/app/controllers/webui/webui_controller.rb:252-259 | ` NAME="V"` with a quote-free value matches up to and including its closing quote |
| PatternRules.AttributeStripped | src/api/webui/app/controllers/webui/webui_controller.rb:252-259 | where the leftmost match starts at ` autocomplete=`, ` placeholder=`, ` required=`, ` min=` or ` max=` with a quote-free value, the attribute becomes one space, the text before it is kept, and the scan resumes after the closing quote |
| PatternRules.AttributeStripIsSinglePass | src/api/webui/app/controllers/webui/webui_controller.rb:252-259 | an attribute written again, without its space, right after a stripped one is left in the output |
| PatternRules.TesterLineDropped | src/api/webui/app/controllers/webui/webui_controller.rb:255 | where the leftmost match starts at ` <tester `, everything from there to the end of its line becomes one space, whether or not a closing tag comes first; the text before it is kept and the line feed stays |
| PatternRules.ScriptSrcMatch | src/api/webui/app/controllers/webui/webui_controller.rb:260 | `<script src="X">` with a quote-free `X` matches up to its `>`, and the captured `<script src="X"` is kept before the script type |
| PatternRules.ScriptSrcTyped | src/api/webui/app/controllers/webui/webui_controller.rb:260 | where the leftmost match starts at `<script src="X">`, it becomes `<script src="X" type="application/javascript">`, the text before it is kept, and the scan resumes after the tag |
| PatternRules.NoMarkMatchIn | src/api/webui/app/controllers/webui/webui_controller.rb:262 | in the rest of a line that holds no `</mark>`, no `<mark>` match starts |
| PatternRules.MarkMatch | src/api/webui/app/controllers/webui/webui_controller.rb:262 | the match of `<mark>` ends at the last `</mark>` of its line, and its replacement is `<b>`, the inner text verbatim, `</b>` |
| PatternRules.MarkBecomesBold | src/api/webui/app/controllers/webui/webui_controller.rb:262 | where the leftmost match starts at a `<mark>`, the span from it to the line's last `</mark>` becomes `<b>…</b>` with inner tokens kept, the text before it is kept, and the rest of the line is copied |
| PatternRules.MarkIsGreedyOnALine | src/api/webui/app/controllers/webui/webui_controller.rb:262 | with two `<mark>` spans on one line, the inner `</mark>` and `<mark>` survive inside a single `<b>…</b>` |
| PatternRules.RewriteBodyIsCleaned | src/api/webui/app/controllers/webui/webui_controller.rb:246-264 | the text handed to the XML parser holds no carriage return, no `<!DOCTYPE html>` and no bare `<html>` |
| PatternRules.RewriteBodyStepByStep | src/api/webui/app/controllers/webui/webui_controller.rb:246-264 | the text handed to the parser (`RewriteBody`, the rules of `Pipeline` in order) is the copy of the body after the sixteen passes of lines 247-264, each applied to the result of the one before, in source order |
| PatternRules.RewriteBodyHasNoCarriageReturn | src/api/webui/app/controllers/webui/webui_controller.rb:247-264 | line 247 removes every carriage return and none of the later fifteen steps writes one |
| PatternRules.RewriteBodyHasNoHtml5Markers | src/api/webui/app/controllers/webui/webui_controller.rb:263-264 | the last two steps leave neither an HTML5 doctype nor a bare `<html>` in the final text |
| Gate.IsHtml | src/api/webui/app/controllers/webui/webui_controller.rb:242 | the content type matches `/text\/html/i` exactly when `text/html` occurs in it with letters compared case-insensitively; a missing content type does not match |
| Gate.LowerFindsCaseInsensitive | src/api/webui/app/controllers/webui/webui_controller.rb:242 | searching the lower-cased text for a lower-case pattern finds exactly the case-insensitive occurrences |
| Gate.GateApplies | src/api/webui/app/controllers/webui/webui_controller.rb:241-243 | the check runs exactly when the request is not Ajax, the status is 200, the content type is present and holds `text/html` in any letter case, and the environment is neither production nor stage |
| Gate.ValidateXhtml | src/api/webui/app/controllers/webui/webui_controller.rb:240-289 | the response is left alone exactly when the request is Ajax, the status is not 200, the content type is not HTML, or the environment is production or stage; otherwise the rewritten body is checked |
| Gate.Check | src/api/webui/app/controllers/webui/webui_controller.rb:267-289 | the page passes exactly when parsing succeeds and the schema reports nothing; a rejection has status 400 and carries the rewritten body; a syntax error gives `[formatted error, path]`; schema errors give the path followed by one formatted line per error, in order |
| Gate.CollectSchemaErrors | src/api/webui/app/controllers/webui/webui_controller.rb:276-281 | the loop over the schema errors yields the path, then one line per error in order, and each line reads back as its error |
| Gate.FormatError | src/api/webui/app/controllers/webui/webui_controller.rb:270 | an error line starts with `[` |
| Gate.FormatErrorRoundTrip | src/api/webui/app/controllers/webui/webui_controller.rb:270 | an error line `[line:column]inspect` keeps the line, the column and the text, and reading it back gives the error |
| Gate.ProductionIsNeverChecked | src/api/webui/app/controllers/webui/webui_controller.rb:243 | in production and stage the response is never touched, whatever the page, parser and schema |
| Gate.SchemaLinesReadBack | src/api/webui/app/controllers/webui/webui_controller.rb:276-281 | in the path-then-errors list, the line after the path at position k reads back as schema error k |
| Gate.RejectionReportsEveryError | src/api/webui/app/controllers/webui/webui_controller.rb:267-289 | a rejected page's error list reads back as the syntax error, or as every schema error in order |
| Decimal.IntToString | src/api/webui/app/controllers/webui/webui_controller.rb:270 | the `%s` of a line or column number is a non-empty run of digits, with a leading minus exactly for negative numbers |
| Decimal.NatToString | src/api/webui/app/controllers/webui/webui_controller.rb:280 | a natural number is written as digits with no leading zero unless it is zero |
| Decimal.IntRoundTrip | src/api/webui/app/controllers/webui/webui_controller.rb:270 | reading back the decimal notation of any integer gives the integer |
| Decimal.NatRoundTrip | src/api/webui/app/controllers/webui/webui_controller.rb:280 | the value of the digits written for a natural number is that number |
| Workers.MapToWorkers | src/api/webui/app/controllers/webui/webui_controller.rb:220-227 | `i586`, `ppc` and `s390` are changed, and to none of those three; every other architecture is returned unchanged |
| Workers.MapToWorkersIdempotent | src/api/webui/app/controllers/webui/webui_controller.rb:220-227 | mapping a second time changes nothing |
| Names.IsValidOnSomeLine | src/api/webui/app/controllers/webui/webui_controller.rb:139-157 | a name passes exactly when some line of it, from a line start to a line end, is a non-empty run whose first and later characters are in the pattern's classes; role, user and group names share one class |
| Names.LineMatchesAt | src/api/webui/app/controllers/webui/webui_controller.rb:139-157 | a match anchored at a line start can only end at that line's end, and it exists exactly when the whole line is valid |
| Names.SingleLineIsWhole | src/api/webui/app/controllers/webui/webui_controller.rb:139-157 | for a name without a line feed, passing means the whole name is valid |
| Names.OtherLinesAreNotChecked | src/api/webui/app/controllers/webui/webui_controller.rb:139-141 | `../x`, a line feed, then `ok` passes `valid_file_name?`, although the name as a whole is not valid |
| Names.IsValidName | src/api/webui/app/controllers/webui/webui_controller.rb:139-157 | the whole-name check: it accepts exactly the names that are, as a whole, valid; such a name holds no line feed, and the line-anchored check also accepts it |

## Left out

- Nokogiri's strict parse and `XHTML_XSD.validate` (lines 268, 275) are foreign code. They are the function parameters `parse` and `validate`. A parse failure carries one syntax error, as the rescued exception does.
- `put_body_to_tempfile` (lines 231-237) writes a file. Its result is the opaque parameter `tempPath`.
- Clearing `@_response_body`, the debug log line and the `render` call (lines 286-288) are framework effects. They are the `Rejected` outcome with its status, body and error list.
- Authentication, session and ActiveXML header handling, the `rescue_from` handlers, the login and admin redirects, `mobile_request?`, the cache-control check and the database lookups are Rails and service glue. They are not part of this model.
- Text is a sequence of characters. Ruby's `gsub!` raises an `ArgumentError` on a body that is not valid UTF-8, so line 247 can fail before any outcome is reached. Such a body cannot be written as a `string`, and that error path is not modelled.
- Gate.IsHtml: the content type is a plain string. Ruby's case folding is taken as ASCII folding, which agrees for the letters of `text/html`.
- Gate.Check: error positions are integers. A missing (`nil`) line or column, which `%s` would print as an empty string, is not modelled.
- Rewrite.MatchAt: a literal rule with an empty pattern never matches. Ruby would match the empty string at every position, but no step of the pipeline has an empty pattern.
- Rewrite.IsSpace: Ruby's `\s` is taken as space, tab, line feed, vertical tab, form feed and carriage return. `\w` is taken as ASCII letters, digits and underscore.
- PatternRules.DataAttributeStripped: stated only for plain data attributes. That means a name without whitespace, `=` or quote, a quote-free value not ending in `=`, and no `=` before the next whitespace after the closing quote. Other inputs are covered by `Rewrite.MatchAt` but not by a lemma.
- PatternRules.AttributeStripped: "no such attribute survives" is not claimed. `PatternRules.AttributeStripIsSinglePass` shows why it is not a property of these steps.
- PatternRules.MarkBecomesBold: stated for the last `<mark>` span of a line (no `</mark>` after the span's end on that line). Several spans on one line are covered by `PatternRules.MarkIsGreedyOnALine`.
- The idempotence of the whole rewrite is not claimed. The steps are not no-ops on their own output in general, for example when a stripped attribute exposes another one.

## Findings

| source | as written | input that shows it | evidently intended | confidence | as-written member | corrected member |
|---|---|---|---|---|---|---|
| src/api/webui/app/controllers/webui/webui_controller.rb:139-157 | the patterns are anchored with `^` and `$`, which in Ruby match at every line boundary, so only one line of the name has to be valid | `"../x\nok"` passes `valid_file_name?` | the whole name is checked (`\A` and `\z`) | medium, not executed | Names.OtherLinesAreNotChecked | Names.IsValidName |
