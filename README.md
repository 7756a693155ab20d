# OCR-to-LaTeX report generation, modelled in Dafny

`latex.py` turns the scanned pages of a script into one LaTeX report:

- it fetches the page images of a script from the image service, ordered by page number;
- it sends each image to a vision model and cleans the LaTeX that comes back;
- it runs a few syntax checks on the cleaned text;
- it wraps the page sections in a fixed document;
- when asked, it stores the result.

This project models the deterministic core of that pipeline and proves properties of it.

| file | what it models |
|---|---|
| `wrappers.dfy` | `Option` and `Result`. |
| `text.dfy` | The Python string operations the core relies on, with Python's semantics (details below). |
| `fetch.dfy` | The list shaping in `fetch_images_from_db`: the stable sort by `page_number`, records without image data dropped, data-URL headers cut off at the first comma, and the `IndexError` a header without a comma raises. The loop is a method proved against the function `ShapedImages`. |
| `sanitizer.dfy` | `sanitize_latex`, as the source's chain of regular-expression rewrites, each its own function. |
| `validator.dfy` | `validate_latex_syntax`: the brace, dollar and backslash checks, in the source's order and with its messages. |
| `document.dfy` | `generate_complete_latex_document`: the preamble as its 50 lines, the script id spliced into two of them, the sections joined by blank lines, and the closing marker. |
| `pipeline.dfy` | The rest of `generate_latex_from_script`, described below. |

The Python operations modelled in `text.dfy`:

- `str.isspace` and `str.strip`;
- `str.count`;
- `str.find`;
- `str.replace` and literal `re.sub`;
- lazy `A.*?B` spans;
- `str.join`;
- `str(n)`.

The parts of `generate_latex_from_script` in `pipeline.dfy`:

- the page loop, as a method with invariants over a specification of the outcome of each page;
- the result dictionary in all of its cases: fetch error, no images, success, failed save and save exception;
- the string that `analyze_image_latex` returns for each kind of model reply.

The page functions, the loop and their lemmas take as a parameter the text the cleanup puts for `~`. Every property of the loop holds whatever that text is. `GenerateLatexFromScript` runs the loop with the text as written (`Sanitizer.TildeAsWritten`), as the program does. The two cleanups differ only on text that holds `~` (`Sanitizer.AsWrittenAgreesWithoutTilde`).

Three things outside the core are parameters:

- the model call, a function from an image and a page number to text or to an exception message. `analyze_image_latex` catches every exception of the API call itself (latex.py:124-126) and returns it as a `% Error processing image ...` comment, so a failed call reaches the loop as text: it is cleaned, its `%` is escaped, and the page counts as processed (`Pipeline.FailureBecomesText`). The exception case stands for what is raised outside that handler;
- the store, a function to `Saved`, `Rejected(message)` or `SaveRaised(error)`;
- the HTTP fetch, a `Result` holding the service's records or an exception message.

Behaviour of the code a reader may not expect:

- Sections are not sorted by page number when the document is built. Pages are numbered by their position in the fetched list, and the document keeps that order (`Document.SectionsInInputOrder`).
- `sanitize_latex` is not idempotent (`Sanitizer.SanitizeNotIdempotent`).
- `sanitize_latex` can return the empty string for non-blank input (`Sanitizer.SanitizeMayBeEmpty`).
- An underscore is left alone when it is followed by a digit, `{` or `}`. Digits and both braces count, because the lookahead class is `[0-9{}]`.
- The preamble keeps a leading line break. `.strip()` applies only to the last raw-string piece of the concatenation (`Document.PreambleOpensWithClass`).
- The `% No content ...` placeholder for an empty model reply has its `%` escaped by the sanitizer, so it shows up as text in the document (`Pipeline.PlaceholderBecomesText`).
- The TikZ marker is inserted after escaping, so its `%` stays a comment (`Sanitizer.PictureBecomesMarker`).

## Model

| member | source | states |
|---|---|---|
| Text.Strip | latex.py:169 | The result is empty exactly when the input is all whitespace; otherwise it neither starts nor ends with whitespace and holds only characters of the input. It is a slice of the input with only whitespace before and after it. |
| Text.TrimmedEmpty | latex.py:130 | Trimming both ends leaves nothing exactly when the text was all whitespace, the blank-input guard of the sanitizer. |
| Text.StripUnchanged | latex.py:169 | Text that neither starts nor ends with whitespace is returned as it is by the final strip. |
| Text.Count | latex.py:175 | `str.count` of one character is that character's multiplicity in the text. |
| Text.ReplaceAll | latex.py:135 | Literal replacement of every occurrence, left to right and without overlap; the result holds only characters of the text or of the replacement. Its other properties are the `ReplaceAll...` lemmas. |
| Text.ReplaceSpans | latex.py:134 | Lazy `open.*?close` replacement with `re.DOTALL`, each span ending at the first `close` after its `open`; the result holds only characters of the text or of the replacement. |
| Text.IndexOf | latex.py:185 | The substring search returns the first place the pattern occurs, or nothing when it occurs nowhere. |
| Text.ReplaceAllAbsent | latex.py:154-155 | Replacing a pattern that does not occur leaves the text unchanged. |
| Text.ReplaceAllRemovesChar | latex.py:155 | Replacing a single character leaves none of it unless the replacement brings it back. |
| Text.ReplaceSpansAbsent | latex.py:134 | A lazy span replacement whose opening delimiter does not occur leaves the text unchanged. |
| Text.ReplaceSpansBlock | latex.py:158-159 | A span whose body does not hold the closing delimiter is replaced by exactly one replacement, whatever the body's length. |
| Text.ReplaceSpansSkip | latex.py:134 | A prefix in which no opening delimiter starts is copied unchanged, and the spans are replaced in what follows. |
| Text.ReplaceSpansBlockAfter | latex.py:158-159 | After such a prefix, the first span whose body does not hold the closing delimiter is replaced by exactly one replacement, and the prefix is kept. |
| Text.Join | latex.py:249 | `sep.join(xs)`: defined as the elements with one separator between neighbours. What it states is in `Text.JoinElementAt`, `Text.JoinSeparatorAt` and `Text.JoinLength`. |
| Text.JoinElementAt | latex.py:249 | Each joined element sits intact at its offset in the joined text. |
| Text.JoinSeparatorAt | latex.py:249 | Exactly one separator stands between consecutive joined elements. |
| Text.NatToStringRoundTrip | latex.py:395 | The decimal page number in the f-strings reads back as the number. |
| Text.IntToString | latex.py:177 | The signed count in the brace message is written with a `-` exactly when it is negative, followed by its magnitude's digits. |
| Sanitizer.Sanitize | latex.py:128-169 | Blank input gives the `% Empty content` sentinel; any other result neither starts nor ends with whitespace, and no `°` is left. |
| Sanitizer.SanitizeAsWritten | latex.py:128-169 | The cleanup with the `~` template as written: blank input gives the sentinel, any other result neither starts nor ends with whitespace, and no `°` is left. |
| Sanitizer.TildeFreeAgree | latex.py:139-148 | On text without `~`, the text that replaces `~` makes no difference to the whole cleanup. |
| Sanitizer.AsWrittenAgreesWithoutTilde | latex.py:143-148 | On text without `~`, the cleanup as written and the corrected one give the same result. |
| Sanitizer.EscapeAddsNothing | latex.py:146-148 | Escaping brings in no character that neither the text nor the replacement holds. |
| Sanitizer.StripPreamble | latex.py:134 | Deleting the `\documentclass ... \begin{document}` spans never lengthens the text and brings in no character. |
| Sanitizer.StripEndDocument | latex.py:135 | Deleting every `\end{document}` never lengthens the text and brings in no character. |
| Sanitizer.EndDocumentRemoved | latex.py:135 | Whatever text comes before the first `\end{document}` is kept, and that marker is removed. |
| Sanitizer.PreambleIsStripped | latex.py:134 | Wherever it stands, for example after a ```` ```latex ```` fence, the first `\documentclass ... \begin{document}` span, up to the first `\begin{document}` after it, disappears entirely. The text before it is kept and the rest is cleaned in turn. |
| Sanitizer.StripFences | latex.py:136 | One left-to-right pass deleting ```` ```latex ```` and ```` ``` ````, the longer alternative first; it brings in no character. |
| Sanitizer.StripFencesUnwraps | latex.py:136 | A block wrapped in a ```` ```latex ```` fence and a closing ```` ``` ```` comes out bare. |
| Sanitizer.StripFencesNoBacktick | latex.py:136 | Text without a backtick has no fence to strip and is unchanged. |
| Sanitizer.TemplatesOfOtherRules | latex.py:139-151 | The replacement templates of the `%`, `&`, `#` and `_` rules insert exactly the escape they show. |
| Sanitizer.TildeTemplateExpandsToTab | latex.py:143-148 | The `~` template's `\t` is expanded by `re.sub` to a TAB, so it does not insert `\textasciitilde{}`. |
| Sanitizer.EscapeUnescaped | latex.py:148 | `re.sub` with a negative lookbehind for a backslash: each `c` not right after a backslash becomes the replacement. Defined without a contract; what it states is in `Sanitizer.EscapeKeepsEscaped`, `Sanitizer.EscapeAlreadyEscaped` and `Sanitizer.EscapeAddsNothing`. |
| Sanitizer.EscapeSpecials | latex.py:139-148 | The loop over the four special characters in insertion order. Defined without a contract; what it states is in `Sanitizer.EscapeSpecialsEscapesAll` and `Sanitizer.EscapeSpecialsIdempotent`. |
| Sanitizer.EscapeSpecialsEscapesAll | latex.py:139-148 | After the loop every `%`, `&`, `#` and `~` stands right after a backslash. |
| Sanitizer.EscapeAlreadyEscaped | latex.py:148 | A character that is already escaped everywhere is not escaped again (no double escape). |
| Sanitizer.EscapeKeepsEscaped | latex.py:146-148 | Escaping one character keeps every other already-escaped character escaped; this is the invariant of the loop. |
| Sanitizer.EscapeSpecialsIdempotent | latex.py:146-148 | Running the escaping loop a second time changes nothing. |
| Sanitizer.EscapeUnderscores | latex.py:151 | The underscore rule with its lookbehind and lookahead. Defined without a contract; what it states is in `Sanitizer.EscapeUnderscoresMakesSafe`, `Sanitizer.EscapeUnderscoresSafeUnchanged` and `Sanitizer.EscapeUnderscoresIdempotent`. |
| Sanitizer.EscapeUnderscoresMakesSafe | latex.py:151 | After the underscore rule every `_` is escaped or followed by a digit or a brace. |
| Sanitizer.EscapeUnderscoresSafeUnchanged | latex.py:151 | Text whose underscores are all escaped or followed by a digit or a brace is unchanged. |
| Sanitizer.EscapeUnderscoresIdempotent | latex.py:151 | Applying the underscore rule twice is the same as applying it once. |
| Sanitizer.SubscriptExamples | latex.py:150-151 | `x_1` and `x_{i}` are left as they are. |
| Sanitizer.UnderscoreExamples | latex.py:151 | `a_b` becomes `a\_b`, and a trailing `_` is escaped. |
| Sanitizer.NormalizeDegrees | latex.py:154-155 | No `°` is left after the degree rewrites. |
| Sanitizer.DegreeSpellingsAgree | latex.py:154-155 | `\degree` and `°` in plain text both come out of the whole cleanup as the same `^{\circ}` text. |
| Sanitizer.DegreeMacroBecomesCircle | latex.py:154 | `\degree` in plain text comes out of the whole cleanup as `^{\circ}`. |
| Sanitizer.DegreeSignBecomesCircle | latex.py:155 | `°` in plain text comes out of the whole cleanup as `^{\circ}`. |
| Sanitizer.RemoveTikz | latex.py:158-159 | Replacing each TikZ picture by the marker brings in no character beyond the text and the marker. |
| Sanitizer.TikzBlockBecomesMarker | latex.py:158-159 | A TikZ picture anywhere in the text, after whatever text precedes the first `\begin{tikzpicture}`, becomes exactly one marker line, however long its body is. The text before it is kept and the rest is cleaned in turn. |
| Sanitizer.PictureBecomesMarker | latex.py:158-159 | A picture alone comes out of the whole cleanup as exactly the marker, with its `%` still bare. |
| Sanitizer.CollapseBlankLines | latex.py:162 | Collapsing blank-line runs brings in no character. |
| Sanitizer.CollapseBlankLinesLeavesNoTriple | latex.py:162 | After the blank-line rule no three line breaks stand in a row. |
| Sanitizer.CollapseBlankLinesNoNewline | latex.py:162 | Text without a line break is unchanged by the blank-line rule. |
| Sanitizer.TrimLineEnds | latex.py:163 | Dropping spaces and tabs before line breaks brings in no character. |
| Sanitizer.TrimLineEndsLeavesNoBlank | latex.py:163 | After the trailing-whitespace rule no space or tab stands right before a line break. |
| Sanitizer.TrimLineEndsNoNewline | latex.py:163 | Text without a line break is unchanged by the trailing-whitespace rule. |
| Sanitizer.CollapseDollarRuns | latex.py:166 | Shortening runs of three or more `$` brings in no character. |
| Sanitizer.CollapseDollarRunsLeavesNoTriple | latex.py:166 | After the dollar rule no three dollar signs stand in a row. |
| Sanitizer.CollapseDollarRunsNoDollar | latex.py:166 | Text without `$` is unchanged by the dollar rule. |
| Sanitizer.RemoveEmptyMath | latex.py:167 | Deleting empty `$$ $$` blocks brings in no character. |
| Sanitizer.RemoveEmptyMathBlock | latex.py:167 | An empty display `$$ ... $$` that holds only whitespace vanishes. |
| Sanitizer.RemoveEmptyMathNoDollar | latex.py:167 | Text without `$` is unchanged by the empty-math rule. |
| Sanitizer.Tidy | latex.py:161-169 | The final clean-ups and strip give text that neither starts nor ends with whitespace and holds only characters of their input. |
| Sanitizer.PlainTextUnchanged | latex.py:128-169 | Plain text without surrounding whitespace comes out of the whole cleanup unchanged. |
| Sanitizer.CommentGetsEscaped | latex.py:139-148 | A comment line of plain text has its `%` escaped, so it becomes visible text. |
| Sanitizer.SanitizeNotIdempotent | latex.py:130-148 | Cleaning the `% Empty content` sentinel again escapes its `%`, so cleaning twice differs from cleaning once. |
| Sanitizer.SanitizeMayBeEmpty | latex.py:130-169 | A lone code fence is not blank, yet it is cleaned down to the empty string. |
| Sanitizer.TildeBetweenPlainText | latex.py:143-148 | Between plain text, a `~` becomes whatever the `~` rule inserts, and the later stages leave it alone. |
| Sanitizer.TildeEscaped | latex.py:143 | With the intended template, `a~b` becomes `a\textasciitilde{}b`. |
| Sanitizer.TildeAsWrittenGivesTab | latex.py:143-148 | As written, `a~b` becomes `a`, a TAB, `extasciitilde{}` and then `b`. |
| Sanitizer.TildeAsWrittenLosesBackslash | latex.py:143-148 | As written, no backslash is left of the `~` macro. |
| Validator.Validate | latex.py:171-188 | Valid exactly when the braces balance, the number of `$` is even and no three backslashes stand in a row. The message names the first failing check in source order, with the signed brace surplus. |
| Validator.MessageNamesTheCheck | latex.py:175-188 | Each message occurs exactly when its check is the one that decided the verdict, so the message identifies the check. |
| Validator.TripleBackslashSearch | latex.py:185 | The substring test finds three backslashes exactly when three stand in a row somewhere. |
| Validator.BraceMessageIsDistinct | latex.py:177-188 | A brace message is never one of the other three messages. |
| Validator.BraceSurplusReadsBack | latex.py:177 | The signed surplus is written into a brace message as `str(k)`: its digits read back as the number, after a `-` exactly when it is negative. |
| Validator.BalancedExample | latex.py:188 | `{a}` is valid with the message `Syntax appears valid`. |
| Validator.OpenBraceExample | latex.py:175-177 | `{a` fails with "1 extra opening braces". |
| Validator.CloseBraceExample | latex.py:175-177 | `a}` fails with "-1 extra opening braces": the sign is kept. |
| Validator.NegativeSurplusMessage | latex.py:177 | A surplus of closing braces is written as a negative count of opening braces. |
| Validator.DollarExample | latex.py:180-182 | `$x` with balanced braces fails with the math-delimiter message. |
| Document.PreambleOpensWithClass | latex.py:196-246 | The preamble opens with a line break followed by the `\documentclass` line. |
| Document.PreambleEndsWithNewPage | latex.py:245-246 | The preamble closes with `\newpage`. |
| Document.PreambleNamesScript | latex.py:224-241 | The script id appears in the page header line and in the title-page line, each at its line's place. |
| Document.HeaderAtFixedOffset | latex.py:196-224 | Everything before the header line is the same for every script id. |
| Document.CompleteDocument | latex.py:193-256 | The preamble for the script id, a blank line, the sections joined by blank lines, a blank line and the end matter. Defined without a contract; what it states is in `Document.DocumentLayout` and the lemmas after it. |
| Document.DocumentLayout | latex.py:249-256 | The document is the preamble, a blank line, the joined sections, a blank line and `\end{document}` on its own line, in that order and nothing else. |
| Document.SectionsInInputOrder | latex.py:249-256 | The `k`-th section given sits intact at its offset in the document, so sections keep their input order. |
| Document.SectionsSeparated | latex.py:249 | A blank line, and nothing else, separates consecutive sections. |
| Document.EmptyDocument | latex.py:249-256 | With no sections, the preamble is followed directly by two blank lines and the end marker. |
| Fetch.SortByPage | latex.py:46 | The sort returns a permutation of the records. |
| Fetch.SortByPageSorted | latex.py:46 | Records come out ordered by page number, with a missing number counting as 0. |
| Fetch.SortByPageStable | latex.py:46 | Records with equal page numbers keep their original order. |
| Fetch.KeptData | latex.py:49-51 | Only present, non-empty image data is kept, and never more values than records. |
| Fetch.KeptDataExact | latex.py:49-55 | Exactly the records with present, non-empty data give a value, one each and in their order: the data of record `i` sits at the position equal to the number of earlier records with data, and there are as many values as such records. |
| Fetch.StripDataPrefix | latex.py:53-54 | A `data:image` value without a comma raises "list index out of range". Any other such value is cut after its first comma, and other values pass unchanged. |
| Fetch.DataUrlRoundTrip | latex.py:53-54 | A data URL whose header has no comma gives back exactly its payload. |
| Fetch.StripAll | latex.py:52-55 | The loop's treatment of the kept values: each stripped in place, or the error of the first data URL without a comma. Defined without a contract; what it states is in `Fetch.StripAllSpec`. |
| Fetch.StripAllSpec | latex.py:49-55 | The loop fails exactly when some kept value is a data URL without a comma; otherwise the `i`-th result is the `i`-th value stripped. |
| Fetch.ShapedImages | latex.py:46-60 | What `fetch_images_from_db` returns for the service's records: sort, keep, strip. Defined without a contract; what it states is in `Fetch.SortByPage`, `Fetch.KeptDataExact` and `Fetch.StripAllSpec`. |
| Fetch.ShapeImages | latex.py:46-55 | The loop over the sorted records returns what `ShapedImages` specifies, stopping early on the first failure. |
| Fetch.StripAllFailsFrom | latex.py:53-55 | Once a prefix of the records fails, the whole list fails with the same error. |
| Fetch.NoRecordsNoImages | latex.py:41-55 | No records give no images. |
| Fetch.OutOfOrderRecords | latex.py:46 | Records arriving as page 2 then page 1 give the images of page 1 then page 2. |
| Fetch.NotDataUrl | latex.py:53 | A value that does not start like a data URL is kept as it is. |
| Pipeline.AnalyzeReply | latex.py:117-126 | A text reply comes back as `str.strip` of it: trimmed, and a slice of the reply with only whitespace around it. An empty reply comes back as `% No content extracted from image N`. A failed call comes back as `% Error processing image N: ` followed by the exception's message. |
| Pipeline.FailureTextIsPlain | latex.py:126 | The failure comment's text after `%` is plain text and ends as the exception's message ends, when that message is plain text. |
| Pipeline.FailureBecomesText | latex.py:124-148 | The string a failed call returns, when the exception's message is plain text, is cleaned by either cleanup to `\%` plus its text, and the page it stands for counts as processed. |
| Pipeline.PlaceholderBecomesText | latex.py:118-148 | The empty-reply placeholder, once cleaned by either cleanup, has its `%` escaped and the rest kept. |
| Pipeline.PlaceholderIsPlain | latex.py:120 | The placeholder's text after `%` has nothing for the sanitizer to act on and ends in a digit. |
| Pipeline.RaisedPage | latex.py:398-402 | A page whose processing raised gives a comment-only section holding its error line, one "Failed to process page" error, and no count. |
| Pipeline.TranscribedPage | latex.py:386-396 | A transcribed page always counts. Its section is its header, the cleaned text, a syntax-warning line when the check failed, and a line break. It has the one "Page i: message" error line exactly when the check failed. |
| Pipeline.ProcessPage | latex.py:381-402 | A page counts exactly when it was transcribed, and is error-free exactly when it was transcribed and its cleaned text passes the check, for any text put for `~`. |
| Pipeline.PagesFromAt | latex.py:378 | Page `k + 1` is the `k`-th image: pages are numbered from 1 by position. |
| Pipeline.OutcomeAt | latex.py:378-402 | The outcome of the `k`-th image is the loop body applied to page `k + 1`. |
| Pipeline.ProcessedPlusRaised | latex.py:396-402 | Every page is either processed or raised, never both. |
| Pipeline.OutcomesAccounted | latex.py:378-402 | Every page either counts as processed or has an error line. |
| Pipeline.ErrorsPerPage | latex.py:393-402 | There is one error line per flagged page, and every raised page is flagged. |
| Pipeline.CleanRun | latex.py:378-402 | When every page transcribes to text that passes the check after the cleanup the loop runs, all pages are processed and there are no errors. |
| Pipeline.CleanPage | latex.py:386-396 | A transcribed page whose cleaned text passes the check gives its header, the cleaned text and a line break, no error line, and a count. |
| Pipeline.OtherPagesClean | latex.py:378-396 | Every page whose transcription passes the check has the section of a clean page at its own position. |
| Pipeline.OnePageRaises | latex.py:378-402 | When exactly one page raises and the others pass the check after the cleanup the loop runs, every other page counts. The only error line names that page, its section is the failure comment, and the other pages keep their sections in place. |
| Pipeline.ProcessOnePage | latex.py:381-402 | One pass of the loop body produces exactly the specified outcome of the page. |
| Pipeline.AppendPage | latex.py:378-402 | One more pass extends the sections, errors and count of the pages before it by the outcome of that page. |
| Pipeline.ProcessPages | latex.py:378-402 | The loop yields one section per image in order, the error lines in page order, and a count equal to the number of images minus the raised pages, for any text put for `~`. |
| Pipeline.FetchedImages | latex.py:369-370 | The image list the loop receives: the shaped records, or the exception the fetch raised. Defined without a contract; `Pipeline.GenerateLatexFromScript` states what each case gives. |
| Pipeline.Conclude | latex.py:404-423 | The content is the sections joined by blank lines, and the document is built around them. The store is called exactly when saving was asked for. The outcome and message follow the save result, and a save exception adds its message to the errors. |
| Pipeline.GenerateLatexFromScript | latex.py:354-429 | A fetch error gives `Error: ...` with that one error. No images give the no-images message and no store call. Otherwise the result carries the joined sections, the document, the processed count and the error lines of the loop run with the `~` template as written, with success as decided by the save. |

## Left out

- The HTTP requests, the OpenAI client, Flask, logging and the time-service lookup are left out. The fetch, the model call and the store are parameters, reduced to what the core reads from them.
- `save_latex_to_django` (latex.py:309-349) is not part of this model. Only its three possible outcomes are modelled.
- The prompts, the image encoding and the request parameters of `analyze_image_latex` are left out. Only the mapping from a model reply to the returned string is modelled (latex.py:117-126).
- Page numbers that are not integers are left out; here a page number is an integer or missing (read as 0). In the source such a key only matters when `sorted` compares it: a single record is never compared; floats and booleans order with integers by value; page numbers that are all strings order as text (`"10"` before `"2"`); and a `null` compared with anything, or a string compared with a number, makes `sorted` raise a `TypeError`, which reaches the top-level handler.
- A JSON answer that is not a list of records is left out, because the record list is given as a sequence.
- The `except` branch of `validate_latex_syntax` (latex.py:190-191) is left out, because nothing in its body can raise on a string.
- Exceptions inside the cleanup, the check or the section formatting of one page are not modelled on their own. They would all land in the same per-page handler (latex.py:398-402). The model lets the transcription oracle raise, which takes that path with the exception's message.
- Document.CompleteDocument: that the document depends only on the sections and the script id is not stated as a lemma. It is a function of exactly those two arguments, and `\today` stays literal text in the preamble.

## Findings

| source | as written | input that shows it | evidently intended | confidence | as-written member | corrected member |
|---|---|---|---|---|---|---|
| latex.py:143-148 | The `~` replacement `r'\textasciitilde{}'` is a `re.sub` template, and `re.sub` expands its `\t` to a TAB. The text inserted is a TAB followed by `extasciitilde{}`. | `a~b` | `a\textasciitilde{}b` | not executed | Sanitizer.SanitizeAsWritten, Sanitizer.TildeAsWrittenGivesTab, Sanitizer.TildeTemplateExpandsToTab | Sanitizer.Sanitize, Sanitizer.TildeEscaped |
