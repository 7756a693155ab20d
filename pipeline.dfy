/** The page loop and result record of `generate_latex_from_script`
    (latex.py:354-429). The vision model, the image service and the store are
    passed in as plain values and functions. */
module Pipeline {
  import opened Wrappers
  import opened Text
  import opened Sanitizer
  import opened Validator
  import opened Document
  import opened Fetch

  /** What the vision model answered for one image (latex.py:113-126). */
  datatype ApiReply = Content(text: string) | NoContent | ApiFailure(error: string)

  /** What transcribing one page produced: text, or an exception with its
      message. */
  datatype Transcription = Transcribed(text: string) | Raised(error: string)

  /** What saving to the store produced (latex.py:342-349): success, a refusal
      with its message, or an exception the save helper does not catch. */
  datatype SaveOutcome = Saved | Rejected(message: string) | SaveRaised(error: string)

  /** The `result` dictionary. */
  datatype RunResult = RunResult(
    success: bool,
    scriptId: string,
    message: string,
    latexContent: string,
    completeDocument: string,
    pagesProcessed: nat,
    errors: seq<string>)

  /** What one page contributes: its section, its error line if any, and
      whether it counts as processed. */
  datatype PageOutcome = PageOutcome(section: string, error: Option<string>, counted: bool)

  const NoImagesMessage: string := "No images found for the given script_id"

  /** The string `analyze_image_latex` returns for a reply. */
  function AnalyzeReply(reply: ApiReply, imageNumber: nat): (r: string)
    ensures reply.Content? ==> Trimmed(r)
    ensures reply.Content? ==> r == Strip(reply.text)
    ensures reply.NoContent? ==> r == "%" + PlaceholderText(imageNumber)
    ensures reply.ApiFailure? ==> r == "%" + FailureText(imageNumber, reply.error)
    ensures !reply.Content? ==> |r| >= 2 && r[..2] == "% "
  {
    match reply
    case Content(text) => Strip(text)
    case NoContent => "%" + PlaceholderText(imageNumber)
    case ApiFailure(e) => "%" + FailureText(imageNumber, e)
  }

  /** What follows `%` in the string returned when the model call raised. */
  function FailureText(imageNumber: nat, e: string): (r: string)
    ensures r != [] && r[0] == ' '
  {
    " Error processing image " + NatToString(imageNumber) + ": " + e
  }

  /** What follows `%` in the placeholder for an empty reply. */
  function PlaceholderText(imageNumber: nat): (r: string)
    ensures r != [] && r[0] == ' '
  {
    " No content extracted from image " + NatToString(imageNumber)
  }

  /** The placeholder's text after `%` is plain text ending in a digit. */
  lemma PlaceholderIsPlain(imageNumber: nat)
    ensures var x := PlaceholderText(imageNumber);
      PlainText(x) && !IsSpace(x[|x| - 1])
  {
    var m1, m2 := " No content", " extracted from image ";
    var m := m1 + m2;
    var d := NatToString(imageNumber);
    assert PlainText(m1);
    assert PlainText(m2);
    PlainConcat(m1, m2);
    assert PlainText(d);
    PlainConcat(m, d);
    assert (m + d)[|m + d| - 1] == d[|d| - 1];
  }

  /** The placeholder for an empty reply is meant as a comment, but the
      sanitizer escapes its `%`, so it shows up as text in the document. */
  lemma PlaceholderBecomesText(imageNumber: nat)
    ensures Sanitize(AnalyzeReply(NoContent, imageNumber)) == PercentEscape + PlaceholderText(imageNumber)
    ensures SanitizeAsWritten(AnalyzeReply(NoContent, imageNumber)) == PercentEscape + PlaceholderText(imageNumber)
  {
    var x := PlaceholderText(imageNumber);
    PlaceholderIsPlain(imageNumber);
    CommentGetsEscaped(x);
    assert '~' !in ['%'] + x by {
      forall k | 0 <= k < |x| ensures x[k] != '~' {
        assert IsPlainChar(x[k]);
      }
    }
    AsWrittenAgreesWithoutTilde(['%'] + x);
  }

  /** The failure text after `%` is plain text ending where the message
      ends, when the message is plain text. */
  lemma FailureTextIsPlain(imageNumber: nat, e: string)
    requires PlainText(e) && e != []
    ensures var x := FailureText(imageNumber, e);
      PlainText(x) && x[|x| - 1] == e[|e| - 1]
  {
    var m1, m2 := " Error processing image ", ": ";
    var d := NatToString(imageNumber);
    assert PlainText(m1);
    assert PlainText(m2);
    assert PlainText(d);
    PlainConcat(m1, d);
    PlainConcat(m1 + d, m2);
    PlainConcat(m1 + d + m2, e);
  }

  /** A failed model call is caught and returned as a comment, which the
      loop takes as the page's text: when the exception's message is plain
      text, the cleanup escapes the `%`, the message shows up as text in the
      document, and the page counts as processed. */
  lemma FailureBecomesText(pageNumber: nat, imageNumber: nat, e: string, tildeRep: string)
    requires PlainText(e) && e != [] && !IsSpace(e[|e| - 1])
    ensures Sanitize(AnalyzeReply(ApiFailure(e), imageNumber)) == PercentEscape + FailureText(imageNumber, e)
    ensures SanitizeAsWritten(AnalyzeReply(ApiFailure(e), imageNumber)) == PercentEscape + FailureText(imageNumber, e)
    ensures ProcessPage(pageNumber, Transcribed(AnalyzeReply(ApiFailure(e), imageNumber)), tildeRep).counted
  {
    var x := FailureText(imageNumber, e);
    FailureTextIsPlain(imageNumber, e);
    CommentGetsEscaped(x);
    assert '~' !in ['%'] + x by {
      forall k | 0 <= k < |x| ensures x[k] != '~' {
        assert IsPlainChar(x[k]);
      }
    }
    AsWrittenAgreesWithoutTilde(['%'] + x);
  }

  /** The line appended to a page that fails the syntax check. */
  function SyntaxWarning(message: string): string {
    "\n% Syntax warning: " + message
  }

  function PageHeader(i: nat): string {
    "% ===== Page " + NatToString(i) + " =====\n"
  }

  /** A page whose transcription raised: a comment-only section and one
      error line, and the page is not counted (latex.py:398-402). */
  function RaisedPage(i: nat, e: string): (o: PageOutcome)
    ensures !o.counted && o.error.Some?
    ensures o.section == "% " + o.error.value + "\n"
    ensures |"Failed to process page "| <= |o.error.value| &&
      o.error.value[..|"Failed to process page "|] == "Failed to process page "
  {
    var msg := FailureMessage(i, e);
    assert msg == "Failed to process page " + (NatToString(i) + ": " + e);
    PageOutcome("% " + msg + "\n", Some(msg), false)
  }

  /** The error line for page `i` whose transcription raised `e`. */
  function FailureMessage(i: nat, e: string): string {
    "Failed to process page " + NatToString(i) + ": " + e
  }

  /** A page that was transcribed and cleaned to `cleaned`: the header, the
      text, a warning line when the check failed, and a final line break; it
      counts as processed either way (latex.py:388-396). */
  function TranscribedPage(i: nat, cleaned: string, v: Verdict): (o: PageOutcome)
    ensures o.counted
    ensures o.error.None? <==> v.valid
    ensures var h := PageHeader(i);
      && |h| + |cleaned| < |o.section|
      && o.section[..|h|] == h
      && o.section[|h|..|h| + |cleaned|] == cleaned
      && o.section[|o.section| - 1] == '\n'
    ensures v.valid ==> o.section == PageHeader(i) + cleaned + "\n"
    ensures !v.valid ==> o.section == PageHeader(i) + cleaned + SyntaxWarning(v.message) + "\n"
    ensures !v.valid ==> o.error.value == "Page " + NatToString(i) + ": " + v.message
  {
    var warning := if v.valid then [] else SyntaxWarning(v.message);
    var h := PageHeader(i);
    MiddleSlice(h, cleaned, warning, "\n");
    assert v.valid ==> cleaned + warning == cleaned;
    PageOutcome(h + (cleaned + warning) + "\n",
      if v.valid then None else Some("Page " + NatToString(i) + ": " + v.message), true)
  }

  /** The body of the loop for page `i` (latex.py:382-402). `tildeRep` is
      the text the cleanup puts for `~`: the program runs it with
      `TildeAsWritten()`. A page counts as processed exactly when it was
      transcribed, and has an error line exactly when it raised or its
      cleaned text failed the syntax check. */
  function ProcessPage(i: nat, t: Transcription, tildeRep: string): (o: PageOutcome)
    ensures o.counted <==> t.Transcribed?
    ensures o.error.None? <==> t.Transcribed? && Validate(SanitizeWith(t.text, tildeRep)).valid
  {
    match t
    case Raised(e) => RaisedPage(i, e)
    case Transcribed(raw) => TranscribedPage(i, SanitizeWith(raw, tildeRep), Validate(SanitizeWith(raw, tildeRep)))
  }

  /** `ProcessPage` for a fixed `~` text, as the loop applies it. */
  function PageOf(tildeRep: string): (nat, Transcription) -> PageOutcome {
    (i: nat, t: Transcription) => ProcessPage(i, t, tildeRep)
  }

  /** The outcomes of `page` on the images in turn: page `k + 1` is the
      `k`-th image, so pages are numbered by position. */
  function PagesFrom(
    images: seq<string>, analyze: (string, nat) -> Transcription, page: (nat, Transcription) -> PageOutcome)
    : (os: seq<PageOutcome>)
    ensures |os| == |images|
    decreases |images|
  {
    if images == [] then []
    else
      var n := |images|;
      PagesFrom(images[..n - 1], analyze, page) + [page(n, analyze(images[n - 1], n))]
  }

  lemma {:induction false} PagesFromAt(
    images: seq<string>, analyze: (string, nat) -> Transcription, page: (nat, Transcription) -> PageOutcome, k: nat)
    requires k < |images|
    ensures PagesFrom(images, analyze, page)[k] == page(k + 1, analyze(images[k], k + 1))
    decreases |images|
  {
    var n := |images|;
    if k < n - 1 {
      PagesFromAt(images[..n - 1], analyze, page, k);
      assert images[..n - 1][k] == images[k];
    }
  }

  /** What the loop makes of the images. */
  function Outcomes(images: seq<string>, analyze: (string, nat) -> Transcription, tildeRep: string)
    : (os: seq<PageOutcome>)
    ensures |os| == |images|
  {
    PagesFrom(images, analyze, PageOf(tildeRep))
  }

  lemma OutcomeAt(images: seq<string>, analyze: (string, nat) -> Transcription, tildeRep: string, k: nat)
    requires k < |images|
    ensures Outcomes(images, analyze, tildeRep)[k] == ProcessPage(k + 1, analyze(images[k], k + 1), tildeRep)
  {
    PagesFromAt(images, analyze, PageOf(tildeRep), k);
  }

  function Sections(os: seq<PageOutcome>): (r: seq<string>)
    ensures |r| == |os|
    ensures forall k :: 0 <= k < |os| ==> r[k] == os[k].section
  {
    seq(|os|, k requires 0 <= k < |os| => os[k].section)
  }

  /** The error lines, in page order. */
  function Errors(os: seq<PageOutcome>): seq<string>
    decreases |os|
  {
    if os == [] then []
    else
      var last := os[|os| - 1];
      Errors(os[..|os| - 1]) + (if last.error.Some? then [last.error.value] else [])
  }

  function Processed(os: seq<PageOutcome>): nat
    decreases |os|
  {
    if os == [] then 0 else Processed(os[..|os| - 1]) + (if os[|os| - 1].counted then 1 else 0)
  }

  /** The pages whose transcription raised. */
  function RaisedPages(os: seq<PageOutcome>): nat
    decreases |os|
  {
    if os == [] then 0 else RaisedPages(os[..|os| - 1]) + (if os[|os| - 1].counted then 0 else 1)
  }

  /** The pages with an error line. */
  function FlaggedPages(os: seq<PageOutcome>): nat
    decreases |os|
  {
    if os == [] then 0 else FlaggedPages(os[..|os| - 1]) + (if os[|os| - 1].error.Some? then 1 else 0)
  }

  /** Every page is either processed or raised, never both. */
  lemma {:induction false} ProcessedPlusRaised(os: seq<PageOutcome>)
    ensures Processed(os) + RaisedPages(os) == |os|
    decreases |os|
  {
    if os != [] {
      ProcessedPlusRaised(os[..|os| - 1]);
    }
  }

  /** Every page either counts as processed or has an error line. */
  predicate Accounted(os: seq<PageOutcome>) {
    forall k :: 0 <= k < |os| ==> os[k].counted || os[k].error.Some?
  }

  lemma OutcomesAccounted(images: seq<string>, analyze: (string, nat) -> Transcription, tildeRep: string)
    ensures Accounted(Outcomes(images, analyze, tildeRep))
  {
    var os := Outcomes(images, analyze, tildeRep);
    forall k | 0 <= k < |os| ensures os[k].counted || os[k].error.Some? {
      OutcomeAt(images, analyze, tildeRep, k);
    }
  }

  /** One error line per flagged page, and every raised page is flagged. */
  lemma {:induction false} ErrorsPerPage(os: seq<PageOutcome>)
    requires Accounted(os)
    ensures |Errors(os)| == FlaggedPages(os)
    ensures RaisedPages(os) <= FlaggedPages(os)
    decreases |os|
  {
    if os != [] {
      ErrorsPerPage(os[..|os| - 1]);
    }
  }

  /** Pages without an error line that all count give no errors and a full
      count. */
  lemma {:induction false} CleanPages(os: seq<PageOutcome>)
    requires forall k :: 0 <= k < |os| ==> os[k].counted && os[k].error.None?
    ensures Errors(os) == []
    ensures Processed(os) == |os|
    decreases |os|
  {
    if os != [] {
      CleanPages(os[..|os| - 1]);
    }
  }

  /** When every page transcribes to text that passes the check, all pages
      are processed and no error is reported. */
  lemma CleanRun(images: seq<string>, analyze: (string, nat) -> Transcription, tildeRep: string)
    requires forall k :: 0 <= k < |images| ==>
      analyze(images[k], k + 1).Transcribed? && Validate(SanitizeWith(analyze(images[k], k + 1).text, tildeRep)).valid
    ensures Errors(Outcomes(images, analyze, tildeRep)) == []
    ensures Processed(Outcomes(images, analyze, tildeRep)) == |images|
  {
    var os := Outcomes(images, analyze, tildeRep);
    forall k | 0 <= k < |os| ensures os[k].counted && os[k].error.None? {
      OutcomeAt(images, analyze, tildeRep, k);
    }
    CleanPages(os);
  }

  /** A transcribed page that passes the check: header, text, line break,
      no error line, counted. */
  lemma CleanPage(i: nat, t: Transcription, tildeRep: string)
    requires t.Transcribed? && Validate(SanitizeWith(t.text, tildeRep)).valid
    ensures ProcessPage(i, t, tildeRep) == PageOutcome(PageHeader(i) + SanitizeWith(t.text, tildeRep) + "\n", None, true)
  {
  }

  /** The bookkeeping of the first `i` pages when page `j` alone failed. */
  lemma {:induction false} OneRaisedPrefix(os: seq<PageOutcome>, j: nat, i: nat)
    requires j < |os| && i <= |os|
    requires forall k :: 0 <= k < |os| && k != j ==> os[k].counted && os[k].error.None?
    requires !os[j].counted && os[j].error.Some?
    ensures Processed(os[..i]) == (if i > j then i - 1 else i)
    ensures Errors(os[..i]) == (if i > j then [os[j].error.value] else [])
  {
    if i == 0 {
      assert os[..0] == [];
    } else {
      OneRaisedPrefix(os, j, i - 1);
      PageStep(os, i - 1);
    }
  }

  /** Every page other than `j + 1` has the outcome of a clean page. */
  lemma OtherPagesClean(images: seq<string>, analyze: (string, nat) -> Transcription, tildeRep: string, j: nat)
    requires forall k :: 0 <= k < |images| && k != j ==>
      analyze(images[k], k + 1).Transcribed? && Validate(SanitizeWith(analyze(images[k], k + 1).text, tildeRep)).valid
    ensures forall k :: 0 <= k < |images| && k != j ==>
      Outcomes(images, analyze, tildeRep)[k] ==
        PageOutcome(PageHeader(k + 1) + SanitizeWith(analyze(images[k], k + 1).text, tildeRep) + "\n", None, true)
  {
    forall k | 0 <= k < |images| && k != j
      ensures Outcomes(images, analyze, tildeRep)[k] ==
        PageOutcome(PageHeader(k + 1) + SanitizeWith(analyze(images[k], k + 1).text, tildeRep) + "\n", None, true)
    {
      OutcomeAt(images, analyze, tildeRep, k);
      CleanPage(k + 1, analyze(images[k], k + 1), tildeRep);
    }
  }

  /** A run where the transcription of page `j + 1` raised and every other
      page came back and passed the check: every page but that one counts,
      the single error line names that page, its section is the failure
      comment, and every other page keeps its cleaned text at its place. */
  lemma OnePageRaises(
    images: seq<string>, analyze: (string, nat) -> Transcription, tildeRep: string, j: nat, e: string)
    requires j < |images|
    requires analyze(images[j], j + 1) == Raised(e)
    requires forall k :: 0 <= k < |images| && k != j ==>
      analyze(images[k], k + 1).Transcribed? && Validate(SanitizeWith(analyze(images[k], k + 1).text, tildeRep)).valid
    ensures var os := Outcomes(images, analyze, tildeRep);
      && Processed(os) == |images| - 1
      && Errors(os) == [FailureMessage(j + 1, e)]
      && Sections(os)[j] == "% " + FailureMessage(j + 1, e) + "\n"
      && forall k :: 0 <= k < |images| && k != j ==>
           Sections(os)[k] == PageHeader(k + 1) + SanitizeWith(analyze(images[k], k + 1).text, tildeRep) + "\n"
  {
    var os := Outcomes(images, analyze, tildeRep);
    OtherPagesClean(images, analyze, tildeRep, j);
    OutcomeAt(images, analyze, tildeRep, j);
    assert os[j] == RaisedPage(j + 1, e);
    OneRaisedPrefix(os, j, |os|);
    assert os[..|os|] == os;
  }

  /** One more page appends its section, its error line and its count. */
  lemma PageStep(os: seq<PageOutcome>, i: nat)
    requires i < |os|
    ensures Sections(os[..i + 1]) == Sections(os[..i]) + [os[i].section]
    ensures Errors(os[..i + 1]) == Errors(os[..i]) + (if os[i].error.Some? then [os[i].error.value] else [])
    ensures Processed(os[..i + 1]) == Processed(os[..i]) + (if os[i].counted then 1 else 0)
  {
    assert os[..i + 1][..i] == os[..i];
  }

  /** One pass of the loop body: transcribe, clean, check, annotate. */
  method ProcessOnePage(pageNumber: nat, t: Transcription, tildeRep: string)
    returns (section: string, error: Option<string>, counted: bool)
    ensures PageOutcome(section, error, counted) == ProcessPage(pageNumber, t, tildeRep)
  {
    match t {
      case Transcribed(raw) =>
        var cleaned := SanitizeWith(raw, tildeRep);
        var v := Validate(cleaned);
        error := None;
        if !v.valid {
          cleaned := cleaned + SyntaxWarning(v.message);
          error := Some("Page " + NatToString(pageNumber) + ": " + v.message);
        }
        section := PageHeader(pageNumber) + cleaned + "\n";
        counted := true;
      case Raised(e) =>
        var errorMessage := "Failed to process page " + NatToString(pageNumber) + ": " + e;
        section := "% " + errorMessage + "\n";
        error := Some(errorMessage);
        counted := false;
    }
  }

  /** One pass of the loop for the image at index `i`: its section, error
      line and count are added to what the earlier pages gave. */
  method AppendPage(
    images: seq<string>, analyze: (string, nat) -> Transcription, tildeRep: string, i: nat,
    sections: seq<string>, errors: seq<string>, processed: nat)
    returns (sections': seq<string>, errors': seq<string>, processed': nat)
    requires i < |images|
    requires var os := Outcomes(images, analyze, tildeRep);
      sections == Sections(os[..i]) && errors == Errors(os[..i]) && processed == Processed(os[..i])
    ensures var os := Outcomes(images, analyze, tildeRep);
      sections' == Sections(os[..i + 1]) && errors' == Errors(os[..i + 1]) && processed' == Processed(os[..i + 1])
  {
    ghost var os := Outcomes(images, analyze, tildeRep);
    var section, error, counted := ProcessOnePage(i + 1, analyze(images[i], i + 1), tildeRep);
    OutcomeAt(images, analyze, tildeRep, i);
    PageStep(os, i);
    sections' := sections + [section];
    errors' := errors;
    if error.Some? {
      errors' := errors + [error.value];
    }
    processed' := processed;
    if counted {
      processed' := processed + 1;
    }
  }

  /** The loop of latex.py:378-402: one section per image in order, the error
      lines in page order, and the count of pages that did not raise. */
  method ProcessPages(images: seq<string>, analyze: (string, nat) -> Transcription, tildeRep: string)
    returns (sections: seq<string>, errors: seq<string>, processed: nat)
    ensures var os := Outcomes(images, analyze, tildeRep);
      sections == Sections(os) && errors == Errors(os) && processed == Processed(os)
    ensures |sections| == |images|
    ensures processed + RaisedPages(Outcomes(images, analyze, tildeRep)) == |images|
  {
    ghost var os := Outcomes(images, analyze, tildeRep);
    sections := [];
    errors := [];
    processed := 0;
    var i := 0;
    while i < |images|
      invariant 0 <= i <= |images|
      invariant sections == Sections(os[..i])
      invariant errors == Errors(os[..i])
      invariant processed == Processed(os[..i])
    {
      sections, errors, processed := AppendPage(images, analyze, tildeRep, i, sections, errors, processed);
      i := i + 1;
    }
    assert os[..i] == os;
    ProcessedPlusRaised(os);
  }

  /** The image list `fetch_images_from_db` hands over, or the message of the
      exception it raised. */
  function FetchedImages(fetched: Result<seq<ImageRecord>, string>): Result<seq<string>, string> {
    if fetched.Err? then Err(fetched.error) else ShapedImages(fetched.value)
  }

  function SavedMessage(scriptId: string): string {
    "LaTeX generated and saved successfully for script_id " + scriptId
  }

  function NotSavedMessage(reason: string): string {
    "LaTeX generated but failed to save: " + reason
  }

  function GeneratedMessage(scriptId: string): string {
    "LaTeX generated successfully for script_id " + scriptId
  }

  /** The end of a run with at least one page (latex.py:404-423): join the
      sections, build the document, and save when asked to. */
  method Conclude(
    scriptId: string,
    saveToStore: bool,
    sections: seq<string>,
    errors: seq<string>,
    processed: nat,
    save: (string, string, string) -> SaveOutcome)
    returns (result: RunResult, saveCalled: bool)
    ensures var content := Join(sections, SectionSeparator);
      var document := CompleteDocument(sections, scriptId);
      var outcome := save(scriptId, content, document);
      && saveCalled == saveToStore
      && result.scriptId == scriptId
      && result.latexContent == content
      && result.completeDocument == document
      && result.pagesProcessed == processed
      && (result.success <==> !saveToStore || outcome.Saved?)
      && (!saveToStore ==> result.message == GeneratedMessage(scriptId) && result.errors == errors)
      && (saveToStore && outcome.Saved? ==> result.message == SavedMessage(scriptId) && result.errors == errors)
      && (saveToStore && outcome.Rejected? ==>
            result.message == NotSavedMessage(outcome.message) && result.errors == errors)
      && (saveToStore && outcome.SaveRaised? ==>
            result.message == "Error: " + outcome.error && result.errors == errors + [outcome.error])
  {
    var content := Join(sections, SectionSeparator);
    var document := CompleteDocument(sections, scriptId);
    result := RunResult(false, scriptId, "", content, document, processed, errors);
    saveCalled := false;
    if saveToStore {
      saveCalled := true;
      var outcome := save(scriptId, content, document);
      match outcome {
        case Saved =>
          result := result.(success := true, message := SavedMessage(scriptId));
        case Rejected(reason) =>
          result := result.(message := NotSavedMessage(reason));
        case SaveRaised(e) =>
          result := result.(message := "Error: " + e, errors := errors + [e]);
      }
    } else {
      result := result.(success := true, message := GeneratedMessage(scriptId));
    }
  }

  /** `generate_latex_from_script`: fetch, the page loop, the document, and
      the save when asked for. `saveCalled` tells whether the store was
      called. */
  method GenerateLatexFromScript(
    scriptId: string,
    saveToStore: bool,
    fetched: Result<seq<ImageRecord>, string>,
    analyze: (string, nat) -> Transcription,
    save: (string, string, string) -> SaveOutcome)
    returns (result: RunResult, saveCalled: bool)
    ensures result.scriptId == scriptId
    ensures FetchedImages(fetched).Err? ==>
      var e := FetchedImages(fetched).error;
      result == RunResult(false, scriptId, "Error: " + e, "", "", 0, [e]) && !saveCalled
    ensures FetchedImages(fetched) == Ok([]) ==>
      result == RunResult(false, scriptId, NoImagesMessage, "", "", 0, []) && !saveCalled
    ensures FetchedImages(fetched).Ok? && FetchedImages(fetched).value != [] ==>
      var os := Outcomes(FetchedImages(fetched).value, analyze, TildeAsWritten());
      var sections := Sections(os);
      var content := Join(sections, SectionSeparator);
      var document := CompleteDocument(sections, scriptId);
      var outcome := save(scriptId, content, document);
      && saveCalled == saveToStore
      && result.latexContent == content
      && result.completeDocument == document
      && result.pagesProcessed == Processed(os)
      && (result.success <==> !saveToStore || outcome.Saved?)
      && (!saveToStore ==> result.message == GeneratedMessage(scriptId) && result.errors == Errors(os))
      && (saveToStore && outcome.Saved? ==>
            result.message == SavedMessage(scriptId) && result.errors == Errors(os))
      && (saveToStore && outcome.Rejected? ==>
            result.message == NotSavedMessage(outcome.message) && result.errors == Errors(os))
      && (saveToStore && outcome.SaveRaised? ==>
            result.message == "Error: " + outcome.error && result.errors == Errors(os) + [outcome.error])
  {
    result := RunResult(false, scriptId, "", "", "", 0, []);
    saveCalled := false;
    if fetched.Err? {
      result := result.(message := "Error: " + fetched.error, errors := [fetched.error]);
      return;
    }
    var shaped := ShapeImages(fetched.value);
    if shaped.Err? {
      result := result.(message := "Error: " + shaped.error, errors := [shaped.error]);
      return;
    }
    var images := shaped.value;
    if images == [] {
      result := result.(message := NoImagesMessage);
      return;
    }
    var sections, errors, processed := ProcessPages(images, analyze, TildeAsWritten());
    result, saveCalled := Conclude(scriptId, saveToStore, sections, errors, processed, save);
  }
}
