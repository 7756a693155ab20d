/** The complete document around the page sections (latex.py:193-256): a
    fixed preamble with the script id spliced in twice, the sections joined
    by blank lines in the order given, and the closing marker. */
module Document {
  import opened Text

  const DocumentClassLine: string := @"\documentclass[11pt, a4paper]{article}"
  const NewPage: string := @"\newpage"
  const SectionSeparator: string := "\n\n"

  const EndMatter: string := "\n" + @"\end{document}" + "\n"

  /** The preamble is an f-string of 50 lines; line `k` of it is line
      196 + `k` of latex.py. Only its last raw-string piece is stripped, so
      line 0 is the empty line before `\documentclass`. */
  const PreambleLineCount: nat := 50
  /** The page header line, which carries the script id (latex.py:224). */
  const HeaderLine: nat := 28
  /** The title page line, which carries the script id again (latex.py:241). */
  const TitleLine: nat := 45

  function HeaderIdLine(scriptId: string): string {
    @"\fancyhead[L]{Script ID: " + scriptId + "}"
  }

  function TitleIdLine(scriptId: string): string {
    @"    {\large Script ID: " + scriptId + @"}\\[0.5cm]"
  }

  /** The preamble lines that do not depend on the script id. Blank lines,
      and the header and title lines given by `PreambleLine`, fall under
      the last case. */
  function FixedLine(k: nat): string {
    match k
    case 1 => DocumentClassLine
    case 3 => "% Essential packages"
    case 4 => @"\usepackage[utf8]{inputenc}"
    case 5 => @"\usepackage[T1]{fontenc}"
    case 6 => @"\usepackage{amsmath, amsfonts, amssymb}"
    case 7 => @"\usepackage{graphicx}"
    case 8 => @"\usepackage[version=4]{mhchem}"
    case 9 => @"\usepackage{geometry}"
    case 10 => @"\usepackage{fancyhdr}"
    case 11 => @"\usepackage{titlesec}"
    case 12 => @"\usepackage{enumitem}"
    case 13 => @"\usepackage{booktabs}"
    case 14 => @"\usepackage{array}"
    case 15 => @"\usepackage{longtable}"
    case 17 => "% Page setup"
    case 18 => @"\geometry{"
    case 19 => "    a4paper,"
    case 20 => "    margin=1in,"
    case 21 => "    top=1.2in,"
    case 22 => "    bottom=1.2in"
    case 23 => "}"
    case 25 => "% Header and footer"
    case 26 => @"\pagestyle{fancy}"
    case 27 => @"\fancyhf{}"
    case 29 => @"\fancyhead[R]{OCR Generated Report}"
    case 30 => @"\fancyfoot[C]{\thepage}"
    case 32 => "% Title formatting"
    case 33 => @"\titleformat{\section}{\large\bfseries}{\thesection}{1em}{}"
    case 34 => @"\titleformat{\subsection}{\normalsize\bfseries}{\thesubsection}{1em}{}"
    case 36 => "% Custom commands for common elements"
    case 37 => @"\newcommand{\pagemarker}[1]{\vspace{1em}\noindent\textbf{--- Page #1 ---}\vspace{0.5em}}"
    case 39 => @"\begin{document}"
    case 41 => "% Title page"
    case 42 => @"\begin{center}"
    case 43 => @"    \vspace*{2cm}"
    case 44 => @"    {\Large\bfseries OCR Transcription Report}\\[0.5cm]"
    case 46 => @"    {\normalsize Generated on: \today}\\[2cm]"
    case 47 => @"\end{center}"
    case 49 => NewPage
    case _ => ""
  }

  /** Line `k` of the preamble for the script `scriptId`. */
  function PreambleLine(k: nat, scriptId: string): string {
    if k == HeaderLine then HeaderIdLine(scriptId)
    else if k == TitleLine then TitleIdLine(scriptId)
    else FixedLine(k)
  }

  function PreambleLines(scriptId: string): seq<string> {
    seq(PreambleLineCount, k requires 0 <= k => PreambleLine(k, scriptId))
  }

  function Preamble(scriptId: string): string {
    Join(PreambleLines(scriptId), "\n")
  }

  /** The preamble opens with a line break and the document class. */
  lemma PreambleOpensWithClass(scriptId: string)
    ensures var p := Preamble(scriptId);
      1 + |DocumentClassLine| <= |p| && p[..1 + |DocumentClassLine|] == "\n" + DocumentClassLine
  {
    var lines := PreambleLines(scriptId);
    var p := Preamble(scriptId);
    JoinSeparatorAt(lines, "\n", 0);
    JoinElementAt(lines, "\n", 1);
    assert lines[0] == "" && lines[1] == DocumentClassLine;
    assert Offset(lines, "\n", 1) == 1;
    assert p[..1 + |DocumentClassLine|] == p[0..1] + p[1..1 + |DocumentClassLine|];
  }

  /** The preamble closes with `\newpage`, so the sections start on a new page. */
  lemma PreambleEndsWithNewPage(scriptId: string)
    ensures var p := Preamble(scriptId);
      |NewPage| <= |p| && p[|p| - |NewPage|..] == NewPage
  {
    var lines := PreambleLines(scriptId);
    assert lines[PreambleLineCount - 1] == NewPage;
    assert Preamble(scriptId) == Join(lines[..PreambleLineCount - 1], "\n") + "\n" + NewPage;
  }

  /** The script id appears in the page header line and in the title page
      line, each at that line's place in the preamble. */
  lemma PreambleNamesScript(scriptId: string)
    ensures var lines := PreambleLines(scriptId);
      var p := Preamble(scriptId);
      var h := Offset(lines, "\n", HeaderLine);
      var t := Offset(lines, "\n", TitleLine);
      && h + |HeaderIdLine(scriptId)| <= |p| && p[h..h + |HeaderIdLine(scriptId)|] == HeaderIdLine(scriptId)
      && t + |TitleIdLine(scriptId)| <= |p| && p[t..t + |TitleIdLine(scriptId)|] == TitleIdLine(scriptId)
  {
    var lines := PreambleLines(scriptId);
    JoinElementAt(lines, "\n", HeaderLine);
    JoinElementAt(lines, "\n", TitleLine);
  }

  /** Every other line is the same whatever the script id, so the header
      line starts at the same place for every script. */
  lemma HeaderAtFixedOffset(x: string, y: string)
    ensures Offset(PreambleLines(x), "\n", HeaderLine) == Offset(PreambleLines(y), "\n", HeaderLine)
  {
    var xs, ys := PreambleLines(x), PreambleLines(y);
    forall i | 0 <= i < HeaderLine ensures |xs[i]| == |ys[i]| {
      assert xs[i] == FixedLine(i) == ys[i];
    }
    OffsetsAgree(xs, ys, "\n", HeaderLine);
  }

  /** preamble + blank line + sections joined by blank lines + blank line +
      `\end{document}` on its own line. */
  function Assemble(preamble: string, sections: seq<string>): string {
    preamble + SectionSeparator + Join(sections, SectionSeparator) + SectionSeparator + EndMatter
  }

  function CompleteDocument(sections: seq<string>, scriptId: string): string {
    Assemble(Preamble(scriptId), sections)
  }

  /** Where the joined sections start in the document. */
  function BodyAt(scriptId: string): nat {
    |Preamble(scriptId)| + |SectionSeparator|
  }

  /** The document is the preamble, a blank line, the joined sections, a
      blank line and the closing marker, in that order and nothing else. */
  lemma DocumentLayout(sections: seq<string>, scriptId: string)
    ensures var d := CompleteDocument(sections, scriptId);
      var body := Join(sections, SectionSeparator);
      && |d| == BodyAt(scriptId) + |body| + |SectionSeparator| + |EndMatter|
      && d[..|Preamble(scriptId)|] == Preamble(scriptId)
      && d[|Preamble(scriptId)|..BodyAt(scriptId)] == SectionSeparator
      && d[BodyAt(scriptId)..BodyAt(scriptId) + |body|] == body
      && d[|d| - |EndMatter| - |SectionSeparator|..|d| - |EndMatter|] == SectionSeparator
      && d[|d| - |EndMatter|..] == EndMatter
  {
    var p := Preamble(scriptId);
    var body := Join(sections, SectionSeparator);
    SpliceLayout(p, SectionSeparator, body, SectionSeparator, EndMatter);
    SliceInside(p, SectionSeparator, body + SectionSeparator, EndMatter, 0, 0);
  }

  /** Sections are not reordered: the `k`-th one given is the `k`-th one in
      the document, at its offset in the body. */
  lemma SectionsInInputOrder(sections: seq<string>, scriptId: string, k: nat)
    requires k < |sections|
    ensures var d := CompleteDocument(sections, scriptId);
      var at := BodyAt(scriptId) + Offset(sections, SectionSeparator, k);
      at + |sections[k]| <= |d| && d[at..at + |sections[k]|] == sections[k]
  {
    SectionAfter(Preamble(scriptId), sections, k);
  }

  /** A blank line, and nothing else, stands between consecutive sections. */
  lemma SectionsSeparated(sections: seq<string>, scriptId: string, k: nat)
    requires k + 1 < |sections|
    ensures var d := CompleteDocument(sections, scriptId);
      var end := BodyAt(scriptId) + Offset(sections, SectionSeparator, k) + |sections[k]|;
      end + |SectionSeparator| <= |d| && d[end..end + |SectionSeparator|] == SectionSeparator
      && end + |SectionSeparator| == BodyAt(scriptId) + Offset(sections, SectionSeparator, k + 1)
  {
    SectionAfter(Preamble(scriptId), sections, k);
  }

  /** The same placement with the preamble left symbolic. */
  lemma SectionAfter(p: string, sections: seq<string>, k: nat)
    requires k < |sections|
    ensures var d := Assemble(p, sections);
      var at := |p| + |SectionSeparator| + Offset(sections, SectionSeparator, k);
      && at + |sections[k]| <= |d|
      && d[at..at + |sections[k]|] == sections[k]
      && (k + 1 < |sections| ==>
            at + |sections[k]| + |SectionSeparator| <= |d| &&
            d[at + |sections[k]|..at + |sections[k]| + |SectionSeparator|] == SectionSeparator)
  {
    var d := p + SectionSeparator + Join(sections, SectionSeparator) + SectionSeparator + EndMatter;
    var at := |p| + |SectionSeparator| + Offset(sections, SectionSeparator, k);
    var n := |sections[k]|;
    JoinedElementInside(p + SectionSeparator, sections, SectionSeparator, SectionSeparator, EndMatter, k);
    assert at == |p + SectionSeparator| + Offset(sections, SectionSeparator, k);
    if k + 1 < |sections| {
      var sep := SectionSeparator;
      assert d[at + n..at + n + |sep|] == sep;
    }
  }

  /** With no sections the body is empty and two blank lines meet. */
  lemma EmptyDocument(scriptId: string)
    ensures CompleteDocument([], scriptId) == Preamble(scriptId) + "\n\n\n\n" + EndMatter
  {
  }
}
