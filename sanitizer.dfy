/** `sanitize_latex` (latex.py:128-169): the fixed chain of rewrites applied to
    the text the vision model returns for one page. Every rewrite is its own
    function; `Sanitize` composes them in the order of the source. */
module Sanitizer {
  import opened Text

  const EmptySentinel: string := "% Empty content"

  const DocumentClass: string := @"\documentclass"
  const BeginDocument: string := @"\begin{document}"
  const EndDocument: string := @"\end{document}"
  const LatexFence: string := "```latex"
  const Fence: string := "```"

  const PercentEscape: string := @"\%"
  const AmpersandEscape: string := @"\&"
  const HashEscape: string := @"\#"
  /** The name of the `~` macro after its first letter. */
  const TildeWord: string := "extasciitilde{}"
  /** What the `~` rule is meant to insert: `\textasciitilde{}`. */
  const TildeEscape: string := @"\t" + TildeWord
  /** The replacement template the `~` rule hands to `re.sub`, as written:
      the same text. */
  const TildeTemplate: string := @"\t" + TildeWord
  const UnderscoreEscape: string := @"\_"
  const UnderscoreTemplate: string := @"\\_"

  const DegreeMacro: string := @"\degree"
  const DegreeSign: char := '\U{B0}'
  const Circle: string := @"^{\circ}"

  const TikzBegin: string := @"\begin{tikzpicture}"
  const TikzEnd: string := @"\end{tikzpicture}"
  const TikzMarker: string := "% DIAGRAM: TikZ picture removed"

  // ---------------------------------------------------------------------------
  // Document structure and code fences (latex.py:134-136)
  // ---------------------------------------------------------------------------

  /** Deletes every shortest `\documentclass ... \begin{document}` span. */
  function StripPreamble(s: string): (r: string)
    ensures |r| <= |s|
    ensures forall c :: c in r ==> c in s
  {
    ReplaceSpansShrinks(s, DocumentClass, BeginDocument);
    ReplaceSpans(s, DocumentClass, BeginDocument, "")
  }

  /** Deletes every `\end{document}`. */
  function StripEndDocument(s: string): (r: string)
    ensures |r| <= |s|
    ensures forall c :: c in r ==> c in s
  {
    ReplaceAllShrinks(s, EndDocument);
    ReplaceAll(s, EndDocument, "")
  }

  /** Text before the first `\end{document}` is kept and the marker itself
      goes. */
  lemma EndDocumentRemoved(x: string, rest: string)
    requires forall j :: 0 <= j < |x| ==> !OccursAt(x + EndDocument + rest, EndDocument, j)
    ensures StripEndDocument(x + EndDocument + rest) == x + StripEndDocument(rest)
  {
    var s := x + EndDocument + rest;
    assert s == x + (EndDocument + rest);
    ReplaceAllSkip(x, EndDocument + rest, EndDocument, "");
    var t := EndDocument + rest;
    assert t[..|EndDocument|] == EndDocument && t[|EndDocument|..] == rest;
    assert ReplaceAll(t, EndDocument, "") == "" + ReplaceAll(rest, EndDocument, "");
  }

  /** `re.sub(r"```latex|```", "", s)`: ONE left-to-right pass in which the
      first alternative wins, so "````latex" keeps "`latex", which two
      separate passes would not. */
  function StripFences(s: string): (r: string)
    ensures forall c :: c in r ==> c in s
    decreases |s|
  {
    if s == [] then []
    else if OccursAt(s, LatexFence, 0) then StripFences(s[|LatexFence|..])
    else if OccursAt(s, Fence, 0) then StripFences(s[|Fence|..])
    else [s[0]] + StripFences(s[1..])
  }

  lemma ReplaceSpansShrinks(s: string, open: string, close: string)
    requires open != []
    ensures |ReplaceSpans(s, open, close, "")| <= |s|
    decreases |s|
  {
    if s != [] {
      if OccursAt(s, open, 0) && IndexOf(s[|open|..], close).Some? {
        var k := IndexOf(s[|open|..], close).value;
        ReplaceSpansShrinks(s[|open| + k + |close|..], open, close);
      } else {
        ReplaceSpansShrinks(s[1..], open, close);
      }
    }
  }

  /** Text without a backtick has no fence to strip. */
  lemma {:induction false} StripFencesNoBacktick(s: string)
    requires '`' !in s
    ensures StripFences(s) == s
    decreases |s|
  {
    if s != [] {
      assert !OccursAt(s, LatexFence, 0) && !OccursAt(s, Fence, 0) by {
        if |s| >= 3 { assert s[0..3][0] == s[0]; }
      }
      StripFencesNoBacktick(s[1..]);
    }
  }

  /** A block wrapped in a ```latex fence and a closing ``` fence comes out
      bare. */
  lemma StripFencesUnwraps(body: string)
    requires '`' !in body
    ensures StripFences(LatexFence + body + Fence) == body
  {
    var s := LatexFence + body + Fence;
    assert s[..|LatexFence|] == LatexFence;
    assert s[|LatexFence|..] == body + Fence;
    StripFencesOpenBody(body, Fence);
  }

  lemma {:induction false} StripFencesOpenBody(body: string, tail: string)
    requires '`' !in body
    requires tail == Fence
    ensures StripFences(body + tail) == body
    decreases |body|
  {
    if body == [] {
      assert (body + tail)[..|Fence|] == Fence;
      assert (body + tail)[|Fence|..] == [];
    } else {
      var s := body + tail;
      assert s[0] == body[0];
      assert !OccursAt(s, LatexFence, 0) && !OccursAt(s, Fence, 0) by {
        assert s[0..3][0] == body[0];
      }
      assert s[1..] == body[1..] + tail;
      StripFencesOpenBody(body[1..], tail);
    }
  }

  // ---------------------------------------------------------------------------
  // Replacement templates (how `re.sub` reads its second argument)
  // ---------------------------------------------------------------------------

  /** The escapes `re.sub` expands in a replacement template. */
  predicate IsControlEscape(c: char) {
    c == 'a' || c == 'b' || c == 'f' || c == 'n' || c == 'r' || c == 't' || c == 'v' || c == '\\'
  }

  function ControlChar(c: char): char
    requires IsControlEscape(c)
  {
    match c
    case 'a' => '\U{7}'
    case 'b' => '\U{8}'
    case 'f' => '\U{C}'
    case 'n' => '\n'
    case 'r' => '\r'
    case 't' => '\t'
    case 'v' => '\U{B}'
    case _ => '\\'
  }

  predicate IsAsciiAlnum(c: char) {
    ('0' <= c <= '9') || ('a' <= c <= 'z') || ('A' <= c <= 'Z')
  }

  /** A template with no group reference and no rejected escape: every
      backslash is followed by a control escape or by a character that is not
      an ASCII letter or digit. */
  predicate PlainTemplate(t: string)
    decreases |t|
  {
    if t == [] then true
    else if t[0] == '\\' then
      |t| >= 2 && (IsControlEscape(t[1]) || !IsAsciiAlnum(t[1])) && PlainTemplate(t[2..])
    else PlainTemplate(t[1..])
  }

  /** The text `re.sub` inserts for a plain template: control escapes become
      their character, any other escaped character keeps its backslash. */
  function ExpandTemplate(t: string): (r: string)
    requires PlainTemplate(t)
    ensures |r| <= |t|
    decreases |t|
  {
    if t == [] then []
    else if t[0] == '\\' then
      (if IsControlEscape(t[1]) then [ControlChar(t[1])] else t[..2]) + ExpandTemplate(t[2..])
    else [t[0]] + ExpandTemplate(t[1..])
  }

  /** A template without backslashes is inserted verbatim. */
  lemma {:induction false} ExpandTemplateVerbatim(t: string)
    requires '\\' !in t
    ensures PlainTemplate(t) && ExpandTemplate(t) == t
    decreases |t|
  {
    if t != [] {
      ExpandTemplateVerbatim(t[1..]);
    }
  }

  /** The templates of the `%`, `&`, `#` and `_` rules insert what they show. */
  lemma TemplatesOfOtherRules()
    ensures PlainTemplate(PercentEscape) && ExpandTemplate(PercentEscape) == PercentEscape
    ensures PlainTemplate(AmpersandEscape) && ExpandTemplate(AmpersandEscape) == AmpersandEscape
    ensures PlainTemplate(HashEscape) && ExpandTemplate(HashEscape) == HashEscape
    ensures PlainTemplate(UnderscoreTemplate) && ExpandTemplate(UnderscoreTemplate) == UnderscoreEscape
  {
    assert PercentEscape[2..] == AmpersandEscape[2..] == HashEscape[2..] == [];
    assert UnderscoreTemplate[2..] == "_";
    assert UnderscoreTemplate[2..][1..] == [];
  }

  /** The `~` template starts with `\t`, which `re.sub` turns into a TAB: the
      rule inserts a TAB followed by "extasciitilde{}", not the LaTeX macro. */
  lemma TildeTemplateExpandsToTab()
    ensures PlainTemplate(TildeTemplate)
    ensures ExpandTemplate(TildeTemplate) == ['\t'] + TildeWord
    ensures ExpandTemplate(TildeTemplate) != TildeEscape
  {
    var t := TildeTemplate;
    var x := TildeWord;
    TildeWordIsPlain();
    assert t[0] == '\\' && t[1] == 't';
    assert t[2..] == x;
    ExpandTemplateVerbatim(x);
    assert ExpandTemplate(t) == [ControlChar('t')] + ExpandTemplate(t[2..]);
    assert ExpandTemplate(t)[0] == '\t' != TildeEscape[0];
  }

  /** What the `~` rule of the source inserts. */
  function TildeAsWritten(): (r: string)
    ensures r == ['\t'] + TildeWord
  {
    TildeTemplateExpandsToTab();
    ExpandTemplate(TildeTemplate)
  }

  // ---------------------------------------------------------------------------
  // Special characters (latex.py:139-148)
  // ---------------------------------------------------------------------------

  /** `re.sub('(?<!\\\\)' + re.escape(c), rep, s)`: each `c` whose left
      neighbour is not a backslash becomes `rep`. The neighbour is looked up in
      the input; `afterBackslash` says whether the character before `s` was a
      backslash. */
  function EscapeUnescaped(s: string, c: char, rep: string, afterBackslash: bool): string
    decreases |s|
  {
    if s == [] then []
    else
      (if s[0] == c && !afterBackslash then rep else [s[0]])
      + EscapeUnescaped(s[1..], c, rep, s[0] == '\\')
  }

  /** Every `c` in `s` stands right after a backslash. */
  predicate AllEscaped(s: string, c: char, afterBackslash: bool) {
    forall i {:trigger s[i]} :: 0 <= i < |s| && s[i] == c ==> if i == 0 then afterBackslash else s[i - 1] == '\\'
  }

  lemma AllEscapedTail(s: string, c: char, afterBackslash: bool)
    requires s != [] && AllEscaped(s, c, afterBackslash)
    ensures AllEscaped(s[1..], c, s[0] == '\\')
  {
    forall i | 0 <= i < |s| - 1 && s[1..][i] == c
      ensures if i == 0 then s[0] == '\\' else s[1..][i - 1] == '\\'
    {
      assert s[1..][i] == s[i + 1];
    }
  }

  /** Escaping `d` leaves every `c` escaped: the `c` that were escaped stay so,
      and when `c` is `d` the unescaped ones get escaped, provided the
      replacement itself holds `c` only after a backslash. */
  lemma {:induction false} EscapeKeepsEscaped(s: string, c: char, d: char, rep: string, afterBackslash: bool)
    requires c != '\\' && d != '\\'
    requires forall k :: 0 <= k < |rep| && rep[k] == c ==> k > 0 && rep[k - 1] == '\\'
    requires c == d || AllEscaped(s, c, afterBackslash)
    ensures AllEscaped(EscapeUnescaped(s, d, rep, afterBackslash), c, afterBackslash)
    decreases |s|
  {
    if s != [] {
      var piece := if s[0] == d && !afterBackslash then rep else [s[0]];
      var tail := EscapeUnescaped(s[1..], d, rep, s[0] == '\\');
      var r := piece + tail;
      assert r == EscapeUnescaped(s, d, rep, afterBackslash);
      if c != d {
        AllEscapedTail(s, c, afterBackslash);
      }
      EscapeKeepsEscaped(s[1..], c, d, rep, s[0] == '\\');
      forall i | 0 <= i < |r| && r[i] == c
        ensures if i == 0 then afterBackslash else r[i - 1] == '\\'
      {
        if i < |piece| {
          if piece == rep {
            assert rep[i] == c;
          } else {
            assert s[0] == c;
          }
        } else {
          var j := i - |piece|;
          assert tail[j] == c;
          assert AllEscaped(tail, c, s[0] == '\\');
          if j == 0 {
            assert s[0] == '\\';
            assert piece == [s[0]];
          } else {
            assert r[i - 1] == tail[j - 1];
          }
        }
      }
    }
  }

  /** Escaping changes nothing in text whose `c` are all escaped already:
      there is no double escape. */
  lemma {:induction false} EscapeAlreadyEscaped(s: string, c: char, rep: string, afterBackslash: bool)
    requires AllEscaped(s, c, afterBackslash)
    ensures EscapeUnescaped(s, c, rep, afterBackslash) == s
    decreases |s|
  {
    if s != [] {
      AllEscapedTail(s, c, afterBackslash);
      EscapeAlreadyEscaped(s[1..], c, rep, s[0] == '\\');
    }
  }

  /** The `for` loop over `special_chars`, in its insertion order. */
  function EscapeSpecials(s: string, tildeRep: string): string {
    var s1 := EscapeUnescaped(s, '%', PercentEscape, false);
    var s2 := EscapeUnescaped(s1, '&', AmpersandEscape, false);
    var s3 := EscapeUnescaped(s2, '#', HashEscape, false);
    EscapeUnescaped(s3, '~', tildeRep, false)
  }

  /** A replacement that holds no special character at all. */
  predicate FreeOfSpecials(rep: string) {
    '%' !in rep && '&' !in rep && '#' !in rep && '~' !in rep
  }

  /** After the loop every `%`, `&`, `#` and `~` stands right after a
      backslash. */
  lemma EscapeSpecialsEscapesAll(s: string, tildeRep: string)
    requires FreeOfSpecials(tildeRep)
    ensures var r := EscapeSpecials(s, tildeRep);
      AllEscaped(r, '%', false) && AllEscaped(r, '&', false)
      && AllEscaped(r, '#', false) && AllEscaped(r, '~', false)
  {
    var s1 := EscapeUnescaped(s, '%', PercentEscape, false);
    var s2 := EscapeUnescaped(s1, '&', AmpersandEscape, false);
    var s3 := EscapeUnescaped(s2, '#', HashEscape, false);
    EscapeKeepsEscaped(s, '%', '%', PercentEscape, false);
    EscapeKeepsEscaped(s1, '%', '&', AmpersandEscape, false);
    EscapeKeepsEscaped(s1, '&', '&', AmpersandEscape, false);
    EscapeKeepsEscaped(s2, '%', '#', HashEscape, false);
    EscapeKeepsEscaped(s2, '&', '#', HashEscape, false);
    EscapeKeepsEscaped(s2, '#', '#', HashEscape, false);
    EscapeKeepsEscaped(s3, '%', '~', tildeRep, false);
    EscapeKeepsEscaped(s3, '&', '~', tildeRep, false);
    EscapeKeepsEscaped(s3, '#', '~', tildeRep, false);
    EscapeKeepsEscaped(s3, '~', '~', tildeRep, false);
  }

  /** Running the loop a second time changes nothing. */
  lemma EscapeSpecialsIdempotent(s: string, tildeRep: string)
    requires FreeOfSpecials(tildeRep)
    ensures EscapeSpecials(EscapeSpecials(s, tildeRep), tildeRep) == EscapeSpecials(s, tildeRep)
  {
    var r := EscapeSpecials(s, tildeRep);
    EscapeSpecialsEscapesAll(s, tildeRep);
    EscapeAlreadyEscaped(r, '%', PercentEscape, false);
    EscapeAlreadyEscaped(r, '&', AmpersandEscape, false);
    EscapeAlreadyEscaped(r, '#', HashEscape, false);
    EscapeAlreadyEscaped(r, '~', tildeRep, false);
  }

  // ---------------------------------------------------------------------------
  // Underscores (latex.py:151)
  // ---------------------------------------------------------------------------

  /** What may follow an underscore that is left alone: a digit or a brace. */
  predicate SubscriptStart(c: char) {
    ('0' <= c <= '9') || c == '{' || c == '}'
  }

  /** `re.sub(r'(?<!\\)_(?![0-9{}])', r'\\_', s)`. */
  function EscapeUnderscores(s: string, afterBackslash: bool): string
    decreases |s|
  {
    if s == [] then []
    else
      (if s[0] == '_' && !afterBackslash && !(|s| > 1 && SubscriptStart(s[1]))
       then UnderscoreEscape else [s[0]])
      + EscapeUnderscores(s[1..], s[0] == '\\')
  }

  /** Every `_` is escaped or followed by a digit or a brace. */
  predicate UnderscoresSafe(s: string, afterBackslash: bool) {
    forall i {:trigger s[i]} :: 0 <= i < |s| && s[i] == '_' ==>
      (if i == 0 then afterBackslash else s[i - 1] == '\\')
      || (i + 1 < |s| && SubscriptStart(s[i + 1]))
  }

  lemma UnderscoresSafeTail(s: string, afterBackslash: bool)
    requires s != [] && UnderscoresSafe(s, afterBackslash)
    ensures UnderscoresSafe(s[1..], s[0] == '\\')
  {
    var t := s[1..];
    forall i | 0 <= i < |t| && t[i] == '_'
      ensures (if i == 0 then s[0] == '\\' else t[i - 1] == '\\')
              || (i + 1 < |t| && SubscriptStart(t[i + 1]))
    {
      assert t[i] == s[i + 1];
    }
  }

  /** After the rule no bare underscore is left. */
  lemma {:induction false} EscapeUnderscoresMakesSafe(s: string, afterBackslash: bool)
    ensures UnderscoresSafe(EscapeUnderscores(s, afterBackslash), afterBackslash)
    decreases |s|
  {
    if s != [] {
      var replaced := s[0] == '_' && !afterBackslash && !(|s| > 1 && SubscriptStart(s[1]));
      var piece := if replaced then UnderscoreEscape else [s[0]];
      var tail := EscapeUnderscores(s[1..], s[0] == '\\');
      var r := piece + tail;
      assert r == EscapeUnderscores(s, afterBackslash);
      EscapeUnderscoresMakesSafe(s[1..], s[0] == '\\');
      forall i | 0 <= i < |r| && r[i] == '_'
        ensures (if i == 0 then afterBackslash else r[i - 1] == '\\')
                || (i + 1 < |r| && SubscriptStart(r[i + 1]))
      {
        if i < |piece| {
          if !replaced && !afterBackslash {
            assert s[0] == '_' && SubscriptStart(s[1]);
            assert tail[0] == s[1];
            assert r[i + 1] == tail[0];
          }
        } else {
          var j := i - |piece|;
          assert tail[j] == '_';
          if j == 0 && s[0] == '\\' {
            assert r[i - 1] == s[0];
          } else if j > 0 && tail[j - 1] == '\\' {
            assert r[i - 1] == tail[j - 1];
          } else {
            assert r[i + 1] == tail[j + 1];
          }
        }
      }
    }
  }

  /** Text whose underscores are all safe is left alone. */
  lemma {:induction false} EscapeUnderscoresSafeUnchanged(s: string, afterBackslash: bool)
    requires UnderscoresSafe(s, afterBackslash)
    ensures EscapeUnderscores(s, afterBackslash) == s
    decreases |s|
  {
    if s != [] {
      UnderscoresSafeTail(s, afterBackslash);
      EscapeUnderscoresSafeUnchanged(s[1..], s[0] == '\\');
    }
  }

  /** Applying the rule twice is applying it once. */
  lemma EscapeUnderscoresIdempotent(s: string)
    ensures EscapeUnderscores(EscapeUnderscores(s, false), false) == EscapeUnderscores(s, false)
  {
    EscapeUnderscoresMakesSafe(s, false);
    EscapeUnderscoresSafeUnchanged(EscapeUnderscores(s, false), false);
  }

  /** `x_1` and `x_{i}` stay as they are. */
  lemma SubscriptExamples()
    ensures EscapeUnderscores("x_1", false) == "x_1"
    ensures EscapeUnderscores("x_{i}", false) == "x_{i}"
  {
    EscapeUnderscoresSafeUnchanged("x_1", false);
    EscapeUnderscoresSafeUnchanged("x_{i}", false);
  }

  /** `a_b` and a trailing `_` get escaped. */
  lemma UnderscoreExamples()
    ensures EscapeUnderscores("a_b", false) == @"a\_b"
    ensures EscapeUnderscores("a_", false) == @"a\_"
  {
    assert "a_b"[1..] == "_b" && "_b"[1..] == "b";
    assert EscapeUnderscores("b", true) == "b";
    assert "a_"[1..] == "_";
    assert EscapeUnderscores("_", false) == UnderscoreEscape;
  }

  // ---------------------------------------------------------------------------
  // Degrees and TikZ pictures (latex.py:154-159)
  // ---------------------------------------------------------------------------

  /** Both spellings of a degree become `^{\circ}`. */
  function NormalizeDegrees(s: string): (r: string)
    ensures DegreeSign !in r
  {
    ReplaceAllRemovesChar(ReplaceAll(s, DegreeMacro, Circle), DegreeSign, Circle);
    ReplaceAll(ReplaceAll(s, DegreeMacro, Circle), [DegreeSign], Circle)
  }

  /** Each shortest `\begin{tikzpicture} ... \end{tikzpicture}` becomes one
      comment line. */
  function RemoveTikz(s: string): (r: string)
    ensures forall c :: c in r ==> c in s || c in TikzMarker
  {
    ReplaceSpans(s, TikzBegin, TikzEnd, TikzMarker)
  }

  /** The first picture after a prefix `x`, whose body does not close it
      early, turns into exactly one marker, however long the body is; the
      prefix is kept. */
  lemma TikzBlockBecomesMarker(x: string, body: string, rest: string)
    requires forall j :: 0 <= j < |x| ==> !OccursAt(x + TikzBegin + body + TikzEnd + rest, TikzBegin, j)
    requires forall j: nat :: !OccursAt(body, TikzEnd, j)
    ensures RemoveTikz(x + TikzBegin + body + TikzEnd + rest) == x + TikzMarker + RemoveTikz(rest)
  {
    ReplaceSpansBlockAfter(x, body, TikzBegin, TikzEnd, TikzMarker, rest);
  }

  /** The first preamble after a prefix `x`, up to its first
      `\begin{document}`, disappears; the prefix is kept. */
  lemma PreambleIsStripped(x: string, body: string, rest: string)
    requires forall j :: 0 <= j < |x| ==> !OccursAt(x + DocumentClass + body + BeginDocument + rest, DocumentClass, j)
    requires forall j: nat :: !OccursAt(body, BeginDocument, j)
    ensures StripPreamble(x + DocumentClass + body + BeginDocument + rest) == x + StripPreamble(rest)
  {
    assert forall k :: 0 <= k < |BeginDocument| - 1 ==> BeginDocument[k] != BeginDocument[|BeginDocument| - 1] by {
      assert BeginDocument[|BeginDocument| - 1] == '}';
    }
    ReplaceSpansBlockAfter(x, body, DocumentClass, BeginDocument, "", rest);
  }

  // ---------------------------------------------------------------------------
  // Blank lines, line ends and dollar signs (latex.py:161-167)
  // ---------------------------------------------------------------------------

  /** Index of the last `c` in `t`. */
  function LastIndex(t: string, c: char): (k: nat)
    requires c in t
    ensures k < |t| && t[k] == c
    ensures forall j :: k < j < |t| ==> t[j] != c
  {
    if t[|t| - 1] == c then |t| - 1
    else
      assert c in t[..|t| - 1] by {
        var i :| 0 <= i < |t| && t[i] == c;
        assert t[..|t| - 1][i] == c;
      }
      LastIndex(t[..|t| - 1], c)
  }

  /** Runs of three or more line breaks, possibly with whitespace between
      them, become one blank line. A match starts at a newline whose
      whitespace run holds at least three newlines; both inner `\s*` are
      greedy, so it ends at the last newline of that run. */
  function CollapseBlankLines(s: string): (r: string)
    ensures forall c :: c in r ==> c in s
    decreases |s|
  {
    if s == [] then []
    else if CollapsesAtFront(s) then "\n\n" + CollapseBlankLines(AfterCollapse(s))
    else [s[0]] + CollapseBlankLines(s[1..])
  }

  /** No three line breaks in a row. */
  predicate NoTripleNewline(r: string) {
    forall i {:trigger r[i]} :: 0 <= i < |r| - 2 ==> !(r[i] == '\n' && r[i + 1] == '\n' && r[i + 2] == '\n')
  }

  /** The first character always survives (a collapsed run starts with the
      same newline). */
  lemma CollapseBlankLinesHead(s: string)
    requires s != []
    ensures CollapseBlankLines(s) != [] && CollapseBlankLines(s)[0] == s[0]
  {
  }

  /** Putting one character in front keeps the property unless it makes a
      third newline. */
  lemma NoTripleCons(c: char, t: string)
    requires NoTripleNewline(t)
    requires !(c == '\n' && |t| >= 2 && t[0] == '\n' && t[1] == '\n')
    ensures NoTripleNewline([c] + t)
  {
    var r := [c] + t;
    forall i | 0 <= i < |r| - 2
      ensures !(r[i] == '\n' && r[i + 1] == '\n' && r[i + 2] == '\n')
    {
      if i >= 1 {
        assert r[i] == t[i - 1] && r[i + 1] == t[i] && r[i + 2] == t[i + 1];
      }
    }
  }

  /** What follows a collapsed run does not start with a newline. */
  lemma CollapsedRest(s: string)
    requires CollapsesAtFront(s)
    ensures var k := LastIndex(s[..SpaceRun(s)], '\n');
      s[k + 1..] == [] || s[k + 1] != '\n'
  {
    var w := SpaceRun(s);
    var k := LastIndex(s[..w], '\n');
    if k + 1 < w {
      assert s[..w][k + 1] == s[k + 1];
    }
  }

  /** Two newlines whose run is too short to collapse are followed by a
      character that is not a newline. */
  lemma UncollapsedPair(s: string)
    requires |s| >= 2 && s[0] == '\n' && s[1] == '\n' && !CollapsesAtFront(s)
    ensures CollapseBlankLines(s[1..]) == "\n" + CollapseBlankLines(s[2..])
    ensures |s| >= 3 ==> s[2] != '\n'
  {
    var w := SpaceRun(s);
    var t := s[1..];
    assert s[..w] == [s[0]] + t[..w - 1];
    assert SpaceRun(t) == w - 1;
    assert !CollapsesAtFront(t);
    if |s| >= 3 && IsSpace(s[2]) {
      assert s[..w] == [s[0], s[1], s[2]] + s[3..w];
    }
  }

  /** Whether a blank-line match starts at the front of `s`. */
  predicate CollapsesAtFront(s: string) {
    s != [] && s[0] == '\n' && Count(s[..SpaceRun(s)], '\n') >= 3
  }

  /** Where the scan resumes after a blank-line match at the front. */
  function AfterCollapse(s: string): (t: string)
    requires CollapsesAtFront(s)
    ensures |t| < |s|
    ensures t == [] || t[0] != '\n'
  {
    CollapsedRest(s);
    s[LastIndex(s[..SpaceRun(s)], '\n') + 1..]
  }

  lemma CollapsedStep(s: string)
    requires CollapsesAtFront(s)
    requires NoTripleNewline(CollapseBlankLines(AfterCollapse(s)))
    ensures NoTripleNewline(CollapseBlankLines(s))
  {
    var t := AfterCollapse(s);
    var rt := CollapseBlankLines(t);
    assert rt == [] || rt[0] != '\n' by {
      if t != [] {
        CollapseBlankLinesHead(t);
      }
    }
    NoTriplePair(rt);
  }

  /** A blank line in front of text that does not start with a line break
      makes no third newline. */
  lemma NoTriplePair(rt: string)
    requires NoTripleNewline(rt) && (rt == [] || rt[0] != '\n')
    ensures NoTripleNewline("\n\n" + rt)
  {
    NoTripleCons('\n', rt);
    NoTripleCons('\n', "\n" + rt);
    assert "\n\n" + rt == ['\n'] + (['\n'] + rt);
  }

  lemma UncollapsedStep(s: string)
    requires s != [] && !CollapsesAtFront(s)
    requires NoTripleNewline(CollapseBlankLines(s[1..]))
    ensures NoTripleNewline(CollapseBlankLines(s))
  {
    var rt := CollapseBlankLines(s[1..]);
    if s[0] == '\n' && |s| >= 2 && s[1] == '\n' {
      UncollapsedPair(s);
      if |s| >= 3 {
        CollapseBlankLinesHead(s[2..]);
        assert rt[1] == s[2];
      }
    }
    NoTripleCons(s[0], rt);
    assert CollapseBlankLines(s) == [s[0]] + rt;
  }

  lemma {:induction false} CollapseBlankLinesLeavesNoTriple(s: string)
    ensures NoTripleNewline(CollapseBlankLines(s))
    decreases |s|
  {
    if CollapsesAtFront(s) {
      CollapseBlankLinesLeavesNoTriple(AfterCollapse(s));
      CollapsedStep(s);
    } else if s != [] {
      CollapseBlankLinesLeavesNoTriple(s[1..]);
      UncollapsedStep(s);
    }
  }

  lemma {:induction false} CollapseBlankLinesNoNewline(s: string)
    requires '\n' !in s
    ensures CollapseBlankLines(s) == s
    decreases |s|
  {
    if s != [] {
      CollapseBlankLinesNoNewline(s[1..]);
    }
  }

  predicate IsBlank(c: char) {
    c == ' ' || c == '\t'
  }

  /** Length of the longest prefix made of spaces and tabs. */
  function BlankRun(s: string): (n: nat)
    ensures n <= |s|
    ensures forall i :: 0 <= i < n ==> IsBlank(s[i])
    ensures n == |s| || !IsBlank(s[n])
  {
    if s == [] || !IsBlank(s[0]) then 0 else 1 + BlankRun(s[1..])
  }

  /** Whether `s` starts with spaces and tabs that end a line. */
  predicate BlanksEndLine(s: string) {
    s != [] && IsBlank(s[0]) && BlankRun(s) < |s| && s[BlankRun(s)] == '\n'
  }

  /** Spaces and tabs at the end of a line are deleted. */
  function TrimLineEnds(s: string): (r: string)
    ensures forall c :: c in r ==> c in s
    decreases |s|
  {
    if s == [] then []
    else if BlanksEndLine(s) then "\n" + TrimLineEnds(s[BlankRun(s) + 1..])
    else [s[0]] + TrimLineEnds(s[1..])
  }

  /** No space or tab directly before a line break. */
  predicate NoBlankBeforeNewline(r: string) {
    forall i {:trigger r[i]} :: 0 <= i < |r| - 1 && IsBlank(r[i]) ==> r[i + 1] != '\n'
  }

  lemma TrimLineEndsHead(s: string)
    requires s != []
    ensures TrimLineEnds(s) != []
    ensures TrimLineEnds(s)[0] == (if BlanksEndLine(s) then '\n' else s[0])
  {
  }

  lemma NoBlankCons(c: char, t: string)
    requires NoBlankBeforeNewline(t)
    requires !(IsBlank(c) && t != [] && t[0] == '\n')
    ensures NoBlankBeforeNewline([c] + t)
  {
    var r := [c] + t;
    forall i | 0 <= i < |r| - 1 && IsBlank(r[i]) ensures r[i + 1] != '\n' {
      if i >= 1 {
        assert r[i] == t[i - 1] && r[i + 1] == t[i];
      }
    }
  }

  /** A blank that does not end a line is followed by something that does
      not turn into a line break. */
  lemma KeptBlankStep(s: string)
    requires s != [] && IsBlank(s[0]) && !BlanksEndLine(s)
    ensures s[1..] == [] || TrimLineEnds(s[1..])[0] != '\n'
  {
    var t := s[1..];
    if t != [] {
      TrimLineEndsHead(t);
      if IsBlank(t[0]) {
        assert BlankRun(s) == 1 + BlankRun(t);
      }
    }
  }

  lemma {:induction false} TrimLineEndsLeavesNoBlank(s: string)
    ensures NoBlankBeforeNewline(TrimLineEnds(s))
    decreases |s|
  {
    if BlanksEndLine(s) {
      var t := s[BlankRun(s) + 1..];
      TrimLineEndsLeavesNoBlank(t);
      NoBlankCons('\n', TrimLineEnds(t));
      assert TrimLineEnds(s) == ['\n'] + TrimLineEnds(t);
    } else if s != [] {
      TrimLineEndsLeavesNoBlank(s[1..]);
      if IsBlank(s[0]) {
        KeptBlankStep(s);
      }
      NoBlankCons(s[0], TrimLineEnds(s[1..]));
      assert TrimLineEnds(s) == [s[0]] + TrimLineEnds(s[1..]);
    }
  }

  lemma {:induction false} TrimLineEndsNoNewline(s: string)
    requires '\n' !in s
    ensures TrimLineEnds(s) == s
    decreases |s|
  {
    if s != [] {
      TrimLineEndsNoNewline(s[1..]);
    }
  }

  /** Length of the longest prefix of dollar signs. */
  function DollarRun(s: string): (n: nat)
    ensures n <= |s|
    ensures forall i :: 0 <= i < n ==> s[i] == '$'
    ensures n == |s| || s[n] != '$'
  {
    if s == [] || s[0] != '$' then 0 else 1 + DollarRun(s[1..])
  }

  /** Three or more dollar signs in a row become `$$`. */
  function CollapseDollarRuns(s: string): (r: string)
    ensures forall c :: c in r ==> c in s
    decreases |s|
  {
    if s == [] then []
    else if DollarRun(s) >= 3 then "$$" + CollapseDollarRuns(s[DollarRun(s)..])
    else [s[0]] + CollapseDollarRuns(s[1..])
  }

  /** No three dollar signs in a row. */
  predicate NoTripleDollar(r: string) {
    forall i {:trigger r[i]} :: 0 <= i < |r| - 2 ==> !(r[i] == '$' && r[i + 1] == '$' && r[i + 2] == '$')
  }

  lemma CollapseDollarRunsHead(s: string)
    requires s != []
    ensures CollapseDollarRuns(s) != [] && CollapseDollarRuns(s)[0] == s[0]
  {
  }

  lemma NoTripleDollarCons(c: char, t: string)
    requires NoTripleDollar(t)
    requires !(c == '$' && |t| >= 2 && t[0] == '$' && t[1] == '$')
    ensures NoTripleDollar([c] + t)
  {
    var r := [c] + t;
    forall i | 0 <= i < |r| - 2
      ensures !(r[i] == '$' && r[i + 1] == '$' && r[i + 2] == '$')
    {
      if i >= 1 {
        assert r[i] == t[i - 1] && r[i + 1] == t[i] && r[i + 2] == t[i + 1];
      }
    }
  }

  /** Two dollar signs that are not part of a longer run stay as they are
      and are followed by something else. */
  lemma DollarPairStep(s: string)
    requires |s| >= 2 && s[0] == '$' && s[1] == '$' && DollarRun(s) < 3
    ensures CollapseDollarRuns(s[1..]) == "$" + CollapseDollarRuns(s[2..])
    ensures |s| >= 3 ==> CollapseDollarRuns(s[2..])[0] != '$'
  {
    assert DollarRun(s) == 1 + DollarRun(s[1..]);
    if |s| >= 3 {
      assert DollarRun(s[1..]) == 1 + DollarRun(s[2..]);
      CollapseDollarRunsHead(s[2..]);
    }
  }

  lemma {:induction false} CollapseDollarRunsLeavesNoTriple(s: string)
    ensures NoTripleDollar(CollapseDollarRuns(s))
    decreases |s|
  {
    if s != [] && DollarRun(s) >= 3 {
      CollapseDollarRunsLeavesNoTriple(s[DollarRun(s)..]);
      NoTripleAfterRun(s);
    } else if s != [] {
      CollapseDollarRunsLeavesNoTriple(s[1..]);
      NoTripleAfterChar(s);
    }
  }

  /** The step of the above where a run of three or more is collapsed. */
  lemma NoTripleAfterRun(s: string)
    requires s != [] && DollarRun(s) >= 3
    requires NoTripleDollar(CollapseDollarRuns(s[DollarRun(s)..]))
    ensures NoTripleDollar(CollapseDollarRuns(s))
  {
    var n := DollarRun(s);
    var t := s[n..];
    var rt := CollapseDollarRuns(t);
    assert CollapseDollarRuns(s) == "$$" + rt;
    if t != [] {
      assert t[0] == s[n];
      CollapseDollarRunsHead(t);
    }
    NoTripleDollarPair(rt);
  }

  /** `$$` in front of something that does not start with `$` makes no
      run of three. */
  lemma NoTripleDollarPair(t: string)
    requires NoTripleDollar(t)
    requires t == [] || t[0] != '$'
    ensures NoTripleDollar("$$" + t)
  {
    var r := "$$" + t;
    forall i | 0 <= i < |r| - 2
      ensures !(r[i] == '$' && r[i + 1] == '$' && r[i + 2] == '$')
    {
      if i >= 2 {
        assert r[i] == t[i - 2] && r[i + 1] == t[i - 1] && r[i + 2] == t[i];
      } else {
        assert r[2] == t[0];
      }
    }
  }

  /** The step of the above where the first character is copied. */
  lemma NoTripleAfterChar(s: string)
    requires s != [] && DollarRun(s) < 3
    requires NoTripleDollar(CollapseDollarRuns(s[1..]))
    ensures NoTripleDollar(CollapseDollarRuns(s))
  {
    var rt := CollapseDollarRuns(s[1..]);
    if |s| >= 2 && s[0] == '$' && s[1] == '$' {
      DollarPairStep(s);
    }
    NoTripleDollarCons(s[0], rt);
    assert CollapseDollarRuns(s) == [s[0]] + rt;
  }

  lemma {:induction false} CollapseDollarRunsNoDollar(s: string)
    requires '$' !in s
    ensures CollapseDollarRuns(s) == s
    decreases |s|
  {
    if s != [] {
      CollapseDollarRunsNoDollar(s[1..]);
    }
  }

  /** Whether `$$`, whitespace and `$$` start `s`. */
  predicate EmptyMathAtFront(s: string) {
    OccursAt(s, "$$", 0) && OccursAt(s, "$$", 2 + SpaceRun(s[2..]))
  }

  /** Display math holding only whitespace, `$$ $$`, is deleted. */
  function RemoveEmptyMath(s: string): (r: string)
    ensures forall c :: c in r ==> c in s
    decreases |s|
  {
    if s == [] then []
    else if EmptyMathAtFront(s) then RemoveEmptyMath(s[4 + SpaceRun(s[2..])..])
    else [s[0]] + RemoveEmptyMath(s[1..])
  }

  /** An empty display, whatever whitespace it holds, vanishes. */
  lemma RemoveEmptyMathBlock(w: string, rest: string)
    requires AllSpace(w)
    ensures RemoveEmptyMath("$$" + w + "$$" + rest) == RemoveEmptyMath(rest)
  {
    var s := "$$" + w + "$$" + rest;
    var u := s[2..];
    assert u == w + "$$" + rest;
    assert u[|w|] == '$';
    assert SpaceRun(u) == |w|;
    assert s[2 + |w|..2 + |w| + 2] == "$$";
    assert EmptyMathAtFront(s);
    assert s[4 + |w|..] == rest;
  }

  lemma {:induction false} RemoveEmptyMathNoDollar(s: string)
    requires '$' !in s
    ensures RemoveEmptyMath(s) == s
    decreases |s|
  {
    if s != [] {
      if |s| >= 2 {
        assert s[0..2][0] == s[0];
      }
      RemoveEmptyMathNoDollar(s[1..]);
    }
  }

  // ---------------------------------------------------------------------------
  // The whole cleanup (latex.py:128-169)
  // ---------------------------------------------------------------------------

  /** Document structure and code fences removed (latex.py:133-136). */
  function Unwrap(s: string): string {
    StripFences(StripEndDocument(StripPreamble(s)))
  }

  /** Special characters and underscores escaped (latex.py:138-151). */
  function EscapeAll(s: string, tildeRep: string): string {
    EscapeUnderscores(EscapeSpecials(s, tildeRep), false)
  }

  /** Degrees normalised and pictures replaced (latex.py:153-159). */
  function Rewrite(s: string): (r: string)
    ensures DegreeSign !in r
  {
    RemoveTikz(NormalizeDegrees(s))
  }

  /** Whitespace and dollar clean-ups and the final trim (latex.py:161-169). */
  function Tidy(s: string): (r: string)
    ensures Trimmed(r)
    ensures forall c :: c in r ==> c in s
  {
    Strip(RemoveEmptyMath(CollapseDollarRuns(TrimLineEnds(CollapseBlankLines(s)))))
  }

  /** The cleanup with the text that replaces `~` as a parameter, so that the
      corrected rule and the rule as written share every other step. */
  function SanitizeWith(raw: string, tildeRep: string): (r: string)
    ensures AllSpace(raw) ==> r == EmptySentinel
    ensures !AllSpace(raw) ==> Trimmed(r)
    ensures DegreeSign !in r
  {
    if AllSpace(raw) then EmptySentinel
    else Tidy(Rewrite(EscapeAll(Unwrap(raw), tildeRep)))
  }

  /** The model's cleanup: `~` becomes `\textasciitilde{}`. */
  function Sanitize(raw: string): (r: string)
    ensures AllSpace(raw) ==> r == EmptySentinel
    ensures !AllSpace(raw) ==> Trimmed(r)
    ensures DegreeSign !in r
  {
    SanitizeWith(raw, TildeEscape)
  }

  /** The cleanup as written, where the `~` template expands `\t` to a tab. */
  function SanitizeAsWritten(raw: string): (r: string)
    ensures AllSpace(raw) ==> r == EmptySentinel
    ensures !AllSpace(raw) ==> Trimmed(r)
    ensures DegreeSign !in r
  {
    SanitizeWith(raw, TildeAsWritten())
  }

  /** Escaping adds no character that neither the text nor the replacement
      holds. */
  lemma {:induction false} EscapeAddsNothing(s: string, c: char, d: char, rep: string, afterBackslash: bool)
    requires c !in s && c !in rep
    ensures c !in EscapeUnescaped(s, d, rep, afterBackslash)
    decreases |s|
  {
    if s != [] {
      EscapeAddsNothing(s[1..], c, d, rep, s[0] == '\\');
    }
  }

  /** In text without `~` the text that replaces `~` plays no part: every
      choice of it gives the same cleanup. */
  lemma TildeFreeAgree(raw: string, rep: string, rep': string)
    requires '~' !in raw
    ensures SanitizeWith(raw, rep) == SanitizeWith(raw, rep')
  {
    if !AllSpace(raw) {
      var u := Unwrap(raw);
      var s1 := EscapeUnescaped(u, '%', PercentEscape, false);
      var s2 := EscapeUnescaped(s1, '&', AmpersandEscape, false);
      var s3 := EscapeUnescaped(s2, '#', HashEscape, false);
      EscapeAddsNothing(u, '~', '%', PercentEscape, false);
      EscapeAddsNothing(s1, '~', '&', AmpersandEscape, false);
      EscapeAddsNothing(s2, '~', '#', HashEscape, false);
      EscapeAlreadyEscaped(s3, '~', rep, false);
      EscapeAlreadyEscaped(s3, '~', rep', false);
    }
  }

  /** So the cleanup as written and the corrected one differ only on text
      that holds `~`. */
  lemma AsWrittenAgreesWithoutTilde(raw: string)
    requires '~' !in raw
    ensures SanitizeAsWritten(raw) == Sanitize(raw)
  {
    TildeFreeAgree(raw, TildeAsWritten(), TildeEscape);
  }

  /** The cleanup of non-blank text, given what its stages produce. */
  lemma SanitizeStages(raw: string, tildeRep: string, escaped: string, rewritten: string)
    requires !AllSpace(raw)
    requires EscapeAll(Unwrap(raw), tildeRep) == escaped
    requires Rewrite(escaped) == rewritten
    ensures SanitizeWith(raw, tildeRep) == Tidy(rewritten)
    ensures tildeRep == TildeEscape ==> Sanitize(raw) == Tidy(rewritten)
  {
  }

  // ---------------------------------------------------------------------------
  // Text each stage leaves alone, and worked examples
  // ---------------------------------------------------------------------------

  lemma UnwrapUnchanged(s: string)
    requires forall j: nat :: !OccursAt(s, DocumentClass, j)
    requires forall j: nat :: !OccursAt(s, EndDocument, j)
    requires '`' !in s
    ensures Unwrap(s) == s
  {
    ReplaceSpansAbsent(s, DocumentClass, BeginDocument, "");
    ReplaceAllAbsent(s, EndDocument, "");
    StripFencesNoBacktick(s);
  }

  lemma EscapeAllUnchanged(s: string, tildeRep: string)
    requires AllEscaped(s, '%', false) && AllEscaped(s, '&', false)
    requires AllEscaped(s, '#', false) && AllEscaped(s, '~', false)
    requires UnderscoresSafe(s, false)
    ensures EscapeAll(s, tildeRep) == s
  {
    EscapeAlreadyEscaped(s, '%', PercentEscape, false);
    EscapeAlreadyEscaped(s, '&', AmpersandEscape, false);
    EscapeAlreadyEscaped(s, '#', HashEscape, false);
    EscapeAlreadyEscaped(s, '~', tildeRep, false);
    EscapeUnderscoresSafeUnchanged(s, false);
  }

  /** Text without the characters the escaping stage acts on. */
  predicate NothingToEscape(s: string) {
    '%' !in s && '&' !in s && '#' !in s && '~' !in s && '_' !in s
  }

  lemma NothingToEscapeUnchanged(s: string, tildeRep: string)
    requires NothingToEscape(s)
    ensures EscapeAll(s, tildeRep) == s
  {
    EscapeAllUnchanged(s, tildeRep);
  }

  lemma NormalizeDegreesUnchanged(s: string)
    requires forall j: nat :: !OccursAt(s, DegreeMacro, j)
    requires DegreeSign !in s
    ensures NormalizeDegrees(s) == s
  {
    ReplaceAllAbsent(s, DegreeMacro, Circle);
    AbsentFirstChar(s, [DegreeSign]);
    ReplaceAllAbsent(s, [DegreeSign], Circle);
  }

  lemma RewriteUnchanged(s: string)
    requires forall j: nat :: !OccursAt(s, DegreeMacro, j)
    requires DegreeSign !in s
    requires forall j: nat :: !OccursAt(s, TikzBegin, j)
    ensures Rewrite(s) == s
  {
    NormalizeDegreesUnchanged(s);
    ReplaceSpansAbsent(s, TikzBegin, TikzEnd, TikzMarker);
  }

  lemma TidyUnchanged(s: string)
    requires '\n' !in s && '$' !in s
    requires s == [] || (!IsSpace(s[0]) && !IsSpace(s[|s| - 1]))
    ensures Tidy(s) == s
  {
    CollapseBlankLinesNoNewline(s);
    TrimLineEndsNoNewline(s);
    CollapseDollarRunsNoDollar(s);
    RemoveEmptyMathNoDollar(s);
    StripUnchanged(s);
  }

  /** Text with nothing for any rule to act on. */
  predicate IsPlainChar(c: char) {
    c != '\\' && c != '%' && c != '&' && c != '#' && c != '~' && c != '_'
    && c != '`' && c != '\n' && c != '$' && c != DegreeSign
  }

  predicate PlainText(x: string) {
    forall i :: 0 <= i < |x| ==> IsPlainChar(x[i])
  }

  /** Plain text followed by plain text is plain text. */
  lemma PlainConcat(a: string, b: string)
    requires PlainText(a) && PlainText(b)
    ensures PlainText(a + b)
  {
    var s := a + b;
    forall i | 0 <= i < |s| ensures IsPlainChar(s[i]) {
      if i < |a| {
        assert s[i] == a[i];
      } else {
        assert s[i] == b[i - |a|];
      }
    }
  }

  /** Plain text without surrounding whitespace comes back unchanged. */
  lemma PlainTextUnchanged(x: string)
    requires PlainText(x) && x != [] && !IsSpace(x[0]) && !IsSpace(x[|x| - 1])
    ensures Sanitize(x) == x
  {
    assert '\\' !in x && '`' !in x;
    AbsentFirstChar(x, DocumentClass);
    AbsentFirstChar(x, EndDocument);
    UnwrapUnchanged(x);
    EscapeAllUnchanged(x, TildeEscape);
    AbsentFirstChar(x, DegreeMacro);
    AbsentFirstChar(x, TikzBegin);
    RewriteUnchanged(x);
    TidyUnchanged(x);
  }

  lemma EscapeComment(x: string)
    requires PlainText(x)
    ensures EscapeAll(['%'] + x, TildeEscape) == PercentEscape + x
  {
    var s := ['%'] + x;
    var e := PercentEscape + x;
    assert s[1..] == x;
    EscapeAlreadyEscaped(x, '%', PercentEscape, false);
    assert EscapeUnescaped(s, '%', PercentEscape, false) == e;
    EscapeAlreadyEscaped(e, '&', AmpersandEscape, false);
    EscapeAlreadyEscaped(e, '#', HashEscape, false);
    EscapeAlreadyEscaped(e, '~', TildeEscape, false);
    EscapeUnderscoresSafeUnchanged(e, false);
  }

  /** A comment line made of plain text gets its `%` escaped. */
  lemma CommentGetsEscaped(x: string)
    requires PlainText(x) && x != [] && !IsSpace(x[|x| - 1])
    ensures Sanitize(['%'] + x) == PercentEscape + x
  {
    var s := ['%'] + x;
    var e := PercentEscape + x;
    assert !AllSpace(s) by {
      assert s[0] == '%';
      NotBlankAt(s, 0);
    }
    assert EscapeAll(Unwrap(s), TildeEscape) == e by {
      CommentUnwrapped(x);
      EscapeComment(x);
    }
    assert Rewrite(e) == e && Tidy(e) == e by {
      EscapedCommentKept(x);
    }
    SanitizeStages(s, TildeEscape, e, e);
  }

  lemma CommentUnwrapped(x: string)
    requires PlainText(x)
    ensures Unwrap(['%'] + x) == ['%'] + x
  {
    var s := ['%'] + x;
    assert '\\' !in s && '`' !in s;
    AbsentFirstChar(s, DocumentClass);
    AbsentFirstChar(s, EndDocument);
    UnwrapUnchanged(s);
  }

  /** The escaped comment has nothing for the later stages. */
  lemma EscapedCommentKept(x: string)
    requires PlainText(x) && x != [] && !IsSpace(x[|x| - 1])
    ensures Rewrite(PercentEscape + x) == PercentEscape + x
    ensures Tidy(PercentEscape + x) == PercentEscape + x
  {
    var s := ['%'] + x;
    var e := PercentEscape + x;
    assert e == ['\\'] + s;
    EscapedCommentRewriteKept(x);
    EscapedCommentTidyKept(x);
  }

  lemma EscapedCommentRewriteKept(x: string)
    requires PlainText(x)
    ensures Rewrite(['\\'] + (['%'] + x)) == ['\\'] + (['%'] + x)
  {
    var s := ['%'] + x;
    assert '\\' !in s;
    AbsentAfterLead('\\', s, DegreeMacro);
    AbsentAfterLead('\\', s, TikzBegin);
    RewriteUnchanged(['\\'] + s);
  }

  lemma EscapedCommentTidyKept(x: string)
    requires PlainText(x) && x != [] && !IsSpace(x[|x| - 1])
    ensures Tidy(['\\'] + (['%'] + x)) == ['\\'] + (['%'] + x)
  {
    var e := ['\\'] + (['%'] + x);
    assert '\n' !in x && '$' !in x;
    assert e[|e| - 1] == x[|x| - 1];
    TidyUnchanged(e);
  }

  /** The cleanup is not idempotent: cleaned again, the sentinel's own `%`
      is escaped. */
  lemma SanitizeNotIdempotent()
    ensures Sanitize("") == EmptySentinel
    ensures Sanitize(EmptySentinel) == PercentEscape + " Empty content"
    ensures Sanitize(Sanitize("")) != Sanitize("")
  {
    var x := " Empty content";
    assert EmptySentinel == ['%'] + x;
    CommentGetsEscaped(x);
    assert (PercentEscape + x)[0] != EmptySentinel[0];
  }

  /** Non-blank input can still come out empty: a lone fence is removed and
      nothing is left. */
  lemma SanitizeMayBeEmpty()
    ensures !AllSpace(Fence)
    ensures Sanitize(Fence) == []
  {
    assert !IsSpace(Fence[0]);
    assert StripPreamble(Fence) == Fence;
    assert StripEndDocument(Fence) == Fence;
    assert !OccursAt(Fence, LatexFence, 0) && OccursAt(Fence, Fence, 0);
    assert StripFences(Fence) == StripFences([]);
  }

  /** In plain text around one `^{\circ}` the only backslash is the
      circle's. */
  lemma CircleTextBackslash(x: string, y: string)
    requires PlainText(x) && PlainText(y)
    ensures forall i :: 0 <= i < |x + Circle + y| && (x + Circle + y)[i] == '\\' ==> i == |x| + 2
  {
    var t := x + Circle + y;
    forall i | 0 <= i < |t| ensures t[i] == '\\' ==> i == |x| + 2 {
      if i < |x| {
        assert t[i] == x[i];
      } else if i < |x| + |Circle| {
        assert t[i] == Circle[i - |x|];
      } else {
        assert t[i] == y[i - |x| - |Circle|];
      }
    }
  }

  /** Text around a `^{\circ}` holds no picture. */
  lemma CircleTextHasNoPicture(x: string, y: string)
    requires PlainText(x) && PlainText(y)
    ensures RemoveTikz(x + Circle + y) == x + Circle + y
  {
    var t := x + Circle + y;
    CircleTextBackslash(x, y);
    DiffersAt(t, TikzBegin, |x| + 2, 1);
    AbsentExceptAt(t, TikzBegin, {|x| + 2});
    ReplaceSpansAbsent(t, TikzBegin, TikzEnd, TikzMarker);
  }

  /** Text around a `^{\circ}` has nothing for the final clean-ups. */
  lemma CircleTextIsTidy(x: string, y: string)
    requires PlainText(x) && PlainText(y)
    requires x == [] || !IsSpace(x[0])
    requires y == [] || !IsSpace(y[|y| - 1])
    ensures Tidy(x + Circle + y) == x + Circle + y
  {
    var t := x + Circle + y;
    assert '\n' !in x && '$' !in x && '\n' !in y && '$' !in y;
    assert t[0] == (if x == [] then '^' else x[0]);
    assert t[|t| - 1] == (if y == [] then '}' else y[|y| - 1]);
    TidyUnchanged(t);
  }

  lemma MacroTextBackslash(x: string, y: string)
    requires PlainText(x) && PlainText(y)
    ensures forall i :: 0 <= i < |x + DegreeMacro + y| && (x + DegreeMacro + y)[i] == '\\' ==> i == |x|
  {
    var s := x + DegreeMacro + y;
    forall i | 0 <= i < |s| ensures s[i] == '\\' ==> i == |x| {
      if i < |x| {
        assert s[i] == x[i];
      } else if i < |x| + |DegreeMacro| {
        assert s[i] == DegreeMacro[i - |x|];
      } else {
        assert s[i] == y[i - |x| - |DegreeMacro|];
      }
    }
  }

  /** A degree macro in plain text passes the structure and escaping stages. */
  lemma MacroTextEarlyStages(x: string, y: string)
    requires PlainText(x) && PlainText(y)
    ensures EscapeAll(Unwrap(x + DegreeMacro + y), TildeEscape) == x + DegreeMacro + y
  {
    var s := x + DegreeMacro + y;
    var k := |x|;
    MacroTextBackslash(x, y);
    DiffersAt(s, DocumentClass, k, 2);
    AbsentExceptAt(s, DocumentClass, {k});
    DiffersAt(s, EndDocument, k, 1);
    AbsentExceptAt(s, EndDocument, {k});
    assert '`' !in x && '`' !in y;
    UnwrapUnchanged(s);
    assert '%' !in x && '&' !in x && '#' !in x && '~' !in x && '_' !in x;
    assert '%' !in y && '&' !in y && '#' !in y && '~' !in y && '_' !in y;
    EscapeAllUnchanged(s, TildeEscape);
  }

  lemma MacroTextNormalized(x: string, y: string)
    requires PlainText(x) && PlainText(y)
    ensures NormalizeDegrees(x + DegreeMacro + y) == x + Circle + y
  {
    var s := x + DegreeMacro + y;
    assert s == x + (DegreeMacro + y);
    forall j | 0 <= j < |x| ensures !OccursAt(s, DegreeMacro, j) {
      assert s[j] == x[j];
      DiffersAt(s, DegreeMacro, j, 0);
    }
    ReplaceAllSkip(x, DegreeMacro + y, DegreeMacro, Circle);
    assert (DegreeMacro + y)[..|DegreeMacro|] == DegreeMacro;
    assert (DegreeMacro + y)[|DegreeMacro|..] == y;
    assert '\\' !in y;
    AbsentFirstChar(y, DegreeMacro);
    ReplaceAllAbsent(y, DegreeMacro, Circle);
    var t := x + Circle + y;
    assert ReplaceAll(s, DegreeMacro, Circle) == t;
    assert DegreeSign !in x && DegreeSign !in y;
    AbsentFirstChar(t, [DegreeSign]);
    ReplaceAllAbsent(t, [DegreeSign], Circle);
  }

  lemma DegreeMacroBecomesCircle(x: string, y: string)
    requires PlainText(x) && PlainText(y)
    requires x == [] || !IsSpace(x[0])
    requires y == [] || !IsSpace(y[|y| - 1])
    ensures Sanitize(x + DegreeMacro + y) == x + Circle + y
  {
    var s := x + DegreeMacro + y;
    MacroTextEarlyStages(x, y);
    MacroTextRewritten(x, y);
    NotBlankAt(s, |x|);
    SanitizeStages(s, TildeEscape, s, x + Circle + y);
    CircleTextIsTidy(x, y);
  }

  lemma MacroTextRewritten(x: string, y: string)
    requires PlainText(x) && PlainText(y)
    ensures Rewrite(x + DegreeMacro + y) == x + Circle + y
  {
    MacroTextNormalized(x, y);
    CircleTextHasNoPicture(x, y);
  }

  lemma NotBlankAt(s: string, i: nat)
    requires i < |s| && !IsSpace(s[i])
    ensures !AllSpace(s)
  {
  }

  lemma SignTextEarlyStages(x: string, y: string)
    requires PlainText(x) && PlainText(y)
    ensures EscapeAll(Unwrap(x + [DegreeSign] + y), TildeEscape) == x + [DegreeSign] + y
  {
    var s := x + [DegreeSign] + y;
    assert '\\' !in x && '\\' !in y && '`' !in x && '`' !in y;
    AbsentFirstChar(s, DocumentClass);
    AbsentFirstChar(s, EndDocument);
    UnwrapUnchanged(s);
    assert '%' !in x && '&' !in x && '#' !in x && '~' !in x && '_' !in x;
    assert '%' !in y && '&' !in y && '#' !in y && '~' !in y && '_' !in y;
    EscapeAllUnchanged(s, TildeEscape);
  }

  lemma SignTextNormalized(x: string, y: string)
    requires PlainText(x) && PlainText(y)
    ensures NormalizeDegrees(x + [DegreeSign] + y) == x + Circle + y
  {
    var s := x + [DegreeSign] + y;
    assert '\\' !in x && '\\' !in y;
    AbsentFirstChar(s, DegreeMacro);
    ReplaceAllAbsent(s, DegreeMacro, Circle);
    assert s == x + ([DegreeSign] + y);
    forall j | 0 <= j < |x| ensures !OccursAt(s, [DegreeSign], j) {
      assert s[j] == x[j];
      DiffersAt(s, [DegreeSign], j, 0);
    }
    ReplaceAllSkip(x, [DegreeSign] + y, [DegreeSign], Circle);
    assert ([DegreeSign] + y)[1..] == y;
    assert DegreeSign !in y;
    AbsentFirstChar(y, [DegreeSign]);
    ReplaceAllAbsent(y, [DegreeSign], Circle);
  }

  lemma SignTextRewritten(x: string, y: string)
    requires PlainText(x) && PlainText(y)
    ensures Rewrite(x + [DegreeSign] + y) == x + Circle + y
  {
    SignTextNormalized(x, y);
    CircleTextHasNoPicture(x, y);
  }

  lemma DegreeSignBecomesCircle(x: string, y: string)
    requires PlainText(x) && PlainText(y)
    requires x == [] || !IsSpace(x[0])
    requires y == [] || !IsSpace(y[|y| - 1])
    ensures Sanitize(x + [DegreeSign] + y) == x + Circle + y
  {
    var s := x + [DegreeSign] + y;
    SignTextEarlyStages(x, y);
    SignTextRewritten(x, y);
    assert s[|x|] == DegreeSign;
    NotBlankAt(s, |x|);
    SanitizeStages(s, TildeEscape, s, x + Circle + y);
    CircleTextIsTidy(x, y);
  }

  /** Both spellings of a degree give the same text: `90\degree` and `90°`
      both become `90^{\circ}`. */
  lemma DegreeSpellingsAgree(x: string, y: string)
    requires PlainText(x) && PlainText(y)
    requires x == [] || !IsSpace(x[0])
    requires y == [] || !IsSpace(y[|y| - 1])
    ensures Sanitize(x + DegreeMacro + y) == Sanitize(x + [DegreeSign] + y) == x + Circle + y
  {
    DegreeMacroBecomesCircle(x, y);
    DegreeSignBecomesCircle(x, y);
  }

  lemma PictureBackslash(body: string)
    requires PlainText(body)
    ensures var s := TikzBegin + body + TikzEnd;
      forall i :: 0 <= i < |s| && s[i] == '\\' ==> i == 0 || i == |TikzBegin| + |body|
  {
    var s := TikzBegin + body + TikzEnd;
    var e := |TikzBegin| + |body|;
    forall i | 0 <= i < |s| ensures s[i] == '\\' ==> i == 0 || i == e {
      if i < |TikzBegin| {
        assert s[i] == TikzBegin[i];
      } else if i < e {
        assert s[i] == body[i - |TikzBegin|];
      } else {
        assert s[i] == TikzEnd[i - e];
      }
    }
  }

  lemma PictureUnwrapped(body: string)
    requires PlainText(body)
    ensures Unwrap(TikzBegin + body + TikzEnd) == TikzBegin + body + TikzEnd
  {
    var s := TikzBegin + body + TikzEnd;
    PictureLacks(body, DocumentClass, 1, 1);
    PictureLacks(body, EndDocument, 1, 5);
    assert '`' !in body;
    UnwrapUnchanged(s);
  }

  /** A backslash command that differs from the picture's opening at `d0`
      and from its closing at `d1` does not occur in the picture. */
  lemma PictureLacks(body: string, pat: string, d0: nat, d1: nat)
    requires PlainText(body)
    requires pat != [] && pat[0] == '\\'
    requires d0 < |pat| && d0 < |TikzBegin| && TikzBegin[d0] != pat[d0]
    requires d1 < |pat| && d1 < |TikzEnd| && TikzEnd[d1] != pat[d1]
    ensures forall j: nat :: !OccursAt(TikzBegin + body + TikzEnd, pat, j)
  {
    var s := TikzBegin + body + TikzEnd;
    var e := |TikzBegin| + |body|;
    PictureBackslash(body);
    assert s[d0] == TikzBegin[d0];
    assert s[e + d1] == TikzEnd[d1];
    DiffersAt(s, pat, 0, d0);
    DiffersAt(s, pat, e, d1);
    AbsentExceptAt(s, pat, {0, e});
  }

  /** A picture around plain text passes the structure and escaping stages. */
  lemma PictureEarlyStages(body: string)
    requires PlainText(body)
    ensures var s := TikzBegin + body + TikzEnd;
      EscapeAll(Unwrap(s), TildeEscape) == s
  {
    var s := TikzBegin + body + TikzEnd;
    PictureUnwrapped(body);
    PictureNothingToEscape(body);
    NothingToEscapeUnchanged(s, TildeEscape);
  }

  lemma PictureNothingToEscape(body: string)
    requires PlainText(body)
    ensures NothingToEscape(TikzBegin + body + TikzEnd)
  {
    assert NothingToEscape(TikzBegin) && NothingToEscape(TikzEnd);
    assert NothingToEscape(body);
  }

  lemma PictureRewritten(body: string)
    requires PlainText(body)
    ensures Rewrite(TikzBegin + body + TikzEnd) == TikzMarker
  {
    PictureNormalized(body);
    PictureRemoved(body);
  }

  lemma PictureNormalized(body: string)
    requires PlainText(body)
    ensures NormalizeDegrees(TikzBegin + body + TikzEnd) == TikzBegin + body + TikzEnd
  {
    PictureLacks(body, DegreeMacro, 1, 1);
    PictureHasNoDegreeSign(body);
    NormalizeDegreesUnchanged(TikzBegin + body + TikzEnd);
  }

  lemma PictureHasNoDegreeSign(body: string)
    requires PlainText(body)
    ensures DegreeSign !in TikzBegin + body + TikzEnd
  {
    assert DegreeSign !in body;
    assert DegreeSign !in TikzBegin && DegreeSign !in TikzEnd;
  }

  lemma PictureRemoved(body: string)
    requires PlainText(body)
    ensures RemoveTikz(TikzBegin + body + TikzEnd) == TikzMarker
  {
    assert '\\' !in body;
    AbsentFirstChar(body, TikzEnd);
    ReplaceSpansBlock(body, TikzBegin, TikzEnd, TikzMarker, []);
    assert TikzBegin + body + TikzEnd + [] == TikzBegin + body + TikzEnd;
  }

  lemma MarkerIsTidy()
    ensures Tidy(TikzMarker) == TikzMarker
  {
    TidyUnchanged(TikzMarker);
  }

  /** The picture marker is inserted after escaping, so its `%` stays bare:
      a picture alone comes out as exactly the marker line. */
  lemma PictureBecomesMarker(body: string)
    requires PlainText(body)
    ensures Sanitize(TikzBegin + body + TikzEnd) == TikzMarker
  {
    var s := TikzBegin + body + TikzEnd;
    assert !IsSpace(s[0]);
    PictureEarlyStages(body);
    PictureRewritten(body);
    SanitizeStages(s, TildeEscape, s, TikzMarker);
    MarkerIsTidy();
  }

  // ---------------------------------------------------------------------------
  // The `~` replacement, corrected and as written
  // ---------------------------------------------------------------------------

  /** A stretch without `c` and without backslashes is copied as it is. */
  lemma {:induction false} EscapeSkip(x: string, rest: string, c: char, rep: string, afterBackslash: bool)
    requires x != [] && c !in x && '\\' !in x
    ensures EscapeUnescaped(x + rest, c, rep, afterBackslash) == x + EscapeUnescaped(rest, c, rep, false)
    decreases |x|
  {
    var s := x + rest;
    assert s[1..] == x[1..] + rest;
    if |x| > 1 {
      EscapeSkip(x[1..], rest, c, rep, false);
    }
    assert x == [x[0]] + x[1..];
  }

  /** What the `~` rule may be replaced by: text the later stages leave
      alone, whose backslashes start `\t`. */
  predicate InertReplacement(rep: string) {
    && rep != [] && !IsSpace(rep[|rep| - 1])
    && NothingToEscape(rep) && '\n' !in rep && '$' !in rep && DegreeSign !in rep && '`' !in rep
    && forall i :: 0 <= i < |rep| && rep[i] == '\\' ==> i + 1 < |rep| && rep[i + 1] == 't'
  }

  lemma TildeUnwrapped(x: string, y: string)
    requires PlainText(x) && PlainText(y)
    ensures Unwrap(x + "~" + y) == x + "~" + y
  {
    var s := x + "~" + y;
    assert '\\' !in x && '\\' !in y && '`' !in x && '`' !in y;
    AbsentFirstChar(s, DocumentClass);
    AbsentFirstChar(s, EndDocument);
    UnwrapUnchanged(s);
  }

  lemma TildeSpecials(x: string, y: string, rep: string)
    requires PlainText(x) && PlainText(y) && x != []
    ensures EscapeSpecials(x + "~" + y, rep) == x + rep + y
  {
    var s := x + "~" + y;
    assert '%' !in x && '&' !in x && '#' !in x && '~' !in x && '\\' !in x;
    assert '%' !in y && '&' !in y && '#' !in y && '~' !in y;
    EscapeAlreadyEscaped(s, '%', PercentEscape, false);
    EscapeAlreadyEscaped(s, '&', AmpersandEscape, false);
    EscapeAlreadyEscaped(s, '#', HashEscape, false);
    assert s == x + ("~" + y);
    EscapeSkip(x, "~" + y, '~', rep, false);
    assert ("~" + y)[1..] == y;
    EscapeAlreadyEscaped(y, '~', rep, false);
  }

  lemma TildeEarlyStages(x: string, y: string, rep: string)
    requires PlainText(x) && PlainText(y) && x != []
    requires InertReplacement(rep)
    ensures EscapeAll(Unwrap(x + "~" + y), rep) == x + rep + y
  {
    TildeUnwrapped(x, y);
    TildeSpecials(x, y, rep);
    var t := x + rep + y;
    assert '_' !in x && '_' !in y && '_' !in rep;
    assert '_' !in t;
    EscapeUnderscoresSafeUnchanged(t, false);
  }

  lemma TildeLateStages(x: string, y: string, rep: string)
    requires PlainText(x) && PlainText(y) && x != [] && !IsSpace(x[0])
    requires y == [] || !IsSpace(y[|y| - 1])
    requires InertReplacement(rep)
    ensures Rewrite(x + rep + y) == x + rep + y
    ensures Tidy(x + rep + y) == x + rep + y
  {
    var t := x + rep + y;
    forall i | 0 <= i < |t| ensures t[i] == '\\' ==> i + 1 < |t| && t[i + 1] == 't' {
      if i < |x| {
        assert t[i] == x[i];
      } else if i < |x| + |rep| {
        assert t[i] == rep[i - |x|];
        if rep[i - |x|] == '\\' {
          assert t[i + 1] == rep[i - |x| + 1];
        }
      } else {
        assert t[i] == y[i - |x| - |rep|];
      }
    }
    AbsentByPair(t, DegreeMacro);
    AbsentByPair(t, TikzBegin);
    assert DegreeSign !in x && DegreeSign !in y;
    RewriteUnchanged(t);
    assert '\n' !in x && '$' !in x && '\n' !in y && '$' !in y;
    TidyUnchanged(t);
  }

  /** Between plain text, a `~` becomes whatever the rule replaces it by. */
  lemma TildeBetweenPlainText(x: string, y: string, rep: string)
    requires PlainText(x) && PlainText(y) && x != [] && !IsSpace(x[0])
    requires y == [] || !IsSpace(y[|y| - 1])
    requires InertReplacement(rep)
    ensures SanitizeWith(x + "~" + y, rep) == x + rep + y
  {
    var s := x + "~" + y;
    assert s[0] == x[0];
    TildeEarlyStages(x, y, rep);
    TildeLateStages(x, y, rep);
    SanitizeStages(s, rep, x + rep + y, x + rep + y);
  }

  /** With the corrected template, `a~b` becomes `a\textasciitilde{}b`. */
  lemma TildeEscaped(x: string, y: string)
    requires PlainText(x) && PlainText(y) && x != [] && !IsSpace(x[0])
    requires y == [] || !IsSpace(y[|y| - 1])
    ensures Sanitize(x + "~" + y) == x + TildeEscape + y
  {
    TildeEscapeIsInert();
    TildeBetweenPlainText(x, y, TildeEscape);
  }

  /** The macro's name holds nothing the cleanup acts on. */
  lemma TildeWordIsPlain()
    ensures PlainText(TildeWord) && !IsSpace(TildeWord[|TildeWord| - 1])
  {
  }

  /** A lead character followed by plain text is an inert replacement when
      the lead is a tab, or a backslash starting `\t`. */
  lemma InertWithLead(lead: char, x: string)
    requires lead == '\t' || (lead == '\\' && x != [] && x[0] == 't')
    requires PlainText(x) && x != [] && !IsSpace(x[|x| - 1])
    ensures InertReplacement([lead] + x)
  {
    var r := [lead] + x;
    forall i | 1 <= i < |r| ensures r[i] == x[i - 1] && IsPlainChar(r[i]) {
    }
  }

  lemma TildeEscapeIsInert()
    ensures InertReplacement(TildeEscape)
  {
    TildeWordIsPlain();
    var x := ['t'] + TildeWord;
    forall i | 1 <= i < |x| ensures x[i] == TildeWord[i - 1] && IsPlainChar(x[i]) {
    }
    assert TildeEscape == ['\\'] + x;
    InertWithLead('\\', x);
  }

  lemma TabTildeIsInert()
    ensures InertReplacement(['\t'] + TildeWord)
    ensures '\\' !in ['\t'] + TildeWord
  {
    TildeWordIsPlain();
    InertWithLead('\t', TildeWord);
  }

  lemma TildeAsWrittenIsInert()
    ensures InertReplacement(TildeAsWritten())
    ensures '\\' !in TildeAsWritten()
  {
    TabTildeIsInert();
  }

  /** As written, the template's `\t` becomes a tab: `a~b` comes out as `a`,
      a tab, `extasciitilde{}` and `b`. */
  lemma TildeAsWrittenGivesTab(x: string, y: string)
    requires PlainText(x) && PlainText(y) && x != [] && !IsSpace(x[0])
    requires y == [] || !IsSpace(y[|y| - 1])
    ensures SanitizeAsWritten(x + "~" + y) == x + TildeAsWritten() + y
  {
    TildeAsWrittenIsInert();
    TildeBetweenPlainText(x, y, TildeAsWritten());
  }

  /** As written, no backslash is left of the macro. */
  lemma TildeAsWrittenLosesBackslash(x: string, y: string)
    requires PlainText(x) && PlainText(y) && x != [] && !IsSpace(x[0])
    requires y == [] || !IsSpace(y[|y| - 1])
    ensures '\\' !in SanitizeAsWritten(x + "~" + y)
  {
    TildeAsWrittenGivesTab(x, y);
    TildeAsWrittenIsInert();
    assert '\\' !in x && '\\' !in y;
  }
}
