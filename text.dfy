/** String operations of the Python runtime that the LaTeX pipeline relies on:
    whitespace classification, `str.strip`, `str.count`, substring search,
    `str.replace`, non-greedy delimited `re.sub`, `str.join` and integer
    formatting. Strings are sequences of Unicode scalar values. */
module Text {
  import opened Wrappers

  /** Python's `str.isspace()`, which is also what `\s` matches in a `str`
      regular expression and what `str.strip()` removes. */
  predicate IsSpace(c: char) {
    || c == ' '
    || ('\t' <= c <= '\r')
    || ('\U{1C}' <= c <= '\U{1F}')
    || c == '\U{85}' || c == '\U{A0}' || c == '\U{1680}'
    || ('\U{2000}' <= c <= '\U{200A}')
    || c == '\U{2028}' || c == '\U{2029}' || c == '\U{202F}' || c == '\U{205F}' || c == '\U{3000}'
  }

  predicate AllSpace(s: string) {
    forall i :: 0 <= i < |s| ==> IsSpace(s[i])
  }

  /** Length of the longest prefix of `s` made of whitespace. */
  function SpaceRun(s: string): (n: nat)
    ensures n <= |s|
    ensures forall i :: 0 <= i < n ==> IsSpace(s[i])
    ensures n == |s| || !IsSpace(s[n])
  {
    if s == [] || !IsSpace(s[0]) then 0 else 1 + SpaceRun(s[1..])
  }

  function TrimStart(s: string): (r: string)
    ensures |r| <= |s| && r == s[|s| - |r|..]
    ensures forall i :: 0 <= i < |s| - |r| ==> IsSpace(s[i])
    ensures r == [] || !IsSpace(r[0])
  {
    if s != [] && IsSpace(s[0]) then TrimStart(s[1..]) else s
  }

  function TrimEnd(s: string): (r: string)
    ensures |r| <= |s| && r == s[..|r|]
    ensures forall i :: |r| <= i < |s| ==> IsSpace(s[i])
    ensures r == [] || !IsSpace(r[|r| - 1])
  {
    if s != [] && IsSpace(s[|s| - 1]) then TrimEnd(s[..|s| - 1]) else s
  }

  /** Neither starts nor ends with whitespace. */
  predicate Trimmed(s: string) {
    s == [] || (!IsSpace(s[0]) && !IsSpace(s[|s| - 1]))
  }

  /** Python's `str.strip()`: the longest slice of `s` that neither starts nor
      ends with whitespace, found by dropping whitespace from both ends. */
  function Strip(s: string): (r: string)
    ensures r == [] <==> AllSpace(s)
    ensures Trimmed(r)
    ensures forall c :: c in r ==> c in s
    ensures exists i, j :: 0 <= i <= j <= |s| && r == s[i..j] && AllSpace(s[..i]) && AllSpace(s[j..])
  {
    TrimmedEmpty(s);
    TrimmedKeepsChars(s);
    SliceBetweenSpaces(s, TrimStart(s), TrimEnd(TrimStart(s)));
    TrimEnd(TrimStart(s))
  }

  /** Trimming leaves nothing exactly when there was nothing but whitespace. */
  lemma TrimmedEmpty(s: string)
    ensures TrimEnd(TrimStart(s)) == [] <==> AllSpace(s)
  {
    var t := TrimStart(s);
    if t == [] {
      assert TrimEnd(t) == [];
    } else {
      assert t[0] == s[|s| - |t|];
      assert !IsSpace(t[0]);
    }
  }

  /** Trimming keeps only characters of the input. */
  lemma TrimmedKeepsChars(s: string)
    ensures forall c :: c in TrimEnd(TrimStart(s)) ==> c in s
  {
    var t := TrimStart(s);
    var r := TrimEnd(t);
    var a := |s| - |t|;
    forall k | 0 <= k < |r| ensures r[k] == s[a + k] {
      assert r[k] == t[k];
    }
    forall c | c in r ensures c in s {
      var k :| 0 <= k < |r| && r[k] == c;
      assert s[a + k] == c;
    }
  }

  /** A prefix of a suffix of `s`, with whitespace dropped on both sides, is
      a slice of `s` between whitespace. */
  lemma SliceBetweenSpaces(s: string, t: string, r: string)
    requires |t| <= |s| && t == s[|s| - |t|..]
    requires forall i :: 0 <= i < |s| - |t| ==> IsSpace(s[i])
    requires |r| <= |t| && r == t[..|r|]
    requires forall i :: |r| <= i < |t| ==> IsSpace(t[i])
    ensures exists i, j :: 0 <= i <= j <= |s| && r == s[i..j] && AllSpace(s[..i]) && AllSpace(s[j..])
  {
    var i := |s| - |t|;
    var j := i + |r|;
    assert r == s[i..j];
    assert AllSpace(s[..i]);
    forall k | 0 <= k < |s| - j ensures IsSpace(s[j..][k]) {
      assert s[j..][k] == t[|r| + k];
    }
  }

  /** Text that already neither starts nor ends with whitespace is kept. */
  lemma StripUnchanged(s: string)
    requires s == [] || (!IsSpace(s[0]) && !IsSpace(s[|s| - 1]))
    ensures Strip(s) == s
  {
    assert TrimStart(s) == s;
    assert TrimEnd(s) == s;
  }

  /** Python's `str.count` for one character. */
  function Count(s: string, c: char): (n: nat)
    ensures n == multiset(s)[c]
  {
    if s == [] then 0
    else
      assert s == [s[0]] + s[1..];
      (if s[0] == c then 1 else 0) + Count(s[1..], c)
  }

  /** `pat` occurs in `s` starting at index `j`. */
  predicate OccursAt(s: string, pat: string, j: nat) {
    j + |pat| <= |s| && s[j..j + |pat|] == pat
  }

  lemma OccursAtTail(s: string, pat: string, j: nat)
    requires s != [] && j >= 1
    ensures OccursAt(s, pat, j) <==> OccursAt(s[1..], pat, j - 1)
  {
    if j + |pat| <= |s| {
      assert s[1..][j - 1..j - 1 + |pat|] == s[j..j + |pat|];
    }
  }

  /** Index of the first occurrence of `pat` in `s` (Python's `str.find`,
      with `None` for -1). */
  function IndexOf(s: string, pat: string): (r: Option<nat>)
    ensures r.Some? ==> OccursAt(s, pat, r.value)
    ensures r.Some? ==> forall j: nat :: j < r.value ==> !OccursAt(s, pat, j)
    ensures r.None? ==> forall j: nat :: !OccursAt(s, pat, j)
    decreases |s|
  {
    if OccursAt(s, pat, 0) then Some(0)
    else if s == [] then None
    else
      var rest := IndexOf(s[1..], pat);
      assert forall j: nat :: j >= 1 ==> (OccursAt(s, pat, j) <==> OccursAt(s[1..], pat, j - 1)) by {
        forall j: nat | j >= 1 ensures OccursAt(s, pat, j) <==> OccursAt(s[1..], pat, j - 1) {
          OccursAtTail(s, pat, j);
        }
      }
      match rest
      case Some(k) => Some(k + 1)
      case None => None
  }

  /** Python's `str.replace(pat, rep)` and `re.sub` of a literal pattern: the
      leftmost occurrences of `pat` are replaced, scanning left to right, and
      the text a replacement produced is never rescanned. */
  function ReplaceAll(s: string, pat: string, rep: string): (r: string)
    requires pat != []
    ensures forall c :: c in r ==> c in s || c in rep
    decreases |s|
  {
    if s == [] then []
    else if OccursAt(s, pat, 0) then rep + ReplaceAll(s[|pat|..], pat, rep)
    else [s[0]] + ReplaceAll(s[1..], pat, rep)
  }

  /** Replacing a pattern that does not occur changes nothing. */
  lemma {:induction false} ReplaceAllAbsent(s: string, pat: string, rep: string)
    requires pat != []
    requires forall j: nat :: !OccursAt(s, pat, j)
    ensures ReplaceAll(s, pat, rep) == s
    decreases |s|
  {
    if s != [] {
      assert !OccursAt(s, pat, 0);
      forall j: nat ensures !OccursAt(s[1..], pat, j) {
        OccursAtTail(s, pat, j + 1);
      }
      ReplaceAllAbsent(s[1..], pat, rep);
    }
  }

  /** Deleting a pattern never lengthens the text. */
  lemma {:induction false} ReplaceAllShrinks(s: string, pat: string)
    requires pat != []
    ensures |ReplaceAll(s, pat, "")| <= |s|
    decreases |s|
  {
    if s != [] {
      if OccursAt(s, pat, 0) {
        ReplaceAllShrinks(s[|pat|..], pat);
      } else {
        ReplaceAllShrinks(s[1..], pat);
      }
    }
  }

  /** A prefix where no occurrence starts is copied as it is. */
  lemma {:induction false} ReplaceAllSkip(x: string, rest: string, pat: string, rep: string)
    requires pat != []
    requires forall j :: 0 <= j < |x| ==> !OccursAt(x + rest, pat, j)
    ensures ReplaceAll(x + rest, pat, rep) == x + ReplaceAll(rest, pat, rep)
    decreases |x|
  {
    if x != [] {
      var s := x + rest;
      assert s[1..] == x[1..] + rest;
      forall j | 0 <= j < |x| - 1 ensures !OccursAt(x[1..] + rest, pat, j) {
        OccursAtTail(s, pat, j + 1);
      }
      ReplaceAllSkip(x[1..], rest, pat, rep);
      assert !OccursAt(s, pat, 0);
      assert ReplaceAll(s, pat, rep) == [x[0]] + ReplaceAll(s[1..], pat, rep);
      assert x == [x[0]] + x[1..];
    } else {
      assert x + rest == rest;
    }
  }

  /** A one-character pattern is replaced everywhere: none is left unless the
      replacement brings it back. */
  lemma {:induction false} ReplaceAllRemovesChar(s: string, c: char, rep: string)
    requires c !in rep
    ensures c !in ReplaceAll(s, [c], rep)
    decreases |s|
  {
    if s != [] {
      ReplaceAllRemovesChar(s[1..], c, rep);
      if !OccursAt(s, [c], 0) {
        assert s[0] != c by { assert s[0..1] == [s[0]]; }
      }
    }
  }

  /** Python's `re.sub(open + ".*?" + close, rep, s, flags=re.DOTALL)` for
      literal `open` and `close`: a span starts at the leftmost `open` that has
      a `close` somewhere after it and ends at the FIRST such `close`. */
  function ReplaceSpans(s: string, open: string, close: string, rep: string): (r: string)
    requires open != []
    ensures forall c :: c in r ==> c in s || c in rep
    decreases |s|
  {
    if s == [] then []
    else if OccursAt(s, open, 0) && IndexOf(s[|open|..], close).Some? then
      var k := IndexOf(s[|open|..], close).value;
      rep + ReplaceSpans(s[|open| + k + |close|..], open, close, rep)
    else [s[0]] + ReplaceSpans(s[1..], open, close, rep)
  }

  /** A pattern whose first character is missing from `s` does not occur. */
  lemma AbsentFirstChar(s: string, pat: string)
    requires pat != [] && pat[0] !in s
    ensures forall j: nat :: !OccursAt(s, pat, j)
  {
    forall j: nat ensures !OccursAt(s, pat, j) {
      if j + |pat| <= |s| {
        assert s[j..j + |pat|][0] == s[j];
      }
    }
  }

  /** In one character followed by `x`, a pattern can only start at the front
      when its first character is missing from `x`. */
  lemma AbsentAfterLead(a: char, x: string, pat: string)
    requires |pat| >= 2 && pat[0] !in x
    requires x == [] || x[0] != pat[1]
    ensures forall j: nat :: !OccursAt([a] + x, pat, j)
  {
    var s := [a] + x;
    forall j: nat ensures !OccursAt(s, pat, j) {
      if j + |pat| <= |s| {
        if j == 0 {
          assert s[..|pat|][1] == x[0];
        } else {
          assert s[j..j + |pat|][0] == x[j - 1];
        }
      }
    }
  }

  /** A pattern that differs from `s` at some offset does not occur there. */
  lemma DiffersAt(s: string, pat: string, j: nat, d: nat)
    requires d < |pat|
    requires j + d < |s| ==> s[j + d] != pat[d]
    ensures !OccursAt(s, pat, j)
  {
    if j + |pat| <= |s| {
      assert s[j..j + |pat|][d] == s[j + d];
    }
  }

  /** A pattern occurs nowhere when it is missing at every place where its
      first character appears. */
  lemma AbsentExceptAt(s: string, pat: string, ks: set<nat>)
    requires pat != []
    requires forall k :: k in ks ==> !OccursAt(s, pat, k)
    requires forall i :: 0 <= i < |s| && s[i] == pat[0] ==> i in ks
    ensures forall j: nat :: !OccursAt(s, pat, j)
  {
    forall j: nat | j !in ks ensures !OccursAt(s, pat, j) {
      DiffersAt(s, pat, j, 0);
    }
  }

  /** A pattern occurs nowhere when its first character is never followed by
      its second. */
  lemma AbsentByPair(s: string, pat: string)
    requires |pat| >= 2
    requires forall i :: 0 <= i < |s| && s[i] == pat[0] ==> i + 1 < |s| && s[i + 1] != pat[1]
    ensures forall j: nat :: !OccursAt(s, pat, j)
  {
    forall j: nat ensures !OccursAt(s, pat, j) {
      if j + |pat| <= |s| {
        if s[j] == pat[0] {
          DiffersAt(s, pat, j, 1);
        } else {
          DiffersAt(s, pat, j, 0);
        }
      }
    }
  }

  /** Replacing spans whose opening delimiter does not occur changes nothing. */
  lemma {:induction false} ReplaceSpansAbsent(s: string, open: string, close: string, rep: string)
    requires open != []
    requires forall j: nat :: !OccursAt(s, open, j)
    ensures ReplaceSpans(s, open, close, rep) == s
    decreases |s|
  {
    if s != [] {
      assert !OccursAt(s, open, 0);
      forall j: nat ensures !OccursAt(s[1..], open, j) {
        OccursAtTail(s, open, j + 1);
      }
      ReplaceSpansAbsent(s[1..], open, close, rep);
    }
  }

  /** A delimiter whose last character appears nowhere else in it cannot
      overlap itself, so when `body` does not contain `close` the first
      `close` in `body + close + rest` is the one right after `body`. */
  lemma FirstCloseAfterBody(body: string, close: string, rest: string)
    requires close != []
    requires forall k :: 0 <= k < |close| - 1 ==> close[k] != close[|close| - 1]
    requires forall j: nat :: !OccursAt(body, close, j)
    ensures IndexOf(body + close + rest, close) == Some(|body|)
  {
    var s := body + close + rest;
    assert s[|body|..|body| + |close|] == close;
    forall j: nat | j < |body| ensures !OccursAt(s, close, j) {
      if j + |close| <= |body| {
        assert s[j..j + |close|] == body[j..j + |close|];
        assert !OccursAt(body, close, j);
      } else {
        var m := j + |close| - 1 - |body|;
        assert s[j..j + |close|][|close| - 1] == close[m] != close[|close| - 1];
      }
    }
    assert OccursAt(s, close, |body|);
  }

  /** A span whose body holds no `close` is replaced by exactly one `rep`,
      whatever the length of the body. */
  lemma ReplaceSpansBlock(body: string, open: string, close: string, rep: string, rest: string)
    requires open != [] && close != []
    requires forall k :: 0 <= k < |close| - 1 ==> close[k] != close[|close| - 1]
    requires forall j: nat :: !OccursAt(body, close, j)
    ensures ReplaceSpans(open + body + close + rest, open, close, rep)
         == rep + ReplaceSpans(rest, open, close, rep)
  {
    var s := open + body + close + rest;
    assert s[..|open|] == open;
    assert s[|open|..] == body + close + rest;
    FirstCloseAfterBody(body, close, rest);
    assert s[|open| + |body| + |close|..] == rest;
  }

  /** A prefix where no `open` starts is copied as it is, and the spans are
      replaced in what follows. */
  lemma {:induction false} ReplaceSpansSkip(x: string, rest: string, open: string, close: string, rep: string)
    requires open != []
    requires forall j :: 0 <= j < |x| ==> !OccursAt(x + rest, open, j)
    ensures ReplaceSpans(x + rest, open, close, rep) == x + ReplaceSpans(rest, open, close, rep)
    decreases |x|
  {
    if x != [] {
      var s := x + rest;
      assert s[1..] == x[1..] + rest;
      forall j | 0 <= j < |x| - 1 ensures !OccursAt(x[1..] + rest, open, j) {
        OccursAtTail(s, open, j + 1);
      }
      ReplaceSpansSkip(x[1..], rest, open, close, rep);
      assert !OccursAt(s, open, 0);
      assert x == [x[0]] + x[1..];
    } else {
      assert x + rest == rest;
    }
  }

  /** The first span after a prefix where no `open` starts is replaced by
      exactly one `rep`, and the prefix is kept. */
  lemma ReplaceSpansBlockAfter(x: string, body: string, open: string, close: string, rep: string, rest: string)
    requires open != [] && close != []
    requires forall k :: 0 <= k < |close| - 1 ==> close[k] != close[|close| - 1]
    requires forall j :: 0 <= j < |x| ==> !OccursAt(x + open + body + close + rest, open, j)
    requires forall j: nat :: !OccursAt(body, close, j)
    ensures ReplaceSpans(x + open + body + close + rest, open, close, rep)
         == x + rep + ReplaceSpans(rest, open, close, rep)
  {
    var block := open + body + close + rest;
    var s := x + open + body + close + rest;
    assert s == x + block;
    assert forall j :: 0 <= j < |x| ==> !OccursAt(x + block, open, j);
    var tail := ReplaceSpans(rest, open, close, rep);
    calc {
      ReplaceSpans(s, open, close, rep);
    == { ReplaceSpansSkip(x, block, open, close, rep); }
      x + ReplaceSpans(block, open, close, rep);
    == { ReplaceSpansBlock(body, open, close, rep, rest); }
      x + (rep + tail);
    ==
      x + rep + tail;
    }
  }

  /** Python's `sep.join(xs)`. */
  function Join(xs: seq<string>, sep: string): (r: string)
    decreases |xs|
  {
    if xs == [] then []
    else if |xs| == 1 then xs[0]
    else Join(xs[..|xs| - 1], sep) + sep + xs[|xs| - 1]
  }

  /** Where the `k`-th element starts in `Join(xs, sep)`. */
  function Offset(xs: seq<string>, sep: string, k: nat): nat
    requires k <= |xs|
  {
    if k == 0 then 0 else Offset(xs, sep, k - 1) + |xs[k - 1]| + |sep|
  }

  lemma {:induction false} OffsetPrefix(xs: seq<string>, sep: string, n: nat, k: nat)
    requires k <= n <= |xs|
    ensures Offset(xs[..n], sep, k) == Offset(xs, sep, k)
  {
    if k > 0 {
      OffsetPrefix(xs, sep, n, k - 1);
      assert xs[..n][k - 1] == xs[k - 1];
    }
  }

  /** Offsets depend only on the lengths of the elements before them. */
  lemma {:induction false} OffsetsAgree(xs: seq<string>, ys: seq<string>, sep: string, k: nat)
    requires k <= |xs| && k <= |ys|
    requires forall i | 0 <= i < k :: |xs[i]| == |ys[i]|
    ensures Offset(xs, sep, k) == Offset(ys, sep, k)
  {
    if k > 0 {
      OffsetsAgree(xs, ys, sep, k - 1);
    }
  }

  lemma {:induction false} JoinLength(xs: seq<string>, sep: string)
    requires xs != []
    ensures |Join(xs, sep)| + |sep| == Offset(xs, sep, |xs|)
    decreases |xs|
  {
    var n := |xs|;
    if n > 1 {
      JoinLength(xs[..n - 1], sep);
      OffsetPrefix(xs, sep, n - 1, n - 1);
    }
  }

  /** The `k`-th element sits at its offset in the joined text. */
  lemma {:induction false} JoinElementAt(xs: seq<string>, sep: string, k: nat)
    requires k < |xs|
    ensures Offset(xs, sep, k) + |xs[k]| <= |Join(xs, sep)|
    ensures Join(xs, sep)[Offset(xs, sep, k)..Offset(xs, sep, k) + |xs[k]|] == xs[k]
    decreases |xs|
  {
    var n := |xs|;
    if n > 1 {
      var init := xs[..n - 1];
      var ji := Join(init, sep);
      assert Join(xs, sep) == ji + (sep + xs[n - 1]);
      JoinLength(init, sep);
      OffsetPrefix(xs, sep, n - 1, k);
      if k < n - 1 {
        JoinElementAt(init, sep, k);
        assert init[k] == xs[k];
        PrefixSlice(ji, sep + xs[n - 1], Offset(xs, sep, k), Offset(xs, sep, k) + |xs[k]|);
      } else {
        assert Join(xs, sep) == ji + sep + xs[k];
      }
    }
  }

  /** Between the `k`-th and the next element stands exactly one `sep`. */
  lemma {:induction false} JoinSeparatorAt(xs: seq<string>, sep: string, k: nat)
    requires k + 1 < |xs|
    ensures Offset(xs, sep, k) + |xs[k]| <= Offset(xs, sep, k + 1) <= |Join(xs, sep)|
    ensures Join(xs, sep)[Offset(xs, sep, k) + |xs[k]|..Offset(xs, sep, k + 1)] == sep
    decreases |xs|
  {
    var n := |xs|;
    var init := xs[..n - 1];
    var ji := Join(init, sep);
    assert Join(xs, sep) == ji + (sep + xs[n - 1]);
    JoinLength(init, sep);
    OffsetPrefix(xs, sep, n - 1, k);
    OffsetPrefix(xs, sep, n - 1, k + 1);
    assert init[k] == xs[k];
    if k + 1 < n - 1 {
      JoinSeparatorAt(init, sep, k);
      PrefixSlice(ji, sep + xs[n - 1], Offset(xs, sep, k) + |xs[k]|, Offset(xs, sep, k + 1));
    } else {
      MiddleSlice(ji, sep, [], xs[n - 1]);
      assert ji + (sep + []) + xs[n - 1] == Join(xs, sep);
    }
  }

  /** A slice inside the first part of `a + b` is a slice of `a`. */
  lemma PrefixSlice(a: string, b: string, i: nat, j: nat)
    requires i <= j <= |a|
    ensures (a + b)[i..j] == a[i..j]
  {
    assert forall m | 0 <= m < j - i :: (a + b)[i..j][m] == a[i + m];
  }

  /** A slice of a slice is a slice of the whole. */
  lemma SliceOfSlice(s: string, lo: nat, hi: nat, a: nat, b: nat)
    requires lo <= hi <= |s| && a <= b <= hi - lo
    ensures s[lo..hi][a..b] == s[lo + a..lo + b]
  {
    forall i | 0 <= i < b - a ensures s[lo..hi][a..b][i] == s[lo + a..lo + b][i] {
      assert s[lo..hi][a + i] == s[lo + a + i];
    }
  }

  /** A prefix of a prefix is a prefix of the whole. */
  lemma PrefixOfPrefix(s: string, n: nat, m: nat)
    requires m <= n <= |s|
    ensures s[..n][..m] == s[..m]
  {
    assert forall i | 0 <= i < m :: s[..n][..m][i] == s[i];
  }

  /** The leading part of `a + b + c` can be cut back out. */
  lemma LeadingPart(a: string, b: string, c: string)
    ensures |a| <= |a + b + c| && (a + b + c)[..|a|] == a
  {
    assert (a + b + c)[..|a|] == (a + (b + c))[..|a|];
  }

  /** The middle part of `a + (b + c) + d` can be cut back out. */
  lemma MiddleSlice(a: string, b: string, c: string, d: string)
    ensures |a| + |b| <= |a + (b + c) + d|
    ensures (a + (b + c) + d)[..|a|] == a
    ensures (a + (b + c) + d)[|a|..|a| + |b|] == b
  {
    var s := a + (b + c) + d;
    assert forall i | 0 <= i < |b| :: s[|a| + i] == b[i];
  }

  /** The pieces of `a + x + m + y + t` can be cut back out. */
  lemma SpliceLayout(a: string, x: string, m: string, y: string, t: string)
    ensures var p := a + x + m + y + t;
      && |p| == |a| + |x| + |m| + |y| + |t|
      && p[..|a|] == a
      && p[|a|..|a| + |x|] == x
      && p[|a| + |x| + |m|..|a| + |x| + |m| + |y|] == y
      && p[|p| - |t|..] == t
  {
  }

  /** A slice of the middle of `pre + m + p1 + p2` is a slice of `m`. */
  lemma SliceInside(pre: string, m: string, p1: string, p2: string, a: nat, b: nat)
    requires a <= b <= |m|
    ensures (pre + m + p1 + p2)[|pre| + a..|pre| + b] == m[a..b]
  {
    var d := pre + m + p1 + p2;
    forall i | 0 <= i < b - a ensures d[|pre| + a..|pre| + b][i] == m[a..b][i] {
      assert d[|pre| + a + i] == m[a + i];
    }
  }

  /** Inside `pre + Join(xs, sep) + p1 + p2`, each element sits after `pre`
      at its offset, and one `sep` follows it when it is not the last. */
  lemma JoinedElementInside(pre: string, xs: seq<string>, sep: string, p1: string, p2: string, k: nat)
    requires k < |xs|
    ensures var d := pre + Join(xs, sep) + p1 + p2;
      var at := |pre| + Offset(xs, sep, k);
      && at + |xs[k]| <= |d|
      && d[at..at + |xs[k]|] == xs[k]
      && (k + 1 < |xs| ==> at + |xs[k]| + |sep| <= |d| && d[at + |xs[k]|..at + |xs[k]| + |sep|] == sep)
  {
    var j := Join(xs, sep);
    var d := pre + j + p1 + p2;
    var o := Offset(xs, sep, k);
    var e := o + |xs[k]|;
    assert |pre| + e <= |d| && d[|pre| + o..|pre| + e] == xs[k] by {
      JoinElementAt(xs, sep, k);
      SliceInside(pre, j, p1, p2, o, e);
    }
    if k + 1 < |xs| {
      assert |pre| + e + |sep| <= |d| && d[|pre| + e..|pre| + e + |sep|] == sep by {
        var o' := Offset(xs, sep, k + 1);
        JoinSeparatorAt(xs, sep, k);
        assert o' == e + |sep|;
        SliceInside(pre, j, p1, p2, e, o');
      }
    }
  }

  function DigitChar(d: nat): (c: char)
    requires d < 10
    ensures '0' <= c <= '9'
  {
    ('0' as int + d) as char
  }

  /** Python's `str(n)` for a natural number. */
  function NatToString(n: nat): (r: string)
    ensures r != []
    ensures forall i :: 0 <= i < |r| ==> '0' <= r[i] <= '9'
  {
    if n < 10 then [DigitChar(n)] else NatToString(n / 10) + [DigitChar(n % 10)]
  }

  /** Value of a string of decimal digits (Python's `int(s)`). */
  function DigitsValue(s: string): nat
    requires forall i :: 0 <= i < |s| ==> '0' <= s[i] <= '9'
  {
    if s == [] then 0
    else DigitsValue(s[..|s| - 1]) * 10 + (s[|s| - 1] as int - '0' as int)
  }

  /** `int(str(n)) == n`: the decimal rendering loses nothing. */
  lemma {:induction false} NatToStringRoundTrip(n: nat)
    ensures DigitsValue(NatToString(n)) == n
  {
    if n >= 10 {
      NatToStringRoundTrip(n / 10);
      var r := NatToString(n);
      assert r[..|r| - 1] == NatToString(n / 10);
    }
  }

  /** Python's `str(n)` (or an f-string field) for any integer. */
  function IntToString(n: int): (r: string)
    ensures r != []
    ensures r[0] == '-' <==> n < 0
    ensures n < 0 ==> r[1..] == NatToString(-n)
    ensures n >= 0 ==> r == NatToString(n)
  {
    if n < 0 then "-" + NatToString(-n) else NatToString(n)
  }
}
