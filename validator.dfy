/** The syntax check run on every transcribed page (latex.py:171-191): three
    counting checks in a fixed order, the first failure deciding the verdict. */
module Validator {
  import opened Wrappers
  import opened Text

  /** The pair `(is_valid, message)` the source returns. */
  datatype Verdict = Verdict(valid: bool, message: string)

  const ValidMessage: string := "Syntax appears valid"
  const DollarMessage: string := "Unbalanced math delimiters ($)"
  const BackslashMessage: string := "Too many consecutive backslashes"
  const TripleBackslash: string := @"\\\"

  /** The failure message for `k` more `{` than `}`; `k` keeps its sign, so a
      surplus of closing braces reads "-1 extra opening braces". */
  function BraceMessage(k: int): string {
    "Unbalanced braces: " + IntToString(k) + " extra opening braces"
  }

  /** More `{` than `}`, as a signed number. */
  function BraceSurplus(s: string): int {
    multiset(s)['{'] as int - multiset(s)['}'] as int
  }

  /** A brace message is never one of the other three. */
  lemma BraceMessageIsDistinct(k: int)
    ensures BraceMessage(k) != ValidMessage
    ensures BraceMessage(k) != DollarMessage
    ensures BraceMessage(k) != BackslashMessage
  {
    var m := BraceMessage(k);
    assert m[0] == 'U' && m[11] == 'b';
    assert ValidMessage[0] != 'U' && DollarMessage[11] != 'b' && BackslashMessage[0] != 'U';
  }

  /** Three backslashes in a row somewhere in `s`. */
  predicate HasTripleBackslash(s: string) {
    exists i :: 0 <= i < |s| - 2 && s[i] == '\\' && s[i + 1] == '\\' && s[i + 2] == '\\'
  }

  /** The substring test finds three backslashes exactly when some position
      starts three in a row. */
  lemma TripleBackslashSearch(s: string)
    ensures IndexOf(s, TripleBackslash).Some? <==> HasTripleBackslash(s)
  {
    var r := IndexOf(s, TripleBackslash);
    if r.Some? {
      var i := r.value;
      assert s[i..i + 3] == TripleBackslash;
      assert s[i] == s[i..i + 3][0] && s[i + 1] == s[i..i + 3][1] && s[i + 2] == s[i..i + 3][2];
    }
    if HasTripleBackslash(s) {
      var i :| 0 <= i < |s| - 2 && s[i] == '\\' && s[i + 1] == '\\' && s[i + 2] == '\\';
      assert s[i..i + 3] == TripleBackslash;
      assert OccursAt(s, TripleBackslash, i);
    }
  }

  /** The checks in source order: braces, then dollars, then backslashes. */
  function Validate(s: string): (r: Verdict)
    ensures r.valid <==>
      multiset(s)['{'] == multiset(s)['}'] && multiset(s)['$'] % 2 == 0 && !HasTripleBackslash(s)
    ensures r.valid ==> r.message == ValidMessage
    ensures BraceSurplus(s) != 0 ==> r.message == BraceMessage(BraceSurplus(s))
    ensures multiset(s)['{'] == multiset(s)['}'] && multiset(s)['$'] % 2 != 0 ==>
      r.message == DollarMessage
    ensures multiset(s)['{'] == multiset(s)['}'] && multiset(s)['$'] % 2 == 0 && HasTripleBackslash(s) ==>
      r.message == BackslashMessage
  {
    TripleBackslashSearch(s);
    var excess := Count(s, '{') - Count(s, '}');
    if excess != 0 then Verdict(false, BraceMessage(excess))
    else if Count(s, '$') % 2 != 0 then Verdict(false, DollarMessage)
    else if IndexOf(s, TripleBackslash).Some? then Verdict(false, BackslashMessage)
    else Verdict(true, ValidMessage)
  }

  /** The message alone tells which check decided the verdict. */
  lemma MessageNamesTheCheck(s: string)
    ensures Validate(s).message == ValidMessage <==> Validate(s).valid
    ensures Validate(s).message == DollarMessage <==>
      BraceSurplus(s) == 0 && multiset(s)['$'] % 2 != 0
    ensures Validate(s).message == BackslashMessage <==>
      BraceSurplus(s) == 0 && multiset(s)['$'] % 2 == 0 && HasTripleBackslash(s)
    ensures Validate(s).message == BraceMessage(BraceSurplus(s)) <==> BraceSurplus(s) != 0
  {
    BraceMessageIsDistinct(BraceSurplus(s));
    assert ValidMessage[0] != DollarMessage[0] && ValidMessage[0] != BackslashMessage[0];
    assert DollarMessage[0] != BackslashMessage[0];
  }

  /** The surplus in a brace message can be read back, its sign included. */
  lemma BraceSurplusReadsBack(k: int)
    ensures BraceMessage(k)[19..|BraceMessage(k)| - 21] == IntToString(k)
    ensures k >= 0 ==> DigitsValue(BraceMessage(k)[19..|BraceMessage(k)| - 21]) == k
    ensures k < 0 ==> BraceMessage(k)[19] == '-' && DigitsValue(BraceMessage(k)[20..|BraceMessage(k)| - 21]) == -k
  {
    var m := BraceMessage(k);
    var d := IntToString(k);
    assert m == "Unbalanced braces: " + d + " extra opening braces";
    assert m[19..|m| - 21] == d;
    if k >= 0 {
      NatToStringRoundTrip(k);
    } else {
      assert m[20..|m| - 21] == d[1..];
      NatToStringRoundTrip(-k);
    }
  }

  lemma BalancedExample()
    ensures Validate("{a}") == Verdict(true, ValidMessage)
  {
    assert multiset("{a}")['{'] == 1 == multiset("{a}")['}'];
    assert multiset("{a}")['$'] == 0;
  }

  lemma OpenBraceExample()
    ensures Validate("{a") == Verdict(false, "Unbalanced braces: 1 extra opening braces")
  {
    assert BraceSurplus("{a") == 1;
    assert IntToString(1) == "1" by {
      assert NatToString(1) == "1";
    }
    assert "Unbalanced braces: " + "1" == "Unbalanced braces: 1";
    assert "Unbalanced braces: 1" + " extra opening braces" == "Unbalanced braces: 1 extra opening braces";
  }

  lemma NegativeSurplusMessage()
    ensures BraceMessage(-1) == "Unbalanced braces: -1 extra opening braces"
  {
    assert IntToString(-1) == "-1" by {
      assert NatToString(1) == "1";
    }
    assert "Unbalanced braces: " + "-1" == "Unbalanced braces: -1";
    assert "Unbalanced braces: -1" + " extra opening braces" == "Unbalanced braces: -1 extra opening braces";
  }

  lemma CloseBraceExample()
    ensures Validate("a}") == Verdict(false, "Unbalanced braces: -1 extra opening braces")
  {
    assert BraceSurplus("a}") == -1;
    NegativeSurplusMessage();
  }

  lemma DollarExample()
    ensures Validate("$x") == Verdict(false, DollarMessage)
  {
    assert BraceSurplus("$x") == 0;
    assert multiset("$x")['$'] == 1;
  }
}
