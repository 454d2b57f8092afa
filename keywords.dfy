/**
 * The three anchored keyword patterns `^[\t ]*(k1|k2|...)[: ]`:
 * expr_re0 over the block openers, expr_re2 over the block continuers and
 * expr_re1 over both lists, written as predicates instead of regular expressions.
 */
module Keywords {
  import opened Text

  const EXPR_PRE: seq<string> := ["class", "def", "if", "for", "try", "while", "with"]
  const EXPR_PST: seq<string> := ["elif", "else", "except", "finally"]

  /** The text after the leading tabs and spaces. Since every keyword starts
      with a letter, `[\t ]*` can only match the whole run of them. */
  function AfterTabsSpaces(s: string): string {
    s[PrefixSpan(s, IsTabOrSpace)..]
  }

  /** `kw` stands right after the leading tabs and spaces and is followed by ':' or ' '. */
  predicate KeywordLed(s: string, kw: string) {
    var t := AfterTabsSpaces(s);
    |kw| < |t| && t[..|kw|] == kw && (t[|kw|] == ':' || t[|kw|] == ' ')
  }

  /** The alternation `(k1|k2|...)` followed by `[: ]`: some keyword of the list fits. */
  predicate MatchesAny(s: string, kws: seq<string>) {
    exists i :: 0 <= i < |kws| && KeywordLed(s, kws[i])
  }

  /** expr_re0: the line opens a block. */
  predicate Opens(s: string) {
    MatchesAny(s, EXPR_PRE)
  }

  /** expr_re1: the line opens or continues a block. */
  predicate OpensOrContinues(s: string) {
    MatchesAny(s, EXPR_PRE + EXPR_PST)
  }

  /** expr_re2: the line continues a block. */
  predicate Continues(s: string) {
    MatchesAny(s, EXPR_PST)
  }

  /** expr_re1 matches exactly when expr_re0 or expr_re2 does. */
  lemma {:induction false} OpensOrContinuesIsUnion(s: string)
    ensures OpensOrContinues(s) <==> Opens(s) || Continues(s)
  {
    var all := EXPR_PRE + EXPR_PST;
    if OpensOrContinues(s) {
      var i :| 0 <= i < |all| && KeywordLed(s, all[i]);
      if i < |EXPR_PRE| {
        assert all[i] == EXPR_PRE[i];
      } else {
        assert all[i] == EXPR_PST[i - |EXPR_PRE|];
      }
    }
    if Opens(s) {
      var i :| 0 <= i < |EXPR_PRE| && KeywordLed(s, EXPR_PRE[i]);
      assert all[i] == EXPR_PRE[i];
    }
    if Continues(s) {
      var i :| 0 <= i < |EXPR_PST| && KeywordLed(s, EXPR_PST[i]);
      assert all[i + |EXPR_PRE|] == EXPR_PST[i];
    }
  }

  /** Any run of tabs and spaces, a keyword of the list and ':' or ' ' match. */
  lemma {:induction false} IndentedKeywordMatches(ws: string, i: nat, rest: string, kws: seq<string>)
    requires forall j :: 0 <= j < |ws| ==> IsTabOrSpace(ws[j])
    requires i < |kws| && |kws[i]| > 0 && !IsTabOrSpace(kws[i][0])
    requires |rest| > 0 && (rest[0] == ':' || rest[0] == ' ')
    ensures MatchesAny(ws + kws[i] + rest, kws)
  {
    var s := ws + kws[i] + rest;
    assert s[|ws|] == kws[i][0];
    assert PrefixSpan(s, IsTabOrSpace) == |ws|;
    assert AfterTabsSpaces(s) == kws[i] + rest;
    assert KeywordLed(s, kws[i]);
  }

  predicate IsLetter(c: char) {
    'a' <= c <= 'z' || 'A' <= c <= 'Z'
  }

  predicate AllLetters(w: string) {
    |w| > 0 && forall j :: 0 <= j < |w| ==> IsLetter(w[j])
  }

  /** The leading word of the text after the indentation. */
  function LeadWord(s: string): string {
    var t := AfterTabsSpaces(s);
    t[..PrefixSpan(t, IsLetter)]
  }

  /** Because every keyword is made of letters and must be followed by ':' or
      ' ', a line matches exactly when its leading word is one of the keywords
      and the word is followed by ':' or ' '. So `ifconfig` opens nothing. */
  predicate WordFits(s: string, kws: seq<string>) {
    var t, w := AfterTabsSpaces(s), LeadWord(s);
    w in kws && |w| < |t| && (t[|w|] == ':' || t[|w|] == ' ')
  }

  lemma {:induction false} MatchesAnyByWord(s: string, kws: seq<string>)
    requires forall i :: 0 <= i < |kws| ==> AllLetters(kws[i])
    ensures MatchesAny(s, kws) <==> WordFits(s, kws)
  {
    var t, w := AfterTabsSpaces(s), LeadWord(s);
    var n := PrefixSpan(t, IsLetter);
    if MatchesAny(s, kws) {
      var i :| 0 <= i < |kws| && KeywordLed(s, kws[i]);
      var kw := kws[i];
      assert forall j :: 0 <= j < |kw| ==> IsLetter(t[j]) by {
        forall j | 0 <= j < |kw| ensures IsLetter(t[j]) {
          assert t[j] == kw[j];
        }
      }
      assert !IsLetter(t[|kw|]);
      assert n == |kw|;
      assert w == kw;
    }
    if w in kws && |w| < |t| && (t[|w|] == ':' || t[|w|] == ' ') {
      var i :| 0 <= i < |kws| && kws[i] == w;
      assert KeywordLed(s, kws[i]);
    }
  }

  lemma KeywordsAreWords()
    ensures forall i :: 0 <= i < |EXPR_PRE + EXPR_PST| ==> AllLetters((EXPR_PRE + EXPR_PST)[i])
    ensures forall i :: 0 <= i < |EXPR_PRE| ==> AllLetters(EXPR_PRE[i])
    ensures forall i :: 0 <= i < |EXPR_PST| ==> AllLetters(EXPR_PST[i])
  {
  }

  /** `ifconfig` is an identifier, not the keyword `if`. */
  lemma IfconfigOpensNothing()
    ensures !OpensOrContinues("ifconfig = 1")
  {
    var s := "ifconfig = 1";
    var all := EXPR_PRE + EXPR_PST;
    assert !IsTabOrSpace(s[0]);
    assert AfterTabsSpaces(s) == s;
    forall i | 0 <= i < |all| ensures !KeywordLed(s, all[i]) {
      if i < |EXPR_PRE| {
        assert all[i] == EXPR_PRE[i] && |EXPR_PRE[i]| < 8;
      } else {
        assert all[i] == EXPR_PST[i - |EXPR_PRE|] && |EXPR_PST[i - |EXPR_PRE|]| < 8;
      }
      assert IsLetter(s[|all[i]|]);
    }
  }

  /** An indented `if x:` opens a block and a bare `else:` continues one. */
  lemma IfOpensElseContinues()
    ensures Opens("\tif x:")
    ensures Continues("else:")
  {
    IndentedKeywordMatches("\t", 2, " x:", EXPR_PRE);
    assert "\t" + EXPR_PRE[2] + " x:" == "\tif x:";
    IndentedKeywordMatches("", 1, ":", EXPR_PST);
    assert "" + EXPR_PST[1] + ":" == "else:";
  }
}
