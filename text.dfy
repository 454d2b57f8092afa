/** Option, the stand-in for Python's None. */
module Opt {
  datatype Option<T> = None | Some(value: T)
}

/**
 * The string helpers the plugin borrows from Python's str: whitespace,
 * strip/lstrip, startswith, and the leading-whitespace width get_indent.
 * Strings are sequences of characters; a buffer line never holds its newline.
 */
module Text {

  /** str.isspace() for one character: what strip() and lstrip() remove. */
  predicate IsSpace(c: char) {
    || ('\t' <= c <= '\r')
    || ('\U{1C}' <= c <= '\U{1F}')
    || c == ' ' || c == '\U{85}' || c == '\U{A0}' || c == '\U{1680}'
    || ('\U{2000}' <= c <= '\U{200A}')
    || c == '\U{2028}' || c == '\U{2029}' || c == '\U{202F}' || c == '\U{205F}' || c == '\U{3000}'
  }

  /** The class `[\t ]` of the plugin's regular expressions. */
  predicate IsTabOrSpace(c: char) {
    c == '\t' || c == ' '
  }

  /** Length of the longest prefix of `s` whose characters all satisfy `p`. */
  function PrefixSpan(s: string, p: char -> bool): (n: nat)
    ensures n <= |s|
    ensures forall i :: 0 <= i < n ==> p(s[i])
    ensures n < |s| ==> !p(s[n])
  {
    if s == [] || !p(s[0]) then 0 else 1 + PrefixSpan(s[1..], p)
  }

  /** Length of the longest suffix of `s` whose characters all satisfy `p`. */
  function SuffixSpan(s: string, p: char -> bool): (n: nat)
    ensures n <= |s|
    ensures forall i :: |s| - n <= i < |s| ==> p(s[i])
    ensures n < |s| ==> !p(s[|s| - n - 1])
  {
    if s == [] || !p(s[|s| - 1]) then 0 else 1 + SuffixSpan(s[..|s| - 1], p)
  }

  /** Where the longest run of `p` characters starting at index `x` ends. */
  function RunEnd(s: string, x: nat, p: char -> bool): (q: nat)
    requires x <= |s|
    ensures x <= q <= |s|
    decreases |s| - x
  {
    if x == |s| || !p(s[x]) then x else RunEnd(s, x + 1, p)
  }

  /** The run holds only `p` characters and stops at the first other one. */
  lemma {:induction false} RunFacts(s: string, x: nat, p: char -> bool)
    requires x <= |s|
    ensures forall i :: x <= i < RunEnd(s, x, p) ==> p(s[i])
    ensures RunEnd(s, x, p) < |s| ==> !p(s[RunEnd(s, x, p)])
    decreases |s| - x
  {
    if x < |s| && p(s[x]) {
      RunFacts(s, x + 1, p);
    }
  }

  /** A run of `p` characters from `x` ended by another character at `e`. */
  lemma {:induction false} RunStops(s: string, x: nat, p: char -> bool, e: nat)
    requires x <= e < |s| && !p(s[e])
    requires forall i :: x <= i < e ==> p(s[i])
    ensures RunEnd(s, x, p) == e
    decreases e - x
  {
    if x < e {
      RunStops(s, x + 1, p, e);
    }
  }

  /** The run from `x` is the span of the suffix from `x`. */
  lemma {:induction false} RunEndIsSpan(s: string, x: nat, p: char -> bool)
    requires x <= |s|
    ensures RunEnd(s, x, p) == x + PrefixSpan(s[x..], p)
    decreases |s| - x
  {
    if x < |s| && p(s[x]) {
      RunEndIsSpan(s, x + 1, p);
      assert s[x..][1..] == s[x + 1..];
    }
  }

  /** get_indent: the number of characters left of the first non-whitespace one. */
  function GetIndent(s: string): (n: nat)
    ensures n <= |s|
    ensures forall i :: 0 <= i < n ==> IsSpace(s[i])
    ensures n < |s| ==> !IsSpace(s[n])
  {
    PrefixSpan(s, IsSpace)
  }

  function LStrip(s: string): string {
    s[GetIndent(s)..]
  }

  function RStrip(s: string): string {
    s[..|s| - SuffixSpan(s, IsSpace)]
  }

  function Strip(s: string): string {
    RStrip(LStrip(s))
  }

  predicate StartsWith(s: string, prefix: string) {
    |prefix| <= |s| && s[..|prefix|] == prefix
  }

  /** `' ' * n` */
  function Spaces(n: nat): (r: string)
    ensures |r| == n && forall i :: 0 <= i < n ==> r[i] == ' '
  {
    seq(n, _ => ' ')
  }

  /** The test `not line or line.startswith('#')` on `line.strip()`, read
      from the left: past the leading whitespace there is nothing, or a '#'. */
  predicate IsBlankOrComment(s: string) {
    s == [] || (if IsSpace(s[0]) then IsBlankOrComment(s[1..]) else s[0] == '#')
  }

  /** A line that is neither blank nor comment-only holds code. */
  predicate IsCode(s: string) {
    !IsBlankOrComment(s)
  }

  /** A line is blank or a comment exactly when its first non-whitespace
      character is missing or '#'. */
  lemma {:induction false} BlankOrCommentByIndent(s: string)
    ensures IsBlankOrComment(s) <==> (GetIndent(s) == |s| || s[GetIndent(s)] == '#')
  {
    if s != [] && IsSpace(s[0]) {
      BlankOrCommentByIndent(s[1..]);
      assert GetIndent(s) == 1 + GetIndent(s[1..]);
      assert s[1..][GetIndent(s[1..])..] == s[GetIndent(s)..];
    }
  }

  /** The predicate is the plugin's test on the stripped line: stripping only
      looks past the leading whitespace for its first character. */
  lemma BlankOrCommentIsStripTest(s: string)
    ensures IsBlankOrComment(s) <==> (Strip(s) == [] || Strip(s)[0] == '#')
  {
    BlankOrCommentByIndent(s);
    var l := LStrip(s);
    var m := SuffixSpan(l, IsSpace);
    if l != [] {
      assert !IsSpace(l[0]);
      assert m < |l|;
      assert Strip(s) == l[..|l| - m];
      assert Strip(s)[0] == l[0];
    }
  }

  /** A line made of `n` spaces and a word that ends in a non-whitespace
      character strips to that word, and its indent is `n`. */
  lemma {:induction false} StripIndentedWord(n: nat, w: string)
    requires |w| > 0 && !IsSpace(w[0]) && !IsSpace(w[|w| - 1])
    ensures GetIndent(Spaces(n) + w) == n
    ensures LStrip(Spaces(n) + w) == w
    ensures Strip(Spaces(n) + w) == w
  {
    var s := Spaces(n) + w;
    assert forall i :: 0 <= i < n ==> s[i] == ' ';
    assert s[n] == w[0] && !IsSpace(s[n]);
    assert GetIndent(s) == n;
    assert LStrip(s) == w;
    assert !IsSpace(w[|w| - 1]);
    assert SuffixSpan(w, IsSpace) == 0;
    assert RStrip(w) == w;
  }

  /** Prefixing `n` spaces then removing the first `n` characters gives the line back. */
  lemma SpacesThenDrop(n: nat, s: string)
    ensures (Spaces(n) + s)[n..] == s
  {
  }

  /** `s` starts with `w` once its leading whitespace is passed over. */
  predicate LeadingTextStartsWith(s: string, w: string)
    decreases |s|
  {
    if s != [] && IsSpace(s[0]) then LeadingTextStartsWith(s[1..], w) else StartsWith(s, w)
  }

  lemma {:induction false} LeadingTextIsLStrip(s: string, w: string)
    ensures LeadingTextStartsWith(s, w) <==> StartsWith(LStrip(s), w)
    decreases |s|
  {
    if s != [] && IsSpace(s[0]) {
      LeadingTextIsLStrip(s[1..], w);
      assert GetIndent(s) == 1 + GetIndent(s[1..]);
      assert s[1..][GetIndent(s[1..])..] == s[GetIndent(s)..];
    }
  }

  /** For a word that ends in a non-whitespace character, stripping the tail
      of the line does not change whether the line starts with it. */
  lemma LeadingTextIsStripTest(s: string, w: string)
    requires w != [] && !IsSpace(w[|w| - 1])
    ensures LeadingTextStartsWith(s, w) <==> StartsWith(Strip(s), w)
  {
    LeadingTextIsLStrip(s, w);
    var l := LStrip(s);
    var m := SuffixSpan(l, IsSpace);
    assert Strip(s) == l[..|l| - m];
    if StartsWith(l, w) {
      assert l[|w| - 1] == w[|w| - 1];
      assert |w| <= |l| - m;
      assert l[..|l| - m][..|w|] == l[..|w|];
    }
    if StartsWith(Strip(s), w) {
      assert l[..|l| - m][..|w|] == l[..|w|];
    }
  }
}
