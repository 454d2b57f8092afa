/**
 * The breakpoint statement and its record. A breakpoint line looks like
 *   `<indent>import pdb; pdb.set_trace()  # breakpoint 1a2b3c4d //`
 * with an `x` after the uid when the breakpoint sits inside a try/except
 * block that the plugin added. The pattern bp_re is written as a function.
 */
module Breakpoints {
  import opened Opt
  import opened Text

  const IMPORT := "import "
  const SET_TRACE := "set_trace()  # breakpoint "
  const TAIL := " //"
  /** Length of the word "set_trace", the part of SET_TRACE inside `[\w.; ]`. */
  const TRACE_WORD := 9

  /** The class `[\w.; ]` (ASCII word characters, dot, semicolon, space). */
  predicate IsNameChar(c: char) {
    'a' <= c <= 'z' || 'A' <= c <= 'Z' || '0' <= c <= '9' || c == '_' || c == '.' || c == ';' || c == ' '
  }

  /** `[a-f0-9]` */
  predicate IsHexDigit(c: char) {
    '0' <= c <= '9' || 'a' <= c <= 'f'
  }

  /** `[a-z]` */
  predicate IsLower(c: char) {
    'a' <= c <= 'z'
  }

  /** `[a-f0-9]{8}`: the last eight characters of a UUID4's text. */
  predicate IsUid(u: string) {
    |u| == 8 && forall i :: 0 <= i < 8 ==> IsHexDigit(u[i])
  }

  /** A debugger module name such as `pdb` or `IPython.core.debugger`. */
  predicate IsDebuggerName(d: string) {
    forall i :: 0 <= i < |d| ==> ('a' <= d[i] <= 'z' || 'A' <= d[i] <= 'Z' || '0' <= d[i] <= '9' || d[i] == '_' || d[i] == '.')
  }

  /** `w` occurs in `s` at index `i`. */
  predicate At(s: string, i: nat, w: string) {
    i + |w| <= |s| && s[i..i + |w|] == w
  }

  /** The two groups of a bp_re match: the uid and the optional block mark. */
  datatype Groups = Groups(uid: string, mark: string)

  /** The optional `[a-z]` followed by " //" at index `t`. */
  predicate MarkAt(s: string, t: nat) {
    t < |s| && IsLower(s[t]) && At(s, t + 1, TAIL)
  }

  /**
   * bp_re.match: `^[\t ]*import [\w.; ]+set_trace\(\)  # breakpoint ([a-f0-9]{8})([a-z]?) //`.
   * The name run `[\w.; ]+` must stop exactly where "set_trace" stops, because
   * "set_trace" lies inside the class and '(' does not; so the split is unique
   * and is found by measuring the longest run of name characters.
   */
  function MatchBp(s: string): (g: Option<Groups>)
    ensures g.Some? ==> IsUid(g.value.uid) && (g.value.mark == "" || (|g.value.mark| == 1 && IsLower(g.value.mark[0])))
  {
    var p := RunEnd(s, 0, IsTabOrSpace);
    if !At(s, p, IMPORT) then None else AfterImport(s, p + |IMPORT|)
  }

  /** The rest of the pattern, from the end of "import " at index `x` on. */
  function AfterImport(s: string, x: nat): (g: Option<Groups>)
    requires x <= |s|
  {
    var q := RunEnd(s, x, IsNameChar);
    if q < x + 1 + TRACE_WORD || !At(s, q - TRACE_WORD, SET_TRACE) then None
    else UidAndMark(s, q - TRACE_WORD + |SET_TRACE|)
  }

  /** The end of the pattern, `([a-f0-9]{8})([a-z]?) //`, at index `u`. */
  function UidAndMark(s: string, u: nat): (g: Option<Groups>)
  {
    if u + 8 > |s| || !IsUid(s[u..u + 8]) || !(MarkAt(s, u + 8) || At(s, u + 8, TAIL)) then None
    else Some(TailGroups(s, u))
  }

  /** The groups captured from index `u` on: `[a-z]?` takes the letter when it can. */
  function TailGroups(s: string, u: nat): Groups
    requires u + 8 <= |s|
  {
    Groups(s[u..u + 8], if MarkAt(s, u + 8) then [s[u + 8]] else "")
  }

  /** The pattern read literally: a split of `s` into indentation at `p`, the
      name run up to `j`, "set_trace()  # breakpoint ", the uid and the tail. */
  ghost predicate RegexMatchAt(s: string, p: nat, j: nat) {
    var u := j + |SET_TRACE|;
    && p <= |s|
    && (forall i :: 0 <= i < p ==> IsTabOrSpace(s[i]))
    && At(s, p, IMPORT)
    && p + |IMPORT| < j
    && At(s, j, SET_TRACE)
    && (forall i :: p + |IMPORT| <= i < j ==> IsNameChar(s[i]))
    && u + 8 <= |s| && IsUid(s[u..u + 8])
    && (MarkAt(s, u + 8) || At(s, u + 8, TAIL))
  }

  lemma SetTraceChars()
    ensures forall k :: 0 <= k < TRACE_WORD ==> IsNameChar(SET_TRACE[k])
    ensures !IsNameChar(SET_TRACE[TRACE_WORD])
  {
  }

  /** MatchBp agrees with the pattern read literally: it matches exactly when
      some split does, and then it returns that split's groups. */
  lemma {:induction false} MatchBpIsPattern(s: string)
    ensures MatchBp(s).Some? <==> exists p: nat, j: nat :: RegexMatchAt(s, p, j)
    ensures forall p: nat, j: nat :: RegexMatchAt(s, p, j) ==> MatchBp(s) == Some(TailGroups(s, j + |SET_TRACE|))
  {
    if MatchBp(s).Some? {
      var p, j := MatchIsSplit(s);
    }
    forall p': nat, j': nat | RegexMatchAt(s, p', j') ensures MatchBp(s) == Some(TailGroups(s, j' + |SET_TRACE|)) {
      RegexSplitIsUnique(s, p', j');
    }
  }

  /** A match of MatchBp is the split at the measured spans. */
  lemma MatchIsSplit(s: string) returns (p: nat, j: nat)
    requires MatchBp(s).Some?
    ensures RegexMatchAt(s, p, j)
  {
    p := RunEnd(s, 0, IsTabOrSpace);
    var x := p + |IMPORT|;
    assert MatchBp(s) == AfterImport(s, x);
    j := AfterImportSome(s, x);
    RunFacts(s, x, IsNameChar);
    RunFacts(s, 0, IsTabOrSpace);
  }

  /** A match past "import " places "set_trace()" at `j`, where the name run
      stops, and the uid and tail after it. */
  lemma AfterImportSome(s: string, x: nat) returns (j: nat)
    requires x <= |s| && AfterImport(s, x).Some?
    ensures j + TRACE_WORD == RunEnd(s, x, IsNameChar) && x < j && At(s, j, SET_TRACE)
    ensures j + |SET_TRACE| + 8 <= |s| && IsUid(s[j + |SET_TRACE|..j + |SET_TRACE| + 8])
    ensures MarkAt(s, j + |SET_TRACE| + 8) || At(s, j + |SET_TRACE| + 8, TAIL)
  {
    j := RunEnd(s, x, IsNameChar) - TRACE_WORD;
    UidAndMarkSome(s, j + |SET_TRACE|);
  }

  lemma UidAndMarkSome(s: string, u: nat)
    requires UidAndMark(s, u).Some?
    ensures u + 8 <= |s| && IsUid(s[u..u + 8]) && (MarkAt(s, u + 8) || At(s, u + 8, TAIL))
  {
  }

  /** Any literal split is the one MatchBp measures. */
  lemma {:induction false} RegexSplitIsUnique(s: string, p': nat, j': nat)
    requires RegexMatchAt(s, p', j')
    ensures MatchBp(s) == Some(TailGroups(s, j' + |SET_TRACE|))
  {
    assert s[p'] == IMPORT[0];
    RunStops(s, 0, IsTabOrSpace, p');
    NameSpanAt(s, p' + |IMPORT|, j');
    MatchBpBySpans(s, p', j');
  }

  /** Name characters up to "set_trace()" make the name run stop at its '('. */
  lemma NameSpanAt(s: string, x: nat, j: nat)
    requires x < j && At(s, j, SET_TRACE)
    requires forall i :: x <= i < j ==> IsNameChar(s[i])
    ensures RunEnd(s, x, IsNameChar) == j + TRACE_WORD
  {
    var e := j + TRACE_WORD;
    SetTraceChars();
    forall i | x <= i < e ensures IsNameChar(s[i]) {
      if i >= j {
        assert s[i] == SET_TRACE[i - j];
      }
    }
    assert s[e] == SET_TRACE[TRACE_WORD];
    RunStops(s, x, IsNameChar, e);
  }

  /** MatchBp evaluated once both spans are known. */
  lemma MatchBpBySpans(s: string, p: nat, j: nat)
    requires p + |IMPORT| + TRACE_WORD < j + TRACE_WORD <= |s|
    requires RunEnd(s, 0, IsTabOrSpace) == p && At(s, p, IMPORT)
    requires RunEnd(s, p + |IMPORT|, IsNameChar) == j + TRACE_WORD
    requires At(s, j, SET_TRACE) && j + |SET_TRACE| + 8 <= |s| && IsUid(s[j + |SET_TRACE|..j + |SET_TRACE| + 8])
    requires MarkAt(s, j + |SET_TRACE| + 8) || At(s, j + |SET_TRACE| + 8, TAIL)
    ensures MatchBp(s) == Some(TailGroups(s, j + |SET_TRACE|))
  {
    var x, u := p + |IMPORT|, j + |SET_TRACE|;
    calc {
      MatchBp(s);
      { MatchBpImport(s, p); }
      AfterImport(s, x);
      { AfterImportAt(s, x, j); }
      UidAndMark(s, u);
      { UidAndMarkAt(s, u); }
      Some(TailGroups(s, u));
    }
  }

  lemma MatchBpImport(s: string, p: nat)
    requires RunEnd(s, 0, IsTabOrSpace) == p && At(s, p, IMPORT)
    ensures MatchBp(s) == AfterImport(s, p + |IMPORT|)
  {
  }

  lemma AfterImportAt(s: string, x: nat, j: nat)
    requires x < j && x <= |s| && RunEnd(s, x, IsNameChar) == j + TRACE_WORD && At(s, j, SET_TRACE)
    ensures AfterImport(s, x) == UidAndMark(s, j + |SET_TRACE|)
  {
  }

  lemma UidAndMarkAt(s: string, u: nat)
    requires u + 8 <= |s| && IsUid(s[u..u + 8]) && (MarkAt(s, u + 8) || At(s, u + 8, TAIL))
    ensures UidAndMark(s, u) == Some(TailGroups(s, u))
  {
  }

  /** A breakpoint record: `uid` is None when no text matched. */
  datatype Breakpoint = Breakpoint(uid: Option<string>, inBlock: bool)

  /** `Breakpoint(from_text)`: the uid and block flag read from a buffer line;
      the flag keeps its default False when the line does not match. */
  function FromText(text: string): (b: Breakpoint)
    ensures b.uid.Some? ==> IsUid(b.uid.value)
    ensures b.inBlock ==> b.uid.Some?
  {
    match MatchBp(text)
    case None => Breakpoint(None, false)
    case Some(g) => Breakpoint(Some(g.uid), g.mark == "x")
  }

  /** bp_re.match(line) is truthy. */
  predicate IsBreakpointLine(s: string) {
    MatchBp(s).Some?
  }

  /** `Breakpoint()` / `Breakpoint(in_block=True)`: a new record whose uid is the
      generator's output, passed in. */
  function Fresh(uid: string, inBlock: bool): Breakpoint {
    Breakpoint(Some(uid), inBlock)
  }

  /** How `"{uid}".format(uid=...)` renders the uid, None included. */
  function UidText(uid: Option<string>): string {
    match uid
    case None => "None"
    case Some(u) => u
  }

  /** region_id: the name of the highlight region of the breakpoint. */
  function RegionId(b: Breakpoint): (r: string)
    ensures StartsWith(r, "bp-") && r[3..] == UidText(b.uid)
  {
    "bp-" + UidText(b.uid)
  }

  /** Two records with uids share a region exactly when they share a uid. */
  lemma RegionIdInjective(a: Breakpoint, b: Breakpoint)
    requires a.uid.Some? && b.uid.Some?
    ensures RegionId(a) == RegionId(b) <==> a.uid == b.uid
  {
    if RegionId(a) == RegionId(b) {
      assert RegionId(a)[3..] == RegionId(b)[3..];
    }
  }

  /** The part of a breakpoint line after `import `. */
  function CallText(b: Breakpoint, debugger: string): string {
    debugger + "; " + debugger + "." + (SET_TRACE + (UidText(b.uid) + ((if b.inBlock then "x" else "") + TAIL)))
  }

  /** as_string without its final newline (the line model keeps line breaks
      between the lines): the indent, the import-and-call statement naming the
      debugger twice, and the uid comment with the block mark. */
  function AsLine(b: Breakpoint, indent: nat, debugger: string): (r: string)
    ensures GetIndent(r) == indent
  {
    var r := Spaces(indent) + (IMPORT + CallText(b, debugger));
    assert r[indent] == 'i';
    r
  }

  /** `pdb; pdb.` lies inside `[\w.; ]` for every debugger name. */
  lemma CallNameChars(debugger: string)
    requires IsDebuggerName(debugger)
    ensures var name := debugger + "; " + debugger + ".";
            forall i :: 0 <= i < |name| ==> IsNameChar(name[i])
  {
    var name := debugger + "; " + debugger + ".";
    forall i | 0 <= i < |name| ensures IsNameChar(name[i]) {
      if i < |debugger| {
        assert name[i] == debugger[i];
      } else if i < |debugger| + 2 {
      } else if i < 2 * |debugger| + 2 {
        assert name[i] == debugger[i - |debugger| - 2];
      }
    }
  }

  /** The block mark and the tail, read back. */
  lemma MarkTail(s: string, t: nat, inBlock: bool)
    requires t <= |s| && s[t..] == (if inBlock then "x" else "") + TAIL
    ensures inBlock ==> MarkAt(s, t) && s[t] == 'x'
    ensures !inBlock ==> !MarkAt(s, t) && At(s, t, TAIL)
  {
    var r := s[t..];
    if inBlock {
      assert s[t] == r[0] == 'x';
      assert s[t + 1..t + 1 + |TAIL|] == r[1..] == TAIL;
    } else {
      assert s[t] == r[0] == ' ';
      assert s[t..t + |TAIL|] == r == TAIL;
    }
  }

  /** A suffix that starts with `a` places `a` there and leaves `b` after it. */
  lemma SuffixSplit(s: string, k: nat, a: string, b: string)
    requires k <= |s| && s[k..] == a + b
    ensures At(s, k, a) && s[k + |a|..] == b
  {
    assert s[k..k + |a|] == s[k..][..|a|] == a;
    assert s[k + |a|..] == s[k..][|a|..] == b;
  }

  /** The indentation of a rendered breakpoint line is measured as `indent`,
      and "import " follows it. */
  lemma LineHead(s: string, indent: nat, call: string)
    requires s == Spaces(indent) + (IMPORT + call)
    ensures RunEnd(s, 0, IsTabOrSpace) == indent && At(s, indent, IMPORT)
    ensures s[indent + |IMPORT|..] == call
  {
    assert s[indent..] == IMPORT + call;
    SuffixSplit(s, indent, IMPORT, call);
    assert s[indent] == IMPORT[0];
    RunStops(s, 0, IsTabOrSpace, indent);
  }

  /** Past "import ", a rendered call places "set_trace()  # breakpoint "
      right after the debugger names, where the name run stops. */
  lemma CallSpans(s: string, x: nat, name: string, rest: string)
    requires x <= |s| && s[x..] == name + (SET_TRACE + rest)
    requires |name| > 0 && forall i :: 0 <= i < |name| ==> IsNameChar(name[i])
    ensures At(s, x + |name|, SET_TRACE) && RunEnd(s, x, IsNameChar) == x + |name| + TRACE_WORD
    ensures s[x + |name| + |SET_TRACE|..] == rest
  {
    var j := x + |name|;
    SuffixSplit(s, x, name, SET_TRACE + rest);
    SuffixSplit(s, j, SET_TRACE, rest);
    forall i | x <= i < j ensures IsNameChar(s[i]) {
      assert s[i] == s[x..][i - x] == name[i - x];
    }
    NameSpanAt(s, x, j);
  }

  /** The uid, the block mark and the tail of a rendered line. */
  lemma TailSpans(s: string, u: nat, uid: string, inBlock: bool)
    requires u <= |s| && IsUid(uid) && s[u..] == uid + ((if inBlock then "x" else "") + TAIL)
    ensures u + 8 <= |s| && s[u..u + 8] == uid && IsUid(s[u..u + 8])
    ensures MarkAt(s, u + 8) == inBlock && (inBlock ==> s[u + 8] == 'x')
    ensures !inBlock ==> At(s, u + 8, TAIL)
  {
    SuffixSplit(s, u, uid, (if inBlock then "x" else "") + TAIL);
    MarkTail(s, u + 8, inBlock);
  }

  /** Parsing a rendered breakpoint gives back its uid and block flag. */
  lemma {:induction false} ParseAsLine(b: Breakpoint, indent: nat, debugger: string)
    requires b.uid.Some? && IsUid(b.uid.value) && IsDebuggerName(debugger)
    ensures FromText(AsLine(b, indent, debugger)) == b
  {
    ParseRendered(b.uid.value, b.inBlock, indent, debugger);
  }

  /** ParseAsLine for a record given by its uid and block flag. */
  lemma ParseRendered(uid: string, inBlock: bool, indent: nat, debugger: string)
    requires IsUid(uid) && IsDebuggerName(debugger)
    ensures FromText(AsLine(Breakpoint(Some(uid), inBlock), indent, debugger)) == Breakpoint(Some(uid), inBlock)
  {
    var s := AsLine(Breakpoint(Some(uid), inBlock), indent, debugger);
    var name := debugger + "; " + debugger + ".";
    CallNameChars(debugger);
    LineSpans(s, indent, name, uid, inBlock);
    ParseBySpans(s, indent, indent + |IMPORT| + |name|);
  }

  /** Where the pieces of a rendered breakpoint line sit. */
  lemma LineSpans(s: string, indent: nat, name: string, uid: string, inBlock: bool)
    requires |name| > 0 && forall i :: 0 <= i < |name| ==> IsNameChar(name[i])
    requires IsUid(uid)
    requires s == Spaces(indent) + (IMPORT + (name + (SET_TRACE + (uid + ((if inBlock then "x" else "") + TAIL)))))
    ensures RunEnd(s, 0, IsTabOrSpace) == indent && At(s, indent, IMPORT)
    ensures RunEnd(s, indent + |IMPORT|, IsNameChar) == indent + |IMPORT| + |name| + TRACE_WORD
    ensures At(s, indent + |IMPORT| + |name|, SET_TRACE)
    ensures indent + |IMPORT| + |name| + |SET_TRACE| + 8 <= |s|
    ensures s[indent + |IMPORT| + |name| + |SET_TRACE|..indent + |IMPORT| + |name| + |SET_TRACE| + 8] == uid
    ensures MarkAt(s, indent + |IMPORT| + |name| + |SET_TRACE| + 8) == inBlock
    ensures inBlock ==> s[indent + |IMPORT| + |name| + |SET_TRACE| + 8] == 'x'
    ensures !inBlock ==> At(s, indent + |IMPORT| + |name| + |SET_TRACE| + 8, TAIL)
  {
    var r2 := uid + ((if inBlock then "x" else "") + TAIL);
    var x := indent + |IMPORT|;
    LineHead(s, indent, name + (SET_TRACE + r2));
    CallSpans(s, x, name, r2);
    TailSpans(s, x + |name| + |SET_TRACE|, uid, inBlock);
  }

  /** The record read from a line once both spans of the match are known. */
  lemma ParseBySpans(s: string, p: nat, j: nat)
    requires p + |IMPORT| < j && j + |SET_TRACE| + 8 <= |s|
    requires RunEnd(s, 0, IsTabOrSpace) == p && At(s, p, IMPORT)
    requires RunEnd(s, p + |IMPORT|, IsNameChar) == j + TRACE_WORD
    requires At(s, j, SET_TRACE) && IsUid(s[j + |SET_TRACE|..j + |SET_TRACE| + 8])
    requires MarkAt(s, j + |SET_TRACE| + 8) || At(s, j + |SET_TRACE| + 8, TAIL)
    ensures FromText(s) == Breakpoint(Some(s[j + |SET_TRACE|..j + |SET_TRACE| + 8]),
                                      MarkAt(s, j + |SET_TRACE| + 8) && s[j + |SET_TRACE| + 8] == 'x')
  {
    MatchBpBySpans(s, p, j);
    ReadBack(s, j + |SET_TRACE|);
  }

  /** The record read from a line whose match starts its uid at `u`. */
  lemma ReadBack(s: string, u: nat)
    requires u + 8 <= |s| && MatchBp(s) == Some(TailGroups(s, u))
    ensures FromText(s) == Breakpoint(Some(s[u..u + 8]), MarkAt(s, u + 8) && s[u + 8] == 'x')
  {
    if MarkAt(s, u + 8) {
      assert [s[u + 8]] == "x" <==> s[u + 8] == 'x';
    }
  }

  /** A line that bp_re does not match gives a record without uid, outside any block. */
  lemma NonMatchingText(s: string)
    requires forall p: nat, j: nat :: !RegexMatchAt(s, p, j)
    ensures FromText(s) == Breakpoint(None, false)
  {
    MatchBpIsPattern(s);
  }
}
