/**
 * The two editing commands. ToggleBreakpoint removes the breakpoint at the
 * cursor or, when there is none, adds one; with a selection it wraps the
 * selected rows in try/except instead. ClearAllBreakpoints removes the
 * first breakpoint of the file over and over, at most 999 times.
 *
 * The host reports where the cursor's line ends: for cursor row `k` that is
 * row k + 1 when a row follows, row k otherwise (HostRow), and it lists the
 * k + 1 rows up to there; remove_breakpoint is then called with these two
 * numbers, which place it on row k.
 */
module Commands {
  import opened Opt
  import opened Text
  import opened Breakpoints
  import opened Views
  import opened Indent
  import opened Removal
  import opened Insertion

  /** What the editor has selected: an empty selection is a cursor on a row,
      a non-empty one covers the rows `first` to `last`. */
  datatype Selection = Cursor(row: nat) | Span(first: nat, last: nat)

  predicate SelectionIn(buf: seq<string>, sel: Selection) {
    match sel
    case Cursor(k) => k < |buf|
    case Span(a, b) => a <= b < |buf|
  }

  /** The line number of the end of the full line of row `k`. */
  function HostRow(buf: seq<string>, k: nat): (row: nat)
    requires k < |buf|
    ensures k <= row < |buf| && Position(row, k + 1) == k
  {
    if k + 1 < |buf| then k + 1 else k
  }

  /** What ToggleBreakpointCommand leaves. */
  function Toggled(buf: seq<string>, sel: Selection, tab: nat, debugger: string, uid: string): seq<string>
    requires SelectionIn(buf, sel)
  {
    match sel
    case Cursor(k) =>
      var o := Removed(buf, HostRow(buf, k), k + 1, tab);
      if o.removed then o.buf else Inserted(buf, k, tab, debugger, uid)
    case Span(a, b) => Wrapped(buf, a, b, tab, debugger, uid)
  }

  /** ToggleBreakpointCommand.run on a Python view. */
  method ToggleBreakpoint(v: View, sel: Selection, tab: nat, debugger: string, uid: string)
    requires v.Valid() && SelectionIn(v.lines, sel) && '\n' !in debugger
    modifies v
    ensures v.Valid() && v.lines == Toggled(old(v.lines), sel, tab, debugger, uid)
  {
    match sel {
      case Cursor(k) =>
        var removed := RemoveBreakpoint(v, HostRow(v.lines, k), k + 1, tab);
        if !removed {
          InsertBreakpoint(v, k, tab, debugger, uid);
        }
      case Span(a, b) =>
        InsertTryExceptBreakpoint(v, a, b, tab, debugger, uid);
    }
  }

  /**
   * Toggling on a row where no breakpoint sits (neither on the row nor on
   * the one above) adds one above the row, and toggling again from the same
   * row takes it away: the buffer is back as it was.
   */
  lemma ToggleTwice(buf: seq<string>, k: nat, tab: nat, debugger: string, uid: string)
    requires k < |buf| && IsUid(uid) && IsDebuggerName(debugger)
    requires !IsBreakpointLine(buf[k]) && !IsBreakpointLine(buf[RowBefore(k, k + 1)])
    requires InferIndent(buf, k, tab).Place?
    ensures var once := Toggled(buf, Cursor(k), tab, debugger, uid);
            && once == Inserted(buf, k, tab, debugger, uid)
            && |once| == |buf| + 1 && IsBreakpointLine(once[k])
            && Toggled(once, Cursor(k), tab, debugger, uid) == buf
  {
    var once := Inserted(buf, k, tab, debugger, uid);
    InsertedRow(buf, k, tab, debugger, uid);
    ToggleRoundTrip(buf, k, HostRow(once, k), tab, debugger, uid);
  }

  /**
   * Toggling on the breakpoint that wrapping put in (the cursor is left on
   * its row, b + 3) takes the whole try/except away again, provided a row
   * follows the selection and no shifted row reads as the try line.
   */
  lemma ToggleAfterWrap(buf: seq<string>, a: nat, b: nat, tab: nat, debugger: string, uid: string)
    requires a <= b && b + 1 < |buf| && IsUid(uid) && IsDebuggerName(debugger)
    requires FirstCodeRow(buf, a, b + 1).Some?
    requires var i := GetIndent(buf[FirstCodeRow(buf, a, b + 1).value]);
             forall j :: a <= j <= b ==> !IsTryLine(Spaces(tab) + buf[j], i)
    ensures var w := Wrapped(buf, a, b, tab, debugger, uid);
            b + 3 < |w| && Toggled(w, Cursor(b + 3), tab, debugger, uid) == buf
  {
    var i := GetIndent(buf[FirstCodeRow(buf, a, b + 1).value]);
    var w := Wrap(buf, a, b, i, tab, debugger, uid);
    assert |w| == |buf| + 3;
    WrapThenRemove(buf, a, b, i, b + 4, tab, debugger, uid);
  }

  /** find_breakpoint: the first row, from row `r` on, whose line `matches`
      holds of (bp_re, for the command). */
  function FirstMatch(buf: seq<string>, r: nat, matches: string -> bool): (m: Option<nat>)
    requires r <= |buf|
    ensures m.Some? ==> r <= m.value < |buf| && matches(buf[m.value])
    ensures m.Some? ==> forall j {:trigger matches(buf[j])} :: r <= j < m.value ==> !matches(buf[j])
    ensures m.None? ==> forall j {:trigger matches(buf[j])} :: r <= j < |buf| ==> !matches(buf[j])
    decreases |buf| - r
  {
    if r == |buf| then None
    else if matches(buf[r]) then Some(r)
    else FirstMatch(buf, r + 1, matches)
  }

  /** The clear-all loop run for at most `n` more rounds. */
  function ClearSteps(buf: seq<string>, n: nat, tab: nat): seq<string>
    decreases n, 2
  {
    if n == 0 then buf
    else ClearAt(buf, FirstMatch(buf, 0, IsBreakpointLine), n, tab)
  }

  /** A clear-all round given what find_breakpoint returned: none stops the loop. */
  function ClearAt(buf: seq<string>, found: Option<nat>, n: nat, tab: nat): seq<string>
    requires found.Some? ==> found.value < |buf|
    requires n > 0
    decreases n, 1
  {
    match found
    case None => buf
    case Some(m) => ClearFound(buf, m, n, tab)
  }

  /** The rest of a clear-all round that found a breakpoint on row `m`. */
  function ClearFound(buf: seq<string>, m: nat, n: nat, tab: nat): seq<string>
    requires m < |buf| && n > 0
    decreases n, 0
  {
    var o := Removed(buf, HostRow(buf, m), m + 1, tab);
    if o.removed then ClearSteps(o.buf, n - 1, tab) else buf
  }

  /** The hard limit on rounds of ClearAllBreakpointsCommand. */
  const CLEAR_LIMIT: nat := 999

  /** ClearAllBreakpointsCommand.run on a Python view. */
  method ClearAllBreakpoints(v: View, tab: nat)
    requires v.Valid()
    modifies v
    ensures v.Valid() && v.lines == ClearSteps(old(v.lines), CLEAR_LIMIT, tab)
  {
    var i := 0;
    ghost var target := ClearSteps(v.lines, CLEAR_LIMIT - i, tab);
    while i < CLEAR_LIMIT
      invariant v.Valid() && i <= CLEAR_LIMIT
      invariant ClearSteps(v.lines, CLEAR_LIMIT - i, tab) == target
    {
      var m := FirstMatch(v.lines, 0, IsBreakpointLine);
      if m.None? {
        return;
      }
      ClearFoundStep(v.lines, m.value, CLEAR_LIMIT - i, tab);
      var removed := RemoveBreakpoint(v, HostRow(v.lines, m.value), m.value + 1, tab);
      if !removed {
        return;
      }
      i := i + 1;
    }
  }

  /*
   * What clear-all leaves is stated over any line test `isBp` that the
   * empty row fails, and applied to bp_re at the end.
   */

  /** The rows that `isBp` does not hold of, in order. */
  function Kept(buf: seq<string>, isBp: string -> bool): (res: seq<string>)
    ensures |res| <= |buf|
  {
    if buf == [] then []
    else (if isBp(buf[0]) then [] else [buf[0]]) + Kept(buf[1..], isBp)
  }

  /** How many rows `isBp` holds of. */
  function Count(buf: seq<string>, isBp: string -> bool): nat {
    if buf == [] then 0
    else (if isBp(buf[0]) then 1 else 0) + Count(buf[1..], isBp)
  }

  /** What removing every row `isBp` holds of leaves: the other rows, and an
      empty last row where the last row was one of them (erasing the last
      row of a buffer leaves it empty). */
  function Cleared(buf: seq<string>, isBp: string -> bool): seq<string>
    requires |buf| > 0
  {
    if isBp(buf[|buf| - 1]) then Kept(buf, isBp) + [""] else Kept(buf, isBp)
  }

  /** `n` rounds of erasing the first row that `isBp` holds of. */
  function EraseRounds(buf: seq<string>, n: nat, isBp: string -> bool): seq<string>
    decreases n, 1
  {
    if n == 0 then buf
    else EraseAt(buf, FirstMatch(buf, 0, isBp), n, isBp)
  }

  /** An erasing round given the row found, if any. */
  function EraseAt(buf: seq<string>, found: Option<nat>, n: nat, isBp: string -> bool): seq<string>
    requires found.Some? ==> found.value < |buf|
    requires n > 0
    decreases n, 0
  {
    match found
    case None => buf
    case Some(m) => EraseRounds(EraseFullLine(buf, m), n - 1, isBp)
  }

  lemma {:induction false} KeptAppend(x: seq<string>, y: seq<string>, isBp: string -> bool)
    ensures Kept(x + y, isBp) == Kept(x, isBp) + Kept(y, isBp)
    ensures Count(x + y, isBp) == Count(x, isBp) + Count(y, isBp)
    decreases |x|
  {
    if x != [] {
      assert (x + y)[1..] == x[1..] + y;
      KeptAppend(x[1..], y, isBp);
    } else {
      assert x + y == y;
    }
  }

  /** A buffer none of whose rows `isBp` holds of keeps all its rows. */
  lemma {:induction false} NoneCounted(buf: seq<string>, isBp: string -> bool)
    requires forall j :: 0 <= j < |buf| ==> !isBp(buf[j])
    ensures Count(buf, isBp) == 0 && Kept(buf, isBp) == buf
    decreases |buf|
  {
    if buf != [] {
      NoneCounted(buf[1..], isBp);
    }
  }

  /** A buffer whose count is zero holds no row `isBp` holds of. */
  lemma {:induction false} CountedRows(buf: seq<string>, isBp: string -> bool)
    requires Count(buf, isBp) == 0
    ensures forall j :: 0 <= j < |buf| ==> !isBp(buf[j])
    decreases |buf|
  {
    if buf != [] {
      CountedRows(buf[1..], isBp);
      assert forall j :: 1 <= j < |buf| ==> buf[j] == buf[1..][j - 1];
    }
  }

  lemma RowSplit(buf: seq<string>, m: nat)
    requires m < |buf|
    ensures buf == buf[..m] + [buf[m]] + buf[m + 1..]
  {
  }

  /** A counted row between `pre` and `post` counts once and is not kept. */
  lemma KeptSkip(pre: seq<string>, x: string, post: seq<string>, isBp: string -> bool)
    requires isBp(x)
    ensures Kept(pre + [x] + post, isBp) == Kept(pre + post, isBp)
    ensures Count(pre + [x] + post, isBp) == Count(pre + post, isBp) + 1
  {
    var rest := [x] + post;
    assert pre + [x] + post == pre + rest;
    KeptAppend(pre, rest, isBp);
    assert rest[1..] == post;
    KeptAppend(pre, post, isBp);
  }

  /** Erasing a counted row above the last takes it out of the count and
      keeps the kept rows. */
  lemma EraseInner(buf: seq<string>, m: nat, isBp: string -> bool)
    requires m + 1 < |buf| && isBp(buf[m])
    ensures var e := EraseFullLine(buf, m);
            Kept(e, isBp) == Kept(buf, isBp) && Count(e, isBp) + 1 == Count(buf, isBp)
  {
    RowSplit(buf, m);
    KeptSkip(buf[..m], buf[m], buf[m + 1..], isBp);
  }

  /** Erasing the last row, a counted one, leaves an empty row in its place. */
  lemma EraseLast(buf: seq<string>, isBp: string -> bool)
    requires |buf| > 0 && isBp(buf[|buf| - 1]) && !isBp("")
    ensures var e := EraseFullLine(buf, |buf| - 1);
            Kept(e, isBp) == Kept(buf, isBp) + [""] && Count(e, isBp) + 1 == Count(buf, isBp)
  {
    var pre := buf[..|buf| - 1];
    RowSplit(buf, |buf| - 1);
    assert buf == pre + [buf[|buf| - 1]];
    KeptAppend(pre, [buf[|buf| - 1]], isBp);
    KeptAppend(pre, [""], isBp);
  }

  /** Erasing a counted row `m` takes exactly one away. */
  lemma EraseCount(buf: seq<string>, m: nat, isBp: string -> bool)
    requires m < |buf| && isBp(buf[m]) && !isBp("")
    ensures var e := EraseFullLine(buf, m);
            |e| > 0 && Count(e, isBp) + 1 == Count(buf, isBp)
  {
    if m + 1 < |buf| {
      EraseInner(buf, m, isBp);
    } else {
      EraseLast(buf, isBp);
    }
  }

  /** Erasing a counted row `m` keeps the rows Cleared keeps. */
  lemma EraseCleared(buf: seq<string>, m: nat, isBp: string -> bool)
    requires m < |buf| && isBp(buf[m]) && !isBp("")
    ensures var e := EraseFullLine(buf, m);
            |e| > 0 && Cleared(e, isBp) == Cleared(buf, isBp)
  {
    var e := EraseFullLine(buf, m);
    if m + 1 < |buf| {
      EraseInner(buf, m, isBp);
      assert e[|e| - 1] == buf[|buf| - 1];
    } else {
      EraseLast(buf, isBp);
      assert e[|e| - 1] == "";
    }
  }

  /** With no counted row, the count is zero and Cleared is the buffer itself. */
  lemma NoneLeft(buf: seq<string>, isBp: string -> bool)
    requires |buf| > 0 && FirstMatch(buf, 0, isBp).None?
    ensures Count(buf, isBp) == 0 && Cleared(buf, isBp) == buf
  {
    NoneCounted(buf, isBp);
    assert !isBp(buf[|buf| - 1]);
  }

  lemma RoundsStep(buf: seq<string>, m: nat, n: nat, isBp: string -> bool)
    requires FirstMatch(buf, 0, isBp) == Some(m) && n > 0
    ensures EraseRounds(buf, n, isBp) == EraseRounds(EraseFullLine(buf, m), n - 1, isBp)
  {
    assert EraseRounds(buf, n, isBp) == EraseAt(buf, Some(m), n, isBp);
  }

  lemma RoundsStop(buf: seq<string>, n: nat, isBp: string -> bool)
    requires FirstMatch(buf, 0, isBp).None? || n == 0
    ensures EraseRounds(buf, n, isBp) == buf
  {
  }

  /** One erasing round: it takes one counted row away and keeps Cleared. */
  lemma NextRound(buf: seq<string>, n: nat, isBp: string -> bool) returns (e: seq<string>)
    requires |buf| > 0 && !isBp("") && n > 0 && FirstMatch(buf, 0, isBp).Some?
    ensures |e| > 0 && EraseRounds(buf, n, isBp) == EraseRounds(e, n - 1, isBp)
    ensures Count(e, isBp) + 1 == Count(buf, isBp) && Cleared(e, isBp) == Cleared(buf, isBp)
  {
    var m := FirstMatch(buf, 0, isBp).value;
    e := EraseFullLine(buf, m);
    EraseCount(buf, m, isBp);
    EraseCleared(buf, m, isBp);
    RoundsStep(buf, m, n, isBp);
  }

  /** Each erasing round takes one counted row away: `n` rounds leave
      max(0, count - n) of them. */
  lemma {:induction false} CountRounds(buf: seq<string>, n: nat, isBp: string -> bool)
    requires |buf| > 0 && !isBp("")
    ensures Count(EraseRounds(buf, n, isBp), isBp) == if Count(buf, isBp) <= n then 0 else Count(buf, isBp) - n
    decreases n
  {
    if FirstMatch(buf, 0, isBp).None? {
      RoundsStop(buf, n, isBp);
      NoneLeft(buf, isBp);
    } else if n == 0 {
      RoundsStop(buf, n, isBp);
      var e := NextRound(buf, 1, isBp);
    } else {
      var e := NextRound(buf, n, isBp);
      CountRounds(e, n - 1, isBp);
    }
  }

  /** Enough erasing rounds leave the buffer Cleared. */
  lemma {:induction false} ClearRounds(buf: seq<string>, n: nat, isBp: string -> bool)
    requires |buf| > 0 && !isBp("") && Count(buf, isBp) <= n
    ensures EraseRounds(buf, n, isBp) == Cleared(buf, isBp)
    decreases n
  {
    if FirstMatch(buf, 0, isBp).None? {
      RoundsStop(buf, n, isBp);
      NoneLeft(buf, isBp);
    } else {
      EraseCount(buf, FirstMatch(buf, 0, isBp).value, isBp);
      var e := NextRound(buf, n, isBp);
      ClearRounds(e, n - 1, isBp);
    }
  }

  /** No breakpoint line is marked as inside a try/except block. */
  predicate NoBlockBreakpoints(buf: seq<string>) {
    forall j {:trigger FromText(buf[j])} :: 0 <= j < |buf| ==> !FromText(buf[j]).inBlock
  }

  /** The empty row is not a breakpoint line. */
  lemma EmptyRowIsPlain()
    ensures !IsBreakpointLine("") && !FromText("").inBlock
  {
  }

  /** Every row left by erasing a row is a row of the buffer or empty. */
  lemma EraseKeepsPlain(buf: seq<string>, m: nat)
    requires m < |buf| && NoBlockBreakpoints(buf)
    ensures NoBlockBreakpoints(EraseFullLine(buf, m))
  {
    var e := EraseFullLine(buf, m);
    EmptyRowIsPlain();
    forall j | 0 <= j < |e|
      ensures !FromText(e[j]).inBlock
    {
      if j < m {
        assert e[j] == buf[j];
      } else if m + 1 < |buf| {
        assert e[j] == buf[j + 1];
      } else {
        assert e[j] == "";
      }
    }
  }

  /** One round of clear-all on a breakpoint outside any block erases its row. */
  lemma ClearRound(buf: seq<string>, m: nat, tab: nat)
    requires m < |buf| && IsBreakpointLine(buf[m]) && !FromText(buf[m]).inBlock
    ensures Removed(buf, HostRow(buf, m), m + 1, tab) == Outcome(EraseFullLine(buf, m), true)
  {
  }

  /** The rounds after the first one run on the buffer the first one left. */
  lemma ClearStepsStep(buf: seq<string>, m: nat, n: nat, tab: nat)
    requires FirstMatch(buf, 0, IsBreakpointLine) == Some(m) && !FromText(buf[m]).inBlock && n > 0
    ensures ClearSteps(buf, n, tab) == ClearSteps(EraseFullLine(buf, m), n - 1, tab)
  {
    ClearFoundStep(buf, m, n, tab);
    ClearRound(buf, m, tab);
  }

  /** A round that finds a breakpoint on row `m` goes on to remove it. */
  lemma ClearFoundStep(buf: seq<string>, m: nat, n: nat, tab: nat)
    requires FirstMatch(buf, 0, IsBreakpointLine) == Some(m) && n > 0
    ensures ClearSteps(buf, n, tab) == ClearFound(buf, m, n, tab)
  {
    assert ClearSteps(buf, n, tab) == ClearAt(buf, Some(m), n, tab);
  }

  /** One clear-all round next to one erasing round, on a breakpoint outside any block. */
  lemma NextClear(buf: seq<string>, n: nat, tab: nat) returns (e: seq<string>)
    requires |buf| > 0 && NoBlockBreakpoints(buf) && n > 0 && FirstMatch(buf, 0, IsBreakpointLine).Some?
    ensures |e| > 0 && NoBlockBreakpoints(e)
    ensures ClearSteps(buf, n, tab) == ClearSteps(e, n - 1, tab)
    ensures EraseRounds(buf, n, IsBreakpointLine) == EraseRounds(e, n - 1, IsBreakpointLine)
  {
    var m := FirstMatch(buf, 0, IsBreakpointLine).value;
    e := EraseFullLine(buf, m);
    EraseKeepsPlain(buf, m);
    ClearStepsStep(buf, m, n, tab);
    RoundsStep(buf, m, n, IsBreakpointLine);
  }

  /** Clear-all stops when no breakpoint line is left or no round is. */
  lemma ClearStop(buf: seq<string>, n: nat, tab: nat)
    requires n == 0 || FirstMatch(buf, 0, IsBreakpointLine).None?
    ensures ClearSteps(buf, n, tab) == buf
  {
  }

  /** On breakpoints outside any block, each clear-all round erases one row. */
  lemma {:induction false} ClearStepsErase(buf: seq<string>, n: nat, tab: nat)
    requires |buf| > 0 && NoBlockBreakpoints(buf)
    ensures ClearSteps(buf, n, tab) == EraseRounds(buf, n, IsBreakpointLine)
    decreases n
  {
    if n > 0 && FirstMatch(buf, 0, IsBreakpointLine).Some? {
      var e := NextClear(buf, n, tab);
      ClearStepsErase(e, n - 1, tab);
    } else {
      RoundsStop(buf, n, IsBreakpointLine);
      ClearStop(buf, n, tab);
    }
  }

  /**
   * Clear-all on breakpoints outside any block: every round takes one
   * breakpoint line away, so `n` rounds leave max(0, count - n) of them,
   * and when `n` suffices the result is exactly Cleared, every other row
   * kept in its order.
   */
  lemma ClearStepsRemoveAll(buf: seq<string>, n: nat, tab: nat)
    requires |buf| > 0 && NoBlockBreakpoints(buf)
    ensures var res, count := ClearSteps(buf, n, tab), Count(buf, IsBreakpointLine);
            && Count(res, IsBreakpointLine) == (if count <= n then 0 else count - n)
            && (count <= n ==> res == Cleared(buf, IsBreakpointLine))
  {
    ClearStepsErase(buf, n, tab);
    EmptyRowIsPlain();
    CountRounds(buf, n, IsBreakpointLine);
    if Count(buf, IsBreakpointLine) <= n {
      ClearRounds(buf, n, IsBreakpointLine);
    }
  }

  /** With at most 999 breakpoints, none of them in a block, clear-all
      removes every breakpoint line and nothing else. */
  lemma ClearAllRemovesAll(buf: seq<string>, tab: nat)
    requires |buf| > 0 && NoBlockBreakpoints(buf) && Count(buf, IsBreakpointLine) <= CLEAR_LIMIT
    ensures var res := ClearSteps(buf, CLEAR_LIMIT, tab);
            && res == Cleared(buf, IsBreakpointLine)
            && forall j :: 0 <= j < |res| ==> !IsBreakpointLine(res[j])
  {
    ClearStepsRemoveAll(buf, CLEAR_LIMIT, tab);
    var res := ClearSteps(buf, CLEAR_LIMIT, tab);
    CountedRows(res, IsBreakpointLine);
  }
}
