/**
 * Adding breakpoints. A single breakpoint line goes above the cursor row at
 * the indent that calc_indent infers (insert_breakpoint). A selection is
 * wrapped instead (insert_try_except_breakpoint): a try line above it, every
 * selected row indented by one tab stop, then an except line and a
 * breakpoint marked as inside the block. Positions are character offsets,
 * as in the host editor; the rows they name are found with Locate.
 */
module Insertion {
  import opened Opt
  import opened Text
  import opened Breakpoints
  import opened Views
  import opened Indent
  import opened Removal

  /** What insert_breakpoint leaves for the cursor row `k`: the new line above
      the row when an indent was found, the buffer as it was otherwise (no
      indent, or calc_indent raised IndexError). */
  function Inserted(buf: seq<string>, k: nat, tab: nat, debugger: string, uid: string): seq<string>
    requires k < |buf|
  {
    match InferIndent(buf, k, tab)
    case Place(i) => InsertLine(buf, k, 0, AsLine(Fresh(uid, false), i, debugger))
    case _ => buf
  }

  /** insert_breakpoint: the line holding the breakpoint statement is inserted
      at the begin of the cursor row. */
  method InsertBreakpoint(v: View, k: nat, tab: nat, debugger: string, uid: string)
    requires v.Valid() && k < |v.lines| && '\n' !in debugger
    modifies v
    ensures v.Valid() && v.lines == Inserted(old(v.lines), k, tab, debugger, uid)
  {
    var indent := CalcIndent(v.lines, k, tab);
    if !indent.Place? {
      return;
    }
    var bp := Fresh(uid, false);
    var rgA := Begin(v.lines, k);
    LocateRow(v.lines, k);
    var _ := v.InsertLineAt(rgA, AsLine(bp, indent.indent, debugger));
  }

  /**
   * The inserted row is a breakpoint line at the inferred indent that reads
   * back as a fresh record outside any block; the rows of the buffer follow
   * it unchanged. Without an indent nothing changes.
   */
  lemma InsertedRow(buf: seq<string>, k: nat, tab: nat, debugger: string, uid: string)
    requires k < |buf| && IsUid(uid) && IsDebuggerName(debugger)
    ensures var res := Inserted(buf, k, tab, debugger, uid);
            match InferIndent(buf, k, tab)
            case Place(i) =>
              && res == buf[..k] + [res[k]] + buf[k..]
              && IsBreakpointLine(res[k]) && GetIndent(res[k]) == i
              && FromText(res[k]) == Breakpoint(Some(uid), false)
            case _ => res == buf
  {
    match InferIndent(buf, k, tab)
    case Place(i) =>
      var line := AsLine(Fresh(uid, false), i, debugger);
      InsertAtRowStart(buf, k, line);
      ParseRendered(uid, false, i, debugger);
      ParsedIffMatches(line);
    case _ =>
  }

  /**
   * Toggling twice: with the cursor left on the inserted breakpoint line,
   * remove_breakpoint takes exactly that line away again and reports it.
   * `row` is what the host reports for the cursor's full line (the row after
   * it, or the row itself on the last row) and `k + 1` the rows up to it.
   */
  lemma ToggleRoundTrip(buf: seq<string>, k: nat, row: nat, tab: nat, debugger: string, uid: string)
    requires k < |buf| && k <= row && IsUid(uid) && IsDebuggerName(debugger)
    requires InferIndent(buf, k, tab).Place?
    ensures var res := Inserted(buf, k, tab, debugger, uid);
            Removed(res, row, k + 1, tab) == Outcome(buf, true)
  {
    InsertedRow(buf, k, tab, debugger, uid);
    var res := Inserted(buf, k, tab, debugger, uid);
    assert Position(row, k + 1) == k;
    RemovalCases(res, row, k + 1, tab);
    RemoveRowPlain(res, k, k, tab);
    assert res[..k] + res[k + 1..] == buf;
  }

  /** The try line of a guard block at indent `i`. */
  function TryLine(i: nat): string {
    Spaces(i) + TRY_STR
  }

  /** The except line of a guard block at indent `i`, without its newline. */
  function ExceptText(i: nat): string {
    Spaces(i) + EXCEPT_STR
  }

  /** Every row with `tab` spaces put in front. */
  function Indented(rows: seq<string>, tab: nat): (res: seq<string>)
    ensures |res| == |rows| && forall j :: 0 <= j < |rows| ==> res[j] == Spaces(tab) + rows[j]
  {
    seq(|rows|, j requires 0 <= j < |rows| => Spaces(tab) + rows[j])
  }

  /** Outdenting undoes indenting. */
  lemma OutdentIndented(rows: seq<string>, tab: nat)
    ensures forall j :: 0 <= j < |rows| ==> tab <= |Indented(rows, tab)[j]|
    ensures Outdented(Indented(rows, tab), tab) == rows
  {
    forall j | 0 <= j < |rows|
      ensures Outdented(Indented(rows, tab), tab)[j] == rows[j]
    {
      SpacesThenDrop(tab, rows[j]);
    }
  }

  /** Each indented row starts `tab` characters later than before. */
  lemma {:induction false} BeginIndented(rows: seq<string>, tab: nat, m: nat)
    requires m <= |rows|
    ensures Begin(Indented(rows, tab), m) == Begin(rows, m) + tab * m
  {
    if m > 0 {
      BeginIndented(rows, tab, m - 1);
    }
  }

  /** The first row among `a`, ..., `b - 1` that holds code, if any. */
  function FirstCodeRow(buf: seq<string>, a: nat, b: nat): (r: Option<nat>)
    requires a <= b <= |buf|
    ensures r.Some? ==> a <= r.value < b && IsCode(buf[r.value])
    ensures r.Some? ==> forall j :: a <= j < r.value ==> !IsCode(buf[j])
    ensures r.None? ==> forall j :: a <= j < b ==> !IsCode(buf[j])
    decreases b - a
  {
    if a == b then None else if IsCode(buf[a]) then Some(a) else FirstCodeRow(buf, a + 1, b)
  }

  /** Lines 287-291: the indent of the first selected row that holds code. */
  method FindIndent(buf: seq<string>, a: nat, b: nat) returns (indent: Option<nat>)
    requires a <= b <= |buf|
    ensures indent.None? <==> FirstCodeRow(buf, a, b).None?
    ensures indent.Some? ==> indent.value == GetIndent(buf[FirstCodeRow(buf, a, b).value])
  {
    var r := a;
    while r < b
      invariant a <= r <= b && FirstCodeRow(buf, a, b) == FirstCodeRow(buf, r, b)
    {
      if IsCode(buf[r]) {
        return Some(GetIndent(buf[r]));
      }
      r := r + 1;
    }
    return None;
  }

  /**
   * The selection of rows `a`, ..., `b` wrapped with the try line `tr`, the
   * except line `ex` and the breakpoint line `bp`: the selected rows are
   * indented by `tab`. When the last selected row is the last row of the
   * buffer it has no newline to insert the except line after, so the except
   * text lands at the end of that row.
   */
  function WrapWith(buf: seq<string>, a: nat, b: nat, tr: string, ex: string, bp: string, tab: nat): seq<string>
    requires a <= b < |buf|
  {
    if b + 1 < |buf| then
      buf[..a] + [tr] + Indented(buf[a..b + 1], tab) + [ex, bp] + buf[b + 1..]
    else
      buf[..a] + [tr] + Indented(buf[a..b], tab) + [Spaces(tab) + buf[b] + ex, bp, ""]
  }

  /** The guard block at indent `i`, around a breakpoint marked as inside it
      and indented one tab stop further. */
  function Wrap(buf: seq<string>, a: nat, b: nat, i: nat, tab: nat, debugger: string, uid: string): seq<string>
    requires a <= b < |buf|
  {
    WrapWith(buf, a, b, TryLine(i), ExceptText(i), AsLine(Fresh(uid, true), i + tab, debugger), tab)
  }

  /** What insert_try_except_breakpoint leaves: nothing changes when no
      selected row holds code. */
  function Wrapped(buf: seq<string>, a: nat, b: nat, tab: nat, debugger: string, uid: string): seq<string>
    requires a <= b < |buf|
  {
    match FirstCodeRow(buf, a, b + 1)
    case None => buf
    case Some(r) => Wrap(buf, a, b, GetIndent(buf[r]), tab, debugger, uid)
  }

  /** The buffer after the try line `tr` and the first `r - a` indents. */
  function Shifting(buf: seq<string>, a: nat, r: nat, tr: string, tab: nat): (cur: seq<string>)
    requires a <= r <= |buf|
    ensures |cur| == |buf| + 1
  {
    buf[..a] + [tr] + Indented(buf[a..r], tab) + buf[r..]
  }

  /** In the shifting buffer, row `j` of the selection has moved one row down
      and on by the try line, its newline, and one tab per row indented above
      it. */
  lemma ShiftedBegin(buf: seq<string>, a: nat, r: nat, tr: string, tab: nat, j: nat)
    requires a <= j <= r <= |buf|
    ensures Begin(Shifting(buf, a, r, tr, tab), j + 1) == Begin(buf, j) + |tr| + 1 + tab * (j - a)
  {
    var m := j - a;
    var x, rows, rest := buf[..a], buf[a..r], buf[r..];
    var z := Indented(rows, tab) + rest;
    var y := [tr] + z;
    assert Shifting(buf, a, r, tr, tab) == x + y;
    BeginSplit(x, y, 1 + m);
    BeginSplit([tr], z, m);
    BeginPrefix(Indented(rows, tab), rest, m);
    BeginIndented(rows, tab, m);
    assert buf == x + (rows + rest);
    BeginSplit(x, rows + rest, m);
    BeginPrefix(rows, rest, m);
  }

  /** One more selected row indented. */
  lemma ShiftStep(buf: seq<string>, a: nat, r: nat, tr: string, tab: nat)
    requires a <= r < |buf|
    ensures var cur := Shifting(buf, a, r, tr, tab);
            InsertText(cur, r + 1, 0, Spaces(tab)) == Shifting(buf, a, r + 1, tr, tab)
  {
    var cur := Shifting(buf, a, r, tr, tab);
    var next := Shifting(buf, a, r + 1, tr, tab);
    assert cur[r + 1] == buf[r];
    assert buf[r][0..] == buf[r];
    forall j | 0 <= j < |next|
      ensures InsertText(cur, r + 1, 0, Spaces(tab))[j] == next[j]
    {
      if j <= a {
      } else if j <= r {
        assert next[j] == Spaces(tab) + buf[a..r + 1][j - a - 1];
      } else if j == r + 1 {
        assert next[j] == Spaces(tab) + buf[a..r + 1][r - a];
      }
    }
  }

  /**
   * insert_try_except_breakpoint for the selected rows `a`, ..., `b`. The
   * row offsets are read once, before the edits; `offset` counts the
   * characters inserted so far, so that an old offset plus `offset` is the
   * same place in the edited buffer.
   */
  method InsertTryExceptBreakpoint(v: View, a: nat, b: nat, tab: nat, debugger: string, uid: string)
    requires v.Valid() && a <= b < |v.lines| && '\n' !in debugger
    modifies v
    ensures v.Valid() && v.lines == Wrapped(old(v.lines), a, b, tab, debugger, uid)
  {
    var buf := v.lines;
    var indent := FindIndent(buf, a, b + 1);
    if indent.None? {
      return;
    }
    var i := indent.value;
    var tr, ex := TryLine(i), ExceptText(i);
    var bp := AsLine(Fresh(uid, true), i + tab, debugger);
    var rgA := Begin(buf, a);
    var rgB := if b + 1 < |buf| then Begin(buf, b + 1) else End(buf, b);
    var offset := InsertTry(v, a, tr, tab);
    offset := IndentRows(v, buf, a, b, tr, tab, offset);
    if b + 1 < |buf| {
      CloseBelow(v, buf, a, b, tr, ex, bp, tab, rgB, offset);
    } else {
      CloseAtEnd(v, buf, a, b, tr, ex, bp, tab, rgB, offset);
    }
  }

  /** Line 300: the try line goes in above the first selected row. */
  method InsertTry(v: View, a: nat, tr: string, tab: nat) returns (offset: nat)
    requires v.Valid() && a < |v.lines|
    modifies v
    ensures v.Valid() && v.lines == Shifting(old(v.lines), a, a, tr, tab) && offset == |tr| + 1
  {
    LocateRow(v.lines, a);
    InsertAtRowStart(v.lines, a, tr);
    assert v.lines[a..a] == [];
    offset := v.InsertLineAt(Begin(v.lines, a), tr);
  }

  /** Lines 303-304: every selected row gets `tab` spaces at its begin, which
      lies `offset` characters after where it was. */
  method IndentRows(v: View, buf: seq<string>, a: nat, b: nat, tr: string, tab: nat, offset0: nat) returns (offset: nat)
    requires a <= b < |buf| && v.lines == Shifting(buf, a, a, tr, tab) && offset0 == |tr| + 1
    modifies v
    ensures v.Valid() && v.lines == Shifting(buf, a, b + 1, tr, tab)
    ensures offset == |tr| + 1 + tab * (b + 1 - a)
  {
    offset := offset0;
    var r := a;
    while r <= b
      invariant a <= r <= b + 1
      invariant v.lines == Shifting(buf, a, r, tr, tab)
      invariant offset == |tr| + 1 + tab * (r - a)
    {
      var n := IndentRow(v, buf, a, r, tr, tab, offset);
      TabStep(tab, r - a);
      offset := offset + n;
      r := r + 1;
    }
  }

  /** The insert of `tab` spaces at the begin of selected row `r`. */
  method IndentRow(v: View, buf: seq<string>, a: nat, r: nat, tr: string, tab: nat, offset: nat) returns (n: nat)
    requires a <= r < |buf| && v.lines == Shifting(buf, a, r, tr, tab)
    requires offset == |tr| + 1 + tab * (r - a)
    modifies v
    ensures v.lines == Shifting(buf, a, r + 1, tr, tab) && n == tab
  {
    ShiftedBegin(buf, a, r, tr, tab, r);
    LocateRow(v.lines, r + 1);
    n := v.InsertTextAt(Begin(buf, r) + offset, Spaces(tab));
    ShiftStep(buf, a, r, tr, tab);
  }

  lemma TabStep(tab: nat, m: nat)
    ensures tab * (m + 1) == tab * m + tab
  {
  }

  /** Lines 306-312 when the last selected row ends in a newline: the except
      line and the breakpoint go in as rows of their own below the selection. */
  method CloseBelow(v: View, buf: seq<string>, a: nat, b: nat, tr: string, ex: string, bp: string, tab: nat,
                    rgB: nat, offset0: nat)
    requires a <= b && b + 1 < |buf| && rgB == Begin(buf, b + 1)
    requires v.lines == Shifting(buf, a, b + 1, tr, tab) && offset0 == |tr| + 1 + tab * (b + 1 - a)
    modifies v
    ensures v.Valid() && v.lines == WrapWith(buf, a, b, tr, ex, bp, tab)
  {
    var cur := v.lines;
    ShiftedBegin(buf, a, b + 1, tr, tab, b + 1);
    var n := InsertAtBegin(v, b + 2, rgB + offset0, ex);
    var offset := offset0 + n;
    var cur' := v.lines;
    ExceptThenBreakpoint(cur, cur', b, ex);
    var _ := InsertAtBegin(v, b + 3, rgB + offset, bp);
    WrapBelow(buf, a, b, tr, ex, bp, tab, cur, cur', v.lines);
  }

  /** Lines 306-312 when the last selected row is the last row of the buffer:
      the except text is appended to it and the breakpoint goes below. */
  method CloseAtEnd(v: View, buf: seq<string>, a: nat, b: nat, tr: string, ex: string, bp: string, tab: nat,
                    rgB: nat, offset0: nat)
    requires a <= b && b + 1 == |buf| && rgB == End(buf, b)
    requires v.lines == Shifting(buf, a, b + 1, tr, tab) && offset0 == |tr| + 1 + tab * (b + 1 - a)
    modifies v
    ensures v.Valid() && v.lines == WrapWith(buf, a, b, tr, ex, bp, tab)
  {
    var cur := v.lines;
    ShiftedBegin(buf, a, b + 1, tr, tab, b);
    var n := InsertAtEnd(v, b + 1, rgB + offset0, ex);
    var offset := offset0 + n;
    var cur' := v.lines;
    ExceptAtEndThenBreakpoint(cur, cur', b, ex);
    var _ := InsertAtBegin(v, b + 2, rgB + offset, bp);
    WrapAtEnd(buf, a, b, tr, ex, bp, tab, cur, cur', v.lines);
  }

  /** view.insert of a line at `pos`, the begin of row `r`. */
  method InsertAtBegin(v: View, r: nat, pos: nat, s: string) returns (n: nat)
    requires v.Valid() && r < |v.lines| && pos == Begin(v.lines, r)
    modifies v
    ensures v.Valid() && v.lines == InsertLine(old(v.lines), r, 0, s) && n == |s| + 1
  {
    LocateRow(v.lines, r);
    n := v.InsertLineAt(pos, s);
  }

  /** view.insert of a line at `pos`, the end of row `r`. */
  method InsertAtEnd(v: View, r: nat, pos: nat, s: string) returns (n: nat)
    requires v.Valid() && r < |v.lines| && pos == End(v.lines, r)
    modifies v
    ensures v.Valid() && v.lines == InsertLine(old(v.lines), r, |old(v.lines)[r]|, s) && n == |s| + 1
  {
    LocateRow(v.lines, r);
    n := v.InsertLineAt(pos, s);
  }

  /** After the except line went in as row `b + 2`, row `b + 3` begins one
      line of except text further on. */
  lemma ExceptThenBreakpoint(cur: seq<string>, cur': seq<string>, b: nat, ex: string)
    requires b + 2 < |cur| && cur' == InsertLine(cur, b + 2, 0, ex)
    ensures Begin(cur', b + 3) == Begin(cur, b + 2) + |ex| + 1
  {
    BeginSameAbove(cur, cur', b + 2);
  }

  /** After the except text was appended to row `b + 1`, the last, row
      `b + 2` begins just past it. */
  lemma ExceptAtEndThenBreakpoint(cur: seq<string>, cur': seq<string>, b: nat, ex: string)
    requires b + 1 < |cur| && cur' == InsertLine(cur, b + 1, |cur[b + 1]|, ex)
    ensures Begin(cur', b + 2) == End(cur, b + 1) + |ex| + 1
  {
    BeginSameAbove(cur, cur', b + 1);
  }

  lemma WrapBelow(buf: seq<string>, a: nat, b: nat, tr: string, ex: string, bp: string, tab: nat,
                  cur: seq<string>, cur': seq<string>, res: seq<string>)
    requires a <= b && b + 1 < |buf| && cur == Shifting(buf, a, b + 1, tr, tab)
    requires cur' == InsertLine(cur, b + 2, 0, ex)
    requires res == InsertLine(cur', b + 3, 0, bp)
    ensures res == WrapWith(buf, a, b, tr, ex, bp, tab)
  {
    var head := buf[..a] + [tr] + Indented(buf[a..b + 1], tab);
    assert cur == head + buf[b + 1..];
    assert cur[..b + 2] == head && cur[b + 2..] == buf[b + 1..];
    InsertAtRowStart(cur, b + 2, ex);
    assert cur' == head + [ex] + buf[b + 1..];
    assert cur'[..b + 3] == head + [ex] && cur'[b + 3..] == buf[b + 1..];
    InsertAtRowStart(cur', b + 3, bp);
  }

  lemma WrapAtEnd(buf: seq<string>, a: nat, b: nat, tr: string, ex: string, bp: string, tab: nat,
                  cur: seq<string>, cur': seq<string>, res: seq<string>)
    requires a <= b && b + 1 == |buf| && cur == Shifting(buf, a, b + 1, tr, tab)
    requires cur' == InsertLine(cur, b + 1, |cur[b + 1]|, ex)
    requires res == InsertLine(cur', b + 2, 0, bp)
    ensures res == WrapWith(buf, a, b, tr, ex, bp, tab)
  {
    var head := buf[..a] + [tr] + Indented(buf[a..b], tab);
    assert Indented(buf[a..b + 1], tab) == Indented(buf[a..b], tab) + [Spaces(tab) + buf[b]];
    assert cur == head + [Spaces(tab) + buf[b]];
    assert cur[..b + 1] == head && cur[b + 1] == Spaces(tab) + buf[b] && cur[b + 2..] == [];
    InsertAtRowEnd(cur, b + 1, ex);
    assert cur' == head + [Spaces(tab) + buf[b] + ex, ""];
    InsertAtRowStart(cur', b + 2, bp);
    assert cur'[..b + 2] == head + [Spaces(tab) + buf[b] + ex] && cur'[b + 2..] == [""];
  }

  /** The try and except lines at indent `i` are what the unwind looks for,
      and the except line's indent is `i`. */
  lemma GuardLinesAt(i: nat)
    ensures IsTryLine(TryLine(i), i)
    ensures IsExceptLine(ExceptText(i)) && GetIndent(ExceptText(i)) == i
  {
    assert EXCEPT_STR[0] == 'e' && EXCEPT_STR[|EXCEPT_STR| - 1] == ':';
    StripIndentedWord(i, EXCEPT_STR);
    LeadingTextIsLStrip(ExceptText(i), EXCEPT_STR);
  }

  /**
   * Wrapping and then toggling on the new breakpoint gives the buffer back:
   * the breakpoint and the except line are erased, the selected rows lose
   * their tab stop and the try line is erased. This holds when the last
   * selected row ends in a newline, and no indented row would itself be
   * taken for the try line.
   */
  lemma WrapThenRemove(buf: seq<string>, a: nat, b: nat, i: nat, row: nat, tab: nat, debugger: string, uid: string)
    requires a <= b && b + 1 < |buf| && b + 3 <= row && IsUid(uid) && IsDebuggerName(debugger)
    requires forall j :: a <= j <= b ==> !IsTryLine(Spaces(tab) + buf[j], i)
    ensures Removed(Wrap(buf, a, b, i, tab, debugger, uid), row, b + 4, tab) == Outcome(buf, true)
  {
    var tr, ex := TryLine(i), ExceptText(i);
    var bp := AsLine(Fresh(uid, true), i + tab, debugger);
    ParseRendered(uid, true, i + tab, debugger);
    ParsedIffMatches(bp);
    GuardLinesAt(i);
    GuardRemoved(buf, a, b, i, row, tab, tr, ex, bp);
  }

  /** The round trip for any try line, except line and in-block breakpoint line. */
  lemma GuardRemoved(buf: seq<string>, a: nat, b: nat, i: nat, row: nat, tab: nat, tr: string, ex: string, bp: string)
    requires a <= b && b + 1 < |buf| && b + 3 <= row
    requires IsBreakpointLine(bp) && FromText(bp).inBlock
    requires IsTryLine(tr, i) && IsExceptLine(ex) && GetIndent(ex) == i
    requires forall j :: a <= j <= b ==> !IsTryLine(Spaces(tab) + buf[j], i)
    ensures Removed(WrapWith(buf, a, b, tr, ex, bp, tab), row, b + 4, tab) == Outcome(buf, true)
  {
    var w := WrapWith(buf, a, b, tr, ex, bp, tab);
    BreakpointRowErased(buf, a, b, tr, ex, bp, tab);
    GuardRestores(buf, a, b, i, tab, tr, ex);
    assert RemoveRow(w, b + 3, b + 3, tab) == buf;
    assert Position(row, b + 4) == b + 3;
  }

  /** The breakpoint is row `b + 3` of the guard block; erasing it leaves the
      except line right above the rows after the selection. */
  lemma BreakpointRowErased(buf: seq<string>, a: nat, b: nat, tr: string, ex: string, bp: string, tab: nat)
    requires a <= b && b + 1 < |buf|
    ensures var w := WrapWith(buf, a, b, tr, ex, bp, tab);
            && |w| == |buf| + 3 && w[b + 3] == bp
            && EraseFullLine(w, b + 3) == buf[..a] + [tr] + Indented(buf[a..b + 1], tab) + [ex] + buf[b + 1..]
  {
    var pre := buf[..a] + [tr] + Indented(buf[a..b + 1], tab) + [ex];
    assert WrapWith(buf, a, b, tr, ex, bp, tab) == pre + [bp] + buf[b + 1..];
    EraseBetween(pre, bp, buf[b + 1..]);
  }

  /** The unwind from below the except line `ex` restores the selection. */
  lemma GuardRestores(buf: seq<string>, a: nat, b: nat, i: nat, tab: nat, tr: string, ex: string)
    requires a <= b && b + 1 < |buf| && IsTryLine(tr, i) && IsExceptLine(ex) && GetIndent(ex) == i
    requires forall j :: a <= j <= b ==> !IsTryLine(Spaces(tab) + buf[j], i)
    ensures Unwind(buf[..a] + [tr] + Indented(buf[a..b + 1], tab) + [ex] + buf[b + 1..], b + 3, b + 3, None, tab) == buf
  {
    GuardShape(buf, a, b, i, tab, tr, ex);
    GuardRestoresAt(buf[..a] + [tr] + Indented(buf[a..b + 1], tab) + [ex] + buf[b + 1..], buf, a, b, i, tab);
  }

  /** The same, stated on the rows of the guard block one by one. */
  lemma GuardRestoresAt(erased: seq<string>, buf: seq<string>, a: nat, b: nat, i: nat, tab: nat)
    requires a <= b && b + 1 < |buf| && |erased| == |buf| + 2
    requires IsExceptLine(erased[b + 2]) && GetIndent(erased[b + 2]) == i && IsTryLine(erased[a], i)
    requires forall j :: a < j < b + 2 ==> !IsTryLine(erased[j], i) && tab <= |erased[j]|
    requires erased[..a] == buf[..a] && erased[b + 3..] == buf[b + 1..]
    requires Outdented(erased[a + 1..b + 2], tab) == buf[a..b + 1]
    ensures Unwind(erased, b + 3, b + 3, None, tab) == buf
  {
    UnwindGuardBlock(erased, b + 3, b + 3, tab, b + 2, a);
    SplitThree(buf, a, b + 1);
  }

  /** Where the rows of the buffer lie in the guard block, and that no
      indented row is taken for the try line. */
  lemma GuardShape(buf: seq<string>, a: nat, b: nat, i: nat, tab: nat, tr: string, ex: string)
    requires a <= b && b + 1 < |buf|
    requires forall j :: a <= j <= b ==> !IsTryLine(Spaces(tab) + buf[j], i)
    ensures var rows := Indented(buf[a..b + 1], tab);
            var erased := buf[..a] + [tr] + rows + [ex] + buf[b + 1..];
            && |erased| == |buf| + 2 && erased[b + 2] == ex && erased[a] == tr
            && erased[..a] == buf[..a] && erased[b + 3..] == buf[b + 1..]
            && (forall j :: a < j < b + 2 ==> !IsTryLine(erased[j], i) && tab <= |erased[j]|)
            && Outdented(erased[a + 1..b + 2], tab) == buf[a..b + 1]
  {
    var rows := Indented(buf[a..b + 1], tab);
    var erased := buf[..a] + [tr] + rows + [ex] + buf[b + 1..];
    forall j | a < j < b + 2
      ensures !IsTryLine(erased[j], i) && tab <= |erased[j]|
    {
      assert erased[j] == rows[j - a - 1] == Spaces(tab) + buf[j - 1];
    }
    assert erased[a + 1..b + 2] == rows;
    OutdentIndented(buf[a..b + 1], tab);
  }

  lemma SplitThree(s: seq<string>, a: nat, c: nat)
    requires a <= c <= |s|
    ensures s[..a] + s[a..c] + s[c..] == s
  {
  }

  /** Erasing a row that has rows below it joins the rows around it. */
  lemma EraseBetween(pre: seq<string>, x: string, post: seq<string>)
    requires post != []
    ensures EraseFullLine(pre + [x] + post, |pre|) == pre + post
  {
    var buf := pre + [x] + post;
    assert buf[..|pre|] == pre && buf[|pre| + 1..] == post;
  }
}
