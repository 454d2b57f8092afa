/**
 * Removing a breakpoint (remove_breakpoint). The row at the cursor and the
 * row before it are tried in turn; the first that parses as a breakpoint is
 * erased. A breakpoint inside a try/except block added by the plugin also
 * takes the block away: scanning upward, the except line is erased, every
 * line up to the matching try line loses one tab stop, and the try line is
 * erased. All edits lie at or below the row being scanned, so the rows above
 * it keep their offsets.
 */
module Removal {
  import opened Opt
  import opened Text
  import opened Breakpoints
  import opened Views

  const TRY_STR := "try:"
  const EXCEPT_STR := "except Exception as exc:"

  /** The except line of a guard block: its stripped text starts with EXCEPT_STR. */
  predicate IsExceptLine(s: string) {
    LeadingTextStartsWith(s, EXCEPT_STR)
  }

  /** The plugin tests the stripped line; the except line's text ends in a
      non-whitespace character, so the test sees past the indent only. */
  lemma ExceptLineIsStripTest(s: string)
    ensures IsExceptLine(s) <==> StartsWith(Strip(s), EXCEPT_STR)
  {
    assert EXCEPT_STR[|EXCEPT_STR| - 1] == ':';
    LeadingTextIsStripTest(s, EXCEPT_STR);
  }

  /** The try line of a guard block whose except line is indented by `e`. */
  predicate IsTryLine(s: string, e: nat) {
    StartsWith(s, Spaces(e) + TRY_STR)
  }

  /**
   * The upward scan of lines 245-265 over rows `r - 1`, ..., 0 of `buf`,
   * skipping the breakpoint's own row `skip`. `indent` is None until the
   * except line is met, then the except line's indent.
   */
  function Unwind(buf: seq<string>, r: nat, skip: nat, indent: Option<nat>, tab: nat): (res: seq<string>)
    requires r <= |buf|
    decreases r
  {
    if r == 0 then buf
    else if r - 1 == skip then Unwind(buf, r - 1, skip, indent, tab)
    else
      var s := buf[r - 1];
      match indent
      case None =>
        if IsExceptLine(s) then Unwind(EraseFullLine(buf, r - 1), r - 1, skip, Some(GetIndent(s)), tab)
        else Unwind(buf, r - 1, skip, None, tab)
      case Some(e) =>
        if IsTryLine(s, e) then EraseFullLine(buf, r - 1)
        else Unwind(EraseFromLineStart(buf, r - 1, tab), r - 1, skip, indent, tab)
  }

  /** Erasing the breakpoint on row `b`, then unwinding its block from row
      `ln` up when it is marked as inside one. */
  function RemoveRow(buf: seq<string>, b: nat, ln: nat, tab: nat): seq<string>
    requires b < |buf| && ln < |buf|
  {
    var erased := EraseFullLine(buf, b);
    if FromText(buf[b]).inBlock then Unwind(erased, ln, b, None, tab) else erased
  }

  /** What remove_breakpoint leaves and returns. */
  datatype Outcome = Outcome(buf: seq<string>, removed: bool)

  /** `min(row, count - 1)`: the position of the cursor row among the first `count` rows. */
  function Position(row: nat, count: nat): nat
    requires count > 0
  {
    if row < count - 1 then row else count - 1
  }

  /** `lines[ln - 1]`, which is the last of the `count` rows when `ln` is 0. */
  function RowBefore(ln: nat, count: nat): nat
    requires ln < count
  {
    if ln > 0 then ln - 1 else count - 1
  }

  /**
   * remove_breakpoint given what the host reports: `row`, the line number of
   * the end of the cursor's full line, and `count`, how many rows
   * `view.lines` lists up to there.
   */
  function Removed(buf: seq<string>, row: nat, count: nat, tab: nat): (o: Outcome)
    requires 0 < count <= |buf|
  {
    var ln := Position(row, count);
    var c2 := RowBefore(ln, count);
    if IsBreakpointLine(buf[ln]) then Outcome(RemoveRow(buf, ln, ln, tab), true)
    else if IsBreakpointLine(buf[c2]) then Outcome(RemoveRow(buf, c2, ln, tab), true)
    else Outcome(buf, false)
  }

  /** The unwind loop, run on the view after the breakpoint's row `skip` is erased. */
  method UnwindBlock(v: View, ln: nat, skip: nat, tab: nat)
    requires v.Valid() && ln <= |v.lines|
    modifies v
    ensures v.Valid() && v.lines == Unwind(old(v.lines), ln, skip, None, tab)
  {
    ghost var target := Unwind(v.lines, ln, skip, None, tab);
    var indent: Option<nat> := None;
    var r: nat := ln;
    while r > 0
      invariant v.Valid() && r <= |v.lines|
      invariant Unwind(v.lines, r, skip, indent, tab) == target
    {
      var done;
      indent, done := ScanRow(v, r, skip, indent, tab);
      // the try line ends the scan (`break`)
      r := if done then 0 else r - 1;
    }
  }

  /** One pass of the unwind loop, over row `r - 1`. */
  method ScanRow(v: View, r: nat, skip: nat, indent: Option<nat>, tab: nat) returns (indent': Option<nat>, done: bool)
    requires v.Valid() && 0 < r <= |v.lines|
    modifies v
    ensures v.Valid() && r - 1 <= |v.lines|
    ensures Unwind(v.lines, if done then 0 else r - 1, skip, indent', tab) == Unwind(old(v.lines), r, skip, indent, tab)
  {
    var pr := r - 1;
    ghost var before := v.lines;
    indent', done := indent, false;
    if pr == skip {
      UnwindPass(before, r, skip, indent, tab);
    } else {
      var s := v.lines[pr];
      assert s == before[r - 1];
      if indent.None? {
        if IsExceptLine(s) {
          UnwindExcept(before, r, skip, tab);
          indent' := Some(GetIndent(s));
          v.EraseRow(pr);
        } else {
          UnwindPass(before, r, skip, indent, tab);
        }
      } else if IsTryLine(s, indent.value) {
        UnwindTry(before, r, skip, indent.value, tab);
        v.EraseRow(pr);
        done := true;
      } else {
        UnwindOutdentStep(before, r, skip, indent.value, tab);
        v.EraseAtRowStart(pr, tab);
      }
    }
  }

  /** One step of the scan past a row that is skipped or not yet the except line. */
  lemma UnwindPass(buf: seq<string>, r: nat, skip: nat, indent: Option<nat>, tab: nat)
    requires 0 < r <= |buf|
    requires r - 1 == skip || (indent.None? && !IsExceptLine(buf[r - 1]))
    ensures Unwind(buf, r, skip, indent, tab) == Unwind(buf, r - 1, skip, indent, tab)
  {
  }

  lemma UnwindExcept(buf: seq<string>, r: nat, skip: nat, tab: nat)
    requires 0 < r <= |buf| && r - 1 != skip && IsExceptLine(buf[r - 1])
    ensures Unwind(buf, r, skip, None, tab) == Unwind(EraseFullLine(buf, r - 1), r - 1, skip, Some(GetIndent(buf[r - 1])), tab)
  {
  }

  lemma UnwindTry(buf: seq<string>, r: nat, skip: nat, e: nat, tab: nat)
    requires 0 < r <= |buf| && r - 1 != skip && IsTryLine(buf[r - 1], e)
    ensures Unwind(buf, r, skip, Some(e), tab) == EraseFullLine(buf, r - 1)
  {
  }

  lemma UnwindOutdentStep(buf: seq<string>, r: nat, skip: nat, e: nat, tab: nat)
    requires 0 < r <= |buf| && r - 1 != skip && !IsTryLine(buf[r - 1], e)
    ensures Unwind(buf, r, skip, Some(e), tab) == Unwind(EraseFromLineStart(buf, r - 1, tab), r - 1, skip, Some(e), tab)
  {
  }

  /** Erasing the breakpoint on row `b` and unwinding its block. */
  method EraseBreakpoint(v: View, b: nat, ln: nat, tab: nat)
    requires v.Valid() && b < |v.lines| && ln < |v.lines|
    modifies v
    ensures v.Valid() && v.lines == RemoveRow(old(v.lines), b, ln, tab)
  {
    var bp := FromText(v.lines[b]);
    v.EraseRow(b);
    if bp.inBlock {
      UnwindBlock(v, ln, b, tab);
    }
  }

  /** The record read from a line has a uid exactly when bp_re matches the line. */
  lemma ParsedIffMatches(s: string)
    ensures FromText(s).uid.Some? <==> IsBreakpointLine(s)
  {
  }

  /**
   * remove_breakpoint tries the cursor's position `ln` first, then the row
   * before it: the first of them holding a breakpoint is removed, and when
   * neither does the buffer is left as it is and False is returned.
   */
  lemma RemovalCases(buf: seq<string>, row: nat, count: nat, tab: nat)
    requires 0 < count <= |buf|
    ensures var ln, o := Position(row, count), Removed(buf, row, count, tab);
            && (o.removed <==> IsBreakpointLine(buf[ln]) || IsBreakpointLine(buf[RowBefore(ln, count)]))
            && (IsBreakpointLine(buf[ln]) ==> o.buf == RemoveRow(buf, ln, ln, tab))
            && (!IsBreakpointLine(buf[ln]) && IsBreakpointLine(buf[RowBefore(ln, count)])
                ==> o.buf == RemoveRow(buf, RowBefore(ln, count), ln, tab))
            && (!o.removed ==> o.buf == buf)
  {
  }

  /** remove_breakpoint: true when a breakpoint was found and erased. */
  method RemoveBreakpoint(v: View, row: nat, count: nat, tab: nat) returns (removed: bool)
    requires v.Valid() && 0 < count <= |v.lines|
    modifies v
    ensures v.Valid() && removed == Removed(old(v.lines), row, count, tab).removed
    ensures v.lines == Removed(old(v.lines), row, count, tab).buf
  {
    RemovalCases(v.lines, row, count, tab);
    var ln := Position(row, count);
    var candidates := [ln, RowBefore(ln, count)];
    var i := 0;
    while i < 2
      invariant i <= 2 && v.lines == old(v.lines)
      invariant i > 0 ==> !IsBreakpointLine(v.lines[ln])
      invariant i > 1 ==> !IsBreakpointLine(v.lines[RowBefore(ln, count)])
    {
      var b := candidates[i];
      ParsedIffMatches(v.lines[b]);
      if FromText(v.lines[b]).uid.Some? {
        EraseBreakpoint(v, b, ln, tab);
        return true;
      }
      i := i + 1;
    }
    return false;
  }

  /** Every row of `rows` with its first `tab` characters erased. */
  function Outdented(rows: seq<string>, tab: nat): (res: seq<string>)
    requires forall i :: 0 <= i < |rows| ==> tab <= |rows[i]|
    ensures |res| == |rows| && forall i :: 0 <= i < |rows| ==> res[i] == rows[i][tab..]
  {
    seq(|rows|, i requires 0 <= i < |rows| => rows[i][tab..])
  }

  /** A breakpoint outside any block takes only its own row away. */
  lemma RemoveRowPlain(buf: seq<string>, b: nat, ln: nat, tab: nat)
    requires b < |buf| && ln < |buf| && !FromText(buf[b]).inBlock
    ensures b + 1 < |buf| ==> RemoveRow(buf, b, ln, tab) == buf[..b] + buf[b + 1..]
    ensures b + 1 == |buf| ==> RemoveRow(buf, b, ln, tab) == buf[..b] + [""]
  {
  }

  /** With no except line above, the unwind changes nothing. */
  lemma {:induction false} UnwindWithoutExcept(buf: seq<string>, r: nat, skip: nat, tab: nat)
    requires r <= |buf|
    requires forall j :: 0 <= j < r && j != skip ==> !IsExceptLine(buf[j])
    ensures Unwind(buf, r, skip, None, tab) == buf
  {
    if r > 0 {
      UnwindPass(buf, r, skip, None, tab);
      UnwindWithoutExcept(buf, r - 1, skip, tab);
    }
  }

  /** The rows below the nearest except line `x` are passed over, and `x` is erased. */
  lemma {:induction false} UnwindSeek(buf: seq<string>, r: nat, skip: nat, tab: nat, x: nat)
    requires x < r <= |buf| && x != skip && IsExceptLine(buf[x])
    requires forall j :: x < j < r && j != skip ==> !IsExceptLine(buf[j])
    ensures Unwind(buf, r, skip, None, tab) == Unwind(EraseFullLine(buf, x), x, skip, Some(GetIndent(buf[x])), tab)
  {
    var target := Unwind(EraseFullLine(buf, x), x, skip, Some(GetIndent(buf[x])), tab);
    if r - 1 == x {
      UnwindExcept(buf, x + 1, skip, tab);
    } else {
      UnwindPass(buf, r, skip, None, tab);
      UnwindSeek(buf, r - 1, skip, tab, x);
      assert Unwind(buf, r - 1, skip, None, tab) == target;
    }
  }

  /** Above the except line, every row up to the try line `t` loses `tab`
      characters, and `t` is erased. */
  lemma {:induction false} UnwindOutdent(buf: seq<string>, r: nat, skip: nat, e: nat, tab: nat, t: nat)
    requires t < r < |buf| && skip >= r && IsTryLine(buf[t], e)
    requires forall j :: t < j < r ==> !IsTryLine(buf[j], e) && tab <= |buf[j]|
    ensures Unwind(buf, r, skip, Some(e), tab) == buf[..t] + Outdented(buf[t + 1..r], tab) + buf[r..]
    decreases r
  {
    if r - 1 == t {
      UnwindTry(buf, r, skip, e, tab);
      assert Outdented(buf[t + 1..r], tab) == [];
    } else {
      UnwindOutdentStep(buf, r, skip, e, tab);
      var buf' := EraseFromLineStart(buf, r - 1, tab);
      assert buf' == buf[r - 1 := buf[r - 1][tab..]];
      UnwindOutdent(buf', r - 1, skip, e, tab, t);
      OutdentOneMore(buf, t + 1, r, tab);
    }
  }

  /** Outdenting row `r - 1` in place extends the outdented rows `lo`, ..., `r - 2` by one. */
  lemma OutdentOneMore(buf: seq<string>, lo: nat, r: nat, tab: nat)
    requires 0 < lo < r <= |buf| && forall j :: lo <= j < r ==> tab <= |buf[j]|
    ensures var buf' := buf[r - 1 := buf[r - 1][tab..]];
            buf'[..lo - 1] + Outdented(buf'[lo..r - 1], tab) + buf'[r - 1..]
            == buf[..lo - 1] + Outdented(buf[lo..r], tab) + buf[r..]
  {
    var buf' := buf[r - 1 := buf[r - 1][tab..]];
    assert buf'[..lo - 1] == buf[..lo - 1];
    assert buf'[lo..r - 1] == buf[lo..r - 1];
    assert buf'[r - 1..] == [buf[r - 1][tab..]] + buf[r..];
    assert Outdented(buf[lo..r], tab) == Outdented(buf[lo..r - 1], tab) + [buf[r - 1][tab..]];
  }

  /** Without a try line, every row above the except line loses `tab` characters. */
  lemma {:induction false} UnwindOutdentAll(buf: seq<string>, r: nat, skip: nat, e: nat, tab: nat)
    requires r < |buf| && skip >= r
    requires forall j :: 0 <= j < r ==> !IsTryLine(buf[j], e) && tab <= |buf[j]|
    ensures Unwind(buf, r, skip, Some(e), tab) == Outdented(buf[..r], tab) + buf[r..]
    decreases r
  {
    if r > 0 {
      UnwindOutdentStep(buf, r, skip, e, tab);
      var buf' := EraseFromLineStart(buf, r - 1, tab);
      assert buf' == buf[r - 1 := buf[r - 1][tab..]];
      UnwindOutdentAll(buf', r - 1, skip, e, tab);
      OutdentPrefixOneMore(buf, r, tab);
    }
  }

  /** Outdenting row `r - 1` in place extends the outdented rows `0`, ..., `r - 2` by one. */
  lemma OutdentPrefixOneMore(buf: seq<string>, r: nat, tab: nat)
    requires 0 < r <= |buf| && forall j :: 0 <= j < r ==> tab <= |buf[j]|
    ensures var buf' := buf[r - 1 := buf[r - 1][tab..]];
            Outdented(buf'[..r - 1], tab) + buf'[r - 1..] == Outdented(buf[..r], tab) + buf[r..]
  {
    var buf' := buf[r - 1 := buf[r - 1][tab..]];
    assert buf'[..r - 1] == buf[..r - 1];
    assert buf'[r - 1..] == [buf[r - 1][tab..]] + buf[r..];
    assert Outdented(buf[..r], tab) == Outdented(buf[..r - 1], tab) + [buf[r - 1][tab..]];
  }

  /**
   * The unwind of a guard block: the nearest except line `x` above the scan
   * start and the nearest try line `t` above it at the except line's indent
   * are erased, the rows between them lose one tab stop, and every other row
   * is kept.
   */
  lemma UnwindGuardBlock(buf: seq<string>, r: nat, skip: nat, tab: nat, x: nat, t: nat)
    requires t < x < r <= |buf| && x + 1 < |buf| && skip > x
    requires IsExceptLine(buf[x]) && forall j :: x < j < r && j != skip ==> !IsExceptLine(buf[j])
    requires IsTryLine(buf[t], GetIndent(buf[x]))
    requires forall j :: t < j < x ==> !IsTryLine(buf[j], GetIndent(buf[x])) && tab <= |buf[j]|
    ensures Unwind(buf, r, skip, None, tab) == buf[..t] + Outdented(buf[t + 1..x], tab) + buf[x + 1..]
  {
    var e := GetIndent(buf[x]);
    UnwindSeek(buf, r, skip, tab, x);
    var erased := EraseFullLine(buf, x);
    assert erased == buf[..x] + buf[x + 1..];
    UnwindOutdent(erased, x, skip, e, tab, t);
    assert erased[..t] == buf[..t];
    assert erased[t + 1..x] == buf[t + 1..x];
    assert erased[x..] == buf[x + 1..];
  }

  /** Without a try line above the except line `x`, every row above `x` loses
      one tab stop. */
  lemma UnwindWithoutTry(buf: seq<string>, r: nat, skip: nat, tab: nat, x: nat)
    requires x < r <= |buf| && x + 1 < |buf| && skip > x
    requires IsExceptLine(buf[x]) && forall j :: x < j < r && j != skip ==> !IsExceptLine(buf[j])
    requires forall j :: 0 <= j < x ==> !IsTryLine(buf[j], GetIndent(buf[x])) && tab <= |buf[j]|
    ensures Unwind(buf, r, skip, None, tab) == Outdented(buf[..x], tab) + buf[x + 1..]
  {
    var e := GetIndent(buf[x]);
    UnwindSeek(buf, r, skip, tab, x);
    var erased := EraseFullLine(buf, x);
    assert erased == buf[..x] + buf[x + 1..];
    UnwindOutdentAll(erased, x, skip, e, tab);
    assert erased[..x] == buf[..x];
    assert erased[x..] == buf[x + 1..];
  }
}
