/**
 * Indent inference for a new breakpoint line (calc_indent). The rows of the
 * buffer are listed, blank and comment rows around the cursor row are dropped,
 * and the cursor row's previous and next neighbours in what is left, with
 * their distances in characters, decide the indent by five ordered rules.
 */
module Indent {
  import opened Opt
  import opened Text
  import opened Keywords
  import opened Breakpoints
  import opened Views

  predicate Increasing(s: seq<nat>) {
    forall i, j :: 0 <= i < j < |s| ==> s[i] < s[j]
  }

  /** The rows `i`, ..., `n - 1`: view.lines over that part of the buffer. */
  function Range(i: nat, n: nat): (r: seq<nat>)
    requires i <= n
    ensures |r| == n - i && forall j :: 0 <= j < |r| ==> r[j] == i + j
  {
    seq(n - i, j => i + j)
  }

  /** The rows above row `k` whose line satisfies `keep`, in order. */
  function RowsWhere(buf: seq<string>, k: nat, keep: string -> bool): (rows: seq<nat>)
    requires k <= |buf|
    ensures forall i :: 0 <= i < |rows| ==> rows[i] < k && keep(buf[rows[i]])
  {
    if k == 0 then []
    else
      var rs := RowsWhere(buf, k - 1, keep);
      if keep(buf[k - 1]) then rs + [k - 1] else rs
  }

  /** The code rows above row `k`, in order: what the filter keeps of them. */
  function CodeRowsBelow(buf: seq<string>, k: nat): (rows: seq<nat>)
    requires k <= |buf|
    ensures forall i :: 0 <= i < |rows| ==> rows[i] < k && IsCode(buf[rows[i]])
  {
    RowsWhere(buf, k, IsCode)
  }

  /** No row satisfying `keep` above `k` is left out. */
  lemma {:induction false} RowsWhereComplete(buf: seq<string>, k: nat, keep: string -> bool, r: nat)
    requires r < k <= |buf| && keep(buf[r])
    ensures r in RowsWhere(buf, k, keep)
  {
    if r < k - 1 {
      RowsWhereComplete(buf, k - 1, keep, r);
    }
  }

  lemma {:induction false} RowsWhereIncreasing(buf: seq<string>, k: nat, keep: string -> bool)
    requires k <= |buf|
    ensures Increasing(RowsWhere(buf, k, keep))
  {
    if k > 0 {
      RowsWhereIncreasing(buf, k - 1, keep);
      if keep(buf[k - 1]) {
        IncreasingConcat(RowsWhere(buf, k - 1, keep), [k - 1]);
      }
    }
  }

  /** What the filter keeps from row `j` on once the cursor row is behind it:
      blank and comment rows go until the first code row, which stops the
      scan, so that row and every row after it stay. */
  function After(buf: seq<string>, j: nat): (rows: seq<nat>)
    requires j <= |buf|
    ensures rows != [] ==> j <= rows[0] < |buf| && rows == Range(rows[0], |buf|)
    decreases |buf| - j
  {
    if j == |buf| then []
    else if IsBlankOrComment(buf[j]) then After(buf, j + 1)
    else Range(j, |buf|)
  }

  /** The row list after the filter loop (146-154). */
  function Filtered(buf: seq<string>, k: nat): (rows: seq<nat>)
    requires k < |buf|
    ensures forall i :: 0 <= i < |rows| ==> rows[i] < |buf|
  {
    CodeRowsBelow(buf, k) + [k] + After(buf, k + 1)
  }

  /** The filter keeps the rows in buffer order. */
  lemma FilteredIncreasing(buf: seq<string>, k: nat)
    requires k < |buf|
    ensures Increasing(Filtered(buf, k))
  {
    var below, after := CodeRowsBelow(buf, k), After(buf, k + 1);
    RowsWhereIncreasing(buf, k, IsCode);
    IncreasingConcat(below, [k]);
    IncreasingConcat(below + [k], after);
  }

  /** list.remove: drop the first occurrence of `x`. */
  function RemoveFirst(s: seq<nat>, x: nat): seq<nat> {
    if s == [] then [] else if s[0] == x then s[1..] else [s[0]] + RemoveFirst(s[1..], x)
  }

  /** list.index: the position of the first occurrence of `x`. */
  function IndexOf(s: seq<nat>, x: nat): (i: nat)
    requires x in s
    ensures i < |s| && s[i] == x && x !in s[..i]
  {
    if s[0] == x then 0 else 1 + IndexOf(s[1..], x)
  }

  lemma {:induction false} RemoveFirstAt(a: seq<nat>, x: nat, b: seq<nat>)
    requires x !in a
    ensures RemoveFirst(a + [x] + b, x) == a + b
  {
    if a == [] {
      assert a + [x] + b == [x] + b;
    } else {
      assert (a + [x] + b)[1..] == a[1..] + [x] + b;
      RemoveFirstAt(a[1..], x, b);
      assert a == [a[0]] + a[1..];
    }
  }

  lemma IndexOfAt(a: seq<nat>, x: nat, b: seq<nat>)
    requires x !in a
    ensures IndexOf(a + [x] + b, x) == |a|
  {
    var s := a + [x] + b;
    var i := IndexOf(s, x);
    assert forall j :: 0 <= j < |a| ==> s[j] == a[j];
    assert forall j :: 0 <= j < i ==> s[j] == s[..i][j];
    assert s[|a|] == x;
  }

  lemma RangeSplit(i: nat, n: nat)
    requires i < n
    ensures Range(i, n) == [i] + Range(i + 1, n)
  {
  }

  /** Two increasing row lists, the first ending below where the second starts. */
  lemma IncreasingConcat(a: seq<nat>, b: seq<nat>)
    requires Increasing(a) && Increasing(b)
    requires a != [] && b != [] ==> a[|a| - 1] < b[0]
    ensures Increasing(a + b)
  {
    var s := a + b;
    forall i, j | 0 <= i < j < |s| ensures s[i] < s[j] {
      if i < |a| && |a| <= j {
        assert s[i] <= a[|a| - 1];
        assert b[0] <= s[j];
      }
    }
  }

  /** The cursor row is met while the rows before it have been filtered. */
  lemma FilterAtCursor(buf: seq<string>, k: nat)
    requires k < |buf|
    ensures CodeRowsBelow(buf, k) + Range(k, |buf|) == CodeRowsBelow(buf, k) + [k] + Range(k + 1, |buf|)
    ensures IndexOf(CodeRowsBelow(buf, k) + Range(k, |buf|), k) == |CodeRowsBelow(buf, k)|
  {
    var before, rest := CodeRowsBelow(buf, k), Range(k + 1, |buf|);
    RangeSplit(k, |buf|);
    assert before + Range(k, |buf|) == before + [k] + rest;
    assert k !in before;
    IndexOfAt(before, k, rest);
  }

  /** A blank or comment row above the cursor row is removed. */
  lemma FilterDropAbove(buf: seq<string>, i: nat)
    requires i < |buf| && IsBlankOrComment(buf[i])
    ensures RemoveFirst(CodeRowsBelow(buf, i) + Range(i, |buf|), i)
         == CodeRowsBelow(buf, i + 1) + Range(i + 1, |buf|)
  {
    var before := CodeRowsBelow(buf, i);
    RangeSplit(i, |buf|);
    assert i !in before;
    assert before + Range(i, |buf|) == before + [i] + Range(i + 1, |buf|);
    RemoveFirstAt(before, i, Range(i + 1, |buf|));
  }

  /** A code row above the cursor row stays. */
  lemma FilterKeepAbove(buf: seq<string>, i: nat)
    requires i < |buf| && IsCode(buf[i])
    ensures CodeRowsBelow(buf, i) + Range(i, |buf|) == CodeRowsBelow(buf, i + 1) + Range(i + 1, |buf|)
  {
    RangeSplit(i, |buf|);
  }

  /** A blank or comment row after the cursor row, before any code row, is removed. */
  lemma FilterDropBelow(buf: seq<string>, k: nat, i: nat)
    requires k < i < |buf|
    ensures RemoveFirst(CodeRowsBelow(buf, k) + [k] + Range(i, |buf|), i)
         == CodeRowsBelow(buf, k) + [k] + Range(i + 1, |buf|)
  {
    var before := CodeRowsBelow(buf, k) + [k];
    RangeSplit(i, |buf|);
    assert i !in before;
    assert before + Range(i, |buf|) == before + [i] + Range(i + 1, |buf|);
    RemoveFirstAt(before, i, Range(i + 1, |buf|));
  }

  /**
   * The filter loop of calc_indent: the rows of the buffer are listed, and a
   * blank or comment row other than the cursor row `k` is removed from the list
   * until a code row is met after the cursor row. `ln` is where the cursor row
   * ended up in the list.
   */
  method FilterLines(buf: seq<string>, k: nat) returns (rows: seq<nat>, ln: nat)
    requires k < |buf|
    ensures rows == Filtered(buf, k)
    ensures ln == |CodeRowsBelow(buf, k)| && rows[ln] == k
  {
    rows := Range(0, |buf|);
    var found := false;
    ln := 0;
    var i := 0;
    while i < |buf|
      invariant i <= |buf|
      invariant !found ==> i <= k && rows == CodeRowsBelow(buf, i) + Range(i, |buf|)
      invariant found ==> k < i && ln == |CodeRowsBelow(buf, k)|
      invariant found ==> rows == CodeRowsBelow(buf, k) + [k] + Range(i, |buf|)
      invariant found ==> After(buf, k + 1) == After(buf, i)
    {
      var l := i;
      if l == k {
        FilterAtCursor(buf, k);
        ln := IndexOf(rows, l);
        found := true;
      } else if IsBlankOrComment(buf[l]) {
        if found {
          FilterDropBelow(buf, k, i);
        } else {
          FilterDropAbove(buf, i);
        }
        rows := RemoveFirst(rows, l);
      } else if found {
        break;
      } else {
        FilterKeepAbove(buf, i);
      }
      i := i + 1;
    }
  }

  /** The three lines calc_indent looks at and their distances in characters:
      from the end of the previous line to the start of the current one, and
      from the end of the current line to the start of the next one. */
  datatype Neighbours = Neighbours(prev: string, curr: string, next: string, prevDist: int, nextDist: int)

  /** What calc_indent gives insert_breakpoint: an indent, None (no insertion),
      or the IndexError raised when the filtered list has a single row. */
  datatype Placement = Place(indent: nat) | NoPlace | IndexError

  /** Python's `s[i]` for an index that may count from the end. */
  function PyIndex(s: seq<nat>, i: int): nat
    requires -|s| <= i < |s|
  {
    if i < 0 then s[|s| + i] else s[i]
  }

  /** The buffer rows of the previous, current and next lines. */
  datatype Spot = Spot(prev: nat, curr: nat, next: nat)

  /**
   * Lines 156-168 on the filtered list `rows` with the cursor row at `ln0`:
   * position 0 becomes -1, the last row is repeated when nothing follows the
   * position, and the three rows are read with Python indexing. None stands
   * for the IndexError of `lines[ln - 1]`.
   */
  function SpotIn(rows: seq<nat>, ln0: nat): (o: Option<Spot>)
    requires ln0 < |rows|
    ensures o.Some? ==> o.value.prev in rows && o.value.curr in rows && o.value.next in rows
    ensures o.None? <==> |rows| == 1
  {
    var ln := if ln0 == 0 then -1 else ln0;
    var lines := Padded(rows, ln);
    if ln - 1 < -|lines| then None
    else Some(Spot(PyIndex(lines, ln - 1), PyIndex(lines, ln), PyIndex(lines, ln + 1)))
  }

  /** `lines.append(lines[-1])` when nothing follows position `ln`. */
  function Padded(rows: seq<nat>, ln: int): (rows': seq<nat>)
    requires rows != []
    ensures |rows'| == if ln + 1 >= |rows| then |rows| + 1 else |rows|
    ensures rows'[..|rows|] == rows && forall i :: |rows| <= i < |rows'| ==> rows'[i] == rows[|rows| - 1]
  {
    if ln + 1 >= |rows| then rows + [rows[|rows| - 1]] else rows
  }

  /** The spot calc_indent reads for the cursor row `k`. */
  function SpotOf(buf: seq<string>, k: nat): Option<Spot>
    requires k < |buf|
  {
    SpotIn(Filtered(buf, k), |CodeRowsBelow(buf, k)|)
  }

  /** Lines 164-173: the three lines of a spot and their distances in
      characters; a negative next distance becomes 255. */
  function Read(buf: seq<string>, sp: Spot): (nb: Neighbours)
    requires sp.prev < |buf| && sp.curr < |buf| && sp.next < |buf|
    ensures nb.nextDist >= 0
  {
    var nd := Begin(buf, sp.next) - End(buf, sp.curr);
    Neighbours(buf[sp.prev], buf[sp.curr], buf[sp.next], Begin(buf, sp.curr) - End(buf, sp.prev), if nd < 0 then 0xff else nd)
  }

  /**
   * A later row is at least one character per row further away. A next row
   * that is not after the current row gives a negative distance, read as 255,
   * except that an empty current line repeated as its own next line is at
   * distance 0.
   */
  lemma ReadDistances(buf: seq<string>, sp: Spot)
    requires sp.prev < |buf| && sp.curr < |buf| && sp.next < |buf|
    ensures sp.prev < sp.curr ==> Read(buf, sp).prevDist >= sp.curr - sp.prev
    ensures sp.curr < sp.next ==> Read(buf, sp).nextDist == Begin(buf, sp.next) - End(buf, sp.curr) >= sp.next - sp.curr
    ensures sp.next < sp.curr ==> Read(buf, sp).nextDist == 0xff
    ensures sp.next == sp.curr ==> Read(buf, sp).nextDist == if buf[sp.curr] == "" then 0 else 0xff
  {
    if sp.prev < sp.curr {
      RowsApart(buf, sp.prev, sp.curr);
    }
    if sp.curr < sp.next {
      RowsApart(buf, sp.curr, sp.next);
    } else if sp.next < sp.curr {
      RowsApart(buf, sp.next, sp.curr);
    }
  }

  /** The neighbourhood read from the filtered list `rows`. */
  function NeighboursIn(buf: seq<string>, rows: seq<nat>, ln0: nat): Option<Neighbours>
    requires ln0 < |rows| && forall i :: 0 <= i < |rows| ==> rows[i] < |buf|
  {
    match SpotIn(rows, ln0)
    case None => None
    case Some(sp) => Some(Read(buf, sp))
  }

  /** The neighbourhood calc_indent reads for the cursor row `k`. */
  function Neighbourhood(buf: seq<string>, k: nat): Option<Neighbours>
    requires k < |buf|
  {
    NeighboursIn(buf, Filtered(buf, k), |CodeRowsBelow(buf, k)|)
  }

  /** The five indents calc_indent can choose from. */
  predicate IsCandidate(nb: Neighbours, tab: nat, indent: nat) {
    var pi, ci, ni := GetIndent(nb.prev), GetIndent(nb.curr), GetIndent(nb.next);
    indent == pi + tab || indent == ci || indent == pi || indent == ni || indent == ci + tab
  }

  /** The five rules of lines 191-218, tried in this order. */
  function Choose(nb: Neighbours, tab: nat): (indent: nat)
    ensures IsCandidate(nb, tab, indent)
  {
    var pi, ci, ni := GetIndent(nb.prev), GetIndent(nb.curr), GetIndent(nb.next);
    if OpensOrContinues(nb.prev) then (if nb.prevDist < nb.nextDist then pi + tab else ci)
    else if Opens(nb.curr) then (if nb.prevDist < nb.nextDist then pi else ci)
    else if Continues(nb.next) then (if nb.prevDist <= nb.nextDist then ci else ni)
    else if OpensOrContinues(nb.curr) then ci + tab
    else if nb.curr != "" then ci
    else if nb.prevDist <= nb.nextDist then pi
    else ni
  }

  /** The check of _result: a breakpoint at this indent would sit right under
      the breakpoint on the previous line, or on an empty line right above the
      breakpoint on the next line. */
  predicate BesideBreakpoint(nb: Neighbours, indent: nat) {
    || (indent == GetIndent(nb.prev) && IsBreakpointLine(nb.prev))
    || (indent == GetIndent(nb.next) && IsBreakpointLine(nb.next) && nb.curr == "")
  }

  /** The rules' choice, dropped (None) when it lands beside a breakpoint. */
  function Decide(nb: Neighbours, tab: nat): (r: Option<nat>)
    ensures r.Some? ==> IsCandidate(nb, tab, r.value) && !BesideBreakpoint(nb, r.value)
    ensures r.None? <==> BesideBreakpoint(nb, Choose(nb, tab))
  {
    var indent := Choose(nb, tab);
    if BesideBreakpoint(nb, indent) then None else Some(indent)
  }

  /** calc_indent for the cursor row `k` and the tab size setting. */
  function InferIndent(buf: seq<string>, k: nat, tab: nat): Placement
    requires k < |buf|
  {
    match Neighbourhood(buf, k)
    case None => IndexError
    case Some(nb) =>
      match Decide(nb, tab)
      case None => NoPlace
      case Some(i) => Place(i)
  }

  /** Lines 156-178 on the filtered list `lines` with the cursor row at `ln0`:
      None when `lines[ln - 1]` raises IndexError. */
  method ReadNeighbours(buf: seq<string>, filtered: seq<nat>, ln0: nat) returns (r: Option<Neighbours>)
    requires ln0 < |filtered| && forall i :: 0 <= i < |filtered| ==> filtered[i] < |buf|
    ensures r == NeighboursIn(buf, filtered, ln0)
  {
    var lines := filtered;
    var ln: int := ln0;
    if ln == 0 {
      ln := -1;
    }
    if ln + 1 >= |lines| {
      lines := lines + [lines[|lines| - 1]];
    }
    if ln - 1 < -|lines| {
      return None;
    }
    var c, p, n := PyIndex(lines, ln), PyIndex(lines, ln - 1), PyIndex(lines, ln + 1);
    var prevDist := Begin(buf, c) - End(buf, p);
    var nextDist := Begin(buf, n) - End(buf, c);
    if nextDist < 0 {
      nextDist := 0xff;
    }
    r := Some(Neighbours(buf[p], buf[c], buf[n], prevDist, nextDist));
  }

  /** calc_indent: the filter loop, then the corner-case hacks and the rules. */
  method CalcIndent(buf: seq<string>, k: nat, tab: nat) returns (r: Placement)
    requires k < |buf|
    ensures r == InferIndent(buf, k, tab)
  {
    var lines, ln := FilterLines(buf, k);
    var nb := ReadNeighbours(buf, lines, ln);
    if nb.None? {
      return IndexError;
    }
    var d := Decide(nb.value, tab);
    r := if d.Some? then Place(d.value) else NoPlace;
  }

  /** No code row other than `k`. */
  predicate AloneInBuffer(buf: seq<string>, k: nat) {
    forall r :: 0 <= r < |buf| && r != k ==> !IsCode(buf[r])
  }

  lemma RowsWhereEmpty(buf: seq<string>, k: nat, keep: string -> bool)
    requires k <= |buf|
    ensures RowsWhere(buf, k, keep) == [] <==> forall r :: 0 <= r < k ==> !keep(buf[r])
  {
    forall r | 0 <= r < k && keep(buf[r]) ensures RowsWhere(buf, k, keep) != [] {
      RowsWhereComplete(buf, k, keep, r);
    }
  }

  /** The last row kept above `k` is the nearest row above `k` that satisfies `keep`. */
  lemma {:induction false} RowsWhereLast(buf: seq<string>, k: nat, keep: string -> bool, p: nat)
    requires p < k <= |buf| && keep(buf[p])
    requires forall r :: p < r < k ==> !keep(buf[r])
    ensures var rows := RowsWhere(buf, k, keep); rows != [] && rows[|rows| - 1] == p
  {
    if p < k - 1 {
      RowsWhereLast(buf, k - 1, keep, p);
    }
  }

  /** The rows after the cursor row start at the nearest code row below it. */
  lemma {:induction false} AfterFrom(buf: seq<string>, j: nat, n: nat)
    requires j <= n < |buf| && IsCode(buf[n])
    requires forall r :: j <= r < n ==> !IsCode(buf[r])
    ensures After(buf, j) == Range(n, |buf|)
    decreases n - j
  {
    if j < n {
      AfterFrom(buf, j + 1, n);
    }
  }

  /** Nothing is kept after the cursor row exactly when no code row follows it. */
  lemma {:induction false} AfterEmpty(buf: seq<string>, j: nat)
    requires j <= |buf|
    ensures After(buf, j) == [] <==> forall r :: j <= r < |buf| ==> !IsCode(buf[r])
    decreases |buf| - j
  {
    if j < |buf| {
      AfterEmpty(buf, j + 1);
    }
  }

  /**
   * The line list raises IndexError exactly when the cursor row is the only
   * code row of the buffer: the filtered list then holds the cursor row alone
   * and position -1 has no row before it.
   */
  lemma IndexErrorExactly(buf: seq<string>, k: nat, tab: nat)
    requires k < |buf|
    ensures InferIndent(buf, k, tab) == IndexError <==> AloneInBuffer(buf, k)
  {
    var below, after := CodeRowsBelow(buf, k), After(buf, k + 1);
    RowsWhereEmpty(buf, k, IsCode);
    AfterEmpty(buf, k + 1);
    if AloneInBuffer(buf, k) {
      assert below == [] && after == [];
      assert Filtered(buf, k) == [k];
    }
    if below != [] {
      assert Neighbourhood(buf, k).Some?;
    }
    if after != [] {
      assert Neighbourhood(buf, k).Some?;
    }
  }

  /** Between code rows `p` and `n` only blank or comment rows other than `k`. */
  predicate NoCodeBetween(buf: seq<string>, p: int, n: int, k: nat) {
    forall r :: p < r < n && r != k && 0 <= r < |buf| ==> !IsCode(buf[r])
  }

  /** The cursor row has a row before and after it in the filtered list. */
  lemma MiddleSpot(rows: seq<nat>, ln0: nat)
    requires 1 <= ln0 && ln0 + 1 < |rows|
    ensures SpotIn(rows, ln0) == Some(Spot(rows[ln0 - 1], rows[ln0], rows[ln0 + 1]))
  {
    assert Padded(rows, ln0) == rows;
  }

  /** The cursor row ends the filtered list and is repeated as its own next line. */
  lemma LastSpot(rows: seq<nat>, ln0: nat)
    requires 1 <= ln0 && ln0 + 1 == |rows|
    ensures SpotIn(rows, ln0) == Some(Spot(rows[ln0 - 1], rows[ln0], rows[ln0]))
  {
    var lines := Padded(rows, ln0);
    assert lines[ln0 + 1] == rows[ln0];
  }

  /** The cursor row starts the filtered list: position -1 counts from the end. */
  lemma WrappedSpot(rows: seq<nat>)
    requires 2 <= |rows|
    ensures SpotIn(rows, 0) == Some(Spot(rows[|rows| - 2], rows[|rows| - 1], rows[0]))
  {
    assert Padded(rows, -1) == rows;
  }

  /**
   * With code rows on both sides, the neighbours are the nearest code rows
   * above and below the cursor row.
   */
  lemma NearestCode(buf: seq<string>, k: nat, p: nat, n: nat)
    requires p < k < n < |buf| && IsCode(buf[p]) && IsCode(buf[n])
    requires NoCodeBetween(buf, p, n, k)
    ensures SpotOf(buf, k) == Some(Spot(p, k, n))
  {
    var rows, ln0 := FilteredBetweenCode(buf, k, p, n);
    MiddleSpot(rows, ln0);
  }

  lemma FilteredBetweenCode(buf: seq<string>, k: nat, p: nat, n: nat) returns (rows: seq<nat>, ln0: nat)
    requires p < k < n < |buf| && IsCode(buf[p]) && IsCode(buf[n])
    requires NoCodeBetween(buf, p, n, k)
    ensures 1 <= ln0 && ln0 + 1 < |rows|
    ensures rows[ln0 - 1] == p && rows[ln0] == k && rows[ln0 + 1] == n
    ensures SpotOf(buf, k) == SpotIn(rows, ln0)
  {
    RowsWhereLast(buf, k, IsCode, p);
    AfterFrom(buf, k + 1, n);
    var below := CodeRowsBelow(buf, k);
    rows := below + [k] + Range(n, |buf|);
    ln0 := |below|;
    assert Filtered(buf, k) == rows;
    assert rows[ln0 - 1] == below[|below| - 1];
    assert rows[ln0 + 1] == Range(n, |buf|)[0];
  }

  /**
   * With no code row below the cursor row, the cursor row is its own next
   * line: by ReadDistances the next distance is 255 for a line with text and
   * 0 for an empty line.
   */
  lemma NoCodeBelow(buf: seq<string>, k: nat, p: nat)
    requires p < k < |buf| && IsCode(buf[p])
    requires NoCodeBetween(buf, p, |buf|, k)
    ensures SpotOf(buf, k) == Some(Spot(p, k, k))
  {
    var rows, ln0 := FilteredWithoutCodeBelow(buf, k, p);
    LastSpot(rows, ln0);
  }

  lemma FilteredWithoutCodeBelow(buf: seq<string>, k: nat, p: nat) returns (rows: seq<nat>, ln0: nat)
    requires p < k < |buf| && IsCode(buf[p])
    requires NoCodeBetween(buf, p, |buf|, k)
    ensures 1 <= ln0 && ln0 + 1 == |rows| && rows[ln0 - 1] == p && rows[ln0] == k
    ensures SpotOf(buf, k) == SpotIn(rows, ln0)
  {
    RowsWhereLast(buf, k, IsCode, p);
    var below := CodeRowsBelow(buf, k);
    AfterEmpty(buf, k + 1);
    rows := below + [k];
    ln0 := |below|;
    assert Filtered(buf, k) == rows;
    assert rows[ln0 - 1] == below[|below| - 1];
  }

  /**
   * With no code row above the cursor row, position 0 becomes -1 and counts
   * from the end: the last row of the buffer is taken as the current line,
   * the row before it (the cursor row when only one code row follows it) as
   * the previous one, and the cursor row as the next one, which by
   * ReadDistances is at distance 255.
   */
  lemma NoCodeAbove(buf: seq<string>, k: nat, n: nat)
    requires k < n && n + 1 < |buf| && IsCode(buf[n])
    requires NoCodeBetween(buf, -1, n, k)
    ensures SpotOf(buf, k) == Some(Spot(|buf| - 2, |buf| - 1, k))
  {
    var rows := FilteredWithoutCodeAbove(buf, k, n);
    WrappedSpot(rows);
  }

  /** The same when the only code row after the cursor row is the last row:
      the cursor row is then also the previous line. */
  lemma NoCodeAboveLastRow(buf: seq<string>, k: nat)
    requires k + 1 < |buf| && IsCode(buf[|buf| - 1])
    requires NoCodeBetween(buf, -1, |buf| - 1, k)
    ensures SpotOf(buf, k) == Some(Spot(k, |buf| - 1, k))
  {
    var rows := FilteredWithoutCodeAbove(buf, k, |buf| - 1);
    WrappedSpot(rows);
  }

  lemma FilteredWithoutCodeAbove(buf: seq<string>, k: nat, n: nat) returns (rows: seq<nat>)
    requires k < n < |buf| && IsCode(buf[n])
    requires NoCodeBetween(buf, -1, n, k)
    ensures 2 <= |rows| && rows[0] == k && rows[|rows| - 1] == |buf| - 1
    ensures n + 1 < |buf| ==> rows[|rows| - 2] == |buf| - 2
    ensures n + 1 == |buf| ==> rows[|rows| - 2] == k
    ensures SpotOf(buf, k) == SpotIn(rows, 0)
  {
    RowsWhereEmpty(buf, k, IsCode);
    AfterFrom(buf, k + 1, n);
    var tail := Range(n, |buf|);
    rows := [k] + tail;
    assert Filtered(buf, k) == rows;
    assert rows[|rows| - 1] == tail[|tail| - 1];
    assert rows[|rows| - 2] == if n + 1 < |buf| then tail[|tail| - 2] else k;
  }

  /** The previous line lies above the current one, so the previous distance
      is at least 1 (and the next distance is never negative). */
  lemma SpotOrder(buf: seq<string>, k: nat)
    requires k < |buf| && SpotOf(buf, k).Some?
    ensures SpotOf(buf, k).value.prev < SpotOf(buf, k).value.curr
  {
    var rows, ln0 := Filtered(buf, k), |CodeRowsBelow(buf, k)|;
    FilteredIncreasing(buf, k);
    if ln0 == 0 {
      WrappedSpot(rows);
    } else if ln0 + 1 < |rows| {
      MiddleSpot(rows, ln0);
    } else {
      LastSpot(rows, ln0);
    }
  }

  /** On equal distances the first three rules keep the current line's
      indent, while the heuristic for an empty line takes the previous one. */
  lemma ChooseOnTie(nb: Neighbours, tab: nat)
    requires nb.prevDist == nb.nextDist
    ensures OpensOrContinues(nb.prev) ==> Choose(nb, tab) == GetIndent(nb.curr)
    ensures !OpensOrContinues(nb.prev) && Opens(nb.curr) ==> Choose(nb, tab) == GetIndent(nb.curr)
    ensures !OpensOrContinues(nb.prev) && !Opens(nb.curr) && Continues(nb.next) ==> Choose(nb, tab) == GetIndent(nb.curr)
    ensures !OpensOrContinues(nb.prev) && !OpensOrContinues(nb.curr) && !Continues(nb.next) && nb.curr == ""
            ==> Choose(nb, tab) == GetIndent(nb.prev)
  {
    OpensOrContinuesIsUnion(nb.curr);
  }

  /** A line that starts with a letter no keyword starts with matches no
      keyword pattern. */
  lemma {:induction false} OtherInitialMatchesNothing(s: string)
    requires |s| > 0 && !IsTabOrSpace(s[0]) && s[0] !in "cdiftwe"
    ensures !OpensOrContinues(s) && !Opens(s) && !Continues(s)
  {
    var all := EXPR_PRE + EXPR_PST;
    assert AfterTabsSpaces(s) == s;
    forall i | 0 <= i < |all| ensures !KeywordLed(s, all[i]) {
      if i < |EXPR_PRE| {
        assert all[i] == EXPR_PRE[i] && all[i][0] in "cdiftwe";
      } else {
        assert all[i] == EXPR_PST[i - |EXPR_PRE|] && all[i][0] in "cdiftwe";
      }
    }
    OpensOrContinuesIsUnion(s);
  }

  /** A breakpoint line never opens or continues a block: its leading word
      is "import". */
  lemma BreakpointLineOpensNothing(s: string)
    requires IsBreakpointLine(s)
    ensures !OpensOrContinues(s) && !Opens(s) && !Continues(s)
  {
    var t := ImportAfterIndent(s);
    ImportLeadWord(t);
    assert LeadWord(s) == "import";
    assert "import" !in EXPR_PRE + EXPR_PST;
    KeywordsAreWords();
    MatchesAnyByWord(s, EXPR_PRE + EXPR_PST);
    OpensOrContinuesIsUnion(s);
  }

  /** A breakpoint line is "import " right after its indentation. */
  lemma ImportAfterIndent(s: string) returns (t: string)
    requires IsBreakpointLine(s)
    ensures t == AfterTabsSpaces(s) && |IMPORT| <= |t| && t[..|IMPORT|] == IMPORT
  {
    var p := RunEnd(s, 0, IsTabOrSpace);
    assert At(s, p, IMPORT);
    RunEndIsSpan(s, 0, IsTabOrSpace);
    assert s[0..] == s;
    t := s[p..];
    assert t[..|IMPORT|] == s[p..p + |IMPORT|];
  }

  /** The letters of "import " end at its space. */
  lemma ImportLeadWord(t: string)
    requires |IMPORT| <= |t| && t[..|IMPORT|] == IMPORT
    ensures PrefixSpan(t, IsLetter) == 6 && t[..6] == "import"
  {
    ImportLetters(t);
    RunStops(t, 0, IsLetter, 6);
    RunEndIsSpan(t, 0, IsLetter);
    assert t[0..] == t;
  }

  lemma ImportLetters(t: string)
    requires |IMPORT| <= |t| && t[..|IMPORT|] == IMPORT
    ensures t[..6] == "import" && !IsLetter(t[6]) && forall i :: 0 <= i < 6 ==> IsLetter(t[i])
  {
    assert t[0] == 'i' && t[1] == 'm' && t[2] == 'p' && t[3] == 'o' && t[4] == 'r' && t[5] == 't' && t[6] == ' ';
  }

  /** A breakpoint line holds code, and its indent is the run of tabs and
      spaces before "import". */
  lemma BreakpointLineIsCode(s: string)
    requires IsBreakpointLine(s)
    ensures IsCode(s) && GetIndent(s) == RunEnd(s, 0, IsTabOrSpace)
  {
    var p := RunEnd(s, 0, IsTabOrSpace);
    assert At(s, p, IMPORT);
    assert s[p] == s[p..p + |IMPORT|][0] == 'i';
    RunFacts(s, 0, IsTabOrSpace);
    RunStops(s, 0, IsSpace, p);
    RunEndIsSpan(s, 0, IsSpace);
    assert s[0..] == s;
    BlankOrCommentByIndent(s);
  }

  /**
   * The cursor row `k` right below a code row and with no code row after it:
   * the previous line is one newline away and the cursor row is its own next
   * line, at distance 0 when it is empty and 255 otherwise.
   */
  lemma BelowLastCode(buf: seq<string>, k: nat)
    requires 0 < k < |buf| && IsCode(buf[k - 1])
    requires NoCodeBetween(buf, k - 1, |buf|, k)
    ensures Neighbourhood(buf, k) == Some(Neighbours(buf[k - 1], buf[k], buf[k], 1, if buf[k] == "" then 0 else 0xff))
  {
    var sp := Spot(k - 1, k, k);
    NoCodeBelow(buf, k, k - 1);
    ReadDistances(buf, sp);
    RowsApart(buf, k - 1, k);
  }

  /**
   * Typing below a block opener on the last code line: a line with text gets
   * one tab stop more than the opener.
   */
  lemma OpenerAddsTab(buf: seq<string>, k: nat, tab: nat)
    requires 0 < k < |buf| && IsCode(buf[k - 1]) && OpensOrContinues(buf[k - 1])
    requires NoCodeBetween(buf, k - 1, |buf|, k)
    requires buf[k] != ""
    ensures InferIndent(buf, k, tab) == Place(GetIndent(buf[k - 1]) + tab)
  {
    BelowLastCode(buf, k);
    if IsBreakpointLine(buf[k - 1]) {
      BreakpointLineOpensNothing(buf[k - 1]);
    }
  }

  /**
   * The same on an empty last line: the repeated empty line is at distance 0,
   * so the first rule takes the current line's indent, 0, and not the
   * opener's indent plus a tab stop.
   */
  lemma OpenerEmptyLastLine(buf: seq<string>, k: nat, tab: nat)
    requires 0 < k < |buf| && IsCode(buf[k - 1]) && OpensOrContinues(buf[k - 1])
    requires NoCodeBetween(buf, k - 1, |buf|, k)
    requires buf[k] == ""
    ensures InferIndent(buf, k, tab) == Place(0)
  {
    BelowLastCode(buf, k);
    if IsBreakpointLine(buf[k - 1]) {
      BreakpointLineOpensNothing(buf[k - 1]);
    }
  }

  /**
   * Right below a breakpoint, on the last code line, at the breakpoint's
   * indent and with no keyword: the heuristic picks that indent, which is
   * beside the breakpoint, so nothing is inserted.
   */
  lemma NoSecondBreakpoint(buf: seq<string>, k: nat, tab: nat)
    requires 0 < k < |buf| && IsBreakpointLine(buf[k - 1])
    requires IsCode(buf[k]) && !OpensOrContinues(buf[k]) && GetIndent(buf[k]) == GetIndent(buf[k - 1])
    requires NoCodeBetween(buf, k - 1, |buf|, k)
    ensures InferIndent(buf, k, tab) == NoPlace
  {
    BreakpointLineIsCode(buf[k - 1]);
    BreakpointLineOpensNothing(buf[k - 1]);
    OpensOrContinuesIsUnion(buf[k]);
    BelowLastCode(buf, k);
  }
}
