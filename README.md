# Python Breakpoints: a verified model of the editing core

Python Breakpoints is a Sublime Text plugin that toggles `pdb`-style
breakpoint lines in Python source. This project models its editing logic in
Dafny and proves properties of that model. The editing logic covers:

- where a new breakpoint line goes (`calc_indent`);
- how a breakpoint line is written, recognised and named (`Breakpoint`,
  `bp_re`);
- how one breakpoint is inserted, or wrapped with a selection in a
  `try:` / `except Exception as exc:` guard block;
- how a breakpoint is removed again, unwinding the guard block;
- the toggle and clear-all commands built from these.

The editor buffer is a sequence of lines without their newlines, so the text
is the lines joined by `'\n'` (module `Views`). Region offsets are derived
from the line lengths: `Begin(buf, r)` and `End(buf, r)` stand for a line
region's `begin()` and `end()`, and `Locate` stands for `rowcol`. The plugin
edits the buffer through `view.insert` and `view.erase`, which are modelled as
methods of a `View` class over its `lines` field:

- `InsertLineAt` and `InsertTextAt` insert at an offset;
- `EraseRow` erases a full line and `EraseAtRowStart` erases characters from a
  row's begin.

Each is specified by a pure function on the line sequence, and a lemma per
edit states what that function does to the text, `BufferText(buf)`: an insert
puts exactly the inserted characters in at the offset, and an erase takes
exactly the erased span out. The settings the
plugin reads are parameters: `tab_size` is `tab` and the debugger module is
`debugger`. The uid that `uuid.uuid4()` would produce is passed in as `uid`.
The commands that insert text require the debugger name to hold no newline,
so that no edit puts a newline inside a line; the lemmas that read an inserted
line back require it to be a module name (letters, digits, `_` and `.`).

Modules, in dependency order:

- `Opt`: the option type.
- `Text`: whitespace, `get_indent`, `strip` and blank/comment lines.
- `Keywords`: the `expr_re0/1/2` tests.
- `Breakpoints`: `bp_re`, the breakpoint record, `as_string` and `region_id`.
- `Views`: the buffer and its edits.
- `Indent`: `calc_indent`.
- `Removal`: `remove_breakpoint` and its try/except unwind.
- `Insertion`: `insert_breakpoint` and `insert_try_except_breakpoint`.
- `Commands`: toggle, `find_breakpoint` and clear-all.

The regular expressions are hand-written predicates:

- `bp_re` is decided by measuring runs of characters. The `[\w.; ]+` run must
  stop exactly where `set_trace` ends, because `(` is outside the class. So
  the match is unique, and `MatchBpIsPattern` proves the run-based matcher
  equal to the declarative shape of the pattern.
- The three keyword tests check the text after the leading tabs and spaces.
  It must start with a listed keyword followed by `:` or a space.

Where the code's behaviour differs from a plain reading of the plugin's
intent, the model follows the code:

- **Cursor in the first code position.** In `calc_indent`, `if not ln: ln = -1`
  (lines 157-158) also fires when the cursor row is at index 0 of the filtered
  list. Python's negative indexing then makes the buffer's last row the
  "current" line and the cursor row the "next" one (`FilteredWithoutCodeAbove`).
- **Only one code row.** When the filtered list holds only the cursor row,
  `lines[ln - 1]` raises `IndexError`. This is `Placement.IndexError`, and the
  toggle command then edits nothing (`IndexErrorExactly`).
- **Empty last line below an opener.** On an empty last row, the duplicated
  last line gives `next_dist == 0`, not 255. A breakpoint there below a block
  opener gets indent 0 rather than one tab stop (`OpenerEmptyLastLine`).
- **Selection ending on the last row.** When the selection's last row is the
  buffer's last row, that row has no newline. The except text is then appended
  to that row rather than put on a row of its own (`Insertion.WrapWith`). The
  wrap/unwind round trip is therefore proved for selections followed by at
  least one row.
- **Matches stay on one line.** `find_breakpoint`'s `view.find(bp_regex, 0)`
  is taken to match within one line, as every part of the pattern excludes
  `'\n'`.

## Model

| member | source | states |
|---|---|---|
| Text.GetIndent | PythonBreakpoints.py:116-120 | the indent lies in 0..len(s); every character before it is whitespace and the one at it (if any) is not, so an all-whitespace line gets len(s) |
| Text.BlankOrCommentIsStripTest | PythonBreakpoints.py:150-151 | the blank-or-comment test on a line agrees with "the stripped line is empty or starts with '#'" |
| Text.BlankOrCommentByIndent | PythonBreakpoints.py:150-151 | a line is blank or comment-only exactly when its first non-whitespace character is missing or is '#' |
| Text.LeadingTextIsStripTest | PythonBreakpoints.py:253 | for a word ending in non-whitespace, "the text after the indent starts with the word" agrees with "the stripped line starts with the word" |
| Text.StripIndentedWord | PythonBreakpoints.py:116-120 | n spaces followed by a word that starts and ends in non-whitespace has indent n and strips to the word |
| Keywords.OpensOrContinuesIsUnion | PythonBreakpoints.py:52-57 | expr_re1 matches a line exactly when expr_re0 or expr_re2 matches it |
| Keywords.MatchesAnyByWord | PythonBreakpoints.py:55-57 | for keyword lists made of letters, a line matches exactly when the word after its tabs and spaces is a listed keyword and is followed by ':' or ' ' |
| Keywords.IndentedKeywordMatches | PythonBreakpoints.py:55-57 | tabs and spaces, then a listed keyword, then ':' or ' ' always matches the list's test |
| Keywords.KeywordsAreWords | PythonBreakpoints.py:52-53 | every keyword in EXPR_PRE and EXPR_PST consists of letters only |
| Keywords.IfconfigOpensNothing | PythonBreakpoints.py:55-57 | `ifconfig = 1` does not match expr_re1, although it starts with `if` |
| Keywords.IfOpensElseContinues | PythonBreakpoints.py:55-57 | an indented `if x:` matches expr_re0, and `else:` matches expr_re2 |
| Breakpoints.MatchBp | PythonBreakpoints.py:49 | a match's first group is eight lowercase hex digits; its second group is empty or one lowercase letter |
| Breakpoints.MatchBpIsPattern | PythonBreakpoints.py:49 | the matcher succeeds exactly when the line splits into indent, `import `, a `[\w.; ]+` run, `set_trace()  # breakpoint `, a uid and an optional mark before ` //`; it then returns that split's groups |
| Breakpoints.RegexSplitIsUnique | PythonBreakpoints.py:49 | every split of a line that fits the pattern yields the same groups as the matcher |
| Breakpoints.MatchIsSplit | PythonBreakpoints.py:49 | a successful match comes with a split that fits the pattern |
| Breakpoints.FromText | PythonBreakpoints.py:67-74 | a parsed uid is always eight hex digits, and a line only counts as in-block when it carries a uid |
| Breakpoints.NonMatchingText | PythonBreakpoints.py:67-74 | text that fits the pattern under no split parses to a record with no uid that is not in-block |
| Breakpoints.ReadBack | PythonBreakpoints.py:71-74 | a matching line parses to the uid group, and in-block exactly when the mark group is `x` |
| Breakpoints.RegionIdInjective | PythonBreakpoints.py:79-83 | two breakpoints with uids share a region id exactly when they share the uid |
| Breakpoints.AsLine | PythonBreakpoints.py:85-91 | the rendered breakpoint line has exactly the requested indent |
| Breakpoints.ParseAsLine | PythonBreakpoints.py:67-91 | parsing the rendered line of a breakpoint with a valid uid recovers the same record, uid and in-block flag |
| Breakpoints.ParseRendered | PythonBreakpoints.py:67-91 | for any eight-hex-digit uid, block flag, indent and debugger name of word and dot characters, the rendered line parses back to that uid and flag |
| Views.Locate | PythonBreakpoints.py:123-127 | an offset within the text maps to a row and a column inside that row whose offset is the given one |
| Views.LocateUnique | PythonBreakpoints.py:123-127 | no two (row, column) pairs inside the buffer share an offset |
| Views.LocateRow | PythonBreakpoints.py:123-127 | a row's begin and end offsets locate back to that row's first and last column |
| Views.RowsApart | PythonBreakpoints.py:164-165 | the gap from the end of one row to the begin of a later row is at least their row distance, and exactly 1 for adjacent rows |
| Views.TextLength | PythonBreakpoints.py:145 | `view.size()` is the length of the buffer's text, the rows joined by newlines |
| Views.EraseFullLineText | PythonBreakpoints.py:240 | `view.erase` of a full line takes the characters from the row's begin to the end of its full line (through its newline, or to the end of the buffer for the last row) out of the buffer's text, and leaves the rest of the text as it was |
| Views.EraseFromLineStart | PythonBreakpoints.py:264-265 | erasing n characters from a row's start keeps the rows above; when the row is long enough, only that row changes, losing its first n characters |
| Views.EraseFromLineStartText | PythonBreakpoints.py:264-265 | `view.erase` of n characters from a row's begin takes exactly those characters out of the buffer's text, running through newlines into the rows below and stopping at the end of the buffer |
| Views.InsertLineText | PythonBreakpoints.py:277 | `view.insert` of a text and a newline at a column of a row puts exactly that text and newline into the buffer's text at the row's begin plus the column, and leaves the text before and after it as it was |
| Views.InsertTextText | PythonBreakpoints.py:304 | `view.insert` of a text at a column of a row puts exactly that text into the buffer's text at the row's begin plus the column, and leaves the text before and after it as it was |
| Views.View.InsertLineAt | PythonBreakpoints.py:277 | `view.insert` of a line at an offset: the lines become InsertLine at the located row and column, and the inserted length is returned |
| Views.View.InsertTextAt | PythonBreakpoints.py:304 | `view.insert` of newline-free text at an offset: the lines become InsertText at the located row and column, and the inserted length is returned |
| Views.View.EraseRow | PythonBreakpoints.py:240 | `view.erase` of a full line: the lines become EraseFullLine |
| Views.View.EraseAtRowStart | PythonBreakpoints.py:264-265 | `view.erase` of n characters from a row's begin: the lines become EraseFromLineStart |
| Indent.RowsWhereComplete | PythonBreakpoints.py:146-154 | every row above the limit that the filter keeps appears in the kept list |
| Indent.RowsWhereIncreasing | PythonBreakpoints.py:146-154 | the kept rows are listed in increasing order |
| Indent.FilteredIncreasing | PythonBreakpoints.py:146-154 | the filtered line list is in buffer order with no repeats |
| Indent.IndexOf | PythonBreakpoints.py:148 | list.index returns the first position holding the value |
| Indent.FilterLines | PythonBreakpoints.py:146-154 | the in-place removal loop leaves the code rows above the cursor, the cursor row, then every row below from the first code row on, and reports the cursor's position in that list |
| Indent.SpotIn | PythonBreakpoints.py:157-169 | the previous, current and next rows are taken from the list; no rows are found exactly when the list holds only the cursor row (the IndexError case) |
| Indent.Read | PythonBreakpoints.py:164-185 | the next distance is never negative, because a negative gap becomes 255 |
| Indent.ReadDistances | PythonBreakpoints.py:164-169 | the distances are character gaps between the rows, at least the row distance; a next row above the current one gives 255; the duplicated last row gives 0 on an empty line and 255 otherwise |
| Indent.Choose | PythonBreakpoints.py:191-218 | the chosen indent is one of prev+tab, curr, prev, next and curr+tab |
| Indent.Decide | PythonBreakpoints.py:181-188 | no insertion exactly when the chosen indent equals a breakpoint's indent on the previous line, or on the next line below an empty current line; otherwise the result is a candidate outside those cases |
| Indent.ChooseOnTie | PythonBreakpoints.py:191-218 | on equal distances the first three rules pick the current indent and the empty-line heuristic picks the previous indent |
| Indent.ReadNeighbours | PythonBreakpoints.py:156-178 | the padding and reading steps yield the neighbour rows and distances, or nothing on IndexError |
| Indent.CalcIndent | PythonBreakpoints.py:138-218 | the filter, padding, distances and decision rules together compute the specified placement |
| Indent.IndexErrorExactly | PythonBreakpoints.py:157-166 | calc_indent raises IndexError exactly when no other row of the buffer holds code |
| Indent.FilteredBetweenCode | PythonBreakpoints.py:146-166 | with code above and below the cursor, the previous and next lines are the nearest code rows on either side |
| Indent.FilteredWithoutCodeBelow | PythonBreakpoints.py:146-166 | with no code below the cursor, the previous line is the nearest code row above and the cursor row is its own next line |
| Indent.FilteredWithoutCodeAbove | PythonBreakpoints.py:146-166 | with no code above the cursor, the list wraps around: the buffer's last row is current and the cursor row is next |
| Indent.SpotOrder | PythonBreakpoints.py:157-166 | the previous line always lies above the current one |
| Indent.MiddleSpot | PythonBreakpoints.py:164-166 | an inner cursor position takes its direct list neighbours |
| Indent.LastSpot | PythonBreakpoints.py:160-166 | a last cursor position is its own next line after padding |
| Indent.WrappedSpot | PythonBreakpoints.py:157-166 | a first cursor position becomes index -1: the last two list rows are previous and current, the first is next |
| Indent.BreakpointLineOpensNothing | PythonBreakpoints.py:49-57 | a breakpoint line matches none of the three keyword tests |
| Indent.BreakpointLineIsCode | PythonBreakpoints.py:150-151 | a breakpoint line is never filtered out, and its indent is its run of tabs and spaces |
| Indent.OtherInitialMatchesNothing | PythonBreakpoints.py:52-57 | a line whose first character is not whitespace and cannot start a keyword matches no keyword test |
| Indent.BelowLastCode | PythonBreakpoints.py:157-169 | below the last code row the neighbours are that row and the cursor row twice, at distance 1, with next distance 0 on an empty row |
| Indent.OpenerAddsTab | PythonBreakpoints.py:191-194 | on a non-empty row right below a block opener, with no code after it, the breakpoint goes one tab stop deeper than the opener |
| Indent.OpenerEmptyLastLine | PythonBreakpoints.py:160-196 | on an empty row right below a block opener, with no code after it, the breakpoint goes to indent 0 |
| Indent.NoSecondBreakpoint | PythonBreakpoints.py:181-188 | below a breakpoint, a plain code row at the same indent gets no second breakpoint |
| Removal.ExceptLineIsStripTest | PythonBreakpoints.py:253 | the except-line test agrees with "the stripped line starts with EXCEPT_STR" |
| Removal.RemovalCases | PythonBreakpoints.py:233-267 | removal succeeds exactly when line ln or ln-1 parses as a breakpoint; line ln is taken first; on failure the buffer is unchanged |
| Removal.RemoveRowPlain | PythonBreakpoints.py:239-242 | removing a breakpoint that is not in-block removes only its row (the last row becomes empty) |
| Removal.UnwindWithoutExcept | PythonBreakpoints.py:244-256 | with no except line above, the unwind changes nothing, so only the breakpoint row goes |
| Removal.UnwindSeek | PythonBreakpoints.py:245-256 | rows below the first except line met upward stay put; that line is erased and its indent recorded |
| Removal.UnwindOutdent | PythonBreakpoints.py:258-265 | after the except line, when every row between it and the try line at that indent is at least tab characters long, each of those rows loses its first tab characters, the try line goes, and rows above stay |
| Removal.UnwindOutdentAll | PythonBreakpoints.py:258-265 | with no matching try line, and every row above at least tab characters long, every row above loses its first tab characters |
| Removal.UnwindGuardBlock | PythonBreakpoints.py:242-265 | the whole unwind, for rows between the try and except lines that are at least tab characters long: the try line and except line go, the rows between lose their first tab characters, everything else is unchanged |
| Removal.UnwindWithoutTry | PythonBreakpoints.py:242-265 | without a try line, and with every row above the except line at least tab characters long: the except line goes and every row above it loses its first tab characters |
| Removal.UnwindBlock | PythonBreakpoints.py:244-265 | the reversed loop with its indent state leaves the lines the unwind specifies |
| Removal.ScanRow | PythonBreakpoints.py:246-265 | one loop step preserves what the rest of the unwind will produce |
| Removal.EraseBreakpoint | PythonBreakpoints.py:240-265 | the breakpoint row is erased first, then the block is unwound above it |
| Removal.RemoveBreakpoint | PythonBreakpoints.py:229-267 | the method returns the specified success flag and leaves the specified buffer |
| Insertion.InsertBreakpoint | PythonBreakpoints.py:270-280 | the method leaves the buffer Inserted specifies |
| Insertion.InsertedRow | PythonBreakpoints.py:270-277 | with a placement, exactly one row is added above the cursor row: a breakpoint line at the computed indent that parses to the new uid, not in-block; without one, nothing changes |
| Insertion.ToggleRoundTrip | PythonBreakpoints.py:229-280 | with the cursor left on the inserted breakpoint row (where the insertion puts it), removal takes that row away again, reports success and gives back the original buffer; `row` is only the host's full-line row for that cursor |
| Insertion.FirstCodeRow | PythonBreakpoints.py:285-290 | the first selected row that holds code, or nothing when every selected row is blank or a comment |
| Insertion.FindIndent | PythonBreakpoints.py:285-293 | the search loop finds the indent of the first selected code row, or nothing exactly when there is none |
| Insertion.OutdentIndented | PythonBreakpoints.py:304 | outdenting indented rows gives them back |
| Insertion.ShiftedBegin | PythonBreakpoints.py:300-304 | the accumulated offset locates each selected row's begin in the edited buffer |
| Insertion.ShiftStep | PythonBreakpoints.py:303-304 | one indent step advances the intermediate buffer by one row |
| Insertion.InsertTryExceptBreakpoint | PythonBreakpoints.py:283-314 | the method leaves the buffer Wrapped specifies |
| Insertion.InsertTry | PythonBreakpoints.py:300 | the try line is inserted above the selection, and the offset is its length with the newline |
| Insertion.IndentRows | PythonBreakpoints.py:303-304 | the offset loop indents every selected row, and the offset grows by tab for each |
| Insertion.IndentRow | PythonBreakpoints.py:304 | one pass of the offset loop indents the next row |
| Insertion.CloseBelow | PythonBreakpoints.py:306-311 | the except line and the in-block breakpoint go below the selection |
| Insertion.CloseAtEnd | PythonBreakpoints.py:306-311 | at the buffer's end, the except text joins the last selected row and the breakpoint follows |
| Insertion.WrapThenRemove | PythonBreakpoints.py:242-314 | removing the in-block breakpoint of a guard block gives back the buffer as it was before wrapping, provided a row follows the selection and no shifted row starts with the try line at that indent |
| Insertion.GuardLinesAt | PythonBreakpoints.py:300-306 | the inserted try and except lines pass the removal's tests, and the except line's indent is the guard's |
| Insertion.BreakpointRowErased | PythonBreakpoints.py:306-311 | in the wrapped buffer, the breakpoint sits right after the except line, and erasing it leaves the guard block |
| Insertion.GuardRestores | PythonBreakpoints.py:242-265 | unwinding the guard block around indented rows gives back the original rows |
| Commands.HostRow | PythonBreakpoints.py:233-235 | for the row the host reports with the cursor on row k, remove_breakpoint's ln comes out as k |
| Commands.ToggleBreakpoint | PythonBreakpoints.py:321-340 | with an empty selection, remove the breakpoint at or above the cursor, or else insert one; with a selection, wrap it |
| Commands.ToggleTwice | PythonBreakpoints.py:321-340 | toggling twice on a row with no breakpoint at or above it first adds exactly one breakpoint line, then gives back the buffer |
| Commands.ToggleAfterWrap | PythonBreakpoints.py:321-340 | toggling on the breakpoint left by wrapping a selection gives back the buffer as it was before wrapping |
| Commands.FirstMatch | PythonBreakpoints.py:221-226 | the first row matching the breakpoint pattern, with no match above it, or nothing when no row matches |
| Commands.ClearAllBreakpoints | PythonBreakpoints.py:386-393 | the bounded loop leaves the buffer that 999 rounds of find-then-remove specify |
| Commands.CountRounds | PythonBreakpoints.py:389-392 | n rounds of erasing the first breakpoint row leave max(0, count - n) breakpoint rows |
| Commands.ClearRounds | PythonBreakpoints.py:389-392 | with no more breakpoints than rounds, the rounds leave every other row, in order |
| Commands.ClearStepsErase | PythonBreakpoints.py:389-392 | with no in-block breakpoints, each clear-all round erases exactly the first breakpoint row |
| Commands.ClearStepsRemoveAll | PythonBreakpoints.py:389-392 | n rounds of clear-all leave max(0, count - n) breakpoints, and none with all other rows kept when count <= n |
| Commands.ClearAllRemovesAll | PythonBreakpoints.py:389-392 | with at most 999 breakpoints, none in a guard block, clear-all leaves no breakpoint line and keeps every other row in order |
| Commands.EraseCleared | PythonBreakpoints.py:389-392 | erasing one breakpoint row does not change what clearing all of them leaves |
| Commands.KeptAppend | PythonBreakpoints.py:389-392 | the kept rows and the breakpoint count of a concatenation combine those of its parts |

## Left out

- The Sublime API is replaced by the line buffer. This covers `view.lines`, `full_line`, `find`, `rowcol`, `sel` and `show_at_center`.
- Highlighting is not modelled: `add_regions`, `erase_regions`, `Breakpoint.highlight` and the `on_load` listener touch regions only, not text. `region_id` is modelled.
- `goto_position` is not modelled. It moves the cursor only; the lemmas state the cursor row as a parameter instead.
- `GotoBreakpointCommand` and its quick-panel list formatting are not modelled. They are display text only.
- Settings are not modelled: `plugin_loaded` and `settings.get`. `tab_size` and the debugger name are parameters.
- `uuid.uuid4()` is not modelled; the uid is an input.
- `save_file`, `is_python` and `debug` are not modelled. They are editor side effects and logging; the commands assume a Python view.
- The regular expression engine is not modelled. Only the three fixed patterns are, as predicates, with `\w` restricted to ASCII letters, digits and `_`.
- Commands.HostRow: how the host turns a region into a row number and a line count is an assumption, which the model does not derive from Sublime. With the cursor on row k, the row is k+1 when a row follows and k otherwise, and the count is k+1: `view.lines(Region(0, p))` with p at the begin of a row is read as not listing that row, the reading the `min(..., len(lines) - 1)` at PythonBreakpoints.py:235 is written for. `Indent.Filtered` reads `view.lines(Region(0, view.size()))` at PythonBreakpoints.py:145 the other way, listing the empty last row of a text that ends in a newline. The two readings disagree for one cursor position, the row just above that empty last row: there the model's toggle looks for a breakpoint on the cursor row and the row above it, where the other reading would look on the empty last row and the cursor row.
- Views.View.InsertTextAt: only newline-free text is inserted through it. The plugin inserts newline-terminated text only at a row start or a row end, which InsertLineAt models.
- Commands.ClearAllRemovesAll: proved only for buffers whose breakpoints are all outside guard blocks. For in-block breakpoints only the loop's equation with the round-by-round specification is proved.
- Insertion.WrapThenRemove: the round trip is proved only when a row follows the selection. At the buffer's end, the except text shares the last selected row.
- Commands.ToggleAfterWrap: same restriction as Insertion.WrapThenRemove.
- Removal.UnwindOutdent: stated only for block rows at least tab characters long. On a shorter row the tab-size erase runs through the row's newline and joins it with the row below; `Removal.Unwind` models that through `Views.EraseFromLineStart`, whose effect on the text `Views.EraseFromLineStartText` states, but no lemma about `Removal.Unwind` describes the resulting rows.
- Removal.UnwindOutdentAll: the same restriction to rows at least tab characters long.
- Removal.UnwindGuardBlock: the same restriction to rows at least tab characters long.
- Removal.UnwindWithoutTry: the same restriction to rows at least tab characters long.
- Insertion.ToggleRoundTrip: proved for the cursor left on the inserted row. A cursor moved to the row below is not covered; removal there tries that row first.
- Commands.ToggleTwice: proved when no breakpoint sits on the cursor row or the row above it. Otherwise the first toggle removes that breakpoint instead.
