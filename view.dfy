/**
 * The editor buffer, held as its lines. The buffer's text is the lines joined
 * by newlines, so a line never holds a newline and a text that ends in a
 * newline has an empty last line. Character offsets, which the plugin reads
 * from the host's regions, are derived from the line lengths.
 */
module Views {
  import opened Text

  /** Offset of the first character of row `r` (region.begin()). */
  function Begin(buf: seq<string>, r: nat): nat
    requires r <= |buf|
  {
    if r == 0 then 0 else Begin(buf, r - 1) + |buf[r - 1]| + 1
  }

  /** Offset just past the last character of row `r` (region.end()). */
  function End(buf: seq<string>, r: nat): nat
    requires r < |buf|
  {
    Begin(buf, r) + |buf[r]|
  }

  /** A later row begins at least one newline after an earlier row ends, and
      exactly one newline after the row just before it. */
  lemma {:induction false} RowsApart(buf: seq<string>, r: nat, r': nat)
    requires r < r' < |buf|
    ensures Begin(buf, r') - End(buf, r) >= r' - r
    ensures r' == r + 1 ==> Begin(buf, r') - End(buf, r) == 1
    decreases r' - r
  {
    if r' > r + 1 {
      RowsApart(buf, r, r' - 1);
    }
  }

  /** view.size(): the offset just past the last row. */
  function Size(buf: seq<string>): nat
    requires |buf| > 0
  {
    End(buf, |buf| - 1)
  }

  /** Every row ends at or before the end of the buffer. */
  lemma RowInBuffer(buf: seq<string>, r: nat)
    requires r < |buf|
    ensures Begin(buf, r) <= End(buf, r) <= Size(buf)
  {
    if r + 1 < |buf| {
      RowsApart(buf, r, |buf| - 1);
    }
  }

  /** view.rowcol(pos): the row holding offset `pos` and the column in it. */
  function Locate(buf: seq<string>, pos: nat): (rc: (nat, nat))
    requires |buf| > 0 && pos <= Size(buf)
    ensures rc.0 < |buf| && rc.1 <= |buf[rc.0]| && Begin(buf, rc.0) + rc.1 == pos
  {
    LocateFrom(buf, 0, pos)
  }

  function LocateFrom(buf: seq<string>, r: nat, pos: nat): (rc: (nat, nat))
    requires r < |buf| && Begin(buf, r) <= pos <= Size(buf)
    ensures rc.0 < |buf| && rc.1 <= |buf[rc.0]| && Begin(buf, rc.0) + rc.1 == pos
    decreases |buf| - r
  {
    if pos <= End(buf, r) then (r, pos - Begin(buf, r)) else LocateFrom(buf, r + 1, pos)
  }

  /** An offset names one row and column only: rows are separated by newlines. */
  lemma LocateUnique(buf: seq<string>, r: nat, c: nat, r': nat, c': nat)
    requires r < |buf| && c <= |buf[r]| && r' < |buf| && c' <= |buf[r']|
    requires Begin(buf, r) + c == Begin(buf, r') + c'
    ensures r == r' && c == c'
  {
    if r < r' {
      RowsApart(buf, r, r');
    } else if r' < r {
      RowsApart(buf, r', r);
    }
  }

  /** The begin and the end of row `r` lie in row `r`. */
  lemma LocateRow(buf: seq<string>, r: nat)
    requires r < |buf|
    ensures Begin(buf, r) <= End(buf, r) <= Size(buf)
    ensures Locate(buf, Begin(buf, r)) == (r, 0)
    ensures Locate(buf, End(buf, r)) == (r, |buf[r]|)
  {
    RowInBuffer(buf, r);
    var rc := Locate(buf, Begin(buf, r));
    LocateUnique(buf, r, 0, rc.0, rc.1);
    var rc' := Locate(buf, End(buf, r));
    LocateUnique(buf, r, |buf[r]|, rc'.0, rc'.1);
  }

  /** Rows of a prefix begin where they began before. */
  lemma {:induction false} BeginPrefix(x: seq<string>, y: seq<string>, j: nat)
    requires j <= |x|
    ensures Begin(x + y, j) == Begin(x, j)
  {
    if j > 0 {
      BeginPrefix(x, y, j - 1);
      assert (x + y)[j - 1] == x[j - 1];
    }
  }

  /** Rows of a suffix begin after all of the prefix and its newlines. */
  lemma {:induction false} BeginSplit(x: seq<string>, y: seq<string>, j: nat)
    requires j <= |y|
    ensures Begin(x + y, |x| + j) == Begin(x, |x|) + Begin(y, j)
  {
    if j == 0 {
      BeginPrefix(x, y, |x|);
    } else {
      BeginSplit(x, y, j - 1);
      assert (x + y)[|x| + j - 1] == y[j - 1];
    }
  }

  /** Where a row begins depends on the rows above it only. */
  lemma BeginSameAbove(x: seq<string>, y: seq<string>, j: nat)
    requires j <= |x| && j <= |y| && x[..j] == y[..j]
    ensures Begin(x, j) == Begin(y, j)
  {
    assert x == x[..j] + x[j..];
    assert y == y[..j] + y[j..];
    BeginPrefix(x[..j], x[j..], j);
    BeginPrefix(y[..j], y[j..], j);
  }

  /** view.erase(edit, view.full_line(row)): the row and its newline go. The
      last row has no newline after it, so erasing it leaves an empty last row. */
  function EraseFullLine(buf: seq<string>, r: nat): (res: seq<string>)
    requires r < |buf|
    ensures |res| == if r + 1 < |buf| then |buf| - 1 else |buf|
    ensures res[..r] == buf[..r]
    ensures r + 1 < |buf| ==> res[r..] == buf[r + 1..]
    ensures r + 1 == |buf| ==> res == buf[..r] + [""]
  {
    if r + 1 < |buf| then buf[..r] + buf[r + 1..] else buf[..r] + [""]
  }

  /**
   * view.erase(edit, Region(begin, begin + n)) for the begin of row `r`. When
   * the row is shorter than `n` the erase runs on through its newline into the
   * rows after it; it stops at the end of the buffer.
   */
  function EraseFromLineStart(buf: seq<string>, r: nat, n: nat): (res: seq<string>)
    requires r < |buf|
    ensures r < |res| <= |buf|
    ensures res[..r] == buf[..r]
    ensures n <= |buf[r]| ==> res == buf[r := buf[r][n..]]
    decreases n
  {
    if n <= |buf[r]| then buf[r := buf[r][n..]]
    else if r + 1 == |buf| then buf[r := ""]
    else EraseFromLineStart(buf[..r] + buf[r + 1..], r, n - |buf[r]| - 1)
  }

  /** view.insert(edit, pos, s + "\n") at column `c` of row `r`: the row splits there. */
  function InsertLine(buf: seq<string>, r: nat, c: nat, s: string): (res: seq<string>)
    requires r < |buf| && c <= |buf[r]|
    ensures |res| == |buf| + 1
    ensures res[..r] == buf[..r] && res[r + 2..] == buf[r + 1..]
    ensures res[r] == buf[r][..c] + s && res[r + 1] == buf[r][c..]
  {
    buf[..r] + [buf[r][..c] + s, buf[r][c..]] + buf[r + 1..]
  }

  /** Inserting a line at the begin of row `r` puts it above the row. */
  lemma InsertAtRowStart(buf: seq<string>, r: nat, s: string)
    requires r < |buf|
    ensures InsertLine(buf, r, 0, s) == buf[..r] + [s] + buf[r..]
  {
    assert buf[r][..0] + s == s && buf[r][0..] == buf[r];
    assert buf[r..] == [buf[r]] + buf[r + 1..];
  }

  /** Inserting a line at the end of row `r` appends the text to the row and
      starts an empty row after it. */
  lemma InsertAtRowEnd(buf: seq<string>, r: nat, s: string)
    requires r < |buf|
    ensures InsertLine(buf, r, |buf[r]|, s) == buf[..r] + [buf[r] + s, ""] + buf[r + 1..]
  {
    assert buf[r][..|buf[r]|] == buf[r] && buf[r][|buf[r]|..] == "";
  }

  /** view.insert(edit, pos, s) of a text `s` without newline at column `c` of row `r`. */
  function InsertText(buf: seq<string>, r: nat, c: nat, s: string): (res: seq<string>)
    requires r < |buf| && c <= |buf[r]|
    ensures |res| == |buf| && res[r] == buf[r][..c] + s + buf[r][c..]
    ensures forall i :: 0 <= i < |buf| && i != r ==> res[i] == buf[i]
  {
    buf[r := buf[r][..c] + s + buf[r][c..]]
  }

  /** The buffer's text: its rows joined by newlines. */
  function BufferText(buf: seq<string>): string
    requires |buf| > 0
  {
    if |buf| == 1 then buf[0] else buf[0] + "\n" + BufferText(buf[1..])
  }

  /** The text of the rows above a row, with the newline that ends them. */
  function Above(pre: seq<string>): string
  {
    if |pre| == 0 then "" else BufferText(pre) + "\n"
  }

  /** The text of the rows below a row, with the newline that starts them. */
  function Below(post: seq<string>): string
  {
    if |post| == 0 then "" else "\n" + BufferText(post)
  }

  lemma TextCons(x: string, post: seq<string>)
    ensures BufferText([x] + post) == x + Below(post)
  {
    if |post| > 0 {
      assert ([x] + post)[1..] == post;
    }
  }

  /** Joining two row lists joins their texts with a newline. */
  lemma {:induction false} TextConcat(x: seq<string>, y: seq<string>)
    requires |y| > 0
    ensures BufferText(x + y) == Above(x) + BufferText(y)
    decreases |x|
  {
    if |x| > 0 {
      assert (x + y)[1..] == x[1..] + y;
      TextConcat(x[1..], y);
      if |x| > 1 {
        assert BufferText(x) == x[0] + "\n" + BufferText(x[1..]);
      }
    } else {
      assert x + y == y;
    }
  }

  /** The rows above row `r` take up the text before the row's begin. */
  lemma {:induction false} AboveLength(buf: seq<string>, r: nat)
    requires r <= |buf|
    ensures |Above(buf[..r])| == Begin(buf, r)
  {
    if r > 0 {
      AboveLength(buf, r - 1);
      assert buf[..r] == buf[..r - 1] + [buf[r - 1]];
      TextConcat(buf[..r - 1], [buf[r - 1]]);
    }
  }

  /** The text is Size characters long. */
  lemma TextLength(buf: seq<string>)
    requires |buf| > 0
    ensures |BufferText(buf)| == Size(buf)
  {
    AboveLength(buf, |buf|);
    assert buf[..|buf|] == buf;
  }

  /** The text of a row between other rows. */
  lemma TextOfRows(pre: seq<string>, x: string, post: seq<string>)
    ensures BufferText(pre + [x] + post) == Above(pre) + x + Below(post)
  {
    assert pre + [x] + post == pre + ([x] + post);
    TextConcat(pre, [x] + post);
    TextCons(x, post);
  }

  /** The text is the rows above row `r`, the row, and the rows below it; the
      row's text starts at its begin offset. */
  lemma TextAt(buf: seq<string>, r: nat)
    requires r < |buf|
    ensures BufferText(buf) == Above(buf[..r]) + buf[r] + Below(buf[r + 1..])
    ensures |Above(buf[..r])| == Begin(buf, r)
  {
    assert buf == buf[..r] + [buf[r]] + buf[r + 1..];
    TextOfRows(buf[..r], buf[r], buf[r + 1..]);
    AboveLength(buf, r);
  }

  /** The text after replacing row `r`. */
  lemma ReplaceRowText(buf: seq<string>, r: nat, x: string)
    requires r < |buf|
    ensures BufferText(buf[r := x]) == Above(buf[..r]) + x + Below(buf[r + 1..])
  {
    assert buf[r := x] == buf[..r] + [x] + buf[r + 1..];
    TextOfRows(buf[..r], x, buf[r + 1..]);
  }

  /** The text after splitting row `r` at column `c` with `s` ending the first part. */
  lemma InsertLineRowsText(buf: seq<string>, r: nat, c: nat, s: string)
    requires r < |buf| && c <= |buf[r]|
    ensures BufferText(InsertLine(buf, r, c, s))
      == Above(buf[..r]) + (buf[r][..c] + s) + ("\n" + (buf[r][c..] + Below(buf[r + 1..])))
  {
    var pre, left, right, post := buf[..r], buf[r][..c] + s, buf[r][c..], buf[r + 1..];
    assert InsertLine(buf, r, c, s) == pre + [left] + ([right] + post);
    TextOfRows(pre, left, [right] + post);
    TextCons(right, post);
  }

  /** Cutting a text where its parts meet gives the parts back. */
  lemma CutAt(a: string, b: string)
    ensures (a + b)[..|a|] == a && (a + b)[|a|..] == b
  {
  }

  lemma SplitAt(x: string, c: nat)
    requires c <= |x|
    ensures x == x[..c] + x[c..]
  {
  }

  lemma Assoc(x: string, y: string, z: string)
    ensures x + (y + z) == x + y + z
  {
  }

  /** A text made of the rows above, a row and the rows below, sliced at
      column `c` of the row. */
  lemma Slices(t: string, a: string, row: string, c: nat, z: string)
    requires c <= |row| && t == a + row + z
    ensures t[..|a| + c] == a + row[..c] && t[|a| + c..] == row[c..] + z
  {
    var left, right := row[..c], row[c..];
    SplitAt(row, c);
    Assoc(a, left, right);
    Assoc(a + left, right, z);
    CutAt(a + left, right + z);
  }

  /** view.insert of `s` and a newline at column `c` of row `r` puts them into
      the text at that row's begin plus `c`. */
  lemma InsertLineText(buf: seq<string>, r: nat, c: nat, s: string)
    requires r < |buf| && c <= |buf[r]|
    ensures var t, p := BufferText(buf), Begin(buf, r) + c;
      p <= |t| && BufferText(InsertLine(buf, r, c, s)) == t[..p] + (s + "\n") + t[p..]
  {
    var t, p := BufferText(buf), Begin(buf, r) + c;
    var a, row, z := Above(buf[..r]), buf[r], Below(buf[r + 1..]);
    TextAt(buf, r);
    SpliceLine(t, a, row, c, s, z, p);
    calc {
      BufferText(InsertLine(buf, r, c, s));
    == { InsertLineRowsText(buf, r, c, s); }
      a + (row[..c] + s) + ("\n" + (row[c..] + z));
      t[..p] + (s + "\n") + t[p..];
    }
  }

  /** The text of a row split at column `c` with `s` and a newline between
      the parts, sliced apart from the text before the split. */
  lemma SpliceLine(t: string, a: string, row: string, c: nat, s: string, z: string, p: nat)
    requires c <= |row| && t == a + row + z && p == |a| + c
    ensures p <= |t|
    ensures a + (row[..c] + s) + ("\n" + (row[c..] + z)) == t[..p] + (s + "\n") + t[p..]
  {
    var left, right := row[..c], row[c..];
    Slices(t, a, row, c, z);
    Assoc(a, left, s);
    Assoc(a + left + s, "\n", right + z);
    Assoc(a + left, s, "\n");
  }

  /** view.insert of `s` at column `c` of row `r` puts it into the text at that
      row's begin plus `c`. */
  lemma InsertTextText(buf: seq<string>, r: nat, c: nat, s: string)
    requires r < |buf| && c <= |buf[r]|
    ensures var t, p := BufferText(buf), Begin(buf, r) + c;
      p <= |t| && BufferText(InsertText(buf, r, c, s)) == t[..p] + s + t[p..]
  {
    var t, p := BufferText(buf), Begin(buf, r) + c;
    var a, x, z := Above(buf[..r]), buf[r][..c] + s + buf[r][c..], Below(buf[r + 1..]);
    TextAt(buf, r);
    SpliceText(t, a, buf[r], c, s, z, p);
    calc {
      BufferText(InsertText(buf, r, c, s));
      BufferText(buf[r := x]);
    == { ReplaceRowText(buf, r, x); }
      a + x + z;
      t[..p] + s + t[p..];
    }
  }

  /** The text of a row with `s` put in at column `c`, sliced apart from the
      text before the insertion. */
  lemma SpliceText(t: string, a: string, row: string, c: nat, s: string, z: string, p: nat)
    requires c <= |row| && t == a + row + z && p == |a| + c
    ensures p <= |t|
    ensures a + (row[..c] + s + row[c..]) + z == t[..p] + s + t[p..]
  {
    var left, right := row[..c], row[c..];
    Slices(t, a, row, c, z);
    Assoc(a, left + s, right);
    Assoc(a, left, s);
    Assoc(a + left + s, right, z);
  }

  /** Where view.full_line(r) ends: past the row's newline, or at the end of
      the buffer for the last row. */
  function FullLineEnd(buf: seq<string>, r: nat): nat
    requires r < |buf|
  {
    if r + 1 < |buf| then Begin(buf, r + 1) else Size(buf)
  }

  /** A text with the characters from offset `i` up to offset `j` taken out. */
  function CutOut(t: string, i: nat, j: nat): string
    requires i <= j <= |t|
  {
    t[..i] + t[j..]
  }

  /** view.erase of a full line takes the text from the row's begin to the end
      of its full line out of the buffer's text. */
  lemma EraseFullLineText(buf: seq<string>, r: nat)
    requires r < |buf|
    ensures Begin(buf, r) <= FullLineEnd(buf, r) <= |BufferText(buf)|
    ensures BufferText(EraseFullLine(buf, r))
      == CutOut(BufferText(buf), Begin(buf, r), FullLineEnd(buf, r))
  {
    var t, b, e := BufferText(buf), Begin(buf, r), FullLineEnd(buf, r);
    var a, z := Above(buf[..r]), Below(buf[r + 1..]);
    TextAt(buf, r);
    TextLength(buf);
    RowInBuffer(buf, r);
    if r + 1 < |buf| {
      var post := buf[r + 1..];
      RowInBuffer(buf, r + 1);
      DropRow(t, a, buf[r], BufferText(post), b, e);
      calc {
        BufferText(EraseFullLine(buf, r));
        BufferText(buf[..r] + post);
      == { TextConcat(buf[..r], post); }
        a + BufferText(post);
        CutOut(t, b, e);
      }
    } else {
      DropLast(t, a, buf[r], b);
      calc {
        BufferText(EraseFullLine(buf, r));
        BufferText(buf[..r] + [""]);
      == { TextConcat(buf[..r], [""]); }
        a + "";
        CutOut(t, b, e);
      }
    }
  }

  /** A text made of the rows above, a row and the rows after its newline,
      with the row and its newline cut out. */
  lemma DropRow(t: string, a: string, row: string, w: string, b: nat, e: nat)
    requires t == a + row + ("\n" + w) && b == |a| && e == |a| + |row| + 1
    ensures e <= |t| && t[..b] == a && t[e..] == w
  {
    Assoc(a, row, "\n" + w);
    CutAt(a, row + ("\n" + w));
    Assoc(a + row, "\n", w);
    CutAt(a + row + "\n", w);
  }

  /** A text that ends in its last row, with that row cut out. */
  lemma DropLast(t: string, a: string, row: string, b: nat)
    requires t == a + row + "" && b == |a|
    ensures t[..b] == a && t[|t|..] == "" && a + "" == a
  {
    CutAt(a, row);
  }

  /** Where view.erase of `n` characters from the begin of row `r` stops: `n`
      characters on, or at the end of the buffer. */
  function EraseEnd(buf: seq<string>, r: nat, n: nat): nat
    requires r < |buf|
  {
    if Begin(buf, r) + n <= Size(buf) then Begin(buf, r) + n else Size(buf)
  }

  /**
   * view.erase of `n` characters from the begin of row `r` takes them out of
   * the text, running through newlines into later rows and stopping at the
   * end of the buffer.
   */
  lemma {:induction false} EraseFromLineStartText(buf: seq<string>, r: nat, n: nat)
    requires r < |buf|
    ensures Begin(buf, r) <= EraseEnd(buf, r, n) <= |BufferText(buf)|
    ensures BufferText(EraseFromLineStart(buf, r, n))
      == CutOut(BufferText(buf), Begin(buf, r), EraseEnd(buf, r, n))
    decreases n, 1
  {
    var t, b := BufferText(buf), Begin(buf, r);
    TextLength(buf);
    RowInBuffer(buf, r);
    if n <= |buf[r]| {
      EraseWithinRow(buf, r, n);
    } else if r + 1 == |buf| {
      var a := Above(buf[..r]);
      TextAt(buf, r);
      assert buf[r + 1..] == [];
      DropLast(t, a, buf[r], b);
      calc {
        BufferText(EraseFromLineStart(buf, r, n));
        BufferText(buf[r := ""]);
      == { ReplaceRowText(buf, r, ""); }
        a + "" + Below(buf[r + 1..]);
        CutOut(t, b, |t|);
      }
    } else {
      EraseThroughRow(buf, r, n);
    }
  }

  /** Erasing more than a row that is not the last one holds: the row and its
      newline go, and the rest of the erase goes on from the same offset. */
  lemma {:induction false} EraseThroughRow(buf: seq<string>, r: nat, n: nat)
    requires r + 1 < |buf| && n > |buf[r]|
    ensures Begin(buf, r) <= EraseEnd(buf, r, n) <= |BufferText(buf)|
    ensures BufferText(EraseFromLineStart(buf, r, n))
      == CutOut(BufferText(buf), Begin(buf, r), EraseEnd(buf, r, n))
    decreases n, 0
  {
    var t, b, b' := BufferText(buf), Begin(buf, r), Begin(buf, r + 1);
    var rest := EraseFullLine(buf, r);
    var n' := n - |buf[r]| - 1;
    var e, e' := EraseEnd(buf, r, n), EraseEnd(rest, r, n');
    EraseFullLineSize(buf, r);
    TextLength(buf);
    calc {
      BufferText(EraseFromLineStart(buf, r, n));
    == { EraseSkipsRow(buf, r, n); }
      BufferText(EraseFromLineStart(rest, r, n'));
    == { EraseFromLineStartText(rest, r, n'); BeginSameAbove(buf, rest, r); }
      CutOut(BufferText(rest), b, e');
    == { EraseFullLineText(buf, r); }
      CutOut(CutOut(t, b, b'), b, e');
    == { EraseEndShift(buf, r, n); CutTwice(t, b, b', e', e); }
      CutOut(t, b, e);
    }
  }

  /** An erase that runs past a row that is not the last is the erase of the
      rest from the same row once that row and its newline are gone. */
  lemma EraseSkipsRow(buf: seq<string>, r: nat, n: nat)
    requires r + 1 < |buf| && n > |buf[r]|
    ensures EraseFromLineStart(buf, r, n)
      == EraseFromLineStart(EraseFullLine(buf, r), r, n - |buf[r]| - 1)
  {
  }

  /** Cutting out a span and then a span from the same offset is cutting out
      one longer span. */
  lemma CutTwice(t: string, i: nat, j: nat, k: nat, k': nat)
    requires i <= j <= |t| && i <= k <= |t| - (j - i) && k' == k + (j - i)
    ensures CutOut(CutOut(t, i, j), i, k) == CutOut(t, i, k')
  {
  }

  /** Erasing a row that is not the last shortens the buffer by the row and
      its newline. */
  lemma EraseFullLineSize(buf: seq<string>, r: nat)
    requires r + 1 < |buf|
    ensures Begin(buf, r + 1) - Begin(buf, r) == |buf[r]| + 1
    ensures Begin(buf, r + 1) <= Size(buf)
    ensures Size(EraseFullLine(buf, r)) + (Begin(buf, r + 1) - Begin(buf, r)) == Size(buf)
  {
    EraseFullLineText(buf, r);
    TextLength(buf);
    TextLength(EraseFullLine(buf, r));
  }

  /** The end of an erase that runs past row `r`, measured after the row and
      its newline are gone, is that many characters short of the end measured
      before. */
  lemma EraseEndShift(buf: seq<string>, r: nat, n: nat)
    requires r + 1 < |buf| && n > |buf[r]|
    ensures var rest := EraseFullLine(buf, r);
      EraseEnd(rest, r, n - |buf[r]| - 1) + (Begin(buf, r + 1) - Begin(buf, r)) == EraseEnd(buf, r, n)
  {
    var rest := EraseFullLine(buf, r);
    EraseFullLineSize(buf, r);
    BeginSameAbove(buf, rest, r);
  }

  /** Erasing no more than the row holds changes that row's text only. */
  lemma EraseWithinRow(buf: seq<string>, r: nat, n: nat)
    requires r < |buf| && n <= |buf[r]|
    ensures Begin(buf, r) + n <= |BufferText(buf)|
    ensures BufferText(buf[r := buf[r][n..]])
      == CutOut(BufferText(buf), Begin(buf, r), Begin(buf, r) + n)
  {
    var t, b := BufferText(buf), Begin(buf, r);
    var a, z := Above(buf[..r]), Below(buf[r + 1..]);
    TextAt(buf, r);
    DropFront(t, a, buf[r], n, z, b);
    calc {
      BufferText(buf[r := buf[r][n..]]);
    == { ReplaceRowText(buf, r, buf[r][n..]); }
      a + buf[r][n..] + z;
      CutOut(t, b, b + n);
    }
  }

  /** The text of a row that loses its first `n` characters, sliced around
      them. */
  lemma DropFront(t: string, a: string, row: string, n: nat, z: string, b: nat)
    requires n <= |row| && t == a + row + z && b == |a|
    ensures b + n <= |t| && a + row[n..] + z == t[..b] + t[b + n..]
  {
    Slices(t, a, row, n, z);
    CutAt(a, row[..n]);
    assert t[..|a|] == t[..|a| + n][..|a|];
    Assoc(a, row[n..], z);
  }

  /** The host's view of one file, as the plugin edits it. */
  class View {
    var lines: seq<string>

    /** A buffer always has at least one (possibly empty) row. */
    predicate Valid()
      reads this
    {
      |lines| > 0
    }

    constructor (text: seq<string>)
      requires |text| > 0
      ensures Valid() && lines == text
    {
      lines := text;
    }

    /** view.insert(edit, pos, s + "\n"): the row holding `pos` splits
        there; the count of inserted characters is returned. */
    method InsertLineAt(pos: nat, s: string) returns (n: nat)
      requires Valid() && pos <= Size(lines)
      modifies this
      ensures Valid() && n == |s| + 1
      ensures lines == InsertLine(old(lines), Locate(old(lines), pos).0, Locate(old(lines), pos).1, s)
    {
      var rc := Locate(lines, pos);
      lines := InsertLine(lines, rc.0, rc.1, s);
      n := |s| + 1;
    }

    /** view.insert(edit, pos, s) of a text without newline. */
    method InsertTextAt(pos: nat, s: string) returns (n: nat)
      requires Valid() && pos <= Size(lines)
      modifies this
      ensures Valid() && n == |s|
      ensures lines == InsertText(old(lines), Locate(old(lines), pos).0, Locate(old(lines), pos).1, s)
    {
      var rc := Locate(lines, pos);
      lines := InsertText(lines, rc.0, rc.1, s);
      n := |s|;
    }

    method EraseRow(r: nat)
      requires Valid() && r < |lines|
      modifies this
      ensures Valid() && lines == EraseFullLine(old(lines), r)
    {
      lines := EraseFullLine(lines, r);
    }

    method EraseAtRowStart(r: nat, n: nat)
      requires Valid() && r < |lines|
      modifies this
      ensures Valid() && lines == EraseFromLineStart(old(lines), r, n)
    {
      lines := EraseFromLineStart(lines, r, n);
    }
  }
}
