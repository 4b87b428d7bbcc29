/** The editor adapter's coordinate translation: a line-oriented host
    document addressed either by `{row, column}` or by a flat character
    offset into the document's text (plugins/ace/editor.js, `toOffset` and
    `fromOffset`). */
module Document {

  /** The bound host document: its lines without terminators, and the newline
      sequence the host joins them with (`doc.getNewLineCharacter()`). */
  datatype Doc = Doc(lines: seq<string>, newline: string) {
    /** The host's newline sequence is never empty ("\n", "\r" or "\r\n"). */
    predicate Valid() {
      |newline| >= 1
    }
  }

  /** A host cursor position. Rows are integers because `fromOffset` yields
      row -1 for a negative offset. */
  datatype Position = Position(row: int, column: int)

  /** `doc.getLine(row)`: rows outside the document read as the empty line. */
  function GetLine(d: Doc, row: int): string
  {
    if 0 <= row < |d.lines| then d.lines[row] else ""
  }

  /** The whole text, `doc.getValue()`: the lines joined by the newline.
      An empty document has no text; otherwise the text holds every line
      and one newline between each two. */
  function Content(d: Doc): (r: string)
    ensures |d.lines| == 0 ==> r == ""
    ensures |d.lines| > 0 ==> |r| + |d.newline| == SumLines(d.lines, |d.newline|)
  {
    Join(d.lines, d.newline)
  }

  function Join(lines: seq<string>, nl: string): (r: string)
    ensures |lines| == 0 ==> r == ""
    ensures |lines| > 0 ==> |r| + |nl| == SumLines(lines, |nl|)
  {
    if |lines| == 0 then ""
    else if |lines| == 1 then lines[0]
    else
      var init := lines[..|lines| - 1];
      SumLinesAppend(init, lines[|lines| - 1], |nl|);
      assert init + [lines[|lines| - 1]] == lines;
      Join(init, nl) + nl + lines[|lines| - 1]
  }

  /** The offset at which row `k` starts when rows are read one after the
      other, each contributing its length and one newline; rows past the end
      read as empty, as `fromOffset` reads them. */
  function RowStart(d: Doc, k: nat): int
  {
    if k == 0 then 0 else RowStart(d, k - 1) + |GetLine(d, k - 1)| + |d.newline|
  }

  /** Row starts strictly increase: every row is at least one newline long. */
  lemma {:induction false} RowStartMonotone(d: Doc, j: nat, k: nat)
    requires d.Valid() && j <= k
    ensures RowStart(d, j) + (k - j) <= RowStart(d, k)
  {
    if j < k {
      RowStartMonotone(d, j, k - 1);
    }
  }

  /** `o` lies in row `r`'s span: from its first character up to and
      including its newline. */
  ghost predicate InRow(d: Doc, o: int, r: int)
  {
    0 <= r && RowStart(d, r) <= o < RowStart(d, r + 1)
  }

  /** At most one row's span holds a given offset. */
  lemma RowOfOffsetUnique(d: Doc, o: int, r1: int, r2: int)
    requires d.Valid() && InRow(d, o, r1) && InRow(d, o, r2)
    ensures r1 == r2
  {
    if r1 < r2 {
      RowStartMonotone(d, r1 + 1, r2);
    } else if r2 < r1 {
      RowStartMonotone(d, r2 + 1, r1);
    }
  }

  /** Sum of the lengths of `ls`, each followed by one newline, accumulated
      front to back like the loop over `prevLines` in `toOffset`. */
  function SumLines(ls: seq<string>, nl: nat): nat
  {
    if |ls| == 0 then 0 else |ls[0]| + nl + SumLines(ls[1..], nl)
  }

  lemma {:induction false} SumLinesAppend(ls: seq<string>, l: string, nl: nat)
    ensures SumLines(ls + [l], nl) == SumLines(ls, nl) + |l| + nl
  {
    if |ls| > 0 {
      assert (ls + [l])[1..] == ls[1..] + [l];
      SumLinesAppend(ls[1..], l, nl);
    }
  }

  /** The front-to-back sum over the first `k` lines is where row `k` starts. */
  lemma {:induction false} SumLinesIsRowStart(d: Doc, k: nat)
    requires k <= |d.lines|
    ensures SumLines(d.lines[..k], |d.newline|) == RowStart(d, k)
  {
    if k > 0 {
      SumLinesIsRowStart(d, k - 1);
      assert d.lines[..k] == d.lines[..k - 1] + [d.lines[k - 1]];
      SumLinesAppend(d.lines[..k - 1], d.lines[k - 1], |d.newline|);
    }
  }

  /** How many lines `doc.getLines(0, row - 1)` returns. The host reads it
      as the array slice `lines.slice(0, row)`: one line per row before
      `row`, all of them for a row at or past the end, and, since a negative
      end counts back from the end of the array, all but the last `-row`
      lines for a negative row. */
  function PrecedingCount(d: Doc, row: int): (n: nat)
    ensures n <= |d.lines|
    ensures 0 <= row <= |d.lines| ==> n == row
    ensures row >= |d.lines| ==> n == |d.lines|
    ensures row < 0 ==> n == if |d.lines| + row > 0 then |d.lines| + row else 0
  {
    if row < 0 then (if |d.lines| + row > 0 then |d.lines| + row else 0)
    else if row < |d.lines| then row
    else |d.lines|
  }

  /** `toOffset(cursorPos)`: the lengths of the lines before the cursor's row,
      each plus one newline, then the column. */
  function ToOffset(d: Doc, p: Position): (o: int)
    ensures o == RowStart(d, PrecedingCount(d, p.row)) + p.column
    ensures p.row == 0 ==> o == p.column
  {
    var prevLines := d.lines[..PrecedingCount(d, p.row)];
    SumLinesIsRowStart(d, PrecedingCount(d, p.row));
    SumLines(prevLines, |d.newline|) + p.column
  }

  /** The loop of `fromOffset`: while the offset is positive, subtract the
      current row's length and one newline and move to the next row. The
      result is the row reached and what is left of the offset. */
  function Walk(d: Doc, row: nat, offset: int): (r: (nat, int))
    requires d.Valid()
    ensures r.0 >= row && r.1 <= 0
    ensures r.1 == offset - (RowStart(d, r.0) - RowStart(d, row))
    ensures r.0 > row ==> offset - (RowStart(d, r.0 - 1) - RowStart(d, row)) > 0
    decreases if offset > 0 then offset else 0
  {
    if offset > 0 then
      Walk(d, row + 1, offset - |GetLine(d, row)| - |d.newline|)
    else
      (row, offset)
  }

  /** `fromOffset(offset)`: run the loop, and when it overshoots step back
      one row, add the newline back and measure the column from the end of
      that row. A non-negative offset lands in the row whose span holds it,
      at its distance from that row's start; a negative one yields row -1. */
  function FromOffset(d: Doc, offset: int): (p: Position)
    requires d.Valid()
    ensures offset < 0 ==> p == Position(-1, offset + |d.newline|)
    ensures offset >= 0 ==> InRow(d, offset, p.row)
    ensures offset >= 0 ==> p.column == offset - RowStart(d, p.row)
  {
    var (row, rest) := Walk(d, 0, offset);
    if rest < 0 then
      var row' := row - 1;
      var rest' := rest + |d.newline|;
      Position(row', |GetLine(d, row')| + rest')
    else
      Position(row, 0)
  }

  /** `fromOffset` as the source writes it: the subtracting loop, then the
      overshoot correction. It computes the same position as `FromOffset`. */
  method FromOffsetLoop(d: Doc, offset: int) returns (p: Position)
    requires d.Valid()
    ensures offset < 0 ==> p == Position(-1, offset + |d.newline|)
    ensures offset >= 0 ==> InRow(d, offset, p.row) && p.column == offset - RowStart(d, p.row)
    ensures p == FromOffset(d, offset)
  {
    var row: int := 0;
    var rest := offset;
    var column := 0;
    while rest > 0
      invariant 0 <= row
      invariant rest == offset - RowStart(d, row)
      invariant row > 0 ==> offset > 0 && offset - RowStart(d, row - 1) > 0
      decreases rest
    {
      rest := rest - |GetLine(d, row)|;
      rest := rest - |d.newline|;
      row := row + 1;
    }
    if rest < 0 {
      row := row - 1;
      rest := rest + |d.newline|;
      column := |GetLine(d, row)| + rest;
    }
    p := Position(row, column);
    if offset >= 0 {
      RowOfOffsetUnique(d, offset, p.row, FromOffset(d, offset).row);
    }
  }

  /** When the loop lands exactly on zero, the position is column 0 of the
      row after the last one consumed. */
  lemma LandsOnRowStart(d: Doc, k: nat)
    requires d.Valid()
    ensures FromOffset(d, RowStart(d, k)) == Position(k, 0)
  {
    RowStartMonotone(d, k, k + 1);
    RowOfOffsetUnique(d, RowStart(d, k), k, FromOffset(d, RowStart(d, k)).row);
  }

  /** When the loop overshoots, the row is the last one consumed and the
      column is what remained of the offset before that row was subtracted. */
  lemma Overshoot(d: Doc, k: nat, offset: int)
    requires d.Valid()
    requires RowStart(d, k) < offset < RowStart(d, k + 1)
    ensures FromOffset(d, offset) == Position(k, offset - RowStart(d, k))
  {
    RowStartMonotone(d, 0, k);
    RowOfOffsetUnique(d, offset, k, FromOffset(d, offset).row);
  }

  /** A position inside the document: an existing row, and a column from the
      start of that row up to its end. */
  predicate ValidPosition(d: Doc, p: Position)
  {
    0 <= p.row < |d.lines| && 0 <= p.column <= |d.lines[p.row]|
  }

  /** Converting a position inside the document to an offset and back gives
      the same position. */
  lemma PositionRoundTrip(d: Doc, p: Position)
    requires d.Valid() && ValidPosition(d, p)
    ensures FromOffset(d, ToOffset(d, p)) == p
  {
    var o := ToOffset(d, p);
    assert InRow(d, o, p.row);
    RowOfOffsetUnique(d, o, p.row, FromOffset(d, o).row);
  }

  /** The text is the rows' spans less the final newline. */
  lemma {:induction false} ContentLength(d: Doc)
    requires |d.lines| > 0
    ensures |Content(d)| == RowStart(d, |d.lines|) - |d.newline|
    decreases |d.lines|
  {
    var n := |d.lines|;
    if n > 1 {
      var d' := Doc(d.lines[..n - 1], d.newline);
      ContentLength(d');
      PrefixRowStart(d, n - 1, n - 1);
    }
  }

  /** Dropping trailing lines does not move the rows that remain. */
  lemma {:induction false} PrefixRowStart(d: Doc, m: nat, k: nat)
    requires m <= |d.lines| && k <= m
    ensures RowStart(Doc(d.lines[..m], d.newline), k) == RowStart(d, k)
  {
    if k > 0 {
      PrefixRowStart(d, m, k - 1);
    }
  }

  /** The offset of a position that names a character is that character's
      index in the document text. */
  lemma {:induction false} OffsetIndexesContent(d: Doc, p: Position)
    requires ValidPosition(d, p) && p.column < |d.lines[p.row]|
    ensures 0 <= ToOffset(d, p) < |Content(d)|
    ensures Content(d)[ToOffset(d, p)] == d.lines[p.row][p.column]
    decreases |d.lines|
  {
    var n := |d.lines|;
    var o := ToOffset(d, p);
    if n == 1 {
      assert Content(d) == d.lines[0];
    } else {
      var d' := Doc(d.lines[..n - 1], d.newline);
      var front := Content(d');
      assert Content(d) == front + d.newline + d.lines[n - 1];
      if p.row < n - 1 {
        assert d'.lines[p.row] == d.lines[p.row];
        PrefixRowStart(d, n - 1, p.row);
        assert ToOffset(d', p) == o;
        OffsetIndexesContent(d', p);
        assert Content(d)[o] == front[o];
      } else {
        ContentLength(d');
        PrefixRowStart(d, n - 1, n - 1);
        assert o == |front| + |d.newline| + p.column;
      }
    }
  }

  /** Each row's text sits in the document text at the row's start. */
  lemma {:induction false} RowText(d: Doc, row: nat)
    requires d.Valid() && row < |d.lines|
    ensures 0 <= RowStart(d, row) && RowStart(d, row) + |d.lines[row]| <= |Content(d)|
    ensures Content(d)[RowStart(d, row)..RowStart(d, row) + |d.lines[row]|] == d.lines[row]
    decreases |d.lines|
  {
    var n := |d.lines|;
    RowStartMonotone(d, 0, row);
    if n == 1 {
      assert Content(d) == d.lines[0];
    } else {
      var d' := Doc(d.lines[..n - 1], d.newline);
      var front := Content(d');
      assert Content(d) == front + d.newline + d.lines[n - 1];
      PrefixRowStart(d, n - 1, row);
      if row < n - 1 {
        RowText(d', row);
        assert d'.lines[row] == d.lines[row];
      } else {
        ContentLength(d');
        PrefixRowStart(d, n - 1, n - 1);
      }
    }
  }

  /** Converting an offset inside the text to a position and back gives the
      same offset, and the position names an existing row. */
  lemma OffsetRoundTrip(d: Doc, o: int)
    requires d.Valid() && 0 <= o <= |Content(d)|
    ensures |d.lines| > 0 ==> 0 <= FromOffset(d, o).row < |d.lines|
    ensures ToOffset(d, FromOffset(d, o)) == o
  {
    var p := FromOffset(d, o);
    if |d.lines| > 0 {
      ContentLength(d);
      if p.row >= |d.lines| {
        RowStartMonotone(d, |d.lines|, p.row);
        assert false;
      }
    } else {
      assert Content(d) == "";
      LandsOnRowStart(d, 0);
    }
  }

  /** The boundary case: with lines "ab" and "cd" and a two-character
      newline, offset 4 is the start of the second row, and offset 3 sits
      inside the first row's newline. */
  lemma BoundaryExample()
    ensures ToOffset(Doc(["ab", "cd"], "\r\n"), Position(1, 0)) == 4
    ensures FromOffset(Doc(["ab", "cd"], "\r\n"), 4) == Position(1, 0)
    ensures FromOffset(Doc(["ab", "cd"], "\r\n"), 3) == Position(0, 3)
  {
    var d := Doc(["ab", "cd"], "\r\n");
    assert RowStart(d, 1) == 4;
    LandsOnRowStart(d, 1);
    Overshoot(d, 0, 3);
  }

  /** A negative row, which the host never reports for a cursor: the slice
      `lines.slice(0, -1)` drops only the last line, so row -1 of three
      one-character lines starts after the first two. */
  lemma NegativeRowExample()
    ensures ToOffset(Doc(["a", "b", "c"], "\n"), Position(-1, 5)) == 9
  {
    var d := Doc(["a", "b", "c"], "\n");
    assert PrecedingCount(d, -1) == 2;
    assert RowStart(d, 2) == 4;
  }
}
