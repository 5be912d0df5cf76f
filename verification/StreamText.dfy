/** What of the rows is text for a search: neither trailing background nor the spacers of wraps. */
module StreamText {
  import opened Common
  import opened Rows
  import opened Streams

  /** Two rows have the same cells up to the same end, and both go on or neither does. */
  predicate Interchangeable(a: Row, b: Row) {
    a.Hard() == b.Hard() && TextEnd(a) == TextEnd(b) && a.cells[..TextEnd(a)] == b.cells[..TextEnd(b)]
  }

  lemma {:induction false} SameCells(a: Row, b: Row, line: nat, from: nat)
    requires Interchangeable(a, b)
    ensures var end := TextEnd(a); CellTokens(a, line, from, end, end) == CellTokens(b, line, from, end, end)
    decreases Gap(from, TextEnd(a))
  {
    hide TextEnd;
    var end := TextEnd(a);
    if from < end {
      SameCells(a, b, line, from + 1);
      assert a.cells[..end][from] == b.cells[..end][from];
      if from + 1 < end { assert a.cells[..end][from + 1] == b.cells[..end][from + 1]; }
    }
  }

  /** A row can be exchanged for one with the same text. */
  lemma {:induction false} SameTokens(rows: seq<Row>, r: nat, other: Row, line: nat, column: nat)
    requires r < |rows| && Interchangeable(rows[r], other)
    ensures TokensFrom(rows[r := other], line, column) == TokensFrom(rows, line, column)
    decreases |rows| - line
  {
    hide CellTokens, TextEnd;
    if line < |rows| {
      SameTokens(rows, r, other, line + 1, 0);
      if line == r { SameCells(rows[r], other, line, column); }
    }
  }

  lemma {:induction false} TrimmedTail(cells: seq<Cell>, tail: seq<Cell>, n: nat)
    requires n <= |tail| && forall c <- tail :: c.cp == BLANK && c.flags == ERASED && c.link == 0
    ensures Trimmed(cells + tail, |cells| + n) == Trimmed(cells + tail, |cells|)
  {
    if n > 0 {
      assert (cells + tail)[|cells| + n - 1] == tail[n - 1];
      TrimmedTail(cells, tail, n - 1);
    }
  }

  lemma {:induction false} TrimmedWithin(cells: seq<Cell>, tail: seq<Cell>, n: nat)
    requires n <= |cells|
    ensures Trimmed(cells + tail, n) == Trimmed(cells, n)
  {
    if n > 0 { TrimmedWithin(cells, tail, n - 1); }
  }

  /** Erased cells without a link at the end of a hard row change nothing in the tokens. */
  lemma BackgroundUnread(rows: seq<Row>, r: nat, tail: seq<Cell>, line: nat, column: nat)
    requires r < |rows| && rows[r].Hard() && forall c <- tail :: c.cp == BLANK && c.flags == ERASED && c.link == 0
    ensures TokensFrom(rows[r := rows[r].(cells := rows[r].cells + tail)], line, column)
            == TokensFrom(rows, line, column)
  {
    var cells := rows[r].cells;
    TrimmedTail(cells, tail, |tail|);
    TrimmedWithin(cells, tail, |cells|);
    var end := Trimmed(cells, |cells|);
    assert (cells + tail)[..end] == cells[..end];
    SameTokens(rows, r, rows[r].(cells := cells + tail), line, column);
  }

  /** Any other cell at the end of a hard row is text to its last column. */
  lemma OtherRead(row: Row)
    requires row.Hard() && row.cells != []
    ensures var c := row.cells[|row.cells| - 1];
            TextEnd(row) == |row.cells| <==> !(c.cp == BLANK && c.flags == ERASED && c.link == 0)
  {
  }

  /** The spacer of a glyph that did not fit changes nothing in the tokens: a wrapped row reads on as without it. */
  lemma SpacerUnread(rows: seq<Row>, r: nat, spacer: seq<Cell>, line: nat, column: nat)
    requires r < |rows| && !rows[r].Hard() && rows[r].wrapColumns == |rows[r].cells| && rows[r].wrapPadding == 0
    ensures var n := |rows[r].cells| + |spacer|;
            TokensFrom(rows[r := Row(rows[r].cells + spacer, n, |spacer|)], line, column)
            == TokensFrom(rows, line, column)
  {
    var cells := rows[r].cells;
    assert (cells + spacer)[..|cells|] == cells[..|cells|];
    SameTokens(rows, r, Row(cells + spacer, |cells| + |spacer|, |spacer|), line, column);
  }
}
