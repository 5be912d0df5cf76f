/** Cursor positions over retained rows, single moves between them, and walks made of moves. */
module NavGrid {
  import opened Common
  import opened Rows

  const TAB: CodePoint := 9

  /** A cell of a row; `row` counts rows from the head as the cursor moves. */
  datatype Cursor = Cursor(line: nat, row: nat, column: nat)

  /** Where a move leads. The boundary is 2 for a hard row end, 1 for a cell or a soft wrap, 0 when there is no
      further. */
  datatype Moved = Moved(cursor: Cursor, boundary: nat)

  datatype Grid = Grid(rows: seq<Row>, width: nat)
  {
    /** The cursor is on a row, which has the number it carries, and within the width. */
    predicate Placed(c: Cursor) {
      c.line < |rows| && c.row == c.line && c.column < Max(1, width)
    }

    /** The columns of a row that hold text. */
    function Columns(line: nat): (n: nat)
      requires line < |rows|
      ensures n <= width && n <= |rows[line].cells|
    {
      var size := |rows[line].cells|;
      Min(if rows[line].Hard() then size else Min(size, rows[line].Boundary()), width)
    }

    /** The columns that can be navigated: blank ones too, but not the spacer of a wide glyph that did not fit. */
    function GridColumns(line: nat): (n: nat)
      requires line < |rows|
      ensures n <= width
    {
      if !rows[line].Hard() && rows[line].wrapColumns <= width then rows[line].Boundary() else width
    }

    function Cp(line: nat, column: nat): CodePoint
      requires line < |rows|
    {
      if column < |rows[line].cells| then rows[line].cells[column].cp else 0
    }

    function CpAt(c: Cursor): CodePoint
      requires c.line < |rows|
    {
      Cp(c.line, c.column)
    }

    /** The nearest column before `limit`, and not the second half of a wide glyph. */
    function Within(c: Cursor, limit: nat): Cursor
      requires c.line < |rows|
    {
      var column := if c.column < limit then c.column else if limit > 0 then limit - 1 else 0;
      c.(column := if column > 0 && Cp(c.line, column) == WIDE_CONT then column - 1 else column)
    }

    function TextClamp(c: Cursor): Cursor
      requires c.line < |rows|
    {
      Within(c, Columns(c.line))
    }

    function Clamp(c: Cursor): Cursor
      requires c.line < |rows|
    {
      Within(c, GridColumns(c.line))
    }

    /** The same column one row up or down, if there is a row. */
    function Neighbour(c: Cursor, up: bool): Cursor {
      if up then if c.line > 0 && c.row > 0 then c.(line := c.line - 1, row := c.row - 1) else c
      else if c.line + 1 < |rows| then c.(line := c.line + 1, row := c.row + 1)
      else c
    }

    /** After `k` rows up or down, kept within each row on the way. */
    function Rowwise(c: Cursor, up: bool, k: nat): (r: Cursor)
      requires Placed(c)
      ensures Placed(r)
      ensures r.line == if up then if k <= c.line then c.line - k else 0 else Min(c.line + k, |rows| - 1)
    {
      if k == 0 then c else Clamp(Neighbour(Rowwise(c, up, k - 1), up))
    }

    lemma RowwiseMore(c: Cursor, up: bool, k: nat)
      requires Placed(c)
      ensures Rowwise(c, up, 0) == c && Rowwise(c, up, k + 1) == Clamp(Neighbour(Rowwise(c, up, k), up))
    {
    }

    /** No row from `a` to `b` ends before the column or has the second half of a wide glyph there. */
    predicate Roomy(a: nat, b: nat, column: nat) {
      b < |rows| && forall l | a <= l <= b ::
        column < GridColumns(l) && !(column > 0 && Cp(l, column) == WIDE_CONT)
    }

    /** Where every row on the way has room for it, the column stays what it was. */
    lemma {:induction false} RowwiseKeeps(c: Cursor, up: bool, k: nat)
      requires Placed(c)
      requires var l := Rowwise(c, up, k).line; Roomy(Min(c.line, l), Max(c.line, l), c.column)
      ensures Clamp(Rowwise(c, up, k)).column == Rowwise(c, up, k).column == c.column
      decreases k
    {
      hide GridColumns;
      if k > 0 { RowwiseKeeps(c, up, k - 1); }
    }

    /** How row `line` ends. */
    function RowEnd(line: nat): nat
      requires line < |rows|
    {
      if rows[line].Hard() then 2 else 1
    }

    /** One move over the grid. */
    function GridAdvance(c: Cursor, reverse: bool): Moved
      requires c.line < |rows|
    {
      if reverse then
        if c.column > 0 then Moved(Clamp(c.(column := c.column - 1)), 1)
        else if c.line == 0 || c.row == 0 then Moved(c, 0)
        else Moved(Clamp(Cursor(c.line - 1, c.row - 1, width)), RowEnd(c.line - 1))
      else
        var next := if Cp(c.line, c.column + 1) == WIDE_CONT then c.column + 2 else c.column + 1;
        if next < GridColumns(c.line) then Moved(c.(column := next), 1)
        else if c.line + 1 == |rows| then Moved(c, 0)
        else Moved(Cursor(c.line + 1, c.row + 1, 0), RowEnd(c.line))
    }

    /** One move over the text. */
    function Advance(c: Cursor, reverse: bool): Moved
      requires c.line < |rows|
    {
      if reverse then
        if c.column > 0 then Moved(TextClamp(c.(column := c.column - 1)), 1)
        else if c.line == 0 || c.row == 0 then Moved(c, 0)
        else Moved(TextClamp(Cursor(c.line - 1, c.row - 1, width)), RowEnd(c.line - 1))
      else
        var n := Columns(c.line);
        var column := if c.column + 1 >= n then c.column else if Cp(c.line, c.column + 1) == WIDE_CONT then c.column + 2
            else c.column + 1;
        if c.column < column < n then Moved(c.(column := column), 1)
        else if c.line + 1 == |rows| then Moved(TextClamp(c.(column := column)), 0)
        else Moved(Cursor(c.line + 1, c.row + 1, 0), RowEnd(c.line))
    }

    // ----- How far there is to go -----

    /** More than the moves there are in `n` rows. */
    function Area(n: nat): nat {
      if n == 0 then 0 else Area(n - 1) + width + 2
    }

    /** A bound on the moves from a position to the end of the rows, or to their beginning. */
    function Left(c: Cursor, reverse: bool): nat
      requires c.line < |rows|
    {
      if reverse then Area(c.line) + c.column else Area(|rows| - 1 - c.line) + Gap(c.column, width)
    }

    lemma {:induction false} AreaGrows(m: nat, n: nat)
      requires m <= n
      ensures Area(m) <= Area(n)
      decreases n
    {
      if m < n { AreaGrows(m, n - 1); }
    }

    /** The bound is linear in rows and columns. */
    lemma {:induction false} AreaIs(n: nat)
      ensures Area(n) == n * (width + 2)
    {
      if n > 0 { AreaIs(n - 1); }
    }

    lemma {:induction false} AreaAtLeast(n: nat)
      ensures n <= Area(n) && (n > 0 ==> width + 2 <= Area(n))
    {
      if n > 0 { AreaAtLeast(n - 1); }
    }

    lemma AreaNext(n: nat)
      ensures Area(n + 1) == Area(n) + width + 2
    {
    }

    lemma LeftBounded(c: Cursor, reverse: bool)
      requires Placed(c)
      ensures Left(c, reverse) < Area(|rows|)
    {
      AreaGrows(c.line + 1, |rows|);
      AreaGrows(|rows| - c.line, |rows|);
    }

    lemma WithinPlaced(c: Cursor, limit: nat)
      requires c.line < |rows| && c.row == c.line && limit <= width
      ensures Placed(Within(c, limit)) && Within(c, limit).line == c.line && Within(c, limit).column <= c.column
    {
    }

    /** A move keeps the row number right and, unless there is no further, gets nearer to the end it leads to. */
    lemma MoveMeans(c: Cursor, reverse: bool, text: bool)
      requires Placed(c)
      ensures var m := if text then Advance(c, reverse) else GridAdvance(c, reverse);
              && Placed(m.cursor) && m.boundary <= 2
              && (m.boundary > 0 ==> Left(m.cursor, reverse) < Left(c, reverse))
    {
      if reverse { BackMeans(c, text); } else { ForwardMeans(c, text); }
    }

    lemma BackMeans(c: Cursor, text: bool)
      requires Placed(c)
      ensures var m := if text then Advance(c, true) else GridAdvance(c, true);
              Placed(m.cursor) && m.boundary <= 2 && (m.boundary > 0 ==> Left(m.cursor, true) < Left(c, true))
    {
      hide Columns, GridColumns, Within;
      var limit := if text then Columns(c.line) else GridColumns(c.line);
      if c.column > 0 {
        WithinPlaced(c.(column := c.column - 1), limit);
      } else if c.line > 0 {
        WithinPlaced(Cursor(c.line - 1, c.row - 1, width), if text then Columns(c.line - 1)
                     else GridColumns(c.line - 1));
      }
    }

    lemma ForwardMeans(c: Cursor, text: bool)
      requires Placed(c)
      ensures var m := if text then Advance(c, false) else GridAdvance(c, false);
              Placed(m.cursor) && m.boundary <= 2 && (m.boundary > 0 ==> Left(m.cursor, false) < Left(c, false))
    {
      hide Columns, GridColumns, Within;
      WithinPlaced(c, Columns(c.line));
      WithinPlaced(c.(column := c.column + 1), Columns(c.line));
      WithinPlaced(c.(column := c.column + 2), Columns(c.line));
    }

    /** Over the grid, a move back undoes a move forward. */
    lemma BackUndoesForward(c: Cursor)
      requires Placed(c) && Clamp(c) == c && GridAdvance(c, false).boundary > 0
      ensures GridAdvance(GridAdvance(c, false).cursor, true) == Moved(c, GridAdvance(c, false).boundary)
    {
    }

    /** Over the grid, a move forward undoes a move back. */
    lemma ForwardUndoesBack(c: Cursor)
      requires Placed(c) && Clamp(c) == c && GridAdvance(c, true).boundary > 0
      ensures GridAdvance(GridAdvance(c, true).cursor, false) == Moved(c, GridAdvance(c, true).boundary)
    {
    }
  }

  // ----- Walks -----

  /** Repeated moves in one direction: over the text to its end, or over the grid within a logical line. */
  datatype Walk = Walk(g: Grid, text: bool, reverse: bool)
  {
    function Move(c: Cursor): Moved
      requires g.Placed(c)
    {
      if text then g.Advance(c, reverse) else g.GridAdvance(c, reverse)
    }

    predicate Goes(m: Moved) {
      m.boundary == 1 || (text && m.boundary > 0)
    }

    /** The position after `k` moves. */
    ghost function Nth(c: Cursor, k: nat): (r: Option<Cursor>)
      requires g.Placed(c)
      ensures r.Some? ==> g.Placed(r.value)
    {
      if k == 0 then Some(c)
      else
        match Nth(c, k - 1)
        case None => None
        case Some(p) =>
          g.MoveMeans(p, reverse, text);
          if Goes(Move(p)) then Some(Move(p).cursor) else None
    }

    /** A walk that has ended does not go on. */
    lemma {:induction false} NthEnds(c: Cursor, m: nat, k: nat)
      requires g.Placed(c) && m <= k && Nth(c, m) == None
      ensures Nth(c, k) == None
      decreases k
    {
      if m < k { NthEnds(c, m, k - 1); }
    }

    /** Each move of a walk gets nearer to the end. */
    lemma {:induction false} NthNearer(c: Cursor, k: nat)
      requires g.Placed(c) && Nth(c, k).Some?
      ensures g.Left(Nth(c, k).value, reverse) + k <= g.Left(c, reverse)
    {
      if k > 0 {
        NthNearer(c, k - 1);
        g.MoveMeans(Nth(c, k - 1).value, reverse, text);
      }
    }

    /** How many of the first `k` positions after `c` show a character. */
    ghost function Count(c: Cursor, k: nat, cp: CodePoint): (n: nat)
      requires g.Placed(c)
    {
      if k == 0 then 0 else Count(c, k - 1, cp) + if Nth(c, k).Some? && g.CpAt(Nth(c, k).value) == cp then 1 else 0
    }
  }
}
