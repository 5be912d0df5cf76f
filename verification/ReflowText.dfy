/** The text of console rows as logical lines of glyphs, and what adding a glyph to a packed row does to it. */
module ReflowText {
  import opened Common
  import opened Rows

  /** The roles of a cell in the default colours. */
  const DEFAULT_ROLES: nat := 0x0102

  const DEFAULT_BLANK := Cell(BLANK, 0, 0, 0, DEFAULT_ROLES, 0, 0)

  /** A blank that may be dropped from the end of a line: erased, or printed in the default style. */
  predicate Spare(c: Cell) {
    c.cp == BLANK && c.link == 0 && (c.flags == ERASED || (c.flags == 0 && c.roles == DEFAULT_ROLES))
  }

  /** Trailing cell `c` goes together with the last cell `s` of its row. */
  predicate TrimsAs(c: Cell, s: Cell) {
    && c.cp == BLANK && c.link == 0
    && (|| (s.flags != ERASED && c.roles == DEFAULT_ROLES && c.flags == 0)
        || (c.flags == ERASED && s.flags == ERASED && c.fg == s.fg && c.bg == s.bg && c.roles == s.roles
            && c.color == s.color))
  }

  function TrimEnd(cells: seq<Cell>, end: nat, s: Cell): (n: nat)
    requires end <= |cells|
    ensures n <= end && forall x | n <= x < end :: Spare(cells[x]) && TrimsAs(cells[x], s)
  {
    if end > 0 && TrimsAs(cells[end - 1], s) then TrimEnd(cells, end - 1, s) else end
  }

  /** The columns of a row that are not padding of a wrap. */
  function Stored(row: Row): (n: nat)
    ensures n <= |row.cells|
  {
    var end := if row.Hard() then |row.cells| else Min(|row.cells|, row.wrapColumns);
    if !row.Hard() && row.wrapPadding > 0 && end == |row.cells| && end > 0 && row.cells[end - 1].cp == BLANK
      then end - 1 else end
  }

  /** The columns that are kept whatever the new width. */
  function TextStop(row: Row): (n: nat)
    ensures n <= Stored(row)
  {
    if row.Hard() && Stored(row) > 0 then TrimEnd(row.cells, Stored(row), row.cells[Stored(row) - 1]) else Stored(row)
  }

  // ----- Logical lines -----

  function Glyph(c: Cell): seq<Cell> {
    if c.cp == WIDE_CONT then [] else [c]
  }

  /** The cells but for the second halves of wide glyphs. */
  function Glyphs(cells: seq<Cell>): seq<Cell> {
    if cells == [] then [] else Glyphs(cells[..|cells| - 1]) + Glyph(cells[|cells| - 1])
  }

  function RowGlyphs(row: Row): seq<Cell> {
    Glyphs(row.cells[..Stored(row)])
  }

  /** Text joins the last line, or begins a new one. */
  function Joined(lines: seq<seq<Cell>>, g: seq<Cell>, joins: bool): seq<seq<Cell>> {
    if joins && lines != [] then lines[..|lines| - 1] + [lines[|lines| - 1] + g] else lines + [g]
  }

  /** The logical lines of the rows: a row that is not hard goes on in the next. */
  function Lines(rows: seq<Row>): (lines: seq<seq<Cell>>)
    ensures rows != [] ==> lines != []
  {
    if rows == [] then []
    else
      var n := |rows| - 1;
      Joined(Lines(rows[..n]), RowGlyphs(rows[n]), n > 0 && !rows[n - 1].Hard())
  }

  /** A line without the blanks that may be dropped from its end. */
  function Normal(line: seq<Cell>): seq<Cell> {
    if line != [] && Spare(line[|line| - 1]) then Normal(line[..|line| - 1]) else line
  }

  /** The same lines, up to blanks that may be dropped from their ends. */
  predicate SameText(a: seq<seq<Cell>>, b: seq<seq<Cell>>) {
    |a| == |b| && forall k | 0 <= k < |a| :: Normal(a[k]) == Normal(b[k])
  }

  lemma NormalSnoc(line: seq<Cell>, c: Cell)
    ensures Spare(c) ==> Normal(line + [c]) == Normal(line)
  {
    assert (line + [c])[..|line|] == line;
  }

  lemma GlyphsSnoc(cells: seq<Cell>, c: Cell)
    ensures Glyphs(cells + [c]) == Glyphs(cells) + Glyph(c)
  {
    assert (cells + [c])[..|cells|] == cells;
  }

  lemma LinesSnoc(rows: seq<Row>, row: Row)
    ensures Lines(rows + [row]) == Joined(Lines(rows), RowGlyphs(row), rows != [] && !rows[|rows| - 1].Hard())
  {
    assert (rows + [row])[..|rows|] == rows;
  }

  // ----- Packing -----

  /** A finished or open row of the given width: full when it goes on, with a blank where it was padded. */
  predicate TidyRow(row: Row, width: nat) {
    && |row.cells| <= width
    && (if row.Hard() then row.wrapPadding == 0
        else row.wrapColumns == |row.cells| == width && row.wrapPadding <= 1
             && (row.wrapPadding == 1 ==> width > 0 && row.cells[width - 1].cp == BLANK))
  }

  /** Rows that are being packed: the last one is still open. */
  predicate Packing(out: seq<Row>, width: nat) {
    out != [] && (forall row <- out :: TidyRow(row, width)) && out[|out| - 1].Hard()
  }

  function Tail(out: seq<Row>): Row
    requires out != []
  {
    out[|out| - 1]
  }

  function Filled(out: seq<Row>): nat
    requires out != []
  {
    |Tail(out).cells|
  }

  function WithTail(out: seq<Row>, row: Row): seq<Row>
    requires out != []
  {
    out[..|out| - 1] + [row]
  }

  function AddCell(out: seq<Row>, c: Cell): seq<Row>
    requires out != []
  {
    WithTail(out, Tail(out).(cells := Tail(out).cells + [c]))
  }

  /** Close the open row with a continuation and open another. */
  function Wrap(out: seq<Row>, width: nat): seq<Row>
    requires out != []
  {
    WithTail(out, Tail(out).(wrapColumns := width)) + [Row([], 0, 0)]
  }

  /** The spacer left where a wide glyph does not fit. */
  function Pad(out: seq<Row>, c: Cell): seq<Row>
    requires out != []
  {
    var more := AddCell(out, c.(cp := BLANK, link := 0));
    WithTail(more, Tail(more).(wrapPadding := 1))
  }

  /** The columns a glyph takes at this width. */
  function Columns(c: Cell, wide: CodePoint -> bool, width: nat): nat {
    if wide(c.cp) && width > 1 then 2 else 1
  }

  /** The rows with room for the glyph in the open one. */
  function Roomy(out: seq<Row>, c: Cell, columns: nat, width: nat): seq<Row>
    requires out != []
  {
    if Filled(out) + columns <= width then out
    else Wrap(if Filled(out) < width then Pad(out, c) else out, width)
  }

  /** The rows with a glyph added. */
  function Emit(out: seq<Row>, c: Cell, wide: CodePoint -> bool, width: nat): seq<Row>
    requires out != []
  {
    var n := Columns(c, wide, width);
    var more := AddCell(Roomy(out, c, n, width), c);
    if n == 2 then AddCell(more, c.(cp := WIDE_CONT)) else more
  }

  lemma TailLines(out: seq<Row>, row: Row)
    requires out != []
    ensures Lines(WithTail(out, row)) == Joined(Lines(out[..|out| - 1]), RowGlyphs(row), |out| > 1
                                                && !out[|out| - 2].Hard())
  {
    LinesSnoc(out[..|out| - 1], row);
  }

  lemma OpenGlyphs(row: Row)
    requires row.Hard()
    ensures RowGlyphs(row) == Glyphs(row.cells)
  {
    assert row.cells[..|row.cells|] == row.cells;
  }

  lemma JoinedMore(lines: seq<seq<Cell>>, g: seq<Cell>, h: seq<Cell>, joins: bool)
    ensures Joined(lines, g + h, joins) == Joined(Joined(lines, g, joins), h, true)
  {
    if joins && lines != [] {
      assert lines[|lines| - 1] + (g + h) == lines[|lines| - 1] + g + h;
    }
  }

  lemma TailPacking(out: seq<Row>, row: Row, width: nat)
    requires Packing(out, width) && TidyRow(row, width)
    ensures (forall r <- WithTail(out, row) :: TidyRow(r, width)) && Tail(WithTail(out, row)) == row
  {
  }

  lemma AddCellLines(out: seq<Row>, c: Cell, width: nat)
    requires Packing(out, width) && Filled(out) < width
    ensures Packing(AddCell(out, c), width) && Filled(AddCell(out, c)) == Filled(out) + 1
    ensures Lines(AddCell(out, c)) == Joined(Lines(out), Glyph(c), true)
  {
    hide Lines, Joined;
    var n := |out| - 1;
    assert out[n] in out;
    var row := out[n].(cells := out[n].cells + [c]);
    TailPacking(out, row, width);
    var joins := n > 0 && !out[n - 1].Hard();
    TailLines(out, row);
    TailLines(out, out[n]);
    assert WithTail(out, out[n]) == out;
    OpenGlyphs(row);
    OpenGlyphs(out[n]);
    GlyphsSnoc(out[n].cells, c);
    JoinedMore(Lines(out[..n]), Glyphs(out[n].cells), Glyph(c), joins);
  }

  lemma WrapLines(out: seq<Row>, width: nat)
    requires Packing(out, width) && Filled(out) == width && width > 0
    ensures Packing(Wrap(out, width), width) && Filled(Wrap(out, width)) == 0
    ensures Lines(Wrap(out, width)) == Lines(out)
  {
    assert Tail(out) in out;
    var row := Tail(out).(wrapColumns := width);
    assert row.cells[..width] == row.cells;
    WrapTail(out, row, width);
  }

  /** Closing the open row with a continuation that shows the same glyphs changes no line. */
  lemma WrapTail(out: seq<Row>, row: Row, width: nat)
    requires Packing(out, width) && TidyRow(row, width) && !row.Hard() && RowGlyphs(row) == Glyphs(Tail(out).cells)
    ensures var more := WithTail(out, row) + [Row([], 0, 0)];
            Packing(more, width) && Filled(more) == 0 && Lines(more) == Lines(out)
  {
    hide Lines, TidyRow;
    WrapPacks(out, row, width);
    WrapTailLines(out, row);
  }

  lemma WrapTailLines(out: seq<Row>, row: Row)
    requires out != [] && Tail(out).Hard() && !row.Hard() && RowGlyphs(row) == Glyphs(Tail(out).cells)
    ensures Lines(WithTail(out, row) + [Row([], 0, 0)]) == Lines(out)
  {
    hide Lines, Glyphs, Joined;
    NoGlyphs();
    var n, closed := |out| - 1, WithTail(out, row);
    TailLines(out, row);
    TailLines(out, out[n]);
    assert WithTail(out, out[n]) == out;
    OpenGlyphs(out[n]);
    LinesSnoc(closed, Row([], 0, 0));
    OpenGlyphs(Row([], 0, 0));
    JoinedNothing(Lines(out));
  }

  lemma NoGlyphs()
    ensures Glyphs([]) == []
  {
  }

  lemma WrapPacks(out: seq<Row>, row: Row, width: nat)
    requires Packing(out, width) && TidyRow(row, width) && !row.Hard()
    ensures var more := WithTail(out, row) + [Row([], 0, 0)]; Packing(more, width) && Filled(more) == 0
  {
    forall r <- WithTail(out, row) + [Row([], 0, 0)] ensures TidyRow(r, width) {}
  }

  lemma JoinedNothing(lines: seq<seq<Cell>>)
    requires lines != []
    ensures Joined(lines, [], true) == lines
  {
    assert lines[|lines| - 1] + [] == lines[|lines| - 1];
  }

  lemma PadLines(out: seq<Row>, c: Cell, width: nat)
    requires Packing(out, width) && Filled(out) + 1 == width
    ensures var more := Wrap(Pad(out, c), width);
            Packing(more, width) && Filled(more) == 0 && Lines(more) == Lines(out)
  {
    var cells := Tail(out).cells;
    var row := Row(cells + [c.(cp := BLANK, link := 0)], width, 1);
    assert row.cells[..|cells|] == cells;
    WrapTail(out, row, width);
    assert Wrap(Pad(out, c), width) == WithTail(out, row) + [Row([], 0, 0)];
  }

  /** Making room changes no line. */
  lemma RoomyLines(out: seq<Row>, c: Cell, n: nat, width: nat)
    requires Packing(out, width) && 1 <= n <= Max(1, Min(2, width)) && width > 0
    ensures var room := Roomy(out, c, n, width);
            Packing(room, width) && Filled(room) + n <= width && Lines(room) == Lines(out)
  {
    hide Lines, TidyRow, Wrap, Pad;
    FilledBound(out, width);
    if Filled(out) + n > width {
      if Filled(out) < width { PadLines(out, c, width); } else { WrapLines(out, width); }
    }
  }

  /** Packing a glyph adds it to the last line. */
  lemma EmitLines(out: seq<Row>, c: Cell, wide: CodePoint -> bool, width: nat)
    requires Packing(out, width) && width > 0 && c.cp != WIDE_CONT
    ensures Packing(Emit(out, c, wide, width), width)
    ensures Lines(Emit(out, c, wide, width)) == Joined(Lines(out), [c], true)
  {
    hide Lines, TidyRow, Wrap, Pad, AddCell, Joined, Filled;
    var n := Columns(c, wide, width);
    RoomyLines(out, c, n, width);
    var room := Roomy(out, c, n, width);
    AddCellLines(room, c, width);
    if n == 2 {
      AddCellLines(AddCell(room, c), c.(cp := WIDE_CONT), width);
      JoinedOnto(Lines(room), [c]);
    }
  }

  lemma FilledBound(out: seq<Row>, width: nat)
    requires Packing(out, width)
    ensures Filled(out) <= width
  {
    assert Tail(out) in out;
  }

  lemma JoinedOnto(lines: seq<seq<Cell>>, g: seq<Cell>)
    ensures Joined(Joined(lines, g, true), [], true) == Joined(lines, g, true)
  {
    JoinedNothing(Joined(lines, g, true));
  }

  // ----- Wide glyphs stay whole -----

  /** Every wide glyph is followed by its second half, and every second half belongs to one. */
  predicate Paired(cells: seq<Cell>, wide: CodePoint -> bool) {
    && (forall x | 0 <= x < |cells| && wide(cells[x].cp) :: x + 1 < |cells| && cells[x + 1].cp == WIDE_CONT)
    && (forall x | 0 <= x < |cells| && cells[x].cp == WIDE_CONT :: x > 0 && wide(cells[x - 1].cp))
  }

  predicate AllPaired(out: seq<Row>, wide: CodePoint -> bool) {
    forall row <- out :: Paired(row.cells, wide)
  }

  lemma PairedGlyph(cells: seq<Cell>, c: Cell, wide: CodePoint -> bool)
    requires Paired(cells, wide) && c.cp != WIDE_CONT && !wide(WIDE_CONT)
    ensures if wide(c.cp) then Paired(cells + [c] + [c.(cp := WIDE_CONT)], wide) else Paired(cells + [c], wide)
  {
    var more := if wide(c.cp) then cells + [c] + [c.(cp := WIDE_CONT)] else cells + [c];
    assert forall x | 0 <= x < |cells| :: more[x] == cells[x];
  }

  lemma PairedTail(out: seq<Row>, row: Row, wide: CodePoint -> bool)
    requires out != [] && AllPaired(out, wide) && Paired(row.cells, wide)
    ensures AllPaired(WithTail(out, row), wide)
  {
  }

  lemma RoomyPaired(out: seq<Row>, c: Cell, n: nat, wide: CodePoint -> bool, width: nat)
    requires out != [] && AllPaired(out, wide) && !wide(BLANK) && !wide(WIDE_CONT)
    ensures AllPaired(Roomy(out, c, n, width), wide)
  {
    hide Paired;
    assert Tail(out) in out;
    var blank := c.(cp := BLANK, link := 0);
    PairedGlyph(Tail(out).cells, blank, wide);
    NoCells(wide);
    PairedTail(out, Tail(out).(wrapColumns := width), wide);
    PairedTail(out, Tail(out).(cells := Tail(out).cells + [blank], wrapPadding := 1, wrapColumns := width), wide);
    assert WithTail(Pad(out, c), Tail(Pad(out, c)).(wrapColumns := width)) ==
           WithTail(out, Tail(out).(cells := Tail(out).cells + [blank], wrapPadding := 1, wrapColumns := width));
  }

  lemma NoCells(wide: CodePoint -> bool)
    ensures Paired([], wide)
  {
  }

  /** At two columns or more, packing a glyph never parts it. */
  lemma EmitPaired(out: seq<Row>, c: Cell, wide: CodePoint -> bool, width: nat)
    requires out != [] && AllPaired(out, wide) && !wide(BLANK) && !wide(WIDE_CONT) && width > 1 && c.cp != WIDE_CONT
    ensures AllPaired(Emit(out, c, wide, width), wide)
  {
    hide Paired, Roomy;
    var n := Columns(c, wide, width);
    RoomyPaired(out, c, n, wide, width);
    RoomyExtends(out, c, n, width);
    var room := Roomy(out, c, n, width);
    assert Tail(room) in room;
    PairedGlyph(Tail(room).cells, c, wide);
    var row := Tail(room).(cells := Tail(room).cells + [c]);
    if n == 2 {
      var both := row.(cells := row.cells + [c.(cp := WIDE_CONT)]);
      PairedTail(room, both, wide);
      assert AddCell(AddCell(room, c), c.(cp := WIDE_CONT)) == WithTail(room, both);
    } else {
      PairedTail(room, row, wide);
    }
  }

  // ----- What has been packed stays where it is -----

  /** Closed rows of `out` are the same in `more`, and every cell of the open one is still in its place. */
  predicate Extends(out: seq<Row>, more: seq<Row>) {
    && |out| <= |more| && (forall k | 0 <= k < |out| - 1 :: more[k] == out[k])
    && (out != [] ==> Tail(out).cells <= more[|out| - 1].cells)
  }

  lemma ExtendsTrans(a: seq<Row>, b: seq<Row>, c: seq<Row>)
    requires Extends(a, b) && Extends(b, c)
    ensures Extends(a, c)
  {
    if a != [] {
      var n := |a| - 1;
      assert a[n].cells <= b[n].cells <= c[n].cells;
    }
  }

  /** A place in packed rows. */
  datatype Spot = Spot(row: nat, column: nat)

  predicate NotAfter(a: Spot, b: Spot) {
    a.row < b.row || (a.row == b.row && a.column <= b.column)
  }

  /** Where the next cell goes. */
  function Here(out: seq<Row>): Spot
    requires out != []
  {
    Spot(|out| - 1, Filled(out))
  }

  lemma RoomyExtends(out: seq<Row>, c: Cell, n: nat, width: nat)
    requires out != []
    ensures var room := Roomy(out, c, n, width); room != [] && Extends(out, room) && NotAfter(Here(out), Here(room))
  {
  }

  /** The glyph packed stands where there was room for it, and what was packed before has not moved. */
  lemma EmitExtends(out: seq<Row>, c: Cell, wide: CodePoint -> bool, width: nat)
    requires out != []
    ensures var n := Columns(c, wide, width);
            var more := Emit(out, c, wide, width);
            var at := Here(Roomy(out, c, n, width));
            && Extends(out, more) && more != [] && NotAfter(Here(out), at) && NotAfter(at, Here(more))
            && at.row == |more| - 1 && at.column + n == Filled(more) && more[at.row].cells[at.column] == c
  {
    var n := Columns(c, wide, width);
    RoomyExtends(out, c, n, width);
    var room := Roomy(out, c, n, width);
    hide Roomy;
    assert Extends(room, Emit(out, c, wide, width));
    ExtendsTrans(out, room, Emit(out, c, wide, width));
  }

  // ----- The glyphs of one row of the input -----

  /** The cell at a column of the input, which is blank past the stored ones. */
  function SourceCell(row: Row, x: nat): Cell {
    if x < Stored(row) then row.cells[x] else DEFAULT_BLANK
  }

  function SourceGlyphs(row: Row, x: nat): seq<Cell> {
    if x == 0 then [] else SourceGlyphs(row, x - 1) + Glyph(SourceCell(row, x - 1))
  }

  lemma {:induction false} SourceStored(row: Row, x: nat)
    requires x <= Stored(row)
    ensures SourceGlyphs(row, x) == Glyphs(row.cells[..x])
  {
    if x > 0 {
      SourceStored(row, x - 1);
      assert row.cells[..x] == row.cells[..x - 1] + [row.cells[x - 1]];
      GlyphsSnoc(row.cells[..x - 1], row.cells[x - 1]);
    }
  }

  lemma SourceWhole(row: Row)
    ensures SourceGlyphs(row, Stored(row)) == RowGlyphs(row)
  {
    SourceStored(row, Stored(row));
  }

  /** From where the text of a row stops, only blanks that may be dropped are left. */
  lemma SpareTail(row: Row, x: nat)
    requires TextStop(row) <= x
    ensures Spare(SourceCell(row, x)) && SourceCell(row, x).cp == BLANK
  {
  }

  lemma {:induction false} SourceTail(p: seq<Cell>, row: Row, x: nat)
    requires TextStop(row) <= x
    ensures Normal(p + SourceGlyphs(row, x)) == Normal(p + SourceGlyphs(row, TextStop(row)))
  {
    hide Spare, TextStop, Normal, SourceCell;
    if x > TextStop(row) {
      SourceTail(p, row, x - 1);
      SpareTail(row, x - 1);
      var c := SourceCell(row, x - 1);
      assert p + SourceGlyphs(row, x) == p + SourceGlyphs(row, x - 1) + [c];
      NormalSnoc(p + SourceGlyphs(row, x - 1), c);
    }
  }

  /** However far past its text a row is taken, its line is the same up to blanks. */
  lemma SourceNormal(p: seq<Cell>, row: Row, x: nat)
    requires TextStop(row) <= x
    ensures Normal(p + SourceGlyphs(row, x)) == Normal(p + RowGlyphs(row))
  {
    SourceTail(p, row, x);
    SourceTail(p, row, Stored(row));
    SourceWhole(row);
  }
}
