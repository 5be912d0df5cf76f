/** How lines end after repacking: where a hard row was trimmed, its last colours reach to the full width. */
module ReflowEnds {
  import opened Common
  import opened Rows
  import opened ReflowText
  import opened ReflowAnchors

  /** The lines when row `k` is begun: the last one goes on, or a new one is begun. */
  function Begun(lines: seq<seq<Cell>>, goesOn: bool): seq<seq<Cell>> {
    if goesOn then lines else lines + [[]]
  }

  /** Something is left of row `row` behind its text. */
  predicate Shortened(row: Row) {
    row.Hard() && TextStop(row) < Stored(row)
  }

  /** The blank that stands for the trimmed end of a row: its last cell, without the link. */
  function Filler(row: Row): Cell
    requires Shortened(row)
  {
    row.cells[Stored(row) - 1].(link := 0)
  }

  function Copies(c: Cell, n: nat): (s: seq<Cell>)
    ensures |s| == n
  {
    seq(n, _ => c)
  }

  /** The last of the lines is all that leads up to row `k` and the text of that row, followed by nothing but its
      fillers. */
  ghost predicate LastLine(lines: seq<seq<Cell>>, rows: seq<Row>, given: seq<Anchor>, k: nat)
    requires k < |rows|
  {
    var prior := Begun(Lines(rows[..k]), GoesOn(rows, k));
    && lines != [] && |lines| == |prior|
    && var text := prior[|prior| - 1] + SourceGlyphs(rows[k], ReachOf(given, rows[k], k));
       if Shortened(rows[k]) then exists n: nat :: lines[|lines| - 1] == text + Copies(Filler(rows[k]), n)
       else lines[|lines| - 1] == text
  }

  /** Packed row `r` ends the line that hard row `k` ends. It is full when the end of that row was trimmed. */
  ghost predicate EndsAt(out: seq<Row>, rows: seq<Row>, given: seq<Anchor>, width: nat, k: nat, r: nat)
    requires k < |rows|
  {
    && r < |out| && out[r].Hard() && LastLine(Lines(out[..r + 1]), rows, given, k)
    && (Shortened(rows[k]) ==> |out[r].cells| == width)
  }

  /** How many of the packed rows are closed when row `k` is begun. */
  function Closed(out: seq<Row>, rows: seq<Row>, k: nat): int
    requires k <= |rows|
  {
    if GoesOn(rows, k) then |out| - 1 else |out|
  }

  /** Each hard row among the first `k` has a closed row that ends its line. */
  ghost predicate AllEnd(out: seq<Row>, rows: seq<Row>, given: seq<Anchor>, width: nat, k: nat)
    requires k <= |rows|
  {
    forall i | 0 <= i < k && rows[i].Hard() ::
      exists r: nat :: r < Closed(out, rows, k) && EndsAt(out, rows, given, width, i, r)
  }

  lemma NoneEnds(rows: seq<Row>, given: seq<Anchor>, width: nat)
    ensures AllEnd([], rows, given, width, 0)
  {
  }

  /** Closed rows that stay end the lines that they ended. */
  lemma EndStays(out: seq<Row>, more: seq<Row>, rows: seq<Row>, given: seq<Anchor>, width: nat, k: nat, r: nat)
    requires k < |rows| && EndsAt(out, rows, given, width, k, r) && r < |more| && out[..r + 1] == more[..r + 1]
    ensures EndsAt(more, rows, given, width, k, r)
  {
    hide LastLine, Lines;
    assert out[..r + 1][r] == more[..r + 1][r];
  }

  lemma OneMoreEnds(out: seq<Row>, more: seq<Row>, rows: seq<Row>, given: seq<Anchor>, width: nat, k: nat)
    requires k < |rows| && AllEnd(out, rows, given, width, k)
    requires var m := Closed(out, rows, k); 0 <= m < |more| && out[..m] == more[..m]
    requires rows[k].Hard() ==> EndsAt(more, rows, given, width, k, |more| - 1)
    ensures AllEnd(more, rows, given, width, k + 1)
  {
    hide EndsAt;
    var m := Closed(out, rows, k);
    forall i | 0 <= i < k + 1 && rows[i].Hard()
      ensures exists r: nat :: r < Closed(more, rows, k + 1) && EndsAt(more, rows, given, width, i, r)
    {
      if i < k {
        var r: nat :| r < m && EndsAt(out, rows, given, width, i, r);
        assert out[..r + 1] == out[..m][..r + 1] == more[..r + 1];
        EndStays(out, more, rows, given, width, i, r);
      }
    }
  }

  /** What was closed before row `k` was begun stays as it was. */
  lemma ClosedStays(out: seq<Row>, begun: seq<Row>, more: seq<Row>, rows: seq<Row>, k: nat)
    requires k < |rows| && begun == (if GoesOn(rows, k) then out else out + [Row([], 0, 0)]) && Extends(begun, more)
    requires GoesOn(rows, k) ==> out != []
    ensures var m := Closed(out, rows, k); 0 <= m < |more| && out[..m] == more[..m]
  {
  }

  /** Row `k` has been packed as `text`, its own and fillers. */
  lemma RowEnds(out: seq<Row>, rows: seq<Row>, given: seq<Anchor>, width: nat, k: nat, prior: seq<seq<Cell>>, n: nat)
    requires k < |rows| && rows[k].Hard() && out != [] && Tail(out).Hard() && prior != []
    requires var b := Begun(Lines(rows[..k]), GoesOn(rows, k)); |prior| == |b| && prior[|prior| - 1] == b[|b| - 1]
    requires var text := SourceGlyphs(rows[k], ReachOf(given, rows[k], k));
             Lines(out) == Joined(prior, if Shortened(rows[k]) then text + Copies(Filler(rows[k]), n) else text, true)
    requires Shortened(rows[k]) ==> Filled(out) == width
    ensures EndsAt(out, rows, given, width, k, |out| - 1)
  {
    hide Lines, SourceGlyphs, ReachOf, Shortened, Filler;
    assert out[..|out|] == out;
    var text := SourceGlyphs(rows[k], ReachOf(given, rows[k], k));
    var line, l := prior[|prior| - 1], Lines(out);
    if Shortened(rows[k]) {
      assert line + (text + Copies(Filler(rows[k]), n)) == line + text + Copies(Filler(rows[k]), n);
    }
  }

  // ----- Spacers -----

  /** A packed row leaves its last column free only for a wide glyph, with which the next row begins. */
  predicate Snug(out: seq<Row>, wide: CodePoint -> bool) {
    forall r | 0 <= r < |out| && out[r].wrapPadding > 0 ::
      r + 1 < |out| && out[r + 1].cells != [] && wide(out[r + 1].cells[0].cp)
  }

  /** Adding cells to the open row leaves the others alone. */
  lemma TailSnug(out: seq<Row>, row: Row, wide: CodePoint -> bool)
    requires Snug(out, wide) && out != [] && Tail(out).cells <= row.cells && row.wrapPadding == 0
    ensures Snug(WithTail(out, row), wide)
  {
    var more := WithTail(out, row);
    forall r | 0 <= r < |more| && more[r].wrapPadding > 0
      ensures r + 1 < |more| && more[r + 1].cells != [] && wide(more[r + 1].cells[0].cp)
    {
      assert more[r] == out[r];
    }
  }

  /** The open row is empty behind a spacer at most until glyph `c` is put there. */
  predicate Awaits(out: seq<Row>, c: Cell, wide: CodePoint -> bool) {
    forall r | 0 <= r < |out| && out[r].wrapPadding > 0 ::
      r + 1 < |out| && if out[r + 1].cells == [] then r + 2 == |out| && wide(c.cp) else wide(out[r + 1].cells[0].cp)
  }

  lemma RoomyAwaits(out: seq<Row>, c: Cell, wide: CodePoint -> bool, width: nat)
    requires Snug(out, wide) && Packing(out, width)
    ensures Awaits(Roomy(out, c, Columns(c, wide, width), width), c, wide)
  {
    assert Tail(out) in out;
  }

  lemma CellSnug(out: seq<Row>, c: Cell, wide: CodePoint -> bool)
    requires Awaits(out, c, wide) && out != [] && Tail(out).wrapPadding == 0
    ensures Snug(AddCell(out, c), wide)
  {
  }

  lemma RoomyTail(out: seq<Row>, c: Cell, n: nat, width: nat)
    requires out != [] && Tail(out).wrapPadding == 0
    ensures var room := Roomy(out, c, n, width); room != [] && Tail(room).wrapPadding == 0
  {
  }

  lemma EmitSnug(out: seq<Row>, c: Cell, wide: CodePoint -> bool, width: nat)
    requires Snug(out, wide) && Packing(out, width)
    ensures Snug(Emit(out, c, wide, width), wide)
  {
    var n := Columns(c, wide, width);
    assert Tail(out) in out;
    RoomyAwaits(out, c, wide, width);
    RoomyTail(out, c, n, width);
    hide Roomy, Awaits, Snug;
    var room := Roomy(out, c, n, width);
    CellSnug(room, c, wide);
    var one := AddCell(room, c);
    TailSnug(one, Tail(one).(cells := Tail(one).cells + [c.(cp := WIDE_CONT)]), wide);
  }

  lemma OpenSnug(out: seq<Row>, wide: CodePoint -> bool)
    requires Snug(out, wide)
    ensures Snug(out + [Row([], 0, 0)], wide)
  {
  }
}
