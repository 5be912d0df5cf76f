/** What a selection of whole rows copies: the text of the logical lines, with a line end behind hard rows only. */
module CopyLines {
  import opened Common
  import opened Rows
  import opened CopyText

  /** The scalars of cells; the second half of a wide glyph has none. */
  function Visible(cells: seq<Cell>): seq<CodePoint> {
    if cells == [] then []
    else
      var last := cells[|cells| - 1].cp;
      Visible(cells[..|cells| - 1]) + if last == WIDE_CONT then [] else [last]
  }

  function RowText(row: Row): seq<CodePoint> {
    Visible(row.cells[..CopyColumns(row)])
  }

  /** The logical lines of the rows: behind a hard row another line begins. */
  function Lines(rows: seq<Row>): (lines: seq<seq<CodePoint>>)
    ensures lines != []
  {
    if rows == [] then [[]]
    else
      var before, row := Lines(rows[..|rows| - 1]), rows[|rows| - 1];
      var n := |before| - 1;
      var lines := before[..n] + [before[n] + RowText(row)];
      if row.Hard() then lines + [[]] else lines
  }

  function ScalarBytes(enc: Encoding, cp: CodePoint): seq<Byte> {
    if enc.utf8 then enc.encode(cp) else if cp <= 255 then [cp] else ['?' as nat]
  }

  function Encoded(enc: Encoding, text: seq<CodePoint>): seq<Byte> {
    if text == [] then [] else Encoded(enc, text[..|text| - 1]) + ScalarBytes(enc, text[|text| - 1])
  }

  /** The lines with a line end between them. */
  function Delimited(enc: Encoding, lines: seq<seq<CodePoint>>): seq<Byte>
    requires lines != []
  {
    var n := |lines| - 1;
    if n == 0 then Encoded(enc, lines[0]) else Delimited(enc, lines[..n]) + [RETURN] + Encoded(enc, lines[n])
  }

  lemma {:induction false} EncodedMore(enc: Encoding, a: seq<CodePoint>, b: seq<CodePoint>)
    ensures Encoded(enc, a + b) == Encoded(enc, a) + Encoded(enc, b)
    decreases b
  {
    if b == [] {
      assert a + b == a;
    } else {
      hide ScalarBytes;
      var n := |b| - 1;
      EncodedMore(enc, a, b[..n]);
      assert (a + b)[..|a + b| - 1] == a + b[..n] && (a + b)[|a + b| - 1] == b[n];
      ConcatAssociates(Encoded(enc, a), Encoded(enc, b[..n]), ScalarBytes(enc, b[n]));
    }
  }

  lemma {:induction false} CellsEncoded(enc: Encoding, cells: seq<Cell>)
    ensures CellsBytes(enc, cells) == Encoded(enc, Visible(cells))
  {
    if cells != [] {
      var n := |cells| - 1;
      CellsEncoded(enc, cells[..n]);
      var last := cells[n].cp;
      if last == WIDE_CONT {
        assert Visible(cells) == Visible(cells[..n]);
      } else {
        assert Visible(cells)[..|Visible(cells)| - 1] == Visible(cells[..n]);
      }
    }
  }

  /** Text at the end of the last line, and another line behind it. */
  lemma DelimitedMore(enc: Encoding, lines: seq<seq<CodePoint>>, text: seq<CodePoint>)
    requires lines != []
    ensures var n := |lines| - 1;
            var more := lines[..n] + [lines[n] + text];
            && Delimited(enc, more) == Delimited(enc, lines) + Encoded(enc, text)
            && Delimited(enc, more + [[]]) == Delimited(enc, lines) + (Encoded(enc, text) + [RETURN])
  {
    var n := |lines| - 1;
    var more := lines[..n] + [lines[n] + text];
    EncodedMore(enc, lines[n], text);
    NoText(enc);
    hide Encoded;
    assert more[..n] == lines[..n] && (more + [[]])[..n + 1] == more;
    if n > 0 {
      ConcatAssociates(Delimited(enc, lines[..n]) + [RETURN], Encoded(enc, lines[n]), Encoded(enc, text));
    }
    ConcatAssociates(Delimited(enc, lines), Encoded(enc, text), [RETURN]);
    assert Delimited(enc, more + [[]]) == Delimited(enc, more) + [RETURN] + [];
  }

  lemma NoText(enc: Encoding)
    ensures Encoded(enc, []) == []
  {
  }

  lemma RowDelimited(enc: Encoding, rows: seq<Row>, row: Row)
    ensures Delimited(enc, Lines(rows + [row]))
            == Delimited(enc, Lines(rows)) + (Encoded(enc, RowText(row)) + if row.Hard() then [RETURN] else [])
  {
    hide RowText, Encoded, Delimited;
    assert (rows + [row])[..|rows|] == rows;
    DelimitedMore(enc, Lines(rows), RowText(row));
    assert Encoded(enc, RowText(row)) + [] == Encoded(enc, RowText(row));
  }

  /** Row `k` of the selection is taken whole. */
  predicate Whole(rows: seq<Row>, sel: Selection, k: nat)
    requires k < |rows|
  {
    !sel.block && sel.minx == 0 && sel.first <= k && (k < sel.last || (k == sel.last && |rows[k].cells| <= sel.maxx))
  }

  lemma RowWhole(enc: Encoding, rows: seq<Row>, sel: Selection, k: nat)
    requires k < |rows| && Whole(rows, sel, k)
    ensures RowBytes(enc, rows, k, sel)
            == Encoded(enc, RowText(rows[k])) + if rows[k].Hard() && (k < sel.last || !sel.exact) then [RETURN] else []
  {
    CellsEncoded(enc, rows[k].cells[..CopyColumns(rows[k])]);
    hide CellsBytes, Encoded, CopyColumns, Visible;
    assert Span(rows[k], k, sel) == Columns(0, CopyColumns(rows[k]));
  }

  lemma {:induction false} LinesBefore(enc: Encoding, rows: seq<Row>, sel: Selection, n: nat)
    requires sel.first <= n <= sel.last < |rows| && !sel.block && sel.minx == 0
    ensures BytesBefore(enc, rows, sel, n) == Delimited(enc, Lines(rows[sel.first..n]))
    decreases n
  {
    hide RowBytes, Encoded, RowText;
    if n == sel.first {
      assert rows[sel.first..n] == [];
      NoText(enc);
    } else {
      hide Delimited, Lines;
      LinesBefore(enc, rows, sel, n - 1);
      assert rows[sel.first..n] == rows[sel.first..n - 1] + [rows[n - 1]];
      RowDelimited(enc, rows[sel.first..n - 1], rows[n - 1]);
      RowWhole(enc, rows, sel, n - 1);
    }
  }

  /** A selection from the beginning of a row past the end of another copies the logical lines between them, one line
      end between two of them. The last hard row has one behind it unless the selection is exact. */
  lemma WholeRowsAreLines(enc: Encoding, rows: seq<Row>, sel: Selection)
    requires Reachable(rows, sel) && !sel.block && sel.minx == 0 && |rows[sel.last].cells| <= sel.maxx
    ensures Selected(enc, rows, sel) + (if sel.exact && rows[sel.last].Hard() then [RETURN] else [])
            == Delimited(enc, Lines(rows[sel.first..sel.last + 1]))
  {
    hide RowBytes, Encoded, RowText, BytesBefore, Delimited, Lines;
    var n := sel.last;
    LinesBefore(enc, rows, sel, n);
    assert rows[sel.first..n + 1] == rows[sel.first..n] + [rows[n]];
    RowDelimited(enc, rows[sel.first..n], rows[n]);
    RowWhole(enc, rows, sel, n);
    RowAdds(enc, rows, sel, n);
    ConcatAssociates(BytesBefore(enc, rows, sel, n), RowBytes(enc, rows, n, sel),
                     if sel.exact && rows[n].Hard() then [RETURN] else []);
  }

  lemma {:induction false} ErasedFrom(cells: seq<Cell>, n: nat)
    requires n <= |cells|
    ensures var m := ErasedEnd(cells, n);
            && (forall x | m <= x < n :: cells[x].cp == BLANK && cells[x].flags == ERASED)
            && (m > 0 ==> !(cells[m - 1].cp == BLANK && cells[m - 1].flags == ERASED))
  {
    if n > 0 && Erased(cells[n - 1]) { ErasedFrom(cells, n - 1); }
  }

  /** All that is left out of a row are erased cells at its end, and before them the spacer of a wide glyph that did not
      fit there. Nothing erased is at the end of what is copied, but for a cell before a spacer. */
  lemma NothingLost(row: Row)
    ensures var m := CopyColumns(row);
            var spacer := !row.Hard() && row.wrapPadding > 0 && m + 1 == row.wrapColumns;
            && (forall x | m <= x < |row.cells| ::
                  || (row.cells[x].cp == BLANK && row.cells[x].flags == ERASED)
                  || (spacer && x == m && row.cells[x].cp == BLANK))
            && (m > 0 && row.cells[m - 1].cp == BLANK && row.cells[m - 1].flags == ERASED ==> spacer)
  {
    ErasedFrom(row.cells, |row.cells|);
  }

  // ----- Selections within rows -----

  /** An exact selection that runs from one place to another. */
  function Run(first: nat, from: nat, last: nat, to: nat): Selection {
    Selection(first, last, from, to, true, false)
  }

  predicate InOrder(first: nat, from: nat, last: nat, to: nat) {
    first < last || (first == last && from <= to)
  }

  /** Within one row the cells between the two columns are copied, whichever is given first. */
  lemma OneRow(enc: Encoding, rows: seq<Row>, k: nat, from: nat, to: nat)
    requires k < |rows| && from <= to
    ensures var limit := CopyColumns(rows[k]);
            var bytes := Encoded(enc, Visible(rows[k].cells[Min(from, limit)..Min(to, limit)]));
            Selected(enc, rows, Run(k, from, k, to)) == bytes == Selected(enc, rows, Run(k, to, k, from))
  {
    var limit := CopyColumns(rows[k]);
    CellsEncoded(enc, rows[k].cells[Min(from, limit)..Min(to, limit)]);
    hide CellsBytes, CopyColumns, Encoded, Visible;
    NothingBefore(enc, rows, Run(k, from, k, to));
    NothingBefore(enc, rows, Run(k, to, k, from));
    RowAdds(enc, rows, Run(k, from, k, to), k);
    RowAdds(enc, rows, Run(k, to, k, from), k);
  }

  lemma CellsJoin(enc: Encoding, cells: seq<Cell>, a: nat, b: nat, c: nat)
    requires a <= b <= c <= |cells|
    ensures CellsBytes(enc, cells[a..b]) + CellsBytes(enc, cells[b..c]) == CellsBytes(enc, cells[a..c])
  {
    hide CellsBytes, Visible, Encoded;
    var s, t := cells[a..b], cells[b..c];
    CellsEncoded(enc, s);
    CellsEncoded(enc, t);
    CellsEncoded(enc, s + t);
    VisibleMore(s, t);
    EncodedMore(enc, Visible(s), Visible(t));
    assert s + t == cells[a..c];
  }

  lemma {:induction false} VisibleMore(a: seq<Cell>, b: seq<Cell>)
    ensures Visible(a + b) == Visible(a) + Visible(b)
    decreases b
  {
    if b == [] {
      assert a + b == a;
    } else {
      VisibleMore(a, b[..|b| - 1]);
      assert (a + b)[..|a + b| - 1] == a + b[..|b| - 1];
    }
  }

  /** What an exact selection takes of row `k`. */
  lemma RunRow(enc: Encoding, rows: seq<Row>, first: nat, from: nat, last: nat, to: nat, k: nat)
    requires InOrder(first, from, last, to) && first <= k <= last < |rows|
    ensures var limit := CopyColumns(rows[k]);
            var left, right := Min(if k == first then from else 0, limit), Min(if k == last then to else limit, limit);
            left <= right && RowBytes(enc, rows, k, Run(first, from, last, to))
                             == CellsBytes(enc, rows[k].cells[left..right])
                                + if rows[k].Hard() && k != last then [RETURN] else []
  {
    hide CellsBytes, CopyColumns;
  }

  lemma {:induction false} BeforeSame(enc: Encoding, rows: seq<Row>, first: nat, from: nat, m: nat, b: nat, last: nat,
                                      to: nat, n: nat)
    requires InOrder(first, from, m, b) && InOrder(m, b, last, to) && first <= n <= m && last < |rows|
    ensures BytesBefore(enc, rows, Run(first, from, m, b), n) == BytesBefore(enc, rows, Run(first, from, last, to), n)
    decreases n
  {
    hide RowBytes;
    if n > first {
      BeforeSame(enc, rows, first, from, m, b, last, to, n - 1);
      RunRow(enc, rows, first, from, m, b, n - 1);
      RunRow(enc, rows, first, from, last, to, n - 1);
    }
  }

  /** Two selections that meet in row `m` take of it what the one does that takes in both. */
  lemma MeetRow(enc: Encoding, rows: seq<Row>, first: nat, from: nat, m: nat, b: nat, last: nat, to: nat)
    requires InOrder(first, from, m, b) && InOrder(m, b, last, to) && last < |rows|
    ensures RowBytes(enc, rows, m, Run(first, from, m, b)) + RowBytes(enc, rows, m, Run(m, b, last, to))
            == RowBytes(enc, rows, m, Run(first, from, last, to))
  {
    hide RowBytes, CellsBytes;
    RunRow(enc, rows, first, from, m, b, m);
    RunRow(enc, rows, m, b, last, to, m);
    RunRow(enc, rows, first, from, last, to, m);
    var limit, cells := CopyColumns(rows[m]), rows[m].cells;
    var x, y := Min(if m == first then from else 0, limit), Min(b, limit);
    var z := Min(if m == last then to else limit, limit);
    CellsJoin(enc, cells, x, y, z);
    assert CellsBytes(enc, cells[x..y]) + [] == CellsBytes(enc, cells[x..y]);
    ConcatAssociates(CellsBytes(enc, cells[x..y]), CellsBytes(enc, cells[y..z]),
                     if rows[m].Hard() && m != last then [RETURN] else []);
  }

  /** Up to row `n` two selections that meet give the bytes of the one that takes in both. */
  lemma {:induction false} MeetBefore(enc: Encoding, rows: seq<Row>, first: nat, from: nat, m: nat, b: nat, last: nat,
                                      to: nat, n: nat)
    requires InOrder(first, from, m, b) && InOrder(m, b, last, to) && m < n <= last + 1 && last < |rows|
    ensures Selected(enc, rows, Run(first, from, m, b)) + BytesBefore(enc, rows, Run(m, b, last, to), n)
            == BytesBefore(enc, rows, Run(first, from, last, to), n)
    decreases n
  {
    hide RowBytes, CellsBytes, BytesBefore;
    var one, two, all := Run(first, from, m, b), Run(m, b, last, to), Run(first, from, last, to);
    RowAdds(enc, rows, two, n - 1);
    RowAdds(enc, rows, all, n - 1);
    if n - 1 > m {
      MeetBefore(enc, rows, first, from, m, b, last, to, n - 1);
      RunRow(enc, rows, m, b, last, to, n - 1);
      RunRow(enc, rows, first, from, last, to, n - 1);
      ConcatAssociates(Selected(enc, rows, one), BytesBefore(enc, rows, two, n - 1), RowBytes(enc, rows, n - 1, two));
    } else {
      BeforeSame(enc, rows, first, from, m, b, last, to, m);
      RowAdds(enc, rows, one, m);
      NothingBefore(enc, rows, two);
      MeetRow(enc, rows, first, from, m, b, last, to);
      ConcatAssociates(BytesBefore(enc, rows, one, m), RowBytes(enc, rows, m, one), RowBytes(enc, rows, m, two));
      assert [] + RowBytes(enc, rows, m, two) == RowBytes(enc, rows, m, two);
    }
  }

  /** A selection can be cut in two at any place: the two parts copy what the whole does. */
  lemma SelectionsMeet(enc: Encoding, rows: seq<Row>, first: nat, from: nat, m: nat, b: nat, last: nat, to: nat)
    requires InOrder(first, from, m, b) && InOrder(m, b, last, to) && last < |rows|
    ensures Selected(enc, rows, Run(first, from, m, b)) + Selected(enc, rows, Run(m, b, last, to))
            == Selected(enc, rows, Run(first, from, last, to))
  {
    MeetBefore(enc, rows, first, from, m, b, last, to, last + 1);
  }

  // ----- Blocks -----

  /** The second half of a wide glyph follows the first. */
  predicate Paired(cells: seq<Cell>) {
    forall x | 0 <= x < |cells| && cells[x].cp == WIDE_CONT :: x > 0 && cells[x - 1].cp != WIDE_CONT
  }

  lemma {:induction false} SpacesDropped(cells: seq<Cell>, left: nat, n: nat)
    requires left <= n <= |cells|
    ensures var m := SpaceEnd(cells, left, n);
            && (forall x | m <= x < n :: IsSpace(cells[x].cp)) && (m > left ==> !IsSpace(cells[m - 1].cp))
    decreases n
  {
    if n > left && IsSpace(cells[n - 1].cp) { SpacesDropped(cells, left, n - 1); }
  }

  /** A block takes of each row the glyphs with a half between its columns, whole, and no white space behind them. */
  lemma BlockTakes(row: Row, k: nat, sel: Selection)
    requires sel.block && Paired(row.cells)
    ensures var c := Span(row, k, sel);
            var lo, hi := Min(sel.minx, sel.maxx), Max(sel.minx, sel.maxx);
            var in_ := (x: nat) => lo <= x < hi && x < CopyColumns(row);
            && (forall x | c.left <= x < c.right :: in_(x) || (x + 1 == lo && row.cells[lo].cp == WIDE_CONT)
                                                    || (x == hi && row.cells[hi].cp == WIDE_CONT))
            && (forall x | 0 <= x < |row.cells| && in_(x) && !(c.left <= x < c.right) :: IsSpace(row.cells[x].cp))
            && (c.left < c.right ==> row.cells[c.left].cp != WIDE_CONT && !IsSpace(row.cells[c.right - 1].cp))
            && (c.left < c.right < |row.cells| ==> row.cells[c.right].cp != WIDE_CONT)
  {
    var raw := Raw(row, k, sel);
    SpacesDropped(row.cells, raw.left, raw.right);
    NothingLost(row);
    hide CopyColumns, SpaceEnd;
  }

  /** What a block takes of its rows up to row `n`. */
  function BlockText(rows: seq<Row>, sel: Selection, n: nat): (lines: seq<seq<CodePoint>>)
    requires sel.first <= n <= |rows|
    ensures |lines| == n - sel.first
  {
    if n == sel.first then []
    else
      var c := Span(rows[n - 1], n - 1, sel);
      BlockText(rows, sel, n - 1) + [Visible(rows[n - 1].cells[c.left..c.right])]
  }

  lemma BlockMore(enc: Encoding, lines: seq<seq<CodePoint>>, line: seq<CodePoint>)
    requires lines != []
    ensures Delimited(enc, lines + [line]) == Delimited(enc, lines) + [RETURN] + Encoded(enc, line)
  {
    hide Encoded;
    assert (lines + [line])[..|lines|] == lines;
  }

  /** The rows of a block have a line end between them, wrapped or not. */
  lemma {:induction false} BlockIsLines(enc: Encoding, rows: seq<Row>, sel: Selection, n: nat)
    requires sel.block && sel.first < n <= sel.last + 1 <= |rows|
    ensures BytesBefore(enc, rows, sel, n)
            == Delimited(enc, BlockText(rows, sel, n)) + if n <= sel.last then [RETURN] else []
    decreases n
  {
    hide Span, Visible, Encoded, CellsBytes, BytesBefore;
    var k := n - 1;
    var c := Span(rows[k], k, sel);
    CellsEncoded(enc, rows[k].cells[c.left..c.right]);
    RowAdds(enc, rows, sel, k);
    var before, text := BytesBefore(enc, rows, sel, k), Encoded(enc, Visible(rows[k].cells[c.left..c.right]));
    var end := if n <= sel.last then [RETURN] else [];
    assert BytesBefore(enc, rows, sel, n) == before + (text + end);
    ConcatAssociates(before, text, end);
    if k > sel.first {
      BlockIsLines(enc, rows, sel, k);
      BlockMore(enc, BlockText(rows, sel, k), Visible(rows[k].cells[c.left..c.right]));
    } else {
      NothingBefore(enc, rows, sel);
      assert [] + text == text;
    }
  }
}
