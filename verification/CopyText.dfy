/** The bytes of a selection, and the copier that walks it in one go. */
module CopyText {
  import opened Common
  import opened Rows

  const RETURN: Byte := 13
  const QUESTION: Byte := 63

  /** How codepoints become bytes: UTF-8, or Latin-1 with a substitute. */
  datatype Encoding = Encoding(utf8: bool, encode: CodePoint -> seq<Byte>)

  function CellBytes(enc: Encoding, cp: CodePoint): seq<Byte> {
    if cp == WIDE_CONT then []
    else if enc.utf8 then enc.encode(cp)
    else [if cp < 0x100 then cp else QUESTION]
  }

  function CellsBytes(enc: Encoding, cells: seq<Cell>): seq<Byte> {
    if cells == [] then [] else CellsBytes(enc, cells[..|cells| - 1]) + CellBytes(enc, cells[|cells| - 1].cp)
  }

  /** A selection from column `minx` of row `first` to column `maxx` of row `last`, or the block between them. */
  datatype Selection = Selection(first: nat, last: nat, minx: nat, maxx: nat, exact: bool, block: bool)

  predicate IsSpace(cp: CodePoint) {
    || 9 <= cp <= 13 || cp == 0x20 || cp == 0x85 || cp == 0xa0 || cp == 0x1680 || 0x2000 <= cp <= 0x200a
    || cp == 0x2028 || cp == 0x2029 || cp == 0x202f || cp == 0x205f || cp == 0x3000
  }

  // ----- The columns copied from a row -----

  predicate Erased(c: Cell) {
    c.cp == BLANK && c.flags == ERASED
  }

  function ErasedEnd(cells: seq<Cell>, n: nat): (m: nat)
    requires n <= |cells|
    ensures m <= n
  {
    if n > 0 && Erased(cells[n - 1]) then ErasedEnd(cells, n - 1) else n
  }

  /** The columns of a row without erased ones at its end, and without the spacer of a wrap. */
  function CopyColumns(row: Row): (m: nat)
    ensures m <= |row.cells|
  {
    var end := ErasedEnd(row.cells, |row.cells|);
    if row.wrapColumns == end && end > 0 && row.wrapPadding > 0 && row.cells[end - 1].cp == BLANK then end - 1 else end
  }

  datatype Columns = Columns(left: nat, right: nat)

  /** The columns of a row before a block selection drops white space. */
  function Raw(row: Row, k: nat, sel: Selection): (c: Columns)
    ensures c.left <= c.right <= |row.cells|
  {
    var limit := CopyColumns(row);
    if sel.block then
      var left, right := Min(Min(sel.minx, sel.maxx), limit), Min(Max(sel.minx, sel.maxx), limit);
      Columns(if 0 < left < |row.cells| && row.cells[left].cp == WIDE_CONT then left - 1 else left,
              if right < |row.cells| && row.cells[right].cp == WIDE_CONT then right + 1 else right)
    else
      var left, right := if k == sel.first then sel.minx else 0, if k == sel.last then sel.maxx else limit;
      var swap := sel.first == sel.last && left > right;
      Columns(Min(if swap then right else left, limit), Min(if swap then left else right, limit))
  }

  function SpaceEnd(cells: seq<Cell>, left: nat, n: nat): (m: nat)
    requires left <= n <= |cells|
    ensures left <= m <= n
    decreases n
  {
    if n > left && IsSpace(cells[n - 1].cp) then SpaceEnd(cells, left, n - 1) else n
  }

  /** The columns copied from row `k`. */
  function Span(row: Row, k: nat, sel: Selection): (c: Columns)
    ensures c.left <= c.right <= |row.cells|
  {
    var raw := Raw(row, k, sel);
    if sel.block then Columns(raw.left, SpaceEnd(row.cells, raw.left, raw.right)) else raw
  }

  /** Whether row `k` is followed by a line end. */
  predicate EndsLine(row: Row, k: nat, sel: Selection) {
    if sel.block then k != sel.last
    else row.Hard() && (k != sel.last || (!sel.exact
                                          && (if sel.first == sel.last then Max(sel.minx, sel.maxx)
                                              else sel.maxx) >= |row.cells|))
  }

  function RowBytes(enc: Encoding, rows: seq<Row>, k: nat, sel: Selection): seq<Byte>
    requires k < |rows|
  {
    var c := Span(rows[k], k, sel);
    CellsBytes(enc, rows[k].cells[c.left..c.right]) + if EndsLine(rows[k], k, sel) then [RETURN] else []
  }

  /** The bytes of the rows from the first of the selection up to row `n`. */
  function BytesBefore(enc: Encoding, rows: seq<Row>, sel: Selection, n: nat): seq<Byte>
    requires n <= |rows|
  {
    if n <= sel.first then [] else BytesBefore(enc, rows, sel, n - 1) + RowBytes(enc, rows, n - 1, sel)
  }

  predicate Reachable(rows: seq<Row>, sel: Selection) {
    sel.first <= sel.last < |rows|
  }

  /** The bytes of a selection. */
  function Selected(enc: Encoding, rows: seq<Row>, sel: Selection): seq<Byte>
    requires Reachable(rows, sel)
  {
    BytesBefore(enc, rows, sel, sel.last + 1)
  }

  // ----- The batch copier -----

  lemma CellsBytesMore(enc: Encoding, cells: seq<Cell>, a: nat, b: nat)
    requires a <= b < |cells|
    ensures CellsBytes(enc, cells[a..b + 1]) == CellsBytes(enc, cells[a..b]) + CellBytes(enc, cells[b].cp)
  {
    assert cells[a..b + 1][..b - a] == cells[a..b];
  }

  method ColumnsOf(row: Row) returns (end: nat)
    ensures end == CopyColumns(row)
  {
    end := |row.cells|;
    while end > 0 && row.cells[end - 1].cp == BLANK && row.cells[end - 1].flags == ERASED
      invariant end <= |row.cells| && ErasedEnd(row.cells, end) == ErasedEnd(row.cells, |row.cells|)
    {
      end := end - 1;
    }
    if row.wrapColumns == end && end > 0 && row.wrapPadding > 0 && row.cells[end - 1].cp == BLANK { end := end - 1; }
  }

  method SpanOf(row: Row, k: nat, sel: Selection) returns (start: nat, end: nat)
    ensures start <= end && Columns(start, end) == Span(row, k, sel)
  {
    var limit := ColumnsOf(row);
    start, end := if k == sel.first then sel.minx else 0, if k == sel.last then sel.maxx else limit;
    if sel.first == sel.last && start > end { start, end := end, start; }
    start, end := Min(start, limit), Min(end, limit);
    if sel.block {
      start, end := Min(Min(sel.minx, sel.maxx), limit), Min(Max(sel.minx, sel.maxx), limit);
      if 0 < start < |row.cells| && row.cells[start].cp == WIDE_CONT { start := start - 1; }
      if end < |row.cells| && row.cells[end].cp == WIDE_CONT { end := end + 1; }
      assert Columns(start, end) == Raw(row, k, sel);
      while end > start && IsSpace(row.cells[end - 1].cp)
        invariant start <= end <= |row.cells| && SpaceEnd(row.cells, start, end) == Span(row, k, sel).right
      {
        end := end - 1;
      }
    }
  }

  /** Whether a line end follows row `k`, as the copiers decide it. */
  method LineEnd(row: Row, k: nat, sel: Selection) returns (ends: bool)
    ensures ends <==> EndsLine(row, k, sel)
  {
    var end := if sel.first == sel.last then Max(sel.minx, sel.maxx) else sel.maxx;
    ends := if sel.block then k != sel.last else
      row.wrapColumns == 0 && (k != sel.last || (!sel.exact && end >= |row.cells|));
  }

  /** Write bytes into a buffer. */
  method Put(buffer: array<Byte>, offset: nat, bytes: seq<Byte>)
    requires offset + |bytes| <= buffer.Length
    modifies buffer
    ensures buffer[..offset + |bytes|] == old(buffer[..offset]) + bytes
  {
    var i := 0;
    while i < |bytes|
      invariant 0 <= i <= |bytes| && buffer[..offset + i] == old(buffer[..offset]) + bytes[..i]
    {
      buffer[offset + i] := bytes[i];
      i := i + 1;
    }
  }

  lemma {:induction false} BytesGrow(enc: Encoding, rows: seq<Row>, sel: Selection, m: nat, n: nat)
    requires m <= n <= |rows|
    ensures BytesBefore(enc, rows, sel, m) <= BytesBefore(enc, rows, sel, n)
    decreases n
  {
    hide RowBytes;
    if m < n {
      BytesGrow(enc, rows, sel, m, n - 1);
      assert BytesBefore(enc, rows, sel, n - 1) <= BytesBefore(enc, rows, sel, n);
    }
  }

  lemma {:induction false} CellsGrow(enc: Encoding, cells: seq<Cell>, a: nat, x: nat, b: nat)
    requires a <= x <= b <= |cells|
    ensures CellsBytes(enc, cells[a..x]) <= CellsBytes(enc, cells[a..b])
    decreases b
  {
    hide CellsBytes;
    if x < b {
      CellsGrow(enc, cells, a, x, b - 1);
      CellsBytesMore(enc, cells, a, b - 1);
    }
  }

  /** What has been written inside row `k` is the beginning of the selection. */
  lemma PrefixOfAll(enc: Encoding, rows: seq<Row>, sel: Selection, k: nat, x: nat)
    requires Reachable(rows, sel) && sel.first <= k <= sel.last
    requires var c := Span(rows[k], k, sel); c.left <= x <= c.right
    ensures BytesBefore(enc, rows, sel, k) + CellsBytes(enc, rows[k].cells[Span(rows[k], k, sel).left..x])
            <= Selected(enc, rows, sel)
  {
    hide Span, EndsLine;
    var c := Span(rows[k], k, sel);
    CellsGrow(enc, rows[k].cells, c.left, x, c.right);
    BytesGrow(enc, rows, sel, k + 1, sel.last + 1);
  }

  /** The number of bytes of a selection. */
  method BatchSize(enc: Encoding, rows: seq<Row>, sel: Selection) returns (size: nat)
    requires Reachable(rows, sel)
    ensures size == |Selected(enc, rows, sel)|
  {
    hide Span, EndsLine, CellsBytes, BytesBefore;
    size := 0;
    NothingBefore(enc, rows, sel);
    var k := sel.first;
    while k <= sel.last
      invariant sel.first <= k <= sel.last + 1 && size == |BytesBefore(enc, rows, sel, k)|
    {
      var start, end := SpanOf(rows[k], k, sel);
      var x := start;
      NoCells(enc, rows[k].cells, start);
      RowAdds(enc, rows, sel, k);
      while x < end
        invariant start <= x <= end && size
                  == |BytesBefore(enc, rows, sel, k)| + |CellsBytes(enc, rows[k].cells[start..x])|
      {
        CellsBytesMore(enc, rows[k].cells, start, x);
        if rows[k].cells[x].cp != WIDE_CONT {
          size := size + if enc.utf8 then |enc.encode(rows[k].cells[x].cp)| else 1;
        }
        x := x + 1;
      }
      var ends := LineEnd(rows[k], k, sel);
      if ends { size := size + 1; }
      k := k + 1;
    }
  }

  /** The bytes of a selection, in a buffer of its size. */
  method BatchCopy(enc: Encoding, rows: seq<Row>, sel: Selection, size: nat) returns (buffer: array<Byte>)
    requires Reachable(rows, sel) && size == |Selected(enc, rows, sel)|
    ensures fresh(buffer) && buffer[..] == Selected(enc, rows, sel)
  {
    hide Span, EndsLine, CellsBytes, BytesBefore;
    buffer := new Byte[size](_ => 0);
    var offset, k := 0, sel.first;
    NothingBefore(enc, rows, sel);
    while k <= sel.last
      invariant sel.first <= k <= sel.last + 1 && 0 <= offset <= size
      invariant buffer[..offset] == BytesBefore(enc, rows, sel, k)
    {
      var start, end := SpanOf(rows[k], k, sel);
      var x := start;
      NoCells(enc, rows[k].cells, start);
      RowAdds(enc, rows, sel, k);
      BytesGrow(enc, rows, sel, k + 1, sel.last + 1);
      while x < end
        invariant start <= x <= end && 0 <= offset <= size
        invariant buffer[..offset] == BytesBefore(enc, rows, sel, k) + CellsBytes(enc, rows[k].cells[start..x])
      {
        CellsBytesMore(enc, rows[k].cells, start, x);
        PrefixOfAll(enc, rows, sel, k, x + 1);
        if rows[k].cells[x].cp != WIDE_CONT {
          var bytes := CellBytes(enc, rows[k].cells[x].cp);
          Put(buffer, offset, bytes);
          offset := offset + |bytes|;
        }
        x := x + 1;
      }
      var ends := LineEnd(rows[k], k, sel);
      if ends {
        buffer[offset] := RETURN;
        offset := offset + 1;
      }
      k := k + 1;
    }
    assert buffer[..offset] == buffer[..];
  }

  lemma NothingBefore(enc: Encoding, rows: seq<Row>, sel: Selection)
    requires sel.first <= |rows|
    ensures BytesBefore(enc, rows, sel, sel.first) == []
  {
  }

  lemma NoCells(enc: Encoding, cells: seq<Cell>, a: nat)
    requires a <= |cells|
    ensures CellsBytes(enc, cells[a..a]) == []
  {
  }

  lemma RowAdds(enc: Encoding, rows: seq<Row>, sel: Selection, k: nat)
    requires sel.first <= k < |rows|
    ensures BytesBefore(enc, rows, sel, k + 1) == BytesBefore(enc, rows, sel, k) + RowBytes(enc, rows, k, sel)
  {
  }
}
