/** The incremental copier: a measuring pass and a writing pass, each in bounded units of work. */
module CopyEncode {
  import opened Common
  import opened Rows
  import opened CopyText

  /** The most bytes a selection may have: one is kept for a terminator. */
  const SIZE_MAX: nat := 0xfffffffe

  datatype CopyResult = CopyMore | CopyMeasured | CopyDone | CopyError

  class Copier {
    const rows: seq<Row>
    const enc: Encoding
    const sel: Selection
    var line: nat
    var limit: nat
    var left: nat
    var right: nat
    var column: nat
    var phase: nat
    var size: nat
    var offset: nat
    var buffer: array<Byte>
    var writing: bool
    var finished: bool
    var failed: bool

    /** The selection can be copied: its last row is reached and its bytes can be counted. */
    ghost predicate Copyable() {
      Reachable(rows, sel) && |Selected(enc, rows, sel)| <= SIZE_MAX
    }

    /** The bytes that the rows done and the columns done of the current one amount to. */
    ghost function Sofar(): seq<Byte>
      requires line <= |rows|
      requires phase == 3 && line < |rows| ==> Span(rows[line], line, sel).left <= column <= |rows[line].cells|
      reads `line, `phase, `column
    {
      BytesBefore(enc, rows, sel, line)
      + if phase == 3 && line < |rows| then CellsBytes(enc, rows[line].cells[Span(rows[line], line, sel).left..column])
        else []
    }

    /** What the phase has worked out about the current row. */
    ghost predicate InRow()
      requires line < |rows|
      reads `line, `phase, `limit, `left, `right, `column
    {
      var row := rows[line];
      match phase
      case 0 => true
      case 1 => limit <= |row.cells| && ErasedEnd(row.cells, limit) == ErasedEnd(row.cells, |row.cells|)
      case 2 => left == Raw(row, line, sel).left && left <= right <= |row.cells|
                && (if sel.block then SpaceEnd(row.cells, left, right) == Span(row, line, sel).right
                    else right == Span(row, line, sel).right)
      case _ => phase == 3 && Columns(left, right) == Span(row, line, sel) && left <= column <= right
    }

    ghost predicate Running()
      reads `line, `phase, `limit, `left, `right, `column
    {
      && sel.first <= line <= |rows| && (Reachable(rows, sel) ==> line <= sel.last)
      && (if line < |rows| then InRow() else phase == 0)
    }

    ghost predicate Valid()
      reads this, buffer
    {
      && (writing ==> Copyable() && size == |Selected(enc, rows, sel)| == buffer.Length)
      && (failed ==> !Copyable())
      && (finished && !failed ==>
           Copyable() && size == |Selected(enc, rows, sel)| && (writing ==> buffer[..] == Selected(enc, rows, sel)))
      && (!finished && !failed ==>
            && Running() && offset == |Sofar()| <= SIZE_MAX
            && (writing ==> offset <= size && buffer[..offset] == Sofar()))
    }

    constructor (rows: seq<Row>, enc: Encoding, sel: Selection)
      requires sel.first <= |rows|
      ensures Valid() && !writing && !finished && !failed && this.rows == rows && this.enc == enc && this.sel == sel
              && fresh(buffer)
    {
      this.rows, this.enc, this.sel := rows, enc, sel;
      line, limit, left, right, column, phase, size, offset := sel.first, 0, 0, 0, 0, 0, 0, 0;
      buffer, writing, finished, failed := new Byte[0], false, false, false;
      new;
      hide Selected;
      NothingBefore(enc, rows, sel);
    }

    /** Append bytes, or count them while measuring. */
    method PutBytes(bytes: seq<Byte>) returns (ok: bool)
      requires offset <= SIZE_MAX && (writing ==> size == buffer.Length && offset + |bytes| <= size <= SIZE_MAX)
      modifies `offset, `failed, buffer
      ensures ok <==> old(offset) + |bytes| <= SIZE_MAX
      ensures ok ==> offset == old(offset) + |bytes| && failed == old(failed)
      ensures ok && writing ==> buffer[..offset] == old(buffer[..offset]) + bytes
      ensures !ok ==> failed && !writing
    {
      if offset + |bytes| > SIZE_MAX || (writing && (offset > size || |bytes| > size - offset)) {
        failed := true;
        return false;
      }
      if writing { Put(buffer, offset, bytes); }
      offset := offset + |bytes|;
      ok := true;
    }

    /** The writing pass may begin once the size is known, with a buffer of that size. */
    method WriteBegin(bytes: array<Byte>, n: nat) returns (ok: bool)
      requires Valid() && bytes.Length == n
      modifies this
      ensures Valid() && (ok <==> old(finished && !failed && !writing) && n == old(size))
      ensures ok ==> writing && !finished && buffer == bytes && size == n
    {
      hide Selected;
      ok := finished && !failed && !writing && n == size;
      if ok {
        NothingBefore(enc, rows, sel);
        buffer, writing, finished, line, phase, offset := bytes, true, false, sel.first, 0, 0;
      }
    }

    /** One unit of phase 1: drop an erased column, or fix the columns to copy. */
    method TrimUnit()
      requires Valid() && !finished && !failed && line < |rows| && phase == 1
      modifies `limit, `left, `right, `phase
      ensures Valid() && (if phase == 1 then limit < old(limit) else phase == 2)
    {
      hide Selected, BytesBefore, CellsBytes, SpaceEnd, Raw;
      var row := rows[line];
      if limit > 0 && row.cells[limit - 1].cp == BLANK && row.cells[limit - 1].flags == ERASED {
        limit := limit - 1;
        return;
      }
      if row.wrapColumns == limit && limit > 0 && row.wrapPadding > 0
        && row.cells[limit - 1].cp == BLANK { limit := limit - 1; }
      left, right := Bounds(row);
      phase := 2;
    }

    /** The columns between the ends of the selection, widened in a block to whole glyphs. */
    method Bounds(row: Row) returns (a: nat, b: nat)
      requires line < |rows| && row == rows[line] && limit == CopyColumns(row)
      ensures Columns(a, b) == Raw(row, line, sel)
    {
      hide CopyColumns;
      a, b := if line == sel.first then sel.minx else 0, if line == sel.last then sel.maxx else limit;
      if sel.first == sel.last && a > b { a, b := b, a; }
      if sel.block { a, b := Min(sel.minx, sel.maxx), Max(sel.minx, sel.maxx); }
      a, b := Min(a, limit), Min(b, limit);
      if sel.block {
        if 0 < a < |row.cells| && row.cells[a].cp == WIDE_CONT { a := a - 1; }
        if b < |row.cells| && row.cells[b].cp == WIDE_CONT { b := b + 1; }
      }
    }

    /** One unit of phase 2: drop white space from the end of a block's row, or begin to copy. */
    method SpaceUnit()
      requires Valid() && !finished && !failed && line < |rows| && phase == 2
      modifies `right, `column, `phase
      ensures Valid() && (if phase == 2 then right < old(right) else phase == 3)
    {
      hide Selected, BytesBefore, CellsBytes, Raw;
      var row := rows[line];
      if sel.block && right > left && IsSpace(row.cells[right - 1].cp) {
        right := right - 1;
        return;
      }
      column, phase := left, 3;
      NoCells(enc, row.cells, left);
      assert Sofar() == BytesBefore(enc, rows, sel, line);
    }

    /** One unit of phase 3 inside the row: copy a column. */
    method CellUnit() returns (ok: bool)
      requires Valid() && !finished && !failed && line < |rows| && phase == 3 && column < right
      modifies `column, `offset, `failed, buffer
      ensures Valid() && (ok <==> !failed) && column == old(column) + 1
    {
      hide Selected, BytesBefore, CellsBytes, Span;
      var cp := rows[line].cells[column].cp;
      ghost var before := Sofar();
      CellsBytesMore(enc, rows[line].cells, left, column);
      if Reachable(rows, sel) { PrefixOfAll(enc, rows, sel, line, column + 1); }
      assert before + CellBytes(enc, cp)
             == BytesBefore(enc, rows, sel, line) + CellsBytes(enc, rows[line].cells[left..column + 1]);
      column := column + 1;
      if cp == WIDE_CONT { return true; }
      ok := PutBytes(CellBytes(enc, cp));
    }

    /** The last unit of a row: its line end, and the end of the pass or the next row. */
    method EndUnit() returns (r: CopyResult)
      requires Valid() && !finished && !failed && line < |rows| && phase == 3 && column >= right
      modifies `line, `phase, `size, `offset, `finished, `failed, buffer
      ensures Valid() && Agrees(r)
      ensures r == CopyMore ==> line == old(line) + 1
    {
      hide Selected, BytesBefore, CellsBytes, Span, EndsLine;
      var ends := LineEnd(rows[line], line, sel);
      ghost var before := Sofar();
      RowAdds(enc, rows, sel, line);
      BytesGrow(enc, rows, sel, line, line + 1);
      if Reachable(rows, sel) { BytesGrow(enc, rows, sel, line + 1, sel.last + 1); SelectedIs(); }
      if ends {
        var ok := PutBytes([RETURN]);
        if !ok { return CopyError; }
      }
      assert BytesBefore(enc, rows, sel, line + 1) == before + if ends then [RETURN] else [];
      if line == sel.last {
        SelectedIs();
        assert writing ==> offset == size;
        finished := true;
        if !writing {
          size := offset;
          return CopyMeasured;
        }
        return CopyDone;
      }
      line, phase := line + 1, 0;
      return CopyMore;
    }

    lemma SelectedIs()
      requires Reachable(rows, sel)
      ensures Selected(enc, rows, sel) == BytesBefore(enc, rows, sel, sel.last + 1)
    {
    }

    /** What the result says of the pass. */
    ghost predicate Agrees(r: CopyResult)
      reads `writing, `finished, `failed
    {
      match r
      case CopyMore => !finished && !failed
      case CopyMeasured => finished && !failed && !writing
      case CopyDone => finished && !failed && writing
      case CopyError => failed && !writing
    }

    /** Work the pass may still take: rows, then phases of the row, then columns. */
    ghost function Togo(): nat
      reads `line, `phase, `limit, `right, `column
    {
      if phase == 1 then limit else if phase == 2 then right else if phase == 3 then Gap(column, right) else 0
    }

    ghost predicate Nearer(line0: nat, phase0: nat, columns0: nat)
      reads `line, `phase, `limit, `right, `column
    {
      line > line0 || (line == line0 && (phase > phase0 || (phase == phase0 && Togo() < columns0)))
    }

    method UnitStep() returns (r: CopyResult)
      requires Valid() && !finished && !failed
      modifies `line, `limit, `left, `right, `column, `phase, `size, `offset, `finished, `failed, buffer
      ensures Valid() && Agrees(r) && (r == CopyMore ==> Nearer(old(line), old(phase), old(Togo())))
    {
      hide Selected, BytesBefore, CellsBytes, Span, Raw, SpaceEnd;
      if line == |rows| {
        failed := true;
        return CopyError;
      }
      match phase
      case 0 =>
        limit, phase := |rows[line].cells|, 1;
        return CopyMore;
      case 1 =>
        TrimUnit();
        return CopyMore;
      case 2 =>
        SpaceUnit();
        return CopyMore;
      case _ =>
        if column < right {
          var ok := CellUnit();
          return if ok then CopyMore else CopyError;
        }
        r := EndUnit();
    }

    /** One call: at most `budget` units. A pass that is over reports so again. */
    method Step(budget: nat) returns (r: CopyResult)
      requires Valid()
      modifies `line, `limit, `left, `right, `column, `phase, `size, `offset, `finished, `failed, buffer
      ensures Valid()
      ensures if old(failed) then r == CopyError && failed
              else if old(finished) then r == (if writing then CopyDone else CopyMeasured) && finished && !failed
              else Agrees(r) && (r == CopyMore && budget > 0 ==> Nearer(old(line), old(phase), old(Togo())))
    {
      hide Selected, BytesBefore, CellsBytes, Span, Raw, SpaceEnd;
      if failed { return CopyError; }
      if finished { return if writing then CopyDone else CopyMeasured; }
      var rest := budget;
      while rest > 0
        invariant 0 <= rest <= budget && Valid() && !finished && !failed
        invariant if rest == budget then line == old(line) && phase == old(phase) && Togo() == old(Togo())
                  else Nearer(old(line), old(phase), old(Togo()))
      {
        rest := rest - 1;
        r := UnitStep();
        if r != CopyMore { return; }
      }
      return CopyMore;
    }

    /** Drive the pass that has begun to its end, with any schedule of positive budgets. */
    method Drive(budget: nat -> nat)
      requires Valid() && !finished && !failed && forall n :: budget(n) > 0
      modifies `line, `limit, `left, `right, `column, `phase, `size, `offset, `finished, `failed, buffer
      ensures Valid() && (finished || failed) && (failed ==> !writing)
    {
      hide Selected, BytesBefore, CellsBytes, Span, Raw, SpaceEnd, InRow;
      var r, calls := CopyMore, 0;
      while r == CopyMore
        invariant Valid() && (r == CopyMore ==> !finished && !failed)
                  && (r != CopyMore ==> (finished || failed) && (failed ==> !writing))
        decreases r == CopyMore, Gap(line, |rows|), Gap(phase, 3), Togo()
      {
        LineBound();
        r := Step(budget(calls));
        calls := calls + 1;
        if r == CopyMore { LineBound(); }
      }
    }

    lemma LineBound()
      requires Valid() && !finished && !failed
      ensures line <= |rows| && phase <= 3
    {
    }
  }

  /** Measured and written in pieces, a selection is copied just when its last row is reached and its size fits;
      the bytes are those of the batch copier. */
  method CopyInPieces(rows: seq<Row>, enc: Encoding, sel: Selection, budget: nat -> nat)
      returns (ok: bool, buffer: array<Byte>)
    requires sel.first <= |rows| && forall n :: budget(n) > 0
    ensures ok <==> Reachable(rows, sel) && |Selected(enc, rows, sel)| <= SIZE_MAX
    ensures ok ==> fresh(buffer) && buffer[..] == Selected(enc, rows, sel)
  {
    hide Selected, Copier.Running;
    var c := new Copier(rows, enc, sel);
    buffer := new Byte[0];
    c.Drive(budget);
    if c.failed { return false, buffer; }
    buffer := new Byte[c.size](_ => 0);
    ok := c.WriteBegin(buffer, c.size);
    c.Drive(budget);
    buffer := c.buffer;
  }

  /** The two copiers agree. */
  method BothCopy(rows: seq<Row>, enc: Encoding, sel: Selection, budget: nat -> nat)
    returns (ok: bool, pieces: array<Byte>, batch: array<Byte>)
    requires Reachable(rows, sel) && forall n :: budget(n) > 0
    ensures ok ==> pieces[..] == batch[..]
    ensures !ok <==> |Selected(enc, rows, sel)| > SIZE_MAX
  {
    hide Selected;
    var size := BatchSize(enc, rows, sel);
    batch := BatchCopy(enc, rows, sel, size);
    ok, pieces := CopyInPieces(rows, enc, sel, budget);
  }
}
