/** Editing the cells of one row: moves and erasures in place, and the repair of wide glyphs that they cut. */
module WideCells {
  import opened Common
  import opened Rows
  import opened ReflowText

  /** The colours and roles new blanks take. */
  datatype Pen = Pen(fg: int, bg: int, roles: nat)
  {
    function Blank(): Cell {
      Cell(BLANK, fg, bg, 0, roles, 0, 0)
    }

    function Erasure(): Cell {
      Cell(BLANK, fg, bg, ERASED, roles, 0, 0)
    }
  }

  /** Neither a blank nor the mark of a second half is itself wide. */
  predicate Narrow(wide: CodePoint -> bool) {
    !wide(BLANK) && !wide(WIDE_CONT)
  }

  /** Cell `i` is an independent cell, or belongs to a wide glyph that has both its halves. */
  predicate Whole(s: seq<Cell>, i: nat, wide: CodePoint -> bool)
    requires i < |s|
  {
    if s[i].cp == WIDE_CONT then i > 0 && s[i - 1].cp != WIDE_CONT && wide(s[i - 1].cp)
    else wide(s[i].cp) ==> i + 1 < |s| && s[i + 1].cp == WIDE_CONT
  }

  /** The cells with every fragment of a wide glyph blanked, and nothing else changed. */
  function Repaired(s: seq<Cell>, wide: CodePoint -> bool, blank: Cell): (r: seq<Cell>)
    ensures |r| == |s| && forall i | 0 <= i < |s| :: r[i] == if Whole(s, i, wide) then s[i] else blank
  {
    seq(|s|, i requires 0 <= i < |s| => if Whole(s, i, wide) then s[i] else blank)
  }

  /** No wide glyph has its halves on either side of position `i`. */
  predicate NotCut(s: seq<Cell>, i: nat, wide: CodePoint -> bool)
    requires i <= |s|
  {
    0 < i < |s| && s[i].cp == WIDE_CONT ==> s[i - 1].cp == WIDE_CONT || !wide(s[i - 1].cp)
  }

  /** What the repair makes of the cell at a position that cuts no glyph, and of a second half after it. */
  lemma FixedAt(s: seq<Cell>, i: nat, wide: CodePoint -> bool, blank: Cell)
    requires i < |s| && NotCut(s, i, wide)
    ensures var r, cp := Repaired(s, wide, blank), s[i].cp;
            if cp != WIDE_CONT && wide(cp) && i + 1 < |s| && s[i + 1].cp == WIDE_CONT then
              r[i] == s[i] && r[i + 1] == s[i + 1] && NotCut(s, i + 2, wide)
            else r[i] == (if cp == WIDE_CONT || wide(cp) then blank else s[i]) && NotCut(s, i + 1, wide)
  {
  }

  /** After the repair every wide glyph has both its halves, and every second half its glyph. */
  lemma RepairedPaired(s: seq<Cell>, wide: CodePoint -> bool, blank: Cell)
    requires !wide(blank.cp) && blank.cp != WIDE_CONT && !wide(WIDE_CONT)
    ensures Paired(Repaired(s, wide, blank), wide)
  {
    var r := Repaired(s, wide, blank);
    forall x | 0 <= x < |r| && wide(r[x].cp)
      ensures x + 1 < |r| && r[x + 1].cp == WIDE_CONT
    {
      assert Whole(s, x, wide) && r[x] == s[x] && s[x].cp != WIDE_CONT;
      assert Whole(s, x + 1, wide);
    }
    forall x | 0 <= x < |r| && r[x].cp == WIDE_CONT
      ensures x > 0 && wide(r[x - 1].cp)
    {
      assert Whole(s, x, wide) && r[x] == s[x];
      assert Whole(s, x - 1, wide);
    }
  }

  /** Cells that are whole already are left alone. */
  lemma RepairedSame(s: seq<Cell>, wide: CodePoint -> bool, blank: Cell)
    requires Paired(s, wide) && !wide(WIDE_CONT)
    ensures Repaired(s, wide, blank) == s
  {
    forall i | 0 <= i < |s| ensures Whole(s, i, wide) {}
  }

  function Repeat(c: Cell, n: nat): (r: seq<Cell>)
    ensures |r| == n && forall k | 0 <= k < n :: r[k] == c
  {
    seq(n, _ => c)
  }

  /** A row extended to at least `width` cells. */
  function Extended(s: seq<Cell>, width: nat, c: Cell): seq<Cell> {
    if |s| < width then s + Repeat(c, width - |s|) else s
  }

  /** The first `width` cells with `f` in their place. */
  function Front(s: seq<Cell>, f: seq<Cell>): (r: seq<Cell>)
    requires |f| <= |s|
    ensures |r| == |s|
  {
    f + s[|f|..]
  }

  function Removed(s: seq<Cell>, x: nat, count: nat, c: Cell): (r: seq<Cell>)
    requires x + count <= |s|
    ensures |r| == |s|
  {
    s[..x] + s[x + count..] + Repeat(c, count)
  }

  function Inserted(s: seq<Cell>, x: nat, count: nat, c: Cell): (r: seq<Cell>)
    requires x + count <= |s|
    ensures |r| == |s|
  {
    s[..x] + Repeat(c, count) + s[x..|s| - count]
  }

  function Overwritten(s: seq<Cell>, x: nat, f: seq<Cell>): (r: seq<Cell>)
    requires x + |f| <= |s|
    ensures |r| == |s|
  {
    s[..x] + f + s[x + |f|..]
  }

  /** The row with its first cells replaced by `f`, whose wide glyphs are repaired in a UTF-8 unit. */
  function Edited(s: seq<Cell>, f: seq<Cell>, utf8: bool, wide: CodePoint -> bool, pen: Pen): seq<Cell>
    requires |f| <= |s|
  {
    Front(s, if utf8 then Repaired(f, wide, pen.Blank()) else f)
  }

  /** A row after deleting cells at `x`: those after them have moved up. */
  function Deletion(s: seq<Cell>, x: nat, requested: nat, width: nat, pen: Pen, utf8: bool,
                    wide: CodePoint -> bool): seq<Cell>
    requires x < width
  {
    var t := Extended(s, width, BARE);
    Edited(t, Removed(t[..width], x, Min(Max(requested, 1), width - x), pen.Blank()), utf8, wide, pen)
  }

  /** A row after inserting blanks at `x`: the cells from there on have moved down. */
  function Insertion(s: seq<Cell>, x: nat, requested: nat, width: nat, pen: Pen, utf8: bool,
                     wide: CodePoint -> bool): seq<Cell>
    requires x < width
  {
    var t := Extended(s, width, pen.Blank());
    Edited(t, Inserted(t[..width], x, Min(Max(requested, 1), width - x), pen.Blank()), utf8, wide, pen)
  }

  class Line {
    var cells: array<Cell>
    var wrapColumns: nat
    var wrapPadding: nat

    constructor ()
      ensures cells.Length == 0 && fresh(cells)
    {
      cells := new Cell[0];
      wrapColumns, wrapPadding := 0, 0;
    }

    /** Blank every fragment of a wide glyph among the first `width` cells. */
    method Repair(width: nat, utf8: bool, wide: CodePoint -> bool, blank: Cell)
      requires width <= cells.Length
      modifies cells
      ensures cells[..] == if utf8 then Front(old(cells[..]), Repaired(old(cells[..width]), wide, blank))
              else old(cells[..])
    {
      hide Repaired, Whole, Front;
      if utf8 { RepairFront(width, wide, blank); }
    }

    method RepairFront(width: nat, wide: CodePoint -> bool, blank: Cell)
      requires width <= cells.Length
      modifies cells
      ensures cells[..] == Front(old(cells[..]), Repaired(old(cells[..width]), wide, blank))
    {
      hide Repaired, Whole;
      ghost var was := cells[..width];
      ghost var rest := cells[width..];
      ghost var fixed := Repaired(was, wide, blank);
      var i := 0;
      while i < width
        invariant 0 <= i <= width && NotCut(was, i, wide)
        invariant forall k | 0 <= k < i :: cells[k] == fixed[k]
        invariant (forall k | i <= k < width :: cells[k] == was[k]) && cells[width..] == rest
      {
        var cp := cells[i].cp;
        FixedAt(was, i, wide, blank);
        if cp != WIDE_CONT && wide(cp) && i + 1 < width && cells[i + 1].cp == WIDE_CONT {
          i := i + 2;
        } else {
          if cp == WIDE_CONT || wide(cp) { cells[i] := blank; }
          i := i + 1;
        }
      }
      assert cells[..width] == fixed;
      assert cells[..] == cells[..width] + cells[width..];
    }

    /** Make room for `width` cells. */
    method Grow(width: nat, c: Cell, storage: bool) returns (ok: bool)
      modifies this
      ensures ok <==> storage || old(cells.Length) >= width
      ensures ok ==> cells[..] == Extended(old(cells[..]), width, c)
      ensures !ok ==> cells == old(cells)
      ensures cells == old(cells) || fresh(cells)
      ensures wrapColumns == old(wrapColumns) && wrapPadding == old(wrapPadding)
    {
      if cells.Length >= width { return true; }
      if !storage { return false; }
      var more := new Cell[width](k requires 0 <= k < width reads this, cells => if k < cells.Length then cells[k]
                                  else c);
      assert more[..] == Extended(cells[..], width, c);
      cells := more;
      ok := true;
    }

    /** Set cells to a blank. */
    method Fill(from: nat, to: nat, c: Cell)
      requires from <= to <= cells.Length
      modifies cells
      ensures cells[..] == Overwritten(old(cells[..]), from, Repeat(c, to - from))
    {
      forall k | from <= k < to { cells[k] := c; }
    }

    /** Move the cells after a gap up over it, and blanks in at the margin. */
    method MoveUp(x: nat, count: nat, width: nat, c: Cell)
      requires x + count <= width <= cells.Length
      modifies cells
      ensures cells[..] == Front(old(cells[..]), Removed(old(cells[..width]), x, count, c))
    {
      hide Front, Removed, Repeat;
      forall k | x <= k < width - count { cells[k] := cells[k + count]; }
      forall k | width - count <= k < width { cells[k] := c; }
      MovedUp(old(cells[..]), cells[..], x, count, width, c);
    }

    /** Move cells down to open a gap of blanks; those moved past the margin are lost. */
    method MoveDown(x: nat, count: nat, width: nat, c: Cell)
      requires x + count <= width <= cells.Length
      modifies cells
      ensures cells[..] == Front(old(cells[..]), Inserted(old(cells[..width]), x, count, c))
    {
      hide Front, Inserted, Repeat;
      forall k | x + count <= k < width { cells[k] := cells[k - count]; }
      forall k | x <= k < x + count { cells[k] := c; }
      MovedDown(old(cells[..]), cells[..], x, count, width, c);
    }

    /** Delete cells at column `x`: those after them move up, blanks come in at the margin. */
    method DeleteChars(x: nat, requested: nat, width: nat, pen: Pen, utf8: bool, wide: CodePoint -> bool, storage: bool)
        returns (ok: bool)
      modifies this, cells
      ensures ok <==> x < width && (storage || old(cells.Length) >= width)
      ensures if ok then wrapColumns == wrapPadding == 0
              && cells[..] == Deletion(old(cells[..]), x, requested, width, pen, utf8, wide)
              else cells == old(cells) && cells[..] == old(cells[..]) && wrapColumns == old(wrapColumns)
      ensures ok && utf8 && Narrow(wide) ==> width <= cells.Length && Paired(cells[..width], wide)
    {
      hide Repaired, Extended, Removed, Paired;
      if x >= width { return false; }
      ok := Grow(width, BARE, storage);
      if !ok { return; }
      wrapColumns, wrapPadding := 0, 0;
      ghost var s := cells[..];
      ExtendedLength(old(cells[..]), width, BARE);
      MoveUp(x, Min(Max(requested, 1), width - x), width, pen.Blank());
      FrontTwice(s, Removed(s[..width], x, Min(Max(requested, 1), width - x), pen.Blank()));
      EditsKeepPairs(s, Removed(s[..width], x, Min(Max(requested, 1), width - x), pen.Blank()), wide, pen);
      Repair(width, utf8, wide, pen.Blank());
    }

    /** Insert blanks at column `x`: the cells from there on move down, those past the margin are lost. */
    method InsertChars(x: nat, requested: nat, width: nat, pen: Pen, utf8: bool, wide: CodePoint -> bool, storage: bool)
        returns (ok: bool)
      modifies this, cells
      ensures ok <==> x < width && (storage || old(cells.Length) >= width)
      ensures if ok then wrapColumns == wrapPadding == 0
              && cells[..] == Insertion(old(cells[..]), x, requested, width, pen, utf8, wide)
              else cells == old(cells) && cells[..] == old(cells[..]) && wrapColumns == old(wrapColumns)
      ensures ok && utf8 && Narrow(wide) ==> width <= cells.Length && Paired(cells[..width], wide)
    {
      hide Repaired, Extended, Inserted, Paired;
      if x >= width { return false; }
      ok := Grow(width, pen.Blank(), storage);
      if !ok { return; }
      wrapColumns, wrapPadding := 0, 0;
      ghost var s := cells[..];
      ExtendedLength(old(cells[..]), width, pen.Blank());
      MoveDown(x, Min(Max(requested, 1), width - x), width, pen.Blank());
      FrontTwice(s, Inserted(s[..width], x, Min(Max(requested, 1), width - x), pen.Blank()));
      EditsKeepPairs(s, Inserted(s[..width], x, Min(Max(requested, 1), width - x), pen.Blank()), wide, pen);
      Repair(width, utf8, wide, pen.Blank());
    }

    /** Erase cells at column `x` where they stand. */
    method EraseChars(x: nat, requested: nat, width: nat, pen: Pen, utf8: bool, wide: CodePoint -> bool, storage: bool)
      requires x < width
      modifies this, cells
      ensures var count := Min(Max(requested, 1), width - x);
              if storage || old(cells.Length) >= x + count then
                var s := Overwritten(Extended(old(cells[..]), x + count, BARE), x, Repeat(pen.Blank(), count));
                var n := Min(width, |s|);
                wrapColumns == wrapPadding == 0
                  && cells[..] == Front(s, if utf8 then Repaired(s[..n], wide, pen.Blank()) else s[..n])
                && (utf8 && Narrow(wide) ==> Paired(cells[..n], wide))
              else cells == old(cells) && cells[..] == old(cells[..])
    {
      hide Repaired, Extended, Overwritten, Front, Repeat, Paired;
      var count := Min(Max(requested, 1), width - x);
      var ok := Grow(x + count, BARE, storage);
      if !ok { return; }
      wrapColumns, wrapPadding := 0, 0;
      ExtendedLength(old(cells[..]), x + count, BARE);
      Fill(x, x + count, pen.Blank());
      ghost var s := cells[..];
      var n := Min(width, cells.Length);
      assert cells[..n] == s[..n];
      FrontSame(s, n);
      EditsKeepPairs(s, s[..n], wide, pen);
      Repair(n, utf8, wide, pen.Blank());
    }

    /** Erase to the end of the row, to its beginning, or all of it. */
    method EraseLine(x: nat, mode: nat, width: nat, pen: Pen, utf8: bool, wide: CodePoint -> bool, storage: bool)
      modifies this, cells
      ensures if x < width && (storage || old(cells.Length) >= width) then
                var first, end := if mode == 1 || mode == 2 then 0 else x, if mode == 1 then x + 1 else width;
                var s := Overwritten(Extended(old(cells[..]), width, pen.Erasure()), first,
                                     Repeat(pen.Erasure(), end - first));
                wrapColumns == wrapPadding == 0
                  && cells[..] == Front(s, if utf8 then Repaired(s[..width], wide, pen.Blank()) else s[..width])
                && (utf8 && Narrow(wide) ==> Paired(cells[..width], wide))
              else cells == old(cells) && cells[..] == old(cells[..])
    {
      hide Repaired, Extended, Overwritten, Front, Repeat, Paired;
      if x >= width { return; }
      var first, end := if mode == 1 || mode == 2 then 0 else x, if mode == 1 then x + 1 else width;
      var ok := Grow(width, pen.Erasure(), storage);
      if !ok { return; }
      wrapColumns, wrapPadding := 0, 0;
      ExtendedLength(old(cells[..]), width, pen.Erasure());
      Fill(first, end, pen.Erasure());
      ghost var s := cells[..];
      assert cells[..width] == s[..width];
      FrontSame(s, width);
      EditsKeepPairs(s, s[..width], wide, pen);
      Repair(width, utf8, wide, pen.Blank());
    }

    /** The number of cells that decoded text takes. */
    static method CellCount(text: seq<CodePoint>, columns: CodePoint -> nat, c: Cell) returns (n: nat)
      ensures n == |Laid(text, columns, c)|
    {
      n := 0;
      var j := 0;
      while j < |text|
        invariant 0 <= j <= |text| && n == |Laid(text[..j], columns, c)|
      {
        LaidMore(text, j, columns, c);
        n := n + if columns(text[j]) == 0 then 0 else if columns(text[j]) == 2 then 2 else 1;
        j := j + 1;
      }
      assert text[..j] == text;
    }

    method Put(i: nat, c: Cell)
      requires i < cells.Length
      modifies cells
      ensures cells[..] == old(cells[..])[i := c]
    {
      cells[i] := c;
    }

    /** Write the cells of decoded text. */
    method Write(x: nat, text: seq<CodePoint>, columns: CodePoint -> nat, c: Cell)
      requires x + |Laid(text, columns, c)| <= cells.Length
      modifies cells
      ensures cells[..] == Overwritten(old(cells[..]), x, Laid(text, columns, c))
    {
      hide Laid, Overwritten;
      LaidNothing(text, columns, c);
      OverwrittenNothing(cells[..], x);
      var i, j := 0, 0;
      while j < |text|
        invariant 0 <= j <= |text| && i == |Laid(text[..j], columns, c)| && x + |Laid(text, columns, c)| <= cells.Length
        invariant x + i <= cells.Length && cells[..] == Overwritten(old(cells[..]), x, Laid(text[..j], columns, c))
      {
        var cp := text[j];
        LaidMore(text, j, columns, c);
        LaidFits(text, j + 1, columns, c);
        ghost var f := Laid(text[..j], columns, c);
        if columns(cp) != 0 {
          OverwrittenMore(old(cells[..]), x, f, c.(cp := cp));
          Put(x + i, c.(cp := cp));
          i := i + 1;
          if columns(cp) == 2 {
            OverwrittenMore(old(cells[..]), x, f + [c.(cp := cp)], c.(cp := WIDE_CONT));
            Put(x + i, c.(cp := WIDE_CONT));
            i := i + 1;
            assert f + [c.(cp := cp)] + [c.(cp := WIDE_CONT)] == f + LaidGlyph(cp, columns, c);
          }
        } else {
          assert f + [] == f;
        }
        j := j + 1;
      }
      assert text[..j] == text;
    }

    /** Blank the other halves of the glyphs that printing cells `x..x + ncells` will cut. */
    method Part(x: nat, ncells: nat, oldsize: nat, wide: CodePoint -> bool)
      requires x + ncells <= cells.Length && oldsize <= cells.Length
      modifies cells
      ensures cells[..] == PartedRow(old(cells[..]), x, ncells, oldsize, wide)
    {
      var n := x + ncells;
      if ncells > 0 && 0 < x < oldsize && cells[x].cp == WIDE_CONT && wide(cells[x - 1].cp) {
        cells[x - 1] := Parted(cells[x - 1]);
      }
      if ncells > 0 && n < oldsize && cells[n].cp == WIDE_CONT && wide(cells[n - 1].cp) {
        cells[n] := Parted(cells[n]);
      }
    }

    /** Print decoded text that fits the row at column `x`. */
    method Print(x: nat, text: seq<CodePoint>, columns: CodePoint -> nat, c: Cell, gap: Cell, wide: CodePoint -> bool,
                 storage: bool)
      returns (ok: bool)
      modifies this, cells
      ensures ok <==> storage || old(cells.Length) >= x + |Laid(text, columns, c)|
      ensures if ok then cells[..] == Printed(old(cells[..]), x, Laid(text, columns, c), gap, wide)
              else cells == old(cells) && cells[..] == old(cells[..])
      ensures Paired(old(cells[..]), wide) && Measured(columns, wide) && WIDE_CONT !in text && gap.cp == BLANK ==>
              Paired(cells[..], wide)
    {
      hide Laid, Printed, PartedRow, Extended, Paired;
      ghost var s := cells[..];
      PrintedIs(s, x, Laid(text, columns, c), gap, wide);
      var oldsize := cells.Length;
      var ncells := CellCount(text, columns, c);
      ok := Grow(x + ncells, gap, storage);
      if !ok { return; }
      if x + ncells >= oldsize { wrapColumns, wrapPadding := 0, 0; }
      Part(x, ncells, oldsize, wide);
      Write(x, text, columns, c);
      if Paired(s, wide) && Measured(columns, wide) && WIDE_CONT !in text && gap.cp == BLANK {
        LaidPaired(text, columns, c, wide);
        PrintingKeepsPairs(s, x, Laid(text, columns, c), gap, wide);
      }
    }
  }

  /** A blank in no colours, as an enlarged row holds before it is printed on. */
  const BARE := Cell(BLANK, 0, 0, 0, 0, 0, 0)

  lemma FrontTwice(s: seq<Cell>, f: seq<Cell>)
    requires |f| <= |s|
    ensures Front(s, f)[..|f|] == f && Front(s, f)[|f|..] == s[|f|..] && |Front(s, f)| == |s|
  {
  }

  lemma FrontSame(s: seq<Cell>, n: nat)
    requires n <= |s|
    ensures Front(s, s[..n]) == s
  {
  }

  lemma OverwrittenNothing(s: seq<Cell>, x: nat)
    requires x <= |s|
    ensures Overwritten(s, x, []) == s
  {
  }

  lemma OverwrittenMore(s: seq<Cell>, x: nat, f: seq<Cell>, c: Cell)
    requires x + |f| < |s|
    ensures Overwritten(s, x, f)[x + |f| := c] == Overwritten(s, x, f + [c])
  {
  }

  lemma MovedUp(s: seq<Cell>, t: seq<Cell>, x: nat, count: nat, width: nat, c: Cell)
    requires x + count <= width <= |s| == |t|
    requires forall k {:trigger t[k]} | 0 <= k < |s| ::
               t[k] == if x <= k < width - count then s[k + count] else if width - count <= k < width then c else s[k]
    ensures t == Front(s, Removed(s[..width], x, count, c))
  {
    var f := Removed(s[..width], x, count, c);
    forall k | 0 <= k < width ensures f[k] == t[k] {}
    assert forall k | width <= k < |s| :: s[width..][k - width] == t[k];
  }

  lemma MovedDown(s: seq<Cell>, t: seq<Cell>, x: nat, count: nat, width: nat, c: Cell)
    requires x + count <= width <= |s| == |t|
    requires forall k {:trigger t[k]} | 0 <= k < |s| ::
               t[k] == if x <= k < x + count then c else if x + count <= k < width then s[k - count] else s[k]
    ensures t == Front(s, Inserted(s[..width], x, count, c))
  {
    var f := Inserted(s[..width], x, count, c);
    forall k | 0 <= k < width ensures f[k] == t[k] {}
    assert forall k | width <= k < |s| :: s[width..][k - width] == t[k];
  }

  lemma ExtendedLength(s: seq<Cell>, width: nat, c: Cell)
    ensures |Extended(s, width, c)| == Max(|s|, width)
  {
  }

  /** Every edit leaves the wide glyphs within the width whole: what it leaves there has been repaired. */
  lemma EditsKeepPairs(s: seq<Cell>, f: seq<Cell>, wide: CodePoint -> bool, pen: Pen)
    requires |f| <= |s|
    ensures Narrow(wide) ==> Paired(Front(s, Repaired(f, wide, pen.Blank()))[..|f|], wide)
  {
    if Narrow(wide) {
      RepairedPaired(f, wide, pen.Blank());
      assert Front(s, Repaired(f, wide, pen.Blank()))[..|f|] == Repaired(f, wide, pen.Blank());
    }
  }

  /** Deleting from a row of whole glyphs blanks no more than a glyph cut at either edge of the gap; when both are cut,
      the first half of the one and the second half of the other meet and make a whole glyph. */
  lemma DeletionKeepsPairs(s: seq<Cell>, x: nat, requested: nat, width: nat, pen: Pen, wide: CodePoint -> bool)
    requires x < width <= |s| && Narrow(wide) && Paired(s[..width], wide)
    ensures var r, count := Deletion(s, x, requested, width, pen, true, wide), Min(Max(requested, 1), width - x);
            var cutLeft := x > 0 && wide(s[x - 1].cp) && s[x].cp == WIDE_CONT;
            var cutRight := x + count < width && s[x + count].cp == WIDE_CONT;
            && Paired(r[..width], wide)
            && (forall i {:trigger r[i]} | 0 <= i < x ::
                r[i] == if i == x - 1 && cutLeft && !cutRight then pen.Blank() else s[i])
            && (forall i {:trigger r[i]} | x <= i < width - count ::
                r[i] == if i == x && cutRight && !cutLeft then pen.Blank() else s[i + count])
  {
    DeletionPaired(s, x, requested, width, pen, wide);
    hide Paired, Deletion;
    forall i | 0 <= i < width - Min(Max(requested, 1), width - x) {
      DeletionAt(s, x, requested, width, pen, wide, i);
    }
  }

  lemma DeletionPaired(s: seq<Cell>, x: nat, requested: nat, width: nat, pen: Pen, wide: CodePoint -> bool)
    requires x < width <= |s| && Narrow(wide)
    ensures var r := Deletion(s, x, requested, width, pen, true, wide); |r| == |s| && Paired(r[..width], wide)
  {
    hide Repaired, Paired, Removed;
    EditsKeepPairs(s, Removed(s[..width], x, Min(Max(requested, 1), width - x), pen.Blank()), wide, pen);
  }

  lemma DeletionAt(s: seq<Cell>, x: nat, requested: nat, width: nat, pen: Pen, wide: CodePoint -> bool, i: nat)
    requires x < width <= |s| && Narrow(wide) && Paired(s[..width], wide)
    requires |Deletion(s, x, requested, width, pen, true, wide)| == |s|
    requires i < width - Min(Max(requested, 1), width - x)
    ensures var r, count := Deletion(s, x, requested, width, pen, true, wide), Min(Max(requested, 1), width - x);
            var cutLeft := x > 0 && wide(s[x - 1].cp) && s[x].cp == WIDE_CONT;
            var cutRight := x + count < width && s[x + count].cp == WIDE_CONT;
            r[i] == if i < x then (if i == x - 1 && cutLeft && !cutRight then pen.Blank() else s[i])
                    else if i == x && cutRight && !cutLeft then pen.Blank() else s[i + count]
  {
    hide Paired, Repaired, Removed, Whole;
    var count := Min(Max(requested, 1), width - x);
    EditedAt(s, Removed(s[..width], x, count, pen.Blank()), wide, pen, i);
    RemovedWhole(s[..width], x, count, pen.Blank(), wide, i);
  }

  lemma EditedAt(s: seq<Cell>, f: seq<Cell>, wide: CodePoint -> bool, pen: Pen, i: nat)
    requires i < |f| <= |s|
    ensures Front(s, Repaired(f, wide, pen.Blank()))[i] == if Whole(f, i, wide) then f[i] else pen.Blank()
  {
  }

  lemma RemovedWhole(s: seq<Cell>, x: nat, count: nat, c: Cell, wide: CodePoint -> bool, i: nat)
    requires 0 < count && x + count <= |s| && Paired(s, wide) && !wide(WIDE_CONT) && c.cp == BLANK && i < |s| - count
    ensures var f := Removed(s, x, count, c);
            var cutLeft := x > 0 && wide(s[x - 1].cp) && s[x].cp == WIDE_CONT;
            var cutRight := x + count < |s| && s[x + count].cp == WIDE_CONT;
            && f[i] == (if i < x then s[i] else s[i + count])
            && (Whole(f, i, wide) <==> !(i == x - 1 && cutLeft && !cutRight) && !(i == x && cutRight && !cutLeft))
  {
    var f := Removed(s, x, count, c);
    forall k {:trigger f[k]} | 0 <= k < |s| - count ensures f[k] == if k < x then s[k] else s[k + count] {}
  }

  /** Inserting into a row of whole glyphs blanks no more than both halves of a glyph that is cut where the blanks come
      in, and the first half of one that is cut at the margin. */
  lemma InsertionKeepsPairs(s: seq<Cell>, x: nat, requested: nat, width: nat, pen: Pen, wide: CodePoint -> bool)
    requires x < width <= |s| && Narrow(wide) && Paired(s[..width], wide)
    ensures var r, count := Insertion(s, x, requested, width, pen, true, wide), Min(Max(requested, 1), width - x);
            var cut, lost := x > 0 && s[x].cp == WIDE_CONT, x < width - count && wide(s[width - count - 1].cp);
            && Paired(r[..width], wide)
            && (forall i {:trigger r[i]} | 0 <= i < x :: r[i] == if i == x - 1 && cut then pen.Blank() else s[i])
            && (forall i {:trigger r[i]} | x <= i < x + count :: r[i] == pen.Blank())
            && (forall i {:trigger r[i]} | x + count <= i < width ::
                  r[i] == if (i == x + count && cut) || (i == width - 1 && lost) then pen.Blank() else s[i - count])
  {
    InsertionPaired(s, x, requested, width, pen, wide);
    hide Paired, Insertion;
    forall i | 0 <= i < width { InsertionAt(s, x, requested, width, pen, wide, i); }
  }

  lemma InsertionPaired(s: seq<Cell>, x: nat, requested: nat, width: nat, pen: Pen, wide: CodePoint -> bool)
    requires x < width <= |s| && Narrow(wide)
    ensures var r := Insertion(s, x, requested, width, pen, true, wide); |r| == |s| && Paired(r[..width], wide)
  {
    hide Repaired, Paired, Inserted;
    EditsKeepPairs(s, Inserted(s[..width], x, Min(Max(requested, 1), width - x), pen.Blank()), wide, pen);
  }

  lemma InsertionAt(s: seq<Cell>, x: nat, requested: nat, width: nat, pen: Pen, wide: CodePoint -> bool, i: nat)
    requires i < width && x < width <= |s| && Narrow(wide) && Paired(s[..width], wide)
    requires |Insertion(s, x, requested, width, pen, true, wide)| == |s|
    ensures var r, count := Insertion(s, x, requested, width, pen, true, wide), Min(Max(requested, 1), width - x);
            var cut, lost := x > 0 && s[x].cp == WIDE_CONT, x < width - count && wide(s[width - count - 1].cp);
            r[i] ==
            if i < x then (if i == x - 1 && cut then pen.Blank() else s[i])
            else if i < x + count then pen.Blank()
            else if (i == x + count && cut) || (i == width - 1 && lost) then pen.Blank()
            else s[i - count]
  {
    var count := Min(Max(requested, 1), width - x);
    hide Repaired, Insertion, Inserted, Whole, Front, Paired, Narrow;
    var w := s[..width];
    InsertionIs(s, x, requested, width, pen, wide);
    EditedAt(s, Inserted(w, x, count, pen.Blank()), wide, pen, i);
    InsertedWhole(w, x, count, pen.Blank(), wide, i);
  }

  lemma InsertionIs(s: seq<Cell>, x: nat, requested: nat, width: nat, pen: Pen, wide: CodePoint -> bool)
    requires x < width <= |s|
    ensures Insertion(s, x, requested, width, pen, true, wide) ==
            Front(s, Repaired(Inserted(s[..width], x, Min(Max(requested, 1), width - x), pen.Blank()), wide,
                              pen.Blank()))
  {
    hide Inserted, Repaired;
  }

  lemma InsertedWhole(s: seq<Cell>, x: nat, count: nat, c: Cell, wide: CodePoint -> bool, i: nat)
    requires 0 < count && x + count <= |s| && Paired(s, wide) && Narrow(wide) && c.cp == BLANK && i < |s|
    ensures var f := Inserted(s, x, count, c);
            var cut, lost := x > 0 && s[x].cp == WIDE_CONT, x < |s| - count && wide(s[|s| - count - 1].cp);
            && f[i] == (if i < x then s[i] else if i < x + count then c else s[i - count])
            && (Whole(f, i, wide) <==> !(i == x - 1 && cut) && !(i == x + count && cut) && !(i == |s| - 1 && lost))
  {
    var f := Inserted(s, x, count, c);
    forall k {:trigger f[k]} | 0 <= k < |s|
      ensures f[k] == if k < x then s[k] else if k < x + count then c else s[k - count]
    {
    }
  }

  // ----- Printing -----

  /** The wide codepoints are those that take two columns. */
  ghost predicate Measured(columns: CodePoint -> nat, wide: CodePoint -> bool) {
    (forall cp :: wide(cp) <==> columns(cp) == 2) && Narrow(wide)
  }

  /** The cells of decoded text: a wide glyph takes two, a combining mark none. */
  function Laid(text: seq<CodePoint>, columns: CodePoint -> nat, c: Cell): seq<Cell> {
    if text == [] then []
    else Laid(text[..|text| - 1], columns, c) + LaidGlyph(text[|text| - 1], columns, c)
  }

  function LaidGlyph(cp: CodePoint, columns: CodePoint -> nat, c: Cell): seq<Cell> {
    if columns(cp) == 0 then [] else if columns(cp) == 2 then [c.(cp := cp), c.(cp := WIDE_CONT)] else [c.(cp := cp)]
  }

  lemma LaidMore(text: seq<CodePoint>, j: nat, columns: CodePoint -> nat, c: Cell)
    requires j < |text|
    ensures Laid(text[..j + 1], columns, c) == Laid(text[..j], columns, c) + LaidGlyph(text[j], columns, c)
  {
    assert text[..j + 1][..j] == text[..j];
  }

  lemma LaidNothing(text: seq<CodePoint>, columns: CodePoint -> nat, c: Cell)
    ensures Laid(text[..0], columns, c) == []
  {
  }

  lemma {:induction false} LaidFits(text: seq<CodePoint>, j: nat, columns: CodePoint -> nat, c: Cell)
    requires j <= |text|
    ensures |Laid(text[..j], columns, c)| <= |Laid(text, columns, c)|
    decreases |text| - j
  {
    if j < |text| {
      LaidMore(text, j, columns, c);
      LaidFits(text, j + 1, columns, c);
    } else {
      assert text[..j] == text;
    }
  }

  function Parted(c: Cell): Cell {
    c.(cp := BLANK, link := 0)
  }

  /** A row after cells `f` are printed at `x`: the gap before them is blank, and a glyph they cut loses its other
      half. */
  function Printed(s: seq<Cell>, x: nat, f: seq<Cell>, gap: Cell, wide: CodePoint -> bool): seq<Cell> {
    var t, n := Extended(s, x, gap), x + |f|;
    var cutLeft := f != [] && 0 < x < |s| && s[x].cp == WIDE_CONT && wide(s[x - 1].cp);
    var cutRight := f != [] && n < |s| && s[n].cp == WIDE_CONT && wide(s[n - 1].cp);
    (if cutLeft then t[..x - 1] + [Parted(t[x - 1])] else t[..x]) + f
    + (if n >= |t| then [] else if cutRight then [Parted(t[n])] + t[n + 1..] else t[n..])
  }

  function PartedRow(t: seq<Cell>, x: nat, ncells: nat, oldsize: nat, wide: CodePoint -> bool): (r: seq<Cell>)
    requires x + ncells <= |t| && oldsize <= |t|
    ensures |r| == |t|
  {
    var n := x + ncells;
    var a := if ncells > 0 && 0 < x < oldsize && t[x].cp == WIDE_CONT && wide(t[x - 1].cp)
        then t[x - 1 := Parted(t[x - 1])] else t;
    if ncells > 0 && n < oldsize && t[n].cp == WIDE_CONT && wide(t[n - 1].cp) then a[n := Parted(a[n])] else a
  }

  lemma PrintedIs(s: seq<Cell>, x: nat, f: seq<Cell>, gap: Cell, wide: CodePoint -> bool)
    ensures var t := Extended(s, x + |f|, gap);
            && |s| <= |t| && x + |f| <= |t|
            && Overwritten(PartedRow(t, x, |f|, |s|, wide), x, f) == Printed(s, x, f, gap, wide)
  {
  }

  lemma {:induction false} LaidPaired(text: seq<CodePoint>, columns: CodePoint -> nat, c: Cell, wide: CodePoint -> bool)
    requires Measured(columns, wide) && WIDE_CONT !in text
    ensures Paired(Laid(text, columns, c), wide)
  {
    if text != [] {
      var n := |text| - 1;
      LaidPaired(text[..n], columns, c, wide);
      if columns(text[n]) != 0 { PairedGlyph(Laid(text[..n], columns, c), c.(cp := text[n]), wide); }
      var before := Laid(text[..n], columns, c);
      assert before + [c.(cp := text[n])] + [c.(cp := WIDE_CONT)] == before + [c.(cp := text[n]), c.(cp := WIDE_CONT)];
      assert before + [] == before;
    }
  }

  lemma PrintedCells(s: seq<Cell>, x: nat, f: seq<Cell>, gap: Cell, wide: CodePoint -> bool)
    ensures |Printed(s, x, f, gap, wide)| == Max(|s|, x + |f|)
  {
  }

  /** Cell `i` of a row after printing. */
  lemma PrintedAt(s: seq<Cell>, x: nat, f: seq<Cell>, gap: Cell, wide: CodePoint -> bool, i: nat)
    requires i < |Printed(s, x, f, gap, wide)| == Max(|s|, x + |f|)
    ensures var n := x + |f|;
            var cutLeft := f != [] && 0 < x < |s| && s[x].cp == WIDE_CONT && wide(s[x - 1].cp);
            var cutRight := f != [] && n < |s| && s[n].cp == WIDE_CONT && wide(s[n - 1].cp);
            Printed(s, x, f, gap, wide)[i] ==
            if x <= i < n then f[i - x]
            else if i >= |s| then gap
            else if (i + 1 == x && cutLeft) || (i == n && cutRight) then Parted(s[i])
            else s[i]
  {
  }

  /** Printing glyphs that fit keeps every wide glyph of the row whole. */
  lemma PrintingKeepsPairs(s: seq<Cell>, x: nat, f: seq<Cell>, gap: Cell, wide: CodePoint -> bool)
    requires Paired(s, wide) && Paired(f, wide) && Narrow(wide) && gap.cp == BLANK
    ensures Paired(Printed(s, x, f, gap, wide), wide)
  {
    hide Printed, Extended;
    var r, n := Printed(s, x, f, gap, wide), x + |f|;
    PrintedCells(s, x, f, gap, wide);
    forall i | 0 <= i < |r| && wide(r[i].cp)
      ensures i + 1 < |r| && r[i + 1].cp == WIDE_CONT
    {
      PrintedAt(s, x, f, gap, wide, i);
      if i + 1 < |r| { PrintedAt(s, x, f, gap, wide, i + 1); }
    }
    forall i | 0 <= i < |r| && r[i].cp == WIDE_CONT
      ensures i > 0 && wide(r[i - 1].cp)
    {
      PrintedAt(s, x, f, gap, wide, i);
      if i > 0 { PrintedAt(s, x, f, gap, wide, i - 1); }
    }
  }
}
