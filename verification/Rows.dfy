/** Retained console rows: cells, and whether a row continues on the next one. */
module Rows {
  import opened Common

  /** A cell value: a Unicode scalar, zero for an empty cell, or the mark of a wide glyph's second cell. */
  type CodePoint = nat

  predicate Scalar(cp: CodePoint) {
    cp <= 0x10ffff && !(0xd800 <= cp <= 0xdfff)
  }

  /** The most scalars that a query may have. */
  const SEARCH_MAX: nat := 256

  const NEWLINE: CodePoint := 10
  const BLANK: CodePoint := 32
  const WIDE_CONT: CodePoint := 0xfffffffe

  /** Rendition flags of a cell that was erased rather than printed. */
  const ERASED := 0x21

  /** One cell with its rendition; link and underline colour zero mean none. */
  datatype Cell = Cell(cp: CodePoint, fg: int, bg: int, flags: int, roles: nat, color: nat, link: nat)

  /** A row; `wrapColumns` is zero on a hard row, else the column at which output wrapped. */
  datatype Row = Row(cells: seq<Cell>, wrapColumns: nat, wrapPadding: nat)
  {
    predicate Hard() {
      wrapColumns == 0
    }

    /** Where the text of a wrapped row ends, before the spacer of a wide glyph that did not fit. */
    function Boundary(): nat {
      if wrapPadding < wrapColumns then wrapColumns - wrapPadding else 0
    }
  }

  /** A trailing cell that is background, not text. */
  predicate Background(c: Cell) {
    c.cp == BLANK && c.flags == ERASED && c.link == 0
  }

  /** The length of a row without its trailing background, looking no further than `n`. */
  function Trimmed(cells: seq<Cell>, n: nat): (m: nat)
    requires n <= |cells|
    ensures m <= n
  {
    if n > 0 && Background(cells[n - 1]) then Trimmed(cells, n - 1) else n
  }

  /** The columns of a row that hold text. */
  function TextEnd(row: Row): (m: nat)
    ensures m <= |row.cells|
  {
    if row.Hard() then Trimmed(row.cells, |row.cells|) else Min(|row.cells|, row.Boundary())
  }
}
