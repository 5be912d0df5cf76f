/** The storage that repacking takes: an allocation for each row, and one for the cells of a row that has any. */
module ReflowStorage {
  import opened Common
  import opened Rows
  import opened ReflowText
  import opened ReflowAnchors

  /** The allocations that rows hold. */
  function Spent(out: seq<Row>): nat {
    if out == [] then 0 else Spent(out[..|out| - 1]) + if out[|out| - 1].cells == [] then 1 else 2
  }

  /** Rows enough for the first `n` of the input, whatever the width: one for each, and one for each column that is
      packed. */
  function RowsEnough(m: seq<Anchor>, rows: seq<Row>, n: nat): nat
    requires n <= |rows|
  {
    if n == 0 then 0 else RowsEnough(m, rows, n - 1) + 1 + ReachOf(m, rows[n - 1], n - 1)
  }

  /** Allocations enough to repack the rows. */
  function StorageEnough(m: seq<Anchor>, rows: seq<Row>): nat {
    2 * RowsEnough(m, rows, |rows|)
  }

  lemma SpentOneMore(out: seq<Row>, row: Row)
    ensures Spent(out + [row]) == Spent(out) + if row.cells == [] then 1 else 2
  {
    assert (out + [row])[..|out|] == out;
  }

  lemma SpentTail(out: seq<Row>, row: Row)
    requires out != []
    ensures Spent(WithTail(out, row)) + (if Tail(out).cells == [] then 1 else 2) ==
            Spent(out) + if row.cells == [] then 1 else 2
  {
    SpentOneMore(out[..|out| - 1], row);
  }

  lemma SpentCell(out: seq<Row>, c: Cell)
    requires out != []
    ensures Spent(AddCell(out, c)) == Spent(out) + if Filled(out) == 0 then 1 else 0
  {
    SpentTail(out, Tail(out).(cells := Tail(out).cells + [c]));
  }

  lemma {:induction false} SpentBounded(out: seq<Row>)
    ensures |out| <= Spent(out) <= 2 * |out|
    ensures out != [] && Filled(out) == 0 ==> Spent(out) < 2 * |out|
  {
    if out != [] { SpentBounded(out[..|out| - 1]); }
  }

  lemma {:induction false} EnoughGrows(m: seq<Anchor>, rows: seq<Row>, k: nat, n: nat)
    requires k <= n <= |rows|
    ensures RowsEnough(m, rows, k) <= RowsEnough(m, rows, n)
    decreases n
  {
    if k < n { EnoughGrows(m, rows, k, n - 1); }
  }
}
