/** Repacking rows to a new width: the builder, and the positions that are carried along. */
module Reflow {
  import opened Common
  import opened Rows
  import opened ReflowText
  import opened ReflowAnchors
  import opened ReflowEnds
  import opened ReflowStorage

  const ANCHORS_MAX: nat := 8
  const WIDTH_MAX: nat := 0x1fffffff

  /** A column of a row, packed: what its place has to be. */
  lemma GlyphFits(j: Job, k: nat, x: nat, out: seq<Row>)
    requires k < |j.rows| && j.width > 0 && Packing(out, j.width) && SourceCell(j.rows[k], x).cp != WIDE_CONT
    requires AddressOf(Lines(out)) == SourceAddress(j.rows, k, x)
    ensures var c := SourceCell(j.rows[k], x);
            var n := Columns(c, j.wide, j.width);
            var at, more := Here(Roomy(out, c, n, j.width)), Emit(out, c, j.wide, j.width);
            && Fitting(j, k, x, more, at) && Extends(out, more) && NotAfter(Here(out), at)
            && at.column + n == Filled(more) && Within(more, Spot(at.row, at.column + n - 1))
            && PlaceAddress(more, Spot(at.row, at.column + n - 1))
               == SourceAddress(j.rows, k, if n == 2 then x + 1 else x)
  {
    hide Lines, PlaceAddress, SourceAddress, TextStop, Emit, Roomy, Packing, Extends, Stored;
    OpenTail(out, j.width);
    var c := SourceCell(j.rows[k], x);
    var n := Columns(c, j.wide, j.width);
    RoomyLines(out, c, n, j.width);
    var room, more := Roomy(out, c, n, j.width), Emit(out, c, j.wide, j.width);
    OpenTail(room, j.width);
    HereAddress(room);
    RoomExtended(out, c, j.wide, j.width);
    EmitExtends(out, c, j.wide, j.width);
    AddressStays(room, more, Here(room));
    NoHome(j, k, x);
    if n == 2 {
      NextAddress(more, Here(room));
      NextSource(j.rows, k, x);
    }
  }

  lemma OpenTail(out: seq<Row>, width: nat)
    requires Packing(out, width)
    ensures out != [] && Tail(out).Hard()
  {
  }

  lemma RoomExtended(out: seq<Row>, c: Cell, wide: CodePoint -> bool, width: nat)
    requires out != []
    ensures var room := Roomy(out, c, Columns(c, wide, width), width);
            room != [] && Extends(room, Emit(out, c, wide, width))
  {
    hide Roomy;
    RoomyExtends(out, c, Columns(c, wide, width), width);
  }

  lemma NoHome(j: Job, k: nat, x: nat)
    requires k < |j.rows| && SourceCell(j.rows[k], x).cp != WIDE_CONT
    ensures j.Home(k, x) == x && (x < TextStop(j.rows[k]) ==> SourceCell(j.rows[k], x) == j.rows[k].cells[x])
  {
  }

  /** A glyph of the input moves the address on by one. */
  lemma NextSource(rows: seq<Row>, k: nat, x: nat)
    requires k < |rows|
    ensures var a, c := SourceAddress(rows, k, x), SourceCell(rows[k], x);
            SourceAddress(rows, k, x + 1) == if c.cp == WIDE_CONT then a else Address(a.line, a.index + 1)
  {
    hide SourceAddress;
    SourceAddressIs(rows, k, x);
    SourceAddressIs(rows, k, x + 1);
  }

  /** After a second half, or a half on its own, no glyph is parted. */
  lemma NotSecond(j: Job, k: nat, x: nat)
    requires k < |j.rows| && SourceCell(j.rows[k], x).cp == WIDE_CONT
    ensures !j.Second(k, x + 1)
  {
  }

  /** The second half of a wide glyph on its own adds nothing. */
  lemma HalfCarried(j: Job, m: seq<Anchor>, k: nat, x: nat, out: seq<Row>, limit: Spot)
    requires j.Carried(m, k, x, out, limit) && Packing(out, j.width) && NotAfter(limit, Here(out)) && k < |j.rows|
    requires SourceCell(j.rows[k], x).cp == WIDE_CONT && j.Home(k, x) == x && x < ReachOf(j.given, j.rows[k], k)
    requires AddressOf(Lines(out)) == SourceAddress(j.rows, k, x)
    ensures j.Carried(Placed(m, k, x, Here(out)), k, x + 1, out, Here(out))
  {
    hide Job.Carried, TextStop, Lines, PlaceAddress, SourceAddress, Packing, ReachOf, Stored;
    OpenTail(out, j.width);
    HereAddress(out);
    Refl(out);
    HalfStored(j.rows[k], x);
    CarriedOn(j, m, k, x, out, limit, out, Here(out));
  }

  lemma HalfStored(row: Row, x: nat)
    requires SourceCell(row, x).cp == WIDE_CONT
    ensures x < Stored(row) && row.cells[x].cp == WIDE_CONT && x < TextStop(row)
  {
    if TextStop(row) <= x { SpareTail(row, x); }
  }

  lemma GlyphCarried(j: Job, m: seq<Anchor>, k: nat, x: nat, out: seq<Row>, limit: Spot)
    requires j.Carried(m, k, x, out, limit) && Packing(out, j.width) && j.width > 0 && NotAfter(limit, Here(out))
             && k < |j.rows|
    requires SourceCell(j.rows[k], x).cp != WIDE_CONT && x < ReachOf(j.given, j.rows[k], k)
    requires AddressOf(Lines(out)) == SourceAddress(j.rows, k, x)
    ensures var c := SourceCell(j.rows[k], x);
            var at := Here(Roomy(out, c, Columns(c, j.wide, j.width), j.width));
            j.Carried(Placed(m, k, x, at), k, x + 1, Emit(out, c, j.wide, j.width), at)
  {
    hide Job.Carried, TextStop, Emit, Roomy, Extends, Fitting, Lines, PlaceAddress, SourceAddress, Packing, ReachOf,
         Stored;
    var c := SourceCell(j.rows[k], x);
    GlyphFits(j, k, x, out);
    CarriedOn(j, m, k, x, out, limit, Emit(out, c, j.wide, j.width),
              Here(Roomy(out, c, Columns(c, j.wide, j.width), j.width)));
  }

  /** The second half of a wide glyph goes where its glyph has been packed. */
  lemma SecondCarried(j: Job, m: seq<Anchor>, k: nat, x: nat, out: seq<Row>, limit: Spot, half: Spot)
    requires j.Carried(m, k, x, out, limit) && NotAfter(limit, half) && k < |j.rows| && Within(out, half)
    requires SourceCell(j.rows[k], x).cp == WIDE_CONT && x < ReachOf(j.given, j.rows[k], k)
    requires PlaceAddress(out, half) == SourceAddress(j.rows, k, j.Home(k, x))
    ensures j.Carried(Placed(m, k, x, half), k, x + 1, out, half)
  {
    hide Job.Carried, TextStop, PlaceAddress, SourceAddress, ReachOf, Stored, Job.Home;
    Refl(out);
    HalfStored(j.rows[k], x);
    CarriedOn(j, m, k, x, out, limit, out, half);
  }

  // ----- Text -----

  /** The lines packed so far are those of the first `k` rows; the last one exactly when it goes on. */
  predicate Kept(out: seq<Row>, rows: seq<Row>, k: nat)
    requires k <= |rows|
  {
    var a, b := Lines(out), Lines(rows[..k]);
    && SameText(a, b) && (k == 0 <==> out == [])
    && (k > 0 && !rows[k - 1].Hard() ==> a[|a| - 1] == b[|b| - 1])
  }

  lemma SameSnoc(a: seq<seq<Cell>>, b: seq<seq<Cell>>, s: seq<Cell>, t: seq<Cell>)
    requires SameText(a, b) && Normal(s) == Normal(t)
    ensures SameText(a + [s], b + [t])
  {
    hide Normal;
  }

  lemma SameLast(a: seq<seq<Cell>>, b: seq<seq<Cell>>, s: seq<Cell>, t: seq<Cell>)
    requires SameText(a, b) && a != [] && Normal(s) == Normal(t)
    ensures SameText(a[..|a| - 1] + [s], b[..|b| - 1] + [t])
  {
    hide Normal;
  }

  /** Row `k` has been packed as `text`. */
  lemma RowKept(out: seq<Row>, rows: seq<Row>, k: nat, more: seq<Row>, text: seq<Cell>)
    requires k < |rows| && Kept(out, rows, k) && more != []
    requires Lines(more) == Joined(Begun(Lines(out), GoesOn(rows, k)), text, true)
    requires Amounts(text, rows[k])
    requires !rows[k].Hard() ==> text == RowGlyphs(rows[k])
    ensures Kept(more, rows, k + 1)
  {
    hide Lines, Normal, RowGlyphs, SameText;
    var a, b, g := Lines(out), Lines(rows[..k]), RowGlyphs(rows[k]);
    assert rows[..k + 1] == rows[..k] + [rows[k]];
    LinesSnoc(rows[..k], rows[k]);
    if GoesOn(rows, k) {
      SameNonempty(a, b);
      SameLast(a, b, a[|a| - 1] + text, b[|b| - 1] + g);
    } else {
      assert [] + text == text && [] + g == g;
      assert Joined(a + [[]], text, true) == a + [text];
      SameSnoc(a, b, text, g);
    }
  }

  lemma SameNonempty(a: seq<seq<Cell>>, b: seq<seq<Cell>>)
    requires SameText(a, b)
    ensures |a| == |b|
  {
  }

  lemma BegunAddress(out: seq<Row>, rows: seq<Row>, k: nat)
    requires k < |rows| && Kept(out, rows, k)
    ensures var prior := Begun(Lines(out), GoesOn(rows, k));
            prior != [] && AddressOf(prior) == SourceAddress(rows, k, 0)
  {
    hide Lines, Normal;
    var b := Lines(rows[..k]);
    if GoesOn(rows, k) { assert b[|b| - 1] + [] == b[|b| - 1]; }
  }

  lemma OpenRow(out: seq<Row>, width: nat, wide: CodePoint -> bool)
    requires out != [] ==> Packing(out, width)
    ensures var more := out + [Row([], 0, 0)];
            Packing(more, width) && Lines(more) == Lines(out) + [[]] && Extends(out, more)
              && (out == [] || AllPaired(out, wide) ==> AllPaired(more, wide))
              && (Snug(out, wide) ==> Snug(more, wide))
  {
    LinesSnoc(out, Row([], 0, 0));
    if Snug(out, wide) { OpenSnug(out, wide); }
    OpenGlyphs(Row([], 0, 0));
    hide Lines;
    assert out != [] ==> Tail(out) in out;
  }

  /** Whatever precedes it, the row packed as `text` amounts to its own text. */
  ghost predicate Amounts(text: seq<Cell>, row: Row) {
    forall p: seq<Cell> {:trigger p + text} :: Normal(p + text) == Normal(p + RowGlyphs(row))
  }

  lemma SourceAmounts(row: Row, end: nat)
    requires TextStop(row) <= end
    ensures Amounts(SourceGlyphs(row, end), row)
  {
    forall p: seq<Cell> ensures Normal(p + SourceGlyphs(row, end)) == Normal(p + RowGlyphs(row)) {
      SourceNormal(p, row, end);
    }
  }

  lemma FillerAmounts(text: seq<Cell>, row: Row, c: Cell)
    requires Amounts(text, row) && Spare(c)
    ensures Amounts(text + [c], row)
  {
    hide Normal, Spare, RowGlyphs;
    forall p: seq<Cell> ensures Normal(p + (text + [c])) == Normal(p + RowGlyphs(row)) {
      assert p + (text + [c]) == (p + text) + [c];
      NormalSnoc(p + text, c);
    }
  }

  lemma FillerSpare(row: Row)
    requires Shortened(row)
    ensures Spare(Filler(row))
  {
  }

  class Builder {
    const rows: seq<Row>
    const width: nat
    const wide: CodePoint -> bool
    var out: seq<Row>
    /** How many more allocations will succeed. */
    var allocations: nat
    const mapped: array<Anchor>
    ghost const given: seq<Anchor>

    ghost function J(): Job {
      Job(rows, given, width, wide)
    }

    /** The allocations there were at the beginning: those still to come and those that the rows hold. */
    ghost function Budget(): nat
      reads `out, `allocations
    {
      allocations + Spent(out)
    }

    ghost predicate Sound()
      reads this
    {
      && Snug(out, wide)
      && (out != [] ==>
            Packing(out, width) && (width > 1 && !wide(BLANK) && !wide(WIDE_CONT) ==> AllPaired(out, wide)))
    }

    constructor (rows: seq<Row>, width: nat, wide: CodePoint -> bool, anchors: seq<Anchor>, allocations: nat)
      ensures this.rows == rows && this.width == width && this.wide == wide && this.allocations == allocations
      ensures out == [] && fresh(mapped)
      ensures given == anchors && mapped.Length == |anchors|
              && forall i | 0 <= i < |anchors| :: mapped[i] == anchors[i].(place := None)
    {
      given := anchors;
      this.rows, this.width, this.wide, this.allocations := rows, width, wide, allocations;
      out := [];
      mapped := new Anchor[|anchors|](i requires 0 <= i < |anchors| => anchors[i].(place := None));
    }

    /** Open a row; a continuation closes the row before it as full. */
    method NewRow(continuation: bool) returns (ok: bool)
      modifies `out, `allocations
      ensures !ok ==> allocations == 0 && out == old(out)
      ensures ok ==> out == if continuation && old(out) != [] then Wrap(old(out), width) else old(out) + [Row([], 0, 0)]
      ensures Budget() == old(Budget())
    {
      if allocations == 0 { return false; }
      allocations := allocations - 1;
      if out != [] && continuation {
        SpentTail(out, Tail(out).(wrapColumns := width));
        out := WithTail(out, Tail(out).(wrapColumns := width));
      }
      SpentOneMore(out, Row([], 0, 0));
      out := out + [Row([], 0, 0)];
      ok := true;
    }

    /** Append a cell to the open row, whose storage is allocated with its first cell. */
    method PutCell(c: Cell) returns (ok: bool)
      requires out != []
      modifies `out, `allocations
      ensures !ok ==> allocations == 0 && out == old(out) && Filled(out) == 0
      ensures ok ==> out == AddCell(old(out), c)
      ensures Budget() == old(Budget())
    {
      SpentCell(out, c);
      if Filled(out) == 0 {
        if allocations == 0 { return false; }
        allocations := allocations - 1;
      }
      out := AddCell(out, c);
      ok := true;
    }

    /** Place the anchors at column `x` of row `k`. */
    method Map(k: nat, x: nat, at: Spot)
      modifies mapped
      ensures mapped[..] == Placed(old(mapped[..]), k, x, at) && SameAnchors(old(mapped[..]), mapped[..])
    {
      var i := 0;
      while i < mapped.Length
        invariant 0 <= i <= mapped.Length
        invariant forall j | 0 <= j < i :: mapped[j] == Placed(old(mapped[..]), k, x, at)[j]
        invariant forall j | i <= j < mapped.Length :: mapped[j] == old(mapped[j])
      {
        if mapped[i].line == Some(k) && mapped[i].column == x { mapped[i] := mapped[i].(place := Some(at)); }
        i := i + 1;
      }
    }

    /** Place anchors that have not changed but for their places. */
    method Remap(k: nat, x: nat, at: Spot)
      requires SameAnchors(given, mapped[..])
      modifies mapped
      ensures mapped[..] == Placed(old(mapped[..]), k, x, at) && SameAnchors(given, mapped[..])
    {
      hide SameAnchors, Placed;
      Map(k, x, at);
      SameTrans(given, old(mapped[..]), mapped[..]);
    }

    lemma StopCovers(k: nat, x: nat)
      requires k < |rows| && x < TextStop(rows[k])
      ensures x < ReachOf(given, rows[k], k)
    {
    }

    method MapRest(k: nat, at: Spot)
      modifies mapped
      ensures mapped[..] == PlacedRest(old(mapped[..]), k, at) && SameAnchors(old(mapped[..]), mapped[..])
    {
      var i := 0;
      while i < mapped.Length
        invariant 0 <= i <= mapped.Length
        invariant forall j | 0 <= j < i :: mapped[j] == PlacedRest(old(mapped[..]), k, at)[j]
        invariant forall j | i <= j < mapped.Length :: mapped[j] == old(mapped[j])
      {
        if mapped[i].line == Some(k) && mapped[i].place == None { mapped[i] := mapped[i].(place := Some(at)); }
        i := i + 1;
      }
    }

    /** Room for a glyph of `columns` in the open row: pad and wrap when it does not fit. */
    method MakeRoom(c: Cell, columns: nat) returns (ok: bool)
      requires out != []
      modifies `out, `allocations
      ensures !ok ==> allocations == 0 && Spent(out) <= 2 * |old(out)|
      ensures ok ==> out == Roomy(old(out), c, columns, width) && |out| <= |old(out)| + 1
      ensures Budget() == old(Budget())
    {
      hide Spent;
      SpentBounded(out);
      ok := true;
      if Filled(out) + columns > width {
        if Filled(out) < width {
          ok := PutSpacer(c);
          if !ok { return; }
        }
        SpentBounded(out);
        ok := NewRow(true);
      }
    }

    /** The spacer left where a wide glyph does not fit. */
    method PutSpacer(c: Cell) returns (ok: bool)
      requires out != []
      modifies `out, `allocations
      ensures !ok ==> allocations == 0 && out == old(out)
      ensures ok ==> out == Pad(old(out), c)
      ensures Budget() == old(Budget())
    {
      hide Spent;
      ok := PutCell(c.(cp := BLANK, link := 0));
      if !ok { return; }
      SpentTail(out, Tail(out).(wrapPadding := 1));
      out := WithTail(out, Tail(out).(wrapPadding := 1));
    }

    /** How far row `k` reaches: to the end of its text, or to an anchor that keeps its distance past it. */
    method Reach(k: nat) returns (end: nat)
      requires k < |rows| && SameAnchors(given, mapped[..])
      ensures end == ReachOf(given, rows[k], k)
    {
      end := TextStop(rows[k]);
      if rows[k].Hard() {
        var i := 0;
        while i < mapped.Length
          invariant 0 <= i <= mapped.Length && end == Furthest(mapped[..][..i], k, TextStop(rows[k]))
        {
          FurthestNext(mapped[..], i, k, TextStop(rows[k]));
          if mapped[i].line == Some(k) && mapped[i].extend && mapped[i].column > end { end := mapped[i].column; }
          i := i + 1;
        }
        assert mapped[..][..i] == mapped[..];
        FurthestSame(given, mapped[..], k, TextStop(rows[k]));
      }
    }

    /** Row `k` has been packed up to column `x` onto the lines `prior`; anchors have been placed up to `limit`. */
    ghost predicate InRow(k: nat, x: nat, prior: seq<seq<Cell>>, limit: Spot)
      requires k < |rows|
      reads this, mapped
    {
      && out != [] && Sound() && prior != [] && width > 0
      && Lines(out) == Joined(prior, SourceGlyphs(rows[k], x), true) && AddressOf(prior) == SourceAddress(rows, k, 0)
      && SameAnchors(given, mapped[..]) && J().Carried(mapped[..], k, x, out, limit) && NotAfter(limit, Here(out))
      && !J().Second(k, x)
    }

    /** The text packed so far ends where the column to be packed is in the input. */
    lemma AddressHere(k: nat, x: nat, prior: seq<seq<Cell>>, limit: Spot)
      requires k < |rows| && InRow(k, x, prior, limit)
      ensures AddressOf(Lines(out)) == SourceAddress(rows, k, x)
    {
      hide Lines, SourceAddress, SourceGlyphs, Joined, AddressOf, Job.Carried, Packing, AllPaired;
      AddressMore(prior, SourceGlyphs(rows[k], x));
      SourceAddressIs(rows, k, x);
    }

    /** Write a glyph, and the second half of a wide one. */
    method PutGlyph(c: Cell, columns: nat) returns (ok: bool)
      requires out != [] && columns == Columns(c, wide, width)
      modifies `out, `allocations
      ensures !ok ==> allocations == 0 && Spent(out) < 2 * |old(out)|
      ensures ok ==> out == if columns == 2 then AddCell(AddCell(old(out), c), c.(cp := WIDE_CONT))
              else AddCell(old(out), c)
      ensures |out| == |old(out)| && Budget() == old(Budget())
    {
      SpentBounded(out);
      ok := PutCell(c);
      if ok && columns == 2 { ok := PutCell(c.(cp := WIDE_CONT)); }
    }

    /** What packing a glyph at column `x` does to the text and the rows. */
    lemma GlyphPacked(k: nat, x: nat, prior: seq<seq<Cell>>, limit: Spot)
      requires k < |rows| && InRow(k, x, prior, limit) && SourceCell(rows[k], x).cp != WIDE_CONT
      ensures var c := SourceCell(rows[k], x);
              var more := Emit(out, c, wide, width);
              && more != [] && Packing(more, width)
              && (width > 1 && !wide(BLANK) && !wide(WIDE_CONT) ==> AllPaired(more, wide)) && Snug(more, wide)
              && Lines(more) == Joined(prior, SourceGlyphs(rows[k], x + 1), true)
    {
      hide Lines, Packing, AllPaired, Snug, Emit, Joined, Job.Carried;
      var c := SourceCell(rows[k], x);
      EmitLines(out, c, wide, width);
      EmitSnug(out, c, wide, width);
      JoinedMore(prior, SourceGlyphs(rows[k], x), [c], true);
      if width > 1 && !wide(BLANK) && !wide(WIDE_CONT) { EmitPaired(out, c, wide, width); }
      EmitExtends(out, c, wide, width);
    }

    /** A column that holds the second half of a wide glyph adds nothing. */
    lemma HalfPacked(k: nat, x: nat)
      requires k < |rows| && SourceCell(rows[k], x).cp == WIDE_CONT
      ensures SourceGlyphs(rows[k], x + 1) == SourceGlyphs(rows[k], x) && x < TextStop(rows[k])
    {
      assert SourceGlyphs(rows[k], x) + [] == SourceGlyphs(rows[k], x);
      if TextStop(rows[k]) <= x { SpareTail(rows[k], x); }
    }

    /** Pack the cell at column `x` of row `k`. */
    method PackCell(k: nat, x: nat, end: nat, ghost prior: seq<seq<Cell>>, ghost limit: Spot)
      returns (ok: bool, next: nat, ghost last: Spot)
      requires k < |rows| && x < end == ReachOf(given, rows[k], k) && InRow(k, x, prior, limit)
      modifies `out, `allocations, mapped
      ensures !ok ==> allocations == 0 && SameAnchors(given, mapped[..]) && Spent(out) < 2 * (|old(out)| + 1)
      ensures ok ==> x < next <= end && InRow(k, next, prior, last) && |out| <= |old(out)| + 1
      ensures ok ==> Extends(old(out), out)
      ensures Budget() == old(Budget())
    {
      hide Lines, Packing, AllPaired, Snug, Roomy, AddCell, Joined, Job.Carried, TextStop, Stored, SourceGlyphs,
           Extends, AddressOf, SourceAddress, PlaceAddress, ReachOf, Fitting, SameAnchors, Placed, Spent;
      AddressHere(k, x, prior, limit);
      var c := SourceCell(rows[k], x);
      ok, next, last := true, x + 1, limit;
      if c.cp == WIDE_CONT {
        last := Here(out);
        HalfPacked(k, x);
        HalfCarried(J(), mapped[..], k, x, out, limit);
        Remap(k, x, Here(out));
        NotSecond(J(), k, x);
        Refl(out);
        return;
      }
      var columns := Columns(c, wide, width);
      GlyphPacked(k, x, prior, limit);
      EmitExtends(out, c, wide, width);
      ghost var before := out;
      ok := MakeRoom(c, columns);
      if !ok { return; }
      var at := Here(out);
      GlyphCarried(J(), mapped[..], k, x, before, limit);
      GlyphFits(J(), k, x, before);
      Remap(k, x, at);
      ok := PutGlyph(c, columns);
      if !ok { return; }
      last := at;
      if wide(c.cp) && x + 1 < Stored(rows[k]) && rows[k].cells[x + 1].cp == WIDE_CONT {
        var half := Spot(at.row, at.column + columns - 1);
        HalfPacked(k, x + 1);
        StopCovers(k, x + 1);
        SecondCarried(J(), mapped[..], k, x + 1, out, at, half);
        Remap(k, x + 1, half);
        NotSecond(J(), k, x + 1);
        next, last := x + 2, half;
      }
    }

    /** The rows before row `k` have been packed. */
    ghost predicate Between(k: nat, limit: Spot)
      requires k <= |rows|
      reads this, mapped
    {
      && width > 0 && Sound() && Kept(out, rows, k) && SameAnchors(given, mapped[..])
      && J().Carried(mapped[..], k, 0, out, limit)
      && (if out == [] then limit == Spot(0, 0) else NotAfter(limit, Here(out)))
    }

    /** Begin row `k` on the open row, when the row before it goes on, or on a new one. */
    method BeginRow(k: nat, ghost limit: Spot) returns (ok: bool)
      requires k < |rows| && Between(k, limit)
      modifies `out, `allocations
      ensures !ok ==> allocations == 0 && Spent(out) <= 2 * |old(out)|
      ensures ok ==> InRow(k, 0, Begun(Lines(old(out)), GoesOn(rows, k)), limit) && |out| <= |old(out)| + 1
      ensures ok ==> out == if GoesOn(rows, k) then old(out) else old(out) + [Row([], 0, 0)]
      ensures Budget() == old(Budget())
    {
      hide Lines, Packing, AllPaired, Snug, Job.Carried, Extends, SameText, SourceAddress, AddressOf, Spent;
      SpentBounded(out);
      ghost var before := out;
      OpenRow(out, width, wide);
      if !GoesOn(rows, k) {
        ok := NewRow(false);
        if !ok { return; }
      } else {
        ok := true;
      }
      Refl(before);
      CarriedExtends(J(), mapped[..], k, 0, before, limit, out, limit);
      BegunAddress(before, rows, k);
      JoinedNothing(Begun(Lines(before), GoesOn(rows, k)));
    }

    /** Keep the trimmed area of a hard row in its own colours to the end of the open row. */
    method Fill(k: nat, c: Cell, ghost prior: seq<seq<Cell>>, ghost text0: seq<Cell>, ghost limit: Spot)
      returns (ok: bool, ghost text: seq<Cell>, ghost n: nat)
      requires k < |rows| && out != [] && prior != [] && width > 0 && Sound() && Spare(c) && Amounts(text0, rows[k])
      requires Lines(out) == Joined(prior, text0, true)
      requires J().Carried(mapped[..], k + 1, 0, out, limit) && NotAfter(limit, Here(out))
      modifies `out, `allocations
      ensures !ok ==> allocations == 0 && Spent(out) < 2 * |old(out)|
      ensures ok ==> out != [] && Sound() && Amounts(text, rows[k]) && Lines(out) == Joined(prior, text, true)
      ensures ok ==> J().Carried(mapped[..], k + 1, 0, out, limit) && NotAfter(limit, Here(out))
      ensures ok ==> Filled(out) == width && text == text0 + Copies(c, n) && Extends(old(out), out)
      ensures |out| == |old(out)| && Budget() == old(Budget())
    {
      hide Lines, AllPaired, Snug, Job.Carried, Amounts, Joined, Extends, Spent;
      ok, text, n := true, text0, 0;
      Refl(out);
      FilledBound(out, width);
      while Filled(out) < width
        invariant ok && out != [] && Sound() && Amounts(text, rows[k]) && Lines(out) == Joined(prior, text, true)
        invariant J().Carried(mapped[..], k + 1, 0, out, limit) && NotAfter(limit, Here(out))
        invariant |out| == |old(out)| && Budget() == old(Budget())
        invariant text == text0 + Copies(c, n) && Extends(old(out), out) && Filled(out) <= width
        decreases Gap(Filled(out), width)
      {
        SpentBounded(out);
        ghost var before := out;
        BlankAdded(before, c, width, wide);
        JoinedMore(prior, text, [c], true);
        FillerAmounts(text, rows[k], c);
        ok := PutCell(c);
        if !ok { return; }
        CarriedExtends(J(), mapped[..], k + 1, 0, before, limit, out, limit);
        ExtendsTrans(old(out), before, out);
        text, n := text + [c], n + 1;
      }
    }

    /** Pack the cells of row `k`. */
    method PackCells(k: nat, ghost prior: seq<seq<Cell>>, ghost limit0: Spot)
      returns (ok: bool, end: nat, ghost limit: Spot)
      requires k < |rows| && InRow(k, 0, prior, limit0)
      modifies `out, `allocations, mapped
      ensures !ok ==> allocations == 0 && SameAnchors(given, mapped[..]) && Spent(out) < 2 * (|old(out)| + end)
      ensures ok ==> InRow(k, end, prior, limit) && |out| <= |old(out)| + end && Extends(old(out), out)
      ensures end == ReachOf(given, rows[k], k) && Budget() == old(Budget())
    {
      hide Lines, Packing, AllPaired, Snug, Job.Carried, Joined, TextStop, Stored, SourceGlyphs, SameAnchors, ReachOf,
           SourceAddress, AddressOf, Spent, Extends;
      ok, limit := true, limit0;
      Refl(out);
      end := Reach(k);
      var x := 0;
      while x < end
        invariant 0 <= x <= end && InRow(k, x, prior, limit)
        invariant |out| <= |old(out)| + x && Budget() == old(Budget()) && Extends(old(out), out)
      {
        ghost var was := out;
        ok, x, limit := PackCell(k, x, end, prior, limit);
        if !ok { return; }
        ExtendsTrans(old(out), was, out);
      }
    }

    /** Place the anchors past the cells of row `k` at its end. */
    method PlaceRest(k: nat, end: nat, ghost prior: seq<seq<Cell>>, ghost limit: Spot)
      requires k < |rows| && InRow(k, end, prior, limit) && end == ReachOf(given, rows[k], k)
      modifies mapped
      ensures SameAnchors(given, mapped[..]) && J().Carried(mapped[..], k + 1, 0, out, Here(out))
    {
      hide Lines, Packing, AllPaired, Snug, Job.Carried, Joined, TextStop, Stored, SourceGlyphs, SameAnchors, ReachOf,
           SourceAddress, PlaceAddress, AddressOf, PlacedRest;
      AddressHere(k, end, prior, limit);
      OpenTail(out, width);
      HereAddress(out);
      CarriedRow(J(), mapped[..], k, out, limit, Here(out));
      ghost var was := mapped[..];
      MapRest(k, Here(out));
      SameTrans(given, was, mapped[..]);
    }

    /** Fill up the row that row `k` ends on, if the end of that was trimmed. */
    method FillEnd(k: nat, ghost prior: seq<seq<Cell>>, ghost text0: seq<Cell>, ghost limit: Spot)
      returns (ok: bool, ghost text: seq<Cell>, ghost n: nat)
      requires k < |rows| && out != [] && prior != [] && width > 0 && Sound() && Amounts(text0, rows[k])
      requires Lines(out) == Joined(prior, text0, true)
      requires J().Carried(mapped[..], k + 1, 0, out, limit) && NotAfter(limit, Here(out))
      modifies `out, `allocations
      ensures !ok ==> allocations == 0 && Spent(out) < 2 * |old(out)|
      ensures ok ==> out != [] && Sound() && Amounts(text, rows[k]) && Lines(out) == Joined(prior, text, true)
      ensures ok ==> J().Carried(mapped[..], k + 1, 0, out, limit) && NotAfter(limit, Here(out))
      ensures ok ==> text == (if Shortened(rows[k]) then text0 + Copies(Filler(rows[k]), n) else text0)
                     && (Shortened(rows[k]) ==> Filled(out) == width) && Extends(old(out), out)
      ensures ok && !rows[k].Hard() ==> text == text0
      ensures |out| == |old(out)| && Budget() == old(Budget())
    {
      hide Lines, Packing, AllPaired, Snug, Job.Carried, Amounts, Joined, Extends, Spent, TextStop, Stored, Spare;
      ok, text, n := true, text0, 0;
      Refl(out);
      if rows[k].Hard() && TextStop(rows[k]) < Stored(rows[k]) {
        FillerSpare(rows[k]);
        ok, text, n := Fill(k, rows[k].cells[Stored(rows[k]) - 1].(link := 0), prior, text, limit);
      }
    }

    /** Row `k` has been packed after the rows `before`, with `n` fillers. */
    lemma RowEnded(before: seq<Row>, k: nat, n: nat)
      requires k < |rows| && rows[k].Hard() && Kept(before, rows, k) && out != [] && Tail(out).Hard()
      requires var text := SourceGlyphs(rows[k], ReachOf(given, rows[k], k));
               Lines(out) == Joined(Begun(Lines(before), GoesOn(rows, k)),
                                    if Shortened(rows[k]) then text + Copies(Filler(rows[k]), n) else text, true)
      requires Shortened(rows[k]) ==> Filled(out) == width
      ensures EndsAt(out, rows, given, width, k, |out| - 1)
    {
      hide Lines, SourceGlyphs, ReachOf, Shortened, Filler, Joined, EndsAt, Normal, Copies;
      SameNonempty(Lines(before), Lines(rows[..k]));
      RowEnds(out, rows, given, width, k, Begun(Lines(before), GoesOn(rows, k)), n);
    }

    /** Pack row `k`. */
    method PackRow(k: nat, ghost limit0: Spot) returns (ok: bool, ghost limit: Spot)
      requires k < |rows| && Between(k, limit0)
      modifies `out, `allocations, mapped
      ensures !ok ==> allocations == 0 && Spent(out) < 2 * (|old(out)| + 1 + ReachOf(given, rows[k], k))
      ensures ok ==> Between(k + 1, limit) && |out| <= |old(out)| + 1 + ReachOf(given, rows[k], k)
      ensures ok ==> var m := Closed(old(out), rows, k); 0 <= m < |out| && old(out)[..m] == out[..m]
      ensures ok && rows[k].Hard() ==> EndsAt(out, rows, given, width, k, |out| - 1)
      ensures Budget() == old(Budget())
    {
      hide Lines, Packing, AllPaired, Snug, Job.Carried, Amounts, Joined, TextStop, Stored, SourceGlyphs, Kept,
           SameText, SameAnchors, ReachOf, SourceAddress, PlaceAddress, AddressOf, PlacedRest, Spent, Extends,
           Shortened, Filler, EndsAt;
      ghost var before := out;
      limit := limit0;
      ok := BeginRow(k, limit);
      if !ok { return; }
      ghost var begun := out;
      ghost var prior := Begun(Lines(before), GoesOn(rows, k));
      var end;
      ok, end, limit := PackCells(k, prior, limit);
      if !ok { return; }
      ghost var text := SourceGlyphs(rows[k], end);
      SourceAmounts(rows[k], end);
      if !rows[k].Hard() { SourceWhole(rows[k]); SoftStop(rows[k]); }
      PlaceRest(k, end, prior, limit);
      limit := Here(out);
      ghost var n, packed := 0, out;
      ok, text, n := FillEnd(k, prior, text, limit);
      if !ok { return; }
      ExtendsTrans(begun, packed, out);
      ClosedStays(before, begun, out, rows, k);
      OpenTail(out, width);
      if rows[k].Hard() { RowEnded(before, k, n); }
      RowKept(before, rows, k, out, text);
      SomeKept(out, rows, k + 1);
    }

    /** Pack all rows. */
    method PackAll() returns (ok: bool)
      requires out == [] && width > 0 && SameAnchors(given, mapped[..])
               && forall i | 0 <= i < mapped.Length :: mapped[i].place == None
      modifies `out, `allocations, mapped
      ensures !ok ==> allocations == 0 && Spent(out) < StorageEnough(given, rows)
      ensures ok ==> Repacked(rows, width, wide, out) && SameAnchors(given, mapped[..])
      ensures ok ==> exists limit :: J().Carried(mapped[..], |rows|, 0, out, limit)
      ensures ok ==> |out| <= RowsEnough(given, rows, |rows|) && AllEnd(out, rows, given, width, |rows|)
      ensures Budget() == old(Budget())
    {
      hide Lines, Packing, AllPaired, Snug, Job.Carried, SameText, Kept, Repacked, SameAnchors, Spent, ReachOf,
           AllEnd, EndsAt, Closed;
      ghost var limit := Spot(0, 0);
      NoneEnds(rows, given, width);
      NothingCarried(J(), mapped[..]);
      NothingKept(rows);
      var k := 0;
      while k < |rows|
        invariant 0 <= k <= |rows| && Between(k, limit)
        invariant |out| <= RowsEnough(given, rows, k) && Budget() == old(Budget())
        invariant AllEnd(out, rows, given, width, k)
      {
        EnoughGrows(given, rows, k + 1, |rows|);
        ghost var before := out;
        ok, limit := PackRow(k, limit);
        if !ok { return; }
        OneMoreEnds(before, out, rows, given, width, k);
        k := k + 1;
      }
      KeptAll(out, rows, width, wide);
      ok := true;
    }

    /** Whether every anchor has been placed: one on no row of the input has not. */
    method AllPlaced() returns (ok: bool)
      requires SameAnchors(given, mapped[..]) && exists limit :: J().Carried(mapped[..], |rows|, 0, out, limit)
      ensures ok ==> AllCarried(rows, width, wide, mapped[..], out)
      ensures ok ==> OnRows(mapped[..], |rows|)
      ensures !ok ==> !OnRows(mapped[..], |rows|)
    {
      hide Job.Carried, AllCarried, SameAnchors;
      ghost var limit :| J().Carried(mapped[..], |rows|, 0, out, limit);
      var i := 0;
      while i < mapped.Length
        invariant 0 <= i <= mapped.Length
        invariant forall j | 0 <= j < i :: mapped[j].line.Some? ==> mapped[j].place.Some?
      {
        if mapped[i].line.Some? && mapped[i].place == None {
          LeftBehind(J(), mapped[..], out, limit, i);
          assert mapped[..][i] in mapped[..];
          return false;
        }
        i := i + 1;
      }
      CarriedAll(J(), mapped[..], out, limit);
      PlacedOnRows(J(), mapped[..], out, limit);
      ok := true;
    }
  }

  lemma Refl(out: seq<Row>)
    ensures Extends(out, out)
  {
  }

  lemma SoftStop(row: Row)
    requires !row.Hard()
    ensures TextStop(row) == Stored(row)
  {
  }

  lemma SomeKept(out: seq<Row>, rows: seq<Row>, k: nat)
    requires k <= |rows| && Kept(out, rows, k)
    ensures k > 0 ==> out != []
  {
  }

  /** A blank added to the open row. */
  lemma BlankAdded(out: seq<Row>, c: Cell, width: nat, wide: CodePoint -> bool)
    requires out != [] && Packing(out, width) && Filled(out) < width && Spare(c)
    ensures var more := AddCell(out, c);
            && Packing(more, width) && Extends(out, more) && NotAfter(Here(out), Here(more))
            && Filled(more) == Filled(out) + 1
            && Lines(more) == Joined(Lines(out), [c], true)
            && (AllPaired(out, wide) && !wide(BLANK) && !wide(WIDE_CONT) ==> AllPaired(more, wide))
            && (Snug(out, wide) ==> Snug(more, wide))
  {
    hide Lines, Paired, Joined, Snug;
    AddCellLines(out, c, width);
    assert Tail(out) in out;
    if Snug(out, wide) { TailSnug(out, Tail(out).(cells := Tail(out).cells + [c]), wide); }
    if AllPaired(out, wide) && !wide(BLANK) && !wide(WIDE_CONT) {
      assert Tail(out) in out;
      PairedGlyph(Tail(out).cells, c, wide);
      PairedTail(out, Tail(out).(cells := Tail(out).cells + [c]), wide);
    }
  }

  /** The result of repacking `rows`: tidy rows with the same text, wide glyphs whole. */
  ghost predicate Repacked(rows: seq<Row>, width: nat, wide: CodePoint -> bool, out: seq<Row>) {
    && SameText(Lines(out), Lines(rows)) && (rows == [] <==> out == [])
    && (forall row <- out :: TidyRow(row, width)) && (out != [] ==> out[|out| - 1].Hard())
    && (width > 1 && !wide(BLANK) && !wide(WIDE_CONT) ==> AllPaired(out, wide)) && Snug(out, wide)
  }

  /** Every anchor that is on a row is on one of the first `n`. */
  predicate OnRows(anchors: seq<Anchor>, n: nat) {
    forall i | 0 <= i < |anchors| :: anchors[i].line.Some? ==> anchors[i].line.value < n
  }

  lemma PlacedOnRows(j: Job, m: seq<Anchor>, out: seq<Row>, limit: Spot)
    requires j.Carried(m, |j.rows|, 0, out, limit)
    requires forall i | 0 <= i < |m| :: m[i].line.Some? ==> m[i].place.Some?
    ensures OnRows(m, |j.rows|)
  {
    forall i | 0 <= i < |m| ensures m[i].line.Some? ==> m[i].line.value < |j.rows| {
      assert j.Sent(m[i], |j.rows|, 0, out, limit);
    }
  }

  /** Repack rows to a width. Nothing is changed when it fails, which is when a width or the number of anchors is out of
      range, an anchor is on none of the rows, or storage runs out: what is enough does not depend on the width. */
  method Repack(rows: seq<Row>, width: nat, wide: CodePoint -> bool, anchors: array<Anchor>, allocations: nat)
    returns (ok: bool, out: seq<Row>, left: nat)
    modifies anchors
    ensures ok ==> Repacked(rows, width, wide, out) && AllCarried(rows, width, wide, anchors[..], out)
    ensures SameAnchors(old(anchors[..]), anchors[..]) && (!ok ==> anchors[..] == old(anchors[..]))
    ensures ok ==> 0 < width <= WIDTH_MAX && anchors.Length <= ANCHORS_MAX
    ensures ok ==> OnRows(old(anchors[..]), |rows|)
    ensures 0 < width <= WIDTH_MAX && anchors.Length <= ANCHORS_MAX && OnRows(old(anchors[..]), |rows|)
            && allocations >= StorageEnough(old(anchors[..]), rows) ==>
            ok
    ensures ok ==> AllEnd(out, rows, old(anchors[..]), width, |rows|)
    ensures ok ==> left + Spent(out) == allocations && |out| <= RowsEnough(old(anchors[..]), rows, |rows|)
  {
    assert Spent([]) == 0;
    hide Lines, Packing, AllPaired, Snug, Job.Carried, SameText, Kept, Repacked, AllCarried, Builder.Between, Spent,
         AllEnd;
    out, left := [], allocations;
    if width == 0 || width > WIDTH_MAX || anchors.Length > ANCHORS_MAX { return false, out, left; }
    var b := new Builder(rows, width, wide, anchors[..], allocations);
    ok := b.PackAll();
    left := b.allocations;
    if !ok { return; }
    OnSameRows(anchors[..], b.mapped[..], |rows|);
    ok := b.AllPlaced();
    if !ok { return; }
    CopyAnchors(b.mapped, anchors);
    out := b.out;
  }

  /** Hand the places back to the caller. */
  method CopyAnchors(from: array<Anchor>, to: array<Anchor>)
    requires from != to && from.Length == to.Length
    modifies to
    ensures to[..] == from[..]
  {
    var i := 0;
    while i < to.Length
      invariant 0 <= i <= to.Length && from[..] == old(from[..])
      invariant forall j | 0 <= j < i :: to[j] == from[j]
    {
      to[i] := from[i];
      i := i + 1;
    }
  }

  lemma OnSameRows(a: seq<Anchor>, b: seq<Anchor>, n: nat)
    requires SameAnchors(a, b)
    ensures OnRows(a, n) <==> OnRows(b, n)
  {
    forall i | 0 <= i < |a| ensures a[i].line == b[i].line {
      assert a[i].(place := None) == b[i].(place := None);
    }
  }

  lemma NothingKept(rows: seq<Row>)
    ensures Kept([], rows, 0) && forall wide :: Snug([], wide)
  {
  }

  lemma KeptAll(out: seq<Row>, rows: seq<Row>, width: nat, wide: CodePoint -> bool)
    requires Kept(out, rows, |rows|) && Snug(out, wide)
    requires out != [] ==>
             Packing(out, width) && (width > 1 && !wide(BLANK) && !wide(WIDE_CONT) ==> AllPaired(out, wide))
    ensures Repacked(rows, width, wide, out)
  {
    assert rows[..|rows|] == rows;
    hide Lines, SameText, TidyRow, Paired;
  }

  /** Repacked again, to whatever width, the text is still that of the first rows. */
  lemma TwiceKeepsText(rows: seq<Row>, w1: nat, w2: nat, wide: CodePoint -> bool, once: seq<Row>, twice: seq<Row>)
    requires Repacked(rows, w1, wide, once) && Repacked(once, w2, wide, twice)
    ensures SameText(Lines(twice), Lines(rows))
  {
    hide Lines, Normal;
  }
}
