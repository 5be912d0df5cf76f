/** Positions that are carried along when rows are repacked: which glyph of which logical line each stands at. */
module ReflowAnchors {
  import opened Common
  import opened Rows
  import opened ReflowText

  /** A position to be carried along: a row and column of the input, whether it keeps its distance past the end
      of the text, and where it has been placed. */
  datatype Anchor = Anchor(line: Option<nat>, column: nat, extend: bool, place: Option<Spot>)

  predicate On(a: Anchor, k: nat) {
    a.line == Some(k)
  }

  /** The anchor lies before column `x` of row `k`. */
  predicate Passed(a: Anchor, k: nat, x: nat) {
    a.line.Some? && (a.line.value < k || (a.line.value == k && a.column < x))
  }

  /** Anchor `a` lies no later than `b` in the input. */
  predicate NoLater(a: Anchor, b: Anchor) {
    a.line.Some? && b.line.Some? && NotAfter(Spot(a.line.value, a.column), Spot(b.line.value, b.column))
  }

  /** The anchor stands on a cell of the input that is kept. */
  predicate OnGlyph(rows: seq<Row>, a: Anchor) {
    && a.line.Some? && a.line.value < |rows| && a.column < TextStop(rows[a.line.value])
    && rows[a.line.value].cells[a.column].cp != WIDE_CONT
  }

  predicate PointsAt(out: seq<Row>, at: Spot, c: Cell) {
    at.row < |out| && at.column < |out[at.row].cells| && out[at.row].cells[at.column] == c
  }

  /** The place lies in the rows packed, at a cell or right after the last one. */
  predicate Within(out: seq<Row>, at: Spot) {
    at.row < |out| && at.column <= |out[at.row].cells|
  }

  /** The anchors are the same but for their places. */
  predicate SameAnchors(a: seq<Anchor>, b: seq<Anchor>) {
    |a| == |b| && forall i | 0 <= i < |a| :: a[i].(place := None) == b[i].(place := None)
  }

  // ----- Addresses -----

  /** A logical line, and how many of its glyphs come before a place. */
  datatype Address = Address(line: nat, index: nat)

  function AddressOf(lines: seq<seq<Cell>>): Address
    requires lines != []
  {
    Address(|lines| - 1, |lines[|lines| - 1]|)
  }

  predicate GoesOn(rows: seq<Row>, k: nat)
    requires k <= |rows|
  {
    k > 0 && !rows[k - 1].Hard()
  }

  /** The address of column `x` of a row of the input. */
  function SourceAddress(rows: seq<Row>, k: nat, x: nat): Address
    requires k < |rows|
  {
    AddressOf(Joined(Lines(rows[..k]), SourceGlyphs(rows[k], x), GoesOn(rows, k)))
  }

  /** The address of a place in packed rows. */
  function PlaceAddress(out: seq<Row>, at: Spot): Address
    requires Within(out, at)
  {
    AddressOf(Joined(Lines(out[..at.row]), Glyphs(out[at.row].cells[..at.column]), GoesOn(out, at.row)))
  }

  lemma AddressMore(lines: seq<seq<Cell>>, g: seq<Cell>)
    requires lines != []
    ensures var a := AddressOf(lines); AddressOf(Joined(lines, g, true)) == Address(a.line, a.index + |g|)
  {
  }

  lemma SourceAddressIs(rows: seq<Row>, k: nat, x: nat)
    requires k < |rows|
    ensures var a := SourceAddress(rows, k, 0);
            SourceAddress(rows, k, x) == Address(a.line, a.index + |SourceGlyphs(rows[k], x)|)
  {
    hide Lines;
    var l := Lines(rows[..k]);
    if GoesOn(rows, k) && l != [] { assert l[|l| - 1] + [] == l[|l| - 1]; }
  }

  /** The address of the place where the next glyph goes is the end of the text packed so far. */
  lemma HereAddress(out: seq<Row>)
    requires out != [] && Tail(out).Hard()
    ensures Within(out, Here(out)) && PlaceAddress(out, Here(out)) == AddressOf(Lines(out))
  {
    hide Lines, Glyphs, RowGlyphs;
    var n := |out| - 1;
    assert out == out[..n] + [out[n]] && out[n].cells[..|out[n].cells|] == out[n].cells;
    LinesSnoc(out[..n], out[n]);
    OpenGlyphs(out[n]);
  }

  /** Packing more does not change the address of a place. */
  lemma AddressStays(out: seq<Row>, more: seq<Row>, at: Spot)
    requires Extends(out, more) && Within(out, at)
    ensures Within(more, at) && PlaceAddress(more, at) == PlaceAddress(out, at)
  {
    assert out[at.row].cells <= more[at.row].cells;
    assert out[at.row].cells[..at.column] == more[at.row].cells[..at.column];
    assert out[..at.row] == more[..at.row];
  }

  /** The place after a glyph has the next address. */
  lemma NextAddress(out: seq<Row>, at: Spot)
    requires Within(out, at) && at.column < |out[at.row].cells| && out[at.row].cells[at.column].cp != WIDE_CONT
    ensures var a, next := PlaceAddress(out, at), Spot(at.row, at.column + 1);
            Within(out, next) && PlaceAddress(out, next) == Address(a.line, a.index + 1)
  {
    hide Lines;
    var cells := out[at.row].cells;
    assert cells[..at.column + 1] == cells[..at.column] + [cells[at.column]];
    GlyphsSnoc(cells[..at.column], cells[at.column]);
  }

  // ----- Where anchors are to go -----

  /** The furthest column of row `k` that an anchor keeps open past `end`. */
  function Furthest(m: seq<Anchor>, k: nat, end: nat): (n: nat)
    ensures end <= n
  {
    if m == [] then end
    else
      var n, a := Furthest(m[..|m| - 1], k, end), m[|m| - 1];
      if On(a, k) && a.extend && a.column > n then a.column else n
  }

  /** How far a row reaches: to the end of its text or, on a hard row, to the last anchor that keeps its distance past
      it. */
  function ReachOf(m: seq<Anchor>, row: Row, k: nat): (n: nat)
    ensures TextStop(row) <= n && (!row.Hard() ==> n == TextStop(row))
  {
    if row.Hard() then Furthest(m, k, TextStop(row)) else TextStop(row)
  }

  lemma {:induction false} FurthestSame(a: seq<Anchor>, b: seq<Anchor>, k: nat, end: nat)
    requires SameAnchors(a, b)
    ensures Furthest(a, k, end) == Furthest(b, k, end)
    decreases |a|
  {
    if a != [] {
      var n := |a| - 1;
      assert a[n].(place := None) == b[n].(place := None);
      FurthestSame(a[..n], b[..n], k, end);
    }
  }

  lemma FurthestNext(m: seq<Anchor>, i: nat, k: nat, end: nat)
    requires i < |m|
    ensures Furthest(m[..0], k, end) == end
    ensures var n := Furthest(m[..i], k, end);
            Furthest(m[..i + 1], k, end) == if On(m[i], k) && m[i].extend && m[i].column > n then m[i].column else n
  {
    assert m[..i + 1][..i] == m[..i];
  }

  lemma SameTrans(a: seq<Anchor>, b: seq<Anchor>, c: seq<Anchor>)
    requires SameAnchors(a, b) && SameAnchors(b, c)
    ensures SameAnchors(a, c)
  {
  }

  /** What is repacked, and with which anchors. */
  datatype Job = Job(rows: seq<Row>, given: seq<Anchor>, width: nat, wide: CodePoint -> bool)
  {
    /** Column `x` holds the second half of a wide glyph, and the column before it the first. */
    predicate Second(k: nat, x: nat)
      requires k < |rows|
    {
      var row := rows[k];
      0 < x < Stored(row) && row.cells[x].cp == WIDE_CONT && row.cells[x - 1].cp != WIDE_CONT
        && wide(row.cells[x - 1].cp)
    }

    /** The column whose glyph stands for column `x`: in one column a wide glyph has no second half to stand on. */
    function Home(k: nat, x: nat): nat
      requires k < |rows|
    {
      if width == 1 && Second(k, x) then x - 1 else x
    }

    /** The address an anchor is to have: that of its own column or, past where its row reaches, of the end. */
    function Goal(a: Anchor): Address
      requires a.line.Some? && a.line.value < |rows|
    {
      var k := a.line.value;
      SourceAddress(rows, k, Home(k, Min(a.column, ReachOf(given, rows[k], k))))
    }

    /** The anchor has been placed at the glyph it stood at. */
    ghost predicate Lands(a: Anchor, out: seq<Row>) {
      && a.line.Some? && a.line.value < |rows| && a.place.Some?
      && Within(out, a.place.value) && PlaceAddress(out, a.place.value) == Goal(a)
      && (OnGlyph(rows, a) ==> PointsAt(out, a.place.value, rows[a.line.value].cells[a.column]))
    }

    /** The anchor has been placed, no later than `limit`, if it has been passed. */
    ghost predicate Sent(a: Anchor, k: nat, x: nat, out: seq<Row>, limit: Spot) {
      if Passed(a, k, x) then Lands(a, out) && NotAfter(a.place.value, limit) else a.place == None
    }

    /** The anchors passed so far have been placed, in order and no later than `limit`, each at the glyph it stood
        at. */
    ghost predicate Carried(m: seq<Anchor>, k: nat, x: nat, out: seq<Row>, limit: Spot) {
      (forall i | 0 <= i < |m| :: Sent(m[i], k, x, out, limit)) && InOrder(m)
    }
  }

  /** Places are in the order of the positions they come from. */
  predicate InOrder(m: seq<Anchor>) {
    forall i, j | 0 <= i < |m| && 0 <= j < |m| && m[i].place.Some? && m[j].place.Some? && NoLater(m[i], m[j]) ::
      NotAfter(m[i].place.value, m[j].place.value)
  }

  /** The anchors with those that lie at column `x` of row `k` placed. */
  function Placed(m: seq<Anchor>, k: nat, x: nat, at: Spot): (r: seq<Anchor>)
    ensures |r| == |m| && forall i | 0 <= i < |m| ::
              r[i] == if On(m[i], k) && m[i].column == x then m[i].(place := Some(at)) else m[i]
  {
    seq(|m|, i requires 0 <= i < |m| => if On(m[i], k) && m[i].column == x then m[i].(place := Some(at)) else m[i])
  }

  /** The anchors with those of row `k` that have no place yet placed. */
  function PlacedRest(m: seq<Anchor>, k: nat, at: Spot): (r: seq<Anchor>)
    ensures |r| == |m| && forall i | 0 <= i < |m| ::
              r[i] == if On(m[i], k) && m[i].place == None then m[i].(place := Some(at)) else m[i]
  {
    seq(|m|, i requires 0 <= i < |m| => if On(m[i], k) && m[i].place == None then m[i].(place := Some(at)) else m[i])
  }

  lemma LandsStill(j: Job, a: Anchor, out: seq<Row>, more: seq<Row>)
    requires j.Lands(a, out) && Extends(out, more)
    ensures j.Lands(a, more)
  {
    hide PlaceAddress, Job.Goal, OnGlyph;
    AddressStays(out, more, a.place.value);
    assert out[a.place.value.row].cells <= more[a.place.value.row].cells;
  }

  lemma CarriedExtends(j: Job, m: seq<Anchor>, k: nat, x: nat, out: seq<Row>, limit: Spot, more: seq<Row>, limit': Spot)
    requires j.Carried(m, k, x, out, limit) && Extends(out, more) && NotAfter(limit, limit')
    ensures j.Carried(m, k, x, more, limit')
  {
    hide Job.Lands, Extends, InOrder, Passed;
    forall i | 0 <= i < |m|
      ensures j.Sent(m[i], k, x, more, limit')
    {
      assert j.Sent(m[i], k, x, out, limit);
      if Passed(m[i], k, x) { LandsStill(j, m[i], out, more); }
    }
  }

  /** Anchors that have not been passed are placed together, after all that have. */
  lemma OrderKept(m: seq<Anchor>, r: seq<Anchor>, k: nat, x: nat, limit: Spot, at: Spot)
    requires InOrder(m) && NotAfter(limit, at) && |r| == |m|
    requires forall i | 0 <= i < |m| && m[i].place.Some? :: Passed(m[i], k, x) && NotAfter(m[i].place.value, limit)
    requires forall i | 0 <= i < |m| :: r[i] == m[i] || (!Passed(m[i], k, x) && r[i] == m[i].(place := Some(at)))
    ensures InOrder(r)
  {
  }

  lemma SentPlaced(j: Job, m: seq<Anchor>, k: nat, x: nat, out: seq<Row>, limit: Spot)
    requires j.Carried(m, k, x, out, limit)
    ensures forall i | 0 <= i < |m| && m[i].place.Some? :: Passed(m[i], k, x) && NotAfter(m[i].place.value, limit)
  {
    hide Job.Lands, InOrder, Passed;
    assert forall i | 0 <= i < |m| :: j.Sent(m[i], k, x, out, limit);
  }

  /** A place that column `x` of row `k` may be given. */
  ghost predicate Fitting(j: Job, k: nat, x: nat, more: seq<Row>, at: Spot)
    requires k < |j.rows|
  {
    && Within(more, at) && PlaceAddress(more, at) == SourceAddress(j.rows, k, j.Home(k, x))
    && (x < TextStop(j.rows[k]) && j.rows[k].cells[x].cp != WIDE_CONT ==> PointsAt(more, at, j.rows[k].cells[x]))
  }

  /** The column `x` of row `k` has been packed at `at`. */
  lemma CarriedOn(j: Job, m: seq<Anchor>, k: nat, x: nat, out: seq<Row>, limit: Spot, more: seq<Row>, at: Spot)
    requires j.Carried(m, k, x, out, limit) && Extends(out, more) && NotAfter(limit, at) && k < |j.rows|
    requires x < ReachOf(j.given, j.rows[k], k) && Fitting(j, k, x, more, at)
    ensures j.Carried(Placed(m, k, x, at), k, x + 1, more, at)
  {
    CarriedExtends(j, m, k, x, out, limit, more, at);
    var r := Placed(m, k, x, at);
    SentPlaced(j, m, k, x, more, at);
    hide Extends, Fitting, ReachOf, Job.Sent, InOrder;
    forall i | 0 <= i < |r|
      ensures j.Sent(r[i], k, x + 1, more, at)
    {
      assert j.Sent(m[i], k, x, more, at);
      SentOn(j, m[i], k, x, more, at);
    }
    OrderKept(m, r, k, x, at, at);
  }

  lemma SentOn(j: Job, a: Anchor, k: nat, x: nat, more: seq<Row>, at: Spot)
    requires k < |j.rows| && x < ReachOf(j.given, j.rows[k], k) && Fitting(j, k, x, more, at)
             && j.Sent(a, k, x, more, at)
    ensures j.Sent(if On(a, k) && a.column == x then a.(place := Some(at)) else a, k, x + 1, more, at)
  {
    hide PlaceAddress, SourceAddress, Job.Home, ReachOf, TextStop;
  }

  /** The row has been packed: the anchors left on it go to the end of its text. */
  lemma CarriedRow(j: Job, m: seq<Anchor>, k: nat, out: seq<Row>, limit: Spot, at: Spot)
    requires k < |j.rows| && j.Carried(m, k, ReachOf(j.given, j.rows[k], k), out, limit) && NotAfter(limit, at)
    requires Within(out, at) && PlaceAddress(out, at) == SourceAddress(j.rows, k, ReachOf(j.given, j.rows[k], k))
    ensures j.Carried(PlacedRest(m, k, at), k + 1, 0, out, at)
  {
    var x := ReachOf(j.given, j.rows[k], k);
    HomeAtEnd(j, k, x);
    SentPlaced(j, m, k, x, out, limit);
    hide ReachOf, Job.Sent, InOrder, PlaceAddress, SourceAddress, Job.Home;
    var r := PlacedRest(m, k, at);
    forall i | 0 <= i < |r|
      ensures j.Sent(r[i], k + 1, 0, out, at)
    {
      assert j.Sent(m[i], k, x, out, limit);
      SentRest(j, m[i], k, x, out, limit, at);
    }
    OrderKept(m, r, k, x, limit, at);
  }

  lemma SentRest(j: Job, a: Anchor, k: nat, x: nat, out: seq<Row>, limit: Spot, at: Spot)
    requires k < |j.rows| && x == ReachOf(j.given, j.rows[k], k) && j.Home(k, x) == x
    requires j.Sent(a, k, x, out, limit) && NotAfter(limit, at) && Within(out, at)
             && PlaceAddress(out, at) == SourceAddress(j.rows, k, x)
    ensures j.Sent(if On(a, k) && a.place == None then a.(place := Some(at)) else a, k + 1, 0, out, at)
  {
    hide PlaceAddress, SourceAddress, Job.Home, ReachOf, TextStop;
    assert TextStop(j.rows[k]) <= x;
  }

  lemma HomeAtEnd(j: Job, k: nat, x: nat)
    requires k < |j.rows| && TextStop(j.rows[k]) <= x
    ensures j.Home(k, x) == x
  {
    SpareTail(j.rows[k], x);
  }

  lemma NothingCarried(j: Job, m: seq<Anchor>)
    requires forall a <- m :: a.place == None
    ensures j.Carried(m, 0, 0, [], Spot(0, 0))
  {
  }

  /** Anchors carried along: in the same order, and each at the glyph of the logical line it stood at. */
  ghost predicate AllCarried(rows: seq<Row>, width: nat, wide: CodePoint -> bool, m: seq<Anchor>, out: seq<Row>) {
    InOrder(m) && forall i | 0 <= i < |m| ::
      if m[i].line.Some? then Job(rows, m, width, wide).Lands(m[i], out) else m[i].place == None
  }

  lemma LeftBehind(j: Job, m: seq<Anchor>, out: seq<Row>, limit: Spot, i: nat)
    requires j.Carried(m, |j.rows|, 0, out, limit) && i < |m| && m[i].line.Some? && m[i].place == None
    ensures m[i].line.value >= |j.rows|
  {
    assert j.Sent(m[i], |j.rows|, 0, out, limit);
  }

  lemma CarriedAll(j: Job, m: seq<Anchor>, out: seq<Row>, limit: Spot)
    requires j.Carried(m, |j.rows|, 0, out, limit) && SameAnchors(j.given, m)
    requires forall i | 0 <= i < |m| :: m[i].line.Some? ==> m[i].place.Some?
    ensures AllCarried(j.rows, j.width, j.wide, m, out)
  {
    hide InOrder, Extends;
    forall i | 0 <= i < |m|
      ensures if m[i].line.Some? then Job(j.rows, m, j.width, j.wide).Lands(m[i], out) else m[i].place == None
    {
      assert j.Sent(m[i], |j.rows|, 0, out, limit);
      if m[i].line.Some? { GoalSame(j, m, m[i], out); }
    }
  }

  lemma GoalSame(j: Job, m: seq<Anchor>, a: Anchor, out: seq<Row>)
    requires SameAnchors(j.given, m) && j.Lands(a, out)
    ensures j.(given := m).Lands(a, out)
  {
    hide PlaceAddress, SourceAddress, SameAnchors, OnGlyph, Stored;
    FurthestSame(j.given, m, a.line.value, TextStop(j.rows[a.line.value]));
  }
}
