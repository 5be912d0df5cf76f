/** Inserting and deleting rows of a region by exchanging the contents of rows that stay where they are. */
module LineEdit {
  import opened Common
  import opened Rows

  /** A region of rows, and the end that rows move away from. */
  datatype Region = Region(first: nat, last: nat, insert: bool)
  {
    predicate In(n: nat) {
      first <= last < n
    }

    function Height(): nat
      requires first <= last
    {
      last - first + 1
    }

    /** The `k`-th row of the region, counted from the end that is filled first. */
    function At(k: nat): nat
      requires first <= last && k < Height()
    {
      if insert then last - k else first + k
    }

    /** The rows of the region in that order. */
    function View<T>(rows: seq<T>): (v: seq<T>)
      requires In(|rows|)
      ensures |v| == Height()
    {
      seq(Height(), k requires 0 <= k < Height() => rows[At(k)])
    }

    /** Which row of the region is the `k`-th. */
    function Index(i: nat): nat
      requires first <= i <= last
    {
      if insert then last - i else i - first
    }

    /** Where the contents of row `i` come from when `count` blank rows come in at the open end; a blank row is new. */
    function Origin(i: nat, count: nat): Option<nat>
      requires first <= last
    {
      if i < first || i > last then Some(i)
      else if Index(i) + count < Height() then Some(At(Index(i) + count))
      else None
    }

    /** Rows `i` and `i + 1` have moved together, or both lie on one side of the region. */
    predicate Together(i: nat, count: nat)
      requires first <= last
    {
      || i + 1 < first || i > last
      || (first <= i < last && Origin(i, count).Some? && Origin(i + 1, count).Some?)
    }
  }

  function Unwrapped(r: Row): Row {
    r.(wrapColumns := 0, wrapPadding := 0)
  }

  /** The rows after `count` blank rows came in at the open end: the others have moved by as many places. */
  function Shifted<T>(rows: seq<T>, g: Region, count: nat, blank: T): (r: seq<T>)
    requires g.In(|rows|) && count <= g.Height()
    ensures |r| == |rows|
  {
    seq(|rows|, i requires 0 <= i < |rows| => if g.Origin(i, count).Some? then rows[g.Origin(i, count).value]
        else blank)
  }

  /** The rows with the wraps cut before the region, and where rows that were apart have come together. */
  function Severed(rows: seq<Row>, g: Region, count: nat): (r: seq<Row>)
    requires g.In(|rows|)
    ensures |r| == |rows|
  {
    seq(|rows|, i requires 0 <= i < |rows| =>
      if i + 1 == g.first || i + (if g.insert then 0 else count) == g.last then Unwrapped(rows[i]) else rows[i])
  }

  /** A row goes on in the next exactly when the two have moved together or lie on one side of the region, and come from
      a row that went on and the one after it. */
  lemma JoinsKept(rows: seq<Row>, g: Region, count: nat, blank: Row, i: nat)
    requires g.In(|rows|) && count <= g.Height() && blank.Hard() && i + 1 < |rows|
    ensures var r := Severed(Shifted(rows, g, count, blank), g, count);
            && (!r[i].Hard() <==> g.Together(i, count) && !rows[g.Origin(i, count).value].Hard())
            && (g.Together(i, count) ==>
                  && g.Origin(i + 1, count) == Some(g.Origin(i, count).value + 1)
                  && r[i] == rows[g.Origin(i, count).value])
  {
  }

  /** Exchange the contents of two rows. */
  method Swap(rows: array<Row>, i: nat, j: nat)
    requires i < rows.Length && j < rows.Length
    modifies rows
    ensures rows[..] == old(rows[..])[i := old(rows[j])][j := old(rows[i])]
  {
    rows[i], rows[j] := rows[j], rows[i];
  }

  lemma ViewSwap<T>(g: Region, rows: seq<T>, k: nat, l: nat)
    requires g.In(|rows|) && k < g.Height() && l < g.Height()
    ensures var v := g.View(rows);
            g.View(rows[g.At(k) := rows[g.At(l)]][g.At(l) := rows[g.At(k)]]) == v[k := v[l]][l := v[k]]
  {
  }

  /** What `m` exchanges have made of the rows of the region: the first `m` are in place, those not yet reached are
      untouched, and the discarded ones lie between. */
  ghost predicate Rotating<T>(v: seq<T>, v0: seq<T>, m: nat, count: nat) {
    InPlace(v, v0, m, count) && multiset(v[m..m + count]) == multiset(v0[..count])
  }

  ghost predicate InPlace<T>(v: seq<T>, v0: seq<T>, m: nat, count: nat) {
    && |v| == |v0| && m + count <= |v|
    && (forall k | 0 <= k < m :: v[k] == v0[k + count]) && (forall k | m + count <= k < |v| :: v[k] == v0[k])
  }

  lemma InPlaceOnce<T>(v: seq<T>, v0: seq<T>, m: nat, count: nat)
    requires InPlace(v, v0, m, count) && m + count < |v|
    ensures InPlace(v[m := v[m + count]][m + count := v[m]], v0, m + 1, count)
  {
  }

  /** A window moves on by one place, taking along the row it leaves. */
  lemma WindowMoves<T>(v: seq<T>, m: nat, count: nat)
    requires 0 < count && m + count < |v|
    ensures var w := v[m := v[m + count]][m + count := v[m]];
            multiset(w[m + 1..m + 1 + count]) == multiset(v[m..m + count])
  {
    var w, rest := v[m := v[m + count]][m + count := v[m]], v[m + 1..m + count];
    assert v[m..m + count] == [v[m]] + rest;
    assert w[m + 1..m + 1 + count] == rest + [v[m]];
  }

  lemma RotateOnce<T>(v: seq<T>, v0: seq<T>, m: nat, count: nat)
    requires Rotating(v, v0, m, count) && m + count < |v|
    ensures Rotating(v[m := v[m + count]][m + count := v[m]], v0, m + 1, count)
  {
    InPlaceOnce(v, v0, m, count);
    var w := v[m := v[m + count]][m + count := v[m]];
    if count > 0 { WindowMoves(v, m, count); } else { assert w[m + 1..m + 1] == v[m..m] == []; }
  }

  lemma NothingRotated<T>(v0: seq<T>, count: nat)
    requires count <= |v0|
    ensures Rotating(v0, v0, 0, count)
  {
  }

  /** Move the rows of a region by `count` places: contents are exchanged pairwise, so none is lost or doubled. */
  method Rotate(rows: array<Row>, g: Region, count: nat)
    requires g.In(rows.Length) && count <= g.Height()
    modifies rows
    ensures Rotating(g.View(rows[..]), g.View(old(rows[..])), g.Height() - count, count)
    ensures forall i | 0 <= i < rows.Length && (i < g.first || i > g.last) :: rows[i] == old(rows[i])
  {
    hide Rotating, Region.View;
    ghost var v0 := g.View(rows[..]);
    var m := 0;
    NothingRotated(v0, count);
    while m + count < g.Height()
      invariant 0 <= m && m + count <= g.Height() && Rotating(g.View(rows[..]), v0, m, count)
      invariant forall i | 0 <= i < rows.Length && (i < g.first || i > g.last) :: rows[i] == old(rows[i])
    {
      RotateOnce(g.View(rows[..]), v0, m, count);
      ViewSwap(g, rows[..], m, m + count);
      Swap(rows, g.At(m), g.At(m + count));
      m := m + 1;
    }
  }

  /** Exchange the discarded rows, which are the last of the region, for blank ones. */
  method Refill(rows: array<Row>, g: Region, count: nat, spare: array<Row>, blank: Row)
    requires g.In(rows.Length) && count <= g.Height() && spare.Length == count && spare != rows
    requires forall k | 0 <= k < count :: spare[k] == blank
    modifies rows, spare
    ensures spare[..] == g.View(old(rows[..]))[g.Height() - count..]
    ensures forall i | 0 <= i < rows.Length ::
              rows[i] == if g.first <= i <= g.last && g.Index(i) >= g.Height() - count then blank else old(rows[i])
  {
    var m, start := 0, g.Height() - count;
    while m < count
      invariant 0 <= m <= count
      invariant forall k | 0 <= k < m :: spare[k] == old(rows[g.At(start + k)])
      invariant forall k | m <= k < count :: spare[k] == blank
      invariant forall i | 0 <= i < rows.Length ::
                  rows[i] == if g.first <= i <= g.last && start <= g.Index(i) < start + m then blank else old(rows[i])
    {
      var i := g.At(start + m);
      rows[i], spare[m] := spare[m], rows[i];
      m := m + 1;
    }
  }

  /** Insert or delete `count` rows of a region. The blank rows are allocated before any row is touched, so that failure
      changes nothing; the contents they are exchanged for are the ones to dispose of. */
  method EditLines(rows: array<Row>, g: Region, count: nat, blank: Row, storage: bool)
      returns (ok: bool, spare: array<Row>)
    requires g.In(rows.Length) && count <= g.Height()
    modifies rows
    ensures ok == storage && (!ok ==> rows[..] == old(rows[..]))
    ensures ok ==> rows[..] == Severed(Shifted(old(rows[..]), g, count, blank), g, count)
    ensures ok ==> multiset(spare[..]) == multiset(g.View(old(rows[..]))[..count])
  {
    spare := new Row[if storage then count else 0](_ => blank);
    if !storage { return false, spare; }
    ghost var was := rows[..];
    Rotate(rows, g, count);
    ghost var mid := rows[..];
    Refill(rows, g, count, spare, blank);
    RefilledIs(was, mid, rows[..], g, count, blank);
    hide Shifted, Severed, Rotating, Region.View;
    Sever(rows, g, count);
    ok := true;
  }

  /** Cut the wraps across the edges of the rows that moved. */
  method Sever(rows: array<Row>, g: Region, count: nat)
    requires g.In(rows.Length) && count <= g.Height()
    modifies rows
    ensures rows[..] == Severed(old(rows[..]), g, count)
  {
    if g.first > 0 { rows[g.first - 1] := Unwrapped(rows[g.first - 1]); }
    var cut: int := if g.insert then g.last else g.last - count;
    if cut >= 0 { rows[cut] := Unwrapped(rows[cut]); }
  }

  /** The rows in place and the blank ones make up the shifted rows. */
  lemma RefilledIs<T>(was: seq<T>, mid: seq<T>, now: seq<T>, g: Region, count: nat, blank: T)
    requires g.In(|was|) && |mid| == |now| == |was| && count <= g.Height()
    requires Rotating(g.View(mid), g.View(was), g.Height() - count, count)
    requires forall i | 0 <= i < |was| && (i < g.first || i > g.last) :: mid[i] == was[i]
    requires forall i | 0 <= i < |was| ::
             now[i] == if g.first <= i <= g.last && g.Index(i) >= g.Height() - count then blank else mid[i]
    ensures now == Shifted(was, g, count, blank)
    ensures multiset(g.View(mid)[g.Height() - count..]) == multiset(g.View(was)[..count])
  {
    var v := g.View(mid);
    assert v[g.Height() - count..] == v[g.Height() - count..g.Height() - count + count];
    forall i | g.first <= i <= g.last && g.Index(i) + count < g.Height()
      ensures mid[i] == was[g.At(g.Index(i) + count)]
    {
      assert v[g.Index(i)] == mid[i] && v[g.Index(i)] == g.View(was)[g.Index(i) + count];
    }
  }
}
