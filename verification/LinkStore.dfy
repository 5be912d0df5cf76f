/** Everything that holds links: the rows, the cursors, and the pool that counts them. */
module LinkStore {
  import opened Common
  import opened Hyperlinks
  import opened LinkRows
  import opened LineEdit

  // ----- What several rows hold -----

  function Sum(c: seq<seq<Link>>): multiset<Link> {
    if c == [] then multiset{} else Sum(c[..|c| - 1]) + Holds(c[|c| - 1])
  }

  lemma {:induction false} SumUpdate(c: seq<seq<Link>>, i: nat, x: seq<Link>)
    requires i < |c|
    ensures Sum(c[i := x]) + Holds(c[i]) == Sum(c) + Holds(x)
    decreases |c|
  {
    hide Holds;
    var n := |c| - 1;
    if i < n {
      SumUpdate(c[..n], i, x);
      assert c[i := x][..n] == c[..n][i := x] && c[i := x][n] == c[n];
      Beside(Sum(c[..n][i := x]), Holds(c[i]), Sum(c[..n]), Holds(x), Holds(c[n]));
    } else {
      assert c[i := x][..n] == c[..n];
    }
  }

  lemma Beside(a: multiset<Link>, x: multiset<Link>, b: multiset<Link>, y: multiset<Link>, more: multiset<Link>)
    requires a + x == b + y
    ensures a + more + x == b + more + y
  {
    assert a + more + x == (a + x) + more && b + more + y == (b + y) + more;
  }

  lemma SumMore(c: seq<seq<Link>>, x: seq<Link>)
    ensures Sum(c + [x]) == Sum(c) + Holds(x)
  {
    assert (c + [x])[..|c|] == c;
  }

  lemma {:induction false} SumHas(c: seq<seq<Link>>, i: nat)
    requires i < |c|
    ensures Holds(c[i]) <= Sum(c)
    decreases |c|
  {
    hide Holds;
    if i < |c| - 1 { SumHas(c[..|c| - 1], i); }
  }

  lemma {:induction false} SumWithout(c: seq<seq<Link>>, i: nat)
    requires i < |c|
    ensures Sum(c[..i] + c[i + 1..]) + Holds(c[i]) == Sum(c)
    decreases |c|
  {
    hide Holds, Sum;
    var n := |c| - 1;
    assert c == c[..n] + [c[n]];
    SumMore(c[..n], c[n]);
    if i < n {
      var rest := c[..n][..i] + c[..n][i + 1..];
      SumWithout(c[..n], i);
      assert c[..i] + c[i + 1..] == rest + [c[n]];
      SumMore(rest, c[n]);
      Beside(Sum(rest), Holds(c[i]), Sum(c[..n]), multiset{}, Holds(c[n]));
    } else {
      assert c[..i] + c[i + 1..] == c[..n];
    }
  }

  lemma SumSwap(c: seq<seq<Link>>, i: nat, j: nat)
    requires i < |c| && j < |c|
    ensures Sum(c[i := c[j]][j := c[i]]) == Sum(c)
  {
    hide Holds, Sum;
    SumUpdate(c, i, c[j]);
    SumUpdate(c[i := c[j]], j, c[i]);
    assert c[i := c[j]][j] == c[j];
    Cancels(Sum(c[i := c[j]][j := c[i]]), Sum(c[i := c[j]]), Sum(c), Holds(c[i]), Holds(c[j]));
  }

  lemma Cancels(a: multiset<Link>, b: multiset<Link>, c: multiset<Link>, x: multiset<Link>, y: multiset<Link>)
    requires a + y == b + x && b + x == c + y
    ensures a == c
  {
    forall l: Link ensures a[l] == c[l] {
      assert (a + y)[l] == (b + x)[l] && (b + x)[l] == (c + y)[l];
    }
  }

  class Store {
    const pool: Pool
    /** The links of the current, the saved and the primary rendition. */
    const cursors: array<Link>
    var rows: seq<LinkRow>

    /** No two rows share storage. */
    ghost predicate Apart()
      reads this, rows
    {
      && (forall i, j | 0 <= i < j < |rows| ::
          rows[i] != rows[j] && (rows[i].links == null || rows[i].links != rows[j].links))
      && forall i | 0 <= i < |rows| :: rows[i].links != cursors
    }

    ghost function Arrays(): set<object>
      reads this, rows
    {
      set r <- rows | r.links != null :: r.links as object
    }

    /** The links each row holds. */
    ghost function Contents(): (c: seq<seq<Link>>)
      reads this, rows, Arrays()
      ensures |c| == |rows| && forall i | 0 <= i < |c| :: c[i] == rows[i].Stored()
    {
      seq(|rows|, i requires 0 <= i < |rows| reads this, rows, Arrays() => rows[i].Stored())
    }

    /** Every record is counted by just the cells and cursors that hold it. */
    ghost predicate Valid()
      reads this, pool, cursors, rows, Arrays()
    {
      && pool.Valid() && cursors.Length == 3 && Apart() && (forall i | 0 <= i < |rows| :: rows[i].Valid())
      && pool.held == Sum(Contents()) + Holds(cursors[..])
    }

    constructor (recordBytes: nat)
      ensures Valid() && rows == [] && cursors.Length == 3 && fresh(pool) && fresh(cursors)
    {
      pool := new Pool(recordBytes);
      cursors := new Link[3](_ => 0);
      rows := [];
      new;
      NoneHeld(cursors[..]);
    }

    /** One row has changed, and the pool with it. */
    twostate lemma Edited(i: nat)
      requires old(Valid()) && i < |rows| && rows == old(rows)
      requires pool.Valid() && Apart() && rows[i].Valid() && cursors.Length == 3 && cursors[..] == old(cursors[..])
      requires forall j | 0 <= j < |rows| && j != i :: rows[j].Valid() && rows[j].Stored() == old(rows[j].Stored())
      requires pool.held + Holds(old(rows[i].Stored())) == old(pool.held) + Holds(rows[i].Stored())
      ensures Valid() && Contents() == old(Contents())[i := rows[i].Stored()]
    {
      hide Pool.Valid, Holds, LinkRow.Valid, LinkRow.Stored;
      var c := old(Contents());
      SumUpdate(c, i, rows[i].Stored());
      assert Contents() == c[i := rows[i].Stored()];
      Balanced(pool.held, old(pool.held), Sum(c), Sum(Contents()), Holds(c[i]), Holds(rows[i].Stored()),
               Holds(cursors[..]));
    }

    /** What a row or the cursors hold is counted. */
    lemma HoldsCounted(i: nat)
      requires Valid() && i < |rows|
      ensures rows[i].Counted(pool)
    {
      hide Pool.Valid, Holds, LinkRow.Valid, LinkRow.Stored;
      SumHas(Contents(), i);
    }

    /** Set the link of some cells of a row. */
    method SetLinks(i: nat, start: nat, count: nat, link: Link, storage: bool) returns (ok: bool)
      requires Valid() && i < |rows| && (link == 0 || link in pool.table)
      modifies pool, rows[i], rows[i].links
      ensures Valid() && Contents() == old(Contents())[i := rows[i].Stored()] && rows[i].size == old(rows[i].size)
      ensures rows[i].links == old(rows[i].links) || fresh(rows[i].links)
      ensures if ok then start + count <= rows[i].size && forall k | 0 <= k < rows[i].size ::
                           rows[i].LinkAt(k) == if start <= k < start + count then link else old(rows[i].LinkAt(k))
              else Contents() == old(Contents()) && pool.held == old(pool.held)
      ensures ok == old(rows[i].CanSet(pool, start, count, link, storage))
    {
      hide Pool.Valid, Holds;
      HoldsCounted(i);
      ok := rows[i].SetLinks(pool, start, count, link, storage);
      Edited(i);
    }

    /** Change the size of a row. */
    method Resize(i: nat, newsize: nat, storage: bool)
      requires Valid() && i < |rows|
      modifies pool, rows[i], rows[i].links
      ensures Valid() && Contents() == old(Contents())[i := rows[i].Stored()]
      ensures rows[i].size ==
              if newsize <= old(rows[i].capacity) || (storage && old(rows[i].Grown(newsize)) <= CELLS_MAX) then newsize
              else old(rows[i].size)
      ensures (rows[i].links == null || rows[i].links == old(rows[i].links) || fresh(rows[i].links))
      ensures old(rows[i].links) == null ==> rows[i].links == null
      ensures forall k | 0 <= k < rows[i].size ::
              rows[i].LinkAt(k) == if k < old(rows[i].size) then old(rows[i].LinkAt(k)) else 0
    {
      hide Pool.Valid, Holds;
      HoldsCounted(i);
      rows[i].Resize(pool, newsize, storage);
      Edited(i);
    }

    /** Copy the links of some cells of a row over others, which they may overlap. */
    method CopyCells(i: nat, dst: nat, src: nat, count: nat) returns (ok: bool)
      requires Valid() && i < |rows| && rows[i].links != null && dst + count <= rows[i].size
               && src + count <= rows[i].size
      modifies pool, rows[i].links
      ensures Valid()
      ensures ok ==> var row := old(Contents())[i];
                     Contents() == old(Contents())[i := Overlaid(row, dst, row[src..src + count])]
      ensures !ok ==> Contents() == old(Contents())
      ensures ok == Holdable(old(pool.held), Holds(old(rows[i].links[src..src + count])))
    {
      hide Pool.Valid, Holds;
      HoldsCounted(i);
      ghost var was := rows[i].links[..];
      ok := pool.Copy(rows[i].links, dst, src, count);
      assert forall k | rows[i].size <= k < rows[i].capacity :: rows[i].links[..][k] == was[k];
      Edited(i);
    }

    /** Exchange what two rows hold. */
    method Swap(i: nat, j: nat)
      requires Valid() && i < |rows| && j < |rows|
      modifies rows[i], rows[j]
      ensures Valid() && Contents() == old(Contents())[i := old(Contents())[j]][j := old(Contents())[i]]
      ensures Arrays() == old(Arrays())
    {
      hide Pool.Valid, Holds, Sum, LinkRow.Valid, LinkRow.Stored, Apart;
      ghost var c := Contents();
      Exchange(i, j);
      assert Contents() == c[i := c[j]][j := c[i]];
      SumSwap(c, i, j);
    }

    method Exchange(i: nat, j: nat)
      requires Apart() && (forall k | 0 <= k < |rows| :: rows[k].Valid()) && i < |rows| && j < |rows|
      modifies rows[i], rows[j]
      ensures Apart() && (forall k | 0 <= k < |rows| :: rows[k].Valid())
      ensures Arrays() == old(Arrays())
      ensures forall k | 0 <= k < |rows| ::
                rows[k].Stored() == if k == j then old(rows[i].Stored()) else if k == i then old(rows[j].Stored())
                  else old(rows[k].Stored())
    {
      ghost var a := Arrays();
      SwapCells(rows[i], rows[j]);
      assert Arrays() == a;
    }

    /** A new row holds nothing. */
    method Append()
      requires Valid()
      modifies `rows
      ensures Valid() && Contents() == old(Contents()) + [[]] && |rows| == |old(rows)| + 1
              && rows[..|old(rows)|] == old(rows)
      ensures fresh(rows[|old(rows)|]) && rows[|old(rows)|].links == null
      ensures rows[|old(rows)|].capacity == rows[|old(rows)|].size == 0
    {
      hide Pool.Valid, Holds, Sum;
      ghost var c := Contents();
      var row := new LinkRow();
      assert forall k | 0 <= k < |rows| :: rows[k].Stored() == c[k];
      assert Contents() == c;
      Join(row);
      assert Contents() == c + [[]];
      SumMore(c, []);
      NoneHeld([]);
      assert Sum(c) + multiset{} == Sum(c);
    }

    method Join(row: LinkRow)
      requires Apart() && (forall k | 0 <= k < |rows| :: rows[k].Valid()) && row !in rows && row.Valid()
               && row.links == null
      modifies `rows
      ensures rows == old(rows) + [row] && Apart() && (forall k | 0 <= k < |rows| :: rows[k].Valid())
              && Contents() == old(Contents()) + [[]]
    {
      ghost var c := Contents();
      rows := rows + [row];
      assert Contents() == c + [[]];
    }

    /** Dispose of a row. */
    method Remove(i: nat)
      requires Valid() && i < |rows|
      modifies `rows, pool, rows[i], rows[i].links
      ensures Valid() && rows == old(rows)[..i] + old(rows)[i + 1..]
              && Contents() == old(Contents())[..i] + old(Contents())[i + 1..]
      ensures forall r <- rows :: r.links == old(r.links)
    {
      hide Pool.Valid, Holds, Sum, LinkRow.Counted;
      HoldsCounted(i);
      ghost var c, h := Contents(), pool.held;
      var row := rows[i];
      Part(i);
      SumWithout(c, i);
      ghost var rest := Contents();
      row.Dispose(pool);
      assert forall k | 0 <= k < |rows| :: rows[k].Stored() == rest[k];
      assert Contents() == rest;
      assert h + multiset{} == h && Sum(c) + multiset{} == Sum(c);
      Balanced(pool.held, h, Sum(c), Sum(Contents()), Holds(c[i]), multiset{}, Holds(cursors[..]));
    }

    method Part(i: nat)
      requires Apart() && (forall k | 0 <= k < |rows| :: rows[k].Valid()) && i < |rows|
      modifies `rows
      ensures rows == old(rows)[..i] + old(rows)[i + 1..] && Apart() && (forall k | 0 <= k < |rows| :: rows[k].Valid())
      ensures Contents() == old(Contents())[..i] + old(Contents())[i + 1..]
      ensures forall k | 0 <= k < |rows| ::
              rows[k] != old(rows[i]) && (old(rows[i].links) == null || rows[k].links != old(rows[i].links))
    {
      ghost var c, were := Contents(), rows;
      rows := rows[..i] + rows[i + 1..];
      hide LinkRow.Valid, LinkRow.Stored;
      assert forall a | 0 <= a < |rows| :: rows[a] == were[if a < i then a else a + 1];
      assert Contents() == c[..i] + c[i + 1..];
    }

    // ----- Cursors -----

    /** The cursors have changed, and the pool with them. */
    twostate lemma CursorsChanged()
      requires old(Valid()) && rows == old(rows) && pool.Valid() && Apart()
      requires forall j | 0 <= j < |rows| :: rows[j].Valid() && rows[j].Stored() == old(rows[j].Stored())
      requires pool.held + Holds(old(cursors[..])) == old(pool.held) + Holds(cursors[..])
      ensures Valid() && Contents() == old(Contents())
    {
      hide Pool.Valid, Holds, LinkRow.Valid, LinkRow.Stored;
      assert Contents() == old(Contents());
      SwapSides(pool.held, old(pool.held), Sum(Contents()), Holds(old(cursors[..])), Holds(cursors[..]));
    }

    lemma CursorsCounted(i: nat)
      requires Valid() && i < 3
      ensures Holds(cursors[..]) <= pool.held
              && (cursors[i] == 0 || (cursors[i] in pool.table && pool.held[cursors[i]] > 0))
    {
      assert cursors[..][i] in multiset(cursors[..]);
    }

    /** Open or close the current link. */
    method Open(payload: seq<Byte>, storage: bool) returns (valid: bool)
      requires Valid()
      modifies pool, cursors
      ensures Valid() && Contents() == old(Contents()) && cursors[1] == old(cursors[1]) && cursors[2] == old(cursors[2])
      ensures cursors[0] != 0 ==> pool.Has(cursors[0], TargetOf(payload), NameOf(payload)) && Payload(payload)
      ensures valid <==> Payload(payload) && (TargetOf(payload) == [] || cursors[0] != 0)
      ensures (cursors[0] != 0) == (Payload(payload) && TargetOf(payload) != []
                                    && old(pool.Available(TargetOf(payload), NameOf(payload), storage)))
    {
      hide Pool.Valid, Holds, Payload, TargetOf, NameOf, Copies, Sum, LinkRow.Valid, LinkRow.Stored;
      CursorsCounted(0);
      ghost var was, h := cursors[..], pool.held;
      var next;
      next, valid := pool.Open(cursors[0], payload, storage);
      PutHolds(was, 0, next);
      cursors[0] := next;
      assert cursors[..] == was[0 := next];
      ReplacedHolds(pool.held, h, Copies(next, 1), Copies(was[0], 1), Holds(was), Holds(cursors[..]));
      CursorsChanged();
    }

    /** Let cursor `i` hold the link of cursor `from`, or none. */
    method SetCursor(i: nat, from: Option<nat>) returns (ok: bool)
      requires Valid() && i < 3 && (from.Some? ==> from.value < 3)
      modifies pool, cursors
      ensures Valid() && Contents() == old(Contents())
      ensures ok <==> from == None || old(cursors[from.value]) == 0
                      || old(pool.held[cursors[from.value]]) < COUNT_MAX
      ensures cursors[..] == if ok then old(cursors[..])[i := if from.Some? then old(cursors[from.value]) else 0]
              else old(cursors[..])
    {
      hide Pool.Valid, Holds;
      var l := if from.Some? then cursors[from.value] else 0;
      CursorsCounted(if from.Some? then from.value else 0);
      HoldsSlice(cursors[..], i, 1);
      ghost var was := cursors[..];
      ok := pool.Fill(cursors, i, 1, l);
      assert Filled(was, i, 1, l) == was[i := l];
      CursorsChanged();
    }

    // ----- Line edits -----

    /** Blank rows, made before anything else changes; when one cannot be made none is left. */
    method AppendBlanks(count: nat, width: nat, storage: nat -> bool) returns (ok: bool)
      requires Valid()
      modifies `rows, pool
      ensures Valid() && (ok ==> Arrays() == old(Arrays()))
      ensures |rows| == |old(rows)| + (if ok then count else 0) && rows[..|old(rows)|] == old(rows)
      ensures forall k | |old(rows)| <= k < |rows| :: fresh(rows[k])
      ensures Contents() == old(Contents()) + if ok then seq(count, _ => []) else []
      ensures ok <==> forall m | 0 <= m < count :: Blankable(width, storage(m))
    {
      hide Valid, Arrays;
      ghost var c := Contents();
      var n, m := |rows|, 0;
      ok := true;
      while m < count && ok
        invariant 0 <= m <= count && Valid() && Arrays() == old(Arrays()) && |rows| == n + m && rows[..n] == old(rows)
        invariant forall k | n <= k < |rows| :: fresh(rows[k]) && rows[k].links == null
        invariant Contents() == c + seq(m, _ => [])
        invariant ok <==> forall k | 0 <= k < m :: Blankable(width, storage(k))
      {
        ghost var more := Contents();
        ok := AppendBlank(width, storage(m));
        assert seq(m + 1, _ => []) == seq<seq<Link>>(m, _ => []) + [[]];
        m := m + 1;
      }
      if !ok { Discard(n); }
    }

    /** Dispose of blank rows. */
    method Discard(n: nat)
      requires Valid() && n <= |rows| && forall k | n <= k < |rows| :: rows[k].links == null
      modifies `rows, pool, rows[n..]
      ensures Valid() && rows == old(rows)[..n] && Contents() == old(Contents())[..n]
    {
      hide Valid;
      Truncate(n);
    }

    /** One blank row of the width. */
    method AppendBlank(width: nat, storage: bool) returns (ok: bool)
      requires Valid()
      modifies `rows, pool
      ensures Valid() && Arrays() == old(Arrays()) && |rows| == |old(rows)| + 1 && rows[..|old(rows)|] == old(rows)
      ensures fresh(rows[|old(rows)|]) && rows[|old(rows)|].links == null && Contents() == old(Contents()) + [[]]
      ensures ok == Blankable(width, storage)
    {
      hide Valid;
      ghost var c, n := Contents(), |rows|;
      Append();
      var i := |rows| - 1;
      Resize(i, width, storage);
      assert Contents() == c + [[]];
      ok := rows[i].size == width;
    }

    /** A new row can be given the width. */
    predicate Blankable(width: nat, storage: bool) {
      width == 0 || (storage && Max(8, width) <= CELLS_MAX)
    }

    /** Dispose of the rows from one on. */
    method Truncate(n: nat)
      requires Valid() && n <= |rows|
      modifies `rows, pool, rows[n..], set r <- rows[n..] | r.links != null :: r.links
      ensures Valid() && rows == old(rows)[..n] && Contents() == old(Contents())[..n] && Arrays() <= old(Arrays())
    {
      hide Valid;
      ghost var c := Contents();
      while |rows| > n
        invariant n <= |rows| <= |old(rows)| && Valid() && rows == old(rows)[..|rows|] && Contents() == c[..|rows|]
        invariant forall r <- rows :: r.links == old(r.links)
      {
        var m := |rows| - 1;
        Remove(m);
        assert c[..m + 1][..m] + c[..m + 1][m + 1..] == c[..m];
      }
    }

    /** Exchange one row that moves with the row whose place it takes. */
    method RotateStep(g: Region, ghost v0: seq<seq<Link>>, m: nat, count: nat)
      requires Valid() && g.In(|rows|) && m + count < g.Height() && |v0| == g.Height()
      requires Rotating(g.View(Contents()), v0, m, count)
      modifies rows
      ensures Valid() && Arrays() == old(Arrays()) && Rotating(g.View(Contents()), v0, m + 1, count)
      ensures forall i | 0 <= i < |rows| && (i < g.first || i > g.last) :: Contents()[i] == old(Contents())[i]
    {
      hide Rotating, Region.View, Valid, Arrays, Contents;
      RotateOnce(g.View(Contents()), v0, m, count);
      ViewSwap(g, Contents(), m, m + count);
      Swap(g.At(m), g.At(m + count));
    }

    /** Move the rows of a region by exchanging what they hold. */
    method Rotate(g: Region, count: nat)
      requires Valid() && g.In(|rows|) && count <= g.Height()
      modifies rows
      ensures Valid() && Arrays() == old(Arrays())
      ensures Rotating(g.View(Contents()), g.View(old(Contents())), g.Height() - count, count)
      ensures forall i | 0 <= i < |rows| && (i < g.first || i > g.last) :: Contents()[i] == old(Contents())[i]
    {
      hide Rotating, Region.View, Valid, Arrays, Contents;
      ghost var v0, c0 := g.View(Contents()), Contents();
      var m := 0;
      NothingRotated(v0, count);
      while m + count < g.Height()
        invariant 0 <= m && m + count <= g.Height() && Valid() && Arrays() == old(Arrays())
        invariant Rotating(g.View(Contents()), v0, m, count)
        invariant forall i | 0 <= i < |rows| && (i < g.first || i > g.last) :: Contents()[i] == c0[i]
      {
        RotateStep(g, v0, m, count);
        m := m + 1;
      }
    }

    /** After `m` swaps that many more rows of the region are empty, and those swapped in below it. */
    static ghost predicate Emptied(c0: seq<seq<Link>>, c: seq<seq<Link>>, g: Region, count: nat, n: nat, m: nat)
      requires g.In(n) && n <= |c0| && m <= count <= g.Height()
    {
      && |c| == n + count && (forall k | n + m <= k < n + count :: c[k] == [])
      && forall i | 0 <= i < n ::
           c[i] == if g.first <= i <= g.last && g.Height() - count <= g.Index(i) < g.Height() - count + m then []
                   else c0[i]
    }

    /** Exchanging the next row to be filled with the next spare one fills it and leaves the other spare ones alone. */
    lemma RefillStep(c0: seq<seq<Link>>, c: seq<seq<Link>>, g: Region, count: nat, n: nat, m: nat)
      requires g.In(n) && m < count <= g.Height() && |c0| >= n && Emptied(c0, c, g, count, n, m)
      ensures var x := g.At(g.Height() - count + m);
              Emptied(c0, c[x := c[n + m]][n + m := c[x]], g, count, n, m + 1)
    {
    }

    /** Exchange the discarded rows, the last of the region, for the blank ones from row `n` on. */
    method Refill(g: Region, count: nat, n: nat)
      requires Valid() && g.In(n) && count <= g.Height() && |rows| == n + count
               && forall k | n <= k < n + count :: Contents()[k] == []
      modifies rows
      ensures Valid() && Arrays() == old(Arrays())
      ensures forall i | 0 <= i < n ::
                Contents()[i] == if g.first <= i <= g.last && g.Index(i) >= g.Height() - count then []
                  else old(Contents())[i]
    {
      hide Valid, Arrays, Contents;
      ghost var c0 := Contents();
      var m := 0;
      while m < count
        invariant 0 <= m <= count && Valid() && Arrays() == old(Arrays()) && Emptied(c0, Contents(), g, count, n, m)
      {
        RefillOne(c0, g, count, n, m);
        m := m + 1;
      }
    }

    method RefillOne(ghost c0: seq<seq<Link>>, g: Region, count: nat, n: nat, m: nat)
      requires Valid() && g.In(n) && m < count <= g.Height() && |rows| == n + count && n <= |c0|
               && Emptied(c0, Contents(), g, count, n, m)
      modifies rows
      ensures Valid() && Arrays() == old(Arrays()) && Emptied(c0, Contents(), g, count, n, m + 1)
    {
      hide Valid, Arrays, Contents, Emptied;
      RefillStep(c0, Contents(), g, count, n, m);
      Swap(g.At(g.Height() - count + m), n + m);
    }

    /** Insert or delete rows of a region: the links move with the rows, and those of the discarded rows are let go. */
    method EditRows(g: Region, count: nat, width: nat, storage: nat -> bool) returns (ok: bool)
      requires Valid() && g.In(|rows|) && count <= g.Height()
      modifies `rows, pool, rows, Arrays()
      ensures Valid() && rows == old(rows)
      ensures Contents() == if ok then Shifted(old(Contents()), g, count, []) else old(Contents())
      ensures ok <==> forall m | 0 <= m < count :: Blankable(width, storage(m))
    {
      hide Valid, Rotating, Region.View, Shifted;
      ghost var was := Contents();
      var n := |rows|;
      ok := AppendBlanks(count, width, storage);
      if !ok { return; }
      ghost var before := Contents();
      Rotate(g, count);
      ghost var mid := Contents();
      Refill(g, count, n);
      ghost var now := Contents();
      ViewPrefix(g, before, n);
      ViewPrefix(g, mid, n);
      RefilledIs(was, mid[..n], now[..n], g, count, []);
      Truncate(n);
    }

    /** Give everything back: no record is live any more. */
    method Close()
      requires Valid()
      modifies this, pool, cursors, rows, Arrays()
      ensures Valid() && rows == [] && pool.records == 0 && pool.bytes == 0 && pool.list == []
    {
      hide Valid;
      Truncate(0);
      var i := 0;
      Three();
      while i < 3
        invariant 0 <= i <= 3 && cursors.Length == 3 && Valid() && rows == []
                  && forall k | 0 <= k < i :: cursors[k] == 0
      {
        var ok := SetCursor(i, None);
        assert cursors[..][i] == 0;
        i := i + 1;
      }
      NothingLeft();
    }

    lemma Three()
      requires Valid()
      ensures cursors.Length == 3
    {
    }

    lemma NothingLeft()
      requires Valid() && rows == [] && forall k | 0 <= k < cursors.Length :: cursors[k] == 0
      ensures pool.records == 0 && pool.bytes == 0 && pool.list == []
    {
      hide Holds, Sound;
      NoneHeld(cursors[..]);
      assert Contents() == [];
      assert pool.held == multiset{};
      NothingHeldNothingLive(pool.list, pool.table, pool.records, pool.bytes, pool.address);
    }
  }

  lemma ViewPrefix<T>(g: Region, c: seq<T>, n: nat)
    requires g.In(n) && n <= |c|
    ensures g.View(c[..n]) == g.View(c)
  {
  }

  lemma PutHolds(cells: seq<Link>, i: nat, l: Link)
    requires i < |cells|
    ensures Holds(cells[i := l]) + Copies(cells[i], 1) == Holds(cells) + Copies(l, 1)
            && Copies(cells[i], 1) <= Holds(cells)
  {
    OverlaidHolds(cells, i, [l]);
    assert Overlaid(cells, i, [l]) == cells[i := l] && cells[i..i + 1] == [cells[i]];
    CopiesAre([l], l);
    CopiesAre([cells[i]], cells[i]);
    HoldsSlice(cells, i, 1);
  }

  lemma ReplacedHolds(h: multiset<Link>, h0: multiset<Link>, more: multiset<Link>, less: multiset<Link>,
                      c0: multiset<Link>, c: multiset<Link>)
    requires h == h0 + more - less && less <= c0 <= h0 && c + less == c0 + more
    ensures h + c0 == h0 + c
  {
    forall l: Link ensures (h + c0)[l] == (h0 + c)[l] {
      assert (c + less)[l] == (c0 + more)[l];
    }
  }

  lemma SwapSides(h: multiset<Link>, h0: multiset<Link>, s: multiset<Link>, c0: multiset<Link>, c: multiset<Link>)
    requires h + c0 == h0 + c && h0 == s + c0
    ensures h == s + c
  {
    forall l: Link ensures h[l] == (s + c)[l] {
      assert (h + c0)[l] == (h0 + c)[l];
    }
  }

  lemma Balanced(h: multiset<Link>, h0: multiset<Link>, s0: multiset<Link>, s: multiset<Link>, x0: multiset<Link>,
                 x: multiset<Link>, c: multiset<Link>)
    requires h + x0 == h0 + x && s + x0 == s0 + x && h0 == s0 + c
    ensures h == s + c
  {
    forall l: Link ensures h[l] == (s + c)[l] {
      assert (h + x0)[l] == (h0 + x)[l] && (s + x0)[l] == (s0 + x)[l];
    }
  }
}
