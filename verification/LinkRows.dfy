/** Rows that hold links: storage for the links of their cells is made on demand, resized, exchanged and given back. */
module LinkRows {
  import opened Common
  import opened Hyperlinks

  /** No storage of more cells than this is asked for. */
  const CELLS_MAX: nat := 0x1fffffff

  class LinkRow {
    /** The links of the cells, when any cell has ever had one. */
    var links: array?<Link>
    var size: nat
    var capacity: nat

    /** Cells beyond the size hold no link. */
    ghost predicate Valid()
      reads this, links
    {
      && size <= capacity
      && (links != null ==> links.Length == capacity && forall k | size <= k < capacity :: links[k] == 0)
    }

    /** The links the row's storage holds. */
    ghost function Stored(): seq<Link>
      reads this, links
    {
      if links == null then [] else links[..]
    }

    /** The link of a cell. */
    ghost function LinkAt(k: nat): Link
      requires Valid() && k < size
      reads this, links
    {
      if links == null then 0 else links[k]
    }

    /** The row's holds are among those that are counted. */
    ghost predicate Counted(pool: Pool)
      reads this, links, pool
    {
      Valid() && pool.Valid() && Holds(Stored()) <= pool.held
    }

    constructor ()
      ensures Valid() && size == capacity == 0 && links == null
    {
      links, size, capacity := null, 0, 0;
    }

    /** Let all cells from one on go. */
    method Clear(pool: Pool, from: nat)
      requires Counted(pool) && links != null && from <= capacity
      modifies pool, links
      ensures pool.Valid() && pool.held + Holds(old(Stored())) == old(pool.held) + Holds(Stored())
      ensures forall k | 0 <= k < links.Length :: links[k] == if k < from then old(links[k]) else 0
      ensures Holds(Stored()) <= pool.held
    {
      hide Pool.Valid, Holds;
      HoldsSlice(links[..], from, capacity - from);
      ghost var was := links[..];
      var ok := pool.Fill(links, from, capacity - from, 0);
      assert forall k | 0 <= k < links.Length :: links[..][k] == Filled(was, from, capacity - from, 0)[k];
      StillCounted(was, links[..], old(pool.held), pool.held);
    }

    /** The cells are in the row, and the link can be held as often as is needed, with storage for the first ones. */
    ghost predicate CanSet(pool: Pool, start: nat, count: nat, link: Link, storage: bool)
      reads this, pool
    {
      && start + count <= size
      && (count == 0 || link == 0
          || (count <= COUNT_MAX - pool.held[link]
              && (links == null ==> 0 < capacity <= CELLS_MAX && storage)))
    }

    /** Set the link of some cells. Nothing changes on failure. */
    method SetLinks(pool: Pool, start: nat, count: nat, link: Link, storage: bool) returns (ok: bool)
      requires Counted(pool) && (link == 0 || link in pool.table)
      modifies this, pool, links
      ensures Counted(pool) && pool.held + Holds(old(Stored())) == old(pool.held) + Holds(Stored())
      ensures size == old(size) && capacity == old(capacity) && (links == old(links) || fresh(links))
      ensures ok ==> start + count <= size && forall k | 0 <= k < size ::
              LinkAt(k) == if start <= k < start + count then link else old(LinkAt(k))
      ensures !ok ==> Stored() == old(Stored()) && pool.held == old(pool.held)
      ensures ok == old(CanSet(pool, start, count, link, storage))
    {
      hide Pool.Valid, Holds, SameTexts;
      if start > size || count > size - start { return false; }
      if count == 0 { return true; }
      if links == null {
        if link == 0 { return true; }
        if capacity == 0 || capacity > CELLS_MAX || !storage { return false; }
        ok := FirstLinks(pool, start, count, link);
        return;
      }
      ok := MoreLinks(pool, start, count, link);
    }

    /** Links of a row that has storage for them are set. */
    method MoreLinks(pool: Pool, start: nat, count: nat, link: Link) returns (ok: bool)
      requires Counted(pool) && (link == 0 || link in pool.table) && links != null && start + count <= size
      modifies pool, links
      ensures Counted(pool) && pool.held + Holds(old(Stored())) == old(pool.held) + Holds(Stored())
      ensures ok ==> forall k | 0 <= k < size ::
                       LinkAt(k) == if start <= k < start + count then link else old(LinkAt(k))
      ensures !ok ==> Stored() == old(Stored()) && pool.held == old(pool.held)
      ensures ok <==> link == 0 || count <= COUNT_MAX - old(pool.held[link])
    {
      hide Pool.Valid, Holds, SameTexts;
      ghost var was := links[..];
      HoldsSlice(was, start, count);
      ok := pool.Fill(links, start, count, link);
      StillCounted(was, links[..], old(pool.held), pool.held);
      assert ok ==> forall k | 0 <= k < capacity :: links[..][k] == Filled(was, start, count, link)[k];
    }

    /** The first links of a row are set in storage that is kept only when they can be held. */
    method FirstLinks(pool: Pool, start: nat, count: nat, link: Link) returns (ok: bool)
      requires Counted(pool) && links == null && start + count <= size && link in pool.table && link != 0
      modifies this, pool
      ensures Counted(pool) && pool.held + Holds(old(Stored())) == old(pool.held) + Holds(Stored())
      ensures size == old(size) && capacity == old(capacity) && (ok <==> count <= COUNT_MAX - old(pool.held[link]))
      ensures if ok then fresh(links) && forall k | 0 <= k < size ::
              LinkAt(k) == if start <= k < start + count then link else 0
              else links == null && pool.held == old(pool.held)
    {
      hide Pool.Valid, Holds, SameTexts;
      var cells := new Link[capacity](_ => 0);
      NoneHeld(cells[..]);
      NoneHeld(cells[start..start + count]);
      NoneHeld([]);
      ghost var was := cells[..];
      ok := pool.Fill(cells, start, count, link);
      if !ok { return; }
      StillCounted(was, cells[..], old(pool.held), pool.held);
      links := cells;
      assert forall k | 0 <= k < capacity :: links[..][k] == Filled(was, start, count, link)[k];
    }

    /** The capacity a row grows to. */
    function Grown(newsize: nat): nat
      reads this
    {
      Max(capacity + Max(capacity / 2, 8), newsize)
    }

    /** Change the size of a row. Links of the cells that remain stay, those of the cells that go are let go, and new
        cells have none; when storage fails nothing changes. */
    method Resize(pool: Pool, newsize: nat, storage: bool)
      requires Counted(pool)
      modifies this, pool, links
      ensures Counted(pool) && pool.held + Holds(old(Stored())) == old(pool.held) + Holds(Stored())
      ensures size ==
              if newsize <= old(capacity) || (storage && old(Grown(newsize)) <= CELLS_MAX) then newsize else old(size)
      ensures forall k | 0 <= k < size :: LinkAt(k) == if k < old(size) then old(LinkAt(k)) else 0
      ensures (links == null || links == old(links) || fresh(links)) && (old(links) == null ==> links == null)
    {
      hide Pool.Valid, Holds;
      if 0 < newsize <= capacity {
        if newsize < size && links != null { Clear(pool, newsize); }
        size := newsize;
        return;
      }
      if newsize == 0 {
        if links != null { Clear(pool, 0); GoneHolds(links[..]); }
        links, size, capacity := null, 0, 0;
        return;
      }
      Grow(pool, newsize, storage);
    }

    /** Storage for more cells: the holds move from the old cells to the new ones. */
    method Grow(pool: Pool, newsize: nat, storage: bool)
      requires Counted(pool) && newsize > capacity
      modifies this, links
      ensures Counted(pool) && Holds(old(Stored())) == Holds(Stored())
      ensures size == if storage && old(Grown(newsize)) <= CELLS_MAX then newsize else old(size)
      ensures forall k | 0 <= k < size :: LinkAt(k) == if k < old(size) then old(LinkAt(k)) else 0
      ensures (links == old(links) || fresh(links)) && (old(links) == null ==> links == null)
    {
      hide Pool.Valid, Holds;
      var newcapacity := Grown(newsize);
      if newcapacity > CELLS_MAX || !storage { return; }
      if links != null {
        var n, old_ := size, links;
        var more := new Link[newcapacity](k requires 0 <= k < newcapacity reads this, links =>
                                          if links != null && k < n <= links.Length then links[k] else 0);
        assert more[..] == links[..n] + seq(newcapacity - n, _ => 0)
               && links[..] == links[..n] + seq(capacity - n, _ => 0);
        ZerosHold(links[..n], capacity - n);
        ZerosHold(links[..n], newcapacity - n);
        links := more;
      }
      size, capacity := newsize, newcapacity;
    }

    /** Give all storage back. */
    method Dispose(pool: Pool)
      requires Counted(pool)
      modifies this, pool, links
      ensures pool.Valid() && pool.held + Holds(old(Stored())) == old(pool.held) && links == null
    {
      hide Pool.Valid, Holds;
      if links == null {
        NoneHeld([]);
        return;
      }
      Clear(pool, 0);
      GoneHolds(links[..]);
      NoneHeld([]);
      links := null;
    }
  }

  /** Exchange what two rows hold. */
  method SwapCells(a: LinkRow, b: LinkRow)
    modifies {a, b}
    ensures a.links == old(b.links) && a.size == old(b.size) && a.capacity == old(b.capacity)
    ensures b.links == old(a.links) && b.size == old(a.size) && b.capacity == old(a.capacity)
  {
    var links, size, capacity := a.links, a.size, a.capacity;
    a.links, a.size, a.capacity := b.links, b.size, b.capacity;
    b.links, b.size, b.capacity := links, size, capacity;
  }

  lemma {:induction false} NoneHeld(cells: seq<Link>)
    requires forall k | 0 <= k < |cells| :: cells[k] == 0
    ensures Holds(cells) == multiset{}
  {
    CopiesAre(cells, 0);
  }

  lemma GoneHolds(cells: seq<Link>)
    requires forall k | 0 <= k < |cells| :: cells[k] == 0
    ensures Holds(cells) == multiset{} == Holds([])
  {
    NoneHeld(cells);
    NoneHeld([]);
  }

  lemma {:induction false} ZerosHold(cells: seq<Link>, n: nat)
    ensures Holds(cells + seq(n, _ => 0)) == Holds(cells)
    decreases n
  {
    if n > 0 {
      ZerosHold(cells, n - 1);
      assert cells + seq(n, _ => 0) == cells + seq(n - 1, _ => 0) + [0];
      HoldsMore(cells + seq(n - 1, _ => 0), 0);
    } else {
      assert cells + seq(n, _ => 0) == cells;
    }
  }

  /** When what is held and what the cells hold change by the same, the cells' holds stay counted. */
  lemma StillCounted(before: seq<Link>, after: seq<Link>, h: multiset<Link>, h': multiset<Link>)
    requires Holds(before) <= h && h' + Holds(before) == h + Holds(after)
    ensures Holds(after) <= h'
  {
    forall l: Link ensures Holds(after)[l] <= h'[l] {
      assert (h' + Holds(before))[l] == (h + Holds(after))[l];
    }
  }

  /** When no cell and no cursor holds a link, no record is live and nothing is in use. */
  lemma NothingHeldNothingLive(list: seq<Link>, table: map<Link, Record>, records: nat, bytes: nat, address: Link)
    requires Sound(list, table, records, bytes, address, multiset{})
    ensures list == [] && table == map[] && records == 0 && bytes == 0
  {
    assert forall l: Link :: l !in table && l !in list;
  }
}
