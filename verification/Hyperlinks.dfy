/** Shared link records, counted by the cells and cursors that hold them. */
module Hyperlinks {
  import opened Common

  const URI_MAX: nat := 1023
  const NAME_MAX: nat := 255
  const RECORD_MAX: nat := 128
  const BYTES_MAX: nat := 65536
  const PAYLOAD_MAX: nat := 2045
  const COUNT_MAX: nat := 0xffffffff

  /** A link as cells hold it: zero for none. */
  type Link = nat

  datatype Record = Record(references: nat, allocation: nat, uri: seq<Byte>, name: seq<Byte>)

  predicate Printable(s: seq<Byte>) {
    forall b <- s :: b >= 32 && b != 127
  }

  /** The links that some cells hold. */
  function Holds(cells: seq<Link>): multiset<Link> {
    multiset(cells)[0 := 0]
  }

  lemma HoldsMore(cells: seq<Link>, l: Link)
    ensures Holds(cells + [l]) == Holds(cells) + if l == 0 then multiset{} else multiset{l}
  {
  }

  function Copies(l: Link, n: nat): multiset<Link> {
    if l == 0 then multiset{} else multiset{}[l := n]
  }

  function Total(list: seq<Link>, table: map<Link, Record>): nat
    requires forall l <- list :: l in table
  {
    if list == [] then 0 else table[list[0]].allocation + Total(list[1..], table)
  }

  lemma {:induction false} TotalSame(list: seq<Link>, table: map<Link, Record>, table': map<Link, Record>)
    requires forall l <- list :: l in table && l in table' && table[l].allocation == table'[l].allocation
    ensures Total(list, table) == Total(list, table')
  {
    if list != [] { TotalSame(list[1..], table, table'); }
  }

  lemma {:induction false} TotalWithout(list: seq<Link>, i: nat, table: map<Link, Record>)
    requires i < |list| && forall l <- list :: l in table
    ensures Total(list, table) == Total(list[..i] + list[i + 1..], table) + table[list[i]].allocation
  {
    if i == 0 {
      assert list[..0] + list[1..] == list[1..];
    } else {
      TotalWithout(list[1..], i - 1, table);
      assert (list[..i] + list[i + 1..])[1..] == list[1..][..i - 1] + list[1..][i..];
    }
  }

  predicate Distinct(list: seq<Link>) {
    forall a, b | 0 <= a < b < |list| :: list[a] != list[b]
  }

  /** The scan for a byte. */
  method Find(s: seq<Byte>, start: nat, stop: nat, b: Byte) returns (i: nat)
    requires start <= stop <= |s|
    ensures i == First(s[..stop], start, b)
  {
    i := start;
    while i < stop && s[i] != b
      invariant start <= i <= stop && First(s[..stop], i, b) == First(s[..stop], start, b)
    {
      i := i + 1;
    }
  }

  lemma TakenIs(p: seq<Byte>, separator: nat, start: nat)
    requires start + 3 <= separator <= |p|
    ensures p[..separator][start..start + 3] == [p[start], p[start + 1], p[start + 2]]
  {
    var s := p[..separator][start..start + 3];
    assert s[0] == p[start] && s[1] == p[start + 1] && s[2] == p[start + 2];
  }

  lemma NameStep(p: seq<Byte>, separator: nat, start: nat, end: nat)
    requires start < separator <= |p| && end == First(p[..separator], start, 58)
    ensures start <= end <= separator
    ensures NameIn(p[..separator], start) ==
            if end - start >= 3 && p[start] == 105 && p[start + 1] == 100 && p[start + 2] == 61 then p[start + 3..end]
            else NameIn(p[..separator], end + 1)
  {
    var params := p[..separator];
    if end - start >= 3 {
      TakenIs(p, separator, start);
      assert params[start + 3..end] == p[start + 3..end];
    }
  }

  /** The scan for the name among the parameters. */
  method ReadName(p: seq<Byte>, separator: nat) returns (name: seq<Byte>)
    requires separator <= |p| && separator == First(p, 0, 59)
    ensures name == NameOf(p)
  {
    hide First;
    var params := p[..separator];
    name := [];
    var found, start := false, 0;
    while start < separator
      invariant if found then name == NameOf(p) else name == [] && NameIn(params, start) == NameOf(p)
      decreases separator - start
    {
      var end := Find(p, start, separator, 58);
      NameStep(p, separator, start, end);
      if !found && end - start >= 3 && p[start] == 105 && p[start + 1] == 100 && p[start + 2] == 61 {
        name, found := p[start + 3..end], true;
      }
      start := end + 1;
    }
  }

  /** Every record is counted by just the cells and cursors that hold it, and the totals are those of the list. */
  ghost predicate Sound(list: seq<Link>, table: map<Link, Record>, records: nat, bytes: nat, address: Link,
                        held: multiset<Link>) {
    && Distinct(list) && (forall l: Link :: l in table <==> l in list) && 0 !in table && held[0] == 0
    && (forall l <- table :: table[l].references == held[l] && 0 < held[l] <= COUNT_MAX && l < address) && address > 0
    && (forall l <- held :: l in table)
    && records == |list| <= RECORD_MAX && bytes == Total(list, table) <= BYTES_MAX
  }

  /** Of each target and name there is one record at most; records without a name stay apart. */
  ghost predicate Unshared(table: map<Link, Record>) {
    forall a, b | a in table && b in table && table[a].name != [] && table[a].uri == table[b].uri
                  && table[a].name == table[b].name :: a == b
  }

  lemma UnsharedSame(before: map<Link, Record>, after: map<Link, Record>)
    requires Unshared(before) && before.Keys == after.Keys
    requires forall k <- before :: after[k].uri == before[k].uri && after[k].name == before[k].name
    ensures Unshared(after)
  {
  }

  lemma SoundRecount(list: seq<Link>, table: map<Link, Record>, records: nat, bytes: nat, address: Link,
                     held: multiset<Link>, l: Link, references: nat)
    requires Sound(list, table, records, bytes, address, held) && l in table && 0 < references <= COUNT_MAX
    ensures Sound(list, table[l := table[l].(references := references)], records, bytes, address,
                  held[l := references])
  {
    var after := table[l := table[l].(references := references)];
    assert forall k :: k in after <==> k in table;
    TotalSame(list, table, after);
  }

  lemma UnsharedWith(table: map<Link, Record>, l: Link, r: Record)
    requires Unshared(table) && l !in table
    requires r.name != [] ==> forall k <- table :: !(table[k].uri == r.uri && table[k].name == r.name)
    ensures Unshared(table[l := r])
  {
  }

  /** So many more holds do not overflow a count. */
  ghost predicate Holdable(held: multiset<Link>, more: multiset<Link>) {
    forall l: Link :: held[l] + more[l] <= COUNT_MAX
  }

  /** Every record still held keeps its texts. */
  ghost predicate SameTexts(before: map<Link, Record>, after: map<Link, Record>, held: multiset<Link>) {
    forall k <- before | held[k] > 0 :: k in after && after[k].uri == before[k].uri && after[k].name == before[k].name
  }

  lemma WithoutIs(s: seq<Link>, i: nat)
    requires i < |s| && Distinct(s)
    ensures Distinct(s[..i] + s[i + 1..]) && forall l: Link :: l in s[..i] + s[i + 1..] <==> l in s && l != s[i]
  {
    forall l: Link | l in s && l != s[i] ensures l in s[..i] + s[i + 1..] {
      var k :| 0 <= k < |s| && s[k] == l;
      if k < i { assert (s[..i] + s[i + 1..])[k] == l; } else { assert (s[..i] + s[i + 1..])[k - 1] == l; }
    }
  }

  lemma SoundWithout(list: seq<Link>, table: map<Link, Record>, records: nat, bytes: nat, address: Link,
                     held: multiset<Link>, i: nat)
    requires Sound(list, table, records, bytes, address, held) && i < |list| && held[list[i]] == 1
    ensures table[list[i]].allocation <= bytes && records > 0
    ensures Sound(list[..i] + list[i + 1..], table - {list[i]}, records - 1, bytes - table[list[i]].allocation, address,
                  held - multiset{list[i]})
  {
    hide Total, Distinct;
    WithoutIs(list, i);
    TotalWithout(list, i, table);
    TotalSame(list[..i] + list[i + 1..], table, table - {list[i]});
  }

  // ----- Payloads -----

  /** Where `b` first occurs from `start` on. */
  function First(s: seq<Byte>, start: nat, b: Byte): (i: nat)
    requires start <= |s|
    ensures start <= i <= |s| && (i < |s| ==> s[i] == b) && b !in s[start..i]
    decreases |s| - start
  {
    if start == |s| || s[start] == b then start
    else
      var i := First(s, start + 1, b);
      assert s[start..i] == [s[start]] + s[start + 1..i];
      i
  }

  predicate Payload(p: seq<Byte>) {
    |p| <= PAYLOAD_MAX && Printable(p) && 59 in p
  }

  lemma SeparatorIs(p: seq<Byte>)
    ensures First(p, 0, 59) < |p| <==> 59 in p
  {
    var i := First(p, 0, 59);
    assert i == |p| ==> p[0..i] == p;
  }

  /** What follows the first semicolon. */
  function TargetOf(p: seq<Byte>): seq<Byte> {
    var i := First(p, 0, 59);
    if i < |p| then p[i + 1..] else []
  }

  /** The name among the parameters, which colons separate: that of the first one that begins with `id=`. */
  function NameIn(params: seq<Byte>, start: nat): seq<Byte>
    decreases |params| - start
  {
    if start >= |params| then []
    else
      var end := First(params, start, 58);
      if end - start >= 3 && params[start..start + 3] == [105, 100, 61] then params[start + 3..end]
        else NameIn(params, end + 1)
  }

  function NameOf(p: seq<Byte>): seq<Byte> {
    NameIn(p[..First(p, 0, 59)], 0)
  }

  lemma SoundWith(list: seq<Link>, table: map<Link, Record>, records: nat, bytes: nat, address: Link,
                  held: multiset<Link>, r: Record)
    requires Sound(list, table, records, bytes, address, held) && r.references == 1
    requires records < RECORD_MAX && bytes + r.allocation <= BYTES_MAX
    ensures Sound([address] + list, table[address := r], records + 1, bytes + r.allocation, address + 1,
                  held + multiset{address})
  {
    hide Total, Distinct;
    assert address !in held && address !in table && address !in list;
    DistinctMore(list, address);
    TotalMore(list, table, address, r);
  }

  lemma TotalMore(list: seq<Link>, table: map<Link, Record>, l: Link, r: Record)
    requires l !in list && forall k <- list :: k in table
    ensures Total([l] + list, table[l := r]) == Total(list, table) + r.allocation
  {
    assert ([l] + list)[1..] == list;
    TotalSame(list, table, table[l := r]);
  }

  lemma DistinctMore(list: seq<Link>, l: Link)
    requires Distinct(list) && l !in list
    ensures Distinct([l] + list)
  {
  }

  class Pool {
    /** The bytes a record takes besides its texts and their separator. */
    const recordBytes: nat
    /** The live records, newest first. */
    var list: seq<Link>
    var table: map<Link, Record>
    var records: nat
    var bytes: nat
    /** Where the next record will be allocated. */
    var address: Link
    /** How often cells and cursors hold each link. */
    ghost var held: multiset<Link>

    ghost predicate Valid()
      reads this
    {
      Sound(list, table, records, bytes, address, held) && Unshared(table)
    }

    /** There is room for one more record with such texts. */
    predicate Room(uri: seq<Byte>, name: seq<Byte>)
      reads `records, `bytes
    {
      records < RECORD_MAX && bytes + recordBytes + |uri| + |name| + 1 <= BYTES_MAX
    }

    /** A link with these texts can be had: the live one of that name can be held once more, or there is room and
        storage for a new one. */
    ghost predicate Available(uri: seq<Byte>, name: seq<Byte>, storage: bool)
      reads this
    {
      && 0 < |uri| <= URI_MAX && |name| <= NAME_MAX && Printable(uri) && Printable(name)
      && if name != [] && exists k <- table :: Has(k, uri, name)
         then forall k <- table | Has(k, uri, name) :: held[k] < COUNT_MAX
         else Room(uri, name) && storage
    }

    constructor (recordBytes: nat)
      ensures Valid() && held == multiset{} && records == 0 && bytes == 0
    {
      this.recordBytes := recordBytes;
      list, table, records, bytes, address, held := [], map[], 0, 0, 1, multiset{};
    }

    /** Set the count of a live record, and what it counts. */
    method Recount(l: Link, references: nat)
      requires Valid() && l in table && 0 < references <= COUNT_MAX
      modifies `table, `held
      ensures Valid() && held == old(held)[l := references]
      ensures table.Keys == old(table.Keys)
              && forall k <- table :: table[k] == if k == l then old(table)[k].(references := references)
                 else old(table)[k]
    {
      hide Sound, Unshared;
      ghost var before := table;
      SoundRecount(list, table, records, bytes, address, held, l, references);
      table := table[l := table[l].(references := references)];
      held := held[l := references];
      UnsharedSame(before, table);
    }

    method Retain(l: Link) returns (ok: bool)
      requires Valid() && (l == 0 || l in table)
      modifies `table, `held
      ensures Valid() && (ok <==> l == 0 || old(held[l]) < COUNT_MAX)
      ensures held == if ok then old(held) + Copies(l, 1) else old(held)
      ensures table.Keys == old(table.Keys) && (!ok || l == 0 ==> table == old(table))
      ensures SameTexts(old(table), table, held)
    {
      if l == 0 { return true; }
      if table[l].references == COUNT_MAX { return false; }
      Recount(l, table[l].references + 1);
      ok := true;
    }

    /** Let go of one hold; the last one frees the record. */
    method Release(l: Link)
      requires Valid() && (l == 0 || held[l] > 0)
      modifies `list, `table, `records, `bytes, `held
      ensures Valid() && held == old(held) - Copies(l, 1)
      ensures SameTexts(old(table), table, held)
    {
      if l == 0 { return; }
      if table[l].references > 1 {
        Recount(l, table[l].references - 1);
        return;
      }
      Drop(l);
    }

    /** Take the record out of the list and free it. */
    method Drop(l: Link)
      requires Valid() && l in table && held[l] == 1
      modifies `list, `table, `records, `bytes, `held
      ensures Valid() && held == old(held) - multiset{l} && table == old(table) - {l}
    {
      hide Sound;
      Counted(l);
      var i := Place(l);
      SoundWithout(list, table, records, bytes, address, held, i);
      list := list[..i] + list[i + 1..];
      records, bytes := records - 1, bytes - table[l].allocation;
      table := table - {l};
      held := held - multiset{l};
    }

    /** Where a record is in the list. */
    method Place(l: Link) returns (i: nat)
      requires l in list
      ensures i < |list| && list[i] == l
    {
      i := 0;
      while list[i] != l
        invariant 0 <= i < |list| && l in list[i..]
        decreases |list| - i
      {
        i := i + 1;
      }
    }

    lemma Counted(l: Link)
      requires Valid()
      ensures l in table ==> table[l].references == held[l] && 0 < held[l] <= COUNT_MAX && l in list
    {
    }

    /** Hold a live link `n` times more. */
    method Acquire(l: Link, n: nat)
      requires Valid() && (l == 0 || (l in table && n <= COUNT_MAX - held[l]))
      modifies `table, `held
      ensures Valid() && held == old(held) + Copies(l, n) && table.Keys == old(table.Keys)
    {
      if l != 0 {
        Recount(l, table[l].references + n);
      }
    }

    /** Make one cell hold a link that has been acquired for it. */
    method Put(cells: array<Link>, k: nat, l: Link)
      requires Valid() && k < cells.Length && (cells[k] == 0 || held[cells[k]] > 0)
      modifies `list, `table, `records, `bytes, `held, cells
      ensures Valid() && held == old(held) - Copies(old(cells[k]), 1) && cells[..] == old(cells[..])[k := l]
    {
      hide Valid;
      Release(cells[k]);
      cells[k] := l;
    }

    /** Make cells hold one link. It is acquired before the old ones are let go, so that the cells may hold it
        already. */
    method Fill(cells: array<Link>, start: nat, count: nat, l: Link) returns (ok: bool)
      requires Valid() && start + count <= cells.Length && (l == 0 || l in table)
               && Holds(cells[start..start + count]) <= held
      modifies this, cells
      ensures Valid() && (ok <==> l == 0 || count <= COUNT_MAX - old(held[l]))
      ensures ok ==> held == old(held) + Copies(l, count) - Holds(old(cells[start..start + count]))
      ensures cells[..] == if ok then Filled(old(cells[..]), start, count, l) else old(cells[..])
      ensures held + Holds(old(cells[..])) == old(held) + Holds(cells[..])
      ensures !ok ==> held == old(held) && table == old(table) && list == old(list)
    {
      hide Valid, Holds, Copies, Remaining, Filled, SameTexts;
      Counted(l);
      if l != 0 && count > COUNT_MAX - table[l].references { return false; }
      ghost var all, was := cells[..], cells[start..start + count];
      Acquire(l, count);
      ghost var most := held;
      RemainingAll(most, was);
      FilledNone(all, start, l);
      var i := 0;
      while i < count
        invariant 0 <= i <= count && Valid() && held == Remaining(most, was, i) && cells[..] == Filled(all, start, i, l)
      {
        RemainingNext(most, was, i);
        FilledNext(all, start, i, l);
        assert cells[start + i] == was[i];
        Put(cells, start + i, l);
        i := i + 1;
      }
      RemainingNone(most, was);
      FilledHolds(all, start, count, l);
      BalanceOf(old(held), Copies(l, count), Holds(was), Holds(all), Holds(cells[..]));
      ok := true;
    }

    /** Copy cells over others, which they may overlap. When a link cannot be held once more nothing is changed. */
    method Copy(cells: array<Link>, dst: nat, src: nat, count: nat) returns (ok: bool)
      requires Valid() && dst + count <= cells.Length && src + count <= cells.Length && Holds(cells[..]) <= held
      modifies this, cells
      ensures Valid() && held + Holds(old(cells[..])) == old(held) + Holds(cells[..])
      ensures cells[..] == if ok then Overlaid(old(cells[..]), dst, old(cells[src..src + count])) else old(cells[..])
      ensures ok == Holdable(old(held), Holds(old(cells[src..src + count])))
    {
      hide Valid, Holds, Copies, Remaining, Overlaid, SameTexts;
      ghost var all, s, d, h := cells[..], cells[src..src + count], cells[dst..dst + count], held;
      HoldsSlice(all, src, count);
      HoldsSlice(all, dst, count);
      ok := HoldAll(cells, src, count);
      if !ok { return; }
      LetGo(cells, dst, count);
      Move(cells, dst, src, count);
      OverlaidHolds(all, dst, s);
      BalanceOf(h, Holds(s), Holds(d), Holds(all), Holds(cells[..]));
      ok := true;
    }

    /** Take one more hold on each of the cells' links, or none if some record can be held no more often. */
    method HoldAll(cells: array<Link>, src: nat, count: nat) returns (ok: bool)
      requires Valid() && src + count <= cells.Length && Holds(cells[src..src + count]) <= held
      modifies this
      ensures Valid() && held == if ok then old(held) + Holds(cells[src..src + count]) else old(held)
      ensures ok == Holdable(old(held), Holds(cells[src..src + count]))
    {
      hide Valid, Holds, Copies, SameTexts, Holdable;
      ghost var s, h := cells[src..src + count], held;
      HoldsNothing(s);
      var i := 0;
      while i < count
        invariant 0 <= i <= count && Valid() && held == h + Holds(s[..i])
      {
        HoldsNext(s, i);
        HeldInTable(s, i);
        assert cells[src + i] == s[i];
        ok := Retain(cells[src + i]);
        if !ok {
          FullOf(s, i, h);
          Undo(cells, src, i, s, h);
          assert cells[src..src + count] == s;
          return;
        }
        i := i + 1;
      }
      assert s[..count] == s == cells[src..src + count];
      HeldLittle(h, Holds(s));
      ok := true;
    }

    lemma HeldLittle(h: multiset<Link>, more: multiset<Link>)
      requires Valid() && held == h + more
      ensures Holdable(h, more)
    {
      forall l: Link ensures h[l] + more[l] <= COUNT_MAX {
        if l in held { assert l in table; }
        assert (h + more)[l] == h[l] + more[l];
      }
    }

    /** Let go of one hold on each of the cells' links. */
    method LetGo(cells: array<Link>, dst: nat, count: nat)
      requires Valid() && dst + count <= cells.Length && Holds(cells[dst..dst + count]) <= held
      modifies this
      ensures Valid() && held == old(held) - Holds(cells[dst..dst + count])
    {
      hide Valid, Holds, Copies, Remaining, SameTexts;
      ghost var d, most := cells[dst..dst + count], held;
      RemainingAll(most, d);
      var i := 0;
      while i < count
        invariant 0 <= i <= count && Valid() && held == Remaining(most, d, i)
      {
        RemainingNext(most, d, i);
        assert cells[dst + i] == d[i];
        Release(cells[dst + i]);
        i := i + 1;
      }
      RemainingNone(most, d);
    }

    /** Let go of the first `n` of the holds taken. */
    method Undo(cells: array<Link>, src: nat, n: nat, ghost s: seq<Link>, ghost h: multiset<Link>)
      requires Valid() && n <= |s| && src + |s| <= cells.Length && cells[src..src + |s|] == s
               && held == h + Holds(s[..n])
      modifies `list, `table, `records, `bytes, `held
      ensures Valid() && held == h
    {
      hide Valid, Holds, Copies;
      var i := n;
      HoldsNothing(s);
      while i > 0
        invariant 0 <= i <= n && Valid() && held == h + Holds(s[..i])
      {
        i := i - 1;
        HoldsNext(s, i);
        CopiesHeld(s[i]);
        assert cells[src + i] == s[i];
        Release(cells[src + i]);
      }
    }

    /** A live record with these texts. */
    predicate Has(l: Link, uri: seq<Byte>, name: seq<Byte>)
      reads `table
    {
      l in table && table[l].uri == uri && table[l].name == name
    }

    /** Hold a link to a target: the live record of that target and name when it has a name, else a new one. */
    method Create(uri: seq<Byte>, name: seq<Byte>, storage: bool) returns (l: Link)
      requires Valid()
      modifies this
      ensures Valid() && held == old(held) + Copies(l, 1)
      ensures l != 0 ==>
              Has(l, uri, name) && 0 < |uri| <= URI_MAX && |name| <= NAME_MAX && Printable(uri) && Printable(name)
      ensures l != 0 && (name == [] || forall k <- old(table) :: !old(Has(k, uri, name))) ==> l !in old(table)
      ensures name != [] && l != 0 ==> forall k <- old(table) :: old(Has(k, uri, name)) ==> l in old(table)
      ensures l == 0 ==> table == old(table) && list == old(list)
      ensures (l != 0) == old(Available(uri, name, storage))
      ensures SameTexts(old(table), table, old(held))
    {
      hide Sound, Unshared, Printable;
      if |uri| == 0 || |uri| > URI_MAX || |name| > NAME_MAX || !Printable(uri) || !Printable(name) { return 0; }
      var i := Search(uri, name);
      if name != [] && i < |list| {
        l := list[i];
        OnlyOne(l, uri, name);
        var ok := Retain(l);
        if !ok { l := 0; }
        return;
      }
      var size := recordBytes + |uri| + |name| + 1;
      if records >= RECORD_MAX || size > BYTES_MAX || bytes > BYTES_MAX - size || !storage { return 0; }
      l := Add(uri, name);
    }

    /** Make the record of a new link, at the head of the list and held once. */
    method Add(uri: seq<Byte>, name: seq<Byte>) returns (l: Link)
      requires Valid() && Room(uri, name) && address !in table && address != 0
      requires name != [] ==> forall k <- table :: !Has(k, uri, name)
      modifies this
      ensures Valid() && held == old(held) + Copies(l, 1) && l != 0 && l !in old(table) && Has(l, uri, name)
      ensures SameTexts(old(table), table, old(held))
    {
      hide Sound, Unshared;
      var size := recordBytes + |uri| + |name| + 1;
      UnsharedWith(table, address, Record(1, size, uri, name));
      SoundWith(list, table, records, bytes, address, held, Record(1, size, uri, name));
      l := address;
      list, table, address := [l] + list, table[l := Record(1, size, uri, name)], address + 1;
      records, bytes, held := records + 1, bytes + size, held + multiset{l};
    }

    lemma OnlyOne(l: Link, uri: seq<Byte>, name: seq<Byte>)
      requires Valid() && Has(l, uri, name) && name != []
      ensures forall k <- table | Has(k, uri, name) :: k == l
    {
    }

    /** The first live record with these texts. */
    method Search(uri: seq<Byte>, name: seq<Byte>) returns (i: nat)
      requires Valid()
      ensures i <= |list| && (i < |list| ==> Has(list[i], uri, name) && list[i] != 0)
      ensures i == |list| ==> forall k <- table :: !Has(k, uri, name)
      ensures address !in table && address != 0
    {
      hide Sound;
      i := 0;
      NoneListed(uri, name);
      while i < |list|
        invariant 0 <= i <= |list| && forall k | 0 <= k < i :: !Has(list[k], uri, name)
      {
        Listed(list[i]);
        if table[list[i]].uri == uri && table[list[i]].name == name { return; }
        i := i + 1;
      }
    }

    lemma Listed(l: Link)
      requires Valid()
      ensures l in list <==> l in table
      ensures l in list ==> l != 0
    {
    }

    lemma NoneListed(uri: seq<Byte>, name: seq<Byte>)
      requires Valid()
      ensures (forall k | 0 <= k < |list| :: !Has(list[k], uri, name)) ==> forall k <- table :: !Has(k, uri, name)
      ensures address !in table && address != 0
    {
    }

    /** Set the cursor's link from a payload of parameters, a semicolon and a target. An empty target closes the link;
        a malformed payload or a failure closes it too, and says so. */
    method Open(current: Link, payload: seq<Byte>, storage: bool) returns (next: Link, valid: bool)
      requires Valid() && (current == 0 || held[current] > 0)
      modifies this
      ensures Valid() && held == old(held) + Copies(next, 1) - Copies(current, 1)
      ensures next != 0 ==> Has(next, TargetOf(payload), NameOf(payload)) && Payload(payload)
      ensures valid <==> Payload(payload) && (TargetOf(payload) == [] || next != 0)
      ensures (next != 0) ==
              (Payload(payload) && TargetOf(payload) != []
               && old(Available(TargetOf(payload), NameOf(payload), storage)))
    {
      hide Sound, Printable;
      next, valid := 0, false;
      var separator := Find(payload, 0, |payload|, 59);
      assert payload[..|payload|] == payload;
      SeparatorIs(payload);
      if |payload| <= PAYLOAD_MAX && Printable(payload) && separator < |payload| {
        var name := ReadName(payload, separator);
        var uri := payload[separator + 1..];
        if uri == [] {
          valid := true;
        } else {
          next := Create(uri, name, storage);
          valid := next != 0;
        }
      }
      ghost var h := held;
      CursorHolds(old(held), next, current);
      Release(current);
    }

    lemma CursorHolds(h: multiset<Link>, next: Link, current: Link)
      requires current == 0 || h[current] > 0
      ensures current == 0 || (h + Copies(next, 1))[current] > 0
      ensures next != 0 ==> (h + Copies(next, 1) - Copies(current, 1))[next] > 0
    {
    }

    lemma HeldInTable(s: seq<Link>, i: nat)
      requires Valid() && i < |s| && Holds(s) <= held
      ensures s[i] == 0 || s[i] in table
    {
      HoldsNext(s, i);
    }
  }

  method Move(cells: array<Link>, dst: nat, src: nat, count: nat)
    requires dst + count <= cells.Length && src + count <= cells.Length
    modifies cells
    ensures cells[..] == Overlaid(old(cells[..]), dst, old(cells[src..src + count]))
  {
    forall k | 0 <= k < count { cells[dst + k] := cells[src + k]; }
  }

  /** The cells with a piece laid over them. */
  function Overlaid(cells: seq<Link>, dst: nat, piece: seq<Link>): seq<Link>
    requires dst + |piece| <= |cells|
  {
    cells[..dst] + piece + cells[dst + |piece|..]
  }

  lemma OverlaidHolds(cells: seq<Link>, dst: nat, piece: seq<Link>)
    requires dst + |piece| <= |cells|
    ensures Holds(Overlaid(cells, dst, piece)) + Holds(cells[dst..dst + |piece|]) == Holds(cells) + Holds(piece)
  {
    assert cells == cells[..dst] + cells[dst..dst + |piece|] + cells[dst + |piece|..];
  }

  lemma FilledHolds(cells: seq<Link>, start: nat, count: nat, l: Link)
    requires start + count <= |cells|
    ensures Holds(Filled(cells, start, count, l)) + Holds(cells[start..start + count])
            == Holds(cells) + Copies(l, count)
  {
    var piece := seq(count, _ => l);
    OverlaidHolds(cells, start, piece);
    assert Filled(cells, start, count, l) == Overlaid(cells, start, piece);
    CopiesAre(piece, l);
  }

  lemma {:induction false} CopiesAre(piece: seq<Link>, l: Link)
    requires forall k | 0 <= k < |piece| :: piece[k] == l
    ensures Holds(piece) == Copies(l, |piece|)
    decreases |piece|
  {
    if piece != [] {
      var n := |piece| - 1;
      CopiesAre(piece[..n], l);
      assert piece == piece[..n] + [l];
      HoldsMore(piece[..n], l);
    }
  }

  lemma HoldsSlice(cells: seq<Link>, start: nat, count: nat)
    requires start + count <= |cells|
    ensures Holds(cells[start..start + count]) <= Holds(cells)
  {
    assert cells == cells[..start] + cells[start..start + count] + cells[start + count..];
  }

  lemma CopiesHeld(l: Link)
    ensures l == 0 || Copies(l, 1)[l] == 1
  {
  }

  /** What is held and what the cells hold change by the same. */
  lemma BalanceOf(h: multiset<Link>, more: multiset<Link>, less: multiset<Link>, before: multiset<Link>,
                  after: multiset<Link>)
    requires less <= h + more && after + less == before + more
    ensures (h + more - less) + before == h + after
  {
    forall l: Link ensures (h + more - less)[l] + before[l] == h[l] + after[l] {
      assert (after + less)[l] == (before + more)[l];
    }
  }

  /** A link that cannot be held once more is held very often already. */
  lemma FullOf(s: seq<Link>, i: nat, h: multiset<Link>)
    requires i < |s| && s[i] != 0 && (h + Holds(s[..i]))[s[i]] >= COUNT_MAX
    ensures !Holdable(h, Holds(s))
  {
    hide Holds;
    HoldsNext(s, i);
  }

  /** The cells with `count` of them set to one link. */
  function Filled(cells: seq<Link>, start: nat, count: nat, l: Link): (r: seq<Link>)
    requires start + count <= |cells|
    ensures |r| == |cells|
  {
    seq(|cells|, k requires 0 <= k < |cells| => if start <= k < start + count then l else cells[k])
  }

  lemma FilledNone(cells: seq<Link>, start: nat, l: Link)
    requires start <= |cells|
    ensures Filled(cells, start, 0, l) == cells
  {
  }

  lemma FilledNext(cells: seq<Link>, start: nat, i: nat, l: Link)
    requires start + i < |cells|
    ensures Filled(cells, start, i, l)[start + i] == cells[start + i]
    ensures Filled(cells, start, i + 1, l) == Filled(cells, start, i, l)[start + i := l]
  {
  }

  /** What is held after the first `i` cells have let go. */
  function Remaining(most: multiset<Link>, cells: seq<Link>, i: nat): multiset<Link>
    requires i <= |cells|
  {
    most - Holds(cells[..i])
  }

  lemma RemainingAll(most: multiset<Link>, cells: seq<Link>)
    ensures Remaining(most, cells, 0) == most
  {
    HoldsNothing(cells);
  }

  lemma RemainingNone(most: multiset<Link>, cells: seq<Link>)
    ensures Remaining(most, cells, |cells|) == most - Holds(cells)
  {
    assert cells[..|cells|] == cells;
  }

  lemma RemainingNext(most: multiset<Link>, cells: seq<Link>, i: nat)
    requires i < |cells| && Holds(cells) <= most
    ensures cells[i] == 0 || Remaining(most, cells, i)[cells[i]] > 0
    ensures Remaining(most, cells, i) - Copies(cells[i], 1) == Remaining(most, cells, i + 1)
  {
    HeldEnough(cells, i, most, most - Holds(cells[..i]));
  }

  lemma HoldsNothing(cells: seq<Link>)
    ensures Holds(cells[..0]) == multiset{}
  {
  }

  /** As long as not all cells have let go, the next one still holds its link. */
  lemma HeldEnough(cells: seq<Link>, i: nat, most: multiset<Link>, held: multiset<Link>)
    requires i < |cells| && Holds(cells) <= most && held == most - Holds(cells[..i])
    ensures cells[i] == 0 || held[cells[i]] > 0
    ensures held - Copies(cells[i], 1) == most - Holds(cells[..i + 1])
  {
    HoldsNext(cells, i);
  }

  /** The next cell's hold is among those of all the cells. */
  lemma HoldsNext(cells: seq<Link>, i: nat)
    requires i < |cells|
    ensures Holds(cells[..i + 1]) == Holds(cells[..i]) + Copies(cells[i], 1) && Holds(cells[..i + 1]) <= Holds(cells)
  {
    assert cells[..i + 1] == cells[..i] + [cells[i]];
    HoldsMore(cells[..i], cells[i]);
    assert cells == cells[..i + 1] + cells[i + 1..];
  }
}
