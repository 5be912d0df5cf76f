/** Choosing the match nearest to a cursor position, with the row it lies on counted while walking the rows. */
module LiteralOrigin {
  import opened Common
  import opened Rows
  import opened Streams
  import opened LiteralText
  import opened LiteralSearch
  import opened LiteralSelect

  /** A match at `m` may be chosen from origin `o`. */
  predicate Admits(m: Position, o: Position, reverse: bool, inclusive: bool) {
    (if reverse then Before(m, o) else Before(o, m)) || (inclusive && m == o)
  }

  /** The admissible match nearest to `o`, or from the far end of the list when there is none. */
  function Nearest(all: seq<Span>, o: Position, reverse: bool, inclusive: bool): (r: Option<Span>) {
    if all == [] then None
    else if reverse then Some(LastAdmitted(all, |all|, o, inclusive).GetOr(all[|all| - 1]))
    else Some(FirstAdmitted(all, 0, o, inclusive).GetOr(all[0]))
  }

  function FirstAdmitted(all: seq<Span>, i: nat, o: Position, inclusive: bool): Option<Span>
    requires i <= |all|
    decreases |all| - i
  {
    if i == |all| then None
    else if Admits(all[i].first, o, false, inclusive) then Some(all[i])
    else FirstAdmitted(all, i + 1, o, inclusive)
  }

  function LastAdmitted(all: seq<Span>, n: nat, o: Position, inclusive: bool): Option<Span>
    requires n <= |all|
    decreases n
  {
    if n == 0 then None
    else if Admits(all[n - 1].first, o, true, inclusive) then Some(all[n - 1])
    else LastAdmitted(all, n - 1, o, inclusive)
  }

  lemma {:induction false} FirstAdmittedAt(all: seq<Span>, i: nat, k: nat, o: Position, inclusive: bool)
    requires i <= k <= |all| && forall l | i <= l < k :: !Admits(all[l].first, o, false, inclusive)
    requires k < |all| ==> Admits(all[k].first, o, false, inclusive)
    ensures FirstAdmitted(all, i, o, inclusive) == if k < |all| then Some(all[k]) else None
    decreases k - i
  {
    if i < k { FirstAdmittedAt(all, i + 1, k, o, inclusive); }
  }

  lemma {:induction false} LastAdmittedAt(all: seq<Span>, n: nat, k: nat, o: Position, inclusive: bool)
    requires k <= n <= |all| && forall l | k <= l < n :: !Admits(all[l].first, o, true, inclusive)
    requires k > 0 ==> Admits(all[k - 1].first, o, true, inclusive)
    ensures LastAdmitted(all, n, o, inclusive) == if k > 0 then Some(all[k - 1]) else None
    decreases n - k
  {
    if k < n { LastAdmittedAt(all, n - 1, k, o, inclusive); }
  }

  /** In a list that goes forwards, nothing after an inadmissible match can be admitted backwards. */
  lemma NoneLater(all: seq<Span>, k: nat, o: Position, inclusive: bool)
    requires Increasing(all) && k < |all| && !Admits(all[k].first, o, true, inclusive)
    ensures forall l | k <= l < |all| :: !Admits(all[l].first, o, true, inclusive)
  {
  }

  lemma {:induction false} TokensInRows(rows: seq<Row>, line: nat, from: nat)
    requires line < |rows|
    ensures var end := TextEnd(rows[line]);
            forall t <- CellTokens(rows[line], line, from, end, end) + TokensAfter(rows, line) ::
              line <= t.first.line < |rows|
    decreases |rows| - line, Gap(from, TextEnd(rows[line]))
  {
    var end := TextEnd(rows[line]);
    if from < end {
      TokensInRows(rows, line, from + 1);
    } else if line + 1 < |rows| {
      TokensInRows(rows, line + 1, 0);
    }
  }

  lemma HitsInRows(q: seq<CodePoint>, rows: seq<Row>, head: nat, fold: bool, n: nat)
    requires q != [] && n <= |TokensFrom(rows, head, 0)|
    ensures forall h <- Hits(q, TokensFrom(rows, head, 0), fold, n) :: head <= h.first.line < |rows|
  {
    var tokens := TokensFrom(rows, head, 0);
    if head < |rows| { TokensInRows(rows, head, 0); }
    hide Hits, TokensFrom, OccursAt;
    forall h <- Hits(q, tokens, fold, n)
      ensures head <= h.first.line < |rows|
    {
      HitsAreOccurrences(q, tokens, fold, n, h);
      var e: nat :| e <= n && HitAt(q, tokens, fold, h, e);
      HitFirst(q, tokens, fold, h, e);
    }
  }

  lemma HitFirst(q: seq<CodePoint>, tokens: seq<Token>, fold: bool, h: Span, e: nat)
    requires q != [] && e <= |tokens| && HitAt(q, tokens, fold, h, e)
    ensures |q| <= e && tokens[e - |q|] in tokens && h.first == tokens[e - |q|].first
  {
  }

  /** None of the matches seen settles the choice; going backwards `kept` is the nearest admissible one so far. */
  ghost predicate Open(seen: seq<Span>, o: Position, reverse: bool, inclusive: bool, kept: Option<Span>) {
    if !reverse then forall h <- seen :: !Admits(h.first, o, false, inclusive)
    else if kept.Some? then seen != [] && kept.value == seen[|seen| - 1] && Admits(kept.value.first, o, true, inclusive)
    else forall h <- seen :: !Admits(h.first, o, true, inclusive)
  }

  lemma OpenNone(o: Position, reverse: bool, inclusive: bool)
    ensures Open([], o, reverse, inclusive, None)
  {
  }

  lemma OpenMore(seen: seq<Span>, m: Span, o: Position, reverse: bool, inclusive: bool, kept: Option<Span>)
    requires Open(seen, o, reverse, inclusive, kept)
    requires if reverse then kept == None
             || Admits(m.first, o, true, inclusive) else !Admits(m.first, o, false, inclusive)
    ensures Open(seen + [m], o, reverse, inclusive, if reverse && Admits(m.first, o, true, inclusive) then Some(m)
                 else kept)
  {
  }

  /** Match `k` settles the choice. */
  lemma Settles(all: seq<Span>, k: nat, o: Position, reverse: bool, inclusive: bool, kept: Option<Span>)
    requires Increasing(all) && k < |all| && Open(all[..k], o, reverse, inclusive, kept)
    requires if reverse then kept.Some?
             && !Admits(all[k].first, o, true, inclusive) else Admits(all[k].first, o, false, inclusive)
    ensures Nearest(all, o, reverse, inclusive) == if reverse then kept else Some(all[k])
  {
    hide Increasing, Admits;
    if reverse {
      NoneLater(all, k, o, inclusive);
      LastAdmittedAt(all, |all|, k, o, inclusive);
      assert all[k - 1] == all[..k][k - 1];
    } else {
      assert forall l | 0 <= l < k :: all[l] in all[..k];
      FirstAdmittedAt(all, 0, k, o, inclusive);
    }
  }

  /** All matches have been seen: the choice is the one kept, or falls on the far end of the list. */
  lemma SettlesAtEnd(all: seq<Span>, o: Position, reverse: bool, inclusive: bool, kept: Option<Span>)
    requires Open(all, o, reverse, inclusive, kept)
    ensures Nearest(all, o, reverse, inclusive) ==
            if all == [] then None else if reverse then Some(kept.GetOr(all[|all| - 1])) else Some(all[0])
  {
    hide Admits;
    if reverse {
      assert forall l | 0 <= l < |all| :: all[l] in all;
      LastAdmittedAt(all, |all|, if kept.Some? then |all| else 0, o, inclusive);
    } else {
      assert forall l | 0 <= l < |all| :: all[l] in all;
      FirstAdmittedAt(all, 0, |all|, o, inclusive);
    }
  }

  /** A match with the number of its first row, counted from the head of the rows. */
  datatype Located = Located(span: Span, row: nat)

  class Origin {
    const literal: Searcher
    const head: nat
    var origin: Position
    var reverse: bool
    var inclusive: bool
    var pending: Span
    var first: Located
    var last: Located
    var before: Located
    var result: Located
    /** The row the walk has reached, and its number counted from the head. */
    var line: nat
    var row: nat
    var have: bool
    var haveBefore: bool
    var locating: bool
    var finished: bool

    ghost function All(): seq<Span>
      requires literal.Shaped() && literal.length > 0
      reads literal`length, literal`tokens, literal`asciiFold, literal.query
    {
      Hits(literal.Q(), literal.tokens, literal.asciiFold, |literal.tokens|)
    }

    /** The matches classified so far. */
    ghost function Seen(): seq<Span>
      requires locating ==> literal.told != []
      reads `locating, literal`told
    {
      if locating then literal.told[..|literal.told| - 1] else literal.told
    }

    /** The row number is that of the span's first row. */
    predicate Numbered(m: Located) {
      m.span.first.line == head + m.row
    }

    /** Where the origin lies among the rows. */
    function Home(): Position
      reads `origin
    {
      Position(head + origin.line, origin.column)
    }

    function Kept(): Option<Span>
      reads `haveBefore, `before
    {
      if haveBefore then Some(before.span) else None
    }

    /** All matches lie, in order, in the rows from the head on. */
    ghost predicate Placed()
      requires literal.Shaped() && literal.length > 0
      reads literal`length, literal`tokens, literal`asciiFold, literal.query
    {
      Increasing(All()) && forall h <- All() :: head <= h.first.line < |literal.rows|
    }

    /** The classification of the matches seen. */
    ghost predicate Sorted(seen: seq<Span>)
      reads `origin, `reverse, `inclusive, `first, `last, `before, `have, `haveBefore
    {
      && (have <==> seen != [])
      && (have ==> first.span == seen[0] && last.span == seen[|seen| - 1] && Numbered(first) && Numbered(last))
      && (haveBefore ==> Numbered(before)) && Open(seen, Home(), reverse, inclusive, Kept())
    }

    /** The walk has not passed the row of any match still to be classified. */
    ghost predicate Walking()
      requires literal.Shaped() && literal.length > 0 && (locating ==> literal.told != [])
      reads `line, `row, `locating, `pending, literal`told, literal`length, literal`tokens, literal`asciiFold,
            literal.query
    {
      && line == head + row && (locating ==> pending == literal.told[|literal.told| - 1])
      && (forall k | |Seen()| <= k < |All()| :: line <= All()[k].first.line)
    }

    ghost predicate Valid()
      reads this, literal, literal.query, literal.prefix, literal.recent
    {
      && literal.Valid()
      && (literal.length > 0 && !finished ==>
            Placed() && (locating ==> literal.told != []) && Walking() && Sorted(Seen()))
    }

    constructor (rows: seq<Row>, head: nat)
      requires head <= |rows|
      ensures Valid() && this.head == head && literal.rows == rows && literal.length == 0
      ensures fresh(literal) && fresh(literal.query) && fresh(literal.prefix) && fresh(literal.recent)
    {
      literal := new Searcher(rows);
      this.head := head;
      var nowhere := Span(Position(0, 0), Position(0, 0));
      var nothing := Located(nowhere, 0);
      origin, reverse, inclusive, pending := Position(0, 0), false, false, nowhere;
      first, last, before, result := nothing, nothing, nothing, nothing;
      line, row, have, haveBefore, locating, finished := head, 0, false, false, false, true;
    }

    /** Row and column of the origin count from the head. */
    method Start(q: seq<CodePoint>, reverse: bool, inclusive: bool, origin: Position) returns (ok: bool)
      requires literal.Shaped() && head <= |literal.rows|
      modifies this, literal, literal.query, literal.prefix
      ensures Valid() && (ok <==> Searchable(q)) && finished == !ok
      ensures ok ==>
              literal.length > 0 && literal.Q() == Folded(q, true)
                && literal.tokens == TokensFrom(literal.rows, head, 0) && literal.asciiFold
      ensures this.origin == origin && this.reverse == reverse && this.inclusive == inclusive
    {
      hide Searchable, Hits, TokensFrom, Searcher.Valid, Placed, Walking, Sorted, Searcher.Q;
      line, row, have, haveBefore, locating := head, 0, false, false, false;
      this.origin, this.reverse, this.inclusive := origin, reverse, inclusive;
      ok := literal.Start(head, 0, q, true);
      finished := !ok;
      if ok {
        QueryNotEmpty(q);
        FreshIsValid();
      }
    }

    /** Before the first step everything is still to be classified. */
    lemma FreshIsValid()
      requires literal.Valid() && literal.length > 0 && literal.told == []
      requires head <= |literal.rows| && literal.tokens == TokensFrom(literal.rows, head, 0)
      requires line == head && row == 0 && !have && !haveBefore && !locating
      ensures Valid()
    {
      hide Hits, TokensFrom, Searcher.Current, Searcher.Tabled, Searcher.Reading, Placed, Admits, Open, Nearest,
           Increasing;
      PlacedAtStart();
      OpenNone(Home(), reverse, inclusive);
      assert Seen() == [];
    }

    lemma PlacedAtStart()
      requires literal.Shaped() && literal.length > 0 && head <= |literal.rows|
               && literal.tokens == TokensFrom(literal.rows, head, 0)
      ensures Placed() && forall k | 0 <= k < |All()| :: head <= All()[k].first.line
    {
      hide Hits, TokensFrom;
      TextAscends(literal.rows, head, 0);
      HitsIncrease(literal.Q(), literal.tokens, literal.asciiFold, |literal.tokens|);
      HitsInRows(literal.Q(), literal.rows, head, literal.asciiFold, |literal.tokens|);
    }

    lemma ToldIsPrefix()
      requires literal.Valid() && literal.length > 0
      ensures literal.told <= All() && (literal.read == |literal.tokens| ==> literal.told == All())
    {
      HitsPrefix(literal.Q(), literal.tokens, literal.asciiFold, literal.read, |literal.tokens|);
    }

    /** The pending match is the next of all the matches; those after it lie in the same row or later ones. */
    lemma PendingPlaced()
      requires Valid() && literal.length > 0 && !finished && locating
      ensures var k := |Seen()|;
              && k < |All()| && All()[..k] == Seen() && All()[k] == pending && literal.told == Seen() + [pending]
              && Increasing(All()) && pending.first.line < |literal.rows|
              && (forall l | k <= l < |All()| :: pending.first.line <= All()[l].first.line)
    {
      hide Hits, Open, Searcher.Current, Searcher.Tabled, Searcher.Reading;
      ToldIsPrefix();
      LaterRows(All(), |Seen()|);
      assert All()[|Seen()|] in All();
    }

    /** One transition of the walk towards the row of the pending match, which is never past the last row. */
    method Walk()
      requires Valid() && literal.length > 0 && !finished && locating && line != pending.first.line
      modifies `line, `row
      ensures Valid() && line == old(line) + 1 && line <= pending.first.line && old(line) < |literal.rows|
    {
      hide Hits, Placed, Open, Increasing, Sorted, Searcher.Current, Searcher.Tabled, Searcher.Reading;
      PendingPlaced();
      line, row := line + 1, row + 1;
    }

    /** A match found is the nearest one, and its row number is right. */
    ghost predicate Answers(r: SearchResult)
      requires literal.Shaped() && literal.length > 0
      reads this, literal`length, literal`tokens, literal`asciiFold, literal.query
    {
      r.SearchFound? ==>
        Some(r.match_) == Nearest(All(), Home(), reverse, inclusive) && result.span == r.match_ && Numbered(result)
    }

    /** Keep the pending match as the last one, and as the first when there is none yet. */
    method Record()
      requires Valid() && literal.length > 0 && !finished && locating && line == pending.first.line
      modifies `locating, `first, `last, `have
      ensures !locating && Seen() == old(Seen()) + [pending] && Walking()
      ensures have && first.span == Seen()[0] && last == Located(pending, row) && Numbered(first) && Numbered(last)
    {
      hide Hits, Increasing, Placed, Open, Searcher.Current, Searcher.Tabled, Searcher.Reading;
      PendingPlaced();
      locating := false;
      if !have { first := Located(pending, row); }
      last, have := Located(pending, row), true;
    }

    /** Decide whether the pending match settles the choice. */
    method Classify() returns (r: SearchResult)
      requires Valid() && literal.length > 0 && !finished && locating && line == pending.first.line
      modifies `locating, `first, `last, `have, `before, `haveBefore, `result, `finished
      ensures Valid() && Answers(r) && r != SearchDone && finished == r.SearchFound? && !locating
    {
      hide Hits, Increasing, Placed, Open, Searcher.Current, Searcher.Tabled, Searcher.Reading, Nearest, Walking;
      PendingPlaced();
      ghost var all, seen, k, kept := All(), Seen(), |Seen()|, Kept();
      Record();
      var equal := row == origin.line && pending.first.column == origin.column;
      var earlier := row < origin.line || (row == origin.line && pending.first.column < origin.column);
      if reverse {
        if earlier || (equal && inclusive) {
          before, haveBefore := last, true;
        } else if haveBefore {
          Settles(all, k, Home(), reverse, inclusive, kept);
          result, finished := before, true;
          return SearchFound(before.span);
        }
      } else if !earlier && (!equal || inclusive) {
        Settles(all, k, Home(), reverse, inclusive, kept);
        result, finished := last, true;
        return SearchFound(pending);
      }
      OpenMore(seen, pending, Home(), reverse, inclusive, kept);
      return SearchMore;
    }

    /** The scan is done: what has been kept decides. */
    method Conclude() returns (r: SearchResult)
      requires Valid() && literal.length > 0 && !finished && !locating && literal.read == |literal.tokens|
      modifies `result, `finished
      ensures Valid() && Answers(r) && finished && (r == SearchDone ==> All() == []) && r != SearchMore
    {
      hide Hits, Increasing, Placed, Open, Searcher.Current, Searcher.Tabled, Searcher.Reading, Nearest;
      ToldIsPrefix();
      SettlesAtEnd(All(), Home(), reverse, inclusive, Kept());
      finished := true;
      if !have { return SearchDone; }
      result := if !reverse then first else if haveBefore then before else last;
      return SearchFound(result.span);
    }

    /** Units of the walk and the decision that the pending match still needs. */
    ghost function Left(): nat
      reads this
    {
      if locating then 1 + Gap(line, pending.first.line) else 0
    }

    ghost predicate Nearer(work: nat, left: nat)
      requires literal.Shaped() && (literal.length > 0 ==> literal.Reading())
      reads this, literal
    {
      literal.Work() < work || (literal.Work() == work && Left() < left)
    }

    /** What one unit may answer. */
    ghost predicate Answered(r: SearchResult)
      requires literal.Shaped() && literal.length > 0
      reads this, literal`length, literal`tokens, literal`asciiFold, literal.query
    {
      Answers(r) && (r == SearchMore <==> !finished) && (r == SearchDone ==> All() == [])
    }

    /** One step of the scan. */
    method Scan() returns (r: SearchResult)
      requires Valid() && literal.length > 0 && !finished && !locating
      modifies this, literal`stream, literal`matched, literal`next, literal`read, literal`told, literal.recent
      ensures Valid() && origin == old(origin) && reverse == old(reverse) && inclusive == old(inclusive)
      ensures Answered(r) && (r == SearchMore ==> Nearer(old(literal.Work()), 0))
    {
      hide Hits, Open, Increasing, Placed, Sorted, Searcher.Current, Searcher.Tabled, Searcher.Reading, Nearest,
           Searcher.Work;
      ghost var told := literal.told;
      var status := literal.Step(1);
      if status == SearchDone {
        r := Conclude();
        return;
      }
      if status.SearchFound? {
        pending, locating := status.match_, true;
        assert Seen() == told;
      }
      return SearchMore;
    }

    /** One unit: a step of the scan, a row transition or one decision. */
    method UnitStep() returns (r: SearchResult)
      requires Valid() && literal.length > 0 && !finished
      modifies this, literal`stream, literal`matched, literal`next, literal`read, literal`told, literal.recent
      ensures Valid() && origin == old(origin) && reverse == old(reverse) && inclusive == old(inclusive)
      ensures Answered(r) && (r == SearchMore ==> Nearer(old(literal.Work()), old(Left())))
    {
      hide Hits, Open, Placed, Increasing, Sorted, Walking, Searcher.Current, Searcher.Tabled, Searcher.Reading,
           Nearest, Searcher.Work;
      if !locating {
        r := Scan();
      } else if line != pending.first.line {
        Walk();
        r := SearchMore;
      } else {
        r := Classify();
      }
    }

    /** One call: at most `budget` units. A match found is the nearest one; that there is none is reported only when
        there are no matches, or after one was found. */
    method Step(budget: nat) returns (r: SearchResult)
      requires Valid()
      modifies this, literal`stream, literal`matched, literal`next, literal`read, literal`told, literal.recent
      ensures Valid() && origin == old(origin) && reverse == old(reverse) && inclusive == old(inclusive)
      ensures match r
              case SearchFound(span) => literal.length > 0 && Answers(r) && finished
              case SearchDone => literal.length == 0 || old(finished) || (All() == [] && finished)
              case SearchMore => !finished && (budget > 0 ==> Nearer(old(literal.Work()), old(Left())))
    {
      hide Hits, Open, Placed, Sorted, Walking, Searcher.Current, Searcher.Tabled, Searcher.Reading, Nearest,
           Searcher.Work;
      if finished || literal.length == 0 { return SearchDone; }
      var left := budget;
      while left > 0
        invariant 0 <= left <= budget && Valid() && literal.length > 0 && !finished
        invariant origin == old(origin) && reverse == old(reverse) && inclusive == old(inclusive)
        invariant left < budget ==> Nearer(old(literal.Work()), old(Left()))
        invariant left == budget ==> literal.Work() == old(literal.Work()) && Left() == old(Left())
      {
        left := left - 1;
        r := UnitStep();
        if r != SearchMore { return; }
      }
      return SearchMore;
    }
  }

  /** Matches later in the list do not lie in earlier rows. */
  lemma LaterRows(all: seq<Span>, k: nat)
    requires Increasing(all) && k < |all|
    ensures forall l | k <= l < |all| :: all[k].first.line <= all[l].first.line
  {
  }
}
