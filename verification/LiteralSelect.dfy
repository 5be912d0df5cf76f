/** Choosing one match: the neighbour of a given match, or the nearest to a cursor, in the cyclic list of all
    matches. */
module LiteralSelect {
  import opened Common
  import opened Rows
  import opened Streams
  import opened LiteralText
  import opened LiteralSearch

  // ----- The list of all matches -----

  lemma {:induction false} HitsPrefix(q: seq<CodePoint>, tokens: seq<Token>, fold: bool, n: nat, m: nat)
    requires q != [] && n <= m <= |tokens|
    ensures Hits(q, tokens, fold, n) <= Hits(q, tokens, fold, m)
    decreases m
  {
    if n < m { HitsPrefix(q, tokens, fold, n, m - 1); }
  }

  /** Span `h` is that of an occurrence that ends at `e`. */
  predicate HitAt(q: seq<CodePoint>, tokens: seq<Token>, fold: bool, h: Span, e: nat)
    requires q != [] && e <= |tokens|
  {
    OccursAt(q, Folded(Scalars(tokens), fold), e) && h == Span(tokens[e - |q|].first, tokens[e - 1].end)
  }

  /** The list has the span of every occurrence and no other. */
  lemma {:induction false} HitsAreOccurrences(q: seq<CodePoint>, tokens: seq<Token>, fold: bool, n: nat, h: Span)
    requires q != [] && n <= |tokens|
    ensures h in Hits(q, tokens, fold, n) <==> exists e: nat :: e <= n && HitAt(q, tokens, fold, h, e)
    decreases n
  {
    if n > 0 {
      HitsOneMore(q, tokens, fold, n, h);
      hide Hits, HitAt;
      HitsAreOccurrences(q, tokens, fold, n - 1, h);
    }
  }

  lemma HitsOneMore(q: seq<CodePoint>, tokens: seq<Token>, fold: bool, n: nat, h: Span)
    requires q != [] && 0 < n <= |tokens|
    ensures h in Hits(q, tokens, fold, n) <==> h in Hits(q, tokens, fold, n - 1) || HitAt(q, tokens, fold, h, n)
  {
    hide OccursAt, Folded;
  }

  /** The matches begin one after the other. */
  predicate Increasing(spans: seq<Span>) {
    forall a, b | 0 <= a < b < |spans| :: Before(spans[a].first, spans[b].first)
  }

  lemma HitBefore(q: seq<CodePoint>, tokens: seq<Token>, fold: bool, n: nat, h: Span)
    requires q != [] && 0 < n <= |tokens| && |q| <= n && h in Hits(q, tokens, fold, n - 1)
    requires forall a, b | 0 <= a < b < |tokens| :: Before(tokens[a].first, tokens[b].first)
    ensures Before(h.first, tokens[n - |q|].first)
  {
    hide Hits;
    HitsAreOccurrences(q, tokens, fold, n - 1, h);
    var e: nat :| e <= n - 1 && HitAt(q, tokens, fold, h, e);
  }

  lemma {:induction false} HitsIncrease(q: seq<CodePoint>, tokens: seq<Token>, fold: bool, n: nat)
    requires q != [] && n <= |tokens|
    requires forall a, b | 0 <= a < b < |tokens| :: Before(tokens[a].first, tokens[b].first)
    ensures Increasing(Hits(q, tokens, fold, n))
    decreases n
  {
    if n > 0 {
      var hits := Hits(q, tokens, fold, n - 1);
      HitsIncrease(q, tokens, fold, n - 1);
      if OccursAt(q, Folded(Scalars(tokens), fold), n) {
        forall a | 0 <= a < |hits|
          ensures Before(hits[a].first, tokens[n - |q|].first)
        {
          HitBefore(q, tokens, fold, n, hits[a]);
        }
      }
    }
  }

  lemma TextAscends(rows: seq<Row>, first: nat, column: nat)
    ensures var tokens := TokensFrom(rows, first, column);
            forall a, b | 0 <= a < b < |tokens| :: Before(tokens[a].first, tokens[b].first)
  {
    if first < |rows| {
      CellsAscend(rows, first, column);
    }
  }

  // ----- The neighbour of a match -----

  ghost function IndexOf(all: seq<Span>, h: Span): (i: nat)
    requires h in all
    ensures i < |all| && all[i] == h
  {
    var i :| 0 <= i < |all| && all[i] == h;
    i
  }

  /** The match after or before `anchor` in the cyclic list `all`; without an anchor in the list, the first or last. */
  ghost function Chosen(all: seq<Span>, anchor: Option<Span>, reverse: bool): Option<Span> {
    if all == [] then None
    else if anchor.Some? && anchor.value in all then
      var i := IndexOf(all, anchor.value);
      Some(all[(if reverse then i + |all| - 1 else i + 1) % |all|])
    else Some(all[if reverse then |all| - 1 else 0])
  }

  lemma IncreasingApart(spans: seq<Span>, a: nat, b: nat)
    requires Increasing(spans) && a < |spans| && b < |spans| && spans[a] == spans[b]
    ensures a == b
  {
  }

  lemma ChosenAt(all: seq<Span>, reverse: bool, i: nat)
    requires Increasing(all) && i < |all|
    ensures Chosen(all, Some(all[i]), reverse) == Some(all[(if reverse then i + |all| - 1 else i + 1) % |all|])
  {
    IncreasingApart(all, i, IndexOf(all, all[i]));
  }

  /** What has been passed over when nothing has been chosen yet. */
  ghost predicate Undecided(told: seq<Span>, anchor: Option<Span>, reverse: bool) {
    if reverse then forall k | 0 < k < |told| :: Some(told[k]) != anchor
    else (anchor == None ==> told == []) && forall k | 0 <= k < |told| - 1 :: Some(told[k]) != anchor
  }

  class Selector {
    const scan: Searcher
    var first: Span
    var last: Span
    var anchor: Option<Span>
    var reverse: bool
    var seenAnchor: bool
    var haveMatch: bool
    var finished: bool

    /** All matches of the text. */
    ghost function All(): seq<Span>
      requires scan.Shaped() && scan.length > 0
      reads scan, scan.query
    {
      Hits(scan.Q(), scan.tokens, scan.asciiFold, |scan.tokens|)
    }

    ghost predicate Valid()
      reads this, scan, scan.query, scan.prefix, scan.recent
    {
      && scan.Valid()
      && (scan.length > 0 && !finished ==>
            && Increasing(All())
            && (haveMatch <==> scan.told != [])
            && (haveMatch ==> first == scan.told[0] && last == scan.told[|scan.told| - 1])
            && (seenAnchor <==> anchor.Some? && anchor.value in scan.told)
            && Undecided(scan.told, anchor, reverse))
    }

    constructor (rows: seq<Row>)
      ensures Valid() && scan.rows == rows && scan.length == 0
      ensures fresh(scan) && fresh(scan.query) && fresh(scan.prefix) && fresh(scan.recent)
    {
      scan := new Searcher(rows);
      var nowhere := Span(Position(0, 0), Position(0, 0));
      first, last, anchor := nowhere, nowhere, None;
      reverse, seenAnchor, haveMatch, finished := false, false, false, false;
    }

    method Start(head: nat, q: seq<CodePoint>, fold: bool, reverse: bool, anchor: Option<Span>) returns (ok: bool)
      requires scan.Shaped() && head <= |scan.rows|
      modifies this, scan, scan.query, scan.prefix
      ensures Valid() && (ok <==> Searchable(q)) && scan.length == (if ok then |q| else 0)
      ensures ok ==>
              scan.Q() == Folded(q, fold) && scan.tokens == TokensFrom(scan.rows, head, 0) && scan.asciiFold == fold
      ensures ok ==> this.anchor == anchor && this.reverse == reverse && !finished
    {
      hide Searchable, Hits, TokensFrom, Searcher.Current, Searcher.Tabled;
      seenAnchor, haveMatch, finished := false, false, false;
      this.anchor, this.reverse := None, false;
      ok := scan.Start(head, 0, q, fold);
      if ok {
        this.reverse, this.anchor := reverse, anchor;
        QueryNotEmpty(q);
        TextAscends(scan.rows, head, 0);
        HitsIncrease(scan.Q(), scan.tokens, fold, |scan.tokens|);
      }
    }

    /** What has been told is the beginning of the list of all matches, and all of it when the text has been read. */
    lemma ToldIsPrefix()
      requires scan.Valid() && scan.length > 0
      ensures scan.told <= All() && (scan.read == |scan.tokens| ==> scan.told == All())
    {
      HitsPrefix(scan.Q(), scan.tokens, scan.asciiFold, scan.read, |scan.tokens|);
    }

    /** Take the next match of the scan: choose one now, or remember it. */
    method Consider(m: Span, ghost told: seq<Span>) returns (result: SearchResult)
      requires scan.Valid() && scan.length > 0 && !finished && Increasing(All()) && scan.told == told + [m]
      requires (haveMatch <==> told != []) && (haveMatch ==> first == told[0] && last == told[|told| - 1])
      requires (seenAnchor <==> anchor.Some? && anchor.value in told) && Undecided(told, anchor, reverse)
      modifies `first, `last, `seenAnchor, `haveMatch, `finished
      ensures Valid()
      ensures match result
              case SearchFound(span) => Some(span) == Chosen(All(), anchor, reverse) && finished
              case SearchMore => !finished
              case SearchDone => false
    {
      hide Hits, Increasing, Undecided, Searcher.Current, Searcher.Tabled, Searcher.Reading, Chosen;
      ToldIsPrefix();
      assert All()[|told|] == scan.told[|told|] == m;
      if anchor == Some(m) {
        seenAnchor := true;
        if reverse && haveMatch {
          BeforeAnchor(All(), |told|);
          assert All()[|told| - 1] == scan.told[|told| - 1];
          finished := true;
          return SearchFound(last);
        }
      } else if !reverse && (anchor == None || seenAnchor) {
        AfterAnchor(All(), told, anchor);
        finished := true;
        return SearchFound(m);
      }
      if !haveMatch { first := m; }
      last, haveMatch := m, true;
      StillUndecided(All(), told, m, anchor, reverse);
      return SearchMore;
    }

    /** One call, of at most `budget` steps of the scan. A match found is the one chosen from all matches; that there
        is none is reported only when there are no matches, or after one was found. */
    method Step(budget: nat) returns (result: SearchResult)
      requires Valid()
      modifies this, scan`stream, scan`matched, scan`next, scan`read, scan`told, scan.recent
      ensures Valid() && anchor == old(anchor) && reverse == old(reverse)
      ensures match result
              case SearchFound(span) => scan.length > 0 && Some(span) == Chosen(All(), anchor, reverse) && finished
              case SearchDone => scan.length == 0 || old(finished) || (All() == [] && finished)
              case SearchMore => !finished && (budget > 0 ==> scan.Work() < old(scan.Work()))
      ensures scan.Work() <= old(scan.Work())
    {
      hide Hits, Increasing, Undecided, Searcher.Current, Searcher.Tabled, Chosen, Rest, Streams.Valid, Effort;
      if finished || scan.length == 0 { return SearchDone; }
      var left := budget;
      while left > 0
        invariant 0 <= left <= budget && Valid() && scan.length > 0 && !finished
        invariant anchor == old(anchor) && reverse == old(reverse)
        invariant scan.Work() <= old(scan.Work()) && (left < budget ==> scan.Work() < old(scan.Work()))
      {
        left := left - 1;
        ghost var told := scan.told;
        var status := scan.Step(1);
        if status == SearchDone {
          ToldIsPrefix();
          AtEnd(All(), anchor, reverse);
          finished := true;
          return if haveMatch then SearchFound(if reverse then last else first) else SearchDone;
        }
        if status.SearchFound? {
          result := Consider(status.match_, told);
          if result != SearchMore { return; }
        }
      }
      return SearchMore;
    }
  }

  lemma StillUndecided(all: seq<Span>, told: seq<Span>, m: Span, anchor: Option<Span>, reverse: bool)
    requires Increasing(all) && told + [m] <= all && Undecided(told, anchor, reverse)
    requires anchor == Some(m) ==> !(reverse && told != [])
    requires anchor != Some(m) && !reverse ==> anchor.Some? && anchor.value !in told
    ensures Undecided(told + [m], anchor, reverse)
  {
    var more := told + [m];
    assert forall k | 0 <= k < |more| :: more[k] == all[k];
    if !reverse && anchor == Some(m) && told != [] {
      IncreasingStrict(all, |told| - 1, |told|);
    }
  }

  lemma IncreasingStrict(spans: seq<Span>, a: nat, b: nat)
    requires Increasing(spans) && a < b < |spans|
    ensures spans[a] != spans[b]
  {
  }

  /** All matches have been passed over: the choice falls on the far end of the list. */
  lemma AtEnd(all: seq<Span>, anchor: Option<Span>, reverse: bool)
    requires Increasing(all) && Undecided(all, anchor, reverse)
    ensures Chosen(all, anchor, reverse) == if all == [] then None else Some(all[if reverse then |all| - 1 else 0])
  {
    if anchor.Some? && anchor.value in all {
      var i := IndexOf(all, anchor.value);
    }
  }

  lemma BeforeAnchor(all: seq<Span>, i: nat)
    requires Increasing(all) && 0 < i < |all|
    ensures Chosen(all, Some(all[i]), true) == Some(all[i - 1])
  {
    ChosenAt(all, true, i);
    assert (i + |all| - 1) % |all| == i - 1;
  }

  lemma AfterAnchor(all: seq<Span>, told: seq<Span>, anchor: Option<Span>)
    requires Increasing(all) && told < all && Undecided(told, anchor, false)
    requires anchor == None || anchor.value in told
    ensures Chosen(all, anchor, false) == Some(all[|told|])
  {
    hide Chosen, Increasing;
    if anchor.Some? {
      var i := |told| - 1;
      assert all[i] == told[i] == anchor.value;
      ChosenAt(all, false, i);
      assert (i + 1) % |all| == i + 1;
    } else {
      NoAnchor(all);
    }
  }

  lemma NoAnchor(all: seq<Span>)
    requires all != []
    ensures Chosen(all, None, false) == Some(all[0])
  {
  }
}
