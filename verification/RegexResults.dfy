/** What a regex search is to report: the leftmost-longest matches of the expression in the text, one after
    the other, without reference to any program. */
module RegexResults {
  import opened Common
  import opened Rows
  import opened RegexSyntax
  import opened RegexGraph
  import opened RegexFragments
  import opened RegexRun
  import opened RegexMachine
  import opened Streams

  /** An expression to look for in a text, forwards or backwards. */
  datatype Quest = Quest(d: Dialect, r: Regex, text: seq<CodePoint>, reverse: bool)
  {
    /** The expression matches from scan position `s` to `e`; a backward scan counts tokens from the end of the text. */
    ghost predicate Hit(s: nat, e: nat) {
      && s <= e <= |text|
      && if reverse then Matches(d, r, text, |text| - e, |text| - s) else Matches(d, r, text, s, e)
    }

    /** Of the matches that start at `base` or later, `p` is one that starts first, and the longest of those. */
    ghost predicate Next(base: nat, p: Piece) {
      && base <= p.start && Hit(p.start, p.end)
      && forall s: nat, e: nat | base <= s && Hit(s, e) :: p.start < s || (p.start == s && e <= p.end)
    }

    /** The matches from `base` on: after one the search resumes at its end, or a token later when it is empty. */
    ghost function Results(base: nat): seq<Piece>
      decreases Gap(base, |text| + 1)
    {
      if exists p: Piece :: Next(base, p) then
        var p: Piece :| Next(base, p);
        [p] + Results(ResumeAt(p))
      else []
    }

    lemma NextUnique(base: nat, p: Piece, p': Piece)
      requires Next(base, p) && Next(base, p')
      ensures p == p'
    {
    }

    lemma ResultsStep(base: nat, p: Piece)
      requires Next(base, p)
      ensures Results(base) == [p] + Results(ResumeAt(p))
    {
      var first: Piece :| Next(base, first) && Results(base) == [first] + Results(ResumeAt(first));
      NextUnique(base, p, first);
    }

    /** The longest match from `s` that ends at `e` or later. */
    lemma {:induction false} Longest(s: nat, e: nat) returns (end: nat)
      requires Hit(s, e)
      ensures Hit(s, end) && forall j: nat | Hit(s, j) :: j <= end
      decreases |text| - e
    {
      if j: nat :| Hit(s, j) && e < j { end := Longest(s, j); } else { end := e; }
    }

    /** Any match has a leftmost-longest one that starts no later. */
    lemma {:induction false} NextExists(base: nat, s: nat, e: nat) returns (p: Piece)
      requires base <= s && Hit(s, e)
      ensures Next(base, p)
      decreases s
    {
      if t: nat, j: nat :| base <= t < s && Hit(t, j) {
        p := NextExists(base, t, j);
      } else {
        var end := Longest(s, e);
        p := Piece(s, end);
      }
    }

    /** No match is passed over: each one starts where a reported match does, or inside one. */
    lemma {:induction false} ResultsCover(base: nat, s: nat, e: nat) returns (p: Piece)
      requires base <= s && Hit(s, e)
      ensures p in Results(base) && p.start <= s < ResumeAt(p)
      decreases Gap(base, |text| + 1)
    {
      p := NextExists(base, s, e);
      ResultsStep(base, p);
      if ResumeAt(p) <= s {
        p := ResultsCover(ResumeAt(p), s, e);
      }
    }

    /** Reported matches follow one another without overlapping, and each is a match. */
    lemma {:induction false} ResultsApart(base: nat, k: nat)
      requires k < |Results(base)|
      ensures var rs := Results(base);
              && base <= rs[k].start <= rs[k].end <= |text| && Hit(rs[k].start, rs[k].end)
              && (forall l | k < l < |rs| :: ResumeAt(rs[k]) <= rs[l].start)
      decreases Gap(base, |text| + 1)
    {
      var p: Piece :| Next(base, p) && Results(base) == [p] + Results(ResumeAt(p));
      var rest := Results(ResumeAt(p));
      if k > 0 {
        ResultsApart(ResumeAt(p), k - 1);
      } else {
        forall l | 0 <= l < |rest|
          ensures ResumeAt(p) <= rest[l].start
        {
          ResultsApart(ResumeAt(p), l);
        }
      }
    }
  }

  /** The program of search `c` matches what the expression matches in the text that `c` reads. */
  ghost predicate Pursues(c: Search, q: Quest) {
    && |q.text| == |c.tokens|
    && forall s: nat, e: nat :: c.X().Match(s, e) <==> q.Hit(s, e)
  }

  lemma NextMeans(c: Search, q: Quest, base: nat, p: Piece)
    requires Pursues(c, q)
    ensures LeftmostLongest(c.X(), base, p.start, p.end) <==> q.Next(base, p)
  {
  }

  lemma NoneLeft(c: Search, q: Quest, base: nat)
    requires Pursues(c, q) && NoMatch(c.X(), base)
    ensures q.Results(base) == []
  {
  }

  /** What a run has found is what is to be reported up to where it resumes. */
  lemma {:induction false} FoundIsPrefix(c: Search, q: Quest, found: seq<Piece>)
    requires Pursues(c, q) && Chained(c.X(), found)
    ensures q.Results(0) == found + q.Results(Resume(found))
    decreases |found|
  {
    hide LeftmostLongest, Run.Match, Quest.Hit, Quest.Next, Quest.Results;
    if found == [] {
      assert q.Results(0) == [] + q.Results(0);
    } else {
      var n := |found| - 1;
      var p, before := found[n], found[..n];
      assert LeftmostLongest(c.X(), Resume(found[..n]), p.start, p.end);
      ChainedPrefix(c.X(), found, n);
      FoundIsPrefix(c, q, before);
      NextMeans(c, q, Resume(before), p);
      q.ResultsStep(Resume(before), p);
      assert found == before + [p];
    }
  }

  lemma ChainedPrefix(x: Run, found: seq<Piece>, n: nat)
    requires Chained(x, found) && n <= |found|
    ensures Chained(x, found[..n])
  {
    hide LeftmostLongest;
    forall k | 0 <= k < n
      ensures LeftmostLongest(x, Resume(found[..n][..k]), found[..n][k].start, found[..n][k].end)
    {
      assert found[..n][..k] == found[..k];
    }
  }
}
