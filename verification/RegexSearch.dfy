/** A regex search from the query text to the spans it reports. */
module RegexSearch {
  import opened Common
  import opened Rows
  import opened RegexSyntax
  import opened RegexGrammar
  import opened RegexWriting
  import opened RegexGraph
  import opened RegexRun
  import opened RegexMachine
  import opened RegexResults
  import opened RegexLines
  import opened RegexExecutor
  import opened Streams
  import C = RegexCompiler

  function ScalarsFrom(rows: seq<Row>, first: nat): seq<CodePoint> {
    Scalars(TokensFrom(rows, first, 0))
  }

  lemma ScalarsReversed(tokens: seq<Token>)
    ensures Scalars(Reversed(tokens)) == Reversed(Scalars(tokens))
  {
  }

  /** The compiled program, run in its direction, pursues what the expression matches in the text. */
  lemma ProgramPursues(c: Search, q: Quest)
    requires WellSet(c) && c.d == q.d && c.reverse == q.reverse && q.text == ScalarsFrom(c.rows, c.first)
    requires C.Finds(c.d, c.g, c.start, q.r, c.reverse)
    ensures Pursues(c, q)
  {
    hide Recognises, TokensFrom, Run.Valid, C.Finds, Quest.Hit, Run.Match;
    ScalarsReversed(TokensFrom(c.rows, c.first, 0));
    forall s: nat, e: nat
      ensures c.X().Match(s, e) <==> q.Hit(s, e)
    {
      PiecePursued(c, q, s, e);
    }
  }

  lemma PiecePursued(c: Search, q: Quest, s: nat, e: nat)
    requires c.d == q.d && c.reverse == q.reverse && |c.tokens| == |q.text|
    requires Scalars(c.tokens) == if q.reverse then Reversed(q.text) else q.text
    requires C.Finds(c.d, c.g, c.start, q.r, c.reverse)
    ensures c.X().Match(s, e) <==> q.Hit(s, e)
  {
    hide Recognises, Matches;
    var n := |q.text|;
    if c.X().Match(s, e) { FromInside(c.X(), c.start, s, e); }
    if s <= e <= n {
      var i, j := if c.reverse then n - e else s, if c.reverse then n - s else e;
      assert C.FindsPiece(c.d, c.g, c.start, q.r, c.reverse, q.text, i, j);
      assert n - (n - e) == e && n - (n - s) == s;
    }
  }

  /** Where match `p` of a scan lies in a text with the given tokens. Going forwards a match ends where the next
      token begins; going backwards it ends where its last token does. A token that separates two texts belongs to
      no match, so next to it a match ends where the token passed last does. */
  function TextSpan(tokens: seq<Token>, d: Dialect, first: nat, reverse: bool, p: Piece): Span
    requires p.start <= p.end <= |tokens|
  {
    var n, origin := |tokens|, Position(first, 0);
    if reverse then
      var a, b := n - p.end, n - p.start;
      if a < b then Span(tokens[a].first, tokens[b - 1].end)
      else if b > 0 && !d.Separates(tokens[b - 1].cp) then Span(tokens[b - 1].end, tokens[b - 1].end)
      else if b < n then Span(tokens[b].first, tokens[b].first)
      else Span(origin, origin)
    else
      var end :=
        if p.end < n && !d.Separates(tokens[p.end].cp) then tokens[p.end].first
        else if p.end > 0 then tokens[p.end - 1].end
        else origin;
      if p.start < p.end then Span(tokens[p.start].first, end) else Span(end, end)
  }

  /** A match does not begin with a token that separates two texts. */
  ghost predicate BeginsInside(c: Search, p: Piece) {
    p.start < p.end ==> !c.Stops(p.start)
  }

  lemma ForwardSpan(c: Search, p: Piece)
    requires !c.reverse && p.start <= p.end <= |c.tokens| && BeginsInside(c, p)
    ensures c.SpanAt(p.start, p.end) == TextSpan(c.tokens, c.d, c.first, false, p)
  {
  }

  lemma BackwardSpan(c: Search, tokens: seq<Token>, p: Piece)
    requires c.reverse && p.start <= p.end <= |tokens| && |c.tokens| == |tokens| && BeginsInside(c, p)
    requires forall k | 0 <= k < |tokens| :: c.tokens[k] == tokens[|tokens| - 1 - k]
    ensures c.SpanAt(p.start, p.end) == TextSpan(tokens, c.d, c.first, true, p)
  {
    var n := |tokens|;
    var a, b := n - p.end, n - p.start;
    assert b > 0 ==> c.tokens[p.start] == tokens[b - 1];
    assert p.end > 0 ==> c.tokens[p.end - 1] == tokens[a];
  }

  lemma SpanMeans(c: Search, tokens: seq<Token>, p: Piece)
    requires c.tokens == (if c.reverse then Reversed(tokens) else tokens) && p.start <= p.end <= |tokens|
             && BeginsInside(c, p)
    ensures c.SpanAt(p.start, p.end) == TextSpan(tokens, c.d, c.first, c.reverse, p)
  {
    if c.reverse { BackwardSpan(c, tokens, p); } else { ForwardSpan(c, p); }
  }

  /** A match begins with a token of the text it lies in. */
  lemma HitBegins(c: Search, q: Quest, p: Piece)
    requires q.Hit(p.start, p.end) && c.d == q.d && c.reverse == q.reverse && |c.tokens| == |q.text|
    requires Scalars(c.tokens) == if q.reverse then Reversed(q.text) else q.text
    ensures BeginsInside(c, p)
  {
    var n := |q.text|;
    if p.start < p.end {
      var at := if q.reverse then n - p.start - 1 else p.start;
      assert c.tokens[p.start].cp == q.text[at] by { assert Scalars(c.tokens)[p.start] == c.tokens[p.start].cp; }
      hide Matches, Reversed, Scalars;
      if q.reverse {
        NoneCrosses(q.d, q.r, q.text, n - p.end, n - p.start, at);
      } else {
        NoneCrosses(q.d, q.r, q.text, p.start, p.end, at);
      }
    }
  }

  /** What is to be reported for an expression: its matches in the whole text, or line by line. */
  ghost function Pieces(q: Quest): seq<Piece> {
    if q.d.lines then Linewise(q) else q.Results(0)
  }

  /** Where lines are texts of their own, rows hold no newlines and the tables do not call a newline a word
      character. */
  predicate Separable(rows: seq<Row>, d: Dialect) {
    d.lines ==> !d.IsWord(NEWLINE) && forall row <- rows, cell <- row.cells :: cell.cp != NEWLINE
  }

  lemma {:induction false} BreaksOnly(rows: seq<Row>, line: nat)
    requires forall row <- rows, cell <- row.cells :: cell.cp != NEWLINE
    ensures forall t <- TokensFrom(rows, line, 0) :: t.cp == NEWLINE ==> t.first.line != t.end.line
    decreases Gap(line, |rows|)
  {
    if line < |rows| {
      BreaksOnly(rows, line + 1);
      CellsPlain(rows[line], line, 0, Rows.TextEnd(rows[line]));
    }
  }

  lemma {:induction false} CellsPlain(row: Row, line: nat, from: nat, limit: nat)
    requires limit <= |row.cells| && forall cell <- row.cells :: cell.cp != NEWLINE
    ensures forall t <- CellTokens(row, line, from, limit, limit) :: t.cp != NEWLINE
    decreases Gap(from, limit)
  {
    if from < limit {
      CellsPlain(row, line, from + 1, limit);
      assert row.cells[from] in row.cells;
    }
  }

  /** The spans of all matches that are to be reported for an expression. */
  ghost function Expected(r: Regex, rows: seq<Row>, first: nat, d: Dialect, reverse: bool): seq<Span> {
    var tokens := TokensFrom(rows, first, 0);
    var pieces := Pieces(Quest(d, r, Scalars(tokens), reverse));
    seq(|pieces|, k requires 0 <= k < |pieces| =>
      if pieces[k].start <= pieces[k].end <= |tokens| then TextSpan(tokens, d, first, reverse, pieces[k])
      else Span(Position(0, 0), Position(0, 0)))
  }

  /** `spans` are those of the pieces found so far. */
  ghost predicate Told(c: Search, found: seq<Piece>, spans: seq<Span>) {
    |spans| == |found|
    && forall k | 0 <= k < |found| ::
         found[k].start <= found[k].end <= |c.tokens| && spans[k] == c.SpanAt(found[k].start, found[k].end)
  }

  lemma ToldMore(c: Search, s: State, r: Ticked, spans: seq<Span>)
    requires Told(c, s.found, spans) && Reports(c, s, r) && r.result.SearchFound?
    ensures Told(c, r.state.found, spans + [r.result.match_])
  {
    hide LeftmostLongest, Search.SpanAt;
  }

  lemma FoundHits(c: Search, q: Quest, found: seq<Piece>, k: nat)
    requires Pursues(c, q) && Chained(c.X(), found) && k < |found|
    ensures q.Hit(found[k].start, found[k].end)
  {
    hide Quest.Hit, Run.Match;
    assert LeftmostLongest(c.X(), Resume(found[..k]), found[k].start, found[k].end);
  }

  /** What has been told are the spans of what was found. */
  lemma ToldMeans(c: Search, q: Quest, tokens: seq<Token>, found: seq<Piece>, spans: seq<Span>, k: nat)
    requires Pursues(c, q) && Chained(c.X(), found) && Told(c, found, spans) && k < |found|
    requires c.d == q.d && c.reverse == q.reverse && |c.tokens| == |q.text| == |tokens| && q.text == Scalars(tokens)
    requires c.tokens == if c.reverse then Reversed(tokens) else tokens
    ensures found[k].start <= found[k].end <= |tokens|
    ensures spans[k] == TextSpan(tokens, c.d, c.first, c.reverse, found[k])
  {
    hide Search.SpanAt, TextSpan, Chained, Pursues, BeginsInside, Quest.Hit;
    ScalarsReversed(tokens);
    FoundHits(c, q, found, k);
    HitBegins(c, q, found[k]);
    SpanMeans(c, tokens, found[k]);
  }

  lemma ToldAll(c: Search, s: State, spans: seq<Span>, r: Regex)
    requires WellSet(c) && Inv(c, s) && s.done && Told(c, s.found, spans)
    requires C.Finds(c.d, c.g, c.start, r, c.reverse)
    ensures spans == Expected(r, c.rows, c.first, c.d, c.reverse)
  {
    hide TokensFrom, Search.SpanAt, TextSpan, C.Finds, Run.Valid, Quest.Results, Quest.Hit, Linewise, BeginsInside,
         Reversed;
    var tokens := TokensFrom(c.rows, c.first, 0);
    var q := Quest(c.d, r, Scalars(tokens), c.reverse);
    ProgramPursues(c, q);
    DoneMeans(c, s);
    hide Inv;
    NoneLeft(c, q, s.base);
    FoundIsPrefix(c, q, s.found);
    assert s.found + [] == s.found;
    if c.d.lines { ResultsLinewise(q); }
    hide NoMatch;
    forall k: nat | k < |spans|
      ensures s.found[k].start <= s.found[k].end <= |tokens|
      ensures spans[k] == TextSpan(tokens, c.d, c.first, c.reverse, s.found[k])
    {
      ToldMeans(c, q, tokens, s.found, spans, k);
    }
    hide Told, Chained, Pursues, WellSet;
  }

  /** Runs a search to its end with any schedule of positive budgets and collects what it reports. */
  method Drain(run: Executor, budget: nat -> nat) returns (spans: seq<Span>)
    requires run.Valid() && run.found == [] && forall n :: budget(n) > 0
    modifies run, run.stack, run.seen, run.seeds, run.leaves
    ensures run.Valid() && run.done && Told(run.C(), run.found, spans)
  {
    hide Inv, Spend, Reports, Able, PhaseWork, Chained, ScanTokens, Told, WellSet, Run.Valid, Search.SpanAt,
         Executor.Marked;
    spans := [];
    ghost var c := run.C();
    ToldNothing(c);
    var calls, result := 0, SearchMore;
    while result != SearchDone
      invariant run.Valid() && run.C() == c && Told(c, run.found, spans)
      invariant result == SearchDone ==> run.done
      decreases result != SearchDone, !run.done, Gap(run.base, |c.tokens| + 2), Gap(run.scan.ordinal, |c.tokens|),
                Rank(run.phase), if Able(c, run.View()) then PhaseWork(c, run.View()) else 0
    {
      ghost var before := run.View();
      result := run.Step(budget(calls));
      calls := calls + 1;
      CallMeans(c, before, Spend(c, before, budget(calls - 1)), budget(calls - 1), spans);
      if result.SearchFound? { spans := spans + [result.match_]; }
    }
  }

  /** Run to the end with any schedule of positive budgets, a search reports every leftmost-longest match of the
      expression that the query writes, one after the other, and nothing else. With line boundaries these are the
      matches of the hard lines, each a text of its own. */
  method FindAll(query: seq<CodePoint>, rows: seq<Row>, first: nat, d: Dialect, reverse: bool, budget: nat -> nat)
    returns (ok: bool, spans: seq<Span>)
    requires first <= |rows| && Separable(rows, d) && forall n :: budget(n) > 0
    ensures InCore(query) ==> (ok <==> C.Acceptable(query))
    ensures ok ==> forall r: Regex | Writes(query, r) :: spans == Expected(r, rows, first, d, reverse)
  {
    hide InCore, Inv, C.Acceptable, C.Finds, C.Complete, Expected, Writes, ScanTokens, Told, WellSet, Run.Valid,
         Search.SpanAt, C.FindsPiece;
    spans := [];
    var compiler := new C.Compiler(query, d, reverse);
    var start;
    ok, start := compiler.Compile();
    if !ok { return; }
    var g, size := Graph(compiler.nodes[..], compiler.ranges[..compiler.rangesUsed]), compiler.nodesUsed;
    ghost var c := Search(rows, first, d, g, size, start, reverse, ScanTokens(rows, first, reverse));
    CompleteRuns(c);
    hide Separable;
    var run := new Executor(rows, first, d, g, size, start, reverse, STATES);
    spans := Drain(run, budget);
    forall r: Regex | Writes(query, r)
      ensures spans == Expected(r, rows, first, d, reverse)
    {
      ToldAll(c, run.View(), spans, r);
    }
  }

  lemma CompleteRuns(c: Search)
    requires c.first <= |c.rows| && C.Complete(c.g, c.size, c.start)
             && c.tokens == ScanTokens(c.rows, c.first, c.reverse)
    requires Separable(c.rows, c.d)
    ensures WellSet(c) && c.X().Valid() && c.Lined()
  {
    hide TokensFrom;
    if c.d.lines {
      BreaksOnly(c.rows, c.first);
      var tokens := TokensFrom(c.rows, c.first, 0);
      forall t | t in c.tokens
        ensures t in tokens
      {
        var k :| 0 <= k < |c.tokens| && c.tokens[k] == t;
        assert c.tokens[k] == if c.reverse then tokens[|tokens| - 1 - k] else tokens[k];
      }
    }
  }

  lemma ToldNothing(c: Search)
    ensures Told(c, [], [])
  {
  }

  /** What a call adds to what has been told, and that it brings the end nearer. */
  lemma CallMeans(c: Search, s: State, r: Ticked, budget: nat, spans: seq<Span>)
    requires Inv(c, s) && Told(c, s.found, spans) && r == Spend(c, s, budget) && budget > 0
    ensures s.done ==> r == Ticked(s, SearchDone)
    ensures r.result == SearchDone ==> r.state.done
    ensures Told(c, r.state.found, if r.result.SearchFound? then spans + [r.result.match_] else spans)
    ensures r.state.done || (Able(c, s) && Able(c, r.state) && Nearer(c, r.state, s))
  {
    hide Inv, Able, Nearer, LeftmostLongest, NoMatch, Search.SpanAt, Told;
    if !s.done {
      SpendKeeps(c, s, budget);
      if r.result.SearchFound? { ToldMore(c, s, r, spans); }
    }
  }
}
