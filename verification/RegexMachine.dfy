/** The executor as a state machine: what one unit of work makes of its state, and the invariant
    that makes every reported match leftmost and, for its start, longest. */
module RegexMachine {
  import opened Common
  import opened Rows
  import opened RegexSyntax
  import opened RegexGraph
  import opened RegexFragments
  import opened RegexRun
  import opened Streams

  datatype Phase = Fetch | Close | Consume | Skip

  /** A reported match by the indices of its tokens. */
  datatype Piece = Piece(start: nat, end: nat)

  /** What stays fixed during a search: rows, program, direction, and the tokens the stream will yield. */
  datatype Search = Search(rows: seq<Row>, first: nat, d: Dialect, g: Graph, size: nat, start: nat, reverse: bool,
                           tokens: seq<Token>)
  {
    function X(): Run {
      Run(d, g, Scalars(tokens), start, size)
    }

    // ----- Positions -----

    /** The scan comes to the end of a text before token `k`. */
    predicate Stops(k: nat) {
      k >= |tokens| || d.Separates(tokens[k].cp)
    }

    /** Where texts are lines, only line breaks are newlines, and these are no word characters. */
    predicate Lined() {
      d.lines ==> !d.IsWord(NEWLINE) && forall t <- tokens :: t.cp == NEWLINE ==> t.first.line != t.end.line
    }

    /** The position between tokens `k - 1` and `k` as the scan sees it. */
    function BoundaryAt(k: nat): Position
      requires k <= |tokens|
    {
      if reverse then
        if k > 0 then tokens[k - 1].first else if !Stops(0) then tokens[0].end else Position(first, 0)
      else
        if !Stops(k) then tokens[k].first else if k > 0 then tokens[k - 1].end else Position(first, 0)
    }

    /** Where a match that begins with token `k` starts. */
    function StartAt(k: nat): Position
      requires k <= |tokens|
    {
      if reverse && !Stops(k) then tokens[k].end else BoundaryAt(k)
    }

    /** The span of the match of tokens `s..e`, with its ends in text order. */
    function SpanAt(s: nat, e: nat): Span
      requires s <= e <= |tokens|
    {
      if s == e then Span(StartAt(s), StartAt(s))
      else if reverse then Span(BoundaryAt(e), StartAt(s))
      else Span(StartAt(s), BoundaryAt(e))
    }
  }

  /** The place in the text: the token fetched at position `ordinal`, the stream before and after it, and the token
      passed last. `eof` says that a text ends here and `lineEnd` that another one follows it. */
  datatype Scan = Scan(stream: Stream, before: Stream, token: Token, boundary: Position, ordinal: nat,
                       previous: CodePoint,
                       eof: bool, lineEnd: bool)

  /** The pools. `owner` has the nodes seen at this position, each with the start of the thread that reached it. */
  datatype Pools = Pools(stack: seq<nat>, owner: Owners, seeds: seq<Thread>, seedAt: nat, leaves: seq<Thread>,
                         leafAt: nat,
                         current: Thread, injected: bool, live: bool)

  /** The match kept so far and how to resume after it. */
  datatype Kept = Kept(bestResume: Stream, best: Span, bestStart: nat, bestEnd: nat, bestPrevious: CodePoint,
                       bestEof: bool, haveBest: bool)

  /** The executor's state. `base` is where the search resumed and `found` what it has reported. */
  datatype State = State(scan: Scan, pools: Pools, kept: Kept, phase: Phase, done: bool, base: nat, found: seq<Piece>)
  {
    function B(): Best {
      if kept.haveBest then Best(kept.bestStart, kept.bestEnd) else NoBest
    }
  }

  datatype Ticked = Ticked(state: State, result: SearchResult)

  function Initial(c: Search): State {
    var s := if c.reverse then ReverseBegin(c.first) else Begin(c.first, 0);
    var origin := Position(c.first, 0);
    State(Scan(s, s, Token(0, origin, origin), origin, 0, 0, false, false),
          Pools([], map[], [], 0, [], 0, Thread(0, 0, origin), false, false),
          Kept(s, Span(origin, origin), 0, 0, 0, false, false), Fetch, false, 0, [])
  }

  /** Where the search resumes: at the end of a match, or past the next token after an empty one. */
  function ResumeAt(p: Piece): nat {
    if p.start == p.end then p.end + 1 else p.end
  }

  function Resume(found: seq<Piece>): nat {
    if found == [] then 0 else ResumeAt(found[|found| - 1])
  }

  // ----- One unit of work -----

  /** After an empty match: pass over one token without looking for a match before it. */
  function SkipUnit(c: Search, s: State): Ticked
    requires Fit(c.rows, s.scan.stream)
  {
    var r := Step(c.rows, s.scan.stream);
    var t := s.(scan := s.scan.(stream := r.stream));
    match r.outcome
    case Done => Ticked(t.(done := true), SearchDone)
    case More => Ticked(t, SearchMore)
    case Found(token) =>
      Ticked(t.(scan := t.scan.(token := token, ordinal := s.scan.ordinal + 1, previous := token.cp,
                                boundary := if c.reverse then token.first else token.end), phase := Fetch), SearchMore)
  }

  /** Fetch the token at this position and prepare its closure. */
  function FetchUnit(c: Search, s: State): Ticked
    requires Fit(c.rows, s.scan.stream)
  {
    var r := Step(c.rows, s.scan.stream);
    var t := s.(scan := s.scan.(before := s.scan.stream, stream := r.stream));
    if r.outcome == More then Ticked(t, SearchMore)
    else
      var token := if r.outcome == Done then s.scan.token else r.outcome.token;
      var lineEnd := r.outcome != Done && c.d.Separates(token.cp) && token.first.line != token.end.line;
      var eof := r.outcome == Done || lineEnd;
      var boundary := if !eof && (!c.reverse || s.scan.ordinal == 0) then (if c.reverse then token.end else token.first)
          else s.scan.boundary;
      Ticked(t.(scan := t.scan.(eof := eof, lineEnd := lineEnd, token := token, boundary := boundary),
                pools := t.pools.(seedAt := 0, leaves := [], stack := [], injected := false, owner := map[]),
                  phase := Close), SearchMore)
  }

  /** Put a node on the stack unless it has been seen at this position. */
  function Push(s: State, pc: nat): State {
    if pc in s.pools.owner then s else s.(pools := s.pools.(stack := s.pools.stack + [pc],
                                                            owner := s.pools.owner[pc := s.pools.current.ordinal]))
  }

  /** Whether an anchor holds at this position, from the tokens before and after it. */
  predicate AnchorHolds(c: Search, s: State, a: Anchor) {
    var left, right := s.scan.ordinal > 0 && c.d.IsWord(s.scan.previous), !s.scan.eof && c.d.IsWord(s.scan.token.cp);
    match a
    case LineStart => s.scan.ordinal == 0 || s.scan.previous == NEWLINE
    case LineEnd => s.scan.eof || s.scan.token.cp == NEWLINE
    case TextStart => s.scan.ordinal == 0 || c.d.Separates(s.scan.previous)
    case TextEnd => s.scan.eof
    case Boundary => left != right
    case NotBoundary => left == right
  }

  /** Start the next thread, or a new one at this position while no match is kept, or end the closure. */
  function StartUnit(c: Search, s: State): State
    requires s.pools.seedAt <= |s.pools.seeds|
  {
    if s.pools.seedAt < |s.pools.seeds| then
      var t := s.(pools := s.pools.(current := s.pools.seeds[s.pools.seedAt], seedAt := s.pools.seedAt + 1));
      Push(t, t.pools.current.pc)
    else if !s.pools.injected && !s.kept.haveBest then
      var from := if c.reverse && !s.scan.eof then s.scan.token.end else s.scan.boundary;
      Push(s.(pools := s.pools.(current := Thread(c.start, s.scan.ordinal, from), injected := true)), c.start)
    else s.(pools := s.pools.(seeds := [], leafAt := 0, live := false), phase := Consume)
  }

  /** Keep a match of the current thread that ends here unless the kept one starts earlier. */
  function Accept(c: Search, s: State): State {
    if !s.kept.haveBest || s.pools.current.ordinal <= s.kept.bestStart then
      var from, to := s.pools.current.start, s.scan.boundary;
      var span := if s.pools.current.ordinal == s.scan.ordinal then Span(from, from) else if c.reverse
          then Span(to, from) else Span(from, to);
      s.(kept := s.kept.(best := span, bestStart := s.pools.current.ordinal, bestEnd := s.scan.ordinal,
                         bestResume := s.scan.before, bestPrevious := s.scan.previous, bestEof := s.scan.eof
                           && !s.scan.lineEnd, haveBest := true))
    else s
  }

  /** Expand the node on top of the stack. */
  function ExpandUnit(c: Search, s: State): State
    requires s.pools.stack != [] && s.pools.stack[|s.pools.stack| - 1] < |c.g.nodes|
  {
    var pc := s.pools.stack[|s.pools.stack| - 1];
    var n, t := c.g.nodes[pc], s.(pools := s.pools.(stack := s.pools.stack[..|s.pools.stack| - 1]));
    if n.op == OpSplit then Push(Push(t, n.other), n.out)
    else if n.op == OpJump then Push(t, n.out)
    else if AnchorOf(n.op).Some? then if AnchorHolds(c, s, AnchorOf(n.op).value) then Push(t, n.out) else t
    else if n.op == OpMatch then Accept(c, t)
    else t.(pools := t.pools.(leaves := t.pools.leaves + [t.pools.current.(pc := pc)]))
  }

  /** Try the next leaf on the token. */
  function LeafUnit(c: Search, s: State): State
    requires s.pools.leafAt < |s.pools.leaves| && s.pools.leaves[s.pools.leafAt].pc < |c.g.nodes|
  {
    var leaf, t := s.pools.leaves[s.pools.leafAt], s.(pools := s.pools.(leafAt := s.pools.leafAt + 1));
    var n := c.g.nodes[leaf.pc];
    if !s.scan.eof && NodeAccepts(c.d, n, c.g.ranges, s.scan.token.cp) then
      t.(pools := t.pools.(seeds := s.pools.seeds + [leaf.(pc := n.out)], live := s.pools.live || !s.kept.haveBest
                           || leaf.ordinal <= s.kept.bestStart))
    else t
  }

  /** Report the kept match and go back to its end, or past one more token when it is empty. */
  function Report(c: Search, s: State): Ticked {
    var empty, piece := s.kept.bestStart == s.kept.bestEnd, Piece(s.kept.bestStart, s.kept.bestEnd);
    Ticked(s.(scan := s.scan.(stream := s.kept.bestResume, ordinal := s.kept.bestEnd, previous := s.kept.bestPrevious,
                              boundary := if c.reverse then s.kept.best.first
                                else s.kept.best.end), pools := s.pools.(seeds := []),
                                  kept := s.kept.(haveBest := false), phase := if empty then Skip
                                    else Fetch, done := empty
                                      && s.kept.bestEof, base := ResumeAt(piece), found := s.found + [piece]),
                                         SearchFound(s.kept.best))
  }

  /** All leaves have been tried: report, stop at the end of the text, or advance. */
  function EndUnit(c: Search, s: State): Ticked {
    if s.kept.haveBest && !s.pools.live then Report(c, s)
    else if s.scan.eof && !s.scan.lineEnd then Ticked(s.(done := true), SearchDone)
    else Ticked(s.(scan := s.scan.(ordinal := s.scan.ordinal + 1, previous := s.scan.token.cp, boundary := if c.reverse
                                   then s.scan.token.first else s.scan.token.end), phase := Fetch), SearchMore)
  }

  /** The state can perform a unit of work. */
  predicate Able(c: Search, s: State) {
    match s.phase
    case Skip => Fit(c.rows, s.scan.stream)
    case Fetch => Fit(c.rows, s.scan.stream)
    case Close => s.pools.seedAt <= |s.pools.seeds|
      && (s.pools.stack != [] ==> s.pools.stack[|s.pools.stack| - 1] < |c.g.nodes|)
    case Consume =>
      s.pools.leafAt <= |s.pools.leaves|
        && (s.pools.leafAt < |s.pools.leaves| ==> s.pools.leaves[s.pools.leafAt].pc < |c.g.nodes|)
  }

  function Unit(c: Search, s: State): Ticked
    requires Able(c, s)
  {
    match s.phase
    case Skip => SkipUnit(c, s)
    case Fetch => FetchUnit(c, s)
    case Close => Ticked(if s.pools.stack == [] then StartUnit(c, s) else ExpandUnit(c, s), SearchMore)
    case Consume => if s.pools.leafAt < |s.pools.leaves| then Ticked(LeafUnit(c, s), SearchMore) else EndUnit(c, s)
  }

  // ----- The invariant -----

  /** Each piece is the leftmost-longest match from where the one before it left off. */
  ghost predicate Chained(x: Run, found: seq<Piece>) {
    forall k | 0 <= k < |found| :: LeftmostLongest(x, Resume(found[..k]), found[k].start, found[k].end)
  }

  /** The stream has yielded exactly the first `k` tokens. */
  ghost predicate StreamAt(c: Search, t: Stream, k: nat) {
    Streams.Valid(c.rows, t) && t.reverse == c.reverse && k <= |c.tokens| && Rest(c.rows, t) == c.tokens[k..]
  }

  ghost predicate Recorded(c: Search, s: State) {
    && s.kept.bestStart <= s.kept.bestEnd <= |c.tokens| && s.kept.best == c.SpanAt(s.kept.bestStart, s.kept.bestEnd)
    && StreamAt(c, s.kept.bestResume, s.kept.bestEnd)
    && (s.kept.bestEnd > 0 ==> s.kept.bestPrevious == c.tokens[s.kept.bestEnd - 1].cp)
       && (s.kept.bestEof <==> s.kept.bestEnd == |c.tokens|)
  }

  ghost predicate Steady(c: Search, s: State) {
    && c.X().Valid() && c.Lined()
    && s.scan.ordinal <= |c.tokens| && (s.scan.ordinal > 0 ==> s.scan.previous == c.tokens[s.scan.ordinal - 1].cp)
    && Chained(c.X(), s.found) && s.base == Resume(s.found)
    && (s.kept.haveBest ==> Recorded(c, s))
  }

  /** What the scan has seen at this position is what the text has there. */
  predicate Met(c: Search, s: State) {
    && (s.scan.eof <==> c.Stops(s.scan.ordinal)) && (s.scan.lineEnd <==> s.scan.eof && s.scan.ordinal < |c.tokens|)
    && (s.scan.ordinal < |c.tokens| ==> s.scan.token == c.tokens[s.scan.ordinal])
  }

  /** The token at this position has been fetched, or the rows have ended here. */
  ghost predicate Fetched(c: Search, s: State)
    requires s.scan.ordinal <= |c.tokens|
  {
    && Met(c, s)
    && StreamAt(c, s.scan.before, s.scan.ordinal)
    && StreamAt(c, s.scan.stream, if s.scan.ordinal < |c.tokens| then s.scan.ordinal + 1 else s.scan.ordinal)
    && s.scan.boundary == c.BoundaryAt(s.scan.ordinal)
  }

  ghost predicate Threads(c: Search, ts: seq<Thread>, i: nat, base: nat, top: nat) {
    && Sound(c.X(), ts, i, base, top) && Sorted(ts) && top <= |c.tokens| + 1
    && forall k | 0 <= k < |ts| :: ts[k].ordinal <= |c.tokens| && ts[k].start == c.StartAt(ts[k].ordinal)
  }

  ghost predicate InSkip(c: Search, s: State) {
    Steady(c, s) && !s.kept.haveBest && s.base == s.scan.ordinal + 1 && StreamAt(c, s.scan.stream, s.scan.ordinal)
      && s.pools.seeds == []
  }

  /** The threads that arrive at this position. */
  ghost predicate Arrived(c: Search, s: State) {
    && s.base <= s.scan.ordinal && |s.pools.seeds| <= c.size
    && Threads(c, s.pools.seeds, s.scan.ordinal, s.base, s.scan.ordinal)
    && Complete(c.X(), s.pools.seeds, s.scan.ordinal, s.base, s.scan.ordinal, s.B(), s.scan.ordinal)
    && Held(c.X(), s.base, s.B(), s.scan.ordinal) && Past(c.X(), s.base, s.B(), s.scan.ordinal)
  }

  ghost predicate InFetch(c: Search, s: State) {
    && Steady(c, s) && StreamAt(c, s.scan.stream, s.scan.ordinal)
    && ((c.reverse && s.scan.ordinal > 0) || c.Stops(s.scan.ordinal) ==>
         s.scan.boundary == c.BoundaryAt(s.scan.ordinal))
    && Arrived(c, s)
  }

  function Waiting(s: State): set<nat> {
    set pc | pc in s.pools.stack
  }

  /** The nodes reached at this position wait on the stack at most once and are few enough for every pool. */
  ghost predicate Books(c: Search, s: State) {
    && (forall pc <- s.pools.owner :: pc < c.size && s.pools.owner[pc] <= s.pools.current.ordinal)
    && |s.pools.stack| + |s.pools.leaves| <= |s.pools.owner| <= c.size
    && (forall pc <- s.pools.stack :: pc in s.pools.owner && s.pools.owner[pc] == s.pools.current.ordinal)
    && (forall k, l | 0 <= k < l < |s.pools.stack| :: s.pools.stack[k] != s.pools.stack[l])
  }

  /** The thread being followed lies between those whose nodes are owned and those still to be started. */
  ghost predicate Following(c: Search, s: State)
    requires s.pools.seedAt <= |s.pools.seeds| && s.scan.ordinal <= |c.tokens|
  {
    && s.base <= s.pools.current.ordinal <= s.scan.ordinal
    && s.pools.current.start == c.StartAt(s.pools.current.ordinal)
    && (forall k | s.pools.seedAt <= k < |s.pools.seeds| :: s.pools.current.ordinal <= s.pools.seeds[k].ordinal)
    && (forall h <- s.pools.leaves :: h.ordinal <= s.pools.current.ordinal)
  }

  ghost predicate Ground(c: Search, s: State) {
    Steady(c, s) && Fetched(c, s) && s.base <= s.scan.ordinal
  }

  ghost predicate Leaves(c: Search, s: State) {
    Threads(c, s.pools.leaves, s.scan.ordinal, s.base, s.scan.ordinal + 1)
      && forall h <- s.pools.leaves :: ConsumingThread(c.X(), h)
  }

  ghost predicate Flows(c: Search, s: State, pending: set<nat>, ts: seq<Thread>, top: nat) {
    Flow(c.X(), s.scan.ordinal, s.base, top, s.pools.owner, pending, s.pools.leaves, ts, s.B())
  }

  /** The closure of this position but for the nodes in `extra`; `ts` are the threads still to be started. */
  ghost predicate Closure(c: Search, s: State, extra: set<nat>, ts: seq<Thread>, top: nat) {
    && Ground(c, s) && Books(c, s) && s.pools.seedAt <= |s.pools.seeds| <= c.size
    && (s.pools.owner != map[] ==> Following(c, s))
    && Leaves(c, s) && Flows(c, s, Waiting(s) + extra, ts, top)
  }

  function Top(s: State): nat {
    if s.pools.injected then s.scan.ordinal + 1 else s.scan.ordinal
  }

  ghost predicate InClose(c: Search, s: State) {
    && s.pools.seedAt <= |s.pools.seeds| && Closure(c, s, {}, s.pools.seeds[s.pools.seedAt..], Top(s))
    && (s.pools.injected ==> s.pools.seedAt == |s.pools.seeds|)
       && (s.kept.haveBest && !s.pools.injected ==> s.kept.bestStart < s.scan.ordinal)
    && (s.pools.owner != map[] && !s.pools.injected ==> s.pools.current.ordinal < s.scan.ordinal)
    && Threads(c, s.pools.seeds[s.pools.seedAt..], s.scan.ordinal, s.base, s.scan.ordinal)
  }

  /** `left` are the leaves still to be tried on the token of position `i`, `seeds` the threads that moved past it. */
  ghost predicate Trial(c: Search, i: nat, base: nat, b: Best, left: seq<Thread>, seeds: seq<Thread>) {
    && Threads(c, seeds, i + 1, base, i + 1) && Threads(c, left, i, base, i + 1)
    && (forall h <- left :: ConsumingThread(c.X(), h))
    && (forall h <- seeds, u <- left :: h.ordinal <= u.ordinal)
    && Moving(c.X(), left, seeds, i, base, i + 1, b)
  }

  ghost predicate InConsume(c: Search, s: State) {
    && Steady(c, s) && Fetched(c, s) && s.base <= s.scan.ordinal
    && |s.pools.seeds| <= s.pools.leafAt <= |s.pools.leaves| <= c.size
    && Trial(c, s.scan.ordinal, s.base, s.B(), s.pools.leaves[s.pools.leafAt..], s.pools.seeds)
    && Held(c.X(), s.base, s.B(), s.scan.ordinal + 1) && Past(c.X(), s.base, s.B(), s.scan.ordinal + 1)
    && (s.pools.live <==> exists h <- s.pools.seeds :: Eligible(s.B(), h.ordinal))
    && (s.scan.eof ==> s.pools.seeds == [])
  }

  ghost predicate Inv(c: Search, s: State) {
    if s.done then Chained(c.X(), s.found) && s.base == Resume(s.found) && NoMatch(c.X(), s.base)
    else match s.phase
         case Skip => InSkip(c, s)
         case Fetch => InFetch(c, s)
         case Close => InClose(c, s)
         case Consume => InConsume(c, s)
  }

  // ----- Every unit keeps the invariant -----

  /** What a step of the stream does to its place in the text. */
  lemma StreamSteps(c: Search, t: Stream, k: nat)
    requires StreamAt(c, t, k)
    ensures Fit(c.rows, t)
    ensures var r := Step(c.rows, t);
            match r.outcome
            case Done => k == |c.tokens| && StreamAt(c, r.stream, k)
            case More => StreamAt(c, r.stream, k) && Effort(c.rows, r.stream) < Effort(c.rows, t)
            case Found(token) => k < |c.tokens| && token == c.tokens[k] && StreamAt(c, r.stream, k + 1)
  {
    StepYields(c.rows, t);
    var r := Step(c.rows, t);
    if r.outcome == Done {
      assert Rest(c.rows, r.stream) == [];
    }
    hide Rest, Streams.Valid, Step, Effort;
    if r.outcome.Found? {
      assert c.tokens[k..][0] == c.tokens[k];
      assert c.tokens[k..][1..] == c.tokens[k + 1..];
    }
  }

  lemma BeyondText(x: Run, base: nat)
    requires base > |x.w|
    ensures NoMatch(x, base)
  {
    forall s: nat, j: nat | base <= s
      ensures !x.Match(s, j)
    {
      if x.Match(s, j) { FromInside(x, x.start, s, j); }
    }
  }

  lemma InvAble(c: Search, s: State)
    requires Inv(c, s) && !s.done
    ensures Able(c, s)
  {
    hide Arrived, Threads, Owned, Closing, Reaching, Moving, Held, Past, Following, Rest, StepMeans, Chained,
         LeftmostLongest, Recorded, Wired;
    if s.phase == Skip || s.phase == Fetch { StreamSteps(c, s.scan.stream, s.scan.ordinal); }
    if s.phase == Close && s.pools.stack != [] { assert s.pools.stack[|s.pools.stack| - 1] in s.pools.stack; }
    if s.phase == Consume && s.pools.leafAt < |s.pools.leaves| {
      assert s.pools.leaves[s.pools.leafAt..][0] == s.pools.leaves[s.pools.leafAt];
      assert s.pools.leaves[s.pools.leafAt] in s.pools.leaves[s.pools.leafAt..];
    }
  }

  /** Starting over at position `i` with no threads and no kept match. */
  lemma FreshArrival(c: Search, s: State)
    requires s.base == s.scan.ordinal <= |c.tokens| && s.pools.seeds == [] && !s.kept.haveBest
    ensures Arrived(c, s)
  {
    FreshStart(c.X(), s.scan.ordinal);
  }

  lemma SkipKeeps(c: Search, s: State)
    requires InSkip(c, s) && !s.done && s.phase == Skip && Fit(c.rows, s.scan.stream)
    ensures Inv(c, SkipUnit(c, s).state) && SkipUnit(c, s).result.SearchFound? == false
  {
    hide StreamAt, Step, Chained, Fit, Recorded, Held, Past, Complete, Sound, LeftmostLongest, Run.Match, Run.From,
         Run.Valid, Scalars,
         Closure, InConsume, InClose, FetchUnit, Rest, StepMeans, Effort;
    StreamSteps(c, s.scan.stream, s.scan.ordinal);
    var t := SkipUnit(c, s).state;
    if t.done {
      BeyondText(c.X(), s.base);
    } else if t.phase == Fetch {
      FreshArrival(c, t);
      hide Arrived;
    }
  }

  /** The closure of a position starts with nothing seen. */
  lemma ClosureOpens(c: Search, t: State)
    requires Ground(c, t) && Arrived(c, t)
    requires t.pools.seedAt == 0 && t.pools.leaves == [] && t.pools.stack == [] && t.pools.owner == map[]
             && !t.pools.injected
    ensures InClose(c, t)
  {
    hide Ground, Past, Complete, SoundThread, Flow, Run.From, Run.Match, Run.Valid;
    GroundFacts(c, t);
    FlowBegins(c.X(), t.pools.seeds, t.scan.ordinal, t.base, t.B());
    assert t.pools.seeds[t.pools.seedAt..] == t.pools.seeds;
    assert Waiting(t) + {} == {};
  }

  lemma FetchWaits(c: Search, s: State)
    requires InFetch(c, s) && Fit(c.rows, s.scan.stream) && Step(c.rows, s.scan.stream).outcome == More
    ensures var r := FetchUnit(c, s);
            r.state == s.(scan := s.scan.(stream := r.state.scan.stream, before := r.state.scan.before))
              && InFetch(c, r.state) && r.result == SearchMore
  {
    hide StreamAt, Step, Chained, Fit, Past, Held, Complete, Threads, LeftmostLongest, Run.Match, Run.From, Run.Valid,
         Scalars;
    StreamSteps(c, s.scan.stream, s.scan.ordinal);
  }

  lemma FetchOpens(c: Search, s: State)
    requires InFetch(c, s) && Fit(c.rows, s.scan.stream) && Step(c.rows, s.scan.stream).outcome != More
    ensures var r := FetchUnit(c, s);
            InClose(c, r.state) && r.state.phase == Close && r.state.done == s.done && r.result == SearchMore
  {
    hide StreamAt, Step, Chained, Fit, Past, Held, Complete, Threads, LeftmostLongest, Run.Match, Run.From, Run.Valid,
         Scalars, InClose;
    StreamSteps(c, s.scan.stream, s.scan.ordinal);
    ClosureOpens(c, FetchUnit(c, s).state);
  }

  /** A newline stored in a cell does not end a text, though another begins behind it. */
  lemma StoredNewline(c: Search, s: State, token: Token)
    requires c.d.lines && token.cp == NEWLINE && token.first.line == token.end.line
    requires Fit(c.rows, s.scan.stream) && Step(c.rows, s.scan.stream).outcome == Found(token) && !s.kept.haveBest
    ensures var t := FetchUnit(c, s).state; !t.scan.eof && !AnchorHolds(c, t, TextEnd)
    ensures var t := EndUnit(c, FetchUnit(c, s).state).state; AnchorHolds(c, t, TextStart)
  {
  }

  lemma FetchKeeps(c: Search, s: State)
    requires InFetch(c, s) && !s.done && s.phase == Fetch && Fit(c.rows, s.scan.stream)
    ensures Inv(c, FetchUnit(c, s).state) && FetchUnit(c, s).result == SearchMore
  {
    hide InFetch, InClose, Step, FetchUnit;
    if Step(c.rows, s.scan.stream).outcome == More { FetchWaits(c, s); } else { FetchOpens(c, s); }
  }

  // ----- The closure -----

  /** The current thread may be at node `pc` of this position. */
  ghost predicate Standable(c: Search, s: State, pc: nat) {
    pc < c.size && forall j: nat | c.X().From(pc, s.scan.ordinal, j) :: c.X().Match(s.pools.current.ordinal, j)
  }

  /** The states agree on everything but the threads, the stack and the phase. */
  predicate SameGround(s: State, t: State) {
    s.scan == t.scan && s.kept == t.kept && s.base == t.base && s.found == t.found
  }

  lemma GroundKeeps(c: Search, s: State, t: State)
    requires SameGround(s, t) && Ground(c, s)
    ensures Ground(c, t) && s.scan.ordinal <= |c.tokens|
  {
    hide Chained, Run.Valid, StreamAt;
  }

  lemma GroundFacts(c: Search, s: State)
    requires Ground(c, s)
    ensures s.base <= s.scan.ordinal <= |c.tokens| && c.start < c.size <= |c.g.nodes| && c.X().Valid()
    ensures Met(c, s) && c.Lined()
    ensures s.scan.ordinal > 0 ==> s.scan.previous == c.tokens[s.scan.ordinal - 1].cp
    ensures s.scan.boundary == c.BoundaryAt(s.scan.ordinal)
  {
  }

  lemma PushBooks(c: Search, s: State, pc: nat)
    requires Books(c, s) && pc < c.size && pc !in s.pools.owner
    ensures Books(c, Push(s, pc))
  {
    var t := Push(s, pc);
    assert t.pools.owner.Keys == s.pools.owner.Keys + {pc};
    BelowCount(t.pools.owner.Keys, c.size);
    assert |t.pools.owner.Keys| == |t.pools.owner|;
  }

  /** Pushing a node the current thread reaches keeps the closure and leaves the node owned no later than the thread. */
  lemma PushCloses(c: Search, s: State, extra: set<nat>, ts: seq<Thread>, top: nat, pc: nat)
    requires s.pools.seedAt <= |s.pools.seeds| && s.scan.ordinal <= |c.tokens| && Following(c, s)
    requires Closure(c, s, extra, ts, top) && Standable(c, s, pc)
    ensures var t := Push(s, pc);
            && Closure(c, t, extra, ts, top) && Following(c, t)
            && pc in t.pools.owner && t.pools.owner[pc] <= t.pools.current.ordinal
            && (forall v <- s.pools.owner :: v in t.pools.owner && t.pools.owner[v] == s.pools.owner[v])
            && (forall v <- t.pools.stack :: v in s.pools.stack || v !in s.pools.owner)
  {
    hide Ground, Threads, Flow, Run.From, Run.Match, ConsumingThread;
    var t := Push(s, pc);
    if pc !in s.pools.owner {
      GroundKeeps(c, s, t);
      PushBooks(c, s, pc);
      FlowPush(c.X(), s.scan.ordinal, s.base, top, s.pools.owner, Waiting(s) + extra, s.pools.leaves, ts, s.B(), pc,
               s.pools.current.ordinal);
      assert Waiting(t) + extra == Waiting(s) + extra + {pc};
    }
  }

  lemma ThreadsTail(c: Search, ts: seq<Thread>, k: nat, i: nat, base: nat, top: nat)
    requires Threads(c, ts, i, base, top) && k <= |ts|
    ensures Threads(c, ts[k..], i, base, top)
  {
    hide SoundThread;
  }

  /** The next thread that arrived here becomes the one being followed. */
  lemma ThreadTaken(c: Search, s: State, t0: State)
    requires InClose(c, s) && s.pools.stack == [] && s.pools.seedAt < |s.pools.seeds|
    requires t0 == s.(pools := s.pools.(current := s.pools.seeds[s.pools.seedAt], seedAt := s.pools.seedAt + 1))
    ensures t0.scan.ordinal <= |c.tokens| && Following(c, t0)
    ensures Closure(c, t0, {}, s.pools.seeds[s.pools.seedAt..], Top(s)) && Standable(c, t0, t0.pools.current.pc)
    ensures t0.pools.current.ordinal < s.scan.ordinal
  {
    hide Ground, Flow, Run.From, Run.Match, Run.Valid, ConsumingThread;
    GroundFacts(c, s);
    GroundKeeps(c, s, t0);
    var ts := s.pools.seeds[s.pools.seedAt..];
    assert ts[0] == t0.pools.current;
    assert Waiting(t0) + {} == Waiting(s) + {};
    assert SoundThread(c.X(), ts[0], s.scan.ordinal, s.base, s.scan.ordinal);
    assert forall k | t0.pools.seedAt <= k < |s.pools.seeds| :: s.pools.seeds[k] == ts[k - s.pools.seedAt];
  }

  /** Starting the next thread that arrived here. */
  lemma StartThreadKeeps(c: Search, s: State)
    requires InClose(c, s) && s.pools.stack == [] && s.pools.seedAt < |s.pools.seeds|
    ensures InClose(c, StartUnit(c, s))
  {
    hide Ground, Flow, Following, Books, Leaves, Standable, Threads;
    var ts := s.pools.seeds[s.pools.seedAt..];
    var t0 := s.(pools := s.pools.(current := s.pools.seeds[s.pools.seedAt], seedAt := s.pools.seedAt + 1));
    ThreadTaken(c, s, t0);
    PushCloses(c, t0, {}, ts, Top(s), t0.pools.current.pc);
    var t := Push(t0, t0.pools.current.pc);
    assert ts[1..] == t.pools.seeds[t.pools.seedAt..];
    ThreadsTail(c, ts, 1, s.scan.ordinal, s.base, s.scan.ordinal);
    FlowStarted(c.X(), s.scan.ordinal, s.base, Top(s), t.pools.owner, Waiting(t) + {}, t.pools.leaves, ts, t.B());
  }

  /** A new thread at this position becomes the one being followed. */
  lemma InjectTaken(c: Search, s: State, t0: State)
    requires InClose(c, s) && s.pools.stack == [] && s.pools.seedAt == |s.pools.seeds|
    requires t0 == s.(pools := s.pools.(current := Thread(c.start, s.scan.ordinal, if c.reverse && !s.scan.eof
                                                          then s.scan.token.end
                                                            else s.scan.boundary), injected := true))
    ensures t0.scan.ordinal <= |c.tokens| && Following(c, t0)
    ensures Closure(c, t0, {}, [], s.scan.ordinal) || s.pools.injected
    ensures Standable(c, t0, c.start)
  {
    hide Ground, Flow, Run.From, Run.Valid, ConsumingThread;
    GroundFacts(c, s);
    GroundKeeps(c, s, t0);
    assert s.pools.seeds[s.pools.seedAt..] == [];
    assert Waiting(t0) + {} == Waiting(s) + {};
  }

  /** Starting a new thread at this position. */
  lemma InjectKeeps(c: Search, s: State)
    requires InClose(c, s) && s.pools.stack == [] && s.pools.seedAt == |s.pools.seeds| && !s.pools.injected
             && !s.kept.haveBest
    ensures InClose(c, StartUnit(c, s))
  {
    hide Ground, Flow, Following, Books, Leaves, Threads, Standable;
    var from := if c.reverse && !s.scan.eof then s.scan.token.end else s.scan.boundary;
    var t0 := s.(pools := s.pools.(current := Thread(c.start, s.scan.ordinal, from), injected := true));
    InjectTaken(c, s, t0);
    PushCloses(c, t0, {}, [], s.scan.ordinal, c.start);
    var t := Push(t0, c.start);
    assert t.pools.seeds[t.pools.seedAt..] == s.pools.seeds[s.pools.seedAt..] == [];
    FlowInjected(c.X(), s.scan.ordinal, s.base, t.pools.owner, Waiting(t) + {}, t.pools.leaves, t.B());
  }

  /** What is known of the closure when every thread has been started and the stack is empty. */
  lemma ClosureOver(c: Search, s: State)
    requires InClose(c, s) && s.pools.stack == [] && s.pools.seedAt == |s.pools.seeds|
             && (s.pools.injected || s.kept.haveBest)
    ensures Ground(c, s) && |s.pools.leaves| <= c.size && Leaves(c, s)
    ensures Flow(c.X(), s.scan.ordinal, s.base, Top(s), s.pools.owner, {}, s.pools.leaves, [], s.B())
    ensures Top(s) == s.scan.ordinal + 1 || (s.B().Best? && s.B().start < Top(s))
  {
    hide Ground, Leaves, Flow, Threads, Following;
    assert s.pools.seeds[s.pools.seedAt..] == [];
    assert Waiting(s) + {} == {};
  }

  /** When every thread has been started and the stack is empty, the leaves are ready to consume. */
  lemma ConsumeBegins(c: Search, s: State)
    requires InClose(c, s) && s.pools.stack == [] && s.pools.seedAt == |s.pools.seeds|
             && (s.pools.injected || s.kept.haveBest)
    ensures InConsume(c, StartUnit(c, s))
  {
    hide InClose, Ground, Flow, Past, Run.From, Run.Match, Run.Valid, Moving, Threads, Steady, Fetched, Held,
         ConsumingThread;
    var t := StartUnit(c, s);
    ClosureOver(c, s);
    GroundFacts(c, s);
    GroundKeeps(c, s, t);
    GroundParts(c, t);
    NoThreads(c, s.scan.ordinal + 1, s.base);
    assert t.pools.leaves[t.pools.leafAt..] == s.pools.leaves;
    FlowEnds(c.X(), s.scan.ordinal, s.base, Top(s), s.pools.owner, s.pools.leaves, s.B());
  }

  lemma GroundParts(c: Search, s: State)
    requires Ground(c, s)
    ensures Steady(c, s) && s.scan.ordinal <= |c.tokens| && Fetched(c, s)
  {
    hide Chained, Run.Valid, StreamAt, Recorded;
  }

  lemma NoThreads(c: Search, i: nat, base: nat)
    requires i <= |c.tokens| + 1
    ensures Threads(c, [], i, base, i)
  {
  }

  lemma StartKeeps(c: Search, s: State)
    requires InClose(c, s) && s.pools.stack == [] && !s.done && s.phase == Close
    ensures Inv(c, StartUnit(c, s))
  {
    hide Closure, Threads;
    if s.pools.seedAt < |s.pools.seeds| { StartThreadKeeps(c, s); }
    else if !s.pools.injected && !s.kept.haveBest { InjectKeeps(c, s); }
    else { ConsumeBegins(c, s); }
  }

  // ----- Expanding a node -----

  /** The state with the top of the stack taken off, and what is known of the node there. */
  lemma NodeTaken(c: Search, s: State, t0: State, pc: nat, ts: seq<Thread>, top: nat)
    requires Closure(c, s, {}, ts, top) && s.pools.stack != []
    requires t0 == s.(pools := s.pools.(stack := s.pools.stack[..|s.pools.stack| - 1]))
             && pc == s.pools.stack[|s.pools.stack| - 1]
    ensures s.scan.ordinal <= |c.tokens| && Following(c, t0) && Closure(c, t0, {pc}, ts, top)
    ensures pc in s.pools.owner && s.pools.owner[pc] == s.pools.current.ordinal && pc !in t0.pools.stack
            && Standable(c, s, pc)
    ensures pc < c.size <= |c.g.nodes| && c.X().Valid()
  {
    hide Ground, Run.From, Run.Match, Run.Valid, Threads, ConsumingThread, Closing, Reaching, Held, Past, Following;
    GroundFacts(c, s);
    GroundKeeps(c, s, t0);
    assert pc in s.pools.stack;
    assert Waiting(t0) + {pc} == Waiting(s) + {};
    assert forall v <- t0.pools.stack :: v in s.pools.stack;
    FollowingSame(c, s, t0);
  }

  lemma FollowingSame(c: Search, s: State, t: State)
    requires s.pools.seedAt <= |s.pools.seeds| && s.scan.ordinal <= |c.tokens| && Following(c, s)
    requires t == s.(pools := s.pools.(stack := t.pools.stack))
    ensures Following(c, t)
  {
  }

  /** A target of a firing edge is a node the thread may be at. */
  lemma TargetStandable(c: Search, s: State, pc: nat, other: bool)
    requires Standable(c, s, pc) && c.X().Valid() && c.size <= |c.g.nodes|
    requires Fires(c.d, c.g.nodes[pc], c.g.ranges, other, c.X().w, s.scan.ordinal, s.scan.ordinal)
    ensures Standable(c, s, Target(c.g.nodes[pc], other))
  {
    var target := Target(c.g.nodes[pc], other);
    EdgesInside(c.X(), pc, other, s.scan.ordinal, s.scan.ordinal);
    forall j: nat | c.X().From(target, s.scan.ordinal, j)
      ensures c.X().Match(s.pools.current.ordinal, j)
    {
      FromEdge(c.X(), pc, s.scan.ordinal, other, s.scan.ordinal, j);
    }
  }

  /** The tokens before and after the position decide anchors as the text does. */
  lemma AnchorMeans(c: Search, s: State, a: Anchor)
    requires s.scan.ordinal <= |c.tokens| && (s.scan.ordinal > 0 ==> s.scan.previous == c.tokens[s.scan.ordinal - 1].cp)
    requires Met(c, s) && c.Lined()
    ensures AnchorHolds(c, s, a) <==> Holds(c.d, a, c.X().w, s.scan.ordinal)
  {
  }

  /** Node `pc` has been taken off the stack and its edges are being pushed. */
  ghost predicate Handling(c: Search, t: State, pc: nat, ts: seq<Thread>, top: nat) {
    && t.pools.seedAt <= |t.pools.seeds| && t.scan.ordinal <= |c.tokens| && Following(c, t)
    && Closure(c, t, {pc}, ts, top)
    && pc < c.size <= |c.g.nodes| && c.X().Valid() && Standable(c, t, pc)
    && pc in t.pools.owner && t.pools.owner[pc] == t.pools.current.ordinal && pc !in t.pools.stack
  }

  /** The target of edge `other` of the node being handled is owned no later than the node. */
  ghost predicate Led(c: Search, t: State, pc: nat, other: bool)
    requires pc < |c.g.nodes|
  {
    var v := Target(c.g.nodes[pc], other);
    v in t.pools.owner && t.pools.owner[v] <= t.pools.current.ordinal
  }

  lemma PushTarget(c: Search, t0: State, pc: nat, other: bool, ts: seq<Thread>, top: nat)
    requires Handling(c, t0, pc, ts, top)
    requires Fires(c.d, c.g.nodes[pc], c.g.ranges, other, c.X().w, t0.scan.ordinal, t0.scan.ordinal)
    ensures var t := Push(t0, Target(c.g.nodes[pc], other));
            Handling(c, t, pc, ts, top) && Led(c, t, pc, other) && (Led(c, t0, pc, !other) ==> Led(c, t, pc, !other))
  {
    hide Closure, Following, Fires, Run.From, Run.Match, Run.Valid, Push;
    var v := Target(c.g.nodes[pc], other);
    TargetStandable(c, t0, pc, other);
    PushCloses(c, t0, {pc}, ts, top, v);
    PushSame(t0, v);
  }

  lemma PushSame(s: State, pc: nat)
    ensures var t := Push(s, pc); t == s.(pools := s.pools.(stack := t.pools.stack, owner := t.pools.owner))
  {
  }

  /** When every firing edge of the node taken leads to a node owned no later, the node is done with. */
  lemma NodeDone(c: Search, t: State, pc: nat, ts: seq<Thread>, top: nat)
    requires Handling(c, t, pc, ts, top) && c.g.nodes[pc].op != OpMatch && !Consuming(c.g.nodes[pc].op)
    requires forall other: bool | Fires(c.d, c.g.nodes[pc], c.g.ranges, other, c.X().w, t.scan.ordinal,
                                        t.scan.ordinal) :: Led(c, t, pc, other)
    ensures Closure(c, t, {}, ts, top)
  {
    hide Ground, Leaves, Following, Held, Past, Reaching;
    NodeExpanded(c.X(), t.scan.ordinal, t.pools.owner, Waiting(t), t.pools.leaves, t.pools.leaves, t.B(), t.B(), pc);
    assert Waiting(t) - {pc} == Waiting(t) + {};
  }

  /** The pushes that expanding a non-consuming node calls for. */
  function Pushed(c: Search, s: State, t0: State, n: Node): State {
    if n.op == OpSplit then Push(Push(t0, n.other), n.out)
    else if n.op == OpJump || (AnchorOf(n.op).Some? && AnchorHolds(c, s, AnchorOf(n.op).value)) then Push(t0, n.out)
    else t0
  }

  /** After the pushes every firing edge of the node leads to a node owned no later. */
  lemma EdgesPushed(c: Search, s: State, t0: State, pc: nat, ts: seq<Thread>, top: nat)
    requires s.scan.ordinal <= |c.tokens| && (s.scan.ordinal > 0 ==> s.scan.previous == c.tokens[s.scan.ordinal - 1].cp)
    requires Met(c, s) && c.Lined()
    requires t0.scan.ordinal == s.scan.ordinal && Handling(c, t0, pc, ts, top)
    requires c.g.nodes[pc].op != OpMatch && !Consuming(c.g.nodes[pc].op)
    ensures Closure(c, Pushed(c, s, t0, c.g.nodes[pc]), {}, ts, top)
  {
    assert pc < |c.g.nodes|;
    var n := c.g.nodes[pc];
    hide Handling, Closure, Fires, AnchorHolds, Push, Led;
    NodeEdges(c, s, n);
    PushSame(t0, n.other);
    PushSame(t0, n.out);
    PushSame(Push(t0, n.other), n.out);
    if n.op == OpSplit {
      PushTarget(c, t0, pc, true, ts, top);
      PushTarget(c, Push(t0, n.other), pc, false, ts, top);
    } else if n.op == OpJump || (AnchorOf(n.op).Some? && AnchorHolds(c, s, AnchorOf(n.op).value)) {
      PushTarget(c, t0, pc, false, ts, top);
    }
    NodeDone(c, Pushed(c, s, t0, n), pc, ts, top);
  }

  lemma PushedSame(c: Search, s: State, t0: State, n: Node)
    ensures var t := Pushed(c, s, t0, n); t == t0.(pools := t0.pools.(stack := t.pools.stack, owner := t.pools.owner))
  {
    hide AnchorHolds, Push;
    PushSame(t0, n.other);
    PushSame(Push(t0, n.other), n.out);
    PushSame(t0, n.out);
  }

  /** Expanding changes neither the phase nor the place in the text and what has been reported. */
  lemma ExpandPhase(c: Search, s: State)
    requires s.pools.stack != [] && s.pools.stack[|s.pools.stack| - 1] < |c.g.nodes|
    ensures var t := ExpandUnit(c, s);
            t.done == s.done && t.phase == s.phase && t.found == s.found && t.base == s.base
              && t.scan.ordinal == s.scan.ordinal
  {
    hide AnchorHolds, Push;
    var n, t0 := c.g.nodes[s.pools.stack[|s.pools.stack| - 1]],
        s.(pools := s.pools.(stack := s.pools.stack[..|s.pools.stack| - 1]));
    PushSame(t0, n.other);
    PushSame(Push(t0, n.other), n.out);
    PushSame(t0, n.out);
  }

  lemma EdgeKeeps(c: Search, s: State)
    requires InClose(c, s) && s.pools.stack != [] && s.pools.stack[|s.pools.stack| - 1] < |c.g.nodes|
    requires var op := c.g.nodes[s.pools.stack[|s.pools.stack| - 1]].op; op != OpMatch && !Consuming(op)
    ensures InClose(c, ExpandUnit(c, s))
  {
    var pc := s.pools.stack[|s.pools.stack| - 1];
    var n, t0, ts, top := c.g.nodes[pc], s.(pools := s.pools.(stack := s.pools.stack[..|s.pools.stack| - 1])),
        s.pools.seeds[s.pools.seedAt..], Top(s);
    hide Ground, Flows, Books, Leaves, Threads, Following, AnchorHolds, Push, Standable, ExpandUnit, Run.Valid;
    ClosureGround(c, s, ts, top);
    GroundFacts(c, s);
    NodeTaken(c, s, t0, pc, ts, top);
    StandableSame(c, s, t0, pc);
    EdgesPushed(c, s, t0, pc, ts, top);
    ExpandIsPushed(c, s, n);
    PushedSame(c, s, t0, n);
    hide Closure, Pushed;
    assert s.pools.owner != map[];
  }

  lemma ClosureGround(c: Search, s: State, ts: seq<Thread>, top: nat)
    requires Closure(c, s, {}, ts, top)
    ensures Ground(c, s)
  {
  }

  lemma ExpandIsPushed(c: Search, s: State, n: Node)
    requires s.pools.stack != [] && s.pools.stack[|s.pools.stack| - 1] < |c.g.nodes|
             && n == c.g.nodes[s.pools.stack[|s.pools.stack| - 1]]
    requires n.op != OpMatch && !Consuming(n.op)
    ensures ExpandUnit(c, s) == Pushed(c, s, s.(pools := s.pools.(stack := s.pools.stack[..|s.pools.stack| - 1])), n)
  {
    hide AnchorHolds, Push;
  }

  lemma StandableSame(c: Search, s: State, t: State, pc: nat)
    requires Standable(c, s, pc) && t.scan.ordinal == s.scan.ordinal
             && t.pools.current.ordinal == s.pools.current.ordinal
    ensures Standable(c, t, pc)
  {
  }

  /** Which edges of a non-consuming node fire at this position. */
  lemma NodeEdges(c: Search, s: State, n: Node)
    requires s.scan.ordinal <= |c.tokens| && (s.scan.ordinal > 0 ==> s.scan.previous == c.tokens[s.scan.ordinal - 1].cp)
    requires Met(c, s) && c.Lined()
    requires n.op != OpMatch && !Consuming(n.op)
    ensures n.op == OpSplit || n.op == OpJump || AnchorOf(n.op).Some?
    ensures Fires(c.d, n, c.g.ranges, true, c.X().w, s.scan.ordinal, s.scan.ordinal) <==> n.op == OpSplit
    ensures Fires(c.d, n, c.g.ranges, false, c.X().w, s.scan.ordinal, s.scan.ordinal) <==>
            (n.op == OpSplit || n.op == OpJump || (AnchorOf(n.op).Some? && AnchorHolds(c, s, AnchorOf(n.op).value)))
  {
    if AnchorOf(n.op).Some? { AnchorMeans(c, s, AnchorOf(n.op).value); }
    hide AnchorHolds, Holds;
  }

  lemma AcceptKeeps(c: Search, s: State)
    requires InClose(c, s) && s.pools.stack != [] && s.pools.stack[|s.pools.stack| - 1] < |c.g.nodes|
    requires c.g.nodes[s.pools.stack[|s.pools.stack| - 1]].op == OpMatch
    ensures InClose(c, ExpandUnit(c, s))
  {
    hide AnchorHolds, Push, NodeAccepts, Closure, Threads;
    var pc := s.pools.stack[|s.pools.stack| - 1];
    var t0 := s.(pools := s.pools.(stack := s.pools.stack[..|s.pools.stack| - 1]));
    AcceptCloses(c, s, t0, pc, s.pools.seeds[s.pools.seedAt..], Top(s));
    OwnedNow(c, s, s.pools.seeds[s.pools.seedAt..], Top(s));
  }

  /** A node on the stack is owned, so the thread being followed is one of this position's. */
  lemma OwnedNow(c: Search, s: State, ts: seq<Thread>, top: nat)
    requires s.pools.stack != [] && Closure(c, s, {}, ts, top)
    ensures s.pools.owner != map[]
    ensures s.pools.current.ordinal <= s.scan.ordinal
  {
    hide Ground, Leaves, Flow;
    assert s.pools.stack[0] in s.pools.stack;
    if s.pools.owner != map[] { ClosureGround(c, s, ts, top); GroundFacts(c, s); FollowingBounds(c, s); }
  }

  lemma AcceptCloses(c: Search, s: State, t0: State, pc: nat, ts: seq<Thread>, top: nat)
    requires s.pools.stack != [] && pc == s.pools.stack[|s.pools.stack| - 1] < |c.g.nodes|
             && c.g.nodes[pc].op == OpMatch
    requires t0 == s.(pools := s.pools.(stack := s.pools.stack[..|s.pools.stack| - 1]))
    requires Closure(c, s, {}, ts, top)
    ensures Closure(c, Accept(c, t0), {}, ts, top)
  {
    hide AnchorHolds, Push, NodeAccepts, Ground, Books, Leaves, Threads, Following, Owned, Closing, Reaching, Held,
         Past, Run.From, Run.Match, Run.Valid;
    GroundFacts(c, s);
    NodeTaken(c, s, t0, pc, ts, top);
    var t := Accept(c, t0);
    AcceptedMatch(c, s, pc);
    AcceptGround(c, t0);
    FollowingBounds(c, t0);
    ImprovedKeeps(c.X(), s.base, s.B(), s.pools.current.ordinal, s.scan.ordinal, ts, s.pools.owner, top);
    assert t.B() == Improved(s.B(), s.pools.current.ordinal, s.scan.ordinal);
    OwnedInside(c, t0);
    assert Expanded(c.X(), s.scan.ordinal, s.pools.owner, s.pools.leaves, t.B(), pc);
    NodeExpanded(c.X(), s.scan.ordinal, s.pools.owner, Waiting(t0), s.pools.leaves, s.pools.leaves, s.B(), t.B(), pc);
    assert Waiting(t) + {} == Waiting(t0) - {pc};
    AcceptFrame(c, t0, t);
  }

  lemma FollowingBounds(c: Search, s: State)
    requires s.pools.seedAt <= |s.pools.seeds| && s.scan.ordinal <= |c.tokens| && Following(c, s)
    ensures s.base <= s.pools.current.ordinal <= s.scan.ordinal
  {
  }

  lemma OwnedInside(c: Search, s: State)
    requires Books(c, s)
    ensures forall v <- s.pools.owner :: v < c.size
  {
  }

  lemma AcceptFrame(c: Search, s: State, t: State)
    requires s.pools.seedAt <= |s.pools.seeds| && s.scan.ordinal <= |c.tokens| && t == Accept(c, s)
    requires Books(c, s) && Following(c, s) && Leaves(c, s)
    ensures Books(c, t) && Following(c, t) && Leaves(c, t)
  {
    hide Threads, ConsumingThread;
  }

  lemma AcceptedMatch(c: Search, s: State, pc: nat)
    requires Standable(c, s, pc) && pc < |c.g.nodes| && c.g.nodes[pc].op == OpMatch && s.scan.ordinal <= |c.tokens|
    ensures c.X().Match(s.pools.current.ordinal, s.scan.ordinal)
  {
    FromAccept(c.X(), pc, s.scan.ordinal, s.scan.ordinal);
  }

  lemma AcceptGround(c: Search, s: State)
    requires Ground(c, s) && s.scan.ordinal <= |c.tokens| && s.pools.seedAt <= |s.pools.seeds| && Following(c, s)
    ensures Ground(c, Accept(c, s))
  {
    hide Chained, Run.Valid, StreamAt;
  }

  lemma LeafFoundKeeps(c: Search, s: State)
    requires InClose(c, s) && s.pools.stack != [] && s.pools.stack[|s.pools.stack| - 1] < |c.g.nodes|
    requires Consuming(c.g.nodes[s.pools.stack[|s.pools.stack| - 1]].op)
    ensures InClose(c, ExpandUnit(c, s))
  {
    hide AnchorHolds, Push, Accept, StreamAt, Chained, SoundThread, Ground, Books, Leaves, Threads, Following, Owned,
         Closing, Reaching, Held, Past, Run.From, Run.Match, Run.Valid;
    var pc := s.pools.stack[|s.pools.stack| - 1];
    var t0, ts, top := s.(pools := s.pools.(stack := s.pools.stack[..|s.pools.stack| - 1])),
        s.pools.seeds[s.pools.seedAt..], Top(s);
    GroundFacts(c, s);
    NodeTaken(c, s, t0, pc, ts, top);
    StandableSame(c, s, t0, pc);
    var t := t0.(pools := t0.pools.(leaves := t0.pools.leaves + [t0.pools.current.(pc := pc)]));
    assert ExpandUnit(c, s) == t;
    GroundKeeps(c, t0, t);
    LeafFrame(c, s, t0, t, pc);
    assert t.pools.leaves[|t.pools.leaves| - 1] == t0.pools.current.(pc := pc);
    assert HasLeaf(t.pools.leaves, pc, s.pools.owner[pc]);
    assert Expanded(c.X(), s.scan.ordinal, s.pools.owner, t.pools.leaves, t.B(), pc);
    OwnedInside(c, t0);
    NodeExpanded(c.X(), s.scan.ordinal, s.pools.owner, Waiting(t0), s.pools.leaves, t.pools.leaves, s.B(), t.B(), pc);
    assert Waiting(t) + {} == Waiting(t0) - {pc};
  }

  lemma LeafFrame(c: Search, s: State, t0: State, t: State, pc: nat)
    requires s.pools.seedAt <= |s.pools.seeds| && s.scan.ordinal <= |c.tokens| && s.pools.stack != []
             && t0 == s.(pools := s.pools.(stack := s.pools.stack[..|s.pools.stack| - 1]))
    requires Books(c, s) && Books(c, t0) && Following(c, t0) && Leaves(c, t0) && Standable(c, t0, pc)
    requires pc < |c.g.nodes| && Consuming(c.g.nodes[pc].op)
    requires t == t0.(pools := t0.pools.(leaves := t0.pools.leaves + [t0.pools.current.(pc := pc)]))
    ensures Books(c, t) && Following(c, t) && Leaves(c, t)
  {
    hide Run.From, Run.Match;
    var leaf := t0.pools.current.(pc := pc);
    assert SoundThread(c.X(), leaf, t.scan.ordinal, t.base, t.scan.ordinal + 1);
    assert ConsumingThread(c.X(), leaf);
    assert forall k | 0 <= k < |t0.pools.leaves| :: t0.pools.leaves[k] in t0.pools.leaves;
  }

  lemma ExpandKeeps(c: Search, s: State)
    requires InClose(c, s) && s.pools.stack != [] && s.pools.stack[|s.pools.stack| - 1] < |c.g.nodes| && !s.done
             && s.phase == Close
    ensures Inv(c, ExpandUnit(c, s))
  {
    hide InClose;
    ExpandPhase(c, s);
    hide ExpandUnit;
    var op := c.g.nodes[s.pools.stack[|s.pools.stack| - 1]].op;
    if op == OpMatch { AcceptKeeps(c, s); }
    else if Consuming(op) { LeafFoundKeeps(c, s); }
    else { EdgeKeeps(c, s); }
  }

  // ----- Consuming -----

  lemma LiveAppended(b: Best, ts: seq<Thread>, moved: seq<Thread>)
    ensures (exists h <- ts + moved :: Eligible(b, h.ordinal)) <==>
            ((exists h <- ts :: Eligible(b, h.ordinal)) || (exists h <- moved :: Eligible(b, h.ordinal)))
  {
    if h :| h in moved && Eligible(b, h.ordinal) { assert h in ts + moved; }
    if h :| h in ts && Eligible(b, h.ordinal) { assert h in ts + moved; }
  }

  /** A leaf that accepts the token becomes a sound thread at the next position. */
  lemma MovedSound(c: Search, leaf: Thread, i: nat, base: nat)
    requires i < |c.tokens| && c.X().Valid() && leaf.pc < c.size && ConsumingThread(c.X(), leaf)
    requires SoundThread(c.X(), leaf, i, base, i + 1)
    requires NodeAccepts(c.d, c.g.nodes[leaf.pc], c.g.ranges, c.tokens[i].cp)
    ensures SoundThread(c.X(), leaf.(pc := c.g.nodes[leaf.pc].out), i + 1, base, i + 1)
  {
    var x, n := c.X(), c.g.nodes[leaf.pc];
    assert Fires(x.d, n, x.g.ranges, false, x.w, i, i + 1);
    EdgesInside(x, leaf.pc, false, i, i + 1);
    forall j: nat | x.From(n.out, i + 1, j)
      ensures x.Match(leaf.ordinal, j)
    {
      LeafMoves(x, leaf, i, j);
    }
  }

  lemma ThreadsAppend(c: Search, ts: seq<Thread>, t: Thread, i: nat, base: nat, top: nat)
    requires Threads(c, ts, i, base, top) && SoundThread(c.X(), t, i, base, top)
    requires t.ordinal <= |c.tokens| && t.start == c.StartAt(t.ordinal) && forall u <- ts :: u.ordinal <= t.ordinal
    ensures Threads(c, ts + [t], i, base, top)
  {
    hide SoundThread;
    assert forall k | 0 <= k < |ts| :: ts[k] in ts;
  }

  lemma TrialStep(c: Search, i: nat, base: nat, b: Best, left: seq<Thread>, seeds: seq<Thread>, moved: seq<Thread>)
    requires Trial(c, i, base, b, left, seeds) && left != [] && i <= |c.tokens| && c.X().Valid()
    requires left[0].pc < |c.g.nodes|
    requires var n := c.g.nodes[left[0].pc];
             if i < |c.tokens| && NodeAccepts(c.d, n, c.g.ranges, c.tokens[i].cp) then moved == [left[0].(pc := n.out)]
               else moved == []
    ensures Trial(c, i, base, b, left[1..], seeds + moved)
  {
    hide Run.From, Run.Match, Run.Valid, NodeAccepts, Moving, ConsumingThread;
    assert left[0] in left && SoundThread(c.X(), left[0], i, base, i + 1);
    MoveOne(c.X(), left, seeds, i, base, i + 1, b, moved);
    ThreadsTail(c, left, 1, i, base, i + 1);
    SortedHead(left);
    TrialSound(c, i, base, left, seeds, moved);
    hide SoundThread, Threads;
    assert forall u <- left[1..] :: u in left;
  }

  lemma TrialSound(c: Search, i: nat, base: nat, left: seq<Thread>, seeds: seq<Thread>, moved: seq<Thread>)
    requires left != [] && i <= |c.tokens| && c.X().Valid() && Threads(c, seeds, i + 1, base, i + 1)
    requires SoundThread(c.X(), left[0], i, base, i + 1) && ConsumingThread(c.X(), left[0])
             && Threads(c, left, i, base, i + 1)
    requires var n := c.g.nodes[left[0].pc];
             if i < |c.tokens| && NodeAccepts(c.d, n, c.g.ranges, c.tokens[i].cp) then moved == [left[0].(pc := n.out)]
               else moved == []
    requires forall h <- seeds :: h.ordinal <= left[0].ordinal
    ensures Threads(c, seeds + moved, i + 1, base, i + 1)
  {
    hide Run.From, Run.Match, Run.Valid, NodeAccepts;
    if moved == [] {
      assert seeds + moved == seeds;
    } else {
      MovedSound(c, left[0], i, base);
      ThreadsAppend(c, seeds, moved[0], i + 1, base, i + 1);
    }
  }

  /** What a unit in the consuming phase leaves alone. */
  lemma LeafMeans(c: Search, s: State, moved: seq<Thread>)
    requires s.pools.leafAt < |s.pools.leaves| && s.pools.leaves[s.pools.leafAt].pc < |c.g.nodes|
    requires var n := c.g.nodes[s.pools.leaves[s.pools.leafAt].pc];
             if !s.scan.eof && NodeAccepts(c.d, n, c.g.ranges, s.scan.token.cp)
               then moved == [s.pools.leaves[s.pools.leafAt].(pc := n.out)] else moved == []
    ensures var t := LeafUnit(c, s);
            && t == s.(pools := s.pools.(seeds := s.pools.seeds + moved, leafAt := s.pools.leafAt + 1,
                                         live := t.pools.live)) && |moved| <= 1
            && (t.pools.live <==> s.pools.live || exists u <- moved :: Eligible(s.B(), u.ordinal))
            && (s.scan.eof ==> moved == [])
  {
    hide NodeAccepts;
    assert s.pools.seeds + [] == s.pools.seeds;
    assert moved != [] ==> moved[0] in moved;
  }

  /** At the end of a text no node accepts the token. */
  lemma AcceptMeans(c: Search, s: State, n: Node)
    requires Met(c, s)
    ensures !s.scan.eof && NodeAccepts(c.d, n, c.g.ranges, s.scan.token.cp) <==>
            s.scan.ordinal < |c.tokens| && NodeAccepts(c.d, n, c.g.ranges, c.tokens[s.scan.ordinal].cp)
  {
  }

  lemma LeafKeeps(c: Search, s: State)
    requires InConsume(c, s) && s.pools.leafAt < |s.pools.leaves| && s.pools.leaves[s.pools.leafAt].pc < |c.g.nodes|
    ensures var t := LeafUnit(c, s); InConsume(c, t) && t.phase == s.phase && t.done == s.done
  {
    hide Steady, Held, Past, Run.Valid, NodeAccepts, StreamAt, Trial, LeafUnit, Eligible, Recorded, Chained;
    var t, leaf, left := LeafUnit(c, s), s.pools.leaves[s.pools.leafAt], s.pools.leaves[s.pools.leafAt..];
    var n := c.g.nodes[leaf.pc];
    SteadyFacts(c, s);
    var moved := if !s.scan.eof && NodeAccepts(c.d, n, c.g.ranges, s.scan.token.cp) then [leaf.(pc := n.out)] else [];
    LeafMeans(c, s, moved);
    AcceptMeans(c, s, n);
    assert leaf == left[0] && t.pools.leaves[t.pools.leafAt..] == left[1..];
    TrialStep(c, s.scan.ordinal, s.base, s.B(), left, s.pools.seeds, moved);
    LiveAppended(s.B(), s.pools.seeds, moved);
    SteadySame(c, s, t);
    assert t.B() == s.B();
    assert Steady(c, t);
    assert Fetched(c, t);
    assert Trial(c, t.scan.ordinal, t.base, t.B(), t.pools.leaves[t.pools.leafAt..], t.pools.seeds);
    assert Held(c.X(), t.base, t.B(), t.scan.ordinal + 1) && Past(c.X(), t.base, t.B(), t.scan.ordinal + 1);
    assert t.pools.live <==> exists u <- t.pools.seeds :: Eligible(t.B(), u.ordinal);
    assert |t.pools.seeds| <= t.pools.leafAt <= |t.pools.leaves| <= c.size;
  }

  lemma SortedHead(ts: seq<Thread>)
    requires ts != [] && Sorted(ts)
    ensures forall h <- ts :: ts[0].ordinal <= h.ordinal
  {
  }

  lemma SteadyFacts(c: Search, s: State)
    requires Steady(c, s)
    ensures s.scan.ordinal <= |c.tokens| && c.start < c.size <= |c.g.nodes| && c.X().Valid() && c.Lined()
    ensures Chained(c.X(), s.found) && s.base == Resume(s.found) && (s.kept.haveBest ==> Recorded(c, s))
  {
  }

  lemma SteadySame(c: Search, s: State, t: State)
    requires SameGround(s, t) && Steady(c, s)
    ensures Steady(c, t)
  {
    hide Chained, Run.Valid, StreamAt;
  }

  /** The kept match is reported once no surviving thread can improve on it. */
  lemma ReportKeeps(c: Search, s: State)
    requires InConsume(c, s) && s.pools.leafAt == |s.pools.leaves| && s.kept.haveBest && !s.pools.live && !s.done
    ensures var r := Report(c, s);
            Inv(c, r.state) && r.result == SearchFound(c.SpanAt(s.kept.bestStart, s.kept.bestEnd))
    ensures s.kept.bestStart <= s.kept.bestEnd <= |c.tokens|
            && LeftmostLongest(c.X(), s.base, s.kept.bestStart, s.kept.bestEnd)
  {
    hide Run.From, Run.Match, Run.Valid, StreamAt, SoundThread, Moving, Past, LeftmostLongest;
    var t := Report(c, s).state;
    SteadyFacts(c, s);
    assert s.pools.leaves[s.pools.leafAt..] == [];
    assert forall k | 0 <= k < |s.pools.seeds| :: s.pools.seeds[k] in s.pools.seeds;
    BestIsFinal(c.X(), s.pools.seeds, s.scan.ordinal, s.base, s.scan.ordinal + 1, s.B());
    ChainedMore(c.X(), s.found, Piece(s.kept.bestStart, s.kept.bestEnd));
    hide Threads, Held, Complete, Chained;
    if t.done {
      BeyondText(c.X(), t.base);
    } else if t.phase == Fetch {
      FreshArrival(c, t);
    }
  }

  lemma ChainedMore(x: Run, found: seq<Piece>, piece: Piece)
    requires Chained(x, found) && LeftmostLongest(x, Resume(found), piece.start, piece.end)
    ensures Chained(x, found + [piece])
  {
    hide LeftmostLongest;
    var more := found + [piece];
    forall k | 0 <= k < |more|
      ensures LeftmostLongest(x, Resume(more[..k]), more[k].start, more[k].end)
    {
      if k < |found| { assert more[..k] == found[..k]; } else { assert more[..k] == found; }
    }
  }

  lemma AdvanceKeeps(c: Search, s: State)
    requires InConsume(c, s) && s.pools.leafAt == |s.pools.leaves| && !(s.kept.haveBest && !s.pools.live) && !s.done
    ensures Inv(c, EndUnit(c, s).state) && EndUnit(c, s).result.SearchFound? == false
  {
    hide Run.From, Run.Match, Run.Valid, StreamAt, SoundThread, Past, LeftmostLongest, Chained;
    SteadyFacts(c, s);
    assert s.pools.leaves[s.pools.leafAt..] == [];
    if s.scan.eof && !s.scan.lineEnd {
      NothingLeft(c.X(), s.pools.seeds, s.scan.ordinal, s.base, s.B());
    } else {
      MovingEnds(c.X(), s.pools.seeds, s.scan.ordinal, s.base, s.B());
      hide Moving, Complete, Threads, Held;
    }
  }

  lemma MovingEnds(x: Run, seeds: seq<Thread>, i: nat, base: nat, b: Best)
    requires Moving(x, [], seeds, i, base, i + 1, b)
    ensures Complete(x, seeds, i + 1, base, i + 1, b, i + 1)
  {
    forall s: nat, j: nat | base <= s < i + 1 && Eligible(b, s) && i + 1 <= j && x.Match(s, j)
      ensures Covers(x, seeds, i + 1, s, j)
    {
      assert !Covers(x, [], i, s, j);
    }
  }

  // ----- Whole runs -----

  /** What a unit reports about the matches after `s.base`. */
  ghost predicate Reports(c: Search, s: State, r: Ticked) {
    match r.result
    case SearchMore => !r.state.done && r.state.found == s.found
    case SearchDone => r.state.done && r.state.found == s.found && NoMatch(c.X(), s.base)
    case SearchFound(span) =>
      exists p: Piece | r.state.found == s.found + [p] ::
        LeftmostLongest(c.X(), s.base, p.start, p.end) && p.start <= p.end <= |c.tokens|
          && span == c.SpanAt(p.start, p.end)
  }

  lemma ConsumeReports(c: Search, s: State)
    requires InConsume(c, s) && s.pools.leafAt == |s.pools.leaves| && !s.done && s.phase == Consume
    ensures Inv(c, EndUnit(c, s).state) && Reports(c, s, EndUnit(c, s))
  {
    if s.kept.haveBest && !s.pools.live {
      ReportKeeps(c, s);
      hide InConsume, Inv, LeftmostLongest;
      assert Report(c, s).state.found == s.found + [Piece(s.kept.bestStart, s.kept.bestEnd)];
    } else {
      AdvanceKeeps(c, s);
      hide InConsume, Chained, NoMatch, Inv;
      DoneMeans(c, EndUnit(c, s).state);
    }
  }

  lemma DoneMeans(c: Search, s: State)
    requires Inv(c, s)
    ensures s.done ==> NoMatch(c.X(), s.base)
    ensures Chained(c.X(), s.found) && s.base == Resume(s.found)
  {
    hide Chained, NoMatch, Arrived, Trial, Books, Leaves, Flows, Following, StreamAt, Threads;
  }

  /** A unit of work keeps the invariant, and reports exactly the next match of the run, or that there is none. */
  lemma UnitKeeps(c: Search, s: State)
    requires Inv(c, s) && !s.done
    ensures Able(c, s) && Inv(c, Unit(c, s).state) && Reports(c, s, Unit(c, s))
  {
    hide InSkip, InFetch, InClose, InConsume, FetchUnit, SkipUnit, StartUnit, ExpandUnit, LeafUnit, EndUnit,
         LeftmostLongest, Chained, NoMatch, Reports;
    InvAble(c, s);
    match s.phase
    case Skip => SkipKeeps(c, s); SkipReports(c, s);
    case Fetch =>
      FetchKeeps(c, s);
      FetchSame(c, s);
      MoreReports(c, s, FetchUnit(c, s));
    case Close =>
      if s.pools.stack == [] { StartKeeps(c, s); } else { ExpandKeeps(c, s); }
      CloseSame(c, s);
      MoreReports(c, s, Unit(c, s));
    case Consume =>
      if s.pools.leafAt < |s.pools.leaves| {
        LeafKeeps(c, s);
        LeafSame(c, s);
        MoreReports(c, s, Unit(c, s));
      } else {
        ConsumeReports(c, s);
      }
  }

  lemma MoreReports(c: Search, s: State, r: Ticked)
    requires r.result == SearchMore && !r.state.done && r.state.found == s.found
    ensures Reports(c, s, r)
  {
  }

  lemma SkipReports(c: Search, s: State)
    requires Fit(c.rows, s.scan.stream) && Inv(c, SkipUnit(c, s).state) && !s.done
    ensures Reports(c, s, SkipUnit(c, s))
  {
    hide Inv, Step, NoMatch, Chained, LeftmostLongest;
    DoneMeans(c, SkipUnit(c, s).state);
  }

  lemma FetchSame(c: Search, s: State)
    requires Fit(c.rows, s.scan.stream)
    ensures var t := FetchUnit(c, s).state;
            t.done == s.done && t.found == s.found && t.base == s.base && t.scan.ordinal == s.scan.ordinal
              && (t.phase == Fetch || t.phase == Close || t.phase == s.phase)
  {
    hide Step;
  }

  lemma LeafSame(c: Search, s: State)
    requires s.pools.leafAt < |s.pools.leaves| && s.pools.leaves[s.pools.leafAt].pc < |c.g.nodes|
    ensures var t := LeafUnit(c, s);
            t.done == s.done && t.found == s.found && t.base == s.base && t.scan.ordinal == s.scan.ordinal
              && t.phase == s.phase
            && t.pools.leafAt == s.pools.leafAt + 1 && t.pools.leaves == s.pools.leaves
  {
    hide NodeAccepts;
  }

  lemma StartSame(c: Search, s: State)
    requires s.pools.seedAt <= |s.pools.seeds|
    ensures var t := StartUnit(c, s);
            t.done == s.done && t.found == s.found && t.base == s.base && t.scan.ordinal == s.scan.ordinal
              && (t.phase == s.phase || t.phase == Consume)
  {
    hide Push;
    if s.pools.seedAt < |s.pools.seeds| {
      PushSame(s.(pools := s.pools.(current := s.pools.seeds[s.pools.seedAt], seedAt := s.pools.seedAt + 1)),
               s.pools.seeds[s.pools.seedAt].pc);
    } else {
      var from := if c.reverse && !s.scan.eof then s.scan.token.end else s.scan.boundary;
      PushSame(s.(pools := s.pools.(current := Thread(c.start, s.scan.ordinal, from), injected := true)), c.start);
    }
  }

  lemma CloseSame(c: Search, s: State)
    requires Able(c, s) && s.phase == Close
    ensures var t := Unit(c, s).state;
            t.done == s.done && t.found == s.found && t.base == s.base && t.scan.ordinal == s.scan.ordinal
              && (t.phase == Close || t.phase == Consume)
  {
    hide StartUnit, ExpandUnit;
    if s.pools.stack == [] { StartSame(c, s); } else { ExpandPhase(c, s); }
  }

  // ----- Every run ends -----

  /** Units of work the closure may still take. */
  function CloseWork(c: Search, s: State): nat {
    2 * Gap(|s.pools.owner|, c.size) + |s.pools.stack| + Gap(s.pools.seedAt, |s.pools.seeds|) + if s.pools.injected
      then 0 else 1
  }

  function Rank(p: Phase): nat {
    match p
    case Skip => 3
    case Fetch => 2
    case Close => 1
    case Consume => 0
  }

  /** Units of work the phase may still take. */
  function PhaseWork(c: Search, s: State): nat
    requires Able(c, s)
  {
    match s.phase
    case Skip => Effort(c.rows, s.scan.stream)
    case Fetch => Effort(c.rows, s.scan.stream)
    case Close => CloseWork(c, s)
    case Consume => |s.pools.leaves| - s.pools.leafAt
  }

  /** State `t` is nearer than `s` to the end of the search: it resumes later, or has read further since,
      or is in a later phase of the same position, or has less work left in the same phase. */
  predicate Nearer(c: Search, t: State, s: State)
    requires Able(c, t) && Able(c, s)
  {
    var n := |c.tokens|;
    || Gap(t.base, n + 2) < Gap(s.base, n + 2)
    || (t.base == s.base
        && (|| Gap(t.scan.ordinal, n) < Gap(s.scan.ordinal, n)
            || (t.scan.ordinal == s.scan.ordinal
                && (|| Rank(t.phase) < Rank(s.phase)
                    || (t.phase == s.phase && PhaseWork(c, t) < PhaseWork(c, s))))))
  }

  lemma PushWork(c: Search, s: State, pc: nat)
    requires |Push(s, pc).pools.owner| <= c.size
    ensures var t := Push(s, pc); CloseWork(c, t) <= CloseWork(c, s) && |s.pools.owner| <= |t.pools.owner|
  {
    var t := Push(s, pc);
    if pc !in s.pools.owner {
      assert t.pools.owner.Keys == s.pools.owner.Keys + {pc};
      assert |t.pools.owner.Keys| == |t.pools.owner| && |s.pools.owner.Keys| == |s.pools.owner|;
    }
  }

  lemma StartWork(c: Search, s: State)
    requires s.pools.seedAt <= |s.pools.seeds| && s.pools.stack == [] && StartUnit(c, s).phase == Close == s.phase
    requires |StartUnit(c, s).pools.owner| <= c.size
    ensures CloseWork(c, StartUnit(c, s)) < CloseWork(c, s)
  {
    hide Push;
    if s.pools.seedAt < |s.pools.seeds| {
      PushWork(c, s.(pools := s.pools.(current := s.pools.seeds[s.pools.seedAt], seedAt := s.pools.seedAt + 1)),
               s.pools.seeds[s.pools.seedAt].pc);
    } else {
      var from := if c.reverse && !s.scan.eof then s.scan.token.end else s.scan.boundary;
      PushWork(c, s.(pools := s.pools.(current := Thread(c.start, s.scan.ordinal, from), injected := true)), c.start);
    }
  }

  lemma PushGrows(s: State, pc: nat)
    ensures |s.pools.owner| <= |Push(s, pc).pools.owner|
  {
    var t := Push(s, pc);
    if pc !in s.pools.owner {
      assert t.pools.owner.Keys == s.pools.owner.Keys + {pc};
      assert |t.pools.owner.Keys| == |t.pools.owner| && |s.pools.owner.Keys| == |s.pools.owner|;
    }
  }

  lemma ExpandWork(c: Search, s: State)
    requires s.pools.stack != [] && s.pools.stack[|s.pools.stack| - 1] < |c.g.nodes|
             && |ExpandUnit(c, s).pools.owner| <= c.size
    ensures CloseWork(c, ExpandUnit(c, s)) < CloseWork(c, s)
  {
    hide Push, AnchorHolds;
    var n, t0 := c.g.nodes[s.pools.stack[|s.pools.stack| - 1]],
        s.(pools := s.pools.(stack := s.pools.stack[..|s.pools.stack| - 1]));
    if n.op == OpSplit {
      PushGrows(Push(t0, n.other), n.out);
      PushWork(c, t0, n.other);
      PushWork(c, Push(t0, n.other), n.out);
    } else if n.op == OpJump || (AnchorOf(n.op).Some? && AnchorHolds(c, s, AnchorOf(n.op).value)) {
      PushWork(c, t0, n.out);
    }
  }

  lemma CloseBooks(c: Search, s: State)
    requires InClose(c, s)
    ensures |s.pools.owner| <= c.size
  {
    hide Ground, Leaves, Flows, Following, Threads;
  }

  lemma CloseNearer(c: Search, s: State)
    requires InClose(c, s) && Able(c, s) && s.phase == Close && !s.done && Inv(c, Unit(c, s).state)
    ensures var t := Unit(c, s).state; Able(c, t) && Nearer(c, t, s)
  {
    hide InClose, StartUnit, ExpandUnit, InConsume, CloseWork, Effort;
    var t := Unit(c, s).state;
    CloseSame(c, s);
    InvAble(c, t);
    if t.phase == Close {
      CloseBooks(c, t);
      if s.pools.stack == [] { StartWork(c, s); } else { ExpandWork(c, s); }
    }
  }

  lemma StreamNearer(c: Search, s: State)
    requires StreamAt(c, s.scan.stream, s.scan.ordinal) && Able(c, s) && (s.phase == Skip || s.phase == Fetch)
    requires !Unit(c, s).state.done && Able(c, Unit(c, s).state)
    ensures Nearer(c, Unit(c, s).state, s)
  {
    hide StreamAt, Effort, Step, Fit;
    StreamSteps(c, s.scan.stream, s.scan.ordinal);
  }

  lemma FromBase(x: Run, base: nat, s: nat, e: nat)
    requires LeftmostLongest(x, base, s, e)
    ensures base <= s <= e <= |x.w|
  {
    FromInside(x, x.start, s, e);
  }

  lemma EndNearer(c: Search, s: State)
    requires InConsume(c, s) && s.phase == Consume && !s.done && s.pools.leafAt == |s.pools.leaves|
    requires var t := EndUnit(c, s).state; Able(c, s) && !t.done && Able(c, t)
    ensures Nearer(c, EndUnit(c, s).state, s)
  {
    hide Steady, Trial, Held, Past, LeftmostLongest, Able, Effort;
    SteadyFacts(c, s);
    if s.kept.haveBest && !s.pools.live {
      ReportKeeps(c, s);
      hide Inv, InConsume;
      FromBase(c.X(), s.base, s.kept.bestStart, s.kept.bestEnd);
    }
  }

  lemma ConsumeNearer(c: Search, s: State)
    requires InConsume(c, s) && Able(c, s) && s.phase == Consume && !s.done
    requires var t := Unit(c, s).state; !t.done && Able(c, t)
    ensures Nearer(c, Unit(c, s).state, s)
  {
    hide LeafUnit, EndUnit, InConsume;
    if s.pools.leafAt < |s.pools.leaves| { LeafSame(c, s); } else { EndNearer(c, s); }
  }

  /** Every unit of work that does not end the search brings its end nearer. */
  lemma UnitNearer(c: Search, s: State)
    requires Inv(c, s) && !s.done
    ensures Able(c, s)
    ensures var t := Unit(c, s).state; t.done || (Able(c, t) && Nearer(c, t, s))
  {
    hide Unit, InClose, InConsume, Nearer, StreamAt;
    UnitKeeps(c, s);
    var t := Unit(c, s).state;
    if !t.done {
      InvAble(c, t);
      match s.phase
      case Skip => StreamNearer(c, s);
      case Fetch => StreamNearer(c, s);
      case Close => CloseNearer(c, s);
      case Consume => ConsumeNearer(c, s);
    }
  }

  /** While the search runs, no pool holds more entries than the program has nodes. */
  lemma PoolsSuffice(c: Search, s: State)
    requires Inv(c, s) && !s.done
    ensures |s.pools.seeds| <= c.size
    ensures s.phase == Close || s.phase == Consume ==> |s.pools.leaves| <= c.size
    ensures s.phase == Close ==> |s.pools.stack| + |s.pools.leaves| <= c.size
  {
    hide Steady, Held, Past, Trial, Threads, Ground, Flows, Leaves, Complete;
  }

  // ----- The beginning -----

  /** A search over rows from `first` on, in either direction, with a finished program. */
  ghost predicate WellSet(c: Search) {
    && c.first <= |c.rows| && c.X().Valid() && c.Lined()
    && c.tokens == if c.reverse then Reversed(TokensFrom(c.rows, c.first, 0)) else TokensFrom(c.rows, c.first, 0)
  }

  lemma InitialHolds(c: Search)
    requires WellSet(c)
    ensures Inv(c, Initial(c)) && !Initial(c).done && Initial(c).found == []
  {
    hide Run.From, Run.Match, Run.Valid, TokensFrom;
    var s := Initial(c);
    BeginsValid(c.rows, c.first, 0);
    InitialStream(c);
    FreshArrival(c, s);
    hide Arrived, StreamAt;
  }

  lemma InitialStream(c: Search)
    requires WellSet(c)
    ensures StreamAt(c, Initial(c).scan.stream, 0)
  {
    BeginsValid(c.rows, c.first, 0);
    hide TokensFrom, Run.Valid;
    assert c.tokens[0..] == c.tokens;
  }
}
