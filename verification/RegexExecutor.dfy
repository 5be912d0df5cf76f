/** The budgeted executor: fields and fixed pools updated in place, one bounded unit of work at a time. */
module RegexExecutor {
  import opened Common
  import opened Rows
  import opened RegexSyntax
  import opened RegexGraph
  import opened RegexFragments
  import opened RegexRun
  import opened RegexMachine
  import opened RegexResults
  import opened Streams

  /** The tokens of the rows from `first` on, in the order a scan meets them. */
  function ScanTokens(rows: seq<Row>, first: nat, reverse: bool): seq<Token> {
    if reverse then Reversed(TokensFrom(rows, first, 0)) else TokensFrom(rows, first, 0)
  }

  /** A state whose pools need no more than `size` entries. */
  ghost predicate Roomy(size: nat, s: State) {
    && |s.pools.stack| <= size && |s.pools.leaves| <= size && |s.pools.seeds| <= size
    && forall v <- s.pools.owner :: v < size
  }

  lemma CloseRoomy(c: Search, s: State)
    requires Inv(c, s) && !s.done && s.phase == Close
    ensures Roomy(c.size, s) && c.start < c.size
  {
    hide Ground, RegexMachine.Leaves, Flows, Following, Threads;
    PoolsSuffice(c, s);
    GroundFacts(c, s);
  }

  /** What a unit leaves in the pools fits them. */
  lemma UnitRoomy(c: Search, s: State)
    requires Inv(c, s) && !s.done
    ensures Able(c, s)
    ensures var t := Unit(c, s).state;
            && (s.phase == Close ==> c.start < c.size && (t.phase == Close ==> Roomy(c.size, t)))
            && (s.phase == Close && s.pools.stack != [] ==> t.phase == Close)
            && (s.phase == Consume && s.pools.leafAt < |s.pools.leaves| ==> |t.pools.seeds| <= c.size)
  {
    hide Inv, Unit, StartUnit, ExpandUnit, LeafUnit, EndUnit;
    UnitKeeps(c, s);
    var t := Unit(c, s).state;
    if s.phase == Close {
      CloseRoomy(c, s);
      CloseSame(c, s);
      if t.phase == Close { CloseRoomy(c, t); }
      if s.pools.stack != [] { ExpandPhase(c, s); UnitOf(c, s); }
    } else if s.phase == Consume && s.pools.leafAt < |s.pools.leaves| {
      LeafSame(c, s);
      UnitOf(c, s);
      PoolsSuffice(c, t);
    }
  }

  lemma UnitOf(c: Search, s: State)
    requires Able(c, s)
    ensures var r := Unit(c, s);
            match s.phase
            case Skip => r == SkipUnit(c, s)
            case Fetch => r == FetchUnit(c, s)
            case Close => r == Ticked(if s.pools.stack == [] then StartUnit(c, s) else ExpandUnit(c, s), SearchMore)
            case Consume => r == if s.pools.leafAt < |s.pools.leaves| then Ticked(LeafUnit(c, s), SearchMore)
              else EndUnit(c, s)
  {
  }

  // ----- Calls with a budget -----

  /** What a call with the given budget makes of the state. */
  ghost function Spend(c: Search, s: State, budget: nat): Ticked
    requires Inv(c, s)
    decreases budget
  {
    if s.done then Ticked(s, SearchDone)
    else if budget == 0 then Ticked(s, SearchMore)
    else
      UnitKeeps(c, s);
      var r := Unit(c, s);
      if r.result == SearchMore then Spend(c, r.state, budget - 1) else r
  }

  ghost predicate Abler(c: Search, t: State, s: State) {
    Able(c, t) && Able(c, s) && Nearer(c, t, s)
  }

  lemma AblerNow(c: Search, t: State, s: State)
    requires Able(c, t) && Able(c, s) && Nearer(c, t, s)
    ensures Abler(c, t, s)
  {
  }

  lemma AblerTrans(c: Search, u: State, t: State, s: State)
    requires Abler(c, u, t) && Abler(c, t, s)
    ensures Abler(c, u, s)
  {
    hide Able, PhaseWork;
  }

  /** A call reports the next match of the run or that there is none, and brings the end of the search nearer. */
  lemma {:induction false} SpendKeeps(c: Search, s: State, budget: nat)
    requires Inv(c, s) && !s.done
    ensures var r := Spend(c, s, budget);
            Inv(c, r.state) && Reports(c, s, r) && (budget > 0 ==> r.state.done || Abler(c, r.state, s))
    decreases budget
  {
    hide Inv, Unit, Able, Nearer, NoMatch, LeftmostLongest, Abler;
    if budget > 0 {
      UnitKeeps(c, s);
      UnitNearer(c, s);
      var t := Unit(c, s).state;
      if !t.done { AblerNow(c, t, s); }
      if Unit(c, s).result == SearchMore {
        SpendKeeps(c, t, budget - 1);
        DoneMeans(c, s);
        DoneMeans(c, t);
        ReportsLater(c, s, t, Spend(c, t, budget - 1));
        if budget > 1 && !Spend(c, t, budget - 1).state.done { AblerTrans(c, Spend(c, t, budget - 1).state, t, s); }
      }
    }
  }

  /** Work after which nothing was reported does not change what is to be reported next. */
  lemma ReportsLater(c: Search, s: State, t: State, r: Ticked)
    requires t.found == s.found && t.base == s.base && Reports(c, t, r)
    ensures Reports(c, s, r)
  {
    hide NoMatch, LeftmostLongest;
  }

  /** One call with a large budget does what two calls with its parts do. */
  lemma {:induction false} SpendSplit(c: Search, s: State, a: nat, b: nat)
    requires Inv(c, s) && !s.done
    ensures var r := Spend(c, s, a);
            Inv(c, r.state) && Spend(c, s, a + b) == if r.result == SearchMore then Spend(c, r.state, b) else r
    decreases a
  {
    hide Inv, Unit, Able, Nearer, NoMatch, LeftmostLongest, Abler, Search.SpanAt;
    SpendKeeps(c, s, a);
    if a > 0 {
      UnitKeeps(c, s);
      if Unit(c, s).result == SearchMore { SpendSplit(c, Unit(c, s).state, a - 1, b); }
    }
  }

  /** Some finite budget reaches the next result. */
  lemma {:induction false} SpendEnds(c: Search, s: State) returns (budget: nat)
    requires Inv(c, s) && !s.done
    ensures Spend(c, s, budget).result != SearchMore
    decreases Gap(s.base, |c.tokens| + 2), Gap(s.scan.ordinal, |c.tokens|), Rank(s.phase), if Able(c, s)
              then PhaseWork(c, s) else 0
  {
    hide Inv, Unit, Able, NoMatch, LeftmostLongest, Abler, PhaseWork;
    UnitKeeps(c, s);
    UnitNearer(c, s);
    if Unit(c, s).result == SearchMore {
      var rest := SpendEnds(c, Unit(c, s).state);
      budget := rest + 1;
    } else {
      budget := 1;
    }
  }

  class Executor {
    const rows: seq<Row>
    const first: nat
    const d: Dialect
    const g: Graph
    const size: nat
    const start: nat
    const reverse: bool

    var scan: Scan
    var kept: Kept
    const stack: array<nat>
    var stackCount: nat
    const seen: array<bool>
    const seeds: array<Thread>
    var seedCount: nat
    var seedAt: nat
    const leaves: array<Thread>
    var leafCount: nat
    var leafAt: nat
    var current: Thread
    var phase: Phase
    var injected: bool
    var live: bool
    var done: bool
    ghost var owner: Owners
    ghost var base: nat
    ghost var found: seq<Piece>

    /** What this search runs on. */
    ghost function C(): Search {
      Search(rows, first, d, g, size, start, reverse, ScanTokens(rows, first, reverse))
    }

    /** The nodes marked are those owned. */
    ghost predicate Marked()
      reads `owner, seen
    {
      forall pc: nat | pc < seen.Length :: seen[pc] <==> pc in owner
    }

    /** The pools have their fixed sizes and hold no more than they can. */
    ghost predicate Shaped()
      reads `owner, `stackCount, `seedCount, `leafCount, seen
    {
      && size <= stack.Length == seeds.Length == leaves.Length == seen.Length && seeds != leaves
      && stackCount <= stack.Length && seedCount <= seeds.Length && leafCount <= leaves.Length
      && Marked()
    }

    ghost function View(): State
      reads this, stack, seeds, leaves
      requires stackCount <= stack.Length && seedCount <= seeds.Length && leafCount <= leaves.Length
    {
      State(scan, Pools(stack[..stackCount], owner, seeds[..seedCount], seedAt, leaves[..leafCount], leafAt, current,
                        injected, live),
            kept, phase, done, base, found)
    }

    ghost predicate Valid()
      reads this, stack, seen, seeds, leaves
    {
      Shaped() && Inv(C(), View())
    }

    constructor (rows: seq<Row>, first: nat, d: Dialect, g: Graph, size: nat, start: nat, reverse: bool, pool: nat)
      requires first <= |rows| && Run(d, g, Scalars(ScanTokens(rows, first, reverse)), start, size).Valid()
               && size <= pool
      requires Search(rows, first, d, g, size, start, reverse, ScanTokens(rows, first, reverse)).Lined()
      ensures Valid() && fresh(stack) && fresh(seen) && fresh(seeds) && fresh(leaves)
      ensures C() == Search(rows, first, d, g, size, start, reverse, ScanTokens(rows, first, reverse))
      ensures !done && found == [] && View() == Initial(C())
    {
      this.rows, this.first, this.d, this.g, this.size, this.start, this.reverse := rows, first, d, g, size, start,
        reverse;
      var s := if reverse then ReverseBegin(first) else Begin(first, 0);
      var origin := Position(first, 0);
      scan := Scan(s, s, Token(0, origin, origin), origin, 0, 0, false, false);
      kept := Kept(s, Span(origin, origin), 0, 0, 0, false, false);
      var none := Thread(0, 0, origin);
      stack, seen := new nat[pool](_ => 0), new bool[pool](_ => false);
      seeds, leaves := new Thread[pool](_ => none), new Thread[pool](_ => none);
      stackCount, seedCount, seedAt, leafCount, leafAt, current := 0, 0, 0, 0, 0, none;
      phase, injected, live, done := Fetch, false, false, false;
      owner, base, found := map[], 0, [];
      new;
      hide Inv, Run.Valid, ScanTokens;
      assert View() == Initial(C());
      StartsWell();
      InitialHolds(C());
    }

    lemma StartsWell()
      requires first <= |rows| && Run(d, g, Scalars(ScanTokens(rows, first, reverse)), start, size).Valid()
               && C().Lined()
      ensures WellSet(C())
    {
    }

    /** Marks a node and puts it on the stack, unless it is marked. */
    method Push(pc: nat)
      requires Shaped() && pc < seen.Length && (pc !in owner ==> stackCount < stack.Length)
      modifies this`stackCount, this`owner, stack, seen
      ensures Shaped() && View() == RegexMachine.Push(old(View()), pc)
    {
      if !seen[pc] {
        seen[pc] := true;
        stack[stackCount] := pc;
        stackCount := stackCount + 1;
        owner := owner[pc := current.ordinal];
        assert stack[..stackCount] == old(stack[..stackCount]) + [pc];
      }
    }

    method SkipStep() returns (result: SearchResult)
      requires Shaped() && Fit(rows, scan.stream)
      modifies this
      ensures Shaped() && Ticked(View(), result) == SkipUnit(C(), old(View()))
    {
      hide Marked, ScanTokens, Fit, Streams.Step;
      var r := Streams.Step(rows, scan.stream);
      scan := scan.(stream := r.stream);
      match r.outcome
      case Done =>
        done := true;
        return SearchDone;
      case More =>
        return SearchMore;
      case Found(t) =>
        scan := scan.(token := t, ordinal := scan.ordinal + 1, previous := t.cp, boundary := if reverse then t.first
                      else t.end);
        phase := Fetch;
        return SearchMore;
    }

    /** Empties the pools but for the threads that arrived here. */
    method Clear()
      requires Shaped()
      modifies `seedAt, `leafCount, `stackCount, `injected, `owner, seen
      ensures Shaped()
      ensures var s := old(View());
              View() == s.(pools := s.pools.(seedAt := 0, leaves := [], stack := [], injected := false, owner := map[]))
    {
      hide ScanTokens;
      Unmark();
      seedAt, leafCount, stackCount, injected := 0, 0, 0, false;
    }

    method Unmark()
      modifies `owner, seen
      ensures Marked() && owner == map[]
    {
      forall pc | 0 <= pc < seen.Length { seen[pc] := false; }
      owner := map[];
    }

    method FetchStep()
      requires Shaped() && Fit(rows, scan.stream)
      modifies this, seen
      ensures Shaped() && Ticked(View(), SearchMore) == FetchUnit(C(), old(View()))
    {
      hide ScanTokens, Fit, Streams.Step, Marked;
      var r := Streams.Step(rows, scan.stream);
      var t := scan.(before := scan.stream, stream := r.stream);
      if r.outcome == More {
        scan := t;
      } else {
        var token := if r.outcome == Done then t.token else r.outcome.token;
        var lineEnd := r.outcome != Done && d.Separates(token.cp) && token.first.line != token.end.line;
        var eof := r.outcome == Done || lineEnd;
        var boundary :=
          if !eof && (!reverse || t.ordinal == 0) then (if reverse then token.end else token.first) else t.boundary;
        BeginClose(t.(eof := eof, lineEnd := lineEnd, token := token, boundary := boundary));
      }
    }

    /** Opens the closure of the position that has been reached. */
    method BeginClose(reached: Scan)
      requires Shaped()
      modifies this, seen
      ensures Shaped()
      ensures var s := old(View());
              View() == s.(scan := reached, phase := Close, pools :=
                           s.pools.(seedAt := 0, leaves := [], stack := [], injected := false, owner := map[]))
    {
      hide ScanTokens, Marked;
      Clear();
      scan, phase := reached, Close;
    }

    lemma StartOwns(s: State)
      requires s.pools.seedAt < |s.pools.seeds|
      ensures var t := StartUnit(C(), s); s.pools.seeds[s.pools.seedAt].pc in t.pools.owner && t.phase == s.phase
    {
    }

    method StartStep()
      requires Shaped() && phase == Close && stackCount == 0 && seedAt <= seedCount && start < size
      requires var t := StartUnit(C(), View()); t.phase == Close ==> Roomy(size, t)
      modifies this, stack, seen
      ensures Shaped() && View() == StartUnit(C(), old(View()))
    {
      hide Marked, ScanTokens, RegexMachine.Push;
      if seedAt < seedCount {
        assert seeds[..seedCount][seedAt] == seeds[seedAt];
        StartOwns(View());
        assert seeds[seedAt].pc < size;
        Follow(seeds[seedAt], seedAt + 1, injected);
        Push(current.pc);
      } else if !injected && !kept.haveBest {
        var from := if reverse && !scan.eof then scan.token.end else scan.boundary;
        Follow(Thread(start, scan.ordinal, from), seedAt, true);
        Push(start);
      } else {
        BeginConsume();
      }
    }

    method Follow(t: Thread, next: nat, inject: bool)
      requires Shaped()
      modifies `current, `seedAt, `injected
      ensures Shaped()
      ensures var s := old(View()); View() == s.(pools := s.pools.(current := t, seedAt := next, injected := inject))
    {
      hide Marked, ScanTokens;
      current, seedAt, injected := t, next, inject;
    }

    method BeginConsume()
      requires Shaped()
      modifies `seedCount, `leafAt, `live, `phase
      ensures Shaped()
      ensures var s := old(View());
              View() == s.(pools := s.pools.(seeds := [], leafAt := 0, live := false), phase := Consume)
    {
      hide Marked, ScanTokens;
      seedCount, leafAt, live, phase := 0, 0, false, Consume;
    }

    /** Whether an anchor holds at this position. */
    method AtAnchor(a: Anchor) returns (holds: bool)
      requires Shaped()
      ensures holds <==> AnchorHolds(C(), View(), a)
    {
      var left, right := scan.ordinal > 0 && d.IsWord(scan.previous), !scan.eof && d.IsWord(scan.token.cp);
      match a
      case LineStart => holds := scan.ordinal == 0 || scan.previous == NEWLINE;
      case LineEnd => holds := scan.eof || scan.token.cp == NEWLINE;
      case TextStart => holds := scan.ordinal == 0 || d.Separates(scan.previous);
      case TextEnd => holds := scan.eof;
      case Boundary => holds := left != right;
      case NotBoundary => holds := left == right;
    }

    method KeepMatch()
      requires Shaped()
      modifies this
      ensures Shaped() && View() == Accept(C(), old(View()))
    {
      hide Marked, ScanTokens;
      if !kept.haveBest || current.ordinal <= kept.bestStart {
        var best := if current.ordinal == scan.ordinal then Span(current.start, current.start)
                    else if reverse then Span(scan.boundary, current.start) else Span(current.start, scan.boundary);
        kept := Kept(scan.before, best, current.ordinal, scan.ordinal, scan.previous, scan.eof && !scan.lineEnd, true);
      }
    }

    /** The current thread awaits the token at node `pc`. */
    method KeepLeaf(pc: nat)
      requires Shaped() && leafCount < leaves.Length
      modifies `leafCount, leaves
      ensures Shaped()
      ensures var s := old(View()); View() == s.(pools := s.pools.(leaves := s.pools.leaves + [current.(pc := pc)]))
    {
      hide Marked, ScanTokens;
      leaves[leafCount] := current.(pc := pc);
      leafCount := leafCount + 1;
      assert leaves[..leafCount] == old(View()).pools.leaves + [current.(pc := pc)];
    }

    method ExpandStep()
      requires Shaped() && stackCount > 0 && stack[stackCount - 1] < |g.nodes|
      requires Roomy(size, ExpandUnit(C(), View()))
      modifies this, stack, seen, leaves
      ensures Shaped() && View() == ExpandUnit(C(), old(View()))
    {
      hide Marked, ScanTokens, AnchorHolds, Accept, RegexMachine.Push;
      ghost var s, t := View(), ExpandUnit(C(), View());
      stackCount := stackCount - 1;
      var pc := stack[stackCount];
      var n := g.nodes[pc];
      assert stack[..stackCount] == s.pools.stack[..|s.pools.stack| - 1];
      ghost var t0 := View();
      assert t0 == s.(pools := s.pools.(stack := s.pools.stack[..|s.pools.stack| - 1]));
      PushOrder(t0, n.other, n.out);
      PushOrder(t0, n.out, n.out);
      if n.op == OpSplit {
        Push(n.other);
        Push(n.out);
      } else if n.op == OpJump {
        Push(n.out);
      } else if AnchorOf(n.op).Some? {
        var holds := AtAnchor(AnchorOf(n.op).value);
        AnchorSame(s, t0, AnchorOf(n.op).value);
        if holds { Push(n.out); }
      } else if n.op == OpMatch {
        KeepMatch();
      } else {
        KeepLeaf(pc);
      }
    }

    lemma AnchorSame(s: State, t: State, a: Anchor)
      requires t == s.(pools := t.pools)
      ensures AnchorHolds(C(), s, a) == AnchorHolds(C(), t, a)
    {
    }

    lemma PushOrder(s: State, a: nat, b: nat)
      ensures var t := RegexMachine.Push(s, a); var u := RegexMachine.Push(t, b);
              && a in u.pools.owner && b in u.pools.owner && a in t.pools.owner && |t.pools.stack| <= |u.pools.stack|
              && (a !in s.pools.owner ==> |s.pools.stack| < |t.pools.stack|)
                 && (b !in t.pools.owner ==> |t.pools.stack| < |u.pools.stack|)
    {
    }

    method LeafStep()
      requires Shaped() && leafAt < leafCount && leaves[leafAt].pc < |g.nodes|
               && |LeafUnit(C(), View()).pools.seeds| <= size
      modifies this, seeds
      ensures Shaped() && View() == LeafUnit(C(), old(View()))
    {
      hide Marked, NodeAccepts;
      var leaf := leaves[leafAt];
      leafAt := leafAt + 1;
      var n := g.nodes[leaf.pc];
      if !scan.eof && NodeAccepts(d, n, g.ranges, scan.token.cp) {
        seeds[seedCount] := leaf.(pc := n.out);
        seedCount := seedCount + 1;
        assert seeds[..seedCount] == old(View()).pools.seeds + [leaf.(pc := n.out)];
        if !kept.haveBest || leaf.ordinal <= kept.bestStart { live := true; }
      }
    }

    /** Goes back to the end of the kept match and drops the threads. */
    method Rewind()
      requires Shaped()
      modifies `scan, `kept, `seedCount
      ensures Shaped()
      ensures var s := old(View());
              View() == s.(scan := s.scan.(stream := s.kept.bestResume, ordinal := s.kept.bestEnd,
                                           previous := s.kept.bestPrevious,
                                           boundary := if reverse then s.kept.best.first else s.kept.best.end),
                           kept := s.kept.(haveBest := false), pools := s.pools.(seeds := []))
    {
      hide Marked, ScanTokens;
      scan := scan.(stream := kept.bestResume, ordinal := kept.bestEnd, previous := kept.bestPrevious,
                    boundary := if reverse then kept.best.first else kept.best.end);
      kept := kept.(haveBest := false);
      seedCount := 0;
    }

    /** Reports the kept match; the search goes on at its end, or past one more token when it is empty. */
    method ReportStep() returns (result: SearchResult)
      requires Shaped()
      modifies this
      ensures Shaped() && Ticked(View(), result) == Report(C(), old(View()))
    {
      hide Marked, ScanTokens;
      var k := kept;
      result := SearchFound(k.best);
      Rewind();
      var empty := k.bestStart == k.bestEnd;
      Record(if empty then Skip else Fetch, empty && k.bestEof, Piece(k.bestStart, k.bestEnd));
    }

    method Record(next: Phase, over: bool, ghost piece: Piece)
      requires Shaped()
      modifies `phase, `done, `base, `found
      ensures Shaped()
      ensures var s := old(View());
              View() == s.(phase := next, done := over, base := ResumeAt(piece), found := s.found + [piece])
    {
      hide Marked, ScanTokens, ResumeAt;
      phase, done := next, over;
      base, found := ResumeAt(piece), found + [piece];
    }

    method EndStep() returns (result: SearchResult)
      requires Shaped()
      modifies this
      ensures Shaped() && Ticked(View(), result) == EndUnit(C(), old(View()))
    {
      hide Marked, ScanTokens, Report;
      if kept.haveBest && !live {
        result := ReportStep();
      } else if scan.eof && !scan.lineEnd {
        done := true;
        result := SearchDone;
      } else {
        scan := scan.(ordinal := scan.ordinal + 1, previous := scan.token.cp,
                      boundary := if reverse then scan.token.first else scan.token.end);
        phase := Fetch;
        result := SearchMore;
      }
    }

    method CloseStep() returns (result: SearchResult)
      requires Shaped() && phase == Close && Able(C(), View()) && start < size
      requires var t := Unit(C(), View()).state;
               (t.phase == Close ==> Roomy(size, t)) && (stackCount > 0 ==> t.phase == Close)
      modifies this, stack, seen, seeds, leaves
      ensures Shaped() && Ticked(View(), result) == Unit(C(), old(View()))
    {
      ghost var c, s := C(), View();
      hide ScanTokens, Marked, Inv, StartUnit, ExpandUnit, LeafUnit, EndUnit, SkipUnit, FetchUnit, Roomy, Unit;
      UnitOf(c, s);
      if stackCount == 0 {
        StartStep();
      } else {
        assert stack[stackCount - 1] == s.pools.stack[|s.pools.stack| - 1];
        ExpandStep();
      }
      result := SearchMore;
    }

    method ConsumeStep() returns (result: SearchResult)
      requires Shaped() && phase == Consume && Able(C(), View())
      requires leafAt < leafCount ==> |Unit(C(), View()).state.pools.seeds| <= size
      modifies this, stack, seen, seeds, leaves
      ensures Shaped() && Ticked(View(), result) == Unit(C(), old(View()))
    {
      ghost var c, s := C(), View();
      hide ScanTokens, Marked, Inv, StartUnit, ExpandUnit, LeafUnit, EndUnit, SkipUnit, FetchUnit, Roomy, Unit;
      UnitOf(c, s);
      if leafAt < leafCount {
        assert leaves[leafAt] == s.pools.leaves[leafAt];
        LeafStep();
        result := SearchMore;
      } else {
        result := EndStep();
      }
    }

    /** One unit of work. */
    method UnitStep() returns (result: SearchResult)
      requires Valid() && !done
      modifies this, stack, seen, seeds, leaves
      ensures Valid() && Able(C(), old(View())) && Ticked(View(), result) == Unit(C(), old(View()))
    {
      ghost var c, s := C(), View();
      hide ScanTokens, Marked, Inv, SkipUnit, FetchUnit, StartUnit, ExpandUnit, LeafUnit, EndUnit, Roomy, Unit;
      InvAble(c, s);
      UnitKeeps(c, s);
      UnitRoomy(c, s);
      UnitOf(c, s);
      match phase
      case Skip => result := SkipStep();
      case Fetch =>
        FetchStep();
        result := SearchMore;
      case Close => result := CloseStep();
      case Consume => result := ConsumeStep();
    }

    /** One call: up to `budget` units of work, or fewer when there is something to report. */
    method Step(budget: nat) returns (result: SearchResult)
      requires Valid()
      modifies this, stack, seen, seeds, leaves
      ensures Valid() && old(Valid()) && Ticked(View(), result) == Spend(C(), old(View()), budget)
    {
      hide ScanTokens, Inv, Unit, Able, Nearer, Marked;
      if done { return SearchDone; }
      ghost var c, s := C(), View();
      var left := budget;
      while left > 0
        invariant 0 <= left <= budget && Valid() && !done && C() == c
        invariant Spend(c, s, budget) == Spend(c, View(), left)
      {
        left := left - 1;
        ghost var before := View();
        result := UnitStep();
        UnitKeeps(c, before);
        if result != SearchMore { return; }
      }
      return SearchMore;
    }
  }
}
