/** The query compiler: one pass over the query text that builds the program in fixed pools of
    nodes and ranges, leaving unfinished edges threaded through the nodes until their target is known. */
module RegexCompiler {
  import opened Common
  import opened Rows
  import opened RegexSyntax
  import opened RegexGrammar
  import opened RegexWriting
  import opened RegexRewriting
  import opened RegexGraph
  import opened RegexFragments

  /** A single node encodes `r`. */
  ghost predicate Encodes(d: Dialect, n: Node, ranges: seq<Range>, r: Regex) {
    match r
    case Empty => n.op == OpJump
    case One(Char(c)) => n.op == OpChar && n.cp == d.Fold(c)
    case One(Any) => n.op == OpAny
    case One(Class(negated, shorthands, members)) =>
      && n.op == (if negated then OpNotClass else OpClass)
      && n.shorthands == shorthands && OwnRanges(n, ranges) == members
    case Assert(a) => AnchorOf(n.op) == Some(a)
    case _ => false
  }

  lemma EncodesMeans(d: Dialect, n: Node, ranges: seq<Range>, r: Regex)
    requires Encodes(d, n, ranges, r)
    ensures LeafMeans(d, n, ranges, r)
  {
    forall w: seq<CodePoint>, i: nat, i2: nat
      ensures !Fires(d, n, ranges, true, w, i, i2)
      ensures Fires(d, n, ranges, false, w, i, i2) <==> Matches(d, r, w, i, i2)
    {
    }
  }

  /** The nodes agree but for the record of class members. */
  predicate SameHead(n: Node, n': Node) {
    n.op == n'.op && n.out == n'.out && n.other == n'.other && n.first == n'.first && n.cp == n'.cp
  }

  function OpOf(a: Anchor): (op: Op)
    ensures AnchorOf(op) == Some(a)
  {
    match a
    case LineStart => OpLineStart
    case LineEnd => OpLineEnd
    case TextStart => OpTextStart
    case TextEnd => OpTextEnd
    case Boundary => OpBoundary
    case NotBoundary => OpNotBoundary
  }

  function Quantified(r: Regex, quant: char): Regex {
    if quant == '*' then Repeat(r, 0, None)
    else if quant == '+' then Repeat(r, 1, None)
    else Repeat(r, 0, Some(1))
  }

  /** Copies of a counted repetition that need no split: all those below this index. */
  function Solid(least: nat, copies: nat, unlimited: bool): nat {
    if unlimited && copies > 0 then copies - 1 else least
  }

  /** What copy `i` contributes to a counted repetition. */
  function CopyOf(r: Regex, i: nat, least: nat, copies: nat, unlimited: bool): Regex {
    if i >= least then Repeat(r, 0, Some(1))
    else if unlimited && i + 1 == copies then Repeat(r, 1, None)
    else Repeat(r, 1, Some(1))
  }

  /** What the first `i` copies amount to. */
  function Copies(r: Regex, i: nat, least: nat, copies: nat, unlimited: bool): Regex {
    Repeat(r, if i < least then i else least, if unlimited && i == copies then None else Some(i))
  }

  lemma KeptBoth(g: Graph, g': Graph, g'': Graph, lo: nat, hi: nat)
    requires Kept(g, g', lo, hi) && Kept(g', g'', lo, hi)
    ensures Kept(g, g'', lo, hi)
  {
  }

  lemma DirectedAlt(r: Regex, s: Regex, reverse: bool)
    ensures Directed(Alt(r, s), reverse) == Alt(Directed(r, reverse), Directed(s, reverse))
  {
  }

  lemma DirectedCopy(r: Regex, i: nat, least: nat, copies: nat, unlimited: bool, reverse: bool)
    ensures Directed(CopyOf(r, i, least, copies, unlimited), reverse)
            == CopyOf(Directed(r, reverse), i, least, copies, unlimited)
  {
  }

  lemma OneMoreCopy(d: Dialect, r: Regex, i: nat, least: nat, copies: nat, unlimited: bool, reverse: bool)
    requires i < copies && (if unlimited then least == copies else least <= copies)
    ensures Same(d, Directed(Cat(Copies(r, i, least, copies, unlimited), CopyOf(r, i, least, copies, unlimited)),
                             reverse),
                 Directed(Copies(r, i + 1, least, copies, unlimited), reverse))
  {
    var before, copy := Copies(r, i, least, copies, unlimited), CopyOf(r, i, least, copies, unlimited);
    if reverse {
      assert Mirror(copy) == Repeat(Mirror(r), copy.least, copy.most);
      assert Mirror(before) == Repeat(Mirror(r), before.least, before.most);
      RepeatsAdd(d, Mirror(r), copy.least, copy.most, before.least, before.most);
    } else {
      RepeatsAdd(d, r, before.least, before.most, copy.least, copy.most);
    }
  }

  lemma QuantifiedDirected(r: Regex, quant: char, reverse: bool)
    requires quant in {'*', '+', '?'}
    ensures Directed(Quantified(r, quant), reverse) == Quantified(Directed(r, reverse), quant)
  {
  }

  lemma QuantifiedCost(r: Regex, quant: char)
    requires quant in {'*', '+', '?'}
    ensures CostOf(Quantified(r, quant)) == CatCost(CostOf(r), NODE_COST)
  {
    hide CostOf, CopiesCost;
    var s, c := Quantified(r, quant), CostOf(r);
    CostOfRepeat(r, s.least, s.most);
    FirstCopy(c, 0);
    OneCopy(c, s.least, s.most);
  }

  lemma OneCopy(c: Cost, least: nat, most: Option<nat>)
    requires least <= 1 && (most == None || (most == Some(1) && least == 0))
    ensures RepeatCost(c, least, most) == CopiesCost(c, 1, 0)
  {
  }

  lemma RepeatDearer(c: Cost, least: nat, most: Option<nat>)
    requires Orderly(c)
    ensures NoDearer(c, RepeatCost(c, least, most))
  {
    if most != Some(0) {
      var copies := if most.Some? then most.value else Max(least, 1);
      var solid := if most.Some? then least else copies - 1;
      hide CopiesCost;
      FirstCopy(c, solid);
      CopiesGrow(c, 1, copies, solid);
      CopyNoCheaper(c, 0, solid);
    }
  }

  /** A repetition costs no less than what it repeats. */
  lemma SuffixDearer(q: seq<CodePoint>, at: nat, r: Regex)
    requires at <= |q| && ParseSuffix(q, at, r).Parsed?
    ensures NoDearer(CostOf(r), CostOf(ParseSuffix(q, at, r).value))
  {
    hide CostOf, RepeatCost;
    var s := ParseSuffix(q, at, r).value;
    if s != r {
      CostOfRepeat(r, s.least, s.most);
      RepeatDearer(CostOf(r), s.least, s.most);
    }
  }

  /** An item whose atom is refused is refused. */
  lemma AtomRefused(q: seq<CodePoint>, at: nat, depth: nat, u: Usage)
    requires at < |q| && Refused(ParseAtom(q, at, depth), u)
    ensures Refused(ParseItem(q, at, depth), u)
  {
    hide CostOf;
    var atom := ParseAtom(q, at, depth);
    if atom.Parsed? && ParseSuffix(q, atom.at, atom.value).Parsed? {
      SuffixDearer(q, atom.at, atom.value);
    }
  }

  class Compiler {
    const q: seq<CodePoint>
    const dialect: Dialect
    const reverse: bool
    const nodes: array<Node>
    const ranges: array<Range>
    var nodesUsed: nat
    var rangesUsed: nat
    var at: nat
    var depth: nat
    var work: nat
    var failed: bool

    ghost predicate Valid()
      reads this
    {
      && nodes.Length == STATES && ranges.Length == SEARCH_MAX
      && nodesUsed <= STATES - 1 && rangesUsed <= SEARCH_MAX && at <= |q|
    }

    ghost function Program(): Graph
      requires Valid()
      reads this, nodes, ranges
    {
      Graph(nodes[..], ranges[..rangesUsed])
    }

    ghost function Used(): Usage
      reads this
    {
      Usage(nodesUsed, rangesUsed, work)
    }

    /** Nodes from `used0` on hold the fragment for `r`, and nothing else has been spent. */
    ghost predicate Standing(g0: Graph, used0: Usage, f: Fragment, dangling: seq<Edge>, r: Regex)
      reads this, nodes, ranges
    {
      && Valid() && !failed && Kept(g0, Program(), 0, used0.nodes) && Spends(CostOf(r), used0, Used())
      && Fragmented(dialect, Program(), used0.nodes, nodesUsed, f, dangling, Directed(r, reverse))
    }

    /** What a parsing method leaves behind: a fragment for the expression the grammar reads, or a refusal. */
    ghost predicate Outcome(p: Parse<Regex>, g0: Graph, used0: Usage, f: Fragment, dangling: seq<Edge>)
      reads this, nodes, ranges
    {
      && Valid()
      && if failed then Refused(p, used0) else p.Parsed? && p.at == at && Standing(g0, used0, f, dangling, p.value)
    }

    constructor (query: seq<CodePoint>, dialect: Dialect, reverse: bool)
      ensures Valid() && fresh(nodes) && fresh(ranges)
      ensures q == query && this.dialect == dialect && this.reverse == reverse
      ensures nodesUsed == rangesUsed == at == depth == work == 0 && !failed
    {
      q := query;
      this.dialect := dialect;
      this.reverse := reverse;
      nodes := new Node[STATES](_ => Node(OpChar, 0, 0, 0, 0, {}, 0));
      ranges := new Range[SEARCH_MAX](_ => Range(0, 0));
      nodesUsed, rangesUsed, at, depth, work, failed := 0, 0, 0, 0, 0, false;
    }

    /** Allocate a node; when the pool or the work allowance is exhausted, hand out the spare last node. */
    method NewNode(op: Op) returns (n: nat)
      requires Valid()
      modifies this`nodesUsed, this`work, this`failed, nodes
      ensures Valid() && n < STATES
      ensures failed == (old(failed) || old(work) + 1 > COMPILE_WORK || old(nodesUsed) >= STATES - 1)
      ensures !failed ==> n == old(nodesUsed) && nodesUsed == n + 1 && work == old(work) + 1
      ensures nodes[..] == old(nodes[..])[n := Node(op, NO_EDGE, NO_EDGE, 0, 0, {}, 0)]
    {
      work := work + 1;
      if work > COMPILE_WORK || nodesUsed >= STATES - 1 {
        failed := true;
        n := STATES - 1;
      } else {
        n := nodesUsed;
        nodesUsed := nodesUsed + 1;
      }
      nodes[n] := Node(op, NO_EDGE, NO_EDGE, 0, 0, {}, 0);
    }

    method Single(op: Op) returns (f: Fragment)
      requires Valid()
      modifies this`nodesUsed, this`work, this`failed, nodes
      ensures Valid() && f.start < STATES && f == Fragment(f.start, 2 * f.start, 2 * f.start)
      ensures failed == (old(failed) || old(work) + 1 > COMPILE_WORK || old(nodesUsed) >= STATES - 1)
      ensures !failed ==> f.start == old(nodesUsed) && nodesUsed == f.start + 1 && work == old(work) + 1
      ensures nodes[..] == old(nodes[..])[f.start := Node(op, NO_EDGE, NO_EDGE, 0, 0, {}, 0)]
    {
      var n := NewNode(op);
      f := Fragment(n, 2 * n, 2 * n);
    }

    method SetEdge(code: nat, value: nat)
      requires Valid() && code / 2 < STATES
      modifies nodes
      ensures Patched(old(nodes[..]), nodes[..], [Decode(code)], value)
    {
      var e := Decode(code);
      if e.other {
        nodes[e.node] := nodes[e.node].(other := value);
      } else {
        nodes[e.node] := nodes[e.node].(out := value);
      }
    }

    /** Walk the list of open edges from `head`, leading each to `target`. */
    method Patch(head: nat, target: nat, ghost f: Fragment, ghost dangling: seq<Edge>)
      requires Valid() && head == f.head && Threaded(nodes[..], f, dangling)
      modifies nodes
      ensures Patched(old(nodes[..]), nodes[..], dangling, target)
    {
      ghost var was := nodes[..];
      ghost var k := 0;
      var h := head;
      while h != NO_EDGE
        invariant 0 <= k <= |dangling|
        invariant h == if k < |dangling| then Code(dangling[k]) else NO_EDGE
        invariant Patched(was, nodes[..], dangling[..k], target)
        decreases |dangling| - k
      {
        assert k < |dangling|;
        CodeInjective(Decode(h), dangling[k]);
        assert dangling[k] !in dangling[..k];
        assert EdgeValue(nodes[..], dangling[k]) == EdgeValue(was, dangling[k]) == NextOf(dangling, k);
        var e := Decode(h);
        h := Target(nodes[e.node], e.other);
        ghost var mid := nodes[..];
        SetEdge(Code(e), target);
        PatchOneMore(was, mid, nodes[..], dangling, k, target);
        k := k + 1;
      }
      assert k == |dangling| && dangling[..k] == dangling;
    }

    method Join(left: Fragment, right: Fragment, ghost lo: nat, ghost mid: nat, ghost dl: seq<Edge>,
                ghost dr: seq<Edge>,
                ghost rl: Regex, ghost rr: Regex) returns (f: Fragment, ghost dangling: seq<Edge>)
      requires Valid() && lo <= mid <= nodesUsed
      requires Fragmented(dialect, Program(), lo, mid, left, dl, Directed(rl, reverse))
      requires Fragmented(dialect, Program(), mid, nodesUsed, right, dr, Directed(rr, reverse))
      modifies nodes
      ensures Kept(old(Program()), Program(), 0, lo)
      ensures Fragmented(dialect, Program(), lo, nodesUsed, f, dangling, Directed(Cat(rl, rr), reverse))
    {
      ghost var g := Program();
      if reverse {
        Patch(right.head, left.start, right, dr);
        PatchedKeeps(g, Program(), 0, lo, dr, left.start);
        JoinFragments(dialect, g, Program(), mid, nodesUsed, right, dr, Mirror(rr), lo, mid, left, dl, Mirror(rl));
        f, dangling := Fragment(right.start, left.head, left.tail), dl;
      } else {
        Patch(left.head, right.start, left, dl);
        PatchedKeeps(g, Program(), 0, lo, dl, right.start);
        JoinFragments(dialect, g, Program(), lo, mid, left, dl, rl, mid, nodesUsed, right, dr, rr);
        f, dangling := Fragment(left.start, right.head, right.tail), dr;
      }
    }

    /** Put a fragment behind a split: `*`, `+` or `?`; a lazy quantifier tries its exit edge first. */
    method Quantify(f: Fragment, quant: char, lazy: bool, ghost lo: nat, ghost dangling: seq<Edge>, ghost r: Regex)
      returns (f': Fragment, ghost dangling': seq<Edge>)
      requires Valid() && !failed && quant in {'*', '+', '?'}
      requires lo <= nodesUsed && Fragmented(dialect, Program(), lo, nodesUsed, f, dangling, r)
      modifies this`nodesUsed, this`work, this`failed, nodes
      ensures Valid()
      ensures failed == (old(work) + 1 > COMPILE_WORK || old(nodesUsed) >= STATES - 1)
      ensures !failed ==> nodesUsed == old(nodesUsed) + 1 && work == old(work) + 1
      ensures !failed ==> Kept(old(Program()), Program(), 0, lo)
      ensures !failed ==> Fragmented(dialect, Program(), lo, nodesUsed, f', dangling', Quantified(r, quant))
    {
      hide Fragmented, Threaded;
      ghost var g0, hi := Program(), nodesUsed;
      var n := NewNode(OpSplit);
      f', dangling' := f, dangling;
      if failed { return; }
      var exit := Code(Edge(n, !lazy));
      if lazy {
        nodes[n] := nodes[n].(other := f.start);
      } else {
        nodes[n] := nodes[n].(out := f.start);
      }
      ghost var g := Program();
      KeptFragment(dialect, g0, g, lo, hi, f, dangling, r);
      LastOpen(dialect, g, lo, hi, f, dangling, r);
      if quant == '?' {
        SetEdge(f.tail, exit);
        PatchedKeeps(g, Program(), 0, lo, [Last(dangling)], exit);
        OptionFragment(dialect, g, Program(), lo, hi, f, dangling, r, lazy);
        f', dangling' := Fragment(n, f.head, exit), dangling + [Edge(n, !lazy)];
      } else {
        Patch(f.head, n, f, dangling);
        PatchedKeeps(g, Program(), 0, lo, dangling, n);
        LoopFragment(dialect, g, Program(), lo, hi, f, dangling, r, lazy);
        f', dangling' := Fragment(if quant == '*' then n else f.start, exit, exit), [Edge(n, !lazy)];
      }
    }

    method Lazy() returns (lazy: bool)
      requires Valid()
      modifies this`at
      ensures Valid() && at == SkipLazy(q, old(at)) && lazy == Is(q, old(at), '?')
    {
      lazy := at < |q| && q[at] == '?' as int;
      if lazy { at := at + 1; }
    }

    /** Read a decimal count; more than the search limit is refused. */
    method Count() returns (count: nat)
      requires Valid() && !failed
      modifies this`at, this`failed
      ensures Valid()
      ensures failed == ParseCount(q, old(at), 0, 0).Fail?
      ensures !failed ==> ParseCount(q, old(at), 0, 0) == Parsed(count, at)
    {
      count := 0;
      var digits := 0;
      while at < |q| && '0' as int <= q[at] <= '9' as int
        invariant Valid() && !failed
        invariant ParseCount(q, old(at), 0, 0) == ParseCount(q, at, count, digits)
        decreases |q| - at
      {
        count := count * 10 + (q[at] - '0' as int);
        at := at + 1;
        digits := digits + 1;
        if count > SEARCH_MAX {
          failed := true;
          return;
        }
      }
      if digits == 0 { failed := true; }
    }

    /** Read the bounds of a counted repetition after its opening brace. */
    method ReadBounds() returns (least: nat, most: nat, unlimited: bool)
      requires Valid() && !failed
      modifies this`at, this`failed
      ensures Valid()
      ensures failed == ParseBounds(q, old(at)).Fail?
      ensures !failed ==> ParseBounds(q, old(at)) == Parsed(Bounds(least, if unlimited then None else Some(most)), at)
      ensures !failed && unlimited ==> most == least
    {
      unlimited := false;
      most := 0;
      least := Count();
      if failed { return; }
      most := least;
      if at < |q| && q[at] == ',' as int {
        at := at + 1;
        unlimited := at < |q| && q[at] == '}' as int;
        if !unlimited { most := Count(); }
        if failed { return; }
      }
      if at >= |q| || q[at] != '}' as int || most < least {
        failed := true;
        return;
      }
      at := at + 1;
    }

    /** The node `v` and the ranges allocated for it hold the members read so far. */
    ghost predicate Holding(v: nat, first: nat, m: Members)
      reads this, nodes, ranges
    {
      && Valid() && v < STATES && first <= rangesUsed
      && nodes[v].first == first && nodes[v].count == |m.ranges| == rangesUsed - first
      && nodes[v].shorthands == m.shorthands && ranges[first..rangesUsed] == m.ranges
    }

    /** Read one character of a bracket, resolving an escape. */
    method ReadClassChar() returns (cp: CodePoint)
      requires Valid() && !failed
      modifies this`at, this`failed
      ensures Valid() && old(at) <= at
      ensures failed == ClassChar(q, old(at)).Fail?
      ensures !failed ==> ClassChar(q, old(at)) == Parsed(cp, at)
    {
      cp := 0;
      if at >= |q| {
        failed := true;
        return;
      }
      cp := q[at];
      at := at + 1;
      if cp == '\\' as int { cp := ReadEscaped(); }
    }

    method ReadEscaped() returns (cp: CodePoint)
      requires Valid() && !failed
      modifies this`at, this`failed
      ensures Valid() && old(at) <= at
      ensures failed == Escaped(q, old(at)).Fail?
      ensures !failed ==> Escaped(q, old(at)) == Parsed(cp, at)
    {
      cp := 0;
      if at >= |q| {
        failed := true;
        return;
      }
      cp := q[at];
      at := at + 1;
      if cp == 'a' as int { cp := 7; }
      else if cp == 'f' as int { cp := 12; }
      else if cp == 'v' as int { cp := 11; }
      else if cp == 'n' as int { cp := 10; }
      else if cp == 'r' as int { cp := 13; }
      else if cp == 't' as int { cp := 9; }
      else if IsAlphanumeric(cp) { failed := true; }
    }

    /** Read one member of a bracket. */
    method ReadMember() returns (x: Member)
      requires Valid() && !failed && at < |q|
      modifies this`at, this`failed
      ensures Valid() && old(at) <= at
      ensures failed == ClassMember(q, old(at)).Fail?
      ensures !failed ==> ClassMember(q, old(at)) == Parsed(x, at)
    {
      x := Short(Digit);
      if q[at] == '\\' as int && at + 1 < |q| && ShorthandOf(q[at + 1]).Some? {
        x := Short(ShorthandOf(q[at + 1]).value);
        at := at + 2;
        failed := Is(q, at, '-') && !Is(q, at + 1, ']');
        return;
      }
      var low := ReadClassChar();
      if failed { return; }
      var high := low;
      if Is(q, at, '-') && !Is(q, at + 1, ']') {
        at := at + 1;
        high := ReadClassChar();
        if failed { return; }
      }
      x := Interval(Range(low, high));
      failed := low > high;
    }

    /** Record a member in node `v`, a range in the next slot of the range pool. */
    method StoreMember(v: nat, x: Member, ghost first: nat, ghost m: Members)
      requires Holding(v, first, m) && !failed
      modifies this`failed, this`rangesUsed, nodes, ranges
      ensures Valid() && failed == (x.Interval? && old(rangesUsed) == SEARCH_MAX)
      ensures !failed ==> Holding(v, first, m.With(x))
      ensures nodes[..] == old(nodes[..])[v := nodes[v]] && SameHead(nodes[v], old(nodes[v]))
      ensures ranges[..old(rangesUsed)] == old(ranges[..rangesUsed])
    {
      match x {
        case Short(shorthand) =>
          nodes[v] := nodes[v].(shorthands := nodes[v].shorthands + {shorthand});
        case Interval(range) =>
          if rangesUsed >= SEARCH_MAX {
            failed := true;
          } else {
            ranges[rangesUsed] := range;
            rangesUsed := rangesUsed + 1;
            nodes[v] := nodes[v].(count := nodes[v].count + 1);
          }
      }
    }

    /** The members of a bracket, up to and including the closing character. */
    method ReadMembers(v: nat, ghost first: nat) returns (ghost m: Members)
      requires Holding(v, first, Members({}, [])) && !failed
      modifies this`at, this`failed, this`rangesUsed, nodes, ranges
      ensures Valid()
      ensures var p := ClassMembers(q, old(at), Members({}, []));
              if failed then p.Fail? || |p.value.ranges| > SEARCH_MAX - first
              else p == Parsed(m, at) && Holding(v, first, m)
      ensures nodes[..] == old(nodes[..])[v := nodes[v]] && SameHead(nodes[v], old(nodes[v]))
      ensures ranges[..first] == old(ranges[..first])
    {
      m := Members({}, []);
      ghost var p := ClassMembers(q, at, m);
      while at < |q| && q[at] != ']' as int
        invariant Holding(v, first, m) && !failed
        invariant ClassMembers(q, at, m) == p
        invariant nodes[..] == old(nodes[..])[v := nodes[v]] && SameHead(nodes[v], old(nodes[v]))
        invariant ranges[..first] == old(ranges[..first])
        decreases |q| - at
      {
        var x := ReadMember();
        if failed { return; }
        ghost var was := ranges[..rangesUsed];
        StoreMember(v, x, first, m);
        assert ranges[..first] == was[..first];
        m := m.With(x);
        if failed {
          if p.Parsed? { MembersGrow(q, at, m); }
          return;
        }
      }
      if (nodes[v].count == 0 && nodes[v].shorthands == {}) || at >= |q| {
        failed := true;
      } else {
        at := at + 1;
      }
    }

    /** A bracket after its opening character. */
    method ReadBracket(ghost g0: Graph) returns (f: Fragment, ghost dangling: seq<Edge>)
      requires Valid() && !failed && g0 == Program()
      modifies this, nodes, ranges
      ensures depth == old(depth)
      ensures Outcome(Bracket(q, old(at)), g0, old(Used()), f, dangling)
    {
      dangling := [];
      if OutsideCore(q, at) {
        failed := true;
        f := Single(OpClass);
        return;
      }
      var negated := Is(q, at, '^');
      if negated { at := at + 1; }
      f := Single(if negated then OpNotClass else OpClass);
      if failed { return; }
      dangling := FillBracket(f.start, negated, g0);
    }

    /** Read the members of a bracket into its freshly allocated node. */
    method FillBracket(v: nat, negated: bool, ghost g0: Graph) returns (ghost dangling: seq<Edge>)
      requires Valid() && !failed && nodesUsed == v + 1 && 0 < work <= COMPILE_WORK
      requires nodes[v] == Node(if negated then OpNotClass else OpClass, NO_EDGE, NO_EDGE, 0, 0, {}, 0)
      requires Kept(g0, Program(), 0, v)
      modifies this`at, this`failed, this`rangesUsed, nodes, ranges
      ensures Outcome(BracketBody(q, old(at), negated), g0, Usage(v, old(rangesUsed), work - 1),
                      Fragment(v, 2 * v, 2 * v), dangling)
    {
      hide Fragmented, BracketBody, Spends, CostOf, Directed, Outcome, Encodes;
      ghost var g := Program();
      nodes[v] := nodes[v].(first := rangesUsed);
      ghost var first := rangesUsed;
      ghost var m := ReadMembers(v, first);
      dangling := [Edge(v, false)];
      if !failed {
        assert g.ranges <= Program().ranges;
        assert Kept(g, Program(), 0, v);
        BracketOutcome(v, first, negated, m, old(at), g0);
      } else {
        BracketFails(v, first, negated, old(at), g0);
      }
    }

    lemma BracketOutcome(v: nat, first: nat, negated: bool, m: Members, from: nat, g0: Graph)
      requires Holding(v, first, m) && !failed && 0 < work <= COMPILE_WORK && nodesUsed == v + 1
      requires nodes[v].op == (if negated then OpNotClass else OpClass) && nodes[v].out == NO_EDGE
      requires Kept(g0, Program(), 0, v) && ClassMembers(q, from, Members({}, [])) == Parsed(m, at)
      ensures Outcome(BracketBody(q, from, negated), g0, Usage(v, first, work - 1), Fragment(v, 2 * v, 2 * v),
                      [Edge(v, false)])
    {
      hide Fragmented;
      LeafOutcome(g0, Usage(v, first, work - 1), One(Class(negated, m.shorthands, m.ranges)),
                  BracketBody(q, from, negated));
    }

    lemma BracketFails(v: nat, first: nat, negated: bool, from: nat, g0: Graph)
      requires Valid() && failed && 0 < work <= COMPILE_WORK
      requires var p := ClassMembers(q, from, Members({}, [])); p.Fail? || |p.value.ranges| > SEARCH_MAX - first
      ensures Outcome(BracketBody(q, from, negated), g0, Usage(v, first, work - 1), Fragment(v, 2 * v, 2 * v),
                      [Edge(v, false)])
    {
      hide Fragmented;
    }

    /** The most recent node encodes `r` and is a complete fragment for it. */
    lemma LeafOutcome(g0: Graph, used0: Usage, r: Regex, p: Parse<Regex>)
      requires Valid() && !failed && nodesUsed > 0
      requires var v := nodesUsed - 1;
               && nodes[v].op != OpMatch && nodes[v].op != OpSplit && nodes[v].out == NO_EDGE
               && nodes[v].first + nodes[v].count <= rangesUsed
               && Encodes(dialect, nodes[v], ranges[..rangesUsed], Directed(r, reverse))
               && Kept(g0, Program(), 0, v) && used0.nodes == v && Spends(CostOf(r), used0, Used())
      requires p == Parsed(r, at)
      ensures var v := nodesUsed - 1;
              Outcome(p, g0, used0, Fragment(v, 2 * v, 2 * v), [Edge(v, false)])
    {
      var v := nodesUsed - 1;
      EncodesMeans(dialect, nodes[v], ranges[..rangesUsed], Directed(r, reverse));
      SingleFragment(dialect, Program(), v, Directed(r, reverse));
    }

    /** A one-node atom: allocate its node and fill in its fields. */
    method Leaf(op: Op, cp: CodePoint, shorthands: set<Shorthand>, ghost g0: Graph, ghost r: Regex)
      returns (f: Fragment, ghost dangling: seq<Edge>)
      requires Valid() && !failed && g0 == Program() && op != OpMatch && op != OpSplit
      requires Encodes(dialect, Node(op, NO_EDGE, NO_EDGE, 0, 0, shorthands, cp), [], Directed(r, reverse))
               && CostOf(r) == NODE_COST
      modifies this`nodesUsed, this`work, this`failed, nodes
      ensures Outcome(Parsed(r, at), g0, old(Used()), f, dangling)
    {
      dangling := [];
      f := Single(op);
      if failed { return; }
      var v := f.start;
      nodes[v] := nodes[v].(cp := cp, shorthands := shorthands);
      dangling := [Edge(v, false)];
      LeafOutcome(g0, old(Used()), r, Parsed(r, at));
    }

    method AnchorLeaf(a: Anchor, ghost g0: Graph) returns (f: Fragment, ghost dangling: seq<Edge>)
      requires Valid() && !failed && g0 == Program()
      modifies this`nodesUsed, this`work, this`failed, nodes
      ensures Outcome(Parsed(Assert(a), at), g0, old(Used()), f, dangling)
    {
      var op := OpOf(if reverse then MirrorAnchor(a) else a);
      f, dangling := Leaf(op, 0, {}, g0, Assert(a));
    }

    method EmptyLeaf(ghost g0: Graph) returns (f: Fragment, ghost dangling: seq<Edge>)
      requires Valid() && !failed && g0 == Program()
      modifies this`nodesUsed, this`work, this`failed, nodes
      ensures Outcome(Parsed(Empty, at), g0, old(Used()), f, dangling)
    {
      f, dangling := Leaf(OpJump, 0, {}, g0, Empty);
    }

    method CharLeaf(cp: CodePoint, ghost g0: Graph) returns (f: Fragment, ghost dangling: seq<Edge>)
      requires Valid() && !failed && g0 == Program()
      modifies this`nodesUsed, this`work, this`failed, nodes
      ensures Outcome(Parsed(One(Char(cp)), at), g0, old(Used()), f, dangling)
    {
      f, dangling := Leaf(OpChar, dialect.Fold(cp), {}, g0, One(Char(cp)));
    }

    /** An escape after its backslash. */
    method ReadBackslash(ghost g0: Graph) returns (f: Fragment, ghost dangling: seq<Edge>)
      requires Valid() && !failed && g0 == Program()
      modifies this, nodes, ranges
      ensures depth == old(depth)
      ensures Outcome(Backslash(q, old(at)), g0, old(Used()), f, dangling)
    {
      hide Outcome;
      if Is(q, at, 'A') || Is(q, at, 'z') {
        at := at + 1;
        f, dangling := AnchorLeaf(if q[at - 1] == 'A' as int then TextStart else TextEnd, g0);
      } else if Is(q, at, 'b') || Is(q, at, 'B') {
        at := at + 1;
        f, dangling := AnchorLeaf(if q[at - 1] == 'b' as int then Boundary else NotBoundary, g0);
      } else if at < |q| && ShorthandOf(q[at]).Some? {
        var shorthand := ShorthandOf(q[at]).value;
        at := at + 1;
        f, dangling := Leaf(OpClass, 0, {shorthand}, g0, One(Class(false, {shorthand}, [])));
      } else {
        var cp := ReadEscaped();
        if failed {
          dangling := [];
          f := Single(OpChar);
          FailOutcome(g0, old(Used()), f);
        } else {
          f, dangling := CharLeaf(cp, g0);
        }
      }
    }

    lemma FailOutcome(g0: Graph, used0: Usage, f: Fragment)
      requires Valid() && failed
      ensures Outcome(Fail, g0, used0, f, [])
    {
    }

    /** One atom: a group, a bracket, an escape, an anchor, a dot or a character. */
    method ReadAtom(ghost g0: Graph) returns (f: Fragment, ghost dangling: seq<Edge>)
      requires Valid() && !failed && at < |q| && g0 == Program()
      modifies this, nodes, ranges
      ensures old(depth) <= depth && (!failed ==> depth == old(depth))
      ensures Outcome(ParseAtom(q, old(at), old(depth)), g0, old(Used()), f, dangling)
      decreases |q| - at, 0
    {
      var cp := q[at];
      at := at + 1;
      if cp == '(' as int {
        f, dangling := ReadGroup(g0);
      } else if cp == '[' as int {
        f, dangling := ReadBracket(g0);
      } else if cp == '\\' as int {
        f, dangling := ReadBackslash(g0);
      } else if Reserved(cp) {
        failed := true;
        dangling := [];
        f := Single(OpChar);
      } else if cp == '.' as int {
        f, dangling := Leaf(OpAny, 0, {}, g0, One(Any));
      } else if cp == '^' as int {
        f, dangling := AnchorLeaf(LineStart, g0);
      } else if cp == '$' as int {
        f, dangling := AnchorLeaf(LineEnd, g0);
      } else {
        f, dangling := CharLeaf(cp, g0);
      }
    }

    /** A group after its opening parenthesis. */
    method ReadGroup(ghost g0: Graph) returns (f: Fragment, ghost dangling: seq<Edge>)
      requires Valid() && !failed && g0 == Program()
      modifies this, nodes, ranges
      ensures old(depth) <= depth && (!failed ==> depth == old(depth))
      ensures Outcome(ParseGroup(q, old(at), old(depth)), g0, old(Used()), f, dangling)
      decreases |q| - at, 5
    {
      hide Fragmented, Kept, Spends, CostOf, ParseExpr;
      depth := depth + 1;
      if depth > MAX_DEPTH {
        failed := true;
        dangling := [];
        f := Single(OpJump);
        return;
      }
      if Is(q, at, '?') {
        at := at + 1;
        if !Is(q, at, ':') {
          failed := true;
          dangling := [];
          f := Single(OpJump);
          return;
        }
        at := at + 1;
      }
      f, dangling := ReadExpr(g0);
      var closed := Is(q, at, ')');
      if at < |q| { at := at + 1; }
      if !closed { failed := true; }
      depth := depth - 1;
    }

    /** Give copy `i` of a counted repetition its own quantifier: copies beyond `least` are optional,
        and the last copy of an open-ended repetition loops. */
    method QuantifyCopy(f: Fragment, i: nat, least: nat, copies: nat, unlimited: bool, lazy: bool,
                        ghost g0: Graph, ghost used0: Usage, ghost dangling: seq<Edge>, ghost r: Regex)
      returns (f': Fragment, ghost dangling': seq<Edge>)
      requires Valid() && !failed && i < copies && (unlimited ==> least == copies)
      requires Kept(g0, Program(), 0, used0.nodes) && Spends(CostOf(r), used0, Used())
      requires Fragmented(dialect, Program(), used0.nodes, nodesUsed, f, dangling, Directed(r, reverse))
      modifies this`nodesUsed, this`work, this`failed, nodes
      ensures Valid()
      ensures var cost := CopyCost(CostOf(r), i, Solid(least, copies, unlimited));
              if failed then !Fits(cost, used0)
              else Kept(g0, Program(), 0, used0.nodes) && Spends(cost, used0, Used())
                   && Fragmented(dialect, Program(), used0.nodes, nodesUsed, f', dangling',
                                 Directed(CopyOf(r, i, least, copies, unlimited), reverse))
    {
      hide Fragmented, CostOf;
      ghost var r', g1, used, lo := Directed(r, reverse), Program(), Used(), used0.nodes;
      DirectedCopy(r, i, least, copies, unlimited, reverse);
      if Solid(least, copies, unlimited) <= i {
        f', dangling' := Quantify(f, if i >= least then '?' else '+', lazy, lo, dangling, r');
        if failed {
          CatRefused(CostOf(r), NODE_COST, used0, used);
          return;
        }
        KeptBoth(g0, g1, Program(), 0, lo);
        SpendsBoth(CostOf(r), NODE_COST, used0, used, Used());
        assert CopyOf(r', i, least, copies, unlimited) == Quantified(r', if i >= least then '?' else '+');
      } else {
        f', dangling' := f, dangling;
        RepeatOnce(dialect, r');
        SameFragment(dialect, Program(), lo, nodesUsed, f, dangling, r', Repeat(r', 1, Some(1)));
      }
    }

    /** Join one more copy to the `i` copies before it. */
    method JoinCopy(result: Fragment, f: Fragment, ghost i: nat, ghost least: nat, ghost copies: nat,
                    ghost unlimited: bool,
                    ghost lo: nat, ghost mid: nat, ghost dl: seq<Edge>, ghost dr: seq<Edge>, ghost r: Regex)
      returns (joined: Fragment, ghost dangling: seq<Edge>)
      requires Valid() && lo <= mid <= nodesUsed && 0 < i < copies
               && (if unlimited then least == copies else least <= copies)
      requires Fragmented(dialect, Program(), lo, mid, result, dl,
                          Directed(Copies(r, i, least, copies, unlimited), reverse))
      requires Fragmented(dialect, Program(), mid, nodesUsed, f, dr,
                          Directed(CopyOf(r, i, least, copies, unlimited), reverse))
      modifies nodes
      ensures Kept(old(Program()), Program(), 0, lo)
      ensures Fragmented(dialect, Program(), lo, nodesUsed, joined, dangling,
                         Directed(Copies(r, i + 1, least, copies, unlimited), reverse))
    {
      ghost var before, copy := Copies(r, i, least, copies, unlimited), CopyOf(r, i, least, copies, unlimited);
      joined, dangling := Join(result, f, lo, mid, dl, dr, before, copy);
      OneMoreCopy(dialect, r, i, least, copies, unlimited, reverse);
      SameFragment(dialect, Program(), lo, nodesUsed, joined, dangling, Directed(Cat(before, copy), reverse),
                   Directed(Copies(r, i + 1, least, copies, unlimited), reverse));
    }

    /** Compile the atom at `atomAt` again and give the copy its quantifier. */
    method CompileCopy(i: nat, atomAt: nat, least: nat, copies: nat, unlimited: bool, lazy: bool, ghost g0: Graph,
                       ghost r: Regex)
      returns (f: Fragment, ghost dangling: seq<Edge>)
      requires Valid() && !failed && atomAt < |q| && i < copies && (unlimited ==> least == copies) && g0 == Program()
      requires ParseAtom(q, atomAt, depth).Parsed? && ParseAtom(q, atomAt, depth).value == r
      modifies this, nodes, ranges
      ensures Valid() && old(depth) <= depth && (!failed ==> depth == old(depth))
      ensures var cost := CopyCost(CostOf(r), i, Solid(least, copies, unlimited));
              if failed then !Fits(cost, old(Used()))
              else Kept(g0, Program(), 0, old(nodesUsed)) && Spends(cost, old(Used()), Used())
                   && Fragmented(dialect, Program(), old(nodesUsed), nodesUsed, f, dangling,
                                 Directed(CopyOf(r, i, least, copies, unlimited), reverse))
      decreases |q| - atomAt, 1, 0
    {
      hide Fragmented, CostOf;
      at := atomAt;
      f, dangling := ReadAtom(g0);
      if failed {
        CopyNoCheaper(CostOf(r), i, Solid(least, copies, unlimited));
        return;
      }
      f, dangling := QuantifyCopy(f, i, least, copies, unlimited, lazy, g0, old(Used()), dangling, r);
    }

    /** The first `i` copies stand finished in `result`. */
    ghost predicate Copied(i: nat, least: nat, copies: nat, unlimited: bool, g0: Graph, used0: Usage, result: Fragment,
                           dangling: seq<Edge>, r: Regex)
      reads this, nodes, ranges
    {
      && Valid() && !failed && Kept(g0, Program(), 0, used0.nodes)
      && Spends(CopiesCost(CostOf(r), i, Solid(least, copies, unlimited)), used0, Used())
      && Fragmented(dialect, Program(), used0.nodes, nodesUsed, result, dangling,
                    Directed(Copies(r, i, least, copies, unlimited), reverse))
    }

    /** Quantify the copy that has already been compiled. */
    method StartCopies(f0: Fragment, least: nat, copies: nat, unlimited: bool, lazy: bool,
                       ghost g0: Graph, ghost used0: Usage, ghost d0: seq<Edge>, ghost r: Regex)
      returns (result: Fragment, ghost dangling: seq<Edge>)
      requires Valid() && !failed && 0 < copies && (if unlimited then least == copies else least <= copies)
      requires Kept(g0, Program(), 0, used0.nodes) && Spends(CostOf(r), used0, Used())
      requires Fragmented(dialect, Program(), used0.nodes, nodesUsed, f0, d0, Directed(r, reverse))
      modifies this`nodesUsed, this`work, this`failed, nodes
      ensures Valid()
      ensures if failed then !Fits(CopiesCost(CostOf(r), 1, Solid(least, copies, unlimited)), used0)
              else Copied(1, least, copies, unlimited, g0, used0, result, dangling, r)
    {
      hide Fragmented, Kept, Spends, CostOf;
      FirstCopy(CostOf(r), Solid(least, copies, unlimited));
      assert Copies(r, 1, least, copies, unlimited) == CopyOf(r, 0, least, copies, unlimited);
      result, dangling := QuantifyCopy(f0, 0, least, copies, unlimited, lazy, g0, used0, d0, r);
    }

    /** Compile one more copy and join it to those before it. */
    method AddCopy(result: Fragment, i: nat, atomAt: nat, least: nat, copies: nat, unlimited: bool, lazy: bool,
                   ghost g0: Graph, ghost used0: Usage, ghost dangling: seq<Edge>, ghost r: Regex)
      returns (joined: Fragment, ghost dangling': seq<Edge>)
      requires atomAt < |q| && 0 < i < copies && (if unlimited then least == copies else least <= copies)
      requires Copied(i, least, copies, unlimited, g0, used0, result, dangling, r)
      requires ParseAtom(q, atomAt, depth).Parsed? && ParseAtom(q, atomAt, depth).value == r
      modifies this, nodes, ranges
      ensures Valid() && old(depth) <= depth && (!failed ==> depth == old(depth))
      ensures if failed then !Fits(CopiesCost(CostOf(r), i + 1, Solid(least, copies, unlimited)), used0)
              else Copied(i + 1, least, copies, unlimited, g0, used0, joined, dangling', r)
      decreases |q| - atomAt, 1, 1
    {
      hide Fragmented, CostOf;
      ghost var g, mid, used := Program(), nodesUsed, Used();
      ghost var before, copy := CopiesCost(CostOf(r), i, Solid(least, copies, unlimited)),
                CopyCost(CostOf(r), i, Solid(least, copies, unlimited));
      var f; ghost var d;
      f, d := CompileCopy(i, atomAt, least, copies, unlimited, lazy, g, r);
      if failed {
        CatRefused(before, copy, used0, used);
        joined, dangling' := f, d;
        return;
      }
      ghost var g1 := Program();
      KeptBoth(g0, g, g1, 0, used0.nodes);
      SpendsBoth(before, copy, used0, used, Used());
      KeptFragment(dialect, g, g1, used0.nodes, mid, result, dangling,
                   Directed(Copies(r, i, least, copies, unlimited), reverse));
      joined, dangling' := JoinCopy(result, f, i, least, copies, unlimited, used0.nodes, mid, dangling, d, r);
      KeptBoth(g0, g1, Program(), 0, used0.nodes);
    }

    /** Write out the copies of a counted repetition, compiling the atom again for each one after the first. */
    method WriteCopies(f0: Fragment, atomAt: nat, least: nat, copies: nat, unlimited: bool, lazy: bool,
                       ghost g0: Graph, ghost used0: Usage, ghost d0: seq<Edge>, ghost r: Regex)
      returns (result: Fragment, ghost dangling: seq<Edge>)
      requires Valid() && !failed && atomAt < |q| && 0 < copies
               && (if unlimited then least == copies else least <= copies)
      requires ParseAtom(q, atomAt, depth).Parsed? && ParseAtom(q, atomAt, depth).value == r
      requires Kept(g0, Program(), 0, used0.nodes) && Spends(CostOf(r), used0, Used())
      requires Fragmented(dialect, Program(), used0.nodes, nodesUsed, f0, d0, Directed(r, reverse))
      modifies this, nodes, ranges
      ensures Valid() && old(depth) <= depth && (!failed ==> depth == old(depth))
      ensures if failed then !Fits(CopiesCost(CostOf(r), copies, Solid(least, copies, unlimited)), used0)
              else Copied(copies, least, copies, unlimited, g0, used0, result, dangling, r)
      decreases |q| - atomAt, 1, 2
    {
      hide Fragmented, Kept, Spends, CostOf;
      ghost var c, solid := CostOf(r), Solid(least, copies, unlimited);
      result, dangling := StartCopies(f0, least, copies, unlimited, lazy, g0, used0, d0, r);
      if failed {
        CopiesGrow(c, 1, copies, solid);
        return;
      }
      var i := 1;
      while i < copies
        invariant 0 < i <= copies && depth == old(depth)
        invariant Copied(i, least, copies, unlimited, g0, used0, result, dangling, r)
      {
        result, dangling := AddCopy(result, i, atomAt, least, copies, unlimited, lazy, g0, used0, dangling, r);
        i := i + 1;
        if failed {
          CopiesGrow(c, i, copies, solid);
          return;
        }
      }
    }

    /** What `{0}` costs: the work of the atom it drops, and a node. */
    static lemma DiscardCost(r: Regex, used0: Usage, used: Usage)
      requires Spends(CostOf(r), used0, used) && used.nodes <= STATES - 2
      ensures var kept, whole := used0.(work := used.work), CostOf(Repeat(r, 0, Some(0)));
              && CostOf(Empty) == NODE_COST && (!Fits(NODE_COST, kept) ==> !Fits(whole, used0))
              && forall to: Usage :: Spends(NODE_COST, kept, to) ==> Spends(whole, used0, to)
    {
      CostOfRepeat(r, 0, Some(0));
    }

    /** `{0}`: give the atom's storage back; the repetition matches the empty text. */
    method Discard(ghost g0: Graph, ghost used0: Usage, nodesBefore: nat, rangesBefore: nat, ghost r: Regex)
      returns (f: Fragment, ghost dangling: seq<Edge>)
      requires Valid() && !failed && Kept(g0, Program(), 0, used0.nodes) && Spends(CostOf(r), used0, Used())
      requires nodesBefore == used0.nodes < nodesUsed <= STATES - 2 && rangesBefore == used0.ranges == |g0.ranges|
      modifies this`nodesUsed, this`rangesUsed, this`work, this`failed, nodes
      ensures Valid()
      ensures if failed then !Fits(CostOf(Repeat(r, 0, Some(0))), used0)
              else Standing(g0, used0, f, dangling, Repeat(r, 0, Some(0)))
    {
      hide Fragmented, CostOf, Spends, Fits;
      DiscardCost(r, used0, Used());
      nodesUsed := nodesBefore;
      rangesUsed := rangesBefore;
      ghost var g1, used := Program(), Used();
      assert Kept(g0, g1, 0, used0.nodes);
      hide Kept;
      f, dangling := Leaf(OpJump, 0, {}, g1, Empty);
      if failed { return; }
      KeptBoth(g0, g1, Program(), 0, used0.nodes);
      RepeatNever(dialect, Directed(r, reverse));
      SameFragment(dialect, Program(), used0.nodes, nodesUsed, f, dangling, Empty,
                   Repeat(Directed(r, reverse), 0, Some(0)));
    }

    /** Write out a counted repetition whose bounds have been read and whose copies have been found to fit. */
    method WriteRepeat(f0: Fragment, atomAt: nat, least: nat, most: nat, unlimited: bool, lazy: bool, nodesBefore: nat,
                       rangesBefore: nat,
                       ghost g0: Graph, ghost used0: Usage, ghost d0: seq<Edge>, ghost r: Regex)
      returns (f: Fragment, ghost dangling: seq<Edge>)
      requires Standing(g0, used0, f0, d0, r) && atomAt < |q| && ParseAtom(q, atomAt, depth).Parsed?
               && ParseAtom(q, atomAt, depth).value == r
      requires nodesBefore == used0.nodes < nodesUsed <= STATES - 2 && rangesBefore == used0.ranges == |g0.ranges|
      requires if unlimited then most == least else least <= most
      modifies this, nodes, ranges
      ensures Valid() && old(depth) <= depth && (!failed ==> depth == old(depth))
      ensures var whole := Repeat(r, least, if unlimited then None else Some(most));
              if failed then !Fits(CostOf(whole), used0) else Standing(g0, used0, f, dangling, whole)
      decreases |q| - atomAt, 1, 3
    {
      hide Fragmented, Kept, Fits;
      CostOfRepeat(r, least, if unlimited then None else Some(most));
      hide CostOf, CopiesCost, Spends;
      if most == 0 && unlimited {
        f, dangling := QuantifyAtom(f0, '*', lazy, g0, used0, d0, r);
      } else if most == 0 {
        f, dangling := Discard(g0, used0, nodesBefore, rangesBefore, r);
      } else {
        f, dangling := WriteCopies(f0, atomAt, least, most, unlimited, lazy, g0, used0, d0, r);
      }
    }

    /** Whether the copies of a counted repetition overrun a pool. */
    method TooMany(least: nat, most: nat, unlimited: bool, nodesBefore: nat, rangesBefore: nat, ghost used0: Usage,
                   ghost r: Regex)
      returns (full: bool)
      requires Valid() && Spends(CostOf(r), used0, Used()) && nodesBefore == used0.nodes && rangesBefore == used0.ranges
      requires if unlimited then most == least else least <= most
      ensures full ==> !Fits(CostOf(Repeat(r, least, if unlimited then None else Some(most))), used0)
      ensures !full ==> nodesBefore < nodesUsed <= STATES - 2
    {
      hide CostOf, RepeatCost, Product, CopiesCost, CatCost;
      var copies := if most > 0 then most else 1;
      var width, rangeWidth := nodesUsed - nodesBefore, rangesUsed - rangesBefore;
      var splits := if unlimited then 1 else most - least;
      ghost var c, bound := CostOf(r), if unlimited then None else Some(most);
      CostOfRepeat(r, least, bound);
      CountedCost(c, least, bound, copies, splits);
      full := nodesUsed + Product(copies - 1, width) + splits >= STATES - 1
              || rangesUsed + Product(copies - 1, rangeWidth) > SEARCH_MAX;
    }

    /** A counted repetition of the atom that was read from `atomAt`. */
    method Counted(f0: Fragment, atomAt: nat, nodesBefore: nat, rangesBefore: nat,
                   ghost g0: Graph, ghost used0: Usage, ghost d0: seq<Edge>, ghost r: Regex)
      returns (f: Fragment, ghost dangling: seq<Edge>)
      requires Standing(g0, used0, f0, d0, r) && Is(q, at, '{') && atomAt < |q|
               && ParseAtom(q, atomAt, depth) == Parsed(r, at)
      requires nodesBefore == used0.nodes && rangesBefore == used0.ranges == |g0.ranges|
      modifies this, nodes, ranges
      ensures old(depth) <= depth && (!failed ==> depth == old(depth))
      ensures Outcome(ParseSuffix(q, old(at), r), g0, used0, f, dangling)
      decreases |q| - atomAt, 1, 4
    {
      hide Fragmented, CostOf, Kept, Spends, ParseBounds, ParseAtom;
      f, dangling := f0, d0;
      at := at + 1;
      var least, most, unlimited := ReadBounds();
      if failed { return; }
      var lazy := Lazy();
      var resume := at;
      var full := TooMany(least, most, unlimited, nodesBefore, rangesBefore, used0, r);
      if full {
        failed := true;
        return;
      }
      f, dangling := WriteRepeat(f0, atomAt, least, most, unlimited, lazy, nodesBefore, rangesBefore, g0, used0, d0, r);
      if !failed { at := resume; }
    }

    /** The repetition written after an atom, if any. */
    method ReadSuffix(f0: Fragment, atomAt: nat, nodesBefore: nat, rangesBefore: nat,
                      ghost g0: Graph, ghost used0: Usage, ghost d0: seq<Edge>, ghost r: Regex)
      returns (f: Fragment, ghost dangling: seq<Edge>)
      requires Standing(g0, used0, f0, d0, r) && atomAt < |q| && ParseAtom(q, atomAt, depth) == Parsed(r, at)
      requires nodesBefore == used0.nodes && rangesBefore == used0.ranges == |g0.ranges|
      modifies this, nodes, ranges
      ensures old(depth) <= depth && (!failed ==> depth == old(depth))
      ensures Outcome(ParseSuffix(q, old(at), r), g0, used0, f, dangling)
      decreases |q| - atomAt, 1, 5
    {
      hide Fragmented, CostOf;
      f, dangling := f0, d0;
      if IsQuantifier(q, at) {
        var quant := if Is(q, at, '*') then '*' else if Is(q, at, '+') then '+' else '?';
        at := at + 1;
        var lazy := Lazy();
        f, dangling := QuantifyAtom(f, quant, lazy, g0, used0, dangling, r);
      } else if Is(q, at, '{') {
        f, dangling := Counted(f, atomAt, nodesBefore, rangesBefore, g0, used0, d0, r);
      }
    }

    method QuantifyAtom(f: Fragment, quant: char, lazy: bool, ghost g0: Graph, ghost used0: Usage,
                        ghost dangling: seq<Edge>, ghost r: Regex)
      returns (f': Fragment, ghost dangling': seq<Edge>)
      requires Standing(g0, used0, f, dangling, r) && quant in {'*', '+', '?'}
      modifies this`nodesUsed, this`work, this`failed, nodes
      ensures Valid()
      ensures if failed then !Fits(CostOf(Quantified(r, quant)), used0)
              else Standing(g0, used0, f', dangling', Quantified(r, quant))
    {
      hide Fragmented, CostOf, CatCost, Kept, Directed, Quantified;
      ghost var g1, used := Program(), Used();
      QuantifiedCost(r, quant);
      QuantifiedDirected(r, quant, reverse);
      f', dangling' := Quantify(f, quant, lazy, used0.nodes, dangling, Directed(r, reverse));
      if failed {
        CatRefused(CostOf(r), NODE_COST, used0, used);
      } else {
        KeptBoth(g0, g1, Program(), 0, used0.nodes);
        SpendsBoth(CostOf(r), NODE_COST, used0, used, Used());
      }
    }

    /** An atom with its repetition; a second quantifier is refused. */
    method ReadItem(ghost g0: Graph) returns (f: Fragment, ghost dangling: seq<Edge>)
      requires Valid() && !failed && at < |q| && g0 == Program()
      modifies this, nodes, ranges
      ensures old(depth) <= depth && (!failed ==> depth == old(depth))
      ensures Outcome(ParseItem(q, old(at), old(depth)), g0, old(Used()), f, dangling)
      decreases |q| - at, 2
    {
      hide Fragmented, Kept, Spends, CostOf, Standing;
      var atomAt, nodesBefore, rangesBefore := at, nodesUsed, rangesUsed;
      ghost var used0 := Used();
      f, dangling := ReadAtom(g0);
      ghost var atom := ParseAtom(q, atomAt, old(depth));
      if failed {
        AtomRefused(q, atomAt, old(depth), used0);
        return;
      }
      f, dangling := ReadSuffix(f, atomAt, nodesBefore, rangesBefore, g0, used0, dangling, atom.value);
      if failed { return; }
      if IsQuantifier(q, at) || Is(q, at, '{') { failed := true; }
    }

    /** What stood when `used` was in use: a fragment that the next one may be joined to. */
    ghost predicate Stood(g0: Graph, used0: Usage, g: Graph, used: Usage, f: Fragment, dangling: seq<Edge>, r: Regex)
    {
      && used0.nodes <= used.nodes && Kept(g0, g, 0, used0.nodes) && Spends(CostOf(r), used0, used)
      && Fragmented(dialect, g, used0.nodes, used.nodes, f, dangling, Directed(r, reverse))
    }

    method AppendItem(left: Fragment, right: Fragment, ghost g0: Graph, ghost used0: Usage, ghost g: Graph,
                      ghost used: Usage,
                      ghost dl: seq<Edge>, ghost dr: seq<Edge>, ghost rl: Regex, ghost rr: Regex)
      returns (f: Fragment, ghost dangling: seq<Edge>)
      requires Stood(g0, used0, g, used, left, dl, rl) && Standing(g, used, right, dr, rr)
      modifies nodes
      ensures Standing(g0, used0, f, dangling, Cat(rl, rr))
    {
      hide Fragmented;
      ghost var g1 := Program();
      assert CostOf(Cat(rl, rr)) == CatCost(CostOf(rl), CostOf(rr));
      hide CostOf;
      KeptBoth(g0, g, g1, 0, used0.nodes);
      SpendsBoth(CostOf(rl), CostOf(rr), used0, used, Used());
      KeptFragment(dialect, g, g1, used0.nodes, used.nodes, left, dl, Directed(rl, reverse));
      f, dangling := Join(left, right, used0.nodes, used.nodes, dl, dr, rl, rr);
      KeptBoth(g0, g1, Program(), 0, used0.nodes);
    }

    /** The items of one alternative; none at all match the empty text. */
    method ReadItems(ghost g0: Graph) returns (result: Fragment, ghost dangling: seq<Edge>)
      requires Valid() && !failed && g0 == Program()
      modifies this, nodes, ranges
      ensures old(depth) <= depth && (!failed ==> depth == old(depth))
      ensures Outcome(ParseItems(q, old(at), old(depth), None), g0, old(Used()), result, dangling)
      decreases |q| - at, 3
    {
      hide Fragmented, Kept, CostOf;
      ghost var acc, used0 := None, Used();
      result, dangling := Fragment(NO_EDGE, NO_EDGE, NO_EDGE), [];
      var have := false;
      while !ItemsEnd(q, at)
        invariant Valid() && !failed && depth == old(depth) && old(at) <= at && have == acc.Some?
        invariant if have then Standing(g0, used0, result, dangling, acc.value) else Program() == g0 && Used() == used0
        invariant ParseItems(q, old(at), depth, None) == ParseItems(q, at, depth, acc)
        decreases |q| - at
      {
        ghost var item, here, g, used := ParseItem(q, at, depth), at, Program(), Used();
        var f; ghost var d;
        f, d := ReadItem(g);
        if failed {
          ItemRefused(q, here, old(depth), acc, used0, used);
          return;
        }
        if have {
          result, dangling := AppendItem(result, f, g0, used0, g, used, dangling, d, acc.value, item.value);
        } else {
          result, dangling := f, d;
          have := true;
        }
        acc := Some(Append(acc, item.value));
      }
      if !have {
        result, dangling := EmptyLeaf(g0);
      }
    }

    /** Put a split before two alternatives and chain their open edges. */
    method Fork(left: Fragment, right: Fragment, ghost g0: Graph, ghost used0: Usage, ghost g: Graph, ghost used: Usage,
                ghost dl: seq<Edge>, ghost dr: seq<Edge>, ghost rl: Regex, ghost rr: Regex)
      returns (f: Fragment, ghost dangling: seq<Edge>)
      requires Stood(g0, used0, g, used, left, dl, rl) && Standing(g, used, right, dr, rr)
      modifies this`nodesUsed, this`work, this`failed, nodes
      ensures Valid()
      ensures if failed then !Fits(NODE_COST, old(Used())) else Standing(g0, used0, f, dangling, Alt(rl, rr))
    {
      ghost var g1, used1, lo, mid := Program(), Used(), used0.nodes, used.nodes;
      f, dangling := left, dl;
      var n := NewNode(OpSplit);
      if failed { return; }
      nodes[n] := nodes[n].(out := left.start, other := right.start);
      ghost var g2 := Program();
      SetEdge(left.tail, right.head);
      f, dangling := Fragment(n, left.head, right.tail), dl + dr;
      ForkStands(g0, used0, g, used, g1, used1, g2, left, dl, rl, right, dr, rr);
    }

    lemma ForkStands(g0: Graph, used0: Usage, g: Graph, used: Usage, g1: Graph, used1: Usage, g2: Graph,
                     left: Fragment, dl: seq<Edge>, rl: Regex, right: Fragment, dr: seq<Edge>, rr: Regex)
      requires Stood(g0, used0, g, used, left, dl, rl) && Stood(g, used, g1, used1, right, dr, rr)
      requires Valid() && !failed && Spends(NODE_COST, used1, Used()) && Kept(g1, g2, 0, used1.nodes)
      requires used1.nodes < |g2.nodes| && g2.nodes[used1.nodes] == Node(OpSplit, left.start, right.start, 0, 0, {}, 0)
      requires Patched(g2.nodes, Program().nodes, [Decode(left.tail)], right.head) && Program().ranges == g2.ranges
      ensures Standing(g0, used0, Fragment(used1.nodes, left.head, right.tail), dl + dr, Alt(rl, rr))
    {
      hide Fragmented, CostOf, Patched, Directed;
      AltCost(rl, rr);
      DirectedAlt(rl, rr, reverse);
      SpendsBoth(CostOf(rl), CostOf(rr), used0, used, used1);
      SpendsBoth(CatCost(CostOf(rl), CostOf(rr)), NODE_COST, used0, used1, Used());
      ForkChain(dialect, g, g1, g2, Program(), used0.nodes, used.nodes, used1.nodes,
                left, dl, Directed(rl, reverse), right, dr, Directed(rr, reverse));
      KeptBoth(g0, g, Program(), 0, used0.nodes);
    }

    /** An expression: alternatives separated by bars. */
    method ReadExpr(ghost g0: Graph) returns (f: Fragment, ghost dangling: seq<Edge>)
      requires Valid() && !failed && g0 == Program()
      modifies this, nodes, ranges
      ensures old(depth) <= depth && (!failed ==> depth == old(depth))
      ensures Outcome(ParseExpr(q, old(at), old(depth)), g0, old(Used()), f, dangling)
      decreases |q| - at, 4
    {
      hide Fragmented, Kept, CostOf, ParseItems;
      ghost var used0 := Used();
      f, dangling := ReadItems(g0);
      ghost var r, first := ParseItems(q, old(at), old(depth), None), at;
      if failed {
        if r.Parsed? && ParseAlternatives(q, r.at, old(depth),
                                          r.value).Parsed? { AlternativesGrow(q, r.at, old(depth), r.value); }
        return;
      }
      ghost var left := r.value;
      while Is(q, at, '|')
        invariant Valid() && !failed && depth == old(depth) && old(at) <= at
        invariant Standing(g0, used0, f, dangling, left)
        invariant ParseExpr(q, old(at), depth) == ParseAlternatives(q, at, depth, left)
        decreases |q| - at
      {
        ghost var bar, g, used := at, Program(), Used();
        ghost var right := ParseItems(q, at + 1, depth, None);
        at := at + 1;
        var h; ghost var d;
        h, d := ReadItems(g);
        if failed {
          AlternativeRefused(q, bar, old(depth), left, used0, used);
          return;
        }
        ghost var used1 := Used();
        f, dangling := Fork(f, h, g0, used0, g, used, dangling, d, left, right.value);
        if failed {
          ForkRefused(q, at, old(depth), left, right.value, used0, used, used1);
          return;
        }
        left := Alt(left, right.value);
      }
    }

    /** Compile the query. A query in the core of the language is accepted exactly when it writes an expression that
        fits the pools; the program then finds, in its direction, exactly what that expression matches. Nothing is
        promised of queries outside the core but that an accepted one has become a whole program. */
    method Compile() returns (ok: bool, start: nat)
      requires Valid() && !failed && nodesUsed == rangesUsed == at == depth == work == 0
      modifies this, nodes, ranges
      ensures Valid()
      ensures ok ==> Complete(Program(), nodesUsed, start)
      ensures InCore(q) ==> (ok <==> Acceptable(q))
      ensures ok ==> forall r: Regex | Writes(q, r) :: Finds(dialect, Program(), start, r, reverse)
    {
      hide InCore, Finds, Complete, Readable, Acceptable, ParseQuery, Writes;
      ok, start := Translate();
      AcceptableMeans(q);
      forall r: Regex | ok && Writes(q, r)
        ensures Finds(dialect, Program(), start, r, reverse)
      {
        ReadIsWritten(q, r);
        ReadIsCore(q);
      }
    }

    /** One pass over the query. */
    method Translate() returns (ok: bool, start: nat)
      requires Valid() && !failed && nodesUsed == rangesUsed == at == depth == work == 0
      modifies this, nodes, ranges
      ensures Valid()
      ensures ok ==> Complete(Program(), nodesUsed, start)
      ensures InCore(q) ==> (ok <==> Readable(q))
      ensures InCore(q) && ok ==> Finds(dialect, Program(), start, ParseQuery(q).value, reverse)
    {
      hide InCore, Fragmented, CostOf, Finds, ProgramMeans, Wired, Threaded, Patched, ParseExpr, Kept, Directed;
      ok, start := false, 0;
      if |q| == 0 || |q| > SEARCH_MAX { return; }
      for i := 0 to |q|
        invariant forall k :: 0 <= k < i ==> q[k] != 0 && Scalar(q[k])
      {
        if q[i] == 0 || !Scalar(q[i]) {
          assert q[i] in q;
          return;
        }
      }
      ghost var none, p := Used(), ParseExpr(q, 0, 0);
      var f; ghost var dangling;
      f, dangling := ReadExpr(Program());
      if p.Parsed? { CostOrderly(p.value); }
      ghost var read, g := !failed, Program();
      ghost var hi := nodesUsed;
      var accept := NewNode(OpMatch);
      if failed || at != |q| { return; }
      ghost var g1, r := Program(), Directed(p.value, reverse);
      AcceptAllocated(g, g1, hi, f, dangling, r);
      Patch(f.head, accept, f, dangling);
      FinishProgram(dialect, g1, Program(), hi, f, dangling, r);
      MirrorProgram(dialect, Program(), f.start, p.value, reverse);
      ok, start := true, f.start;
    }

    lemma AcceptAllocated(g: Graph, g1: Graph, hi: nat, f: Fragment, dangling: seq<Edge>, r: Regex)
      requires Fragmented(dialect, g, 0, hi, f, dangling, r) && hi < |g.nodes| && g1.ranges == g.ranges
      requires g1.nodes == g.nodes[hi := Node(OpMatch, NO_EDGE, NO_EDGE, 0, 0, {}, 0)]
      ensures Fragmented(dialect, g1, 0, hi, f, dangling, r) && Threaded(g1.nodes, f, dangling)
      ensures hi < |g1.nodes| && g1.nodes[hi].op == OpMatch
    {
      KeptFragment(dialect, g, g1, 0, hi, f, dangling, r);
    }
  }

  lemma LastOpen(d: Dialect, g: Graph, lo: nat, hi: nat, f: Fragment, dangling: seq<Edge>, r: Regex)
    requires Fragmented(d, g, lo, hi, f, dangling, r)
    ensures dangling != [] && Decode(f.tail) == Last(dangling) && lo <= Last(dangling).node < hi <= |g.nodes|
            && lo <= f.start < hi
    ensures Threaded(g.nodes, f, dangling) && forall e <- dangling :: lo <= e.node < hi
  {
    CodeInjective(Decode(f.tail), Last(dangling));
  }

  /** An alternation built in steps: the right fragment after the left one, then the split, then the chaining. */
  lemma ForkChain(d: Dialect, g: Graph, g1: Graph, g2: Graph, g3: Graph, lo: nat, mid: nat, hi: nat,
                  left: Fragment, dl: seq<Edge>, rl: Regex, right: Fragment, dr: seq<Edge>, rr: Regex)
    requires Fragmented(d, g, lo, mid, left, dl, rl) && Kept(g, g1, 0, mid)
    requires Fragmented(d, g1, mid, hi, right, dr, rr) && Kept(g1, g2, 0, hi)
    requires hi < |g2.nodes| && g2.nodes[hi] == Node(OpSplit, left.start, right.start, 0, 0, {}, 0)
    requires Patched(g2.nodes, g3.nodes, [Decode(left.tail)], right.head) && g3.ranges == g2.ranges
    ensures Fragmented(d, g3, lo, hi + 1, Fragment(hi, left.head, right.tail), dl + dr, Alt(rl, rr))
    ensures Kept(g, g3, 0, lo)
  {
    hide Fragmented, Patched;
    LastOpen(d, g, lo, mid, left, dl, rl);
    LastOpen(d, g1, mid, hi, right, dr, rr);
    KeptFragment(d, g, g1, lo, mid, left, dl, rl);
    KeptFragment(d, g1, g2, lo, mid, left, dl, rl);
    KeptFragment(d, g1, g2, mid, hi, right, dr, rr);
    ForkFragment(d, g2, g3, lo, mid, hi, left, dl, rl, right, dr, rr);
    PatchedKeeps(g2, g3, 0, lo, [Last(dl)], right.head);
  }

  /** A query of so many scalars that a search takes it at all. */
  predicate Sized(q: seq<CodePoint>) {
    0 < |q| <= SEARCH_MAX && forall cp <- q :: cp != 0 && Scalar(cp)
  }

  /** The reader takes the query, and what it reads is small enough for the pools. */
  predicate Readable(q: seq<CodePoint>) {
    Sized(q) && ParseQuery(q).Some? && Fits(CostOf(ParseQuery(q).value), Usage(0, 0, 0))
  }

  /** A query that compiles: valid scalars that write an expression small enough for the pools. */
  ghost predicate Acceptable(q: seq<CodePoint>) {
    Sized(q) && exists r: Regex | Writes(q, r) :: Fits(CostOf(r), Usage(0, 0, 0))
  }

  lemma AcceptableMeans(q: seq<CodePoint>)
    ensures Acceptable(q) <==> Readable(q)
  {
    hide ParseQuery, Writes, CostOf, Fits;
    if Readable(q) { ReadIsWritten(q, ParseQuery(q).value); }
    if Acceptable(q) {
      var r: Regex :| Writes(q, r) && Fits(CostOf(r), Usage(0, 0, 0));
      ReadIsWritten(q, r);
    }
  }

  /** A finished program: the last node accepts and all others lead to nodes of the program. */
  ghost predicate Complete(g: Graph, size: nat, start: nat) {
    && 0 < size <= |g.nodes| && start < size && g.nodes[size - 1].op == OpMatch && Wired(g, size - 1, size)
  }

  /** Run over a text, or over the text read backwards, the program accepts the piece `w[i..j]` just when `r` matches
      it. */
  ghost predicate FindsPiece(d: Dialect, g: Graph, start: nat, r: Regex, reverse: bool, w: seq<CodePoint>, i: nat,
                             j: nat)
    requires i <= j <= |w|
  {
    Matches(d, r, w, i, j) <==>
    if reverse then Recognises(d, g, Reversed(w), start, |w| - j, |w| - i) else Recognises(d, g, w, start, i, j)
  }

  /** The program finds, in its direction, exactly the pieces that `r` matches. */
  ghost predicate Finds(d: Dialect, g: Graph, start: nat, r: Regex, reverse: bool) {
    forall w: seq<CodePoint>, i: nat, j: nat | i <= j <= |w| :: FindsPiece(d, g, start, r, reverse, w, i, j)
  }

  lemma MirrorProgram(d: Dialect, g: Graph, start: nat, r: Regex, reverse: bool)
    requires ProgramMeans(d, g, start, Directed(r, reverse))
    ensures Finds(d, g, start, r, reverse)
  {
    forall w: seq<CodePoint>, i: nat, j: nat | i <= j <= |w|
      ensures FindsPiece(d, g, start, r, reverse, w, i, j)
    {
      MirrorMatches(d, r, w, i, j);
    }
  }

  lemma PatchOneMore(was: seq<Node>, mid: seq<Node>, now: seq<Node>, dangling: seq<Edge>, k: nat, target: nat)
    requires k < |dangling|
    requires Patched(was, mid, dangling[..k], target) && Patched(mid, now, [dangling[k]], target)
    ensures Patched(was, now, dangling[..k + 1], target)
  {
    var next := dangling[..k + 1];
    assert next == dangling[..k] + [dangling[k]];
    forall v: nat | v < |was|
      ensures now[v] == PatchedNode(was[v], v, next, target)
    {
      assert mid[v] == PatchedNode(was[v], v, dangling[..k], target);
    }
  }
}
