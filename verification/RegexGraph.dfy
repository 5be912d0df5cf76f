/** Compiled programs as graphs. A fragment is a group of nodes whose unfinished edges are
    threaded into a list; this module gives fragments a meaning and shows what joining,
    repeating and combining them does to that meaning. */
module RegexGraph {
  import opened Common
  import opened Rows
  import opened RegexSyntax

  const NO_EDGE: nat := 0xffff

  datatype Op =
    | OpChar | OpAny | OpClass | OpNotClass | OpSplit | OpJump
    | OpLineStart | OpLineEnd | OpTextStart | OpTextEnd | OpBoundary | OpNotBoundary
    | OpMatch

  datatype Node = Node(op: Op, out: nat, other: nat, first: nat, count: nat,
                       shorthands: set<Shorthand>, cp: CodePoint)

  datatype Graph = Graph(nodes: seq<Node>, ranges: seq<Range>)

  predicate Consuming(op: Op) {
    op == OpChar || op == OpAny || op == OpClass || op == OpNotClass
  }

  function AnchorOf(op: Op): Option<Anchor> {
    match op
    case OpLineStart => Some(LineStart)
    case OpLineEnd => Some(LineEnd)
    case OpTextStart => Some(TextStart)
    case OpTextEnd => Some(TextEnd)
    case OpBoundary => Some(Boundary)
    case OpNotBoundary => Some(NotBoundary)
    case _ => None
  }

  /** The ranges owned by a class node. */
  function OwnRanges(n: Node, ranges: seq<Range>): seq<Range> {
    if n.first + n.count <= |ranges| then ranges[n.first..n.first + n.count] else []
  }

  predicate NodeAccepts(d: Dialect, n: Node, ranges: seq<Range>, cp: CodePoint) {
    !d.Separates(cp) &&
    match n.op
    case OpChar => d.Fold(cp) == n.cp
    case OpAny => cp != NEWLINE
    case OpClass => d.HasMember(n.shorthands, OwnRanges(n, ranges), cp)
    case OpNotClass => !d.HasMember(n.shorthands, OwnRanges(n, ranges), cp) && cp != NEWLINE
    case _ => false
  }

  /** One of the two edges of a node. */
  datatype Edge = Edge(node: nat, other: bool)

  /** Edges are numbered: 2v is the `out` edge of node v, 2v+1 its `other` edge. */
  function Code(e: Edge): nat {
    if e.other then 2 * e.node + 1 else 2 * e.node
  }

  function Decode(code: nat): (e: Edge)
    ensures Code(e) == code
  {
    Edge(code / 2, code % 2 == 1)
  }

  lemma CodeInjective(a: Edge, b: Edge)
    requires Code(a) == Code(b)
    ensures a == b
  {
  }

  function Target(n: Node, other: bool): nat {
    if other then n.other else n.out
  }

  function EdgeValue(nodes: seq<Node>, e: Edge): nat
    requires e.node < |nodes|
  {
    Target(nodes[e.node], e.other)
  }

  /** Edge `other` of node `n` can be taken at position `i`, arriving at position `i2`. */
  predicate Fires(d: Dialect, n: Node, ranges: seq<Range>, other: bool, w: seq<CodePoint>, i: nat, i2: nat) {
    i <= |w| &&
    if n.op == OpSplit then i2 == i
    else if other then false
    else if n.op == OpJump then i2 == i
    else if AnchorOf(n.op).Some? then i2 == i && Holds(d, AnchorOf(n.op).value, w, i)
    else Consuming(n.op) && i < |w| && i2 == i + 1 && NodeAccepts(d, n, ranges, w[i])
  }

  /** From node `v` at position `i` some path of `n` edges leaves through a dangling edge at `j`. */
  ghost predicate Leaves(d: Dialect, g: Graph, dangling: seq<Edge>, w: seq<CodePoint>, v: nat, i: nat, j: nat, n: nat)
    decreases n, 1
  {
    n > 0 && v < |g.nodes| &&
    exists other: bool, i2: nat ::
      Fires(d, g.nodes[v], g.ranges, other, w, i, i2) && Continues(d, g, dangling, w, v, other, i2, j, n)
  }

  ghost predicate Continues(d: Dialect, g: Graph, dangling: seq<Edge>, w: seq<CodePoint>, v: nat, other: bool, i2: nat,
                            j: nat, n: nat)
    requires n > 0 && v < |g.nodes|
    decreases n, 0
  {
    if Edge(v, other) in dangling then i2 == j
    else Leaves(d, g, dangling, w, Target(g.nodes[v], other), i2, j, n - 1)
  }

  ghost predicate Exits(d: Dialect, g: Graph, dangling: seq<Edge>, w: seq<CodePoint>, v: nat, i: nat, j: nat) {
    exists n: nat :: Leaves(d, g, dangling, w, v, i, j, n)
  }

  /** Every finished edge that can fire from a node in `lo..hi` stays in `lo..hi`; dangling edges lie there. */
  ghost predicate Closed(g: Graph, lo: nat, hi: nat, dangling: seq<Edge>) {
    && lo <= hi <= |g.nodes|
    && (forall e <- dangling :: lo <= e.node < hi)
    && (forall v: nat :: lo <= v < hi ==> Settled(g, lo, hi, dangling, v))
  }

  ghost predicate Settled(g: Graph, lo: nat, hi: nat, dangling: seq<Edge>, v: nat)
    requires v < |g.nodes|
  {
    var n := g.nodes[v];
    && n.op != OpMatch
    && n.first + n.count <= |g.ranges|
    && (Edge(v, false) !in dangling ==> lo <= n.out < hi)
    && (n.op == OpSplit && Edge(v, true) !in dangling ==> lo <= n.other < hi)
    && (n.op != OpSplit ==> Edge(v, true) !in dangling)
  }

  /** A fragment that starts at `start` and leaves through `dangling` recognises `r`. */
  ghost predicate Spells(d: Dialect, g: Graph, dangling: seq<Edge>, start: nat, r: Regex) {
    forall w: seq<CodePoint>, i: nat, j: nat :: Exits(d, g, dangling, w, start, i, j) <==> Matches(d, r, w, i, j)
  }

  /** The graphs agree on `lo..hi` but for the values stored in dangling edges. */
  ghost predicate Agree(g: Graph, g': Graph, lo: nat, hi: nat, dangling: seq<Edge>) {
    && hi <= |g.nodes| && hi <= |g'.nodes|
    && forall v: nat :: lo <= v < hi ==> AgreeAt(g, g', dangling, v)
  }

  ghost predicate AgreeAt(g: Graph, g': Graph, dangling: seq<Edge>, v: nat)
    requires v < |g.nodes| && v < |g'.nodes|
  {
    var n, n' := g.nodes[v], g'.nodes[v];
    && n' == n.(out := n'.out, other := n'.other)
    && n.first + n.count <= |g'.ranges|
    && OwnRanges(n', g'.ranges) == OwnRanges(n, g.ranges)
    && (Edge(v, false) !in dangling ==> n'.out == n.out)
    && (Edge(v, true) !in dangling ==> n'.other == n.other)
  }

  lemma AgreeFires(d: Dialect, g: Graph, g': Graph, dangling: seq<Edge>, v: nat, other: bool, w: seq<CodePoint>, i: nat,
                   i2: nat)
    requires v < |g.nodes| && v < |g'.nodes| && AgreeAt(g, g', dangling, v)
    ensures Fires(d, g.nodes[v], g.ranges, other, w, i, i2) <==> Fires(d, g'.nodes[v], g'.ranges, other, w, i, i2)
  {
  }

  lemma LeaveFirst(d: Dialect, g: Graph, dangling: seq<Edge>, w: seq<CodePoint>, v: nat, i: nat, j: nat, n: nat)
      returns (other: bool, i2: nat)
    requires Leaves(d, g, dangling, w, v, i, j, n)
    ensures n > 0 && v < |g.nodes| && Fires(d, g.nodes[v], g.ranges, other, w, i, i2)
    ensures Continues(d, g, dangling, w, v, other, i2, j, n)
  {
    other, i2 :| Fires(d, g.nodes[v], g.ranges, other, w, i, i2) && Continues(d, g, dangling, w, v, other, i2, j, n);
  }

  lemma {:induction false} LeavesLonger(d: Dialect, g: Graph, dangling: seq<Edge>, w: seq<CodePoint>, v: nat, i: nat,
                                        j: nat, n: nat, m: nat)
    requires Leaves(d, g, dangling, w, v, i, j, n) && n <= m
    ensures Leaves(d, g, dangling, w, v, i, j, m)
    decreases n
  {
    var other, i2 := LeaveFirst(d, g, dangling, w, v, i, j, n);
    if Edge(v, other) !in dangling {
      LeavesLonger(d, g, dangling, w, Target(g.nodes[v], other), i2, j, n - 1, m - 1);
    }
    assert Continues(d, g, dangling, w, v, other, i2, j, m);
  }

  /** What a closed region recognises does not depend on the rest of the graph. */
  lemma {:induction false} LeavesFrame(d: Dialect, g: Graph, g': Graph, lo: nat, hi: nat, dangling: seq<Edge>,
                                       dangling': seq<Edge>,
                                       w: seq<CodePoint>, v: nat, i: nat, j: nat, n: nat)
    requires Closed(g, lo, hi, dangling) && Agree(g, g', lo, hi, dangling)
    requires forall e: Edge :: lo <= e.node < hi ==> (e in dangling <==> e in dangling')
    requires lo <= v < hi
    ensures Leaves(d, g, dangling, w, v, i, j, n) <==> Leaves(d, g', dangling', w, v, i, j, n)
    decreases n
  {
    if n > 0 {
      forall other: bool, i2: nat
        ensures Fires(d, g.nodes[v], g.ranges, other, w, i, i2) <==> Fires(d, g'.nodes[v], g'.ranges, other, w, i, i2)
        ensures Fires(d, g.nodes[v], g.ranges, other, w, i, i2) ==>
                (Continues(d, g, dangling, w, v, other, i2, j, n) <==>
                 Continues(d, g', dangling', w, v, other, i2, j, n))
      {
        assert AgreeAt(g, g', dangling, v) && Settled(g, lo, hi, dangling, v);
        AgreeFires(d, g, g', dangling, v, other, w, i, i2);
        if Fires(d, g.nodes[v], g.ranges, other, w, i, i2) {
          if Edge(v, other) !in dangling {
            LeavesFrame(d, g, g', lo, hi, dangling, dangling', w, Target(g.nodes[v], other), i2, j, n - 1);
          }
        }
      }
    }
  }

  lemma SpellsFrame(d: Dialect, g: Graph, g': Graph, lo: nat, hi: nat, dangling: seq<Edge>, dangling': seq<Edge>,
                    start: nat, r: Regex)
    requires Closed(g, lo, hi, dangling) && Agree(g, g', lo, hi, dangling)
    requires forall e: Edge :: lo <= e.node < hi ==> (e in dangling <==> e in dangling')
    requires lo <= start < hi && Spells(d, g, dangling, start, r)
    ensures Spells(d, g', dangling', start, r)
  {
    forall w: seq<CodePoint>, i: nat, j: nat
      ensures Exits(d, g', dangling', w, start, i, j) <==> Matches(d, r, w, i, j)
    {
      forall n: nat
        ensures Leaves(d, g, dangling, w, start, i, j, n) <==> Leaves(d, g', dangling', w, start, i, j, n)
      {
        LeavesFrame(d, g, g', lo, hi, dangling, dangling', w, start, i, j, n);
      }
      assert Exits(d, g, dangling, w, start, i, j) <==> Exits(d, g', dangling', w, start, i, j);
    }
  }

  // ----- Connecting dangling edges to a target -----

  /** In `g'` the dangling edges of the closed region `lo..hi` of `g` have been led to `target`. */
  ghost predicate Connected(g: Graph, g': Graph, lo: nat, hi: nat, dangling: seq<Edge>, dangling': seq<Edge>,
                            target: nat) {
    && Closed(g, lo, hi, dangling) && Agree(g, g', lo, hi, dangling)
    && (forall e <- dangling :: EdgeValue(g'.nodes, e) == target)
    && (forall e: Edge :: lo <= e.node < hi ==> e !in dangling')
  }

  /** A path through the connected region first finishes the old fragment. */
  lemma {:induction false} ThroughTarget(d: Dialect, g: Graph, g': Graph, lo: nat, hi: nat, dangling: seq<Edge>,
                                         dangling': seq<Edge>, target: nat,
                                         w: seq<CodePoint>, v: nat, i: nat, j: nat, n: nat)
                                           returns (k: nat, a: nat, b: nat)
    requires Connected(g, g', lo, hi, dangling, dangling', target)
    requires lo <= v < hi && Leaves(d, g', dangling', w, v, i, j, n)
    ensures Leaves(d, g, dangling, w, v, i, k, a) && Leaves(d, g', dangling', w, target, k, j, b) && b < n
    decreases n
  {
    var other, i2 := LeaveFirst(d, g', dangling', w, v, i, j, n);
    assert AgreeAt(g, g', dangling, v) && Settled(g, lo, hi, dangling, v);
    AgreeFires(d, g, g', dangling, v, other, w, i, i2);
    if Edge(v, other) in dangling {
      k, a, b := i2, 1, n - 1;
      assert EdgeValue(g'.nodes, Edge(v, other)) == target;
      assert Continues(d, g, dangling, w, v, other, i2, k, 1);
    } else {
      var x;
      k, x, b := ThroughTarget(d, g, g', lo, hi, dangling, dangling', target, w, Target(g.nodes[v], other), i2, j,
                               n - 1);
      a := x + 1;
      assert Continues(d, g, dangling, w, v, other, i2, k, a);
    }
  }

  lemma {:induction false} ToTarget(d: Dialect, g: Graph, g': Graph, lo: nat, hi: nat, dangling: seq<Edge>,
                                    dangling': seq<Edge>, target: nat,
                                    w: seq<CodePoint>, v: nat, i: nat, k: nat, j: nat, a: nat, b: nat)
    requires Connected(g, g', lo, hi, dangling, dangling', target)
    requires lo <= v < hi && Leaves(d, g, dangling, w, v, i, k, a) && Leaves(d, g', dangling', w, target, k, j, b)
    ensures Leaves(d, g', dangling', w, v, i, j, a + b)
    decreases a
  {
    var other, i2 := LeaveFirst(d, g, dangling, w, v, i, k, a);
    assert AgreeAt(g, g', dangling, v) && Settled(g, lo, hi, dangling, v);
    AgreeFires(d, g, g', dangling, v, other, w, i, i2);
    if Edge(v, other) in dangling {
      assert EdgeValue(g'.nodes, Edge(v, other)) == target;
      LeavesLonger(d, g', dangling', w, target, k, j, b, a + b - 1);
    } else {
      ToTarget(d, g, g', lo, hi, dangling, dangling', target, w, Target(g.nodes[v], other), i2, k, j, a - 1, b);
    }
    assert Continues(d, g', dangling', w, v, other, i2, j, a + b);
  }

  /** Joining: if the target spells `s`, the connected fragment spells `r` followed by `s`. */
  lemma ConnectedSpells(d: Dialect, g: Graph, g': Graph, lo: nat, hi: nat, dangling: seq<Edge>, dangling': seq<Edge>,
                        start: nat, target: nat,
                        r: Regex, s: Regex)
    requires Connected(g, g', lo, hi, dangling, dangling', target) && lo <= start < hi
    requires Spells(d, g, dangling, start, r) && Spells(d, g', dangling', target, s)
    ensures Spells(d, g', dangling', start, Cat(r, s))
  {
    forall w: seq<CodePoint>, i: nat, j: nat
      ensures Exits(d, g', dangling', w, start, i, j) <==> Matches(d, Cat(r, s), w, i, j)
    {
      if Exits(d, g', dangling', w, start, i, j) {
        var n: nat :| Leaves(d, g', dangling', w, start, i, j, n);
        var k, a, b := ThroughTarget(d, g, g', lo, hi, dangling, dangling', target, w, start, i, j, n);
        assert Exits(d, g, dangling, w, start, i, k) && Exits(d, g', dangling', w, target, k, j);
        assert Matches(d, r, w, i, k) && Matches(d, s, w, k, j);
      }
      if Matches(d, Cat(r, s), w, i, j) {
        var k := CatSplit(d, r, s, w, i, j);
        assert Exits(d, g, dangling, w, start, i, k) && Exits(d, g', dangling', w, target, k, j);
        var a: nat :| Leaves(d, g, dangling, w, start, i, k, a);
        var b: nat :| Leaves(d, g', dangling', w, target, k, j, b);
        ToTarget(d, g, g', lo, hi, dangling, dangling', target, w, start, i, k, j, a, b);
      }
    }
  }

  // ----- Splits -----

  /** Node `v` is a split: edge `lead` goes on to `inner`, the other edge is `exit`. */
  ghost predicate SplitsTo(g: Graph, v: nat, lead: bool, inner: nat) {
    v < |g.nodes| && g.nodes[v].op == OpSplit && Target(g.nodes[v], lead) == inner
  }

  lemma LeaveSplit(d: Dialect, g: Graph, dangling: seq<Edge>, w: seq<CodePoint>, v: nat, i: nat, j: nat, n: nat)
    requires v < |g.nodes| && g.nodes[v].op == OpSplit && n > 0
    ensures Leaves(d, g, dangling, w, v, i, j, n) <==>
            i <= |w| && (Continues(d, g, dangling, w, v, false, i, j, n)
                         || Continues(d, g, dangling, w, v, true, i, j, n))
  {
    if i <= |w| {
      assert Fires(d, g.nodes[v], g.ranges, false, w, i, i) && Fires(d, g.nodes[v], g.ranges, true, w, i, i);
    }
  }

  /** The loop of `*` and `+`: the body returns to the split, whose other edge dangles. */
  lemma {:induction false} LoopRuns(d: Dialect, g: Graph, g': Graph, lo: nat, hi: nat, dangling: seq<Edge>, exit: Edge,
                                    body: nat, split: nat, lead: bool,
                                    r: Regex, w: seq<CodePoint>, i: nat, j: nat, n: nat) returns (c: nat)
    requires Connected(g, g', lo, hi, dangling, [exit], split) && lo <= body < hi
    requires SplitsTo(g', split, lead, body) && exit == Edge(split, !lead)
    requires Spells(d, g, dangling, body, r)
    requires Leaves(d, g', [exit], w, split, i, j, n)
    ensures Times(d, r, c, w, i, j)
    decreases n
  {
    LeaveSplit(d, g', [exit], w, split, i, j, n);
    if Continues(d, g', [exit], w, split, !lead, i, j, n) {
      c := 0;
    } else {
      var k, a, b := ThroughTarget(d, g, g', lo, hi, dangling, [exit], split, w, body, i, j, n - 1);
      assert Exits(d, g, dangling, w, body, i, k);
      var c' := LoopRuns(d, g, g', lo, hi, dangling, exit, body, split, lead, r, w, k, j, b);
      c := c' + 1;
    }
  }

  lemma {:induction false} LoopTimes(d: Dialect, g: Graph, g': Graph, lo: nat, hi: nat, dangling: seq<Edge>, exit: Edge,
                                     body: nat, split: nat, lead: bool,
                                     r: Regex, w: seq<CodePoint>, i: nat, j: nat, c: nat) returns (n: nat)
    requires Connected(g, g', lo, hi, dangling, [exit], split) && lo <= body < hi
    requires SplitsTo(g', split, lead, body) && exit == Edge(split, !lead)
    requires Spells(d, g, dangling, body, r)
    requires Times(d, r, c, w, i, j)
    ensures Leaves(d, g', [exit], w, split, i, j, n)
    decreases c
  {
    if c == 0 {
      n := 1;
      assert Continues(d, g', [exit], w, split, !lead, i, j, n);
    } else {
      var k := TimesFirst(d, r, c, w, i, j);
      MatchInside(d, r, w, i, k);
      var b := LoopTimes(d, g, g', lo, hi, dangling, exit, body, split, lead, r, w, k, j, c - 1);
      assert Exits(d, g, dangling, w, body, i, k);
      var a: nat :| Leaves(d, g, dangling, w, body, i, k, a);
      ToTarget(d, g, g', lo, hi, dangling, [exit], split, w, body, i, k, j, a, b);
      n := a + b + 1;
      assert Continues(d, g', [exit], w, split, lead, i, j, n);
    }
    LeaveSplit(d, g', [exit], w, split, i, j, n);
  }

  lemma LoopSpells(d: Dialect, g: Graph, g': Graph, lo: nat, hi: nat, dangling: seq<Edge>, exit: Edge, body: nat,
                   split: nat, lead: bool, r: Regex)
    requires Connected(g, g', lo, hi, dangling, [exit], split) && lo <= body < hi
    requires SplitsTo(g', split, lead, body) && exit == Edge(split, !lead)
    requires Spells(d, g, dangling, body, r)
    ensures Spells(d, g', [exit], split, Repeat(r, 0, None))
  {
    forall w: seq<CodePoint>, i: nat, j: nat
      ensures Exits(d, g', [exit], w, split, i, j) <==> Matches(d, Repeat(r, 0, None), w, i, j)
    {
      if Exits(d, g', [exit], w, split, i, j) {
        var n: nat :| Leaves(d, g', [exit], w, split, i, j, n);
        var c := LoopRuns(d, g, g', lo, hi, dangling, exit, body, split, lead, r, w, i, j, n);
        assert Within(c, 0, None);
      }
      if Matches(d, Repeat(r, 0, None), w, i, j) {
        var c := RepeatSplit(d, r, 0, None, w, i, j);
        var n := LoopTimes(d, g, g', lo, hi, dangling, exit, body, split, lead, r, w, i, j, c);
      }
    }
  }

  /** A split whose two edges reach fragments for `r` and `s` spells their alternation. */
  lemma ForkSpells(d: Dialect, g: Graph, dangling: seq<Edge>, split: nat, r: Regex, s: Regex)
    requires split < |g.nodes| && g.nodes[split].op == OpSplit
    requires Edge(split, false) !in dangling && Edge(split, true) !in dangling
    requires Spells(d, g, dangling, g.nodes[split].out, r) && Spells(d, g, dangling, g.nodes[split].other, s)
    ensures Spells(d, g, dangling, split, Alt(r, s))
  {
    var a, b := g.nodes[split].out, g.nodes[split].other;
    forall w: seq<CodePoint>, i: nat, j: nat
      ensures Exits(d, g, dangling, w, split, i, j) <==> Matches(d, Alt(r, s), w, i, j)
    {
      if Exits(d, g, dangling, w, split, i, j) {
        var n: nat :| Leaves(d, g, dangling, w, split, i, j, n);
        LeaveSplit(d, g, dangling, w, split, i, j, n);
        assert Leaves(d, g, dangling, w, a, i, j, n - 1) || Leaves(d, g, dangling, w, b, i, j, n - 1);
        assert Exits(d, g, dangling, w, a, i, j) || Exits(d, g, dangling, w, b, i, j);
      }
      if Matches(d, Alt(r, s), w, i, j) {
        MatchInside(d, Alt(r, s), w, i, j);
        assert Exits(d, g, dangling, w, a, i, j) || Exits(d, g, dangling, w, b, i, j);
        var n: nat :| Leaves(d, g, dangling, w, a, i, j, n) || Leaves(d, g, dangling, w, b, i, j, n);
        LeaveSplit(d, g, dangling, w, split, i, j, n + 1);
        assert Leaves(d, g, dangling, w, split, i, j, n + 1);
      }
    }
  }

  /** A split with one dangling edge makes the fragment behind its other edge optional. */
  lemma OptionSpells(d: Dialect, g: Graph, dangling: seq<Edge>, split: nat, lead: bool, inner: nat, r: Regex)
    requires SplitsTo(g, split, lead, inner)
    requires Edge(split, lead) !in dangling && Edge(split, !lead) in dangling
    requires Spells(d, g, dangling, inner, r)
    ensures Spells(d, g, dangling, split, Repeat(r, 0, Some(1)))
  {
    forall w: seq<CodePoint>, i: nat, j: nat
      ensures Exits(d, g, dangling, w, split, i, j) <==> Matches(d, Repeat(r, 0, Some(1)), w, i, j)
    {
      OneTime(d, r, w, i, j);
      if Exits(d, g, dangling, w, split, i, j) {
        var n: nat :| Leaves(d, g, dangling, w, split, i, j, n);
        LeaveSplit(d, g, dangling, w, split, i, j, n);
        if Continues(d, g, dangling, w, split, !lead, i, j, n) {
          assert Within(0, 0, Some(1)) && Times(d, r, 0, w, i, j);
        } else {
          assert Exits(d, g, dangling, w, inner, i, j);
          assert Within(1, 0, Some(1)) && Times(d, r, 1, w, i, j);
        }
      }
      if Matches(d, Repeat(r, 0, Some(1)), w, i, j) {
        var c := RepeatSplit(d, r, 0, Some(1), w, i, j);
        TimesInside(d, r, c, w, i, j);
        if c == 0 {
          LeaveSplit(d, g, dangling, w, split, i, j, 1);
          assert Leaves(d, g, dangling, w, split, i, j, 1);
        } else {
          assert c == 1;
          assert Exits(d, g, dangling, w, inner, i, j);
          var n: nat :| Leaves(d, g, dangling, w, inner, i, j, n);
          LeaveSplit(d, g, dangling, w, split, i, j, n + 1);
          assert Leaves(d, g, dangling, w, split, i, j, n + 1);
        }
      }
    }
  }

  lemma SpellsSame(d: Dialect, g: Graph, dangling: seq<Edge>, start: nat, r: Regex, s: Regex)
    requires Spells(d, g, dangling, start, r) && Same(d, r, s)
    ensures Spells(d, g, dangling, start, s)
  {
  }

  // ----- Whole programs -----

  /** From node `v` at position `i` some path of `n` edges reaches an accepting node at `j`. */
  ghost predicate Accepts(d: Dialect, g: Graph, w: seq<CodePoint>, v: nat, i: nat, j: nat, n: nat)
    decreases n
  {
    v < |g.nodes| &&
    if g.nodes[v].op == OpMatch then i == j <= |w|
    else n > 0 && exists other: bool, i2: nat ::
      Fires(d, g.nodes[v], g.ranges, other, w, i, i2) && Accepts(d, g, w, Target(g.nodes[v], other), i2, j, n - 1)
  }

  ghost predicate Recognises(d: Dialect, g: Graph, w: seq<CodePoint>, v: nat, i: nat, j: nat) {
    exists n: nat :: Accepts(d, g, w, v, i, j, n)
  }

  lemma AcceptFirst(d: Dialect, g: Graph, w: seq<CodePoint>, v: nat, i: nat, j: nat, n: nat)
      returns (other: bool, i2: nat)
    requires Accepts(d, g, w, v, i, j, n) && g.nodes[v].op != OpMatch
    ensures n > 0 && Fires(d, g.nodes[v], g.ranges, other, w, i, i2)
    ensures Accepts(d, g, w, Target(g.nodes[v], other), i2, j, n - 1)
  {
    other, i2 :| Fires(d, g.nodes[v], g.ranges, other, w, i, i2)
      && Accepts(d, g, w, Target(g.nodes[v], other), i2, j, n - 1);
  }

  lemma {:induction false} LeavesAccepts(d: Dialect, g: Graph, g': Graph, lo: nat, hi: nat, dangling: seq<Edge>,
                                         accept: nat,
                                         w: seq<CodePoint>, v: nat, i: nat, j: nat, n: nat)
    requires Connected(g, g', lo, hi, dangling, [], accept)
    requires accept < |g'.nodes| && g'.nodes[accept].op == OpMatch
    requires lo <= v < hi && Leaves(d, g, dangling, w, v, i, j, n)
    ensures Accepts(d, g', w, v, i, j, n)
    decreases n
  {
    var other, i2 := LeaveFirst(d, g, dangling, w, v, i, j, n);
    assert AgreeAt(g, g', dangling, v) && Settled(g, lo, hi, dangling, v);
    AgreeFires(d, g, g', dangling, v, other, w, i, i2);
    if Edge(v, other) in dangling {
      assert EdgeValue(g'.nodes, Edge(v, other)) == accept;
    } else {
      LeavesAccepts(d, g, g', lo, hi, dangling, accept, w, Target(g.nodes[v], other), i2, j, n - 1);
    }
  }

  lemma {:induction false} AcceptsLeaves(d: Dialect, g: Graph, g': Graph, lo: nat, hi: nat, dangling: seq<Edge>,
                                         accept: nat,
                                         w: seq<CodePoint>, v: nat, i: nat, j: nat, n: nat)
    requires Connected(g, g', lo, hi, dangling, [], accept)
    requires accept < |g'.nodes| && g'.nodes[accept].op == OpMatch
    requires lo <= v < hi && Accepts(d, g', w, v, i, j, n)
    ensures Leaves(d, g, dangling, w, v, i, j, n)
    decreases n
  {
    assert AgreeAt(g, g', dangling, v) && Settled(g, lo, hi, dangling, v);
    var other, i2 := AcceptFirst(d, g', w, v, i, j, n);
    AgreeFires(d, g, g', dangling, v, other, w, i, i2);
    if Edge(v, other) in dangling {
      assert EdgeValue(g'.nodes, Edge(v, other)) == accept;
    } else {
      AcceptsLeaves(d, g, g', lo, hi, dangling, accept, w, Target(g.nodes[v], other), i2, j, n - 1);
    }
    assert Continues(d, g, dangling, w, v, other, i2, j, n);
  }

  /** A finished program recognises what its one fragment spells. */
  lemma ProgramSpells(d: Dialect, g: Graph, g': Graph, lo: nat, hi: nat, dangling: seq<Edge>, start: nat, accept: nat,
                      r: Regex,
                      w: seq<CodePoint>, i: nat, j: nat)
    requires Connected(g, g', lo, hi, dangling, [], accept) && lo <= start < hi
    requires accept < |g'.nodes| && g'.nodes[accept].op == OpMatch
    requires Spells(d, g, dangling, start, r)
    ensures Recognises(d, g', w, start, i, j) <==> Matches(d, r, w, i, j)
  {
    if Recognises(d, g', w, start, i, j) {
      var n: nat :| Accepts(d, g', w, start, i, j, n);
      AcceptsLeaves(d, g, g', lo, hi, dangling, accept, w, start, i, j, n);
      assert Exits(d, g, dangling, w, start, i, j);
    }
    if Matches(d, r, w, i, j) {
      assert Exits(d, g, dangling, w, start, i, j);
      var n: nat :| Leaves(d, g, dangling, w, start, i, j, n);
      LeavesAccepts(d, g, g', lo, hi, dangling, accept, w, start, i, j, n);
    }
  }
}
