/** Fragments as the compiler stores them: a start node and the two ends of a list of unfinished
    edges, each holding the number of the next. The lemmas say what every construction step of the
    compiler makes of them. */
module RegexFragments {
  import opened Common
  import opened Rows
  import opened RegexSyntax
  import opened RegexGraph

  datatype Fragment = Fragment(start: nat, head: nat, tail: nat)

  /** `dangling` is the list threaded through the edges from `f.head` to `f.tail`: no edge twice, and it ends. */
  ghost predicate Threaded(nodes: seq<Node>, f: Fragment, dangling: seq<Edge>) {
    && |dangling| > 0 && Code(dangling[0]) == f.head && Code(Last(dangling)) == f.tail
    && (forall k :: 0 <= k < |dangling| ==> dangling[k].node < |nodes|)
    && (forall k :: 0 <= k < |dangling| ==> EdgeValue(nodes, dangling[k]) == NextOf(dangling, k))
    && (forall k, l :: 0 <= k < l < |dangling| ==> dangling[k] != dangling[l])
  }

  function Last(dangling: seq<Edge>): Edge
    requires dangling != []
  {
    dangling[|dangling| - 1]
  }

  function NextOf(dangling: seq<Edge>, k: nat): nat
    requires k < |dangling|
  {
    if k + 1 < |dangling| then Code(dangling[k + 1]) else NO_EDGE
  }

  /** Nodes `lo..hi` hold a fragment for `r`. */
  ghost predicate Fragmented(d: Dialect, g: Graph, lo: nat, hi: nat, f: Fragment, dangling: seq<Edge>, r: Regex) {
    && Closed(g, lo, hi, dangling) && Threaded(g.nodes, f, dangling)
    && lo <= f.start < hi && Spells(d, g, dangling, f.start, r)
  }

  /** Every edge in `edges` has been led to `target`; nothing else changed. */
  ghost predicate Patched(nodes: seq<Node>, nodes': seq<Node>, edges: seq<Edge>, target: nat) {
    && |nodes'| == |nodes|
    && forall v: nat :: v < |nodes| ==> nodes'[v] == PatchedNode(nodes[v], v, edges, target)
  }

  ghost function PatchedNode(n: Node, v: nat, edges: seq<Edge>, target: nat): Node {
    n.(out := if Edge(v, false) in edges then target else n.out, other := if Edge(v, true) in edges then target
       else n.other)
  }

  // ----- One node -----

  /** A node whose `out` edge fires exactly when `r` matches. */
  ghost predicate LeafMeans(d: Dialect, n: Node, ranges: seq<Range>, r: Regex) {
    forall w: seq<CodePoint>, i: nat, i2: nat ::
      !Fires(d, n, ranges, true, w, i, i2) && (Fires(d, n, ranges, false, w, i, i2) <==> Matches(d, r, w, i, i2))
  }

  lemma SingleFragment(d: Dialect, g: Graph, v: nat, r: Regex)
    requires v < |g.nodes| && g.nodes[v].op != OpMatch && g.nodes[v].op != OpSplit
    requires g.nodes[v].out == NO_EDGE && g.nodes[v].first + g.nodes[v].count <= |g.ranges|
    requires LeafMeans(d, g.nodes[v], g.ranges, r)
    ensures Fragmented(d, g, v, v + 1, Fragment(v, 2 * v, 2 * v), [Edge(v, false)], r)
  {
    forall w: seq<CodePoint>, i: nat, j: nat
      ensures Exits(d, g, [Edge(v, false)], w, v, i, j) <==> Matches(d, r, w, i, j)
    {
      if Exits(d, g, [Edge(v, false)], w, v, i, j) {
        var n: nat :| Leaves(d, g, [Edge(v, false)], w, v, i, j, n);
        var other, i2 := LeaveFirst(d, g, [Edge(v, false)], w, v, i, j, n);
        assert Edge(v, other) in [Edge(v, false)];
      }
      if Matches(d, r, w, i, j) {
        assert Fires(d, g.nodes[v], g.ranges, false, w, i, j);
        assert Continues(d, g, [Edge(v, false)], w, v, false, j, j, 1);
        assert Leaves(d, g, [Edge(v, false)], w, v, i, j, 1);
      }
    }
    assert Settled(g, v, v + 1, [Edge(v, false)], v);
  }

  // ----- Frames -----

  /** Nodes `lo..hi` and the ranges they use are the same in `g'`. */
  ghost predicate Kept(g: Graph, g': Graph, lo: nat, hi: nat) {
    && hi <= |g.nodes| && |g'.nodes| == |g.nodes| && g.ranges <= g'.ranges
    && forall v: nat :: lo <= v < hi ==> g'.nodes[v] == g.nodes[v]
  }

  lemma KeptAgree(g: Graph, g': Graph, lo: nat, hi: nat, dangling: seq<Edge>)
    requires Kept(g, g', lo, hi) && Closed(g, lo, hi, dangling)
    ensures Agree(g, g', lo, hi, dangling) && Closed(g', lo, hi, dangling)
  {
    forall v: nat | lo <= v < hi
      ensures AgreeAt(g, g', dangling, v) && Settled(g', lo, hi, dangling, v)
    {
      assert Settled(g, lo, hi, dangling, v);
    }
  }

  lemma KeptThreaded(g: Graph, g': Graph, lo: nat, hi: nat, f: Fragment, dangling: seq<Edge>)
    requires Kept(g, g', lo, hi) && Closed(g, lo, hi, dangling) && Threaded(g.nodes, f, dangling)
    ensures Threaded(g'.nodes, f, dangling)
  {
    forall k | 0 <= k < |dangling|
      ensures EdgeValue(g'.nodes, dangling[k]) == EdgeValue(g.nodes, dangling[k])
    {
      assert dangling[k] in dangling;
    }
  }

  lemma KeptFragment(d: Dialect, g: Graph, g': Graph, lo: nat, hi: nat, f: Fragment, dangling: seq<Edge>, r: Regex)
    requires Kept(g, g', lo, hi) && Fragmented(d, g, lo, hi, f, dangling, r)
    ensures Fragmented(d, g', lo, hi, f, dangling, r)
  {
    KeptAgree(g, g', lo, hi, dangling);
    KeptThreaded(g, g', lo, hi, f, dangling);
    SpellsFrame(d, g, g', lo, hi, dangling, dangling, f.start, r);
  }

  lemma SameFragment(d: Dialect, g: Graph, lo: nat, hi: nat, f: Fragment, dangling: seq<Edge>, r: Regex, s: Regex)
    requires Fragmented(d, g, lo, hi, f, dangling, r) && Same(d, r, s)
    ensures Fragmented(d, g, lo, hi, f, dangling, s)
  {
    SpellsSame(d, g, dangling, f.start, r, s);
  }

  // ----- Joining -----

  lemma PatchedConnects(g: Graph, g': Graph, lo: nat, hi: nat, dangling: seq<Edge>, dangling': seq<Edge>, target: nat)
    requires Closed(g, lo, hi, dangling) && Patched(g.nodes, g'.nodes, dangling, target) && g'.ranges == g.ranges
    requires forall e <- dangling' :: !(lo <= e.node < hi)
    ensures Connected(g, g', lo, hi, dangling, dangling', target)
  {
    forall v: nat | lo <= v < hi
      ensures AgreeAt(g, g', dangling, v)
    {
      assert Settled(g, lo, hi, dangling, v);
    }
    forall e <- dangling
      ensures EdgeValue(g'.nodes, e) == target
    {
    }
  }

  lemma PatchedKeeps(g: Graph, g': Graph, lo: nat, hi: nat, edges: seq<Edge>, target: nat)
    requires hi <= |g.nodes| && Patched(g.nodes, g'.nodes, edges, target) && g'.ranges == g.ranges
    requires forall e <- edges :: !(lo <= e.node < hi)
    ensures Kept(g, g', lo, hi)
  {
    forall v: nat | lo <= v < hi
      ensures g'.nodes[v] == g.nodes[v]
    {
      assert Edge(v, false) !in edges && Edge(v, true) !in edges;
    }
  }

  /** A connected region with a target in `lo..hi` is settled inside `lo..hi`. */
  lemma ConnectedSettled(g: Graph, g': Graph, a: nat, b: nat, dangling: seq<Edge>, dangling': seq<Edge>, target: nat,
                         lo: nat, hi: nat)
    requires Connected(g, g', a, b, dangling, dangling', target)
    requires lo <= a && b <= hi && lo <= target < hi
    ensures forall v: nat :: a <= v < b ==> Settled(g', lo, hi, dangling', v)
  {
    forall v: nat | a <= v < b
      ensures Settled(g', lo, hi, dangling', v)
    {
      assert Settled(g, a, b, dangling, v) && AgreeAt(g, g', dangling, v);
      if Edge(v, false) in dangling { assert EdgeValue(g'.nodes, Edge(v, false)) == target; }
      if Edge(v, true) in dangling { assert EdgeValue(g'.nodes, Edge(v, true)) == target; }
    }
  }

  lemma SettledWider(g: Graph, a: nat, b: nat, lo: nat, hi: nat, dangling: seq<Edge>, v: nat)
    requires v < |g.nodes| && Settled(g, a, b, dangling, v) && lo <= a && b <= hi
    ensures Settled(g, lo, hi, dangling, v)
  {
  }

  /** Leading the open edges of one fragment to the start of an adjacent one concatenates them. */
  lemma JoinFragments(d: Dialect, g: Graph, g': Graph, a: nat, b: nat, f1: Fragment, d1: seq<Edge>, r1: Regex,
                      c: nat, e: nat, f2: Fragment, d2: seq<Edge>, r2: Regex)
    requires b == c || e == a
    requires Fragmented(d, g, a, b, f1, d1, r1) && Fragmented(d, g, c, e, f2, d2, r2)
    requires Patched(g.nodes, g'.nodes, d1, f2.start) && g'.ranges == g.ranges
    ensures Fragmented(d, g', if b == c then a else c, if b == c then e
                       else b, Fragment(f1.start, f2.head, f2.tail), d2, Cat(r1, r2))
  {
    var lo, hi := if b == c then a else c, if b == c then e else b;
    PatchedConnects(g, g', a, b, d1, d2, f2.start);
    PatchedKeeps(g, g', c, e, d1, f2.start);
    KeptFragment(d, g, g', c, e, f2, d2, r2);
    ConnectedSpells(d, g, g', a, b, d1, d2, f1.start, f2.start, r1, r2);
    ConnectedSettled(g, g', a, b, d1, d2, f2.start, lo, hi);
    forall v: nat | lo <= v < hi
      ensures Settled(g', lo, hi, d2, v)
    {
      if c <= v < e { SettledWider(g', c, e, lo, hi, d2, v); }
    }
  }

  // ----- Splits -----

  /** The node most recently allocated, a split whose edge `lead` leads to `inner`. */
  ghost predicate NewSplit(n: Node, lead: bool, inner: nat) {
    n == Node(OpSplit, if lead then NO_EDGE else inner, if lead then inner else NO_EDGE, 0, 0, {}, 0)
  }

  lemma LoopShape(g: Graph, g': Graph, lo: nat, hi: nat, f: Fragment, dangling: seq<Edge>, lead: bool, start: nat)
    requires Closed(g, lo, hi, dangling) && lo <= f.start < hi
    requires hi < |g.nodes| && NewSplit(g.nodes[hi], lead, f.start)
    requires Patched(g.nodes, g'.nodes, dangling, hi) && g'.ranges == g.ranges
    ensures var exit := Edge(hi, !lead);
            && Connected(g, g', lo, hi, dangling, [exit], hi) && SplitsTo(g', hi, lead, f.start)
            && Closed(g', lo, hi + 1, [exit]) && Threaded(g'.nodes, Fragment(start, Code(exit), Code(exit)), [exit])
  {
    var exit, top := Edge(hi, !lead), hi + 1;
    PatchedConnects(g, g', lo, hi, dangling, [exit], hi);
    PatchedKeeps(g, g', hi, hi + 1, dangling, hi);
    assert g'.nodes[hi] == g.nodes[hi];
    ConnectedSettled(g, g', lo, hi, dangling, [exit], hi, lo, top);
    assert Settled(g', lo, top, [exit], hi);
    assert EdgeValue(g'.nodes, exit) == NO_EDGE;
    assert forall v: nat :: lo <= v < top ==> Settled(g', lo, top, [exit], v);
  }

  lemma PlusIsBodyStar(d: Dialect, r: Regex)
    ensures Same(d, Cat(r, Repeat(r, 0, None)), Repeat(r, 1, None))
  {
    var star := Repeat(r, 0, None);
    RepeatOnce(d, r);
    SameRefl(d, star);
    SameCat(d, r, Repeat(r, 1, Some(1)), star, star);
    RepeatsAdd(d, r, 1, Some(1), 0, None);
    SameTrans(d, Cat(r, star), Cat(Repeat(r, 1, Some(1)), star), Repeat(r, 1, None));
  }

  /** `*` and `+`: the body's open edges return to the split at `hi`, whose own open edge is the only one left. */
  lemma LoopFragment(d: Dialect, g: Graph, g': Graph, lo: nat, hi: nat, f: Fragment, dangling: seq<Edge>, r: Regex,
                     lead: bool)
    requires Fragmented(d, g, lo, hi, f, dangling, r)
    requires hi < |g.nodes| && NewSplit(g.nodes[hi], lead, f.start)
    requires Patched(g.nodes, g'.nodes, dangling, hi) && g'.ranges == g.ranges
    ensures var exit := Edge(hi, !lead);
            && Fragmented(d, g', lo, hi + 1, Fragment(hi, Code(exit), Code(exit)), [exit], Repeat(r, 0, None))
            && Fragmented(d, g', lo, hi + 1, Fragment(f.start, Code(exit), Code(exit)), [exit], Repeat(r, 1, None))
  {
    var exit := Edge(hi, !lead);
    LoopShape(g, g', lo, hi, f, dangling, lead, hi);
    LoopShape(g, g', lo, hi, f, dangling, lead, f.start);
    LoopSpells(d, g, g', lo, hi, dangling, exit, f.start, hi, lead, r);
    ConnectedSpells(d, g, g', lo, hi, dangling, [exit], f.start, hi, r, Repeat(r, 0, None));
    PlusIsBodyStar(d, r);
    SpellsSame(d, g', [exit], f.start, Cat(r, Repeat(r, 0, None)), Repeat(r, 1, None));
  }

  lemma SameRefl(d: Dialect, r: Regex)
    ensures Same(d, r, r)
  {
  }

  lemma SameTrans(d: Dialect, r: Regex, s: Regex, t: Regex)
    requires Same(d, r, s) && Same(d, s, t)
    ensures Same(d, r, t)
  {
  }

  lemma ThreadAppend(nodes: seq<Node>, nodes': seq<Node>, f: Fragment, d1: seq<Edge>, g: Fragment, d2: seq<Edge>)
    requires Threaded(nodes, f, d1) && Threaded(nodes, g, d2)
    requires forall k, l :: 0 <= k < |d1| && 0 <= l < |d2| ==> d1[k] != d2[l]
    requires Patched(nodes, nodes', [Last(d1)], g.head)
    ensures Threaded(nodes', Fragment(f.start, f.head, g.tail), d1 + d2)
  {
    var dd := d1 + d2;
    forall k | 0 <= k < |dd|
      ensures EdgeValue(nodes', dd[k]) == NextOf(dd, k)
    {
      if k < |d1| {
        assert dd[k] == d1[k];
        assert EdgeValue(nodes, d1[k]) == NextOf(d1, k);
        assert dd[k] in [Last(d1)] <==> k == |d1| - 1;
      } else {
        assert dd[k] == d2[k - |d1|];
        assert EdgeValue(nodes, d2[k - |d1|]) == NextOf(d2, k - |d1|);
        assert dd[k] !in [Last(d1)];
      }
    }
  }

  /** Rewriting the value of a dangling edge does not change what a fragment spells. */
  lemma TailAgree(g: Graph, g': Graph, lo: nat, hi: nat, dangling: seq<Edge>, tail: Edge, value: nat)
    requires Closed(g, lo, hi, dangling) && tail in dangling
    requires Patched(g.nodes, g'.nodes, [tail], value) && g'.ranges == g.ranges
    ensures Agree(g, g', lo, hi, dangling) && Closed(g', lo, hi, dangling)
  {
    forall v: nat | lo <= v < hi
      ensures AgreeAt(g, g', dangling, v) && Settled(g', lo, hi, dangling, v)
    {
      assert Settled(g, lo, hi, dangling, v);
    }
  }

  /** A settled node stays settled when edges of other nodes are added to the list. */
  lemma SettledMore(g: Graph, a: nat, b: nat, dangling: seq<Edge>, lo: nat, hi: nat, all: seq<Edge>, v: nat)
    requires v < |g.nodes| && Settled(g, a, b, dangling, v) && lo <= a && b <= hi
    requires Edge(v, false) in all <==> Edge(v, false) in dangling
    requires Edge(v, true) in all <==> Edge(v, true) in dangling
    ensures Settled(g, lo, hi, all, v)
  {
  }

  lemma Elsewhere(dangling: seq<Edge>, lo: nat, hi: nat, v: nat)
    requires forall e <- dangling :: lo <= e.node < hi
    requires !(lo <= v < hi)
    ensures Edge(v, false) !in dangling && Edge(v, true) !in dangling
  {
  }

  /** Adjacent regions, the upper settled in the union of the two, close up together. */
  lemma ClosedUnion(g: Graph, lo: nat, mid: nat, top: nat, d1: seq<Edge>, d2: seq<Edge>)
    requires Closed(g, lo, mid, d1) && mid <= top <= |g.nodes|
    requires forall e <- d2 :: mid <= e.node < top
    requires forall v: nat :: mid <= v < top ==> Settled(g, lo, top, d2, v)
    ensures Closed(g, lo, top, d1 + d2)
  {
    forall v: nat | lo <= v < top
      ensures Settled(g, lo, top, d1 + d2, v)
    {
      if v < mid {
        Elsewhere(d2, mid, top, v);
        SettledMore(g, lo, mid, d1, lo, top, d1 + d2, v);
      } else {
        Elsewhere(d1, lo, mid, v);
        SettledMore(g, lo, top, d2, lo, top, d1 + d2, v);
      }
    }
  }

  lemma OptionShape(g: Graph, g': Graph, lo: nat, hi: nat, f: Fragment, dangling: seq<Edge>, lead: bool)
    requires Closed(g, lo, hi, dangling) && Threaded(g.nodes, f, dangling) && lo <= f.start < hi
    requires hi < |g.nodes| && NewSplit(g.nodes[hi], lead, f.start)
    requires Patched(g.nodes, g'.nodes, [Last(dangling)], Code(Edge(hi, !lead))) && g'.ranges == g.ranges
    ensures SplitsTo(g', hi, lead, f.start)
    ensures Agree(g, g', lo, hi, dangling) && Closed(g', lo, hi + 1, dangling + [Edge(hi, !lead)])
  {
    var exit, top := Edge(hi, !lead), hi + 1;
    TailAgree(g, g', lo, hi, dangling, Last(dangling), Code(exit));
    PatchedKeeps(g, g', hi, top, [Last(dangling)], Code(exit));
    assert g'.nodes[hi] == g.nodes[hi];
    assert Settled(g', lo, top, [exit], hi);
    ClosedUnion(g', lo, hi, top, dangling, [exit]);
  }

  /** `?`: the split at `hi` goes to the body or straight out, and its open edge joins the body's. */
  lemma OptionFragment(d: Dialect, g: Graph, g': Graph, lo: nat, hi: nat, f: Fragment, dangling: seq<Edge>, r: Regex,
                       lead: bool)
    requires Fragmented(d, g, lo, hi, f, dangling, r)
    requires hi < |g.nodes| && NewSplit(g.nodes[hi], lead, f.start)
    requires Patched(g.nodes, g'.nodes, [Last(dangling)], Code(Edge(hi, !lead))) && g'.ranges == g.ranges
    ensures var exit := Edge(hi, !lead);
            Fragmented(d, g', lo, hi + 1, Fragment(hi, f.head, Code(exit)), dangling + [exit], Repeat(r, 0, Some(1)))
  {
    var exit := Edge(hi, !lead);
    var all := dangling + [exit];
    OptionShape(g, g', lo, hi, f, dangling, lead);
    ThreadAppend(g.nodes, g'.nodes, f, dangling, Fragment(hi, Code(exit), Code(exit)), [exit]);
    SpellsFrame(d, g, g', lo, hi, dangling, all, f.start, r);
    OptionSpells(d, g', all, hi, lead, f.start, r);
  }

  lemma ForkShape(g: Graph, g': Graph, lo: nat, mid: nat, hi: nat, f1: Fragment, d1: seq<Edge>, f2: Fragment,
                  d2: seq<Edge>)
    requires Closed(g, lo, mid, d1) && Threaded(g.nodes, f1, d1) && lo <= f1.start < mid
    requires Closed(g, mid, hi, d2) && mid <= f2.start < hi
    requires hi < |g.nodes| && g.nodes[hi] == Node(OpSplit, f1.start, f2.start, 0, 0, {}, 0)
    requires Patched(g.nodes, g'.nodes, [Last(d1)], f2.head) && g'.ranges == g.ranges
    ensures Agree(g, g', lo, mid, d1) && Agree(g, g', mid, hi, d2) && g'.nodes[hi] == g.nodes[hi]
    ensures Closed(g', lo, hi + 1, d1 + d2)
  {
    var top := hi + 1;
    TailAgree(g, g', lo, mid, d1, Last(d1), f2.head);
    PatchedKeeps(g, g', mid, top, [Last(d1)], f2.head);
    KeptAgree(g, g', mid, hi, d2);
    forall v: nat | mid <= v < hi
      ensures Settled(g', lo, hi, d2, v)
    {
      SettledWider(g', mid, hi, lo, hi, d2, v);
    }
    ClosedUnion(g', lo, mid, hi, d1, d2);
    assert Settled(g', lo, top, [], hi);
    ClosedUnion(g', lo, hi, top, d1 + d2, []);
    assert d1 + d2 + [] == d1 + d2;
  }

  /** `|`: the split at `hi` leads to both fragments, whose open edges are chained. */
  lemma ForkFragment(d: Dialect, g: Graph, g': Graph, lo: nat, mid: nat, hi: nat, f1: Fragment, d1: seq<Edge>,
                     r1: Regex,
                     f2: Fragment, d2: seq<Edge>, r2: Regex)
    requires Fragmented(d, g, lo, mid, f1, d1, r1) && Fragmented(d, g, mid, hi, f2, d2, r2)
    requires hi < |g.nodes| && g.nodes[hi] == Node(OpSplit, f1.start, f2.start, 0, 0, {}, 0)
    requires Patched(g.nodes, g'.nodes, [Last(d1)], f2.head) && g'.ranges == g.ranges
    ensures Fragmented(d, g', lo, hi + 1, Fragment(hi, f1.head, f2.tail), d1 + d2, Alt(r1, r2))
  {
    var all := d1 + d2;
    ForkShape(g, g', lo, mid, hi, f1, d1, f2, d2);
    ThreadAppend(g.nodes, g'.nodes, f1, d1, f2, d2);
    SpellsFrame(d, g, g', lo, mid, d1, all, f1.start, r1);
    SpellsFrame(d, g, g', mid, hi, d2, all, f2.start, r2);
    ForkSpells(d, g', all, hi, r1, r2);
  }

  /** Every node below `n` leads to nodes below `size`. */
  ghost predicate Wired(g: Graph, n: nat, size: nat) {
    n <= |g.nodes| && forall v: nat :: v < n ==> Settled(g, 0, size, [], v)
  }

  ghost predicate ProgramMeans(d: Dialect, g: Graph, start: nat, r: Regex) {
    forall w: seq<CodePoint>, i: nat, j: nat :: Recognises(d, g, w, start, i, j) <==> Matches(d, r, w, i, j)
  }

  /** The finished program: the last open edges lead to the accepting node at `hi`. */
  lemma FinishWiring(g: Graph, g': Graph, hi: nat, dangling: seq<Edge>)
    requires Closed(g, 0, hi, dangling) && hi < |g.nodes|
    requires Patched(g.nodes, g'.nodes, dangling, hi) && g'.ranges == g.ranges
    ensures Connected(g, g', 0, hi, dangling, [], hi) && g'.nodes[hi] == g.nodes[hi] && Wired(g', hi, hi + 1)
  {
    PatchedConnects(g, g', 0, hi, dangling, [], hi);
    ConnectedSettled(g, g', 0, hi, dangling, [], hi, 0, hi + 1);
    PatchedKeeps(g, g', hi, hi + 1, dangling, hi);
  }

  lemma FinishProgram(d: Dialect, g: Graph, g': Graph, hi: nat, f: Fragment, dangling: seq<Edge>, r: Regex)
    requires Fragmented(d, g, 0, hi, f, dangling, r)
    requires hi < |g.nodes| && g.nodes[hi].op == OpMatch
    requires Patched(g.nodes, g'.nodes, dangling, hi) && g'.ranges == g.ranges
    ensures g'.nodes[hi].op == OpMatch && Wired(g', hi, hi + 1)
    ensures ProgramMeans(d, g', f.start, r)
  {
    FinishWiring(g, g', hi, dangling);
    forall w: seq<CodePoint>, i: nat, j: nat
      ensures Recognises(d, g', w, f.start, i, j) <==> Matches(d, r, w, i, j)
    {
      ProgramSpells(d, g, g', 0, hi, dangling, f.start, hi, r, w, i, j);
    }
  }
}
