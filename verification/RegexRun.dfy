/** Simulating a program over a text: threads that stand for the unfinished matches, and what one
    position's closure and consumption make of them. */
module RegexRun {
  import opened Common
  import opened Rows
  import opened RegexSyntax
  import opened RegexGraph
  import opened RegexFragments
  import opened Streams

  /** A thread: a node, and where the match it pursues began. */
  datatype Thread = Thread(pc: nat, ordinal: nat, start: Position)

  /** The program and text of a search. */
  datatype Run = Run(d: Dialect, g: Graph, w: seq<CodePoint>, start: nat, size: nat)
  {
    ghost predicate Valid() {
      && 0 < size <= |g.nodes| && start < size && g.nodes[size - 1].op == OpMatch && Wired(g, size - 1, size)
    }

    /** Some path leads from node `pc` at position `i` to acceptance at `j`. */
    ghost predicate From(pc: nat, i: nat, j: nat) {
      Recognises(d, g, w, pc, i, j)
    }

    /** The program matches `w[i..j]`. */
    ghost predicate Match(i: nat, j: nat) {
      From(start, i, j)
    }
  }

  /** The match kept so far. */
  datatype Best = NoBest | Best(start: nat, end: nat)

  /** The kept match is at least as good as one from `s` to `j`: it starts earlier, or there and ends no earlier. */
  predicate Beats(b: Best, s: nat, j: nat) {
    b.Best? && (b.start < s || (b.start == s && j <= b.end))
  }

  /** Starts that could still improve on the kept match. */
  predicate Eligible(b: Best, s: nat) {
    b.Best? ==> s <= b.start
  }

  /** The leftmost start from `base` on, with its longest end. */
  ghost predicate LeftmostLongest(x: Run, base: nat, s: nat, e: nat) {
    && base <= s && x.Match(s, e)
    && forall s': nat, j: nat | base <= s' && x.Match(s', j) :: s < s' || (s == s' && j <= e)
  }

  ghost predicate NoMatch(x: Run, base: nat) {
    forall s: nat, j: nat | base <= s :: !x.Match(s, j)
  }

  // ----- Threads -----

  ghost predicate SoundThread(x: Run, t: Thread, i: nat, base: nat, top: nat) {
    && t.pc < x.size && base <= t.ordinal < top
    && forall j: nat | x.From(t.pc, i, j) :: x.Match(t.ordinal, j)
  }

  ghost predicate Sound(x: Run, ts: seq<Thread>, i: nat, base: nat, top: nat) {
    forall k | 0 <= k < |ts| :: SoundThread(x, ts[k], i, base, top)
  }

  predicate Sorted(ts: seq<Thread>) {
    forall a, b | 0 <= a < b < |ts| :: ts[a].ordinal <= ts[b].ordinal
  }

  /** Some thread that began no later than `s` goes on to accept at `j`. */
  ghost predicate Covers(x: Run, ts: seq<Thread>, i: nat, s: nat, j: nat) {
    exists k :: 0 <= k < |ts| && ts[k].ordinal <= s && x.From(ts[k].pc, i, j)
  }

  /** Every match that could still improve on the kept one and ends at `lo` or later is covered at position `i`. */
  ghost predicate Complete(x: Run, ts: seq<Thread>, i: nat, base: nat, top: nat, b: Best, lo: nat) {
    forall s: nat, j: nat | base <= s < top && Eligible(b, s) && lo <= j && x.Match(s, j) :: Covers(x, ts, i, s, j)
  }

  /** Every match that ends before `upto` is beaten by the kept one. */
  ghost predicate Past(x: Run, base: nat, b: Best, upto: nat) {
    forall s: nat, j: nat | base <= s && j < upto && x.Match(s, j) :: Beats(b, s, j)
  }

  ghost predicate Held(x: Run, base: nat, b: Best, upto: nat) {
    b.Best? ==> base <= b.start <= b.end < upto && x.Match(b.start, b.end)
  }

  lemma {:induction false} AcceptsInside(d: Dialect, g: Graph, w: seq<CodePoint>, v: nat, i: nat, j: nat, n: nat)
    requires Accepts(d, g, w, v, i, j, n)
    ensures i <= j <= |w|
    decreases n
  {
    if g.nodes[v].op != OpMatch {
      var other, i2 := AcceptFirst(d, g, w, v, i, j, n);
      AcceptsInside(d, g, w, Target(g.nodes[v], other), i2, j, n - 1);
    }
  }

  lemma FromInside(x: Run, pc: nat, i: nat, j: nat)
    requires x.From(pc, i, j)
    ensures pc < |x.g.nodes| && i <= j <= |x.w|
  {
    var n: nat :| Accepts(x.d, x.g, x.w, pc, i, j, n);
    AcceptsInside(x.d, x.g, x.w, pc, i, j, n);
  }

  /** Taking an edge that fires keeps a thread sound. */
  lemma FromEdge(x: Run, pc: nat, i: nat, other: bool, i2: nat, j: nat)
    requires pc < |x.g.nodes| && x.g.nodes[pc].op != OpMatch
    requires Fires(x.d, x.g.nodes[pc], x.g.ranges, other, x.w, i, i2) && x.From(Target(x.g.nodes[pc], other), i2, j)
    ensures x.From(pc, i, j)
  {
    var n: nat :| Accepts(x.d, x.g, x.w, Target(x.g.nodes[pc], other), i2, j, n);
    assert Accepts(x.d, x.g, x.w, pc, i, j, n + 1);
  }

  lemma FromSplit(x: Run, pc: nat, i: nat, j: nat) returns (other: bool, i2: nat)
    requires x.From(pc, i, j) && pc < |x.g.nodes| && x.g.nodes[pc].op != OpMatch
    ensures Fires(x.d, x.g.nodes[pc], x.g.ranges, other, x.w, i, i2) && x.From(Target(x.g.nodes[pc], other), i2, j)
  {
    var n: nat :| Accepts(x.d, x.g, x.w, pc, i, j, n);
    other, i2 := AcceptFirst(x.d, x.g, x.w, pc, i, j, n);
  }

  /** From the accepting node nothing but the present position is reached. */
  lemma FromAccept(x: Run, pc: nat, i: nat, j: nat)
    requires pc < |x.g.nodes| && x.g.nodes[pc].op == OpMatch
    ensures x.From(pc, i, j) <==> i == j <= |x.w|
  {
    if i == j <= |x.w| {
      assert Accepts(x.d, x.g, x.w, pc, i, j, 0);
    }
    if x.From(pc, i, j) {
      var n: nat :| Accepts(x.d, x.g, x.w, pc, i, j, n);
    }
  }

  lemma OnlyAccept(x: Run, pc: nat)
    requires x.Valid() && pc < x.size
    ensures x.g.nodes[pc].op == OpMatch <==> pc == x.size - 1
  {
    if pc < x.size - 1 { assert Settled(x.g, 0, x.size, [], pc); }
  }

  lemma EdgesInside(x: Run, pc: nat, other: bool, i: nat, i2: nat)
    requires x.Valid() && pc < x.size && Fires(x.d, x.g.nodes[pc], x.g.ranges, other, x.w, i, i2)
    ensures x.g.nodes[pc].op != OpMatch && Target(x.g.nodes[pc], other) < x.size
  {
    assert Settled(x.g, 0, x.size, [], pc);
  }

  // ----- The closure of one position -----

  /** `owner` maps each node reached at this position to the start of the thread that reached it first. */
  type Owners = map<nat, nat>

  ghost predicate Owned(x: Run, i: nat, base: nat, top: nat, owner: Owners) {
    forall pc <- owner :: pc < x.size && base <= owner[pc] < top && forall j: nat | x.From(pc, i, j) ::
      x.Match(owner[pc], j)
  }

  ghost predicate HasLeaf(leaves: seq<Thread>, pc: nat, ordinal: nat) {
    exists k :: 0 <= k < |leaves| && leaves[k].pc == pc && leaves[k].ordinal == ordinal
  }

  /** Node `pc` has been dealt with: what it leads to without consuming is owned no later than itself. */
  ghost predicate Expanded(x: Run, i: nat, owner: Owners, leaves: seq<Thread>, b: Best, pc: nat)
    requires pc in owner && pc < |x.g.nodes|
  {
    var n := x.g.nodes[pc];
    if n.op == OpMatch then b.Best? && (b.start < owner[pc] || (b.start == owner[pc] && b.end == i))
    else if Consuming(n.op) then HasLeaf(leaves, pc, owner[pc])
    else forall other: bool | Fires(x.d, n, x.g.ranges, other, x.w, i, i) ::
           Target(n, other) in owner && owner[Target(n, other)] <= owner[pc]
  }

  ghost predicate Closing(x: Run, i: nat, owner: Owners, pending: set<nat>, leaves: seq<Thread>, b: Best) {
    forall pc <- owner | pc !in pending :: pc < |x.g.nodes| && Expanded(x, i, owner, leaves, b, pc)
  }

  ghost predicate OwnerCovers(x: Run, owner: Owners, i: nat, s: nat, j: nat) {
    exists pc :: pc in owner && owner[pc] <= s && x.From(pc, i, j)
  }

  /** Matches are covered by the threads still to be started or by the nodes already owned. */
  ghost predicate Reaching(x: Run, ts: seq<Thread>, owner: Owners, i: nat, base: nat, top: nat, b: Best) {
    forall s: nat, j: nat | base <= s < top && Eligible(b, s) && i <= j && x.Match(s, j) ::
      Covers(x, ts, i, s, j) || OwnerCovers(x, owner, i, s, j)
  }

  lemma FiresHere(x: Run, n: Node, other: bool, i: nat, i2: nat)
    requires Fires(x.d, n, x.g.ranges, other, x.w, i, i2) && !Consuming(n.op)
    ensures i2 == i
  {
  }

  /** When nothing is left on the stack, an owned node that accepts later does so through a leaf,
      and one that accepts here has been recorded. */
  lemma {:induction false} ClosureDone(x: Run, i: nat, base: nat, top: nat, owner: Owners, leaves: seq<Thread>, b: Best,
                                       pc: nat, j: nat, n: nat)
    requires x.Valid() && Owned(x, i, base, top, owner) && Closing(x, i, owner, {}, leaves, b)
    requires pc in owner && Accepts(x.d, x.g, x.w, pc, i, j, n)
    ensures if j == i then b.Best? && (b.start < owner[pc] || (b.start == owner[pc] && b.end == i))
            else Covers(x, leaves, i, owner[pc], j)
    decreases n
  {
    assert pc !in {};
    assert Expanded(x, i, owner, leaves, b, pc);
    var node := x.g.nodes[pc];
    if node.op != OpMatch {
      var other, i2 := AcceptFirst(x.d, x.g, x.w, pc, i, j, n);
      if Consuming(node.op) {
        AcceptsInside(x.d, x.g, x.w, Target(node, other), i2, j, n - 1);
        assert x.From(pc, i, j);
        var k :| 0 <= k < |leaves| && leaves[k].pc == pc && leaves[k].ordinal == owner[pc];
      } else {
        FiresHere(x, node, other, i, i2);
        var target := Target(node, other);
        ClosureDone(x, i, base, top, owner, leaves, b, target, j, n - 1);
        if j != i { CoversLater(x, leaves, i, owner[target], owner[pc], j); }
      }
    }
  }

  lemma CoversLater(x: Run, ts: seq<Thread>, i: nat, s: nat, s': nat, j: nat)
    requires Covers(x, ts, i, s, j) && s <= s'
    ensures Covers(x, ts, i, s', j)
  {
    var k :| 0 <= k < |ts| && ts[k].ordinal <= s && x.From(ts[k].pc, i, j);
  }

  /** The end of a position's closure: matches ending here are beaten, later ones are covered by the leaves. */
  lemma ClosureSettles(x: Run, i: nat, base: nat, top: nat, owner: Owners, leaves: seq<Thread>, b: Best)
    requires x.Valid() && Owned(x, i, base, i + 1, owner) && Closing(x, i, owner, {}, leaves, b)
    requires Reaching(x, [], owner, i, base, top, b) && Past(x, base, b, i)
    requires top == i + 1 || (b.Best? && b.start < top)
    ensures Complete(x, leaves, i, base, i + 1, b, i + 1) && Past(x, base, b, i + 1)
  {
    forall s: nat, j: nat | base <= s && i <= j && x.Match(s, j)
      ensures s < i + 1 && Eligible(b, s) && i + 1 <= j ==> Covers(x, leaves, i, s, j)
      ensures j == i ==> Beats(b, s, j)
    {
      FromInside(x, x.start, s, j);
      if s < i + 1 && Eligible(b, s) {
        assert OwnerCovers(x, owner, i, s, j);
        var pc :| pc in owner && owner[pc] <= s && x.From(pc, i, j);
        var n: nat :| Accepts(x.d, x.g, x.w, pc, i, j, n);
        ClosureDone(x, i, base, i + 1, owner, leaves, b, pc, j, n);
        if j != i { CoversLater(x, leaves, i, owner[pc], s, j); }
      }
    }
  }

  // ----- Consuming one token -----

  /** Matches are covered by the leaves still to be tried here or by the threads already moved on. */
  ghost predicate Moving(x: Run, leaves: seq<Thread>, seeds: seq<Thread>, i: nat, base: nat, top: nat, b: Best) {
    forall s: nat, j: nat | base <= s < top && Eligible(b, s) && i + 1 <= j && x.Match(s, j) ::
      Covers(x, leaves, i, s, j) || Covers(x, seeds, i + 1, s, j)
  }

  ghost predicate ConsumingThread(x: Run, t: Thread) {
    t.pc < |x.g.nodes| && Consuming(x.g.nodes[t.pc].op)
  }

  /** A leaf that accepts the token moves on; one that does not has no future. */
  lemma LeafMoves(x: Run, t: Thread, i: nat, j: nat)
    requires ConsumingThread(x, t)
    ensures var n := x.g.nodes[t.pc];
            x.From(t.pc, i, j) <==> i < |x.w| && NodeAccepts(x.d, n, x.g.ranges, x.w[i]) && x.From(n.out, i + 1, j)
  {
    var n := x.g.nodes[t.pc];
    if x.From(t.pc, i, j) {
      var other, i2 := FromSplit(x, t.pc, i, j);
      assert !other;
    }
    if i < |x.w| && NodeAccepts(x.d, n, x.g.ranges, x.w[i]) && x.From(n.out, i + 1, j) {
      FromEdge(x, t.pc, i, false, i + 1, j);
    }
  }

  /** The first leaf has been tried: it moved on to `moved`, or it died and `moved` is empty. */
  lemma MoveOne(x: Run, leaves: seq<Thread>, seeds: seq<Thread>, i: nat, base: nat, top: nat, b: Best,
                moved: seq<Thread>)
    requires leaves != [] && ConsumingThread(x, leaves[0]) && Moving(x, leaves, seeds, i, base, top, b)
    requires var n := x.g.nodes[leaves[0].pc];
             if i < |x.w| && NodeAccepts(x.d, n, x.g.ranges, x.w[i]) then moved == [leaves[0].(pc := n.out)]
               else moved == []
    ensures Moving(x, leaves[1..], seeds + moved, i, base, top, b)
  {
    forall s: nat, j: nat | base <= s < top && Eligible(b, s) && i + 1 <= j && x.Match(s, j)
      ensures Covers(x, leaves[1..], i, s, j) || Covers(x, seeds + moved, i + 1, s, j)
    {
      if Covers(x, leaves, i, s, j) {
        var k :| 0 <= k < |leaves| && leaves[k].ordinal <= s && x.From(leaves[k].pc, i, j);
        if k == 0 {
          LeafMoves(x, leaves[0], i, j);
          assert (seeds + moved)[|seeds|] == moved[0];
        } else {
          assert leaves[1..][k - 1] == leaves[k];
        }
      } else {
        var k :| 0 <= k < |seeds| && seeds[k].ordinal <= s && x.From(seeds[k].pc, i + 1, j);
        assert (seeds + moved)[k] == seeds[k];
      }
    }
  }

  /** No surviving thread can improve on the kept match: it is the leftmost-longest one. */
  lemma BestIsFinal(x: Run, seeds: seq<Thread>, i: nat, base: nat, top: nat, b: Best)
    requires b.Best? && Held(x, base, b, i + 1) && Past(x, base, b, i + 1) && Moving(x, [], seeds, i, base, top, b)
    requires b.start < top && forall k | 0 <= k < |seeds| :: b.start < seeds[k].ordinal
    ensures LeftmostLongest(x, base, b.start, b.end)
  {
    forall s: nat, j: nat | base <= s && x.Match(s, j)
      ensures b.start < s || (b.start == s && j <= b.end)
    {
      if s <= b.start && i + 1 <= j { assert false; }
    }
  }

  lemma NothingLeft(x: Run, seeds: seq<Thread>, i: nat, base: nat, b: Best)
    requires b.NoBest? && i == |x.w| && Past(x, base, b, i + 1)
    ensures NoMatch(x, base)
  {
    forall s: nat, j: nat | base <= s
      ensures !x.Match(s, j)
    {
      if x.Match(s, j) { FromInside(x, x.start, s, j); }
    }
  }

  // ----- Steps of the closure -----

  /** A node reached for the first time joins the owned nodes and waits to be expanded. */
  lemma PushKeeps(x: Run, i: nat, base: nat, top: nat, owner: Owners, pending: set<nat>, leaves: seq<Thread>, b: Best,
                  pc: nat, ordinal: nat)
    requires Owned(x, i, base, top, owner) && Closing(x, i, owner, pending, leaves, b)
    requires pc < x.size && pc !in owner && base <= ordinal < top
             && forall j: nat | x.From(pc, i, j) :: x.Match(ordinal, j)
    ensures var owner' := owner[pc := ordinal];
            Owned(x, i, base, top, owner') && Closing(x, i, owner', pending + {pc}, leaves, b)
  {
    var owner' := owner[pc := ordinal];
    forall v <- owner' | v !in pending + {pc}
      ensures v < |x.g.nodes| && Expanded(x, i, owner', leaves, b, v)
    {
      assert Expanded(x, i, owner, leaves, b, v);
    }
  }

  lemma PushReaches(x: Run, ts: seq<Thread>, owner: Owners, i: nat, base: nat, top: nat, b: Best, pc: nat, ordinal: nat)
    requires Reaching(x, ts, owner, i, base, top, b) && pc !in owner
    ensures Reaching(x, ts, owner[pc := ordinal], i, base, top, b)
  {
    var owner' := owner[pc := ordinal];
    forall s: nat, j: nat | base <= s < top && Eligible(b, s) && i <= j && x.Match(s, j)
      ensures Covers(x, ts, i, s, j) || OwnerCovers(x, owner', i, s, j)
    {
      if OwnerCovers(x, owner, i, s, j) {
        var v :| v in owner && owner[v] <= s && x.From(v, i, j);
        assert v in owner' && owner'[v] == owner[v];
      }
    }
  }

  /** The first thread's node is owned no later than the thread began: the thread needs no further following. */
  lemma SeedStarted(x: Run, ts: seq<Thread>, owner: Owners, i: nat, base: nat, top: nat, b: Best)
    requires ts != [] && Reaching(x, ts, owner, i, base, top, b)
    requires ts[0].pc in owner && owner[ts[0].pc] <= ts[0].ordinal
    ensures Reaching(x, ts[1..], owner, i, base, top, b)
  {
    forall s: nat, j: nat | base <= s < top && Eligible(b, s) && i <= j && x.Match(s, j)
      ensures Covers(x, ts[1..], i, s, j) || OwnerCovers(x, owner, i, s, j)
    {
      if Covers(x, ts, i, s, j) {
        var k :| 0 <= k < |ts| && ts[k].ordinal <= s && x.From(ts[k].pc, i, j);
        if k > 0 { assert ts[1..][k - 1] == ts[k]; }
      }
    }
  }

  /** Starting the search at this position as well covers the matches that begin here. */
  lemma InjectedHere(x: Run, owner: Owners, i: nat, base: nat, b: Best)
    requires Reaching(x, [], owner, i, base, i, b) && x.start in owner && owner[x.start] <= i
    ensures Reaching(x, [], owner, i, base, i + 1, b)
  {
    forall s: nat, j: nat | base <= s < i + 1 && Eligible(b, s) && i <= j && x.Match(s, j)
      ensures Covers(x, [], i, s, j) || OwnerCovers(x, owner, i, s, j)
    {
      if s == i { assert x.From(x.start, i, j); }
    }
  }

  /** A node whose firing edges lead to owned nodes is expanded. */
  lemma NodeExpanded(x: Run, i: nat, owner: Owners, pending: set<nat>, leaves: seq<Thread>, leaves': seq<Thread>,
                     b: Best, b': Best, pc: nat)
    requires x.Valid() && Closing(x, i, owner, pending + {pc}, leaves, b) && (forall v <- owner :: v < x.size)
    requires pc in owner && leaves <= leaves' && Expanded(x, i, owner, leaves', b', pc)
    requires b' != b ==> x.g.nodes[pc].op == OpMatch
    ensures Closing(x, i, owner, pending - {pc}, leaves', b')
  {
    forall v <- owner | v !in pending - {pc}
      ensures v < |x.g.nodes| && Expanded(x, i, owner, leaves', b', v)
    {
      if v != pc {
        assert v !in pending + {pc};
        assert Expanded(x, i, owner, leaves, b, v);
        OnlyAccept(x, v);
        OnlyAccept(x, pc);
        if HasLeaf(leaves, v, owner[v]) {
          var k :| 0 <= k < |leaves| && leaves[k].pc == v && leaves[k].ordinal == owner[v];
          assert leaves'[k] == leaves[k];
        }
      }
    }
  }

  /** An accepting node reached by a thread from `ordinal` improves the kept match, or is beaten by it. */
  function Improved(b: Best, ordinal: nat, i: nat): Best {
    if b.NoBest? || ordinal <= b.start then Best(ordinal, i) else b
  }

  lemma ImprovedKeeps(x: Run, base: nat, b: Best, ordinal: nat, i: nat, ts: seq<Thread>, owner: Owners, top: nat)
    requires Past(x, base, b, i) && Held(x, base, b, i + 1) && Reaching(x, ts, owner, i, base, top, b)
    requires base <= ordinal <= i && x.Match(ordinal, i)
    ensures var b' := Improved(b, ordinal, i);
            Past(x, base, b', i) && Held(x, base, b', i + 1) && Reaching(x, ts, owner, i, base, top, b')
  {
    var b' := Improved(b, ordinal, i);
    forall s: nat, j: nat | base <= s && j < i && x.Match(s, j)
      ensures Beats(b', s, j)
    {
      assert Beats(b, s, j);
    }
  }

  lemma {:induction false} BelowCount(s: set<nat>, n: nat)
    requires forall v <- s :: v < n
    ensures |s| <= n
    decreases n
  {
    if n == 0 {
      assert s == {};
    } else {
      BelowCount(s - {n - 1}, n - 1);
    }
  }

  lemma FreshStart(x: Run, i: nat)
    ensures Past(x, i, NoBest, i)
  {
    forall s: nat, j: nat | i <= s && j < i && x.Match(s, j)
      ensures false
    {
      FromInside(x, x.start, s, j);
    }
  }

  lemma NothingBefore(x: Run, ts: seq<Thread>, i: nat, b: Best, lo: nat)
    ensures Complete(x, ts, i, i, i, b, lo)
  {
  }

  lemma MovingBegins(x: Run, leaves: seq<Thread>, i: nat, base: nat, b: Best)
    requires Complete(x, leaves, i, base, i + 1, b, i + 1)
    ensures Moving(x, leaves, [], i, base, i + 1, b)
  {
  }

  /** The closure of position `i`: `pending` nodes await expansion, `ts` are threads still to be started. */
  ghost predicate Flow(x: Run, i: nat, base: nat, top: nat, owner: Owners, pending: set<nat>, leaves: seq<Thread>,
                       ts: seq<Thread>, b: Best) {
    && Owned(x, i, base, i + 1, owner) && Closing(x, i, owner, pending, leaves, b)
    && Reaching(x, ts, owner, i, base, top, b) && Held(x, base, b, i + 1) && Past(x, base, b, i)
  }

  lemma FlowBegins(x: Run, ts: seq<Thread>, i: nat, base: nat, b: Best)
    requires Complete(x, ts, i, base, i, b, i) && Held(x, base, b, i) && Past(x, base, b, i)
    ensures Flow(x, i, base, i, map[], {}, [], ts, b)
  {
  }

  lemma FlowPush(x: Run, i: nat, base: nat, top: nat, owner: Owners, pending: set<nat>, leaves: seq<Thread>,
                 ts: seq<Thread>, b: Best, pc: nat, ordinal: nat)
    requires Flow(x, i, base, top, owner, pending, leaves, ts, b)
    requires pc < x.size && pc !in owner && base <= ordinal <= i
             && forall j: nat | x.From(pc, i, j) :: x.Match(ordinal, j)
    ensures Flow(x, i, base, top, owner[pc := ordinal], pending + {pc}, leaves, ts, b)
  {
    PushKeeps(x, i, base, i + 1, owner, pending, leaves, b, pc, ordinal);
    PushReaches(x, ts, owner, i, base, top, b, pc, ordinal);
  }

  lemma FlowStarted(x: Run, i: nat, base: nat, top: nat, owner: Owners, pending: set<nat>, leaves: seq<Thread>,
                    ts: seq<Thread>, b: Best)
    requires Flow(x, i, base, top, owner, pending, leaves, ts, b)
    requires ts != [] && ts[0].pc in owner && owner[ts[0].pc] <= ts[0].ordinal
    ensures Flow(x, i, base, top, owner, pending, leaves, ts[1..], b)
  {
    SeedStarted(x, ts, owner, i, base, top, b);
  }

  lemma FlowInjected(x: Run, i: nat, base: nat, owner: Owners, pending: set<nat>, leaves: seq<Thread>, b: Best)
    requires Flow(x, i, base, i, owner, pending, leaves, [], b) && x.start in owner && owner[x.start] <= i
    ensures Flow(x, i, base, i + 1, owner, pending, leaves, [], b)
  {
    InjectedHere(x, owner, i, base, b);
  }

  lemma FlowEnds(x: Run, i: nat, base: nat, top: nat, owner: Owners, leaves: seq<Thread>, b: Best)
    requires x.Valid() && Flow(x, i, base, top, owner, {}, leaves, [], b)
    requires top == i + 1 || (b.Best? && b.start < top)
    ensures Moving(x, leaves, [], i, base, i + 1, b) && Past(x, base, b, i + 1) && Held(x, base, b, i + 1)
  {
    ClosureSettles(x, i, base, top, owner, leaves, b);
    MovingBegins(x, leaves, i, base, b);
  }
}
