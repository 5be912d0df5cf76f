/** Regular expressions: abstract syntax, what an expression matches, and the mirror image
    that a backward search looks for. */
module RegexSyntax {

  import opened Common
  import opened Rows

  /** The shorthand classes `\d \s \w` and their complements. */
  datatype Shorthand = Digit | Space | Word | NotDigit | NotSpace | NotWord

  datatype Range = Range(low: CodePoint, high: CodePoint)

  /** The Unicode tables and the modes of one search. With `lines` a newline separates two texts that are searched
      on their own; without it a newline is a token like any other. */
  datatype Dialect = Dialect(
    folds: bool,
    lines: bool,
    canonical: CodePoint -> CodePoint,
    equivalents: CodePoint -> seq<CodePoint>,
    digit: CodePoint -> bool,
    space: CodePoint -> bool,
    word: CodePoint -> bool)
  {
    function Fold(cp: CodePoint): CodePoint {
      if folds then canonical(cp) else cp
    }

    /** The token separates two texts rather than being part of one. */
    predicate Separates(cp: CodePoint) {
      lines && cp == NEWLINE
    }

    predicate IsWord(cp: CodePoint) {
      Scalar(cp) && word(cp)
    }

    predicate HasShorthand(members: set<Shorthand>, cp: CodePoint) {
      Scalar(cp) &&
      (|| (Digit in members && digit(cp)) || (NotDigit in members && !digit(cp))
       || (Space in members && space(cp)) || (NotSpace in members && !space(cp))
       || (Word in members && word(cp)) || (NotWord in members && !word(cp)))
    }

    predicate InRange(range: Range, cp: CodePoint) {
      range.low <= cp <= range.high
    }

    predicate HasRange(range: Range, cp: CodePoint) {
      InRange(range, cp) || (folds && exists e <- equivalents(cp) :: InRange(range, e))
    }

    predicate HasMember(shorthands: set<Shorthand>, ranges: seq<Range>, cp: CodePoint) {
      HasShorthand(shorthands, cp) || exists r <- ranges :: HasRange(r, cp)
    }
  }

  /** A pattern for exactly one token. */
  datatype Atom =
    | Char(cp: CodePoint)
    | Any
    | Class(negated: bool, shorthands: set<Shorthand>, ranges: seq<Range>)

  /** A condition on a position between tokens. */
  datatype Anchor = LineStart | LineEnd | TextStart | TextEnd | Boundary | NotBoundary

  datatype Regex =
    | Empty
    | One(atom: Atom)
    | Assert(anchor: Anchor)
    | Cat(first: Regex, second: Regex)
    | Alt(left: Regex, right: Regex)
    | Repeat(body: Regex, least: nat, most: Option<nat>)

  predicate AtomAccepts(d: Dialect, a: Atom, cp: CodePoint) {
    !d.Separates(cp) &&
    match a
    case Char(c) => d.Fold(cp) == d.Fold(c)
    case Any => cp != NEWLINE
    case Class(negated, shorthands, ranges) =>
      if negated then !d.HasMember(shorthands, ranges, cp) && cp != NEWLINE
      else d.HasMember(shorthands, ranges, cp)
  }

  // ----- Classes -----

  /** The table of equivalents agrees with the canonical forms. */
  ghost predicate Folding(d: Dialect) {
    forall cp: CodePoint, e: CodePoint :: e == cp || e in d.equivalents(cp) <==> d.canonical(e) == d.canonical(cp)
  }

  /** A class of one scalar accepts what the scalar itself does, folded or not. */
  lemma ClassOfOne(d: Dialect, c: CodePoint, cp: CodePoint)
    requires Folding(d)
    ensures AtomAccepts(d, Class(false, {}, [Range(c, c)]), cp) <==> AtomAccepts(d, Char(c), cp)
  {
    assert Range(c, c) in [Range(c, c)];
  }

  /** A class accepts what one of its parts does. */
  lemma ClassOfParts(d: Dialect, s: set<Shorthand>, t: set<Shorthand>, a: seq<Range>, b: seq<Range>, cp: CodePoint)
    ensures AtomAccepts(d, Class(false, s + t, a + b), cp)
            <==> AtomAccepts(d, Class(false, s, a), cp) || AtomAccepts(d, Class(false, t, b), cp)
  {
    hide Dialect.HasRange;
    assert forall r :: r in a + b <==> r in a || r in b;
  }

  /** Each shorthand is a property of scalars, and its complement the scalars without it. */
  lemma ShorthandsAre(d: Dialect, cp: CodePoint)
    requires !d.Separates(cp)
    ensures AtomAccepts(d, Class(false, {Digit}, []), cp) <==> Scalar(cp) && d.digit(cp)
    ensures AtomAccepts(d, Class(false, {Space}, []), cp) <==> Scalar(cp) && d.space(cp)
    ensures AtomAccepts(d, Class(false, {Word}, []), cp) <==> Scalar(cp) && d.word(cp)
    ensures AtomAccepts(d, Class(false, {NotDigit}, []), cp) <==> Scalar(cp) && !d.digit(cp)
    ensures AtomAccepts(d, Class(false, {NotSpace}, []), cp) <==> Scalar(cp) && !d.space(cp)
    ensures AtomAccepts(d, Class(false, {NotWord}, []), cp) <==> Scalar(cp) && !d.word(cp)
  {
  }

  predicate Holds(d: Dialect, a: Anchor, w: seq<CodePoint>, i: nat)
    requires i <= |w|
  {
    var before := i > 0 && d.IsWord(w[i - 1]);
    var after := i < |w| && d.IsWord(w[i]);
    match a
    case LineStart => i == 0 || w[i - 1] == NEWLINE
    case LineEnd => i == |w| || w[i] == NEWLINE
    case TextStart => i == 0 || d.Separates(w[i - 1])
    case TextEnd => i == |w| || d.Separates(w[i])
    case Boundary => before != after
    case NotBoundary => before == after
  }

  /** Expression `r` matches the tokens `w[i..j]`, read inside the whole text `w`. */
  ghost predicate Matches(d: Dialect, r: Regex, w: seq<CodePoint>, i: nat, j: nat)
    decreases r, 0
  {
    match r
    case Empty => i == j <= |w|
    case One(a) => i < |w| && j == i + 1 && AtomAccepts(d, a, w[i])
    case Assert(a) => i == j <= |w| && Holds(d, a, w, i)
    case Cat(a, b) => exists k: nat :: Matches(d, a, w, i, k) && Matches(d, b, w, k, j)
    case Alt(a, b) => Matches(d, a, w, i, j) || Matches(d, b, w, i, j)
    case Repeat(b, least, most) =>
      exists n: nat :: Within(n, least, most) && Times(d, b, n, w, i, j)
  }

  /** `n` consecutive matches of `r` cover `w[i..j]`. */
  ghost predicate Times(d: Dialect, r: Regex, n: nat, w: seq<CodePoint>, i: nat, j: nat)
    decreases r, n + 1
  {
    if n == 0 then i == j <= |w|
    else exists k: nat :: Matches(d, r, w, i, k) && Times(d, r, n - 1, w, k, j)
  }

  predicate Within(n: nat, least: nat, most: Option<nat>) {
    least <= n && (most.Some? ==> n <= most.value)
  }

  /** Two expressions match the same pieces of every text. */
  ghost predicate Same(d: Dialect, r: Regex, s: Regex) {
    forall w: seq<CodePoint>, i: nat, j: nat :: Matches(d, r, w, i, j) <==> Matches(d, s, w, i, j)
  }

  lemma {:induction false} MatchInside(d: Dialect, r: Regex, w: seq<CodePoint>, i: nat, j: nat)
    requires Matches(d, r, w, i, j)
    ensures i <= j <= |w|
    decreases r, 0
  {
    match r
    case Empty =>
    case One(_) =>
    case Assert(_) =>
    case Cat(a, b) =>
      var k: nat :| Matches(d, a, w, i, k) && Matches(d, b, w, k, j);
      MatchInside(d, a, w, i, k);
      MatchInside(d, b, w, k, j);
    case Alt(a, b) =>
      if Matches(d, a, w, i, j) { MatchInside(d, a, w, i, j); } else { MatchInside(d, b, w, i, j); }
    case Repeat(b, least, most) =>
      var n: nat :| Within(n, least, most) && Times(d, b, n, w, i, j);
      TimesInside(d, b, n, w, i, j);
  }

  lemma {:induction false} TimesInside(d: Dialect, r: Regex, n: nat, w: seq<CodePoint>, i: nat, j: nat)
    requires Times(d, r, n, w, i, j)
    ensures i <= j <= |w|
    decreases r, n + 1
  {
    if n != 0 {
      var k: nat :| Matches(d, r, w, i, k) && Times(d, r, n - 1, w, k, j);
      MatchInside(d, r, w, i, k);
      TimesInside(d, r, n - 1, w, k, j);
    }
  }

  lemma CatSplit(d: Dialect, a: Regex, b: Regex, w: seq<CodePoint>, i: nat, j: nat) returns (k: nat)
    requires Matches(d, Cat(a, b), w, i, j)
    ensures Matches(d, a, w, i, k) && Matches(d, b, w, k, j)
  {
    k :| Matches(d, a, w, i, k) && Matches(d, b, w, k, j);
  }

  lemma TimesFirst(d: Dialect, r: Regex, n: nat, w: seq<CodePoint>, i: nat, j: nat) returns (k: nat)
    requires n > 0 && Times(d, r, n, w, i, j)
    ensures Matches(d, r, w, i, k) && Times(d, r, n - 1, w, k, j)
  {
    k :| Matches(d, r, w, i, k) && Times(d, r, n - 1, w, k, j);
  }

  lemma RepeatSplit(d: Dialect, b: Regex, least: nat, most: Option<nat>, w: seq<CodePoint>, i: nat, j: nat)
      returns (n: nat)
    requires Matches(d, Repeat(b, least, most), w, i, j)
    ensures Within(n, least, most) && Times(d, b, n, w, i, j)
  {
    n :| Within(n, least, most) && Times(d, b, n, w, i, j);
  }

  // ----- Repetition counts add up -----

  lemma {:induction false} TimesJoin(d: Dialect, r: Regex, m: nat, n: nat, w: seq<CodePoint>, i: nat, k: nat, j: nat)
    requires Times(d, r, m, w, i, k) && Times(d, r, n, w, k, j)
    ensures Times(d, r, m + n, w, i, j)
    decreases m
  {
    if m != 0 {
      var x: nat :| Matches(d, r, w, i, x) && Times(d, r, m - 1, w, x, k);
      TimesJoin(d, r, m - 1, n, w, x, k, j);
    }
  }

  lemma {:induction false} TimesSplit(d: Dialect, r: Regex, m: nat, n: nat, w: seq<CodePoint>, i: nat, j: nat)
      returns (k: nat)
    requires Times(d, r, m + n, w, i, j)
    ensures Times(d, r, m, w, i, k) && Times(d, r, n, w, k, j)
    decreases m
  {
    if m == 0 {
      k := i;
      TimesInside(d, r, n, w, i, j);
    } else {
      var x: nat :| Matches(d, r, w, i, x) && Times(d, r, m + n - 1, w, x, j);
      k := TimesSplit(d, r, m - 1, n, w, x, j);
    }
  }

  lemma OneTime(d: Dialect, r: Regex, w: seq<CodePoint>, i: nat, j: nat)
    ensures Times(d, r, 1, w, i, j) <==> Matches(d, r, w, i, j)
  {
    if Times(d, r, 1, w, i, j) {
      var k := TimesFirst(d, r, 1, w, i, j);
    }
    if Matches(d, r, w, i, j) {
      MatchInside(d, r, w, i, j);
      assert Times(d, r, 0, w, j, j);
    }
  }

  function Sum(a: Option<nat>, b: Option<nat>): Option<nat> {
    if a.Some? && b.Some? then Some(a.value + b.value) else None
  }

  /** A count between the two sums splits into a count for each part. */
  lemma SplitCount(n: nat, l1: nat, h1: Option<nat>, l2: nat, h2: Option<nat>) returns (a: nat, b: nat)
    requires Within(n, l1 + l2, Sum(h1, h2))
    requires h1.Some? ==> l1 <= h1.value
    requires h2.Some? ==> l2 <= h2.value
    ensures a + b == n && Within(a, l1, h1) && Within(b, l2, h2)
  {
    if h1.Some? && n - l2 > h1.value {
      a := h1.value;
    } else {
      a := n - l2;
    }
    b := n - a;
  }

  /** Consecutive repetitions of one body are one repetition with the bounds added. */
  lemma RepeatsAdd(d: Dialect, r: Regex, l1: nat, h1: Option<nat>, l2: nat, h2: Option<nat>)
    requires h1.Some? ==> l1 <= h1.value
    requires h2.Some? ==> l2 <= h2.value
    ensures Same(d, Cat(Repeat(r, l1, h1), Repeat(r, l2, h2)), Repeat(r, l1 + l2, Sum(h1, h2)))
  {
    var first, second, whole := Repeat(r, l1, h1), Repeat(r, l2, h2), Repeat(r, l1 + l2, Sum(h1, h2));
    forall w: seq<CodePoint>, i: nat, j: nat
      ensures Matches(d, Cat(first, second), w, i, j) <==> Matches(d, whole, w, i, j)
    {
      if Matches(d, Cat(first, second), w, i, j) {
        var k := CatSplit(d, first, second, w, i, j);
        var m := RepeatSplit(d, r, l1, h1, w, i, k);
        var n := RepeatSplit(d, r, l2, h2, w, k, j);
        TimesJoin(d, r, m, n, w, i, k, j);
        assert Within(m + n, l1 + l2, Sum(h1, h2));
      }
      if Matches(d, whole, w, i, j) {
        var n := RepeatSplit(d, r, l1 + l2, Sum(h1, h2), w, i, j);
        var a, b := SplitCount(n, l1, h1, l2, h2);
        var k := TimesSplit(d, r, a, b, w, i, j);
        assert Matches(d, first, w, i, k) && Matches(d, second, w, k, j);
      }
    }
  }

  lemma RepeatOnce(d: Dialect, r: Regex)
    ensures Same(d, r, Repeat(r, 1, Some(1)))
  {
    forall w: seq<CodePoint>, i: nat, j: nat
      ensures Matches(d, r, w, i, j) <==> Matches(d, Repeat(r, 1, Some(1)), w, i, j)
    {
      OneTime(d, r, w, i, j);
      if Matches(d, r, w, i, j) {
        assert Within(1, 1, Some(1)) && Times(d, r, 1, w, i, j);
      }
      if Matches(d, Repeat(r, 1, Some(1)), w, i, j) {
        var n: nat :| Within(n, 1, Some(1)) && Times(d, r, n, w, i, j);
        assert n == 1;
      }
    }
  }

  lemma RepeatNever(d: Dialect, r: Regex)
    ensures Same(d, Empty, Repeat(r, 0, Some(0)))
  {
    forall w: seq<CodePoint>, i: nat, j: nat
      ensures Matches(d, Empty, w, i, j) <==> Matches(d, Repeat(r, 0, Some(0)), w, i, j)
    {
      if Matches(d, Empty, w, i, j) {
        assert Within(0, 0, Some(0)) && Times(d, r, 0, w, i, j);
      }
      if Matches(d, Repeat(r, 0, Some(0)), w, i, j) {
        var n: nat :| Within(n, 0, Some(0)) && Times(d, r, n, w, i, j);
        assert n == 0;
      }
    }
  }

  lemma SameCat(d: Dialect, a: Regex, a': Regex, b: Regex, b': Regex)
    requires Same(d, a, a') && Same(d, b, b')
    ensures Same(d, Cat(a, b), Cat(a', b'))
  {
    forall w: seq<CodePoint>, i: nat, j: nat
      ensures Matches(d, Cat(a, b), w, i, j) <==> Matches(d, Cat(a', b'), w, i, j)
    {
      if Matches(d, Cat(a, b), w, i, j) {
        var k := CatSplit(d, a, b, w, i, j);
        assert Matches(d, a', w, i, k) && Matches(d, b', w, k, j);
      }
      if Matches(d, Cat(a', b'), w, i, j) {
        var k := CatSplit(d, a', b', w, i, j);
        assert Matches(d, a, w, i, k) && Matches(d, b, w, k, j);
      }
    }
  }

  // ----- The mirror image -----

  function MirrorAnchor(a: Anchor): Anchor {
    match a
    case LineStart => LineEnd
    case LineEnd => LineStart
    case TextStart => TextEnd
    case TextEnd => TextStart
    case Boundary => Boundary
    case NotBoundary => NotBoundary
  }

  function Mirror(r: Regex): Regex {
    match r
    case Empty => Empty
    case One(a) => One(a)
    case Assert(a) => Assert(MirrorAnchor(a))
    case Cat(a, b) => Cat(Mirror(b), Mirror(a))
    case Alt(a, b) => Alt(Mirror(a), Mirror(b))
    case Repeat(b, least, most) => Repeat(Mirror(b), least, most)
  }

  /** What a compiler for the given direction must recognise. */
  function Directed(r: Regex, reverse: bool): Regex {
    if reverse then Mirror(r) else r
  }

  lemma {:induction false} MirrorForward(d: Dialect, r: Regex, w: seq<CodePoint>, i: nat, j: nat)
    requires Matches(d, r, w, i, j) && i <= j <= |w|
    ensures Matches(d, Mirror(r), Reversed(w), |w| - j, |w| - i)
    decreases r, 0
  {
    match r
    case Empty =>
    case One(_) =>
    case Assert(_) =>
    case Cat(a, b) =>
      var k: nat :| Matches(d, a, w, i, k) && Matches(d, b, w, k, j);
      MatchInside(d, a, w, i, k);
      MatchInside(d, b, w, k, j);
      MirrorForward(d, a, w, i, k);
      MirrorForward(d, b, w, k, j);
      assert Matches(d, Mirror(b), Reversed(w), |w| - j, |w| - k);
    case Alt(a, b) =>
      if Matches(d, a, w, i, j) { MirrorForward(d, a, w, i, j); } else { MirrorForward(d, b, w, i, j); }
    case Repeat(b, least, most) =>
      var n: nat :| Within(n, least, most) && Times(d, b, n, w, i, j);
      MirrorTimes(d, b, n, w, i, j);
  }

  lemma {:induction false} MirrorTimes(d: Dialect, r: Regex, n: nat, w: seq<CodePoint>, i: nat, j: nat)
    requires Times(d, r, n, w, i, j) && i <= j <= |w|
    ensures Times(d, Mirror(r), n, Reversed(w), |w| - j, |w| - i)
    decreases r, n + 1
  {
    if n != 0 {
      var k: nat :| Matches(d, r, w, i, k) && Times(d, r, n - 1, w, k, j);
      MatchInside(d, r, w, i, k);
      TimesInside(d, r, n - 1, w, k, j);
      MirrorForward(d, r, w, i, k);
      MirrorTimes(d, r, n - 1, w, k, j);
      OneTime(d, Mirror(r), Reversed(w), |w| - k, |w| - i);
      TimesJoin(d, Mirror(r), n - 1, 1, Reversed(w), |w| - j, |w| - k, |w| - i);
    }
  }

  lemma {:induction false} MirrorTwice(r: Regex)
    ensures Mirror(Mirror(r)) == r
  {
    match r
    case Empty =>
    case One(_) =>
    case Assert(_) =>
    case Cat(a, b) => MirrorTwice(a); MirrorTwice(b);
    case Alt(a, b) => MirrorTwice(a); MirrorTwice(b);
    case Repeat(b, _, _) => MirrorTwice(b);
  }

  /** Reading the text backwards, the mirrored expression matches exactly the mirrored pieces. */
  lemma MirrorMatches(d: Dialect, r: Regex, w: seq<CodePoint>, i: nat, j: nat)
    requires i <= j <= |w|
    ensures Matches(d, r, w, i, j) <==> Matches(d, Mirror(r), Reversed(w), |w| - j, |w| - i)
  {
    hide *;
    ReversedTwice(w);
    if Matches(d, r, w, i, j) {
      MirrorForward(d, r, w, i, j);
    }
    if Matches(d, Mirror(r), Reversed(w), |w| - j, |w| - i) {
      MirrorForward(d, Mirror(r), Reversed(w), |w| - j, |w| - i);
      MirrorTwice(r);
    }
  }
}
