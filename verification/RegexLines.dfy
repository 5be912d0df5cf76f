/** Searching line by line: where a newline separates two texts, the matches in the whole text are those of its
    lines, one line after the other. */
module RegexLines {
  import opened Common
  import opened Rows
  import opened RegexSyntax
  import opened RegexMachine
  import opened RegexResults

  /** Nothing an expression can see tells `w[a..b]` under `d` from `w'[a + shift..b + shift]` under `d'`. */
  ghost predicate Like(d: Dialect, w: seq<CodePoint>, d': Dialect, w': seq<CodePoint>, a: nat, b: nat, shift: int) {
    && 0 <= a + shift && a <= b <= |w| && b + shift <= |w'|
    && (forall i: nat, x: Anchor | a <= i <= b :: Holds(d, x, w, i) == Holds(d', x, w', i + shift))
    && (forall i: nat, x: Atom | a <= i < b :: AtomAccepts(d, x, w[i]) == AtomAccepts(d', x, w'[i + shift]))
  }

  lemma LikeBack(d: Dialect, w: seq<CodePoint>, d': Dialect, w': seq<CodePoint>, a: nat, b: nat, shift: int)
    requires Like(d, w, d', w', a, b, shift)
    ensures Like(d', w', d, w, a + shift, b + shift, -shift)
  {
    hide Holds, AtomAccepts;
    forall i: nat, x: Anchor | a + shift <= i <= b + shift
      ensures Holds(d', x, w', i) == Holds(d, x, w, i - shift)
    {
      assert Holds(d, x, w, i - shift) == Holds(d', x, w', i - shift + shift);
    }
    forall i: nat, x: Atom | a + shift <= i < b + shift
      ensures AtomAccepts(d', x, w'[i]) == AtomAccepts(d, x, w[i - shift])
    {
      assert AtomAccepts(d, x, w[i - shift]) == AtomAccepts(d', x, w'[i - shift + shift]);
    }
  }

  lemma {:induction false} Carried(d: Dialect, w: seq<CodePoint>, d': Dialect, w': seq<CodePoint>, a: nat, b: nat,
                                   shift: int, r: Regex, i: nat, j: nat)
    requires Like(d, w, d', w', a, b, shift) && a <= i <= j <= b && Matches(d, r, w, i, j)
    ensures Matches(d', r, w', i + shift, j + shift)
    decreases r, 0
  {
    hide Holds, AtomAccepts;
    match r
    case Empty =>
    case One(x) =>
      assert AtomAccepts(d, x, w[i]) == AtomAccepts(d', x, w'[i + shift]);
    case Assert(x) =>
      assert Holds(d, x, w, i) == Holds(d', x, w', i + shift);
    case Cat(x, y) =>
      var k := CatSplit(d, x, y, w, i, j);
      MatchInside(d, x, w, i, k);
      MatchInside(d, y, w, k, j);
      hide Like;
      Carried(d, w, d', w', a, b, shift, x, i, k);
      Carried(d, w, d', w', a, b, shift, y, k, j);
    case Alt(x, y) =>
      hide Like;
      if Matches(d, x, w, i, j) {
        Carried(d, w, d', w', a, b, shift, x, i, j);
      } else {
        Carried(d, w, d', w', a, b, shift, y, i, j);
      }
    case Repeat(x, least, most) =>
      var n := RepeatSplit(d, x, least, most, w, i, j);
      CarriedTimes(d, w, d', w', a, b, shift, x, n, i, j);
  }

  lemma {:induction false} CarriedTimes(d: Dialect, w: seq<CodePoint>, d': Dialect, w': seq<CodePoint>, a: nat, b: nat,
                                        shift: int, r: Regex, n: nat, i: nat, j: nat)
    requires Like(d, w, d', w', a, b, shift) && a <= i <= j <= b && Times(d, r, n, w, i, j)
    ensures Times(d', r, n, w', i + shift, j + shift)
    decreases r, n + 1
  {
    hide Holds, AtomAccepts;
    if n > 0 {
      var k := TimesFirst(d, r, n, w, i, j);
      MatchInside(d, r, w, i, k);
      TimesInside(d, r, n - 1, w, k, j);
      hide Like, Matches;
      Carried(d, w, d', w', a, b, shift, r, i, k);
      CarriedTimes(d, w, d', w', a, b, shift, r, n - 1, k, j);
    }
  }

  /** Pieces that look alike match the same expressions. */
  lemma LikeMatches(d: Dialect, w: seq<CodePoint>, d': Dialect, w': seq<CodePoint>, a: nat, b: nat, shift: int,
                    r: Regex, i: nat, j: nat)
    requires Like(d, w, d', w', a, b, shift) && a <= i <= j <= b
    ensures Matches(d, r, w, i, j) <==> Matches(d', r, w', i + shift, j + shift)
  {
    hide Holds, AtomAccepts, Matches;
    if Matches(d, r, w, i, j) { Carried(d, w, d', w', a, b, shift, r, i, j); }
    if Matches(d', r, w', i + shift, j + shift) {
      LikeBack(d, w, d', w', a, b, shift);
      hide Like;
      Carried(d', w', d, w, a + shift, b + shift, -shift, r, i + shift, j + shift);
    }
  }

  // ----- No match crosses a line break -----

  lemma {:induction false} NoneCrosses(d: Dialect, r: Regex, w: seq<CodePoint>, i: nat, j: nat, m: nat)
    requires Matches(d, r, w, i, j) && i <= m < j && m < |w|
    ensures !d.Separates(w[m])
    decreases r, 0
  {
    match r
    case Empty =>
    case One(_) =>
    case Assert(_) =>
    case Cat(a, b) =>
      var k := CatSplit(d, a, b, w, i, j);
      if m < k { NoneCrosses(d, a, w, i, k, m); } else { NoneCrosses(d, b, w, k, j, m); }
    case Alt(a, b) =>
      if Matches(d, a, w, i, j) { NoneCrosses(d, a, w, i, j, m); } else { NoneCrosses(d, b, w, i, j, m); }
    case Repeat(b, least, most) =>
      var n := RepeatSplit(d, b, least, most, w, i, j);
      TimesCross(d, b, n, w, i, j, m);
  }

  lemma {:induction false} TimesCross(d: Dialect, r: Regex, n: nat, w: seq<CodePoint>, i: nat, j: nat, m: nat)
    requires Times(d, r, n, w, i, j) && i <= m < j && m < |w|
    ensures !d.Separates(w[m])
    decreases r, n + 1
  {
    if n > 0 {
      var k := TimesFirst(d, r, n, w, i, j);
      if m < k { NoneCrosses(d, r, w, i, k, m); } else { TimesCross(d, r, n - 1, w, k, j, m); }
    }
  }

  // ----- Lines in the order of the scan -----

  /** Token `k` of the scan. */
  function Scanned(q: Quest, k: nat): CodePoint
    requires k < |q.text|
  {
    if q.reverse then q.text[|q.text| - 1 - k] else q.text[k]
  }

  /** How many tokens from `k` on the scan meets before a newline. */
  function LineEndFrom(q: Quest, k: nat): (e: nat)
    requires k <= |q.text|
    ensures k <= e <= |q.text| && (e < |q.text| ==> Scanned(q, e) == NEWLINE)
    ensures forall i: nat | k <= i < e :: Scanned(q, i) != NEWLINE
    decreases |q.text| - k
  {
    if k == |q.text| || Scanned(q, k) == NEWLINE then k else LineEndFrom(q, k + 1)
  }

  /** The first line the scan meets, as a text of its own in which a newline would be nothing special. */
  function FirstLine(q: Quest): (l: Quest)
    ensures |l.text| == LineEndFrom(q, 0)
  {
    var k, n := LineEndFrom(q, 0), |q.text|;
    q.(d := q.d.(lines := false), text := if q.reverse then q.text[n - k..] else q.text[..k])
  }

  /** What the scan meets after the newline behind the first line. */
  function OtherLines(q: Quest): (l: Quest)
    requires LineEndFrom(q, 0) < |q.text|
    ensures |l.text| == |q.text| - LineEndFrom(q, 0) - 1
  {
    var k, n := LineEndFrom(q, 0), |q.text|;
    q.(text := if q.reverse then q.text[..n - k - 1] else q.text[k + 1..])
  }

  function Moved(found: seq<Piece>, offset: nat): (r: seq<Piece>)
    ensures |r| == |found|
  {
    seq(|found|, k requires 0 <= k < |found| => Piece(found[k].start + offset, found[k].end + offset))
  }

  /** The matches of one line after the other, each line searched as a text of its own. */
  ghost function Linewise(q: Quest): seq<Piece>
    decreases |q.text|
  {
    var k := LineEndFrom(q, 0);
    FirstLine(q).Results(0) + if k < |q.text| then Moved(Linewise(OtherLines(q)), k + 1) else []
  }

  /** Newlines separate lines, and are no word characters. */
  predicate ByLines(q: Quest) {
    q.d.lines && !q.d.IsWord(NEWLINE)
  }

  /** `w[a..b]` lies between separators, or at an end of `w`. */
  predicate Delimited(d: Dialect, w: seq<CodePoint>, a: nat, b: nat) {
    a <= b <= |w| && (a == 0 || d.Separates(w[a - 1])) && (b == |w| || d.Separates(w[b]))
  }

  /** Some of the lines look alone as they do in the whole text, and so does one line without the mode. */
  lemma PieceIsLike(d: Dialect, w: seq<CodePoint>, a: nat, b: nat, lines: bool)
    requires d.lines && !d.IsWord(NEWLINE) && Delimited(d, w, a, b)
    requires !lines ==> forall i | a <= i < b :: w[i] != NEWLINE
    ensures Like(d, w, d.(lines := lines), w[a..b], a, b, 0 - a)
  {
    hide Holds, AtomAccepts;
    var d', w' := d.(lines := lines), w[a..b];
    forall i: nat, x: Anchor | a <= i <= b
      ensures Holds(d, x, w, i) == Holds(d', x, w', i - a)
    {
      AnchorLike(d, w, a, b, lines, i, x);
    }
    forall i: nat, x: Atom | a <= i < b
      ensures AtomAccepts(d, x, w[i]) == AtomAccepts(d', x, w'[i - a])
    {
      AtomLike(d, lines, w[i], x);
    }
  }

  lemma AnchorLike(d: Dialect, w: seq<CodePoint>, a: nat, b: nat, lines: bool, i: nat, x: Anchor)
    requires d.lines && !d.IsWord(NEWLINE) && Delimited(d, w, a, b) && a <= i <= b
    requires !lines ==> forall i | a <= i < b :: w[i] != NEWLINE
    ensures Holds(d, x, w, i) == Holds(d.(lines := lines), x, w[a..b], i - a)
  {
    var w' := w[a..b];
    if a < i { assert w'[i - a - 1] == w[i - 1]; }
    if i < b { assert w'[i - a] == w[i]; }
  }

  lemma AtomLike(d: Dialect, lines: bool, cp: CodePoint, x: Atom)
    requires d.lines && (!lines ==> cp != NEWLINE)
    ensures AtomAccepts(d, x, cp) == AtomAccepts(d.(lines := lines), x, cp)
  {
  }

  lemma LineForward(q: Quest, k: nat)
    requires ByLines(q) && !q.reverse && k == LineEndFrom(q, 0)
    ensures Like(q.d, q.text, FirstLine(q).d, FirstLine(q).text, 0, k, 0)
  {
    hide Like, Dialect.IsWord;
    assert forall i: nat | i < k :: Scanned(q, i) == q.text[i];
    assert k < |q.text| ==> Scanned(q, k) == q.text[k];
    PieceIsLike(q.d, q.text, 0, k, false);
    assert q.text[0..k] == q.text[..k];
  }

  lemma BeyondForward(q: Quest, k: nat)
    requires ByLines(q) && !q.reverse && k == LineEndFrom(q, 0) < |q.text|
    ensures Like(q.d, q.text, q.d, OtherLines(q).text, k + 1, |q.text|, 0 - (k + 1))
  {
    hide Like, Dialect.IsWord;
    assert Scanned(q, k) == q.text[k];
    PieceIsLike(q.d, q.text, k + 1, |q.text|, true);
    assert q.text[k + 1..|q.text|] == q.text[k + 1..];
  }

  lemma LineBackward(q: Quest, k: nat)
    requires ByLines(q) && q.reverse && k == LineEndFrom(q, 0)
    ensures var n := |q.text|; Like(q.d, q.text, FirstLine(q).d, FirstLine(q).text, n - k, n, k - n)
  {
    hide Like, Dialect.IsWord, Scanned, Delimited, LineEndFrom;
    var n := |q.text|;
    LastLine(q, k);
    PieceIsLike(q.d, q.text, n - k, n, false);
    assert q.text[n - k..n] == q.text[n - k..];
  }

  /** The line a backward scan meets first is the last one of the text. */
  lemma LastLine(q: Quest, k: nat)
    requires ByLines(q) && q.reverse && k == LineEndFrom(q, 0)
    ensures var n := |q.text|; Delimited(q.d, q.text, n - k, n) && forall i | n - k <= i < n :: q.text[i] != NEWLINE
  {
    var n := |q.text|;
    forall i: nat | n - k <= i < n
      ensures q.text[i] != NEWLINE
    {
      assert Scanned(q, n - 1 - i) == q.text[i];
    }
    if k < n { assert Scanned(q, k) == q.text[n - 1 - k]; }
  }

  lemma BeyondBackward(q: Quest, k: nat)
    requires ByLines(q) && q.reverse && k == LineEndFrom(q, 0) < |q.text|
    ensures Like(q.d, q.text, q.d, OtherLines(q).text, 0, |q.text| - k - 1, 0)
  {
    hide Like, Dialect.IsWord;
    var n := |q.text|;
    assert Scanned(q, k) == q.text[n - 1 - k];
    PieceIsLike(q.d, q.text, 0, n - k - 1, true);
    assert q.text[0..n - k - 1] == q.text[..n - k - 1];
  }

  /** A match that starts in the first line is one of that line. */
  lemma HitInLine(q: Quest, s: nat, e: nat)
    requires ByLines(q) && s <= LineEndFrom(q, 0)
    ensures q.Hit(s, e) <==> FirstLine(q).Hit(s, e)
  {
    hide Holds, AtomAccepts, Matches, Like;
    var k, n := LineEndFrom(q, 0), |q.text|;
    if s <= e <= n && e > k {
      assert Scanned(q, k) == NEWLINE;
      if q.reverse {
        if q.Hit(s, e) { NoneCrosses(q.d, q.r, q.text, n - e, n - s, n - k - 1); }
      } else {
        if q.Hit(s, e) { NoneCrosses(q.d, q.r, q.text, s, e, k); }
      }
    } else if s <= e <= k {
      if q.reverse {
        LineBackward(q, k);
        LikeMatches(q.d, q.text, FirstLine(q).d, FirstLine(q).text, n - k, n, k - n, q.r, n - e, n - s);
      } else {
        LineForward(q, k);
        LikeMatches(q.d, q.text, FirstLine(q).d, FirstLine(q).text, 0, k, 0, q.r, s, e);
      }
    }
  }

  /** A match that starts behind the first line is one of the other lines. */
  lemma HitBeyond(q: Quest, s: nat, e: nat)
    requires ByLines(q) && LineEndFrom(q, 0) < |q.text|
    ensures var k := LineEndFrom(q, 0); q.Hit(s + k + 1, e + k + 1) <==> OtherLines(q).Hit(s, e)
  {
    hide Holds, AtomAccepts, Matches, Like, ByLines;
    var k, n := LineEndFrom(q, 0), |q.text|;
    var o := OtherLines(q);
    assert |o.text| == n - k - 1;
    if s <= e <= n - k - 1 {
      if q.reverse {
        BeyondBackward(q, k);
        var a, b := |o.text| - e, |o.text| - s;
        LikeMatches(q.d, q.text, q.d, o.text, 0, n - k - 1, 0, q.r, a, b);
        assert a == n - (e + k + 1) && b == n - (s + k + 1);
      } else {
        BeyondForward(q, k);
        var a, b := s + k + 1, e + k + 1;
        var shift: int := s - a;
        LikeMatches(q.d, q.text, q.d, o.text, k + 1, n, shift, q.r, a, b);
        assert a + shift == s && b + shift == e;
      }
    }
  }

  lemma NextBeyond(q: Quest, base: nat, p: Piece)
    requires ByLines(q) && LineEndFrom(q, 0) < |q.text|
    ensures var k := LineEndFrom(q, 0);
            OtherLines(q).Next(base, p) <==> q.Next(base + k + 1, Piece(p.start + k + 1, p.end + k + 1))
  {
    hide Quest.Hit, OtherLines, ByLines;
    var k, o := LineEndFrom(q, 0), OtherLines(q);
    HitBeyond(q, p.start, p.end);
    if o.Next(base, p) {
      forall s: nat, e: nat | base + k + 1 <= s && q.Hit(s, e)
        ensures p.start + k + 1 < s || (p.start + k + 1 == s && e <= p.end + k + 1)
      {
        assert s <= e by { HitOrdered(q, s, e); }
        HitBeyond(q, s - k - 1, e - k - 1);
      }
    }
    if q.Next(base + k + 1, Piece(p.start + k + 1, p.end + k + 1)) {
      forall s: nat, e: nat | base <= s && o.Hit(s, e)
        ensures p.start < s || (p.start == s && e <= p.end)
      {
        HitBeyond(q, s, e);
      }
    }
  }

  lemma NextInside(q: Quest, base: nat, p: Piece)
    requires q.Next(base, p)
    ensures base <= p.start <= p.end <= |q.text|
  {
  }

  lemma NoResults(q: Quest, base: nat)
    requires forall p: Piece :: !q.Next(base, p)
    ensures q.Results(base) == []
  {
  }

  lemma HitOrdered(q: Quest, s: nat, e: nat)
    requires q.Hit(s, e)
    ensures s <= e <= |q.text|
  {
  }

  lemma NoneBeyond(q: Quest, base: nat)
    requires ByLines(q) && LineEndFrom(q, 0) < |q.text| && forall p: Piece :: !OtherLines(q).Next(base, p)
    ensures q.Results(base + LineEndFrom(q, 0) + 1) == []
  {
    var k := LineEndFrom(q, 0);
    var from := base + k + 1;
    if p: Piece :| q.Next(from, p) {
      HitOrdered(q, p.start, p.end);
      NextBeyond(q, base, Piece(p.start - k - 1, p.end - k - 1));
    }
  }

  /** Behind the first line the results are those of the other lines. */
  lemma {:induction false} ResultsBeyond(q: Quest, base: nat)
    requires ByLines(q) && LineEndFrom(q, 0) < |q.text|
    ensures var k := LineEndFrom(q, 0); q.Results(base + k + 1) == Moved(OtherLines(q).Results(base), k + 1)
    decreases Gap(base, |q.text| + 1)
  {
    hide Quest.Hit, Quest.Next, Quest.Results, OtherLines, ByLines;
    var k, o := LineEndFrom(q, 0), OtherLines(q);
    if p: Piece :| o.Next(base, p) {
      var p' := Piece(p.start + k + 1, p.end + k + 1);
      NextBeyond(q, base, p);
      NextInside(o, base, p);
      o.ResultsStep(base, p);
      q.ResultsStep(base + k + 1, p');
      ResultsBeyond(q, ResumeAt(p));
      assert ResumeAt(p') == ResumeAt(p) + k + 1;
      assert Moved([p] + o.Results(ResumeAt(p)), k + 1) == [p'] + Moved(o.Results(ResumeAt(p)), k + 1);
    } else {
      NoneBeyond(q, base);
      NoResults(o, base);
    }
  }

  /** The next match is that of the first line if it has one left. */
  lemma NextInLine(q: Quest, base: nat, p: Piece)
    requires ByLines(q) && base <= LineEndFrom(q, 0) && FirstLine(q).Next(base, p)
    ensures q.Next(base, p) && ResumeAt(p) <= LineEndFrom(q, 0) + 1
  {
    hide Quest.Hit;
    var l, k := FirstLine(q), LineEndFrom(q, 0);
    HitOrdered(l, p.start, p.end);
    HitInLine(q, p.start, p.end);
    forall s: nat, e: nat | base <= s && q.Hit(s, e)
      ensures p.start < s || (p.start == s && e <= p.end)
    {
      if s <= k { HitInLine(q, s, e); }
    }
  }

  /** A line with no match left hides nothing that follows it. */
  lemma LineOver(q: Quest, base: nat)
    requires ByLines(q) && base <= LineEndFrom(q, 0) && forall p: Piece :: !FirstLine(q).Next(base, p)
    ensures q.Results(base) == q.Results(LineEndFrom(q, 0) + 1)
  {
    hide Quest.Hit;
    var l, k := FirstLine(q), LineEndFrom(q, 0);
    forall s: nat, e: nat | base <= s && q.Hit(s, e)
      ensures k + 1 <= s
    {
      if s <= k {
        HitInLine(q, s, e);
        var p := l.NextExists(base, s, e);
      }
    }
    var from := k + 1;
    if p: Piece :| q.Next(base, p) {
      q.ResultsStep(base, p);
      q.ResultsStep(from, p);
    } else {
      assert forall p: Piece | q.Next(from, p) :: q.Next(base, p);
    }
  }

  /** Up to the end of the first line the results are that line's, and then those of the rest. */
  lemma {:induction false} ResultsFrom(q: Quest, base: nat)
    requires ByLines(q) && base <= LineEndFrom(q, 0) + 1
    ensures q.Results(base) == FirstLine(q).Results(base) + q.Results(LineEndFrom(q, 0) + 1)
    decreases Gap(base, |q.text| + 2)
  {
    hide Quest.Hit, Quest.Next, Quest.Results, FirstLine, ByLines;
    var l, k := FirstLine(q), LineEndFrom(q, 0);
    if base == k + 1 {
      NothingBeyond(l, base);
    } else if p: Piece :| l.Next(base, p) {
      NextInLine(q, base, p);
      NextInside(l, base, p);
      l.ResultsStep(base, p);
      q.ResultsStep(base, p);
      ResultsFrom(q, ResumeAt(p));
    } else {
      LineOver(q, base);
      NoResults(l, base);
    }
  }

  lemma NothingBeyond(q: Quest, base: nat)
    requires base > |q.text|
    ensures q.Results(base) == []
  {
  }

  lemma OthersByLines(q: Quest)
    requires ByLines(q) && LineEndFrom(q, 0) < |q.text|
    ensures ByLines(OtherLines(q))
  {
  }

  /** Where newlines separate texts, each line is searched as a text of its own: its ends are the only text ends
      an expression sees there, no match crosses them, and the results are the lines' in the order of the scan. */
  lemma {:induction false} ResultsLinewise(q: Quest)
    requires ByLines(q)
    ensures q.Results(0) == Linewise(q)
    decreases |q.text|
  {
    hide ByLines, Quest.Results, Quest.Next, Quest.Hit, FirstLine, OtherLines, Moved;
    var k := LineEndFrom(q, 0);
    ResultsFrom(q, 0);
    if k < |q.text| {
      ResultsBeyond(q, 0);
      OthersByLines(q);
      ResultsLinewise(OtherLines(q));
    } else {
      NothingBeyond(q, k + 1);
    }
  }
}
