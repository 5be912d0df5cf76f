/** Where each motion and each selection over retained rows is to end. */
module NavGoals {
  import opened Common
  import opened Rows
  import opened NavGrid

  /** The deepest nesting a bracket motion can count. */
  const DEPTH_MAX := 0xffffffff

  predicate Inked(cp: CodePoint) {
    cp != 0 && cp != BLANK && cp != TAB
  }

  /** Characters that separate semantic words; an empty cell always does. */
  predicate Stops(stops: CodePoint -> bool, cp: CodePoint) {
    cp == 0 || stops(cp)
  }

  /** 0 for a blank, 2 for a delimiter of semantic words, which is a token of its own, else 1. */
  function Kind(cp: CodePoint, semantic: bool, stops: CodePoint -> bool): nat {
    if !Inked(cp) then 0 else if semantic && Stops(stops, cp) then 2 else 1
  }

  /** The bracket that matches a bracket, and whether it lies before it. */
  datatype Partner = Partner(peer: CodePoint, before: bool)

  function PartnerOf(cp: CodePoint): Option<Partner> {
    if cp == '(' as int then Some(Partner(')' as int, false))
    else if cp == ')' as int then Some(Partner('(' as int, true))
    else if cp == '[' as int then Some(Partner(']' as int, false))
    else if cp == ']' as int then Some(Partner('[' as int, true))
    else if cp == '{' as int then Some(Partner('}' as int, false))
    else if cp == '}' as int then Some(Partner('{' as int, true))
    else if cp == '<' as int then Some(Partner('>' as int, false))
    else if cp == '>' as int then Some(Partner('<' as int, true))
    else None
  }

  // ----- Goals along a walk -----

  /** What a walk looks for: a character, a word's first or last cell, a delimiter, or where nesting balances. */
  datatype Goal =
    | Char(cp: CodePoint)
    | Start(semantic: bool, stops: CodePoint -> bool)
    | End(semantic: bool, stops: CodePoint -> bool)
    | Delimiter(stops: CodePoint -> bool)
    | Balance(open: CodePoint, peer: CodePoint)

  ghost predicate Met(w: Walk, o: Cursor, goal: Goal, k: nat)
    requires w.g.Placed(o)
  {
    && k > 0 && w.Nth(o, k).Some?
    && var q := w.Nth(o, k).value;
       match goal
       case Char(cp) => (if w.g.CpAt(q) == 0 then BLANK else w.g.CpAt(q)) == cp
       case Start(semantic, stops) => w.Nth(o, k - 1).Some? && Starts(w, w.Nth(o, k - 1).value, q, semantic, stops)
       case End(semantic, stops) => Ends(w, q, semantic, stops)
       case Delimiter(stops) => Stops(stops, w.g.CpAt(q))
       case Balance(open, peer) => w.Count(o, k, peer) > w.Count(o, k, open)
  }

  /** A word begins at `q`, the position after `p`. */
  predicate Starts(w: Walk, p: Cursor, q: Cursor, semantic: bool, stops: CodePoint -> bool)
    requires w.g.Placed(p) && w.g.Placed(q)
  {
    var a, b := Kind(w.g.CpAt(p), semantic, stops), Kind(w.g.CpAt(q), semantic, stops);
    b != 0 && (a == 2 || a != b || w.Move(p).boundary == 2)
  }

  /** A word ends at `q`: no further cell of it follows in the direction of the walk. */
  predicate Ends(w: Walk, q: Cursor, semantic: bool, stops: CodePoint -> bool)
    requires w.g.Placed(q)
  {
    var a, m := Kind(w.g.CpAt(q), semantic, stops), w.Move(q);
    w.g.MoveMeans(q, w.reverse, w.text);
    a != 0 && (a == 2 || m.boundary != 1 || Kind(w.g.CpAt(m.cursor), semantic, stops) != a)
  }

  ghost predicate FirstMet(w: Walk, o: Cursor, goal: Goal, k: nat)
    requires w.g.Placed(o)
  {
    Met(w, o, goal, k) && forall j: nat | j < k :: !Met(w, o, goal, j)
  }

  /** The walk has come to its position `k`, which is `c`, without meeting the goal. */
  ghost predicate Passed(w: Walk, o: Cursor, goal: Goal, k: nat, c: Cursor)
    requires w.g.Placed(o)
  {
    w.Nth(o, k) == Some(c) && forall j: nat | j <= k :: !Met(w, o, goal, j)
  }

  lemma PassedStart(w: Walk, o: Cursor, goal: Goal)
    requires w.g.Placed(o)
    ensures Passed(w, o, goal, 0, o)
  {
  }

  /** One more move: the goal is met there first, or it is passed; or the walk is over and the goal is never met. */
  lemma PassedMove(w: Walk, o: Cursor, goal: Goal, k: nat, c: Cursor)
    requires w.g.Placed(o) && Passed(w, o, goal, k, c)
    ensures w.g.Placed(c)
    ensures var m := w.Move(c);
            if w.Goes(m) then
              && w.g.Placed(m.cursor) && w.Nth(o, k + 1) == Some(m.cursor)
              && if Met(w, o, goal, k + 1) then FirstMet(w, o, goal, k + 1) else Passed(w, o, goal, k + 1, m.cursor)
            else w.Nth(o, k + 1) == None && forall j: nat :: !Met(w, o, goal, j)
  {
    hide Met;
    w.g.MoveMeans(c, w.reverse, w.text);
    if !w.Goes(w.Move(c)) {
      forall j: nat ensures !Met(w, o, goal, j) {
        if j > k { w.NthEnds(o, k + 1, j); NotMetAfterEnd(w, o, goal, j); }
      }
    }
  }

  lemma NotMetAfterEnd(w: Walk, o: Cursor, goal: Goal, k: nat)
    requires w.g.Placed(o) && w.Nth(o, k) == None
    ensures !Met(w, o, goal, k)
  {
  }

  // ----- Answers -----

  /** Nesting gets deeper than can be counted within the first `k` positions. */
  ghost predicate Deep(w: Walk, o: Cursor, open: CodePoint, peer: CodePoint, k: nat)
    requires w.g.Placed(o)
  {
    exists j: nat | j <= k :: w.Count(o, j, open) > w.Count(o, j, peer) + DEPTH_MAX
  }

  ghost predicate Matches(g: Grid, o: Cursor, k: nat)
    requires g.Placed(o)
  {
    var open := g.CpAt(o);
    && PartnerOf(open).Some?
    && var p, w := PartnerOf(open).value, Walk(g, true, PartnerOf(open).value.before);
       FirstMet(w, o, Balance(open, p.peer), k) && !Deep(w, o, open, p.peer, k)
  }

  ghost function MatchAt(g: Grid, o: Cursor, k: nat): Cursor
    requires g.Placed(o) && Matches(g, o, k)
  {
    Walk(g, true, PartnerOf(g.CpAt(o)).value.before).Nth(o, k).value
  }

  /** The first position where the nesting that begins at the cursor balances; else the cursor stays. */
  ghost predicate BracketAnswer(g: Grid, o: Cursor, f: Cursor)
    requires g.Placed(o)
  {
    if exists k: nat :: Matches(g, o, k) then exists k: nat :: Matches(g, o, k) && f == MatchAt(g, o, k) else f == o
  }

  /** Where an inline find that stops short leaves the cursor. */
  function Short(w: Walk, before: Cursor, found: Cursor): Cursor
    requires w.g.Placed(found)
  {
    if !w.reverse then before
    else if w.g.Cp(found.line, found.column + 1) == WIDE_CONT then w.g.Clamp(found)
    else w.g.GridAdvance(found, false).cursor
  }

  /** The nearest cell of the logical line with a character; else the cursor stays. */
  ghost predicate FindAnswer(w: Walk, o: Cursor, cp: CodePoint, short: bool, f: Cursor)
    requires w.g.Placed(o)
  {
    if exists k: nat :: FirstMet(w, o, Char(cp), k) then
      exists k: nat :: FirstMet(w, o, Char(cp), k) && w.Nth(o, k - 1).Some?
                       && f == if short then Short(w, w.Nth(o, k - 1).value, w.Nth(o, k).value) else w.Nth(o, k).value
    else f == o
  }

  /** The nearest position that meets the goal; else where the text ends. */
  ghost predicate WordAnswer(w: Walk, o: Cursor, goal: Goal, f: Cursor)
    requires w.g.Placed(o)
  {
    if exists k: nat :: FirstMet(w, o, goal, k) then exists k: nat :: FirstMet(w, o, goal, k) && w.Nth(o, k) == Some(f)
    else exists k: nat :: w.Nth(o, k).Some? && w.Nth(o, k + 1) == None && f == w.Move(w.Nth(o, k).value).cursor
  }

  /** Row `s` begins the logical line of row `l`. */
  predicate LineStart(g: Grid, l: nat, s: nat)
    requires l < |g.rows|
  {
    s <= l && (forall x | s <= x < l :: !g.rows[x].Hard()) && (s == 0 || g.rows[s - 1].Hard())
  }

  /** Row `e` ends the logical line of row `l`. */
  predicate LineEnd(g: Grid, l: nat, e: nat) {
    l <= e < |g.rows| && (forall x | l <= x < e :: !g.rows[x].Hard()) && (e + 1 == |g.rows| || g.rows[e].Hard())
  }

  /** One cell to the side, within the logical line. */
  predicate Beside(g: Grid, o: Cursor, reverse: bool, f: Cursor)
    requires g.Placed(o)
  {
    var m := g.GridAdvance(o, reverse);
    g.MoveMeans(o, reverse, false);
    f == g.Clamp(if m.boundary == 1 then m.cursor else o)
  }

  /** From the first column `0` goes to the beginning of the logical line, else to the first column. */
  ghost predicate FirstAnswer(g: Grid, o: Cursor, f: Cursor)
    requires g.Placed(o)
  {
    f.column == 0 && if o.column > 0 then f.line == o.line else LineStart(g, o.line, f.line)
  }

  /** Column `x` is the last of the first `n` that is occupied. */
  ghost predicate LastInked(g: Grid, line: nat, n: nat, x: Option<nat>)
    requires line < |g.rows|
  {
    match x
    case Some(c) => c < n && Inked(g.Cp(line, c)) && forall k | c < k < n :: !Inked(g.Cp(line, k))
    case None => forall k | 0 <= k < n :: !Inked(g.Cp(line, k))
  }

  /** The text of a row has no occupied cell from column `n` on. */
  ghost predicate BlankFrom(g: Grid, line: nat, n: nat)
    requires line < |g.rows|
  {
    forall k | n <= k < g.Columns(line) :: !Inked(g.Cp(line, k))
  }

  ghost predicate FirstInked(g: Grid, line: nat, x: Option<nat>)
    requires line < |g.rows|
  {
    match x
    case Some(c) => c < g.Columns(line) && Inked(g.Cp(line, c)) && forall k | 0 <= k < c :: !Inked(g.Cp(line, k))
    case None => forall k | 0 <= k < g.Columns(line) :: !Inked(g.Cp(line, k))
  }

  function Edge(g: Grid): nat {
    if g.width > 0 then g.width - 1 else 0
  }

  /** The last column of the glyph at the cursor. */
  function GlyphEnd(g: Grid, o: Cursor): nat
    requires o.line < |g.rows|
  {
    if g.Cp(o.line, o.column + 1) == WIDE_CONT then o.column + 1 else o.column
  }

  /** Before the last occupied cell `$` goes there; from the edge of a wrapped row to that of the last row of the
      logical line; else to the edge. */
  ghost predicate LastAnswer(g: Grid, o: Cursor, f: Cursor)
    requires g.Placed(o)
  {
    exists ink :: LastInked(g, o.line, g.Columns(o.line), ink) &&
      var cur := GlyphEnd(g, o);
      if cur < ink.GetOr(0) then f == g.Clamp(o.(column := ink.GetOr(0)))
      else if !g.rows[o.line].Hard() && o.line + 1 < |g.rows| && cur + 1 >= g.GridColumns(o.line)
        then FollowsWrap(g, o.line, cur, f)
      else f == g.Clamp(o.(column := Edge(g)))
  }

  ghost predicate FollowsWrap(g: Grid, line: nat, cur: nat, f: Cursor) {
    exists ink, e :: LineEnd(g, line, e) && LastInked(g, e, g.Columns(e), ink)
      && f == g.Clamp(Cursor(e, e, ink.GetOr(cur)))
  }

  /** From the edge of a wrapped row, at or beyond its last occupied cell, `$` goes on to the end of the logical
      line. */
  ghost predicate WrapEdge(g: Grid, o: Cursor)
    requires g.Placed(o)
  {
    && !g.rows[o.line].Hard() && o.line + 1 < |g.rows| && GlyphEnd(g, o) + 1 >= g.GridColumns(o.line)
    && exists ink :: LastInked(g, o.line, g.Columns(o.line), ink) && !(GlyphEnd(g, o) < ink.GetOr(0))
  }

  lemma LastHere(g: Grid, o: Cursor, ink: Option<nat>)
    requires g.Placed(o) && LastInked(g, o.line, g.Columns(o.line), ink)
    ensures GlyphEnd(g, o) < ink.GetOr(0) ==> LastAnswer(g, o, g.Clamp(o.(column := ink.GetOr(0))))
    ensures !(GlyphEnd(g, o) < ink.GetOr(0)) && !WrapEdge(g, o) ==> LastAnswer(g, o, g.Clamp(o.(column := Edge(g))))
  {
    hide LastInked, Grid.Clamp, Grid.Columns, Grid.GridColumns;
  }

  lemma LastFar(g: Grid, o: Cursor, e: nat, ink: Option<nat>)
    requires g.Placed(o) && WrapEdge(g, o) && LineEnd(g, o.line, e) && LastInked(g, e, g.Columns(e), ink)
    ensures LastAnswer(g, o, g.Clamp(Cursor(e, e, ink.GetOr(GlyphEnd(g, o)))))
  {
    hide LastInked, LineEnd, Grid.Clamp, Grid.Columns, Grid.GridColumns;
  }

  /** `^` goes to the first occupied cell; from there to the first one of the earliest occupied row before it in the
      logical line, or, when there is none, on through blank wrapped rows. */
  ghost predicate OccupiedAnswer(g: Grid, o: Cursor, f: Cursor)
    requires g.Placed(o)
  {
    exists ink :: FirstInked(g, o.line, ink) &&
      if o.column != ink.GetOr(Edge(g)) then f == g.Clamp(o.(column := ink.GetOr(Edge(g))))
      else exists s: nat :: LineStart(g, o.line, s) && FollowsBack(g, s, o.line, f)
  }

  ghost predicate FollowsBack(g: Grid, s: nat, line: nat, f: Cursor)
    requires s <= line < |g.rows|
  {
    if forall x | s <= x < line :: FirstInked(g, x, None) then OnThroughBlank(g, line, f)
      else EarliestInked(g, s, line, f)
  }

  ghost predicate EarliestInked(g: Grid, s: nat, line: nat, f: Cursor)
    requires line <= |g.rows|
  {
    && s <= f.line < line && f.row == f.line && FirstInked(g, f.line, Some(f.column))
    && forall x | s <= x < f.line :: FirstInked(g, x, None)
  }

  ghost predicate OnThroughBlank(g: Grid, line: nat, f: Cursor) {
    exists ink, e :: line <= e < |g.rows| && FirstInked(g, e, ink) && f == g.Clamp(Cursor(e, e, ink.GetOr(Edge(g))))
      && (forall x | line <= x < e :: !g.rows[x].Hard() && FirstInked(g, x, None))
      && (ink.Some? || g.rows[e].Hard() || e + 1 == |g.rows|)
  }

  predicate BlankBefore(g: Grid, line: nat, n: nat)
    requires line < |g.rows|
  {
    n <= g.Columns(line) && forall k | 0 <= k < n :: !Inked(g.Cp(line, k))
  }

  /** Rows `a..b` wrap. */
  predicate AllWrap(g: Grid, a: nat, b: nat) {
    b <= |g.rows| && forall x | a <= x < b :: !g.rows[x].Hard()
  }

  /** What has been found in rows `s..line`: the first occupied cell of the topmost row that has one. */
  ghost predicate Kept(g: Grid, s: nat, line: nat, c: Option<Cursor>)
    requires line <= |g.rows|
  {
    match c
    case None => forall x | s <= x < line :: FirstInked(g, x, None)
    case Some(f) => EarliestInked(g, s, line, f)
  }

  /** The cursor is on the first occupied cell already, or at the edge of a blank row. */
  ghost predicate Repeats(g: Grid, o: Cursor)
    requires g.Placed(o)
  {
    exists ink :: FirstInked(g, o.line, ink) && o.column == ink.GetOr(Edge(g))
  }

  /** The logical line has no occupied row before row `line`. */
  ghost predicate NoneBack(g: Grid, line: nat)
    requires line < |g.rows|
  {
    exists s: nat :: LineStart(g, line, s) && forall x | s <= x < line :: FirstInked(g, x, None)
  }

  lemma RepeatsHere(g: Grid, o: Cursor, ink: Option<nat>)
    requires g.Placed(o) && FirstInked(g, o.line, ink) && o.column == ink.GetOr(Edge(g))
    ensures Repeats(g, o) && Kept(g, o.line, o.line, None) && AllWrap(g, o.line, o.line)
  {
  }

  lemma KeptMore(g: Grid, l: nat, line: nat, c: Option<Cursor>, ink: Option<nat>)
    requires l < line <= |g.rows| && Kept(g, l + 1, line, c) && FirstInked(g, l, ink)
    ensures Kept(g, l, line, if ink.Some? then Some(Cursor(l, l, ink.value)) else c)
  {
    hide FirstInked;
  }

  lemma OccupiedHere(g: Grid, o: Cursor, ink: Option<nat>)
    requires g.Placed(o) && FirstInked(g, o.line, ink) && o.column != ink.GetOr(Edge(g))
    ensures OccupiedAnswer(g, o, g.Clamp(o.(column := ink.GetOr(Edge(g)))))
  {
    hide FirstInked, Grid.Clamp;
  }

  lemma OccupiedBack(g: Grid, o: Cursor, s: nat, f: Cursor)
    requires g.Placed(o) && Repeats(g, o) && LineStart(g, o.line, s) && EarliestInked(g, s, o.line, f)
    ensures OccupiedAnswer(g, o, f)
  {
    InkedNotNone(g, f.line, f.column);
    hide FirstInked, LineStart, Grid.Clamp;
    assert FollowsBack(g, s, o.line, f);
    var ink :| FirstInked(g, o.line, ink) && o.column == ink.GetOr(Edge(g));
  }

  lemma InkedNotNone(g: Grid, line: nat, c: nat)
    requires line < |g.rows| && FirstInked(g, line, Some(c))
    ensures !FirstInked(g, line, None)
  {
  }

  lemma OccupiedOn(g: Grid, o: Cursor, e: nat, ink: Option<nat>)
    requires g.Placed(o) && Repeats(g, o) && NoneBack(g, o.line) && o.line <= e < |g.rows|
    requires AllWrap(g, o.line, e) && Kept(g, o.line, e, None) && FirstInked(g, e, ink)
    requires ink.Some? || g.rows[e].Hard() || e + 1 == |g.rows|
    ensures OccupiedAnswer(g, o, g.Clamp(Cursor(e, e, ink.GetOr(Edge(g)))))
  {
    hide FirstInked, LineStart, Grid.Clamp;
    var f := g.Clamp(Cursor(e, e, ink.GetOr(Edge(g))));
    assert OnThroughBlank(g, o.line, f);
    var s: nat :| LineStart(g, o.line, s) && forall x | s <= x < o.line :: FirstInked(g, x, None);
    assert s <= o.line && FollowsBack(g, s, o.line, f) by { StartsBefore(g, o.line, s); }
    var here :| FirstInked(g, o.line, here) && o.column == here.GetOr(Edge(g));
  }

  lemma StartsBefore(g: Grid, l: nat, s: nat)
    requires l < |g.rows| && LineStart(g, l, s)
    ensures s <= l
  {
  }

  /** A cell with something to read on it. */
  predicate Legible(cp: CodePoint) {
    Inked(cp) && cp != WIDE_CONT
  }

  predicate Blank(g: Grid, line: nat)
    requires line < |g.rows|
  {
    forall k | 0 <= k < g.Columns(line) :: !Legible(g.Cp(line, k))
  }

  /** Row `x` lies before row `l` on the way from row `o`. */
  predicate Between(o: nat, l: nat, reverse: bool, x: nat) {
    if reverse then l < x <= o else o <= x < l
  }

  /** A blank row with text between it and where the motion began. */
  ghost predicate StopRow(g: Grid, o: nat, reverse: bool, l: nat)
    requires o < |g.rows| && l < |g.rows|
  {
    Blank(g, l) && exists x: nat :: x < |g.rows| && Between(o, l, reverse, x) && !Blank(g, x)
  }

  /** On the way from row `o` to row `l` there was no row to stop at; `seen` tells whether there was text. */
  ghost predicate Onward(g: Grid, o: nat, up: bool, l: nat, seen: bool)
    requires o < |g.rows|
  {
    && (if up then l <= o else o <= l)
    && (forall x: nat | x < |g.rows| && Between(o, l, up, x) :: !StopRow(g, o, up, x))
    && (seen <==> exists x: nat :: x < |g.rows| && Between(o, l, up, x) && !Blank(g, x))
  }

  lemma OnwardMeans(g: Grid, o: nat, up: bool, l: nat, seen: bool)
    requires o < |g.rows| && l < |g.rows| && Onward(g, o, up, l, seen)
    ensures (if up then l <= o else o <= l) && (seen && Blank(g, l) ==> StopRow(g, o, up, l))
    ensures forall x: nat | x < |g.rows| && Between(o, l, up, x) :: !StopRow(g, o, up, x)
  {
    hide Blank;
  }

  lemma OnwardMove(g: Grid, o: nat, up: bool, l: nat, n: nat, seen: bool)
    requires o < |g.rows| && l < |g.rows| && n < |g.rows| && Onward(g, o, up, l, seen) && !(seen && Blank(g, l))
    requires if up then n + 1 == l else n == l + 1
    ensures Onward(g, o, up, n, seen || !Blank(g, l))
  {
    hide Blank;
    assert forall x: nat :: Between(o, n, up, x) <==> (Between(o, l, up, x) || x == l);
  }

  /** The first blank row after text; else the last row. */
  ghost predicate ParagraphAnswer(g: Grid, o: Cursor, reverse: bool, f: Cursor)
    requires g.Placed(o)
  {
    && g.Placed(f) && f.column == 0 && (if reverse then f.line <= o.line else o.line <= f.line)
    && (StopRow(g, o.line, reverse, f.line) || f.line == (if reverse then 0 else |g.rows| - 1))
    && forall x: nat | x < |g.rows| && Between(o.line, f.line, reverse, x) :: !StopRow(g, o.line, reverse, x)
  }

  /** The first cell of a row with something to read on it, else the first column. */
  ghost predicate ViewAnswer(g: Grid, target: nat, f: Cursor) {
    && g.Placed(f) && f.line == Min(target, |g.rows| - 1)
    && (if Blank(g, f.line) then f.column == 0 else f.column < g.Columns(f.line) && Legible(g.Cp(f.line, f.column)))
    && forall k | 0 <= k < f.column :: !Legible(g.Cp(f.line, k))
  }

  predicate Precedes(a: Cursor, b: Cursor) {
    a.row < b.row || (a.row == b.row && a.column < b.column)
  }

  /** Whole logical lines, from that of the upper end to that of the lower one; the ends keep their columns. */
  ghost predicate LinesAnswer(g: Grid, a: Cursor, b: Cursor, first: Cursor, last: Cursor)
    requires g.Placed(a) && g.Placed(b)
  {
    g.Placed(first) && g.Placed(last) && LineStart(g, Min(a.line, b.line), first.line)
      && LineEnd(g, Max(a.line, b.line), last.line)
      && first.column == (if a.row > b.row then b else a).column
      && last.column == (if a.row > b.row then a else b).column
  }

  /** As far as there is no delimiter and the logical line goes on. */
  ghost predicate Stretched(w: Walk, o: Cursor, stops: CodePoint -> bool, f: Cursor)
    requires w.g.Placed(o)
  {
    exists k: nat :: Passed(w, o, Delimiter(stops), k, f)
      && (w.Nth(o, k + 1) == None || Met(w, o, Delimiter(stops), k + 1))
  }

  function Upper(a: Cursor, b: Cursor): Cursor {
    if Precedes(b, a) then b else a
  }

  function Lower(a: Cursor, b: Cursor): Cursor {
    if Precedes(b, a) then a else b
  }

  /** A single bracket with its partner; else both ends stretched to the delimiters around them. */
  ghost predicate SemanticAnswer(g: Grid, stops: CodePoint -> bool, a: Cursor, b: Cursor, first: Cursor, last: Cursor)
    requires g.Placed(a) && g.Placed(b)
  {
    if a == b && exists k: nat :: Matches(g, b, k) then
      exists k: nat :: Matches(g, b, k) && first == Upper(MatchAt(g, b, k), b) && last == Lower(MatchAt(g, b, k), b)
    else
      && Stretched(Walk(g, false, true), Upper(a, b), stops, first)
      && Stretched(Walk(g, false, false), Lower(a, b), stops, last)
  }

  // ----- Matching brackets -----

  /** The search from bracket `o` has come to its position `k` at nesting depth `depth`. */
  ghost predicate Nested(w: Walk, o: Cursor, open: CodePoint, peer: CodePoint, k: nat, c: Cursor, depth: nat)
    requires w.g.Placed(o)
  {
    && Passed(w, o, Balance(open, peer), k, c) && !Deep(w, o, open, peer, k)
    && w.Count(o, k, open) == w.Count(o, k, peer) + depth
  }

  lemma NestedStart(w: Walk, o: Cursor, open: CodePoint, peer: CodePoint)
    requires w.g.Placed(o)
    ensures Nested(w, o, open, peer, 0, o, 0)
  {
    PassedStart(w, o, Balance(open, peer));
  }

  lemma NestedPassed(w: Walk, o: Cursor, open: CodePoint, peer: CodePoint, k: nat, c: Cursor, depth: nat)
    requires w.g.Placed(o) && Nested(w, o, open, peer, k, c, depth)
    ensures Passed(w, o, Balance(open, peer), k, c)
  {
  }

  lemma DeepMore(w: Walk, o: Cursor, open: CodePoint, peer: CodePoint, k: nat)
    requires w.g.Placed(o)
    ensures Deep(w, o, open, peer, k + 1) <==>
            Deep(w, o, open, peer, k) || w.Count(o, k + 1, open) > w.Count(o, k + 1, peer) + DEPTH_MAX
  {
  }

  lemma {:induction false} DeepStays(w: Walk, o: Cursor, open: CodePoint, peer: CodePoint, j: nat, k: nat)
    requires w.g.Placed(o) && j <= k && Deep(w, o, open, peer, j)
    ensures Deep(w, o, open, peer, k)
  {
  }

  /** What the next position means for the nesting. */
  lemma NestedMove(w: Walk, o: Cursor, open: CodePoint, peer: CodePoint, k: nat, c: Cursor, depth: nat)
    requires w.g.Placed(o) && open != peer && Nested(w, o, open, peer, k, c, depth)
    ensures w.g.Placed(c)
    ensures var m := w.Move(c);
            w.Goes(m) ==>
              && w.g.Placed(m.cursor) && w.Nth(o, k + 1) == Some(m.cursor)
              && if w.g.CpAt(m.cursor) == open then
                   if depth == DEPTH_MAX then !Met(w, o, Balance(open, peer), k + 1) && Deep(w, o, open, peer, k + 1)
                   else Nested(w, o, open, peer, k + 1, m.cursor, depth + 1)
                 else if w.g.CpAt(m.cursor) != peer then Nested(w, o, open, peer, k + 1, m.cursor, depth)
                 else if depth > 0 then Nested(w, o, open, peer, k + 1, m.cursor, depth - 1)
                 else FirstMet(w, o, Balance(open, peer), k + 1) && !Deep(w, o, open, peer, k + 1)
  {
    assert depth <= DEPTH_MAX;
    hide FirstMet, Deep;
    PassedMove(w, o, Balance(open, peer), k, c);
    DeepMore(w, o, open, peer, k);
  }

  /** Nesting too deep to count before it balances: no position is taken for the match. */
  lemma TooDeep(g: Grid, o: Cursor, k: nat)
    requires g.Placed(o) && PartnerOf(g.CpAt(o)).Some?
    requires var open, p := g.CpAt(o), PartnerOf(g.CpAt(o)).value;
             var w := Walk(g, true, p.before);
             Deep(w, o, open, p.peer, k) && forall j: nat | j <= k :: !Met(w, o, Balance(open, p.peer), j)
    ensures forall j: nat :: !Matches(g, o, j)
  {
    hide Deep, Met;
    var open, p := g.CpAt(o), PartnerOf(g.CpAt(o)).value;
    forall j: nat ensures !Matches(g, o, j) {
      if j > k { DeepStays(Walk(g, true, p.before), o, open, p.peer, k, j); }
    }
  }

  // ----- Words -----

  lemma WordFound(w: Walk, o: Cursor, goal: Goal, k: nat, c: Cursor)
    requires w.g.Placed(o) && FirstMet(w, o, goal, k) && w.Nth(o, k) == Some(c)
    ensures WordAnswer(w, o, goal, c)
  {
  }

  lemma WordMissed(w: Walk, o: Cursor, goal: Goal, k: nat, c: Cursor)
    requires w.g.Placed(o) && w.g.Placed(c) && Passed(w, o, goal, k, c) && !w.Goes(w.Move(c))
    ensures WordAnswer(w, o, goal, w.Move(c).cursor)
  {
    PassedMove(w, o, goal, k, c);
  }

  lemma NextMoves(w: Walk, o: Cursor, semantic: bool, stops: CodePoint -> bool, k: nat, c: Cursor)
    requires w.g.Placed(o) && w.g.Placed(c) && Passed(w, o, Start(semantic, stops), k, c) && w.Goes(w.Move(c))
    ensures var q := w.Move(c).cursor;
            && w.g.Placed(q) && w.Nth(o, k + 1) == Some(q)
            && if Starts(w, c, q, semantic, stops) then FirstMet(w, o, Start(semantic, stops), k + 1)
               else Passed(w, o, Start(semantic, stops), k + 1, q)
  {
    PassedMove(w, o, Start(semantic, stops), k, c);
    hide Starts, Passed;
    assert w.Nth(o, k) == Some(c);
  }

  lemma EndHere(w: Walk, o: Cursor, semantic: bool, stops: CodePoint -> bool, k: nat, c: Cursor)
    requires w.g.Placed(o) && k > 0 && w.Nth(o, k) == Some(c)
             && forall j: nat | j < k :: !Met(w, o, End(semantic, stops), j)
    ensures if Ends(w, c, semantic, stops) then FirstMet(w, o, End(semantic, stops), k)
            else Passed(w, o, End(semantic, stops), k, c)
  {
    hide Ends;
  }

  // ----- Selections -----

  /** The answer of a bracket search is where it began just when there is no partner. */
  lemma AnswerSplit(g: Grid, o: Cursor, f: Cursor)
    requires g.Placed(o) && BracketAnswer(g, o, f)
    ensures if f == o then forall k: nat :: !Matches(g, o, k)
            else exists k: nat :: Matches(g, o, k) && f == MatchAt(g, o, k)
  {
    forall k: nat | Matches(g, o, k) ensures MatchAt(g, o, k) != o {
      Walk(g, true, PartnerOf(g.CpAt(o)).value.before).NthNearer(o, k);
    }
  }

  /** A further cell on the way to the delimiter. */
  lemma StretchMove(w: Walk, o: Cursor, stops: CodePoint -> bool, k: nat, c: Cursor)
    requires w.g.Placed(o) && w.g.Placed(c) && !w.text && Passed(w, o, Delimiter(stops), k, c)
    ensures var m := w.Move(c);
            && w.g.Placed(m.cursor)
            && if m.boundary == 1 && !Stops(stops, w.g.CpAt(m.cursor))
               then Passed(w, o, Delimiter(stops), k + 1, m.cursor)
               else Stretched(w, o, stops, c)
  {
    w.g.MoveMeans(c, w.reverse, w.text);
    PassedMove(w, o, Delimiter(stops), k, c);
    hide Passed;
  }
}
