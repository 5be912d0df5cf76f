/** Keyboard navigation: every motion and every selection takes one bounded step per unit of budget. */
module Navigation {
  import opened Common
  import opened Rows
  import opened NavGrid
  import opened NavGoals

  datatype Motion =
    | GoLeft | GoRight | GoUp | GoDown | GoFirst | GoLast | GoTop | GoBottom
    | WordNext | WordEnd | WordPrev | SemanticNext | SemanticEnd | SemanticPrev
    | ParagraphUp | ParagraphDown | Bracket | ViewRow | ToRow | Occupied | Find

  datatype Mode = Cells | Lines | Block | Semantic

  class Navigator {
    const g: Grid
    const stops: CodePoint -> bool
    var cursor: Cursor
    var origin: Cursor
    var anchor: Cursor
    var motion: Motion
    var pending: bool
    /** The progress of a motion. */
    var phase: nat
    var scan: nat
    var wordKind: nat
    var target: nat
    var rowText: bool
    var reverse: bool
    var candidate: Option<Cursor>
    var bracket: CodePoint
    var peer: CodePoint
    var depth: nat
    var findChar: CodePoint
    var findShort: bool
    /** Moves made along the walk of the motion, or of either end of a selection. */
    ghost var walked: nat
    /** The selection. */
    var selecting: bool
    var mode: Mode
    var ready: bool
    var matchPhase: nat
    var first: Cursor
    var last: Cursor

    constructor (rows: seq<Row>, line: nat, column: nat, width: nat, stops: CodePoint -> bool)
      requires line < |rows|
      ensures Valid() && Done() && !selecting && g == Grid(rows, width) && this.stops == stops
              && cursor == g.Clamp(Cursor(line, line, column))
    {
      Grid(rows, width).WithinPlaced(Cursor(line, line, column), Grid(rows, width).GridColumns(line));
      g, this.stops := Grid(rows, width), stops;
      var c := Grid(rows, width).Clamp(Cursor(line, line, column));
      cursor, origin, anchor, first, last := c, c, c, c, c;
      motion, pending, phase, scan, wordKind, target, rowText, reverse := GoLeft, false, 0, 0, 0, 0, false, false;
      candidate, bracket, peer, depth, findChar, findShort, walked := None, 0, 0, 0, 0, false, 0;
      selecting, mode, ready, matchPhase := false, Cells, false, 0;
    }

    // ----- Walks and goals -----

    function Word(): Walk
      reads `motion
    {
      Walk(g, true, motion == WordPrev || motion == SemanticPrev)
    }

    function Semantically(): bool
      reads `motion
    {
      motion == SemanticNext || motion == SemanticEnd || motion == SemanticPrev
    }

    ghost function WordGoal(): Goal
      reads `motion
    {
      if motion == WordNext || motion == SemanticNext then Start(Semantically(), stops) else End(Semantically(), stops)
    }

    function KindAt(c: Cursor): nat
      requires g.Placed(c)
      reads `motion
    {
      Kind(g.CpAt(c), Semantically(), stops)
    }

    // ----- Words -----

    /** How far the search for a word has come. */
    ghost predicate WordSeek()
      requires g.Placed(cursor) && g.Placed(origin)
      reads `motion, `phase, `wordKind, `cursor, `origin, `walked
    {
      var w, goal := Word(), WordGoal();
      if motion == WordNext || motion == SemanticNext then
        if phase == 0 then Passed(w, origin, goal, walked, cursor) && (walked > 0 ==> KindAt(cursor) == 1)
        else if KindAt(cursor) == 0 then Passed(w, origin, goal, walked, cursor)
        else FirstMet(w, origin, goal, walked) && w.Nth(origin, walked) == Some(cursor)
      else
        if phase == 0 then walked == 0 && cursor == origin
        else
          && walked > 0 && w.Nth(origin, walked) == Some(cursor)
          && (forall j: nat | j < walked :: !Met(w, origin, goal, j))
          && (phase > 1 ==> KindAt(cursor) == wordKind != 0)
    }

    /** One step of a word motion. */
    method WordStep()
      requires g.Placed(cursor) && g.Placed(origin) && WordSeek() && pending
      requires motion in {WordNext, WordEnd, WordPrev, SemanticNext, SemanticEnd, SemanticPrev}
      modifies `cursor, `pending, `phase, `wordKind, `walked
      ensures g.Placed(cursor)
      ensures if pending then WordSeek() else WordAnswer(Word(), origin, WordGoal(), cursor)
      ensures pending ==> WordWork() < old(WordWork())
    {
      if motion == WordNext || motion == SemanticNext { NextStep(); } else { EndStep(); }
    }

    function WordWork(): nat
      requires cursor.line < |g.rows|
      reads `motion, `cursor, `phase
    {
      2 * g.Left(cursor, Word().reverse) + if phase == 0 then 2 else 1
    }

    method NextStep()
      requires g.Placed(cursor) && g.Placed(origin) && WordSeek() && pending
               && (motion == WordNext || motion == SemanticNext)
      modifies `cursor, `pending, `phase, `walked
      ensures g.Placed(cursor)
      ensures if pending then WordSeek() else WordAnswer(Word(), origin, WordGoal(), cursor)
      ensures pending ==> WordWork() < old(WordWork())
    {
      hide Kind, Met, FirstMet, Passed, WordAnswer, Grid.Left, Walk.Nth, Grid.Advance;
      ghost var w, goal, o := Word(), WordGoal(), origin;
      var kind := KindAt(cursor);
      KindRange(g.CpAt(cursor));
      if phase == 0 && kind == 0 { phase := 1; return; }
      if phase > 0 && kind != 0 {
        WordFound(w, o, goal, walked, cursor);
        pending := false;
        return;
      }
      var m := g.Advance(cursor, false);
      g.MoveMeans(cursor, false, true);
      if m.boundary == 0 {
        WordMissed(w, o, goal, walked, cursor);
        cursor, pending := m.cursor, false;
        return;
      }
      NextMoves(w, o, Semantically(), stops, walked, cursor);
      cursor, walked := m.cursor, walked + 1;
      if phase == 0 && (m.boundary == 2 || kind == 2 || KindAt(cursor) != kind) { phase := 1; }
    }

    lemma KindRange(cp: CodePoint)
      ensures Kind(cp, Semantically(), stops) <= 2
    {
    }

    /** Move on; at the end of the text the motion is over. */
    method Leave()
      requires g.Placed(cursor) && g.Placed(origin) && pending && Passed(Word(), origin, WordGoal(), walked, cursor)
      modifies `cursor, `pending, `walked
      ensures g.Placed(cursor)
      ensures if pending then
                && walked == old(walked) + 1 && Word().Nth(origin, walked) == Some(cursor)
                && (forall j: nat | j < walked :: !Met(Word(), origin, WordGoal(), j))
                && g.Left(cursor, Word().reverse) < old(g.Left(cursor, Word().reverse))
              else WordAnswer(Word(), origin, WordGoal(), cursor)
    {
      hide Met, WordAnswer, Grid.Left, Walk.Nth, Grid.Advance;
      ghost var w, goal := Word(), WordGoal();
      var m := g.Advance(cursor, Word().reverse);
      g.MoveMeans(cursor, Word().reverse, true);
      PassedMove(w, origin, goal, walked, cursor);
      if m.boundary == 0 { WordMissed(w, origin, goal, walked, cursor); pending := false; }
        else { walked := walked + 1; }
      cursor := m.cursor;
    }

    method EndStep()
      requires g.Placed(cursor) && g.Placed(origin) && WordSeek() && pending
               && motion in {WordEnd, WordPrev, SemanticEnd, SemanticPrev}
      modifies `cursor, `pending, `phase, `wordKind, `walked
      ensures g.Placed(cursor)
      ensures if pending then WordSeek() else WordAnswer(Word(), origin, WordGoal(), cursor)
      ensures pending ==> WordWork() < old(WordWork())
    {
      hide Kind, Met, WordAnswer, Grid.Left, Walk.Nth, Grid.Advance;
      ghost var w, goal, o := Word(), WordGoal(), origin;
      var kind := KindAt(cursor);
      KindRange(g.CpAt(cursor));
      if phase == 0 {
        PassedStart(w, o, goal);
        Leave();
        phase := 1;
        return;
      }
      if phase == 1 {
        if kind == 0 {
          EndHere(w, o, Semantically(), stops, walked, cursor);
          Leave();
          return;
        }
        phase, wordKind := 2, kind;
      }
      Extend();
    }

    /** In a word: go on while the next cell belongs to it. */
    method Extend()
      requires g.Placed(cursor) && g.Placed(origin) && pending && phase > 1
               && motion in {WordEnd, WordPrev, SemanticEnd, SemanticPrev}
      requires walked > 0 && Word().Nth(origin, walked) == Some(cursor) && KindAt(cursor) == wordKind != 0
      requires forall j: nat | j < walked :: !Met(Word(), origin, WordGoal(), j)
      modifies `cursor, `pending, `walked
      ensures g.Placed(cursor)
      ensures if pending then WordSeek() else WordAnswer(Word(), origin, WordGoal(), cursor)
      ensures pending ==> g.Left(cursor, Word().reverse) < old(g.Left(cursor, Word().reverse))
    {
      hide Kind, Met, WordAnswer, Grid.Left, Walk.Nth, Grid.Advance;
      ghost var w, goal, o := Word(), WordGoal(), origin;
      KindRange(g.CpAt(cursor));
      EndHere(w, o, Semantically(), stops, walked, cursor);
      if KindAt(cursor) == 2 {
        WordFound(w, o, goal, walked, cursor);
        pending := false;
        return;
      }
      var probe := g.Advance(cursor, Word().reverse);
      g.MoveMeans(cursor, w.reverse, true);
      if probe.boundary != 1 || KindAt(probe.cursor) != wordKind {
        WordFound(w, o, goal, walked, cursor);
        pending := false;
      } else {
        PassedMove(w, o, goal, walked, cursor);
        cursor, walked := probe.cursor, walked + 1;
      }
    }

    // ----- Brackets -----

    /** How far the search for the partner of the bracket at `home` has come. */
    ghost predicate Matching(home: Cursor, at: Cursor)
      requires g.Placed(home)
      reads `bracket, `peer, `reverse, `depth, `walked
    {
      && g.CpAt(home) == bracket && PartnerOf(bracket) == Some(Partner(peer, reverse))
      && Nested(Walk(g, true, reverse), home, bracket, peer, walked, at, depth)
    }

    /** One step of the search for the partner of the bracket at `home`, from `at`. */
    method BracketStep(home: Cursor, at: Cursor) returns (c: Cursor, more: bool)
      requires g.Placed(home) && g.Placed(at) && if phase == 0 then at == home else Matching(home, at)
      modifies `phase, `bracket, `peer, `reverse, `depth, `walked
      ensures g.Placed(c)
      ensures if more then phase > 0 && Matching(home, c) else BracketAnswer(g, home, c)
      ensures more && old(phase) > 0 ==> reverse == old(reverse) && g.Left(c, reverse) < g.Left(at, reverse)
    {
      hide Nested, Walk.Nth, Walk.Count, Grid.Advance, Grid.Left, Met, Deep;
      if phase == 0 {
        var partner := PartnerOf(g.CpAt(at));
        if partner.None? { return at, false; }
        bracket, peer, reverse := g.CpAt(at), partner.value.peer, partner.value.before;
        depth, phase, walked := 0, 1, 0;
        NestedStart(Walk(g, true, reverse), home, bracket, peer);
        return at, true;
      }
      ghost var w := Walk(g, true, reverse);
      var m := g.Advance(at, reverse);
      g.MoveMeans(at, reverse, true);
      NestedMove(w, home, bracket, peer, walked, at, depth);
      NestedPassed(w, home, bracket, peer, walked, at, depth);
      if m.boundary == 0 {
        PassedMove(w, home, Balance(bracket, peer), walked, at);
        return home, false;
      }
      if g.CpAt(m.cursor) == bracket {
        if depth == DEPTH_MAX {
          TooDeep(g, home, walked + 1);
          return home, false;
        }
        depth := depth + 1;
      } else if g.CpAt(m.cursor) == peer {
        if depth == 0 {
          assert Matches(g, home, walked + 1);
          return m.cursor, false;
        }
        depth := depth - 1;
      }
      walked := walked + 1;
      return m.cursor, true;
    }

    // ----- Finding a character -----

    ghost predicate Finding()
      requires g.Placed(origin)
      reads `cursor, `origin, `reverse, `findChar, `walked
    {
      Passed(Walk(g, false, reverse), origin, Char(findChar), walked, cursor)
    }

    /** One step of an inline find. */
    method FindStep()
      requires g.Placed(cursor) && g.Placed(origin) && pending && Finding()
      modifies `cursor, `pending, `walked
      ensures g.Placed(cursor)
      ensures if pending then Finding() else FindAnswer(Walk(g, false, reverse), origin, findChar, findShort, cursor)
      ensures pending ==> g.Left(cursor, reverse) < old(g.Left(cursor, reverse))
    {
      hide Walk.Nth, Grid.GridAdvance, Grid.Left;
      ghost var w := Walk(g, false, reverse);
      var before, m := cursor, g.GridAdvance(cursor, reverse);
      g.MoveMeans(cursor, reverse, false);
      PassedMove(w, origin, Char(findChar), walked, cursor);
      if m.boundary != 1 { cursor, pending := origin, false; return; }
      cursor, walked := m.cursor, walked + 1;
      var cp := g.CpAt(cursor);
      if (if cp == 0 then BLANK else cp) != findChar { return; }
      pending := false;
      if findShort {
        g.WithinPlaced(cursor, g.GridColumns(cursor.line));
        g.MoveMeans(cursor, false, false);
        if !reverse { cursor := before; }
        else if g.Cp(cursor.line, cursor.column + 1) == WIDE_CONT { cursor := g.Clamp(cursor); }
        else { cursor := g.GridAdvance(cursor, false).cursor; }
      }
    }

    // ----- Rows -----

    ghost predicate Viewing()
      requires g.Placed(cursor) && g.Placed(origin)
      reads `motion, `cursor, `origin, `phase, `scan, `target
    {
      if phase == 0 then cursor.column == origin.column && scan == 0
      else
        && motion == ViewRow && cursor.line == Min(target, |g.rows| - 1) && cursor.column == 0
        && scan <= g.Columns(cursor.line)
        && forall k | 0 <= k < scan :: !Legible(g.Cp(cursor.line, k))
    }

    function ViewWork(): nat
      requires cursor.line < |g.rows|
      reads `cursor, `phase, `scan, `target
    {
      var l := Min(target, |g.rows| - 1);
      Gap(scan, g.width) + 1 + if phase == 0 then Gap(cursor.line, l) + Gap(l, cursor.line) + 1 else 0
    }

    /** One row towards the target row, or one cell of it. */
    method ViewStep()
      requires g.Placed(cursor) && g.Placed(origin) && pending && Viewing() && (motion == ViewRow || motion == ToRow)
      modifies `cursor, `pending, `phase, `scan
      ensures g.Placed(cursor)
      ensures if pending then Viewing()
              else if motion == ViewRow then ViewAnswer(g, target, cursor)
              else var l := Min(target, |g.rows| - 1); cursor == g.Clamp(Cursor(l, l, origin.column))
      ensures pending ==> ViewWork() < old(ViewWork())
    {
      hide Legible;
      if phase == 0 {
        if cursor.row < target && cursor.line + 1 < |g.rows| {
          cursor := cursor.(line := cursor.line + 1, row := cursor.row + 1);
          return;
        }
        if cursor.row > target && cursor.line > 0 {
          cursor := cursor.(line := cursor.line - 1, row := cursor.row - 1);
          return;
        }
        if motion == ToRow {
          g.WithinPlaced(cursor, g.GridColumns(cursor.line));
          cursor, pending := g.Clamp(cursor), false;
          return;
        }
        cursor, phase := cursor.(column := 0), 1;
      }
      if scan < g.Columns(cursor.line) {
        if Legible(g.Cp(cursor.line, scan)) {
          cursor, pending := cursor.(column := scan), false;
          return;
        }
        scan := scan + 1;
        return;
      }
      pending := false;
    }

    ghost predicate ParagraphSeek()
      requires g.Placed(cursor) && g.Placed(origin)
      reads `motion, `cursor, `origin, `phase, `scan, `rowText
    {
      var o, l, up := origin.line, cursor.line, motion == ParagraphUp;
      && cursor.column == 0 && Onward(g, o, up, l, phase > 0)
      && if rowText then !Blank(g, l) && scan == g.Columns(l) else forall k | 0 <= k < scan
         && k < g.Columns(l) :: !Legible(g.Cp(l, k))
    }

    function ParagraphWork(): nat
      requires cursor.line < |g.rows|
      reads `motion, `cursor, `scan
    {
      g.Area(if motion == ParagraphUp then cursor.line else |g.rows| - 1 - cursor.line) + Gap(scan, g.width) + 1
    }

    /** One cell of a row, or on to the next row. */
    method ParagraphStep()
      requires g.Placed(cursor) && g.Placed(origin) && pending && ParagraphSeek()
               && (motion == ParagraphUp || motion == ParagraphDown)
      modifies `cursor, `pending, `phase, `scan, `rowText
      ensures g.Placed(cursor)
      ensures if pending then ParagraphSeek() else ParagraphAnswer(g, origin, motion == ParagraphUp, cursor)
      ensures pending ==> ParagraphWork() < old(ParagraphWork())
    {
      hide Legible;
      var size, up := g.Columns(cursor.line), motion == ParagraphUp;
      if scan < size {
        if Legible(g.Cp(cursor.line, scan)) { rowText, scan := true, size; } else { scan := scan + 1; }
        return;
      }
      assert !rowText ==> Blank(g, cursor.line);
      LeaveRow();
    }

    /** All cells of the row have been seen. */
    method LeaveRow()
      requires g.Placed(cursor) && g.Placed(origin) && pending && ParagraphSeek()
               && (motion == ParagraphUp || motion == ParagraphDown)
      requires (!rowText ==> Blank(g, cursor.line)) && scan >= g.Columns(cursor.line)
      modifies `cursor, `pending, `phase, `scan, `rowText
      ensures g.Placed(cursor)
      ensures if pending then ParagraphSeek() else ParagraphAnswer(g, origin, motion == ParagraphUp, cursor)
      ensures pending ==> ParagraphWork() < old(ParagraphWork())
    {
      hide Legible, Blank, Onward, StopRow, Between;
      var up := motion == ParagraphUp;
      ghost var seen := phase > 0;
      OnwardMeans(g, origin.line, up, cursor.line, seen);
      if !rowText && phase > 0 { pending := false; return; }
      if rowText { phase := 1; }
      if if up then cursor.line == 0 || cursor.row == 0 else cursor.line + 1 == |g.rows| { pending := false; return; }
      OnwardMove(g, origin.line, up, cursor.line, if up then cursor.line - 1 else cursor.line + 1, seen);
      cursor := if up then Cursor(cursor.line - 1, cursor.row - 1, 0) else Cursor(cursor.line + 1, cursor.row + 1, 0);
      scan, rowText := 0, false;
    }

    // ----- Single moves and the ends of the rows -----

    ghost predicate Stepping()
      requires g.Placed(cursor) && g.Placed(origin)
      reads `motion, `cursor, `origin
    {
      match motion
      case GoTop => cursor.line <= origin.line && cursor == g.Rowwise(origin, true, origin.line - cursor.line)
      case GoBottom => cursor.line >= origin.line && cursor == g.Rowwise(origin, false, cursor.line - origin.line)
      case GoFirst =>
        if origin.column > 0 then cursor == origin else
          cursor.column == 0 && cursor.line <= origin.line
            && forall x | cursor.line <= x < origin.line :: !g.rows[x].Hard()
      case _ => cursor == origin
    }

    ghost predicate SimpleAnswer()
      requires g.Placed(origin)
      reads `motion, `cursor, `origin
    {
      var o := origin;
      match motion
      case GoLeft => Beside(g, o, true, cursor)
      case GoRight => Beside(g, o, false, cursor)
      case GoUp => cursor == g.Rowwise(o, true, 1)
      case GoDown => cursor == g.Rowwise(o, false, 1)
      case GoTop => cursor == g.Clamp(g.Rowwise(o, true, o.line))
      case GoBottom => cursor == g.Clamp(g.Rowwise(o, false, |g.rows| - 1 - o.line))
      case GoFirst => FirstAnswer(g, o, cursor)
      case _ => true
    }

    predicate Simple()
      reads `motion
    {
      motion in {GoLeft, GoRight, GoUp, GoDown, GoTop, GoBottom, GoFirst}
    }

    function SimpleWork(): nat
      requires cursor.line < |g.rows|
      reads `motion, `cursor
    {
      match motion
      case GoTop => cursor.line + 1
      case GoFirst => cursor.line + 1
      case GoBottom => |g.rows| - cursor.line
      case _ => 1
    }

    /** One step of a motion that looks at no text but at most moves by a row. */
    method SimpleStep()
      requires g.Placed(cursor) && g.Placed(origin) && pending && Simple() && Stepping()
      modifies `cursor, `pending
      ensures g.Placed(cursor) && if pending then Stepping() else SimpleAnswer()
      ensures pending ==> SimpleWork() < old(SimpleWork())
    {
      hide Stepping, SimpleAnswer, SimpleWork;
      if motion == GoLeft || motion == GoRight { SideStep(); }
      else if motion == GoFirst { FirstStep(); }
      else if motion == GoUp || motion == GoTop { UpStep(); }
      else { DownStep(); }
    }

    method SideStep()
      requires g.Placed(cursor) && g.Placed(origin) && pending && Stepping() && motion in {GoLeft, GoRight}
      modifies `cursor, `pending
      ensures g.Placed(cursor) && !pending && SimpleAnswer()
    {
      hide Grid.GridAdvance, Grid.GridColumns, Grid.Left;
      var c := cursor;
      var probe := g.GridAdvance(c, motion == GoLeft);
      g.MoveMeans(c, motion == GoLeft, false);
      if probe.boundary == 1 { c := probe.cursor; }
      pending := false;
      g.WithinPlaced(c, g.GridColumns(c.line));
      cursor := g.Clamp(c);
    }

    method FirstStep()
      requires g.Placed(cursor) && g.Placed(origin) && pending && Stepping() && motion == GoFirst
      modifies `cursor, `pending
      ensures g.Placed(cursor) && if pending then Stepping() else SimpleAnswer()
      ensures pending ==> SimpleWork() < old(SimpleWork())
    {
      hide Grid.GridColumns, Grid.Left;
      var c := cursor;
      if c.column == 0 && c.line > 0 && c.row > 0 && !g.rows[c.line - 1].Hard() {
        c := c.(line := c.line - 1, row := c.row - 1);
      } else {
        c, pending := c.(column := 0), false;
      }
      g.WithinPlaced(c, g.GridColumns(c.line));
      cursor := g.Clamp(c);
    }

    /** One row up; the motion to the first row goes on until there is none. */
    method UpStep()
      requires g.Placed(cursor) && g.Placed(origin) && pending && Stepping() && motion in {GoUp, GoTop}
      modifies `cursor, `pending
      ensures g.Placed(cursor) && if pending then Stepping() else SimpleAnswer()
      ensures pending ==> SimpleWork() < old(SimpleWork())
    {
      hide Grid.GridColumns, Grid.Left, Grid.Rowwise, Grid.Within;
      var c := cursor;
      if c.line > 0 && c.row > 0 {
        c := c.(line := c.line - 1, row := c.row - 1);
      } else {
        pending := false;
      }
      if motion == GoUp { pending := false; }
      g.RowwiseMore(origin, true, origin.line - cursor.line);
      g.WithinPlaced(c, g.GridColumns(c.line));
      cursor := g.Clamp(c);
    }

    /** One row down; the motion to the last row goes on until there is none. */
    method DownStep()
      requires g.Placed(cursor) && g.Placed(origin) && pending && Stepping() && motion in {GoDown, GoBottom}
      modifies `cursor, `pending
      ensures g.Placed(cursor) && if pending then Stepping() else SimpleAnswer()
      ensures pending ==> SimpleWork() < old(SimpleWork())
    {
      hide Grid.GridColumns, Grid.Left, Grid.Rowwise, Grid.Within;
      var c := cursor;
      if c.line + 1 < |g.rows| {
        c := c.(line := c.line + 1, row := c.row + 1);
      } else {
        pending := false;
      }
      if motion == GoDown { pending := false; }
      g.RowwiseMore(origin, false, cursor.line - origin.line);
      g.WithinPlaced(c, g.GridColumns(c.line));
      cursor := g.Clamp(c);
    }

    // ----- The last and the first occupied cell -----

    ghost predicate LastSeek()
      requires g.Placed(cursor) && g.Placed(origin)
      reads `cursor, `origin, `phase, `scan, `rowText
    {
      var l := cursor.line;
      && !rowText && cursor.column == origin.column
      && match phase
         case 0 => cursor == origin
         case 1 => cursor == origin && scan <= g.Columns(l) && BlankFrom(g, l, scan)
         case 2 => WrapEdge(g, origin) && origin.line <= l && forall x | origin.line <= x < l :: !g.rows[x].Hard()
         case _ =>
           phase == 3 && WrapEdge(g, origin) && LineEnd(g, origin.line, l) && scan <= g.Columns(l)
             && BlankFrom(g, l, scan)
    }

    function LastWork(): nat
      requires cursor.line < |g.rows|
      reads `cursor, `phase, `scan
    {
      match phase
      case 0 => 2 * g.width + |g.rows| + 5
      case 1 => scan + |g.rows| + g.width + 3
      case 2 => |g.rows| - cursor.line + g.width + 2
      case _ => scan + 1
    }

    /** One cell back from the end of the row, or one row on along the logical line. */
    method LastStep()
      requires g.Placed(cursor) && g.Placed(origin) && pending && LastSeek()
      modifies `cursor, `pending, `phase, `scan, `rowText
      ensures g.Placed(cursor) && if pending then LastSeek() else LastAnswer(g, origin, cursor)
      ensures pending ==> LastWork() < old(LastWork())
    {
      hide Inked, Grid.GridColumns, WrapEdge, LastAnswer;
      if phase == 0 { scan, phase := g.Columns(cursor.line), 1; }
      if phase == 2 { FollowLine(); return; }
      hide LineEnd;
      if scan > 0 {
        scan := scan - 1;
        if !Inked(g.Cp(cursor.line, scan)) { return; }
        rowText := true;
      }
      assert LastInked(g, cursor.line, g.Columns(cursor.line), if rowText then Some(scan) else None);
      Settle();
    }

    /** One row on along the logical line. */
    method FollowLine()
      requires g.Placed(cursor) && g.Placed(origin) && pending && LastSeek() && phase == 2
      modifies `cursor, `phase, `scan
      ensures g.Placed(cursor) && LastSeek() && LastWork() < old(LastWork())
    {
      hide Inked, WrapEdge, Grid.GridColumns;
      if !g.rows[cursor.line].Hard() && cursor.line + 1 < |g.rows| {
        cursor := cursor.(line := cursor.line + 1, row := cursor.row + 1);
        return;
      }
      scan, phase := g.Columns(cursor.line), 3;
    }

    /** The last occupied cell of the row is known. */
    method Settle()
      requires g.Placed(cursor) && g.Placed(origin) && pending && (phase == 1 || phase == 3)
               && cursor.column == origin.column
      requires if phase == 1 then cursor == origin else WrapEdge(g, origin) && LineEnd(g, origin.line, cursor.line)
      requires LastInked(g, cursor.line, g.Columns(cursor.line), if rowText then Some(scan) else None)
      modifies `cursor, `pending, `phase, `rowText
      ensures g.Placed(cursor) && if pending then old(phase) == 1 && phase == 2
              && LastSeek() else LastAnswer(g, origin, cursor)
    {
      hide Inked, LastInked, Grid.GridColumns, LastAnswer;
      ghost var ink := if rowText then Some(scan) else None;
      if phase == 1 { LastHere(g, origin, ink); }
      var occupied, current := if rowText then scan else 0, GlyphEnd(g, origin);
      if phase == 3 {
        LastFar(g, origin, cursor.line, ink);
        cursor := cursor.(column := if rowText then occupied else current);
      } else if current < occupied {
        cursor := cursor.(column := occupied);
      } else if !g.rows[cursor.line].Hard() && cursor.line + 1 < |g.rows| && current + 1 >= g.GridColumns(cursor.line) {
        phase, rowText := 2, false;
        return;
      } else {
        cursor := cursor.(column := Edge(g));
      }
      g.WithinPlaced(cursor, g.GridColumns(cursor.line));
      cursor, pending := g.Clamp(cursor), false;
    }

    ghost predicate OccupiedSeek()
      requires g.Placed(cursor) && g.Placed(origin)
      reads `cursor, `origin, `phase, `scan, `candidate
    {
      var o, l := origin.line, cursor.line;
      && cursor.column == origin.column && (phase > 0 && candidate.Some? ==> g.Placed(candidate.value))
      && match phase
         case 0 => cursor == origin
         case 1 => cursor == origin && candidate == None && BlankBefore(g, l, scan)
         case 2 => Repeats(g, origin) && l <= o && AllWrap(g, l, o) && Kept(g, l, o, candidate)
         case 3 => Repeats(g, origin) && l < o && AllWrap(g, l, o) && Kept(g, l + 1, o, candidate)
           && BlankBefore(g, l, scan)
         case _ =>
           phase == 4 && Repeats(g, origin) && NoneBack(g, o) && o <= l && AllWrap(g, o, l) && Kept(g, o, l, None)
             && BlankBefore(g, l, scan)
    }

    function OccupiedWork(): nat
      requires cursor.line < |g.rows|
      reads `cursor, `phase, `scan
    {
      var l, all := cursor.line, g.Area(|g.rows|);
      match phase
      case 0 => g.Area(l) + g.width + 2 + all
      case 1 => g.Area(l) + Gap(scan, g.width) + 1 + all
      case 2 => g.Area(l) + all
      case 3 => g.Area(l) + Gap(scan, g.width) + 1 + all
      case _ => g.Area(|g.rows| - 1 - l) + Gap(scan, g.width) + 1
    }

    /** One cell of a row, or on to a neighbouring row of the logical line. */
    method OccupiedStep()
      requires g.Placed(cursor) && g.Placed(origin) && pending && OccupiedSeek()
      modifies `cursor, `pending, `phase, `scan, `candidate
      ensures g.Placed(cursor) && if pending then OccupiedSeek() else OccupiedAnswer(g, origin, cursor)
      ensures pending ==> OccupiedWork() < old(OccupiedWork())
    {
      hide Inked, Grid.GridColumns, Repeats, AllWrap, Kept, NoneBack, OccupiedAnswer, Grid.Area;
      if phase == 0 { phase, scan, candidate := 1, 0, None; }
      if phase == 2 { FollowBack(); return; }
      if scan < g.Columns(cursor.line) && !Inked(g.Cp(cursor.line, scan)) {
        scan := scan + 1;
        return;
      }
      FirstKnown(if scan < g.Columns(cursor.line) then Some(scan) else None);
    }

    /** The first occupied cell of a row is known. */
    method FirstKnown(ink: Option<nat>)
      requires g.Placed(cursor) && g.Placed(origin) && pending && OccupiedSeek() && phase in {1, 3, 4}
      requires FirstInked(g, cursor.line, ink) && scan <= g.width && (ink.Some? ==> ink.value < Max(1, g.width))
      modifies `cursor, `pending, `phase, `scan, `candidate
      ensures g.Placed(cursor) && if pending then OccupiedSeek() else OccupiedAnswer(g, origin, cursor)
      ensures pending ==> OccupiedWork() < old(OccupiedWork())
    {
      hide FirstInked, Inked, Grid.GridColumns, Repeats, NoneBack, OccupiedAnswer;
      var column, l := ink.GetOr(Edge(g)), cursor.line;
      g.WithinPlaced(cursor.(column := column), g.GridColumns(l));
      if phase == 1 {
        if origin.column != column {
          OccupiedHere(g, origin, ink);
          cursor, pending := g.Clamp(cursor.(column := column)), false;
          return;
        }
        RepeatsHere(g, origin, ink);
        phase := 2;
      } else if phase == 3 {
        KeptMore(g, l, origin.line, candidate, ink);
        if ink.Some? { candidate := Some(cursor.(column := column)); }
        phase := 2;
      } else if ink.Some? || g.rows[l].Hard() || l + 1 == |g.rows| {
        OccupiedOn(g, origin, l, ink);
        cursor, pending := g.Clamp(cursor.(column := column)), false;
      } else {
        cursor, scan := cursor.(line := l + 1, row := cursor.row + 1), 0;
      }
    }

    /** Back along the logical line while it wraps; then to what was found there, or on from the origin. */
    method FollowBack()
      requires g.Placed(cursor) && g.Placed(origin) && pending && OccupiedSeek() && phase == 2
      modifies `cursor, `pending, `phase, `scan
      ensures g.Placed(cursor) && if pending then OccupiedSeek() else OccupiedAnswer(g, origin, cursor)
      ensures pending ==> OccupiedWork() < old(OccupiedWork())
    {
      hide FirstInked, Inked, Grid.GridColumns, Repeats, OccupiedAnswer;
      var l := cursor.line;
      if l > 0 && cursor.row > 0 && !g.rows[l - 1].Hard() {
        cursor, scan, phase := cursor.(line := l - 1, row := cursor.row - 1), 0, 3;
        return;
      }
      if candidate.Some? {
        OccupiedBack(g, origin, l, candidate.value);
        cursor, pending := candidate.value, false;
        return;
      }
      g.AreaGrows(|g.rows| - origin.line, |g.rows|);
      assert LineStart(g, origin.line, l);
      cursor, scan, phase := origin, 0, 4;
    }

    // ----- Selections -----

    ghost predicate LinesSeek()
      requires g.Placed(cursor) && g.Placed(anchor)
      reads `cursor, `anchor, `ready, `matchPhase, `first, `last
    {
      var a, b := Min(anchor.line, cursor.line), Max(anchor.line, cursor.line);
      if ready then LinesAnswer(g, anchor, cursor, first, last)
      else if matchPhase == 0 then true
      else
        && g.Placed(first) && g.Placed(last) && b <= last.line && AllWrap(g, b, last.line)
        && first.column == (if anchor.row > cursor.row then cursor else anchor).column
        && last.column == (if anchor.row > cursor.row then anchor else cursor).column
        && if matchPhase == 1 then last.line == b && first.line <= a
           && AllWrap(g, first.line, a) else LineStart(g, a, first.line)
    }

    function LinesWork(): nat
      reads `ready, `matchPhase, `first, `last
    {
      if ready then 0
      else if matchPhase == 0 then 2 * |g.rows| + 4
      else if matchPhase == 1 then first.line + |g.rows| + 2
      else Gap(last.line, |g.rows|)
    }

    /** One row towards either end of the logical lines selected. */
    method LinesStep()
      requires g.Placed(cursor) && g.Placed(anchor) && !ready && LinesSeek()
      modifies `first, `last, `matchPhase, `ready
      ensures LinesSeek() && LinesWork() < old(LinesWork())
    {
      if matchPhase == 0 {
        first, last := anchor, cursor;
        if first.row > last.row { first, last := last, first; }
        matchPhase := 1;
      } else if matchPhase == 1 {
        if first.line > 0 && first.row > 0 && !g.rows[first.line - 1].Hard() {
          first := first.(line := first.line - 1, row := first.row - 1);
        } else {
          matchPhase := 2;
        }
      } else if !g.rows[last.line].Hard() && last.line + 1 < |g.rows| {
        last := last.(line := last.line + 1, row := last.row + 1);
      } else {
        ready := true;
      }
    }

    /** There is no single bracket with a partner to select. */
    ghost predicate Alone()
      requires g.Placed(cursor) && g.Placed(anchor)
      reads `cursor, `anchor
    {
      anchor == cursor ==> forall k: nat :: !Matches(g, cursor, k)
    }

    ghost predicate SemanticSeek()
      requires g.Placed(cursor) && g.Placed(anchor)
      reads `cursor, `anchor, `ready, `matchPhase, `first, `last, `phase, `walked, `bracket, `peer, `reverse, `depth
    {
      var a, b, goal := Upper(anchor, cursor), Lower(anchor, cursor), Delimiter(stops);
      if ready then SemanticAnswer(g, stops, anchor, cursor, first, last)
      else if matchPhase == 0 then true
      else
        && g.Placed(first) && g.Placed(last)
        && match matchPhase
           case 1 => anchor == cursor == last && if phase == 0 then first == cursor else Matching(cursor, first)
           case 3 => Alone() && Passed(Walk(g, false, true), a, goal, walked, first) && last == b
           case _ =>
             matchPhase == 4 && Alone() && Stretched(Walk(g, false, true), a, stops, first)
               && Passed(Walk(g, false, false), b, goal, walked, last)
    }

    function SemanticWork(): nat
      requires matchPhase > 0 ==> first.line < |g.rows| && last.line < |g.rows|
      reads `ready, `matchPhase, `first, `last, `phase, `reverse
    {
      var all := g.Area(|g.rows|);
      if ready then 0
      else if matchPhase == 0 then 3 * all + 6
      else if matchPhase == 1 then 2 * all + 2 + if phase == 0 then all + 2 else g.Left(first, reverse) + 1
      else if matchPhase == 3 then g.Left(first, true) + 1 + all
      else g.Left(last, false) + 1
    }

    /** One step of the search for a partner, or one cell towards the delimiters around the ends. */
    method SemanticStep()
      requires g.Placed(cursor) && g.Placed(anchor) && !ready && SemanticSeek()
      modifies `first, `last, `matchPhase, `ready, `phase, `bracket, `peer, `reverse, `depth, `walked
      ensures SemanticSeek() && (matchPhase > 0 ==> g.Placed(first) && g.Placed(last))
      ensures SemanticWork() < old(SemanticWork())
    {
      hide SemanticAnswer, Passed, Stretched, Matching, Grid.Left, Grid.Area, BracketAnswer, Matches;
      if matchPhase == 0 {
        first, last := anchor, cursor;
        if Precedes(last, first) { first, last := last, first; }
        phase, walked := 0, 0;
        matchPhase := if anchor.row == cursor.row && anchor.column == cursor.column then 1 else 3;
        PassedStart(Walk(g, false, true), first, Delimiter(stops));
        g.LeftBounded(first, true);
      } else if matchPhase == 1 {
        PartnerStep();
      } else {
        StretchStep();
      }
    }

    method PartnerStep()
      requires g.Placed(cursor) && g.Placed(anchor) && !ready && matchPhase == 1 && SemanticSeek()
      modifies `first, `last, `matchPhase, `ready, `phase, `bracket, `peer, `reverse, `depth, `walked
      ensures SemanticSeek() && matchPhase > 0 && g.Placed(first) && g.Placed(last)
      ensures SemanticWork() < old(SemanticWork())
    {
      hide Passed, Stretched, Matching, Grid.Left, Grid.Area, Matches;
      var c, more := BracketStep(cursor, first);
      first := c;
      g.LeftBounded(first, reverse);
      if more { return; }
      AnswerSplit(g, cursor, c);
      if first.row != cursor.row || first.column != cursor.column {
        if Precedes(last, first) { first, last := last, first; }
        ready := true;
        return;
      }
      matchPhase, walked := 3, 0;
      PassedStart(Walk(g, false, true), first, Delimiter(stops));
      g.LeftBounded(first, true);
    }

    method StretchStep()
      requires g.Placed(cursor) && g.Placed(anchor) && !ready && matchPhase > 2 && SemanticSeek()
      modifies `first, `last, `matchPhase, `ready, `walked
      ensures SemanticSeek() && matchPhase > 2 && g.Placed(first) && g.Placed(last)
      ensures SemanticWork() < old(SemanticWork())
    {
      hide Passed, Grid.Left, Grid.Area, Matches, Grid.GridAdvance, Met, Walk.Nth;
      var left := matchPhase == 3;
      var from := if left then first else last;
      ghost var w, o, goal := Walk(g, false, left), if left then Upper(anchor, cursor)
                else Lower(anchor, cursor), Delimiter(stops);
      var m := g.GridAdvance(from, left);
      g.MoveMeans(from, left, false);
      StretchMove(w, o, stops, walked, from);
      if m.boundary == 1 && !Stops(stops, g.CpAt(m.cursor)) {
        if left { first := m.cursor; } else { last := m.cursor; }
        walked := walked + 1;
      } else if left {
        matchPhase, walked := 4, 0;
        PassedStart(Walk(g, false, false), last, goal);
        g.LeftBounded(last, false);
      } else {
        ready := true;
      }
    }

    // ----- Motions and calls with a budget -----

    /** How far the motion has come. */
    ghost predicate Seeking()
      requires g.Placed(cursor) && g.Placed(origin)
      reads `motion, `cursor, `origin, `phase, `scan, `wordKind, `rowText, `reverse, `candidate, `bracket, `peer,
            `depth, `walked,
            `target, `findChar
    {
      match motion
      case WordNext | WordEnd | WordPrev | SemanticNext | SemanticEnd | SemanticPrev => WordSeek()
      case ParagraphUp | ParagraphDown => ParagraphSeek()
      case Bracket => if phase == 0 then cursor == origin else Matching(origin, cursor)
      case ViewRow | ToRow => Viewing()
      case Occupied => OccupiedSeek()
      case GoLast => LastSeek()
      case Find => Finding()
      case _ => Stepping()
    }

    /** Where the motion was to lead; `back` is the direction of a find. */
    ghost predicate Answered(back: bool)
      requires g.Placed(cursor) && g.Placed(origin)
      reads `motion, `cursor, `origin, `target, `findChar, `findShort
    {
      match motion
      case WordNext | WordEnd | WordPrev | SemanticNext | SemanticEnd | SemanticPrev =>
        WordAnswer(Word(), origin, WordGoal(), cursor)
      case ParagraphUp => ParagraphAnswer(g, origin, true, cursor)
      case ParagraphDown => ParagraphAnswer(g, origin, false, cursor)
      case Bracket => BracketAnswer(g, origin, cursor)
      case ViewRow => ViewAnswer(g, target, cursor)
      case ToRow => var l := Min(target, |g.rows| - 1); cursor == g.Clamp(Cursor(l, l, origin.column))
      case Occupied => OccupiedAnswer(g, origin, cursor)
      case GoLast => LastAnswer(g, origin, cursor)
      case Find => FindAnswer(Walk(g, false, back), origin, findChar, findShort, cursor)
      case _ => SimpleAnswer()
    }

    /** A bound on the units the motion still takes. */
    function MotionWork(): nat
      requires cursor.line < |g.rows|
      reads `motion, `cursor, `phase, `scan, `target, `reverse
    {
      match motion
      case WordNext | WordEnd | WordPrev | SemanticNext | SemanticEnd | SemanticPrev => WordWork()
      case ParagraphUp | ParagraphDown => ParagraphWork()
      case Bracket => if phase == 0 then g.Area(|g.rows|) + 2 else g.Left(cursor, reverse) + 1
      case ViewRow | ToRow => ViewWork()
      case Occupied => OccupiedWork()
      case GoLast => LastWork()
      case Find => g.Left(cursor, reverse) + 1
      case _ => SimpleWork()
    }

    /** The motion in progress takes one unit. */
    method MotionStep()
      requires g.Placed(cursor) && g.Placed(origin) && pending && Seeking()
      modifies `cursor, `pending, `phase, `scan, `wordKind, `rowText, `reverse, `candidate, `bracket, `peer, `depth,
               `walked
      ensures g.Placed(cursor) && if pending then Seeking() else Answered(old(reverse))
      ensures pending ==> MotionWork() < old(MotionWork()) && (motion == Find ==> reverse == old(reverse))
    {
      hide Seeking, Answered, MotionWork;
      match motion {
        case Find | GoLast | Occupied | ViewRow | ToRow => RowMotionStep();
        case Bracket => BracketMotionStep();
        case _ => TextMotionStep();
      }
    }

    method RowMotionStep()
      requires g.Placed(cursor) && g.Placed(origin) && pending && Seeking()
      requires motion in {Find, GoLast, Occupied, ViewRow, ToRow}
      modifies `cursor, `pending, `phase, `scan, `rowText, `reverse, `candidate, `walked
      ensures g.Placed(cursor) && if pending then Seeking() else Answered(old(reverse))
      ensures pending ==> MotionWork() < old(MotionWork()) && (motion == Find ==> reverse == old(reverse))
    {
      hide Viewing, ViewAnswer, ViewWork, OccupiedSeek, OccupiedAnswer, OccupiedWork, LastSeek, LastAnswer, LastWork,
           Finding, FindAnswer, Grid.Left, Grid.Area;
      if motion == Find { FindStep(); }
      else if motion == GoLast { LastStep(); }
      else if motion == Occupied { OccupiedStep(); }
      else { ViewStep(); }
    }

    method BracketMotionStep()
      requires g.Placed(cursor) && g.Placed(origin) && pending && Seeking() && motion == Bracket
      modifies `cursor, `pending, `phase, `reverse, `bracket, `peer, `depth, `walked
      ensures g.Placed(cursor) && if pending then Seeking() else Answered(old(reverse))
      ensures pending ==> MotionWork() < old(MotionWork())
    {
      hide Matching, BracketAnswer, Grid.Left, Grid.Area;
      var more;
      cursor, more := BracketStep(origin, cursor);
      g.LeftBounded(cursor, reverse);
      if !more { pending := false; }
    }

    method TextMotionStep()
      requires g.Placed(cursor) && g.Placed(origin) && pending && Seeking()
      requires motion !in {Find, GoLast, Occupied, ViewRow, ToRow, Bracket}
      modifies `cursor, `pending, `phase, `scan, `wordKind, `rowText, `candidate, `walked
      ensures g.Placed(cursor) && if pending then Seeking() else Answered(reverse)
      ensures pending ==> MotionWork() < old(MotionWork())
    {
      hide WordSeek, WordAnswer, WordWork, ParagraphSeek, ParagraphAnswer, ParagraphWork, Stepping, SimpleAnswer,
           SimpleWork, Grid.Left, Grid.Area;
      if motion == ParagraphUp || motion == ParagraphDown { ParagraphStep(); }
      else if motion in {WordNext, WordEnd, WordPrev, SemanticNext, SemanticEnd, SemanticPrev} { WordStep(); }
      else { SimpleStep(); }
    }

    predicate Expands()
      reads `selecting, `mode
    {
      selecting && (mode == Lines || mode == Semantic)
    }

    ghost predicate SelectionSeek()
      requires g.Placed(cursor) && g.Placed(anchor)
      reads `mode, `cursor, `anchor, `ready, `matchPhase, `first, `last, `phase, `walked, `bracket, `peer, `reverse,
            `depth
    {
      match mode
      case Lines => LinesSeek()
      case Semantic => SemanticSeek() && (matchPhase > 0 ==> g.Placed(first) && g.Placed(last))
      case _ => true
    }

    /** A bound on the units the selection still takes. */
    function SelectionWork(): nat
      requires mode == Semantic && matchPhase > 0 ==> first.line < |g.rows| && last.line < |g.rows|
      reads `mode, `ready, `matchPhase, `first, `last, `phase, `reverse
    {
      match mode
      case Lines => LinesWork()
      case Semantic => SemanticWork()
      case _ => 0
    }

    ghost predicate Valid()
      reads this
    {
      && g.Placed(cursor) && g.Placed(origin) && (selecting ==> g.Placed(anchor))
      && (pending ==> matchPhase == 0 && !ready && Seeking())
      && (selecting ==> SelectionSeek())
    }

    function Work(): nat
      requires cursor.line < |g.rows|
      requires Expands() && mode == Semantic && matchPhase > 0 ==> first.line < |g.rows| && last.line < |g.rows|
      reads this
    {
      (if pending then MotionWork() else 0) + if Expands() then SelectionWork() else 0
    }

    predicate Done()
      reads `pending, `selecting, `mode, `ready
    {
      !pending && (Expands() ==> ready)
    }

    /** Begin a motion at the cursor. */
    method Move(m: Motion)
      requires Valid() && m != Find
      modifies `motion, `pending, `phase, `ready, `matchPhase, `scan, `rowText, `origin, `cursor, `walked
      ensures Valid() && pending && motion == m && origin == old(cursor) && Work() <= 6 * g.Area(|g.rows|) + 7
    {
      hide Seeking, SelectionSeek, Work;
      Reset(m);
      Begins();
      Idle();
      Bounded();
    }

    /** Begin an inline find at the cursor. */
    method FindFor(cp: CodePoint, short: bool, back: bool)
      requires Valid()
      modifies `motion, `pending, `phase, `ready, `matchPhase, `scan, `rowText, `origin, `cursor, `walked, `findChar,
               `findShort, `reverse
      ensures Valid() && pending && motion == Find && origin == old(cursor) && Work() <= 6 * g.Area(|g.rows|) + 7
      ensures findChar == cp && findShort == short && reverse == back
    {
      hide Seeking, SelectionSeek, Work;
      findChar, findShort := cp, short;
      Reset(Find);
      reverse := back;
      Begins();
      Idle();
      Bounded();
    }

    method Reset(m: Motion)
      modifies `motion, `pending, `phase, `ready, `matchPhase, `scan, `rowText, `origin, `cursor, `walked
      ensures motion == m && pending && phase == 0 && !ready && matchPhase == 0 && scan == 0 && !rowText && walked == 0
      ensures origin == old(cursor) && cursor == if m == ParagraphUp || m == ParagraphDown
              then old(cursor).(column := 0) else old(cursor)
    {
      motion, pending, phase, ready, matchPhase, scan, rowText, origin, walked := m, true, 0, false, 0, 0, false,
        cursor, 0;
      if motion == ParagraphUp || motion == ParagraphDown { cursor := cursor.(column := 0); }
    }

    /** A motion that has just begun has come no way yet. */
    lemma Begins()
      requires g.Placed(origin) && cursor == if motion == ParagraphUp || motion == ParagraphDown
               then origin.(column := 0) else origin
      requires phase == 0 && scan == 0 && !rowText && walked == 0
      ensures g.Placed(cursor) && Seeking()
    {
      hide Met, Walk.Nth, Blank, Legible;
      PassedStart(Word(), origin, WordGoal());
      PassedStart(Walk(g, false, reverse), origin, Char(findChar));
    }

    /** At most so many units are to come. */
    lemma Bounded()
      requires g.Placed(cursor) && g.Placed(origin) && pending && phase == 0 && scan == 0 && !ready && matchPhase == 0
      ensures Work() <= 6 * g.Area(|g.rows|) + 7
    {
      MotionBounded();
      g.AreaAtLeast(|g.rows|);
      hide MotionWork, Grid.Left, Grid.Area;
    }

    lemma MotionBounded()
      requires g.Placed(cursor) && phase == 0 && scan == 0
      ensures MotionWork() <= 3 * g.Area(|g.rows|) + 1
    {
      hide Grid.Left, Grid.Area, Gap, ViewWork, ParagraphWork, OccupiedWork, LastWork;
      g.AreaAtLeast(|g.rows|);
      g.LeftBounded(cursor, Word().reverse);
      g.LeftBounded(cursor, reverse);
      RowsBounded();
    }

    /** The motions that look for a row. */
    lemma RowsBounded()
      requires g.Placed(cursor) && phase == 0 && scan == 0
      ensures motion == ViewRow || motion == ToRow ==> ViewWork() <= 3 * g.Area(|g.rows|) + 1
      ensures motion == ParagraphUp || motion == ParagraphDown ==> ParagraphWork() <= 3 * g.Area(|g.rows|) + 1
      ensures motion == Occupied ==> OccupiedWork() <= 3 * g.Area(|g.rows|) + 1
      ensures motion == GoLast ==> LastWork() <= 3 * g.Area(|g.rows|) + 1
    {
      hide Grid.Left, Grid.Area, Gap;
      GapBounded(cursor.line, |g.rows|);
      GapBounded(Min(target, |g.rows| - 1), |g.rows|);
      assert Gap(0, g.width) <= g.width by { GapBounded(0, g.width); }
      g.AreaNext(cursor.line);
      g.AreaNext(|g.rows| - 1 - cursor.line);
      g.AreaGrows(cursor.line + 1, |g.rows|);
      g.AreaGrows(|g.rows| - cursor.line, |g.rows|);
      g.AreaAtLeast(|g.rows|);
    }

    lemma GapBounded(a: nat, n: nat)
      ensures Gap(a, n) <= n
      ensures forall b: nat | b < n :: Gap(a, b) < n && (a < n ==> Gap(b, a) < n && (Gap(a, b) == 0 || Gap(b, a) == 0))
    {
    }

    /** Begin or end a selection, or change its kind; a selection of the same kind is ended. */
    method Select(m: Mode)
      requires Valid()
      modifies `anchor, `selecting, `mode, `ready, `matchPhase
      ensures Valid() && (selecting <==> !old(selecting) || old(mode) != m)
      ensures selecting ==> mode == m && !ready && anchor == if old(selecting) then old(anchor) else cursor
    {
      hide Seeking;
      if !selecting { anchor, selecting := cursor, true; } else if mode == m { selecting := false; }
      mode, ready, matchPhase := m, false, 0;
    }

    lemma AnsweredEither(a: bool, b: bool)
      requires g.Placed(cursor) && g.Placed(origin) && motion != Find
      ensures Answered(a) <==> Answered(b)
    {
    }

    /** What a finished selection covers. */
    lemma Settled()
      requires Valid()
      ensures Done() && selecting && mode == Lines ==> LinesAnswer(g, anchor, cursor, first, last)
      ensures Done() && selecting && mode == Semantic ==> SemanticAnswer(g, stops, anchor, cursor, first, last)
    {
      hide Seeking, LinesAnswer, SemanticAnswer;
    }

    /** One unit of the motion, or then of the selection. */
    method Unit()
      requires Valid() && !Done()
      modifies `cursor, `pending, `phase, `scan, `wordKind, `rowText, `reverse, `candidate, `bracket, `peer, `depth,
               `walked, `first, `last, `matchPhase, `ready
      ensures Valid() && Work() < old(Work())
      ensures if old(pending) then !pending ==> Answered(old(reverse)) else !pending && cursor == old(cursor)
      ensures pending && motion == Find ==> reverse == old(reverse)
    {
      hide Seeking, MotionWork, Answered, LinesSeek, LinesWork, SemanticSeek, Grid.Left, Grid.Area;
      if pending {
        Idle();
        WorkToDo();
        MotionStep();
        Idle();
      } else if mode == Lines {
        LinesStep();
      } else {
        SemanticStep();
      }
    }

    lemma WorkToDo()
      requires g.Placed(cursor)
      ensures MotionWork() > 0
    {
      g.AreaAtLeast(|g.rows|);
    }

    /** A selection that has not begun to expand. */
    lemma Idle()
      requires g.Placed(cursor) && (selecting ==> g.Placed(anchor)) && matchPhase == 0 && !ready
      ensures selecting ==> SelectionSeek()
      ensures Expands() ==> SelectionWork() == if mode == Lines then 2 * |g.rows| + 4 else 3 * g.Area(|g.rows|) + 6
    {
    }

    /** One call: at most `budget` units. What is left of the bound on the units falls by one with each of them, so a
        call with a larger budget than that finishes; then the motion has led where it should and the selection covers
        what it should. */
    method Step(budget: nat) returns (done: bool)
      requires Valid()
      modifies `cursor, `pending, `phase, `scan, `wordKind, `rowText, `reverse, `candidate, `bracket, `peer, `depth,
               `walked, `first, `last, `matchPhase, `ready
      ensures Valid() && done == Done() && (!done ==> Work() + budget <= old(Work()))
      ensures if old(pending) then !pending ==> Answered(old(reverse)) else cursor == old(cursor)
      ensures done && selecting && mode == Lines ==> LinesAnswer(g, anchor, cursor, first, last)
      ensures done && selecting && mode == Semantic ==> SemanticAnswer(g, stops, anchor, cursor, first, last)
    {
      hide Seeking, MotionWork, SelectionWork, Answered, Grid.Left, Grid.Area;
      var left := budget;
      while left > 0 && !Done()
        invariant 0 <= left <= budget && Valid() && Work() + (budget - left) <= old(Work())
        invariant if old(pending) then !pending ==> Answered(old(reverse)) else !pending && cursor == old(cursor)
        invariant pending && motion == Find ==> reverse == old(reverse)
      {
        left := left - 1;
        ghost var was := reverse;
        Unit();
        if old(pending) && !pending && motion != Find { AnsweredEither(was, old(reverse)); }
      }
      done := Done();
      Settled();
    }
  }
}
