/** Token streams over retained rows: one bounded step per call, forwards or backwards. */
module Streams {
  import opened Common
  import opened Rows

  /** A column of a row, identified by its index; the index after the last row stands for no row. */
  datatype Position = Position(line: nat, column: nat)

  /** A scalar or hard line break, with its first position and the exclusive end. */
  datatype Token = Token(cp: CodePoint, first: Position, end: Position)

  /** A match: its first position and its exclusive end. */
  datatype Span = Span(first: Position, end: Position)

  /** What one call of a search returns. */
  datatype SearchResult = SearchDone | SearchMore | SearchFound(match_: Span)

  function Scalars(tokens: seq<Token>): (w: seq<CodePoint>)
    ensures |w| == |tokens| && forall k :: 0 <= k < |w| ==> w[k] == tokens[k].cp
  {
    seq(|tokens|, k requires 0 <= k < |tokens| => tokens[k].cp)
  }

  datatype Stream = Stream(line: nat, column: nat, limit: nat, limitReady: bool, trimming: bool,
                           head: nat, reverse: bool, seeking: bool, separator: bool)

  datatype Outcome = Done | More | Found(token: Token)

  datatype Stepped = Stepped(stream: Stream, outcome: Outcome)

  function Begin(first: nat, column: nat): Stream {
    Stream(first, column, 0, false, false, 0, false, false, false)
  }

  function ReverseBegin(first: nat): Stream {
    Begin(first, 0).(head := first, reverse := true, seeking := true)
  }

  /** A stream can be stepped: its limit lies within the current row. */
  predicate Fit(rows: seq<Row>, s: Stream) {
    && s.line <= |rows|
    && (s.limitReady && s.line < |rows| ==>
          && s.limit <= |rows[s.line].cells|
          && (s.reverse && !s.seeking ==> s.column <= s.limit))
    && (s.reverse && s.line < |rows| ==> s.head <= s.line && (s.separator ==> s.line + 1 < |rows|))
  }

  /** Determine where the current row's scan starts to look for its end. */
  function Prepared(rows: seq<Row>, s: Stream): (t: Stream)
    requires Fit(rows, s) && s.line < |rows|
    ensures t.line == s.line && t.limitReady && t.limit <= |rows[t.line].cells|
  {
    if s.limitReady then s
    else
      var row := rows[s.line];
      var limit := if row.Hard() then |row.cells| else Min(|row.cells|, row.Boundary());
      s.(limit := limit, limitReady := true, trimming := row.Hard(), column := if s.reverse then limit else s.column)
  }

  predicate TrimsOne(rows: seq<Row>, s: Stream)
    requires s.line < |rows| && s.limit <= |rows[s.line].cells|
  {
    s.trimming && s.limit > 0 && Background(rows[s.line].cells[s.limit - 1])
  }

  function Shown(cp: CodePoint): CodePoint {
    if cp == 0 then BLANK else cp
  }

  /** The token of the cell at `column`, which takes in a following wide continuation before `limit`. */
  function CellToken(row: Row, line: nat, column: nat, limit: nat): Token
    requires column < limit <= |row.cells|
  {
    var wide := column + 1 < limit && row.cells[column + 1].cp == WIDE_CONT;
    Token(Shown(row.cells[column].cp), Position(line, column), Position(line, if wide then column + 2 else column + 1))
  }

  /** The line break at the end of a hard row. */
  function Break(line: nat, limit: nat): Token {
    Token(NEWLINE, Position(line, limit), Position(line + 1, 0))
  }

  function ForwardStep(rows: seq<Row>, s0: Stream): (r: Stepped)
    requires Fit(rows, s0) && !s0.reverse
  {
    if s0.line == |rows| then Stepped(s0, Done)
    else
      var s := Prepared(rows, s0);
      if TrimsOne(rows, s) then Stepped(s.(limit := s.limit - 1), More)
      else
        var t := s.(trimming := false);
        var row := rows[t.line];
        if t.column >= t.limit then
          var next := t.(line := t.line + 1, column := 0, limitReady := false);
          if next.line == |rows| then Stepped(next, Done)
          else if !row.Hard() then Stepped(next, More)
          else Stepped(next, Found(Break(t.line, t.limit)))
        else
          var next := t.(column := t.column + 1);
          if row.cells[t.column].cp == WIDE_CONT then Stepped(next, More)
          else Stepped(next, Found(CellToken(row, t.line, t.column, t.limit)))
  }

  function ReverseStep(rows: seq<Row>, s0: Stream): (r: Stepped)
    requires Fit(rows, s0) && s0.reverse
  {
    if s0.line == |rows| then Stepped(s0, Done)
    else if s0.seeking then
      Stepped(if s0.line + 1 < |rows| then s0.(line := s0.line + 1) else s0.(seeking := false), More)
    else
      var s := Prepared(rows, s0);
      if TrimsOne(rows, s) then Stepped(s.(limit := s.limit - 1, column := s.limit - 1), More)
      else
        var t := s.(trimming := false, separator := false);
        var row := rows[t.line];
        if s.separator && row.Hard() then Stepped(t, Found(Break(t.line, t.limit)))
        else if t.column == 0 then
          if t.line == t.head then Stepped(t.(line := |rows|, limitReady := false, separator := true), Done)
          else Stepped(t.(line := t.line - 1, limitReady := false, separator := true), More)
        else
          var next := t.(column := t.column - 1);
          if row.cells[next.column].cp == WIDE_CONT then Stepped(next, More)
          else Stepped(next, Found(CellToken(row, t.line, next.column, t.limit)))
  }

  function Step(rows: seq<Row>, s: Stream): Stepped
    requires Fit(rows, s)
  {
    if s.reverse then ReverseStep(rows, s) else ForwardStep(rows, s)
  }

  // ----- The text of the rows -----

  /** The token of one cell; the second cell of a wide glyph has none of its own. */
  function OwnToken(row: Row, line: nat, column: nat, limit: nat): seq<Token>
    requires column < limit <= |row.cells|
  {
    if row.cells[column].cp == WIDE_CONT then [] else [CellToken(row, line, column, limit)]
  }

  /** The tokens of columns `from..to` of a row whose text ends at `limit`. */
  function CellTokens(row: Row, line: nat, from: nat, to: nat, limit: nat): seq<Token>
    requires to <= limit <= |row.cells|
    decreases Gap(from, to)
  {
    if from >= to then []
    else OwnToken(row, line, from, limit) + CellTokens(row, line, from + 1, to, limit)
  }

  function BreakTokens(rows: seq<Row>, line: nat): seq<Token>
    requires line < |rows|
  {
    if line + 1 < |rows| && rows[line].Hard() then [Break(line, TextEnd(rows[line]))] else []
  }

  /** All tokens from a column of a row to the end of the last row. */
  function TokensFrom(rows: seq<Row>, line: nat, column: nat): seq<Token>
    decreases |rows| - line, 1
  {
    if line >= |rows| then []
    else CellTokens(rows[line], line, column, TextEnd(rows[line]), TextEnd(rows[line])) + TokensAfter(rows, line)
  }

  /** The tokens after the cells of a row. */
  function TokensAfter(rows: seq<Row>, line: nat): seq<Token>
    requires line < |rows|
    decreases |rows| - line, 0
  {
    BreakTokens(rows, line) + TokensFrom(rows, line + 1, 0)
  }

  /** All tokens from row `head` up to a column of row `line`. */
  function TokensBefore(rows: seq<Row>, head: nat, line: nat, column: nat): seq<Token>
    requires head <= line < |rows| && column <= TextEnd(rows[line])
    decreases line
  {
    (if line == head then []
     else TokensBefore(rows, head, line - 1, TextEnd(rows[line - 1])) + BreakTokens(rows, line - 1))
    + CellTokens(rows[line], line, 0, column, TextEnd(rows[line]))
  }

  /** The limit the current row will settle on agrees with where its text ends. */
  ghost predicate Settling(rows: seq<Row>, s: Stream)
    requires s.line < |rows|
  {
    s.limitReady ==>
      && s.limit <= |rows[s.line].cells|
      && (if s.trimming then rows[s.line].Hard() && Trimmed(rows[s.line].cells, s.limit) == TextEnd(rows[s.line])
          else s.limit == TextEnd(rows[s.line]))
      && (s.trimming && s.reverse ==> s.column == s.limit)
  }

  ghost predicate Valid(rows: seq<Row>, s: Stream) {
    && Fit(rows, s)
    && (s.line < |rows| && !(s.reverse && s.seeking) ==> Settling(rows, s))
    && (s.reverse && s.seeking && s.line < |rows| ==> !s.limitReady && !s.separator)
    && (s.reverse && s.line < |rows| && s.limitReady && s.separator ==> s.column == s.limit)
  }

  /** The line break a backward stream still owes on entering a row from below. */
  ghost function Pending(rows: seq<Row>, s: Stream): seq<Token>
    requires s.line < |rows|
  {
    if s.separator then BreakTokens(rows, s.line) else []
  }

  /** The tokens a stream has yet to yield. */
  ghost function Rest(rows: seq<Row>, s: Stream): seq<Token>
    requires Valid(rows, s)
  {
    if s.line == |rows| then []
    else if !s.reverse then TokensFrom(rows, s.line, s.column)
    else if s.seeking then Reversed(TokensFrom(rows, s.head, 0))
    else
      var end := TextEnd(rows[s.line]);
      var here := if s.limitReady && !s.trimming then s.column else end;
      Pending(rows, s) + Reversed(TokensBefore(rows, s.head, s.line, here))
  }

  // ----- Work -----

  function CellsBetween(rows: seq<Row>, from: nat, to: nat): nat
    requires to <= |rows|
    decreases Gap(from, to)
  {
    if from >= to then 0 else |rows[from].cells| + CellsBetween(rows, from + 1, to)
  }

  /** Steps the current row may still take. */
  function RowEffort(rows: seq<Row>, s: Stream): nat
    requires s.line < |rows|
  {
    var extra := if s.reverse && (!s.limitReady || s.separator) then 2 else 1;
    extra + if !s.limitReady then |rows[s.line].cells|
            else if s.trimming then s.limit
            else if s.reverse then s.column
            else Gap(s.column, s.limit)
  }

  /** An upper bound on the steps before a stream is done. */
  function Effort(rows: seq<Row>, s: Stream): nat
    requires Fit(rows, s)
  {
    if s.line == |rows| then 0
    else if !s.reverse then RowEffort(rows, s) + CellsBetween(rows, s.line + 1, |rows|) + (|rows| - s.line - 1)
    else if s.seeking then (|rows| - s.line) + CellsBetween(rows, s.head, |rows|) + 2 * (|rows| - s.head)
    else RowEffort(rows, s) + CellsBetween(rows, s.head, s.line) + 2 * (s.line - s.head)
  }

  lemma {:induction false} CellsSplit(rows: seq<Row>, a: nat, b: nat, c: nat)
    requires a <= b <= c <= |rows|
    ensures CellsBetween(rows, a, c) == CellsBetween(rows, a, b) + CellsBetween(rows, b, c)
    decreases Gap(a, b)
  {
    if a < b { CellsSplit(rows, a + 1, b, c); }
  }

  /** Both directions finish within a number of steps linear in rows and cells. */
  lemma EffortLinear(rows: seq<Row>, first: nat, column: nat)
    requires first <= |rows|
    ensures Fit(rows, Begin(first, column)) && Fit(rows, ReverseBegin(first))
    ensures Effort(rows, Begin(first, column)) <= CellsBetween(rows, first, |rows|) + (|rows| - first)
    ensures Effort(rows, ReverseBegin(first)) <= CellsBetween(rows, first, |rows|) + 3 * (|rows| - first)
  {
  }

  // ----- Steps yield the text -----

  lemma {:induction false} CellTokensSnoc(row: Row, line: nat, from: nat, to: nat, limit: nat)
    requires from <= to < limit <= |row.cells|
    ensures CellTokens(row, line, from, to + 1, limit)
            == CellTokens(row, line, from, to, limit) + OwnToken(row, line, to, limit)
    decreases Gap(from, to)
  {
    if from < to {
      CellTokensSnoc(row, line, from + 1, to, limit);
    }
  }

  lemma PreparedSettles(rows: seq<Row>, s: Stream)
    requires Valid(rows, s) && s.line < |rows| && !(s.reverse && s.seeking)
    ensures var t := Prepared(rows, s);
            Valid(rows, t) && Rest(rows, t) == Rest(rows, s) && Effort(rows, t) <= Effort(rows, s)
    ensures var t := Prepared(rows, s); Settling(rows, t) && (t.trimming && t.reverse ==> t.column == t.limit)
  {
  }

  /** What a step of a stream means for the tokens to come. */
  ghost predicate StepMeans(rows: seq<Row>, s: Stream, r: Stepped)
    requires Valid(rows, s)
  {
    && Valid(rows, r.stream)
    && r.stream.reverse == s.reverse && r.stream.head == s.head
    && match r.outcome
       case Done => Rest(rows, s) == [] && r.stream.line == |rows|
       case More => Rest(rows, r.stream) == Rest(rows, s) && Effort(rows, r.stream) < Effort(rows, s)
       case Found(token) =>
         && Rest(rows, s) == [token] + Rest(rows, r.stream) && Effort(rows, r.stream) < Effort(rows, s)
         && r.stream.line < |rows|
  }

  lemma StepIgnoresPreparing(rows: seq<Row>, s: Stream)
    requires Valid(rows, s) && s.line < |rows| && !(s.reverse && s.seeking) && Valid(rows, Prepared(rows, s))
    ensures Step(rows, s) == Step(rows, Prepared(rows, s))
  {
    hide Rest, Effort;
  }

  lemma StepPrepared(rows: seq<Row>, s: Stream)
    requires Valid(rows, s) && s.line < |rows| && !(s.reverse && s.seeking)
    requires Valid(rows, Prepared(rows, s)) && StepMeans(rows, Prepared(rows, s), Step(rows, Prepared(rows, s)))
    ensures StepMeans(rows, s, Step(rows, s))
  {
    PreparedSettles(rows, s);
    StepIgnoresPreparing(rows, s);
    hide Rest, Effort, Step;
  }

  lemma ForwardTrim(rows: seq<Row>, s: Stream)
    requires Valid(rows, s) && !s.reverse && s.line < |rows| && s.limitReady && TrimsOne(rows, s)
    ensures StepMeans(rows, s, Step(rows, s))
  {
  }

  lemma TokensFromCell(rows: seq<Row>, line: nat, column: nat)
    requires line < |rows| && column < TextEnd(rows[line])
    ensures TokensFrom(rows, line, column)
            == OwnToken(rows[line], line, column, TextEnd(rows[line])) + TokensFrom(rows, line, column + 1)
  {
    var row, end := rows[line], TextEnd(rows[line]);
    var own, cells := OwnToken(row, line, column, end), CellTokens(row, line, column + 1, end, end);
    assert CellTokens(row, line, column, end, end) == own + cells;
    hide CellTokens, OwnToken, TextEnd, TokensAfter;
    assert TokensFrom(rows, line, column + 1) == cells + TokensAfter(rows, line);
    assert TokensFrom(rows, line, column) == (own + cells) + TokensAfter(rows, line);
    assert (own + cells) + TokensAfter(rows, line) == own + (cells + TokensAfter(rows, line));
  }

  lemma SettledEnd(rows: seq<Row>, s: Stream)
    requires s.line < |rows| && Settling(rows, s) && s.limitReady && !TrimsOne(rows, s)
    ensures s.limit == TextEnd(rows[s.line])
  {
  }

  lemma ForwardCell(rows: seq<Row>, s: Stream)
    requires Valid(rows, s) && !s.reverse && s.line < |rows| && s.limitReady && !TrimsOne(rows, s) && s.column < s.limit
    ensures StepMeans(rows, s, Step(rows, s))
  {
    hide TokensFrom, CellTokens, CellToken, TextEnd, CellsBetween, Reversed, TokensBefore, BreakTokens, Trimmed,
         Background;
    SettledEnd(rows, s);
    TokensFromCell(rows, s.line, s.column);
    var next, cell := s.(trimming := false, column := s.column + 1), rows[s.line].cells[s.column];
    assert Step(rows, s) ==
           Stepped(next, if cell.cp == WIDE_CONT then More
                   else Found(CellToken(rows[s.line], s.line, s.column, s.limit)));
    hide Step;
  }

  lemma ForwardTurn(rows: seq<Row>, s: Stream)
    requires Valid(rows, s) && !s.reverse && s.line < |rows| && s.limitReady && !TrimsOne(rows, s)
             && s.column >= s.limit
    ensures StepMeans(rows, s, Step(rows, s))
  {
    hide Reversed, TokensBefore, Trimmed, Background;
    SettledEnd(rows, s);
    hide TextEnd;
    var row, end := rows[s.line], TextEnd(rows[s.line]);
    assert CellTokens(row, s.line, s.column, end, end) == [];
    assert TokensFrom(rows, s.line, s.column) == [] + TokensAfter(rows, s.line) == TokensAfter(rows, s.line);
    hide CellTokens;
    assert !(s.line + 1 < |rows| && row.Hard()) ==>
           TokensAfter(rows, s.line) == [] + TokensFrom(rows, s.line + 1, 0) == TokensFrom(rows, s.line + 1, 0);
  }

  lemma ForwardStepMeans(rows: seq<Row>, s0: Stream)
    requires Valid(rows, s0) && !s0.reverse
    ensures StepMeans(rows, s0, Step(rows, s0))
  {
    if s0.line < |rows| {
      PreparedSettles(rows, s0);
      var s := Prepared(rows, s0);
      if TrimsOne(rows, s) { ForwardTrim(rows, s); }
      else if s.column < s.limit { ForwardCell(rows, s); }
      else { ForwardTurn(rows, s); }
      StepPrepared(rows, s0);
    }
  }

  lemma ReverseSeek(rows: seq<Row>, s: Stream)
    requires Valid(rows, s) && s.reverse && s.line < |rows| && s.seeking
    ensures StepMeans(rows, s, Step(rows, s))
  {
    if s.line + 1 == |rows| {
      var end := TextEnd(rows[s.line]);
      TokensMeet(rows, s.head, s.line);
      CellsSplit(rows, s.head, s.line, |rows|);
      assert TokensAfter(rows, s.line) == [];
      assert TokensFrom(rows, s.head, 0) == TokensBefore(rows, s.head, s.line, end);
      hide TokensFrom, TokensBefore, Reversed, TextEnd;
      var next := s.(seeking := false);
      assert Step(rows, s) == Stepped(next, More);
      assert Rest(rows, next) == [] + Reversed(TokensBefore(rows, s.head, s.line, end));
    }
  }

  /** The text from `head` on is the text before any later row's end followed by the rest. */
  lemma {:induction false} TokensMeet(rows: seq<Row>, head: nat, line: nat)
    requires head <= line < |rows|
    ensures TokensFrom(rows, head, 0) ==
            TokensBefore(rows, head, line, TextEnd(rows[line])) + TokensAfter(rows, line)
    decreases line - head
  {
    if head < line {
      hide *;
      TokensMeet(rows, head, line - 1);
      RowsMeet(rows, head, line);
    }
  }

  /** The text before a row's end and after it is the same as for the row above. */
  lemma RowsMeet(rows: seq<Row>, head: nat, line: nat)
    requires head < line < |rows|
    ensures TokensBefore(rows, head, line - 1, TextEnd(rows[line - 1])) + TokensAfter(rows, line - 1) ==
            TokensBefore(rows, head, line, TextEnd(rows[line])) + TokensAfter(rows, line)
  {
    hide CellTokens, BreakTokens, TextEnd;
    var end := TextEnd(rows[line]);
    var cells := CellTokens(rows[line], line, 0, end, end);
    assert TokensFrom(rows, line, 0) == cells + TokensAfter(rows, line);
    Regrouped(TokensBefore(rows, head, line - 1, TextEnd(rows[line - 1])), BreakTokens(rows, line - 1), cells,
              TokensAfter(rows, line));
  }

  lemma Regrouped<T>(a: seq<T>, b: seq<T>, c: seq<T>, d: seq<T>)
    ensures a + (b + (c + d)) == a + b + c + d
  {
  }

  lemma ReverseTrim(rows: seq<Row>, s: Stream)
    requires Valid(rows, s) && s.reverse && s.line < |rows| && !s.seeking && s.limitReady && TrimsOne(rows, s)
    ensures StepMeans(rows, s, Step(rows, s))
  {
  }

  lemma ReverseBreak(rows: seq<Row>, s: Stream)
    requires Valid(rows, s) && s.reverse && s.line < |rows| && !s.seeking && s.limitReady && !TrimsOne(rows, s)
    requires s.separator && rows[s.line].Hard()
    ensures StepMeans(rows, s, Step(rows, s))
  {
    assert s.limit == TextEnd(rows[s.line]) && BreakTokens(rows, s.line) == [Break(s.line, s.limit)];
    hide TokensBefore, Reversed, TextEnd, BreakTokens, CellsBetween;
    var next := s.(trimming := false, separator := false);
    assert Step(rows, s) == Stepped(next, Found(Break(s.line, s.limit)));
    hide Step;
    assert Pending(rows, next) == [];
    assert Rest(rows, next) == [] + Reversed(TokensBefore(rows, s.head, s.line, s.column))
           == Reversed(TokensBefore(rows, s.head, s.line, s.column));
  }

  lemma ReverseTurn(rows: seq<Row>, s: Stream)
    requires Valid(rows, s) && s.reverse && s.line < |rows| && !s.seeking && s.limitReady && !TrimsOne(rows, s)
    requires !(s.separator && rows[s.line].Hard()) && s.column == 0
    ensures StepMeans(rows, s, Step(rows, s))
  {
    hide CellsBetween, CellTokens, TextEnd, Reversed;
    assert Pending(rows, s) == [];
    assert Rest(rows, s) == [] + Reversed(TokensBefore(rows, s.head, s.line, 0))
           == Reversed(TokensBefore(rows, s.head, s.line, 0));
    if s.line == s.head {
      NothingBefore(rows, s.head);
      assert Step(rows, s).outcome == Done && Step(rows, s).stream.line == |rows|;
    } else {
      TurnsUp(rows, s);
    }
  }

  lemma NothingBefore(rows: seq<Row>, head: nat)
    requires head < |rows|
    ensures Reversed(TokensBefore(rows, head, head, 0)) == []
  {
  }

  /** A backward stream has come to the start of a row and goes on above it. */
  predicate Turning(rows: seq<Row>, s: Stream, next: Stream) {
    && Fit(rows, s) && s.reverse && s.head < s.line < |rows| && !s.seeking && s.limitReady && s.column == 0
    && next == s.(trimming := false, separator := true, line := s.line - 1, limitReady := false)
  }

  lemma MoreMeans(rows: seq<Row>, s: Stream, next: Stream)
    requires Valid(rows, s) && Valid(rows, next) && Turning(rows, s, next)
    requires Rest(rows, next) == Rest(rows, s) && Effort(rows, next) < Effort(rows, s)
    ensures StepMeans(rows, s, Stepped(next, More))
  {
    hide Rest, Effort, Valid;
  }

  lemma TurnsUp(rows: seq<Row>, s: Stream)
    requires Valid(rows, s) && s.reverse && s.head < s.line < |rows| && !s.seeking && s.limitReady && !TrimsOne(rows, s)
    requires !(s.separator && rows[s.line].Hard()) && s.column == 0
    requires Rest(rows, s) == Reversed(TokensBefore(rows, s.head, s.line, 0))
    ensures StepMeans(rows, s, Step(rows, s))
  {
    TurnsTo(rows, s, s.(trimming := false, separator := true, line := s.line - 1, limitReady := false));
  }

  lemma TurnsTo(rows: seq<Row>, s: Stream, next: Stream)
    requires Turning(rows, s, next) && Valid(rows, s) && s.head < s.line < |rows|
    requires !TrimsOne(rows, s) && !(s.separator && rows[s.line].Hard())
    requires Rest(rows, s) == Reversed(TokensBefore(rows, s.head, s.line, 0))
    ensures StepMeans(rows, s, Step(rows, s))
  {
    hide *;
    TurnStep(rows, s, next);
    TurnValid(rows, s, next);
    assert Rest(rows, next) == Rest(rows, s) by {
      TurnRest(rows, s, next);
      RowAbove(rows, s.head, s.line);
    }
    TurnCheaper(rows, s, next);
    MoreMeans(rows, s, next);
  }

  lemma TurnStep(rows: seq<Row>, s: Stream, next: Stream)
    requires Turning(rows, s, next) && !TrimsOne(rows, s) && !(s.separator && rows[s.line].Hard())
    ensures Step(rows, s) == Stepped(next, More)
  {
    hide TextEnd;
  }

  lemma TurnValid(rows: seq<Row>, s: Stream, next: Stream)
    requires Turning(rows, s, next) && Valid(rows, s)
    ensures Valid(rows, next)
  {
    hide TextEnd;
  }

  lemma TurnRest(rows: seq<Row>, s: Stream, next: Stream)
    requires Turning(rows, s, next) && Valid(rows, next)
    ensures Rest(rows, next) ==
            BreakTokens(rows, s.line - 1) + Reversed(TokensBefore(rows, s.head, s.line - 1, TextEnd(rows[s.line - 1])))
  {
    hide TextEnd, TokensBefore, Reversed, BreakTokens, Settling;
  }

  lemma TurnCheaper(rows: seq<Row>, s: Stream, next: Stream)
    requires Turning(rows, s, next)
    ensures Fit(rows, next) && Effort(rows, next) < Effort(rows, s)
  {
    hide CellsBetween;
    CellsSplit(rows, s.head, s.line - 1, s.line);
    OneRow(rows, s.line - 1);
  }

  lemma OneRow(rows: seq<Row>, line: nat)
    requires line < |rows|
    ensures CellsBetween(rows, line, line + 1) == |rows[line].cells|
  {
  }

  lemma RowAbove(rows: seq<Row>, head: nat, line: nat)
    requires head < line < |rows|
    ensures Reversed(TokensBefore(rows, head, line, 0)) ==
            BreakTokens(rows, line - 1) + Reversed(TokensBefore(rows, head, line - 1, TextEnd(rows[line - 1])))
  {
    var above := TokensBefore(rows, head, line - 1, TextEnd(rows[line - 1]));
    assert TokensBefore(rows, head, line, 0) == above + BreakTokens(rows, line - 1) + [];
    ReversedAppend(above, BreakTokens(rows, line - 1));
    assert Reversed(BreakTokens(rows, line - 1)) == BreakTokens(rows, line - 1);
  }

  lemma TokensBeforeCell(rows: seq<Row>, head: nat, line: nat, column: nat)
    requires head <= line < |rows| && column < TextEnd(rows[line])
    ensures var own := OwnToken(rows[line], line, column, TextEnd(rows[line]));
            Reversed(TokensBefore(rows, head, line, column + 1))
              == own + Reversed(TokensBefore(rows, head, line, column))
  {
    var row, end := rows[line], TextEnd(rows[line]);
    var own := OwnToken(row, line, column, end);
    CellTokensSnoc(row, line, 0, column, end);
    assert TokensBefore(rows, head, line, column + 1) == TokensBefore(rows, head, line, column) + own;
    ReversedAppend(TokensBefore(rows, head, line, column), own);
    assert Reversed(own) == own;
  }

  lemma ReverseCell(rows: seq<Row>, s: Stream)
    requires Valid(rows, s) && s.reverse && s.line < |rows| && !s.seeking && s.limitReady && !TrimsOne(rows, s)
    requires !(s.separator && rows[s.line].Hard()) && s.column > 0
    ensures StepMeans(rows, s, Step(rows, s))
  {
    TokensBeforeCell(rows, s.head, s.line, s.column - 1);
    hide TokensBefore, Reversed, CellToken, CellTokens, CellsBetween;
    var next := s.(trimming := false, separator := false, column := s.column - 1);
    assert Step(rows, s).stream == next;
    assert Step(rows, s).outcome ==
           if rows[s.line].cells[next.column].cp == WIDE_CONT then More
           else Found(CellToken(rows[s.line], s.line, next.column, s.limit));
    hide Step;
    assert Pending(rows, s) == Pending(rows, next) == [];
    assert Rest(rows, s) == [] + Reversed(TokensBefore(rows, s.head, s.line, s.column))
           == Reversed(TokensBefore(rows, s.head, s.line, s.column));
    assert Rest(rows, next) == [] + Reversed(TokensBefore(rows, s.head, s.line, next.column))
           == Reversed(TokensBefore(rows, s.head, s.line, next.column));
    assert s.limit == TextEnd(rows[s.line]);
    if rows[s.line].cells[next.column].cp == WIDE_CONT {
      assert Rest(rows, s) == [] + Rest(rows, next) == Rest(rows, next);
    } else {
      assert Rest(rows, s) == [CellToken(rows[s.line], s.line, next.column, s.limit)] + Rest(rows, next);
    }
    assert Effort(rows, next) < Effort(rows, s) && Valid(rows, next);
    hide Rest, Effort, Valid;
  }

  lemma ReverseStepMeans(rows: seq<Row>, s0: Stream)
    requires Valid(rows, s0) && s0.reverse
    ensures StepMeans(rows, s0, Step(rows, s0))
  {
    if s0.line < |rows| {
      if s0.seeking {
        ReverseSeek(rows, s0);
      } else {
        PreparedSettles(rows, s0);
        var s := Prepared(rows, s0);
        if TrimsOne(rows, s) { ReverseTrim(rows, s); }
        else if s.separator && rows[s.line].Hard() { ReverseBreak(rows, s); }
        else if s.column == 0 { ReverseTurn(rows, s); }
        else { ReverseCell(rows, s); }
        StepPrepared(rows, s0);
      }
    }
  }

  /** Every step yields the next token of the text, or works towards it, or finds the text exhausted. */
  lemma StepYields(rows: seq<Row>, s: Stream)
    requires Valid(rows, s)
    ensures StepMeans(rows, s, Step(rows, s))
  {
    if s.reverse { ReverseStepMeans(rows, s); } else { ForwardStepMeans(rows, s); }
  }

  /** The tokens obtained by stepping a stream until it is done. */
  ghost function Yielded(rows: seq<Row>, s: Stream): seq<Token>
    requires Valid(rows, s)
    decreases Effort(rows, s)
  {
    StepYields(rows, s);
    var r := Step(rows, s);
    match r.outcome
    case Done => []
    case More => Yielded(rows, r.stream)
    case Found(token) => [token] + Yielded(rows, r.stream)
  }

  /** The steps taken until a stream is done, the last of which finds it done. */
  ghost function StepCount(rows: seq<Row>, s: Stream): nat
    requires Valid(rows, s)
    decreases Effort(rows, s)
  {
    StepYields(rows, s);
    var r := Step(rows, s);
    1 + if r.outcome == Done then 0 else StepCount(rows, r.stream)
  }

  lemma {:induction false} YieldsRest(rows: seq<Row>, s: Stream)
    requires Valid(rows, s)
    ensures Yielded(rows, s) == Rest(rows, s)
    ensures StepCount(rows, s) <= Effort(rows, s) + 1
    decreases Effort(rows, s)
  {
    StepYields(rows, s);
    hide Rest, Effort, Step, Valid;
    var r := Step(rows, s);
    if r.outcome != Done { YieldsRest(rows, r.stream); }
  }

  lemma BeginsValid(rows: seq<Row>, first: nat, column: nat)
    requires first <= |rows|
    ensures Valid(rows, Begin(first, column)) && Valid(rows, ReverseBegin(first))
  {
  }

  /** Stepped until done, a backward stream yields the tokens of the forward stream from the same row in the
      opposite order and with the same positions, and both are done after steps linear in rows and cells. */
  lemma BackwardIsReversed(rows: seq<Row>, first: nat)
    requires first <= |rows|
    ensures Valid(rows, Begin(first, 0)) && Valid(rows, ReverseBegin(first))
    ensures Yielded(rows, ReverseBegin(first)) == Reversed(Yielded(rows, Begin(first, 0)))
    ensures StepCount(rows, Begin(first, 0)) <= CellsBetween(rows, first, |rows|) + (|rows| - first) + 1
    ensures StepCount(rows, ReverseBegin(first)) <= CellsBetween(rows, first, |rows|) + 3 * (|rows| - first) + 1
  {
    BeginsValid(rows, first, 0);
    YieldsRest(rows, Begin(first, 0));
    YieldsRest(rows, ReverseBegin(first));
    EffortLinear(rows, first, 0);
  }
}
