/** Occurrences of a query in a token sequence, and the failure function that finds them in one pass. */
module LiteralText {
  import opened Common
  import opened Rows
  import opened Streams

  function FoldAscii(cp: CodePoint, fold: bool): CodePoint {
    if fold && 'A' as nat <= cp <= 'Z' as nat then cp + 32 else cp
  }

  function Folded(s: seq<CodePoint>, fold: bool): (r: seq<CodePoint>)
    ensures |r| == |s| && forall k :: 0 <= k < |s| ==> r[k] == FoldAscii(s[k], fold)
  {
    seq(|s|, k requires 0 <= k < |s| => FoldAscii(s[k], fold))
  }

  /** The folded query `q` occurs in the folded text `w` with its end at `e`. */
  predicate OccursAt(q: seq<CodePoint>, w: seq<CodePoint>, e: nat) {
    |q| <= e <= |w| && w[e - |q|..e] == q
  }

  /** The scalars are the same, or the capital and the small form of one ASCII letter. */
  predicate Alike(a: CodePoint, b: CodePoint) {
    || a == b || ('A' as nat <= a <= 'Z' as nat && a + ('a' as nat - 'A' as nat) == b)
    || ('A' as nat <= b <= 'Z' as nat && b + ('a' as nat - 'A' as nat) == a)
  }

  /** What an occurrence is in terms of the query and the text themselves: scalar by scalar they are the same, or with
      folding alike. */
  lemma OccursMeans(q: seq<CodePoint>, w: seq<CodePoint>, fold: bool, e: nat)
    requires |q| <= e <= |w|
    ensures OccursAt(Folded(q, fold), Folded(w, fold), e)
            <==> forall k | 0 <= k < |q| :: if fold then Alike(q[k], w[e - |q| + k]) else q[k] == w[e - |q| + k]
  {
    var p, s := Folded(q, fold), Folded(w, fold)[e - |q|..e];
    forall k | 0 <= k < |q|
      ensures p[k] == s[k] <==> if fold then Alike(q[k], w[e - |q| + k]) else q[k] == w[e - |q| + k]
    {
      assert s[k] == FoldAscii(w[e - |q| + k], fold);
    }
    if forall k | 0 <= k < |q| :: if fold then Alike(q[k], w[e - |q| + k]) else q[k] == w[e - |q| + k] {
      assert p == s;
    }
  }

  /** The spans of all occurrences that end at or before `upto`, overlapping ones included, in the order of their
      ends. */
  function Hits(q: seq<CodePoint>, tokens: seq<Token>, fold: bool, upto: nat): seq<Span>
    requires q != [] && upto <= |tokens|
  {
    if upto == 0 then []
    else Hits(q, tokens, fold, upto - 1)
         + if OccursAt(q, Folded(Scalars(tokens), fold), upto)
           then [Span(tokens[upto - |q|].first, tokens[upto - 1].end)] else []
  }

  // ----- Prefixes that end a text -----

  /** The text `w` ends with the first `k` scalars of `q`. */
  predicate EndsWith(q: seq<CodePoint>, w: seq<CodePoint>, k: nat) {
    k <= |q| && k <= |w| && w[|w| - k..] == q[..k]
  }

  /** The longest such `k` of all. */
  ghost predicate Longest(q: seq<CodePoint>, w: seq<CodePoint>, k: nat) {
    EndsWith(q, w, k) && forall j: nat | EndsWith(q, w, j) :: j <= k
  }

  /** The longest such `k` short of the whole query. */
  ghost predicate LongestProper(q: seq<CodePoint>, w: seq<CodePoint>, k: nat) {
    k < |q| && EndsWith(q, w, k) && forall j: nat | j < |q| && EndsWith(q, w, j) :: j <= k
  }

  lemma EndsWithOneMore(q: seq<CodePoint>, w: seq<CodePoint>, c: CodePoint, k: nat)
    ensures EndsWith(q, w + [c], k + 1) <==> k < |q| && EndsWith(q, w, k) && q[k] == c
  {
    var w' := w + [c];
    if k < |q| && k <= |w| {
      assert w'[|w'| - (k + 1)..] == w[|w| - k..] + [c];
      assert q[..k + 1] == q[..k] + [q[k]];
      if EndsWith(q, w', k + 1) {
        assert w[|w| - k..] == w'[|w'| - (k + 1)..][..k] == q[..k + 1][..k] == q[..k];
        assert c == w'[|w'| - (k + 1)..][k] == q[..k + 1][k];
      }
    }
  }

  /** What ends a text within its last `k` scalars, which are the first `k` of the query, ends those. */
  lemma EndsWithin(q: seq<CodePoint>, w: seq<CodePoint>, k: nat, j: nat)
    requires EndsWith(q, w, k) && j <= k
    ensures EndsWith(q, w, j) <==> EndsWith(q, q[..k], j)
  {
    assert w[|w| - j..] == w[|w| - k..][k - j..] == q[..k][k - j..];
  }

  /** Entry `i` of the failure function: the longest prefix of the query that ends `q[1..i + 1]`. */
  ghost predicate Falls(q: seq<CodePoint>, i: nat, k: nat)
    requires i < |q|
  {
    k <= i && Longest(q, q[1..i + 1], k)
  }

  lemma ProperEnds(q: seq<CodePoint>, i: nat, j: nat)
    requires i < |q| && j <= i
    ensures EndsWith(q, q[1..i + 1], j) <==> EndsWith(q, q[..i + 1], j)
  {
    assert q[1..i + 1][i - j..] == q[..i + 1][i + 1 - j..];
  }

  /** Falling back from a match of length `k + 1` that does not extend loses no shorter candidate. */
  lemma FallKeeps(q: seq<CodePoint>, w: seq<CodePoint>, c: CodePoint, k: nat, next: nat)
    requires k + 1 < |q| && EndsWith(q, w, k + 1) && q[k + 1] != c && Falls(q, k, next)
    requires forall j: nat | j < |q| && EndsWith(q, w, j) && q[j] == c :: j <= k + 1
    ensures EndsWith(q, w, next)
    ensures forall j: nat | j < |q| && EndsWith(q, w, j) && q[j] == c :: j <= next
  {
    ProperEnds(q, k, next);
    EndsWithin(q, w, k + 1, next);
    forall j: nat | j < |q| && EndsWith(q, w, j) && q[j] == c
      ensures j <= next
    {
      EndsWithin(q, w, k + 1, j);
      ProperEnds(q, k, j);
    }
  }

  lemma ExtendsLongest(q: seq<CodePoint>, w: seq<CodePoint>, c: CodePoint, k: nat)
    requires k < |q| && EndsWith(q, w, k) && (k == 0 || q[k] == c)
    requires forall j: nat | j < |q| && EndsWith(q, w, j) && q[j] == c :: j <= k
    ensures Longest(q, w + [c], if q[k] == c then k + 1 else k)
  {
    forall j: nat | EndsWith(q, w + [c], j)
      ensures j <= if q[k] == c then k + 1 else k
    {
      if j > 0 { EndsWithOneMore(q, w, c, j - 1); }
    }
    EndsWithOneMore(q, w, c, k);
  }

  /** After a full match the longest proper candidate is the last entry of the failure function. */
  lemma WholeFalls(q: seq<CodePoint>, w: seq<CodePoint>, next: nat)
    requires q != [] && EndsWith(q, w, |q|) && Falls(q, |q| - 1, next)
    ensures LongestProper(q, w, next)
  {
    var i := |q| - 1;
    forall j: nat | j < |q|
      ensures EndsWith(q, w, j) <==> EndsWith(q, q[1..i + 1], j)
    {
      EndsWithin(q, w, |q|, j);
      ProperEnds(q, i, j);
    }
  }

  lemma WholeOccurs(q: seq<CodePoint>, w: seq<CodePoint>, n: nat)
    requires n <= |w|
    ensures EndsWith(q, w[..n], |q|) <==> OccursAt(q, w, n)
  {
    if |q| <= n { assert w[..n][n - |q|..] == w[n - |q|..n]; }
  }

  // ----- Matches are distinct -----

  predicate Before(a: Position, b: Position) {
    a.line < b.line || (a.line == b.line && a.column < b.column)
  }

  /** The tokens lie one after the other, from position `p` on. */
  ghost predicate Ascending(tokens: seq<Token>, p: Position) {
    && (forall a <- tokens :: !Before(a.first, p))
    && forall a, b | 0 <= a < b < |tokens| :: Before(tokens[a].first, tokens[b].first)
  }

  lemma AscendingCons(t: Token, tokens: seq<Token>, p: Position, p': Position)
    requires !Before(t.first, p) && Before(t.first, p') && Ascending(tokens, p')
    ensures Ascending([t] + tokens, p)
  {
    var all := [t] + tokens;
    forall b | 0 < b < |all|
      ensures Before(t.first, all[b].first) && !Before(all[b].first, p)
    {
      assert all[b] == tokens[b - 1] && all[b] in tokens;
    }
  }

  lemma AscendingFrom(tokens: seq<Token>, p: Position, p': Position)
    requires Ascending(tokens, p') && !Before(p', p)
    ensures Ascending(tokens, p)
  {
  }

  lemma {:induction false} CellsAscend(rows: seq<Row>, line: nat, from: nat)
    requires line < |rows|
    ensures var end := TextEnd(rows[line]);
            Ascending(CellTokens(rows[line], line, from, end, end) + TokensAfter(rows, line),
                      Position(line, Min(from, end)))
    decreases |rows| - line, 1, Gap(from, TextEnd(rows[line]))
  {
    hide TokensAfter, Ascending;
    var row, end := rows[line], TextEnd(rows[line]);
    var after := TokensAfter(rows, line);
    if from >= end {
      AfterAscends(rows, line);
      assert [] + after == after;
    } else {
      CellsAscend(rows, line, from + 1);
      var rest := CellTokens(row, line, from + 1, end, end);
      if row.cells[from].cp == WIDE_CONT {
        assert ([] + rest) + after == rest + after;
        AscendingFrom(rest + after, Position(line, from), Position(line, from + 1));
      } else {
        var t := CellToken(row, line, from, end);
        AscendingCons(t, rest + after, Position(line, from), Position(line, from + 1));
        assert ([t] + rest) + after == [t] + (rest + after);
      }
    }
  }

  lemma {:induction false} AfterAscends(rows: seq<Row>, line: nat)
    requires line < |rows|
    ensures Ascending(TokensAfter(rows, line), Position(line, TextEnd(rows[line])))
    decreases |rows| - line, 0, 0
  {
    var end := TextEnd(rows[line]);
    if line + 1 < |rows| {
      CellsAscend(rows, line + 1, 0);
      var rest := TokensFrom(rows, line + 1, 0);
      hide TokensFrom, TextEnd;
      if rows[line].Hard() {
        AscendingCons(Break(line, end), rest, Position(line, end), Position(line + 1, 0));
      } else {
        AscendingFrom(rest, Position(line, end), Position(line + 1, 0));
        assert [] + rest == rest;
      }
    }
  }
}
