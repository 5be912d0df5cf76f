/** The resumable literal search: one pass over the token stream with a failure function and a ring of recent
    positions. */
module LiteralSearch {
  import opened Common
  import opened Rows
  import opened Streams
  import opened LiteralText

  // ----- The ring of recent positions -----

  /** Slot `j % |r|` holds where token `j` begins, for the last `|r|` of the first `n` tokens. */
  ghost predicate Ring(r: seq<Position>, tokens: seq<Token>, n: nat)
    requires r != [] && n <= |tokens|
  {
    forall j: nat | j < n <= j + |r| :: r[j % |r|] == tokens[j].first
  }

  lemma ModApart(j: nat, n: nat, m: nat)
    requires m > 0 && j < n < j + m
    ensures j % m != n % m
  {
    var a, b := j / m, n / m;
    MultipleOfGap(m, a, b);
    Multiples(m, b - a);
  }

  lemma MultipleOfGap(m: nat, a: int, b: int)
    ensures m * (b - a) == m * b - m * a
  {
  }

  lemma ModNext(n: nat, m: nat)
    requires m > 0
    ensures (n % m + 1) % m == (n + 1) % m
  {
    var a, r := n / m, n % m;
    if r + 1 < m {
      ModIs(n + 1, m, a, r + 1);
      ModIs(r + 1, m, 0, r + 1);
    } else {
      assert n + 1 == m * (a + 1);
      ModIs(n + 1, m, a + 1, 0);
    }
  }

  lemma ModIs(n: nat, m: nat, a: int, r: nat)
    requires m > 0 && n == m * a + r && r < m
    ensures n % m == r
  {
    var b, s := n / m, n % m;
    assert m * (a - b) == s - r;
    Multiples(m, a - b);
  }

  /** A multiple smaller than `m` either way is zero. */
  lemma Multiples(m: nat, k: int)
    ensures k >= 1 ==> m * k >= m
    ensures k <= -1 ==> m * k + m <= 0
  {
  }

  lemma ModBack(n: nat, m: nat)
    requires 0 < m <= n
    ensures (n - m) % m == n % m
  {
    ModIs(n - m, m, n / m - 1, n % m);
  }

  lemma RingTurns(r: seq<Position>, tokens: seq<Token>, n: nat)
    requires r != [] && n < |tokens| && Ring(r, tokens, n)
    ensures Ring(r[n % |r| := tokens[n].first], tokens, n + 1)
  {
    var r' := r[n % |r| := tokens[n].first];
    forall j: nat | j < n + 1 <= j + |r'|
      ensures r'[j % |r'|] == tokens[j].first
    {
      if j < n { ModApart(j, n, |r|); }
    }
  }

  /** After `n` tokens the slot to be written next holds where the last `|r|` tokens begin. */
  lemma RingOldest(r: seq<Position>, tokens: seq<Token>, n: nat)
    requires r != [] && |r| <= n <= |tokens| && Ring(r, tokens, n)
    ensures r[n % |r|] == tokens[n - |r|].first
  {
    ModBack(n, |r|);
  }

  lemma HitsNext(q: seq<CodePoint>, tokens: seq<Token>, fold: bool, n: nat)
    requires q != [] && n < |tokens|
    ensures var w := Folded(Scalars(tokens), fold);
            Hits(q, tokens, fold, n + 1) ==
            if EndsWith(q, w[..n + 1], |q|) then Hits(q, tokens, fold, n)
              + [Span(tokens[n + 1 - |q|].first, tokens[n].end)]
            else Hits(q, tokens, fold, n)
  {
    WholeOccurs(q, Folded(Scalars(tokens), fold), n + 1);
  }

  /** A query that a search accepts. */
  predicate Searchable(q: seq<CodePoint>) {
    0 < |q| <= SEARCH_MAX && forall cp <- q :: cp != 0 && Scalar(cp)
  }

  lemma QueryNotEmpty(q: seq<CodePoint>)
    requires Searchable(q)
    ensures 0 < |q| <= SEARCH_MAX
  {
  }

  lemma StreamBegins(rows: seq<Row>, first: nat, column: nat)
    requires first <= |rows|
    ensures Streams.Valid(rows, Begin(first, column))
            && Rest(rows, Begin(first, column)) == TokensFrom(rows, first, column)[0..]
  {
    BeginsValid(rows, first, column);
    var tokens := TokensFrom(rows, first, column);
    assert tokens[0..] == tokens;
  }

  /** What a step of the stream does to its place in the text. */
  lemma StepReads(rows: seq<Row>, t: Stream, tokens: seq<Token>, n: nat)
    requires Streams.Valid(rows, t) && n <= |tokens| && Rest(rows, t) == tokens[n..]
    ensures Fit(rows, t)
    ensures var r := Step(rows, t);
            && Streams.Valid(rows, r.stream) && r.stream.reverse == t.reverse
            && Effort(rows, r.stream) <= Effort(rows, t)
            && match r.outcome
               case Done => n == |tokens| && Rest(rows, r.stream) == tokens[n..]
               case More => Rest(rows, r.stream) == tokens[n..] && Effort(rows, r.stream) < Effort(rows, t)
               case Found(token) =>
                 n < |tokens| && token == tokens[n] && Rest(rows, r.stream) == tokens[n + 1..]
                   && Effort(rows, r.stream) < Effort(rows, t)
  {
    StepYields(rows, t);
    var r := Step(rows, t);
    if r.outcome == Done { assert Rest(rows, r.stream) == []; }
    hide Rest, Streams.Valid, Step;
    if r.outcome.Found? { assert tokens[n..][0] == tokens[n] && tokens[n..][1..] == tokens[n + 1..]; }
  }

  lemma NoRow(rows: seq<Row>, t: Stream, tokens: seq<Token>, n: nat)
    requires Streams.Valid(rows, t) && n <= |tokens| && Rest(rows, t) == tokens[n..]
    ensures t.line == |rows| ==> n == |tokens|
  {
  }

  class Searcher {
    const rows: seq<Row>
    const query: array<CodePoint>
    const prefix: array<nat>
    const recent: array<Position>
    var stream: Stream
    var length: nat
    var matched: nat
    var next: nat
    var asciiFold: bool
    /** The tokens of the text, how many have been read, and what has been reported. */
    ghost var tokens: seq<Token>
    ghost var read: nat
    ghost var told: seq<Span>

    ghost predicate Shaped()
      reads `length
    {
      && query != prefix && query.Length == prefix.Length == recent.Length == SEARCH_MAX && length <= SEARCH_MAX
    }

    ghost function Q(): seq<CodePoint>
      requires Shaped()
      reads `length, query
    {
      query[..length]
    }

    ghost function W(): seq<CodePoint>
      reads `tokens, `asciiFold
    {
      Folded(Scalars(tokens), asciiFold)
    }

    /** The failure function is right for the first `n` entries. */
    ghost predicate Tabled(n: nat)
      requires Shaped() && n <= length
      reads `length, query, prefix
    {
      forall i: nat | i < n :: Falls(Q(), i, prefix[i])
    }

    ghost predicate Reading()
      reads `stream, `tokens, `read
    {
      && Streams.Valid(rows, stream) && !stream.reverse && read <= |tokens| && Rest(rows, stream) == tokens[read..]
    }

    /** The state after `read` tokens: the candidate kept, the ring, and what has been told. */
    ghost predicate Current()
      requires Shaped() && length > 0 && read <= |tokens|
      reads this, query, recent
    {
      && LongestProper(Q(), W()[..read], matched) && next == read % length
      && Ring(recent[..length], tokens, read) && told == Hits(Q(), tokens, asciiFold, read)
    }

    ghost predicate Valid()
      reads this, query, prefix, recent
    {
      Shaped() && (length > 0 ==> Reading() && Tabled(length) && Current())
    }

    constructor (rows: seq<Row>)
      ensures Valid() && this.rows == rows && length == 0
      ensures fresh(query) && fresh(prefix) && fresh(recent)
    {
      this.rows := rows;
      query, prefix := new CodePoint[SEARCH_MAX](_ => 0), new nat[SEARCH_MAX](_ => 0);
      recent := new Position[SEARCH_MAX](_ => Position(0, 0));
      stream, length, matched, next, asciiFold := Begin(0, 0), 0, 0, 0, false;
      tokens, read, told := [], 0, [];
    }

    /** The failure loop: from candidate `k` to the longest one after reading `c`. */
    method Candidate(k: nat, c: CodePoint, ghost w: seq<CodePoint>) returns (j: nat)
      requires Shaped() && k < length && Tabled(k) && EndsWith(Q(), w, k)
      requires forall i: nat | i < length && EndsWith(Q(), w, i) && query[i] == c :: i <= k
      ensures Longest(Q(), w + [c], j) && j <= k + 1
    {
      hide Longest, LongestProper, EndsWith;
      j := k;
      while j > 0 && c != query[j]
        invariant j <= k && EndsWith(Q(), w, j)
        invariant forall i: nat | i < length && EndsWith(Q(), w, i) && query[i] == c :: i <= j
      {
        assert Falls(Q(), j - 1, prefix[j - 1]);
        FallKeeps(Q(), w, c, j - 1, prefix[j - 1]);
        j := prefix[j - 1];
      }
      ExtendsLongest(Q(), w, c, j);
      if c == query[j] { j := j + 1; }
    }

    method Cancel()
      requires Shaped()
      modifies this
      ensures Shaped() && length == matched == next == read == 0 && told == [] && tokens == [] && !asciiFold
    {
      stream, length, matched, next, asciiFold := Begin(0, 0), 0, 0, 0, false;
      tokens, read, told := [], 0, [];
    }

    /** Fill the failure function for the query in place. */
    method Table()
      requires Shaped() && length > 0
      modifies prefix
      ensures Tabled(length)
    {
      hide Falls, Longest, EndsWith;
      prefix[0] := 0;
      FirstFalls(Q());
      var k, i := 0, 1;
      while i < length
        invariant 1 <= i <= length && Tabled(i) && k == prefix[i - 1]
        invariant query[..] == old(query[..])
      {
        ghost var q := Q();
        assert Falls(q, i - 1, k);
        FallsMeans(q, i - 1, k);
        LongestFacts(q, q[1..i], k);
        k := Candidate(k, query[i], q[1..i]);
        assert q[1..i] + [q[i]] == q[1..i + 1];
        FallsNow(q, i, k);
        ghost var before := prefix[..];
        prefix[i] := k;
        assert forall l: nat | l < i :: prefix[l] == before[l];
        i := i + 1;
      }
    }

    /** Copy the folded query, or reject it. */
    method Copy(q: seq<CodePoint>, fold: bool) returns (ok: bool)
      requires Shaped() && length == 0
      modifies `length, query
      ensures Shaped() && (ok <==> Searchable(q)) && length == (if ok then |q| else 0)
      ensures ok ==> Q() == Folded(q, fold)
    {
      if |q| == 0 || |q| > SEARCH_MAX { return false; }
      var i := 0;
      while i < |q|
        invariant length == 0 && 0 <= i <= |q| && forall k | 0 <= k < i :: q[k] != 0 && Scalar(q[k])
        invariant query[..i] == Folded(q, fold)[..i]
      {
        if q[i] == 0 || !Scalar(q[i]) {
          assert q[i] in q;
          return false;
        }
        query[i] := FoldAscii(q[i], fold);
        i := i + 1;
      }
      length := |q|;
      ok := true;
      assert Q() == Folded(q, fold);
    }

    /** Start a search; a query that is empty, too long or not made of scalars leaves the search cancelled. */
    method Start(first: nat, column: nat, q: seq<CodePoint>, fold: bool) returns (ok: bool)
      requires Shaped() && first <= |rows|
      modifies this, query, prefix
      ensures Valid() && (ok <==> Searchable(q)) && length == (if ok then |q| else 0)
      ensures ok ==> Q() == Folded(q, fold) && asciiFold == fold
      ensures ok ==> tokens == TokensFrom(rows, first, column) && read == 0 && told == []
    {
      hide LongestProper, Falls, Rest, Streams.Valid, TokensFrom, Searchable;
      Cancel();
      ok := Copy(q, fold);
      if ok {
        QueryNotEmpty(q);
        Table();
        asciiFold := fold;
        stream := Begin(first, column);
        tokens := TokensFrom(rows, first, column);
        StreamBegins(rows, first, column);
        assert W()[..0] == [];
        NothingRead(Q());
      }
    }

    /** Remember where token `read` begins. */
    method Remember(first: Position)
      requires Shaped() && length > 0 && read < |tokens| && first == tokens[read].first
      requires next == read % length && Ring(recent[..length], tokens, read)
      modifies `next, recent
      ensures next == (read + 1) % length && Ring(recent[..length], tokens, read + 1)
    {
      RingTurns(recent[..length], tokens, read);
      recent[next] := first;
      assert recent[..length] == old(recent[..length])[read % length := first];
      ModNext(read, length);
      next := (next + 1) % length;
    }

    /** Extend the candidate by the next scalar; on a full match keep the longest proper candidate. */
    method Extend(c: CodePoint, ghost w: seq<CodePoint>) returns (hit: bool)
      requires Shaped() && length > 0 && Tabled(length) && LongestProper(Q(), w, matched)
      modifies `matched
      ensures hit <==> EndsWith(Q(), w + [c], length)
      ensures LongestProper(Q(), w + [c], matched)
    {
      hide LongestProper, Longest, EndsWith, Falls;
      ProperMeans(Q(), w, matched);
      matched := Candidate(matched, c, w);
      LongestMeans(Q(), w + [c], matched);
      hit := matched == length;
      if hit {
        assert Falls(Q(), length - 1, prefix[length - 1]);
        WholeFalls(Q(), w + [c], prefix[length - 1]);
        matched := prefix[matched - 1];
      }
    }

    /** Take one token: the candidate, the ring and, on a full match, the span to report. */
    method Take(token: Token) returns (hit: bool, span: Span)
      requires Shaped() && length > 0 && Tabled(length) && read < |tokens| && token == tokens[read] && Current()
      modifies `matched, `next, `read, `told, recent
      ensures read == old(read) + 1 && Current()
      ensures told == if hit then old(told) + [span] else old(told)
    {
      hide LongestProper, Longest, EndsWith, Falls, Hits, Ring, Folded, Scalars;
      ghost var w := W();
      Remember(token.first);
      hit := Extend(FoldAscii(token.cp, asciiFold), w[..read]);
      assert w[..read] + [w[read]] == w[..read + 1];
      HitsNext(Q(), tokens, asciiFold, read);
      read := read + 1;
      span := Span(recent[next], token.end);
      if hit {
        EndsInside(Q(), w[..read]);
        RingOldest(recent[..length], tokens, read);
        told := told + [span];
      }
    }

    /** One step of the stream. */
    method ReadOne() returns (result: SearchResult)
      requires Valid() && length > 0
      modifies `stream, `matched, `next, `read, `told, recent
      ensures Valid()
      ensures match result
              case SearchFound(span) => told == old(told) + [span] && Work() < old(Work())
              case SearchMore => told == old(told) && Work() < old(Work())
              case SearchDone => told == old(told) && read == |tokens| && Work() <= old(Work())
    {
      hide LongestProper, Falls, Rest, Hits, Ring, Tabled, Streams.Valid, Streams.Step, Effort;
      StepReads(rows, stream, tokens, read);
      var r := Streams.Step(rows, stream);
      stream := r.stream;
      match r.outcome
      case Done => return SearchDone;
      case More => return SearchMore;
      case Found(token) =>
        var hit, span := Take(token);
        return if hit then SearchFound(span) else SearchMore;
    }

    /** One call: at most `budget` steps of the stream. What is reported is the next occurrence in the text, and
        that there is no more only when all of it has been read. */
    method Step(budget: nat) returns (result: SearchResult)
      requires Valid()
      modifies `stream, `matched, `next, `read, `told, recent
      ensures Valid()
      ensures match result
              case SearchFound(span) => told == old(told) + [span]
              case SearchMore => told == old(told) && length > 0
              case SearchDone => told == old(told) && (length > 0 ==> read == |tokens|)
      ensures Work() <= old(Work()) && (budget > 0 && result != SearchDone ==> Work() < old(Work()))
    {
      hide LongestProper, Falls, Rest, Hits, Ring, Tabled, Streams.Valid, Effort, Current;
      if length == 0 { return SearchDone; }
      NoRow(rows, stream, tokens, read);
      var left := budget;
      while left > 0 && stream.line != |rows|
        invariant 0 <= left <= budget && Valid() && told == old(told) && length > 0
        invariant Work() <= old(Work()) && (left < budget ==> Work() < old(Work()))
      {
        left := left - 1;
        result := ReadOne();
        if result != SearchMore { return; }
      }
      NoRow(rows, stream, tokens, read);
      result := if stream.line != |rows| then SearchMore else SearchDone;
    }

    /** Steps the stream may still take. */
    ghost function Work(): nat
      requires Shaped() && (length > 0 ==> Reading())
      reads `length, `stream, `tokens, `read
    {
      if length > 0 then Effort(rows, stream) else 0
    }
  }

  lemma EndsInside(q: seq<CodePoint>, w: seq<CodePoint>)
    requires EndsWith(q, w, |q|)
    ensures |q| <= |w|
  {
  }

  lemma FirstFalls(q: seq<CodePoint>)
    requires q != []
    ensures Falls(q, 0, 0)
  {
  }

  lemma FallsMeans(q: seq<CodePoint>, i: nat, k: nat)
    requires i < |q| && Falls(q, i, k)
    ensures k <= i && Longest(q, q[1..i + 1], k)
  {
  }

  lemma LongestFacts(q: seq<CodePoint>, w: seq<CodePoint>, k: nat)
    requires Longest(q, w, k)
    ensures EndsWith(q, w, k) && forall j: nat | EndsWith(q, w, j) :: j <= k
  {
  }

  /** Before any token has been read the empty candidate is the only one. */
  lemma NothingRead(q: seq<CodePoint>)
    requires q != []
    ensures LongestProper(q, [], 0)
  {
  }

  lemma FallsNow(q: seq<CodePoint>, i: nat, k: nat)
    requires i < |q| && k <= i && Longest(q, q[1..i + 1], k)
    ensures Falls(q, i, k)
  {
  }

  lemma ProperMeans(q: seq<CodePoint>, w: seq<CodePoint>, k: nat)
    requires LongestProper(q, w, k)
    ensures k < |q| && EndsWith(q, w, k) && forall j: nat | j < |q| && EndsWith(q, w, j) :: j <= k
  {
  }

  /** The longest candidate is the whole query just when the query ends the text, and otherwise it is proper. */
  lemma LongestMeans(q: seq<CodePoint>, w: seq<CodePoint>, k: nat)
    requires Longest(q, w, k)
    ensures k <= |q| && k <= |w| && (k == |q| <==> EndsWith(q, w, |q|)) && (k < |q| ==> LongestProper(q, w, k))
  {
  }
}
