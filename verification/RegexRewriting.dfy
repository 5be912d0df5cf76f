/** Whatever the reader of queries takes can be written back: it is the text of an expression's forms, and they mean
    what was read. */
module RegexRewriting {
  import opened Common
  import opened Rows
  import opened RegexSyntax
  import opened RegexGrammar
  import opened RegexWriting
  import opened RegexReading

  /** The text stands at `at` and ends at `end`. */
  predicate Spans(q: seq<CodePoint>, at: nat, t: seq<CodePoint>, end: nat) {
    Has(q, at, t) && at + |t| == end
  }

  lemma SpansBoth(q: seq<CodePoint>, at: nat, s: seq<CodePoint>, a: nat, t: seq<CodePoint>, b: nat)
    requires Spans(q, at, s, a) && Spans(q, a, t, b)
    ensures Spans(q, at, s + t, b)
  {
    hide Has;
    HasBoth(q, at, s, t);
  }

  lemma OneSpans(q: seq<CodePoint>, at: nat, c: CodePoint)
    requires at < |q| && q[at] == c
    ensures Spans(q, at, [c], at + 1)
  {
  }

  // ----- Characters -----

  lemma EscapedWritten(q: seq<CodePoint>, at: nat) returns (s: Sign)
    requires Is(q, at, '\\') && Escaped(q, at + 1).Parsed?
    ensures Spans(q, at, SignText(s), Escaped(q, at + 1).at) && s.cp == Escaped(q, at + 1).value
    ensures SignFits(s) && !s.Bare?
  {
    var cp := q[at + 1];
    s := if IsAlphanumeric(cp) then Control(Escaped(q, at + 1).value) else Quoted(cp);
  }

  lemma ClassCharWritten(q: seq<CodePoint>, at: nat) returns (s: Sign)
    requires ClassChar(q, at).Parsed? && !Is(q, at, ']')
    ensures Spans(q, at, SignText(s), ClassChar(q, at).at) && s.cp == ClassChar(q, at).value && InSet(s)
  {
    if Is(q, at, '\\') {
      s := EscapedWritten(q, at);
    } else {
      s := Bare(q[at]);
    }
  }

  lemma KindWritten(q: seq<CodePoint>, at: nat, s: Shorthand)
    requires Is(q, at, '\\') && at + 1 < |q| && ShorthandOf(q[at + 1]) == Some(s)
    ensures Spans(q, at, ['\\' as int, KindName(s)], at + 2)
  {
  }

  // ----- Brackets -----

  /** A dash that stands for a range. */
  predicate DashAt(q: seq<CodePoint>, at: nat) {
    Is(q, at, '-') && !Is(q, at + 1, ']')
  }

  lemma MemberWritten(q: seq<CodePoint>, at: nat) returns (m: MemberForm)
    requires ClassMember(q, at).Parsed? && !Is(q, at, ']')
    ensures Spans(q, at, MemberText(m), ClassMember(q, at).at) && Added(m) == ClassMember(q, at).value
    ensures MemberFits(m, []) && (!m.FromTo? ==> !DashAt(q, ClassMember(q, at).at))
  {
    if Is(q, at, '\\') && at + 1 < |q| && ShorthandOf(q[at + 1]).Some? {
      m := KindOf(ShorthandOf(q[at + 1]).value);
      KindWritten(q, at, m.shorthand);
    } else {
      hide ClassChar, Has, InSet;
      var low := ClassCharWritten(q, at);
      var a := ClassChar(q, at).at;
      if DashAt(q, a) {
        var high := ClassCharWritten(q, a + 1);
        m := FromTo(low, high);
        OneSpans(q, a, '-' as int);
        SpansBoth(q, at, SignText(low), a, ['-' as int], a + 1);
        SpansBoth(q, at, SignText(low) + ['-' as int], a + 1, SignText(high), ClassChar(q, a + 1).at);
      } else {
        m := Single(low);
      }
    }
  }

  lemma MemberStill(q: seq<CodePoint>, at: nat, m: MemberForm, end: nat)
    requires MemberFits(m, []) && (!m.FromTo? ==> !DashAt(q, at)) && at < end <= |q| && q[end - 1] == ']' as int
    ensures MemberFits(m, q[at..end])
  {
    var rest := q[at..end];
    assert rest[0] == q[at] && (|rest| > 1 ==> rest[1] == q[at + 1]);
  }

  /** The members from `start` on, those before `at` having been written back already. */
  lemma {:induction false} MembersWritten(q: seq<CodePoint>, start: nat, at: nat, before: MemberForms)
    returns (ms: MemberForms)
    requires Spans(q, start, MembersText(before), at) && at <= |q|
    requires ClassMembers(q, at, Members(Kinds(before), Ranges(before))).Parsed?
    requires var a := ClassMembers(q, at, Members(Kinds(before), Ranges(before))).at; MembersFit(before, q[at..a])
    ensures var p := ClassMembers(q, at, Members(Kinds(before), Ranges(before)));
            && p.at > 0 && Spans(q, start, MembersText(ms), p.at - 1) && Is(q, p.at - 1, ']')
            && p.value == Members(Kinds(ms), Ranges(ms)) && MembersFit(ms, [']' as int]) && ms.AndMember?
    decreases |q| - at
  {
    hide ClassMembers, ClassMember, MemberFits, Has, Kinds, Ranges, MemberText, Added, DashAt;
    var m := Members(Kinds(before), Ranges(before));
    var a := ClassMembers(q, at, m).at;
    MembersNext(q, at, m);
    if Is(q, at, ']') {
      ms := before;
      SomeRead(before);
      assert q[at..a] == [']' as int];
    } else {
      var b := ClassMember(q, at).at;
      var last := MemberWritten(q, at);
      var more := AndMember(before, last);
      AddedLast(more);
      MembersClosed(q, b, Members(Kinds(more), Ranges(more)));
      SpansBoth(q, start, MembersText(before), at, MemberText(last), b);
      MemberStill(q, b, last, a);
      SliceIs(q, at, MemberText(last), b, a);
      ms := MembersWritten(q, start, b, more);
    }
  }

  lemma MembersNext(q: seq<CodePoint>, at: nat, m: Members)
    requires ClassMembers(q, at, m).Parsed?
    ensures at < |q|
    ensures Is(q, at, ']') ==> ClassMembers(q, at, m) == Parsed(m, at + 1) && (m.ranges != [] || m.shorthands != {})
    ensures !Is(q, at, ']') ==>
              var x := ClassMember(q, at);
              x.Parsed? && at < x.at <= |q| && ClassMembers(q, at, m) == ClassMembers(q, x.at, m.With(x.value))
  {
    hide ClassMember;
  }

  lemma SomeRead(ms: MemberForms)
    requires Kinds(ms) != {} || Ranges(ms) != []
    ensures ms.AndMember?
  {
  }

  lemma SliceIs(q: seq<CodePoint>, at: nat, t: seq<CodePoint>, a: nat, end: nat)
    requires Spans(q, at, t, a) && a <= end <= |q|
    ensures q[at..end] == t + q[a..end]
  {
    forall i | 0 <= i < end - at ensures q[at..end][i] == (t + q[a..end])[i] {
      if i < |t| { assert q[at + i] == t[i]; }
    }
  }

  lemma {:induction false} MembersClosed(q: seq<CodePoint>, at: nat, m: Members)
    requires ClassMembers(q, at, m).Parsed?
    ensures at < ClassMembers(q, at, m).at <= |q| && q[ClassMembers(q, at, m).at - 1] == ']' as int
    decreases |q| - at
  {
    if !Is(q, at, ']') {
      MembersClosed(q, ClassMember(q, at).at, m.With(ClassMember(q, at).value));
    }
  }

  lemma {:induction false} IntricateThere(q: seq<CodePoint>, at: nat, t: seq<CodePoint>, k: nat)
    requires Has(q, at, t) && Intricate(t, k)
    ensures Intricate(q, at + k)
    decreases |t| - k
  {
    assert q[at + k] == t[k];
    if t[k] == '\\' as int {
      IntricateThere(q, at, t, k + 2);
    } else {
      if k + 1 < |t| { assert q[at + (k + 1)] == t[k + 1]; }
      if Intricate(t, k + 1) { IntricateThere(q, at, t, k + 1); }
    }
  }

  lemma SetWritten(q: seq<CodePoint>, at: nat) returns (negated: bool, ms: MemberForms)
    requires Bracket(q, at).Parsed?
    ensures Spans(q, at, SetText(negated, ms), Bracket(q, at).at) && SetFits(negated, ms)
    ensures Bracket(q, at).value == FormMeaning(SetOf(negated, ms))
  {
    hide ClassMembers, MembersText, MembersFit, Has, Intricate, Kinds, Ranges;
    negated := Is(q, at, '^');
    var k := if negated then at + 1 else at;
    NoneSpan(q, k);
    ms := MembersWritten(q, k, k, NoMember);
    var a := Bracket(q, at).at;
    OneSpans(q, a - 1, ']' as int);
    SpansBoth(q, k, MembersText(ms), a - 1, [']' as int], a);
    CaretWritten(q, at, negated, MembersText(ms) + [']' as int], a);
    if Intricate(SetText(negated, ms), 0) { IntricateThere(q, at, SetText(negated, ms), 0); }
    SomeMember(ms);
    FirstOf(q, k, MembersText(ms));
  }

  lemma NoneSpan(q: seq<CodePoint>, at: nat)
    requires at <= |q|
    ensures Spans(q, at, MembersText(NoMember), at) && Kinds(NoMember) == {} && Ranges(NoMember) == []
    ensures forall rest: seq<CodePoint> :: MembersFit(NoMember, rest)
  {
  }

  lemma CaretWritten(q: seq<CodePoint>, at: nat, negated: bool, t: seq<CodePoint>, end: nat)
    requires negated ==> Is(q, at, '^')
    requires Spans(q, if negated then at + 1 else at, t, end)
    ensures Spans(q, at, (if negated then ['^' as int] else []) + t, end)
  {
    if negated {
      OneSpans(q, at, '^' as int);
      SpansBoth(q, at, ['^' as int], at + 1, t, end);
    } else {
      assert [] + t == t;
    }
  }

  // ----- Repetitions -----

  /** The digits from `start` on, those before `at` having been written back already. */
  lemma {:induction false} CountWritten(q: seq<CodePoint>, start: nat, at: nat, before: seq<nat>)
    returns (digits: seq<nat>)
    requires Spans(q, start, DigitsText(before), at) && at <= |q| && (forall d <- before :: d < 10)
    requires Decimal(before) <= SEARCH_MAX && ParseCount(q, at, Decimal(before), |before|).Parsed?
    ensures var p := ParseCount(q, at, Decimal(before), |before|);
            Spans(q, start, DigitsText(digits), p.at) && Decimal(digits) == p.value && CountFits(digits)
    decreases |q| - at
  {
    if at < |q| && IsDigit(q[at]) {
      hide DigitsText, Has, Decimal;
      DigitWritten(q, start, at, before);
      digits := CountWritten(q, start, at + 1, before + [q[at] - '0' as int]);
    } else {
      digits := before;
    }
  }

  lemma DigitWritten(q: seq<CodePoint>, start: nat, at: nat, before: seq<nat>)
    requires Spans(q, start, DigitsText(before), at) && at < |q| && IsDigit(q[at])
    ensures var d := q[at] - '0' as int;
            d < 10 && Spans(q, start, DigitsText(before + [d]), at + 1)
            && Decimal(before + [d]) == Decimal(before) * 10 + d
  {
    var more := before + [q[at] - '0' as int];
    assert more[..|more| - 1] == before;
    assert DigitsText(more) == DigitsText(before) + [q[at]];
    OneSpans(q, at, q[at]);
    hide DigitsText, Has;
    SpansBoth(q, start, DigitsText(before), at, [q[at]], at + 1);
  }

  lemma DigitsWritten(q: seq<CodePoint>, at: nat) returns (digits: seq<nat>)
    requires at <= |q| && ParseCount(q, at, 0, 0).Parsed?
    ensures var p := ParseCount(q, at, 0, 0);
            Spans(q, at, DigitsText(digits), p.at) && Decimal(digits) == p.value && CountFits(digits)
  {
    assert DigitsText([]) == [];
    digits := CountWritten(q, at, at, []);
  }

  lemma LazilyWritten(q: seq<CodePoint>, at: nat) returns (lazy: bool)
    requires at <= |q|
    ensures Spans(q, at, Lazily(lazy), SkipLazy(q, at))
  {
    lazy := Is(q, at, '?');
  }

  lemma HeadSpans(q: seq<CodePoint>, at: nat, c: CodePoint, t: seq<CodePoint>, end: nat)
    requires at < |q| && q[at] == c && Spans(q, at + 1, t, end)
    ensures Spans(q, at, [c] + t, end)
  {
    hide Has;
    OneSpans(q, at, c);
    SpansBoth(q, at, [c], at + 1, t, end);
  }

  lemma BoundsWritten(q: seq<CodePoint>, at: nat, r: Regex) returns (s: Suffix)
    requires Is(q, at, '{') && ParseBounds(q, at + 1).Parsed?
    ensures var p := ParseBounds(q, at + 1);
            && Spans(q, at, SuffixText(s), SkipLazy(q, p.at)) && SuffixFits(s)
            && Repeated(s, r) == Repeat(r, p.value.least, p.value.most)
  {
    hide ParseCount, DigitsText, Lazily, Has, CountFits, Decimal, SkipLazy;
    var least := DigitsWritten(q, at + 1);
    var a := ParseCount(q, at + 1, 0, 0).at;
    var end := ParseBounds(q, at + 1).at;
    var lazy := LazilyWritten(q, end);
    var tail := ['}' as int] + Lazily(lazy);
    HeadSpans(q, end - 1, '}' as int, Lazily(lazy), SkipLazy(q, end));
    if !Is(q, a, ',') {
      s := Exactly(least, lazy);
      ClosedCount(q, at, least, a, tail, SkipLazy(q, end));
    } else if Is(q, a + 1, '}') {
      s := AtLeast(least, lazy);
      HeadSpans(q, a, ',' as int, tail, SkipLazy(q, end));
      ClosedCount(q, at, least, a, [',' as int] + tail, SkipLazy(q, end));
    } else {
      var most := DigitsWritten(q, a + 1);
      s := Between(least, most, lazy);
      SpansBoth(q, a + 1, DigitsText(most), end - 1, tail, SkipLazy(q, end));
      HeadSpans(q, a, ',' as int, DigitsText(most) + tail, SkipLazy(q, end));
      ClosedCount(q, at, least, a, [',' as int] + (DigitsText(most) + tail), SkipLazy(q, end));
    }
  }

  lemma ClosedCount(q: seq<CodePoint>, at: nat, least: seq<nat>, a: nat, t: seq<CodePoint>, end: nat)
    requires Is(q, at, '{') && Spans(q, at + 1, DigitsText(least), a) && Spans(q, a, t, end)
    ensures Spans(q, at, ['{' as int] + (DigitsText(least) + t), end)
  {
    hide Has, DigitsText;
    SpansBoth(q, at + 1, DigitsText(least), a, t, end);
    HeadSpans(q, at, '{' as int, DigitsText(least) + t, end);
  }

  lemma SuffixWritten(q: seq<CodePoint>, at: nat, r: Regex) returns (s: Suffix)
    requires at <= |q| && ParseSuffix(q, at, r).Parsed?
    ensures var p := ParseSuffix(q, at, r);
            Spans(q, at, SuffixText(s), p.at) && SuffixFits(s) && Repeated(s, r) == p.value
  {
    hide ParseBounds, Has, Lazily, SkipLazy, CountFits, DigitsText;
    if IsQuantifier(q, at) {
      var lazy := LazilyWritten(q, at + 1);
      HeadSpans(q, at, q[at], Lazily(lazy), SkipLazy(q, at + 1));
      s := if Is(q, at, '*') then Star(lazy) else if Is(q, at, '+') then Plus(lazy) else Perhaps(lazy);
    } else if Is(q, at, '{') {
      s := BoundsWritten(q, at, r);
    } else {
      s := Once;
      NothingSpans(q, at);
    }
  }

  lemma NothingSpans(q: seq<CodePoint>, at: nat)
    requires at <= |q|
    ensures Spans(q, at, [], at)
  {
  }

  // ----- Atoms, items, alternatives -----

  /** An escape outside brackets. */
  lemma BackslashWritten(q: seq<CodePoint>, at: nat, depth: nat) returns (f: Form)
    requires Is(q, at, '\\') && Backslash(q, at + 1).Parsed?
    ensures Spans(q, at, FormText(f), Backslash(q, at + 1).at) && FormFits(f, depth)
    ensures FormMeaning(f) == Backslash(q, at + 1).value
  {
    var p := Backslash(q, at + 1).value;
    if p.Assert? {
      f := Mark(p.anchor);
    } else if ShorthandOf(q[at + 1]).Some? {
      f := Kind(ShorthandOf(q[at + 1]).value);
      KindWritten(q, at, f.shorthand);
    } else {
      var s := EscapedWritten(q, at);
      f := Letter(s);
    }
  }

  lemma PlainWritten(q: seq<CodePoint>, at: nat, depth: nat) returns (f: Form)
    requires at < |q| && !ItemsEnd(q, at) && !Reserved(q[at]) && !Is(q, at, '(') && !Is(q, at, '[') && !Is(q, at, '\\')
    ensures Spans(q, at, FormText(f), at + 1) && FormFits(f, depth) && FormMeaning(f) == Plain(q[at])
  {
    f := if q[at] == '.' as int then AnyOne
         else if q[at] == '^' as int then Mark(LineStart)
         else if q[at] == '$' as int then Mark(LineEnd)
         else Letter(Bare(q[at]));
  }

  lemma {:induction false} FormWritten(q: seq<CodePoint>, at: nat, depth: nat) returns (f: Form)
    requires at < |q| && !ItemsEnd(q, at) && ParseAtom(q, at, depth).Parsed?
    ensures var p := ParseAtom(q, at, depth);
            Spans(q, at, FormText(f), p.at) && FormFits(f, depth) && FormMeaning(f) == p.value
    decreases |q| - at, 0
  {
    hide Has, Backslash, Bracket, Reserved, ParseExpr, Text, Fit, Meaning;
    if Is(q, at, '(') {
      var capturing := !Is(q, at + 1, '?');
      var a := if capturing then at + 1 else at + 3;
      var body := ExprWritten(q, a, depth + 1);
      f := Grouped(capturing, body);
      GroupWritten(q, at, capturing, body, ParseExpr(q, a, depth + 1).at);
    } else if Is(q, at, '[') {
      var negated, ms := SetWritten(q, at + 1);
      f := SetOf(negated, ms);
      hide SetText, SetFits;
      HeadSpans(q, at, '[' as int, SetText(negated, ms), Bracket(q, at + 1).at);
    } else if Is(q, at, '\\') {
      f := BackslashWritten(q, at, depth);
    } else {
      f := PlainWritten(q, at, depth);
    }
  }

  lemma GroupWritten(q: seq<CodePoint>, at: nat, capturing: bool, body: Expr, end: nat)
    requires Is(q, at, '(') && (!capturing ==> Is(q, at + 1, '?') && Is(q, at + 2, ':'))
    requires Spans(q, if capturing then at + 1 else at + 3, Text(body), end) && Is(q, end, ')')
    ensures Spans(q, at, FormText(Grouped(capturing, body)), end + 1)
  {
    hide Text;
    var opening := if capturing then ['(' as int] else ['(' as int, '?' as int, ':' as int];
    assert Spans(q, at, opening, at + |opening|);
    OneSpans(q, end, ')' as int);
    hide Has;
    SpansBoth(q, at + |opening|, Text(body), end, [')' as int], end + 1);
    SpansBoth(q, at, opening, at + |opening|, Text(body) + [')' as int], end + 1);
  }

  /** The items from `start` on, those before `at` having been written back already. */
  lemma {:induction false} ItemsWritten(q: seq<CodePoint>, start: nat, at: nat, depth: nat, before: Items)
    returns (items: Items)
    requires Spans(q, start, ItemsText(before), at) && at <= |q| && ItemsFit(before, depth)
    requires ParseItems(q, at, depth, Sofar(before)).Parsed?
    ensures var p := ParseItems(q, at, depth, Sofar(before));
            && Spans(q, start, ItemsText(items), p.at) && ItemsFit(items, depth) && ItemsMeaning(items) == p.value
            && ItemsEnd(q, p.at)
    decreases |q| - at, 2
  {
    if ItemsEnd(q, at) {
      items := before;
    } else {
      hide Has, FormText, SuffixText, FormFits, SuffixFits, FormMeaning, Repeated, ParseAtom, ParseSuffix, ItemsEnd;
      var a := ParseAtom(q, at, depth);
      var b := ParseSuffix(q, a.at, a.value);
      var form := FormWritten(q, at, depth);
      var suffix := SuffixWritten(q, a.at, a.value);
      var more := Then(before, form, suffix);
      SpansBoth(q, at, FormText(form), a.at, SuffixText(suffix), b.at);
      SpansBoth(q, start, ItemsText(before), at, FormText(form) + SuffixText(suffix), b.at);
      items := ItemsWritten(q, start, b.at, depth, more);
    }
  }

  lemma {:induction false} BranchWritten(q: seq<CodePoint>, at: nat, depth: nat) returns (items: Items)
    requires at <= |q| && ParseItems(q, at, depth, None).Parsed?
    ensures var p := ParseItems(q, at, depth, None);
            && Spans(q, at, ItemsText(items), p.at) && ItemsFit(items, depth) && ItemsMeaning(items) == p.value
    decreases |q| - at, 3
  {
    NothingSpans(q, at);
    items := ItemsWritten(q, at, at, depth, Nothing);
  }

  /** The alternatives from `start` on, those before `at` having been written back already. */
  lemma {:induction false} AlternativesWritten(q: seq<CodePoint>, start: nat, at: nat, depth: nat, left: Expr)
    returns (e: Expr)
    requires Spans(q, start, Text(left), at) && at <= |q| && Fit(left, depth)
    requires ParseAlternatives(q, at, depth, Meaning(left)).Parsed?
    ensures var p := ParseAlternatives(q, at, depth, Meaning(left));
            Spans(q, start, Text(e), p.at) && Fit(e, depth) && Meaning(e) == p.value
    decreases |q| - at, 4
  {
    if Is(q, at, '|') {
      hide Has, ItemsText, ItemsFit, ItemsMeaning, ParseItems, Text, Fit, Meaning;
      var right := BranchWritten(q, at + 1, depth);
      var a := ParseItems(q, at + 1, depth, None).at;
      OrWritten(q, start, at, depth, left, right, a);
      e := AlternativesWritten(q, start, a, depth, Or(left, right));
    } else {
      e := left;
    }
  }

  lemma OrWritten(q: seq<CodePoint>, start: nat, at: nat, depth: nat, left: Expr, right: Items, end: nat)
    requires Spans(q, start, Text(left), at) && Is(q, at, '|') && Spans(q, at + 1, ItemsText(right), end)
    requires Fit(left, depth) && ItemsFit(right, depth)
    ensures Spans(q, start, Text(Or(left, right)), end) && Fit(Or(left, right), depth)
    ensures Meaning(Or(left, right)) == Alt(Meaning(left), ItemsMeaning(right))
  {
    hide Has, ItemsText, ItemsFit, ItemsMeaning;
    HeadSpans(q, at, '|' as int, ItemsText(right), end);
    SpansBoth(q, start, Text(left), at, ['|' as int] + ItemsText(right), end);
  }

  lemma {:induction false} ExprWritten(q: seq<CodePoint>, at: nat, depth: nat) returns (e: Expr)
    requires at <= |q| && ParseExpr(q, at, depth).Parsed?
    ensures var p := ParseExpr(q, at, depth);
            Spans(q, at, Text(e), p.at) && Fit(e, depth) && Meaning(e) == p.value
    decreases |q| - at, 5
  {
    hide Has, ParseItems, ItemsText, ItemsFit, ItemsMeaning, ParseAlternatives;
    var first := BranchWritten(q, at, depth);
    e := AlternativesWritten(q, at, ParseItems(q, at, depth, None).at, depth, Branch(first));
  }

  /** The reader takes exactly the texts that write an expression, each as the one expression that it writes. */
  lemma ReadIsWritten(q: seq<CodePoint>, r: Regex)
    ensures ParseQuery(q) == Some(r) <==> Writes(q, r)
  {
    if ParseQuery(q) == Some(r) {
      var e := ExprWritten(q, 0, 0);
      hide Has, Text, Fit, Meaning, ParseExpr;
      HasWhole(q, Text(e));
    }
    if Writes(q, r) {
      var e: Expr :| Fit(e, 0) && Text(e) == q && Meaning(e) == r;
      WrittenIsRead(e);
    }
  }

  /** What one text writes is one expression. */
  lemma WritesOne(q: seq<CodePoint>, r: Regex, r': Regex)
    requires Writes(q, r) && Writes(q, r')
    ensures r == r'
  {
    hide ParseQuery, Writes;
    ReadIsWritten(q, r);
    ReadIsWritten(q, r');
  }
}
