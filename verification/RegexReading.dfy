/** The reader of queries takes every text that writes an expression, and reads it as that expression. */
module RegexReading {
  import opened Common
  import opened Rows
  import opened RegexSyntax
  import opened RegexGrammar
  import opened RegexWriting

  // ----- Characters -----

  lemma EscapedRead(q: seq<CodePoint>, at: nat, s: Sign)
    requires Has(q, at, SignText(s)) && SignFits(s) && !s.Bare?
    ensures Escaped(q, at + 1) == Parsed(s.cp, at + 2)
  {
    assert q[at + 1] == SignText(s)[1];
  }

  lemma ClassCharRead(q: seq<CodePoint>, at: nat, s: Sign)
    requires Has(q, at, SignText(s)) && InSet(s)
    ensures ClassChar(q, at) == Parsed(s.cp, at + |SignText(s)|)
    ensures !Is(q, at, ']')
  {
    assert q[at] == SignText(s)[0];
    if !s.Bare? { EscapedRead(q, at, s); }
  }

  /** A sign is not taken for a shorthand. */
  lemma SignIsNoKind(q: seq<CodePoint>, at: nat, s: Sign)
    requires Has(q, at, SignText(s)) && InSet(s)
    ensures !(Is(q, at, '\\') && at + 1 < |q| && ShorthandOf(q[at + 1]).Some?)
  {
    assert q[at] == SignText(s)[0];
    if !s.Bare? { assert q[at + 1] == SignText(s)[1]; }
  }

  // ----- Brackets -----

  /** A dash at a place that is followed by `rest`. */
  lemma DashRead(q: seq<CodePoint>, at: nat, rest: seq<CodePoint>)
    requires Has(q, at, rest) && |rest| > 0 && rest[|rest| - 1] == ']' as int
    ensures Dash(rest) <==> Is(q, at, '-') && !Is(q, at + 1, ']')
  {
    assert q[at] == rest[0];
    if |rest| > 1 { assert q[at + 1] == rest[1]; }
  }

  function Added(m: MemberForm): Member {
    match m
    case Single(sign) => Interval(Range(sign.cp, sign.cp))
    case FromTo(low, high) => Interval(Range(low.cp, high.cp))
    case KindOf(s) => Short(s)
  }

  lemma MemberRead(q: seq<CodePoint>, at: nat, m: MemberForm, rest: seq<CodePoint>)
    requires Has(q, at, MemberText(m)) && Has(q, at + |MemberText(m)|, rest) && MemberFits(m, rest)
    requires |rest| > 0 && rest[|rest| - 1] == ']' as int
    ensures ClassMember(q, at) == Parsed(Added(m), at + |MemberText(m)|)
    ensures at < |q| && !Is(q, at, ']')
  {
    match m
    case Single(sign) =>
      hide ClassChar, SignText, Dash, Has;
      DashRead(q, at + |SignText(sign)|, rest);
      ClassCharRead(q, at, sign);
      SignIsNoKind(q, at, sign);
      HasInside(q, at, SignText(sign));
    case FromTo(low, high) =>
      SpanRead(q, at, low, high);
    case KindOf(s) =>
      DashRead(q, at + 2, rest);
      assert q[at + 0] == MemberText(m)[0] && q[at + 1] == MemberText(m)[1];
  }

  lemma SpanRead(q: seq<CodePoint>, at: nat, low: Sign, high: Sign)
    requires Has(q, at, MemberText(FromTo(low, high))) && InSet(low) && InSet(high) && low.cp <= high.cp
    ensures ClassMember(q, at) == Parsed(Interval(Range(low.cp, high.cp)), at + |MemberText(FromTo(low, high))|)
    ensures at < |q| && !Is(q, at, ']')
  {
    var a := at + |SignText(low)|;
    HasBoth(q, at, SignText(low) + ['-' as int], SignText(high));
    HasBoth(q, at, SignText(low), ['-' as int]);
    assert q[a + 0] == ['-' as int][0];
    hide ClassChar, SignText, Has, InSet;
    ClassCharRead(q, at, low);
    SignIsNoKind(q, at, low);
    ClassCharRead(q, a + 1, high);
    HasInside(q, at, SignText(low));
  }

  /** Members read up to `ms` are its kinds and ranges. */
  lemma {:induction false} MembersRead(q: seq<CodePoint>, at: nat, ms: MemberForms, rest: seq<CodePoint>)
    requires Has(q, at, MembersText(ms)) && Has(q, at + |MembersText(ms)|, rest) && MembersFit(ms, rest)
    requires |rest| > 0 && rest[|rest| - 1] == ']' as int
    ensures ClassMembers(q, at, Members({}, [])) ==
            ClassMembers(q, at + |MembersText(ms)|, Members(Kinds(ms), Ranges(ms)))
  {
    hide MemberFits, ClassMember, ClassMembers, MemberText, Has, Kinds, Ranges, Added, MembersText, MembersFit;
    if ms.NoMember? {
      NothingRead();
    } else {
      var a, text := at + |MembersText(ms.before)|, MemberText(ms.last) + rest;
      MembersSplit(q, at, ms, rest);
      assert text[|text| - 1] == rest[|rest| - 1];
      MembersRead(q, at, ms.before, text);
      MemberRead(q, a, ms.last, rest);
      MembersStep(q, a, Members(Kinds(ms.before), Ranges(ms.before)), Added(ms.last), a + |MemberText(ms.last)|);
      AddedLast(ms);
    }
  }

  lemma NothingRead()
    ensures MembersText(NoMember) == [] && Members({}, []) == Members(Kinds(NoMember), Ranges(NoMember))
  {
  }

  lemma MembersSplit(q: seq<CodePoint>, at: nat, ms: MemberForms, rest: seq<CodePoint>)
    requires ms.AndMember? && MembersFit(ms, rest)
    requires Has(q, at, MembersText(ms)) && Has(q, at + |MembersText(ms)|, rest)
    ensures |MembersText(ms)| == |MembersText(ms.before)| + |MemberText(ms.last)|
    ensures Has(q, at, MembersText(ms.before)) && Has(q, at + |MembersText(ms.before)|, MemberText(ms.last))
    ensures Has(q, at + |MembersText(ms.before)|, MemberText(ms.last) + rest)
    ensures MembersFit(ms.before, MemberText(ms.last) + rest) && MemberFits(ms.last, rest)
  {
    hide Has, MemberFits, MemberText;
    HasBoth(q, at, MembersText(ms.before), MemberText(ms.last));
    HasBoth(q, at + |MembersText(ms.before)|, MemberText(ms.last), rest);
  }

  lemma MembersStep(q: seq<CodePoint>, at: nat, m: Members, x: Member, a: nat)
    requires at < |q| && !Is(q, at, ']') && ClassMember(q, at) == Parsed(x, a)
    ensures ClassMembers(q, at, m) == ClassMembers(q, a, m.With(x))
  {
  }

  lemma AddedLast(ms: MemberForms)
    requires ms.AndMember?
    ensures Members(Kinds(ms.before), Ranges(ms.before)).With(Added(ms.last)) == Members(Kinds(ms), Ranges(ms))
  {
  }

  lemma HasInside(q: seq<CodePoint>, at: nat, t: seq<CodePoint>)
    requires Has(q, at, t)
    ensures at + |t| <= |q|
  {
  }

  /** From place `k` on a bracket's text comes to the bracket that closes it. */
  predicate Closes(t: seq<CodePoint>, k: nat)
    decreases |t| - k
  {
    k < |t| && if t[k] == '\\' as int then Closes(t, k + 2) else t[k] == ']' as int || Closes(t, k + 1)
  }

  lemma {:induction false} SameIntricate(q: seq<CodePoint>, at: nat, t: seq<CodePoint>, k: nat)
    requires Has(q, at, t) && Closes(t, k)
    ensures Intricate(q, at + k) == Intricate(t, k)
    decreases |t| - k
  {
    assert q[at + k] == t[k];
    if t[k] == '\\' as int {
      SameIntricate(q, at, t, k + 2);
    } else if t[k] != ']' as int {
      SameIntricate(q, at, t, k + 1);
      assert q[at + (k + 1)] == t[k + 1];
    }
  }

  lemma SignCloses(t: seq<CodePoint>, k: nat, s: Sign)
    requires Has(t, k, SignText(s)) && InSet(s) && Closes(t, k + |SignText(s)|)
    ensures Closes(t, k)
  {
    assert t[k] == SignText(s)[0];
  }

  lemma MemberCloses(t: seq<CodePoint>, k: nat, m: MemberForm, rest: seq<CodePoint>)
    requires Has(t, k, MemberText(m)) && MemberFits(m, rest) && Closes(t, k + |MemberText(m)|)
    ensures Closes(t, k)
  {
    match m
    case Single(sign) => SignCloses(t, k, sign);
    case FromTo(low, high) => RangeCloses(t, k, low, high);
    case KindOf(_) =>
      assert t[k] == MemberText(m)[0];
  }

  lemma RangeCloses(t: seq<CodePoint>, k: nat, low: Sign, high: Sign)
    requires Has(t, k, MemberText(FromTo(low, high))) && InSet(low) && InSet(high)
    requires Closes(t, k + |MemberText(FromTo(low, high))|)
    ensures Closes(t, k)
  {
    hide Has, SignText, InSet, Closes;
    var a := k + |SignText(low)|;
    HasBoth(t, k, SignText(low) + ['-' as int], SignText(high));
    HasBoth(t, k, SignText(low), ['-' as int]);
    FirstOf(t, a, ['-' as int]);
    SignCloses(t, a + 1, high);
    DashCloses(t, a);
    SignCloses(t, k, low);
  }

  lemma DashCloses(t: seq<CodePoint>, k: nat)
    requires Is(t, k, '-') && Closes(t, k + 1)
    ensures Closes(t, k)
  {
  }

  lemma {:induction false} MembersClose(t: seq<CodePoint>, k: nat, ms: MemberForms, rest: seq<CodePoint>)
    requires Has(t, k, MembersText(ms)) && MembersFit(ms, rest) && Closes(t, k + |MembersText(ms)|)
    ensures Closes(t, k)
  {
    if ms.AndMember? {
      hide MemberFits, MemberText, Closes, Has;
      HasBoth(t, k, MembersText(ms.before), MemberText(ms.last));
      MemberCloses(t, k + |MembersText(ms.before)|, ms.last, rest);
      MembersClose(t, k, ms.before, MemberText(ms.last) + rest);
    }
  }

  /** The parts of a bracket's text. */
  lemma SetParts(q: seq<CodePoint>, at: nat, negated: bool, ms: MemberForms)
    requires Has(q, at, SetText(negated, ms))
    ensures var k := if negated then at + 1 else at;
            && (negated ==> Is(q, at, '^')) && Has(q, k, MembersText(ms)) && Is(q, k + |MembersText(ms)|, ']')
            && Has(q, k + |MembersText(ms)|, [']' as int])
  {
    hide Has, MembersText;
    var k, caret := if negated then at + 1 else at, if negated then ['^' as int] else [];
    HasBoth(q, at, caret, MembersText(ms) + [']' as int]);
    HasBoth(q, k, MembersText(ms), [']' as int]);
    FirstOf(q, k + |MembersText(ms)|, [']' as int]);
    FirstOf(q, at, caret);
  }

  lemma SetCloses(negated: bool, ms: MemberForms)
    requires SetFits(negated, ms)
    ensures Closes(SetText(negated, ms), 0)
  {
    hide SetText, MembersText, MembersFit, Intricate;
    var t, k := SetText(negated, ms), if negated then 1 else 0;
    HasAll(t);
    SetParts(t, 0, negated, ms);
    MembersClose(t, k, ms, [']' as int]);
  }

  lemma {:induction false} MembersBegin(q: seq<CodePoint>, at: nat, ms: MemberForms, rest: seq<CodePoint>)
    requires Has(q, at, MembersText(ms)) && Has(q, at + |MembersText(ms)|, rest) && MembersFit(ms, rest)
             && ms.AndMember?
    requires |rest| > 0 && rest[|rest| - 1] == ']' as int
    ensures at < |q| && !Is(q, at, ']') && Is(q, at, '^') == (MembersText(ms) != [] && MembersText(ms)[0] == '^' as int)
  {
    hide Has, MemberFits, MemberText;
    MembersSplit(q, at, ms, rest);
    if ms.before.NoMember? {
      hide Dash;
      MemberRead(q, at, ms.last, rest);
    } else {
      var text := MemberText(ms.last) + rest;
      assert text[|text| - 1] == rest[|rest| - 1];
      MembersBegin(q, at, ms.before, text);
    }
    FirstOf(q, at, MembersText(ms));
  }

  lemma FirstOf(q: seq<CodePoint>, at: nat, t: seq<CodePoint>)
    requires Has(q, at, t)
    ensures t != [] ==> at < |q| && q[at] == t[0]
  {
    if t != [] { assert q[at + 0] == t[0]; }
  }

  lemma SomeMember(ms: MemberForms)
    requires ms.AndMember?
    ensures MembersText(ms) != [] && (Ranges(ms) != [] || Kinds(ms) != {})
  {
    if ms.last.KindOf? { assert ms.last.shorthand in Kinds(ms); }
  }

  lemma SetRead(q: seq<CodePoint>, at: nat, negated: bool, ms: MemberForms)
    requires Has(q, at, SetText(negated, ms)) && SetFits(negated, ms)
    ensures Bracket(q, at) == Parsed(FormMeaning(SetOf(negated, ms)), at + |SetText(negated, ms)|)
  {
    hide Has, MembersFit, Intricate, Closes, Kinds, Ranges, SetText, ClassMembers, MembersText;
    var k := if negated then at + 1 else at;
    SetParts(q, at, negated, ms);
    SetLength(negated, ms);
    SetCloses(negated, ms);
    SameIntricate(q, at, SetText(negated, ms), 0);
    MembersBegin(q, k, ms, [']' as int]);
    MembersRead(q, k, ms, [']' as int]);
    SomeMember(ms);
    MembersEnd(q, k + |MembersText(ms)|, Members(Kinds(ms), Ranges(ms)));
  }

  lemma SetLength(negated: bool, ms: MemberForms)
    ensures |SetText(negated, ms)| == |MembersText(ms)| + if negated then 2 else 1
  {
  }

  lemma MembersEnd(q: seq<CodePoint>, at: nat, m: Members)
    requires Is(q, at, ']') && (m.ranges != [] || m.shorthands != {})
    ensures ClassMembers(q, at, m) == Parsed(m, at + 1)
  {
  }

  // ----- Counts -----

  lemma {:induction false} DecimalGrows(digits: seq<nat>, k: nat)
    requires k <= |digits|
    ensures Decimal(digits[..k]) <= Decimal(digits)
    decreases |digits|
  {
    if k < |digits| {
      var rest := digits[..|digits| - 1];
      DecimalGrows(rest, k);
      assert rest[..k] == digits[..k];
    } else {
      assert digits[..k] == digits;
    }
  }

  lemma {:induction false} CountSteps(q: seq<CodePoint>, at: nat, digits: seq<nat>, k: nat)
    requires Has(q, at, DigitsText(digits)) && CountFits(digits) && k <= |digits|
    ensures ParseCount(q, at, 0, 0) == ParseCount(q, at + k, Decimal(digits[..k]), k)
    decreases k
  {
    if k > 0 {
      CountSteps(q, at, digits, k - 1);
      assert q[at + (k - 1)] == DigitsText(digits)[k - 1] == '0' as int + digits[k - 1];
      assert digits[k - 1] in digits;
      assert digits[..k][..k - 1] == digits[..k - 1];
      DecimalGrows(digits, k);
    }
  }

  lemma CountRead(q: seq<CodePoint>, at: nat, digits: seq<nat>)
    requires Has(q, at, DigitsText(digits)) && CountFits(digits)
    requires at + |digits| < |q| && !IsDigit(q[at + |digits|])
    ensures ParseCount(q, at, 0, 0) == Parsed(Decimal(digits), at + |digits|)
  {
    CountSteps(q, at, digits, |digits|);
    assert digits[..|digits|] == digits;
  }

  // ----- Repetitions -----

  /** No repetition begins here. */
  predicate Settled(q: seq<CodePoint>, at: nat) {
    !IsQuantifier(q, at) && !Is(q, at, '{')
  }

  lemma LazilyRead(q: seq<CodePoint>, at: nat, lazy: bool)
    requires Has(q, at, Lazily(lazy)) && Settled(q, at + |Lazily(lazy)|)
    ensures at <= |q| && SkipLazy(q, at) == at + |Lazily(lazy)|
  {
    FirstOf(q, at, Lazily(lazy));
  }

  lemma HeadOf(q: seq<CodePoint>, at: nat, c: CodePoint, t: seq<CodePoint>)
    requires Has(q, at, [c] + t)
    ensures at < |q| && q[at] == c && Has(q, at + 1, t)
  {
    HasBoth(q, at, [c], t);
    FirstOf(q, at, [c]);
  }

  lemma DigitsFirst(q: seq<CodePoint>, at: nat, digits: seq<nat>, t: seq<CodePoint>)
    requires Has(q, at, DigitsText(digits) + t) && CountFits(digits)
    ensures Has(q, at, DigitsText(digits)) && Has(q, at + |digits|, t)
    ensures at < |q| && IsDigit(q[at])
  {
    HasBoth(q, at, DigitsText(digits), t);
    FirstOf(q, at, DigitsText(digits));
    assert digits[0] in digits;
  }

  lemma ExactlyParts(q: seq<CodePoint>, at: nat, count: seq<nat>, lazy: bool)
    requires Has(q, at, SuffixText(Exactly(count, lazy))) && CountFits(count)
    ensures |SuffixText(Exactly(count, lazy))| == |count| + 2 + |Lazily(lazy)|
    ensures Is(q, at, '{') && Has(q, at + 1, DigitsText(count)) && Is(q, at + 1 + |count|, '}')
    ensures Has(q, at + |count| + 2, Lazily(lazy))
  {
    hide Has, Lazily, DigitsText, CountFits;
    HeadOf(q, at, '{' as int, DigitsText(count) + (['}' as int] + Lazily(lazy)));
    DigitsFirst(q, at + 1, count, ['}' as int] + Lazily(lazy));
    HeadOf(q, at + 1 + |count|, '}' as int, Lazily(lazy));
  }

  lemma AtLeastParts(q: seq<CodePoint>, at: nat, least: seq<nat>, lazy: bool)
    requires Has(q, at, SuffixText(AtLeast(least, lazy))) && CountFits(least)
    ensures |SuffixText(AtLeast(least, lazy))| == |least| + 3 + |Lazily(lazy)|
    ensures Is(q, at, '{') && Has(q, at + 1, DigitsText(least)) && Is(q, at + 1 + |least|, ',')
    ensures Is(q, at + 2 + |least|, '}') && Has(q, at + |least| + 3, Lazily(lazy))
  {
    hide Has, Lazily, DigitsText, CountFits;
    HeadOf(q, at, '{' as int, DigitsText(least) + ([',' as int] + (['}' as int] + Lazily(lazy))));
    DigitsFirst(q, at + 1, least, [',' as int] + (['}' as int] + Lazily(lazy)));
    HeadOf(q, at + 1 + |least|, ',' as int, ['}' as int] + Lazily(lazy));
    HeadOf(q, at + 2 + |least|, '}' as int, Lazily(lazy));
  }

  lemma BetweenParts(q: seq<CodePoint>, at: nat, least: seq<nat>, most: seq<nat>, lazy: bool)
    requires Has(q, at, SuffixText(Between(least, most, lazy))) && CountFits(least) && CountFits(most)
    ensures |SuffixText(Between(least, most, lazy))| == |least| + |most| + 3 + |Lazily(lazy)|
    ensures Is(q, at, '{') && Has(q, at + 1, DigitsText(least)) && Is(q, at + 1 + |least|, ',')
    ensures Has(q, at + 2 + |least|, DigitsText(most)) && Is(q, at + 2 + |least| + |most|, '}')
    ensures at + 2 + |least| < |q| && IsDigit(q[at + 2 + |least|]) && Has(q, at + 3 + |least| + |most|, Lazily(lazy))
  {
    hide Has, Lazily, DigitsText, CountFits;
    var tail := ['}' as int] + Lazily(lazy);
    HeadOf(q, at, '{' as int, DigitsText(least) + ([',' as int] + (DigitsText(most) + tail)));
    DigitsFirst(q, at + 1, least, [',' as int] + (DigitsText(most) + tail));
    HeadOf(q, at + 1 + |least|, ',' as int, DigitsText(most) + tail);
    DigitsFirst(q, at + 2 + |least|, most, tail);
    HeadOf(q, at + 2 + |least| + |most|, '}' as int, Lazily(lazy));
  }

  lemma ExactlyRead(q: seq<CodePoint>, at: nat, count: seq<nat>, lazy: bool, r: Regex)
    requires Has(q, at, SuffixText(Exactly(count, lazy))) && CountFits(count)
    requires Settled(q, at + |SuffixText(Exactly(count, lazy))|)
    ensures at <= |q|
    ensures ParseSuffix(q, at, r) ==
            Parsed(Repeat(r, Decimal(count), Some(Decimal(count))), at + |SuffixText(Exactly(count, lazy))|)
  {
    hide Has, ParseCount, DigitsText, Decimal, CountFits, SuffixText, ParseSuffix, Settled, Lazily;
    ExactlyParts(q, at, count, lazy);
    CountRead(q, at + 1, count);
    CountedRead(q, at, Bounds(Decimal(count), Some(Decimal(count))), at + |count| + 2, lazy, r);
  }

  lemma AtLeastRead(q: seq<CodePoint>, at: nat, least: seq<nat>, lazy: bool, r: Regex)
    requires Has(q, at, SuffixText(AtLeast(least, lazy))) && CountFits(least)
    requires Settled(q, at + |SuffixText(AtLeast(least, lazy))|)
    ensures at <= |q|
    ensures ParseSuffix(q, at, r) == Parsed(Repeat(r, Decimal(least), None), at + |SuffixText(AtLeast(least, lazy))|)
  {
    hide Has, ParseCount, DigitsText, Decimal, CountFits, SuffixText, ParseSuffix, Settled, Lazily;
    AtLeastParts(q, at, least, lazy);
    CountRead(q, at + 1, least);
    CountedRead(q, at, Bounds(Decimal(least), None), at + |least| + 3, lazy, r);
  }

  lemma BetweenRead(q: seq<CodePoint>, at: nat, least: seq<nat>, most: seq<nat>, lazy: bool, r: Regex)
    requires Has(q, at, SuffixText(Between(least, most, lazy))) && SuffixFits(Between(least, most, lazy))
    requires Settled(q, at + |SuffixText(Between(least, most, lazy))|)
    ensures at <= |q|
    ensures ParseSuffix(q, at, r) ==
            Parsed(Repeat(r, Decimal(least), Some(Decimal(most))), at + |SuffixText(Between(least, most, lazy))|)
  {
    hide Has, ParseCount, ParseBounds, DigitsText, Decimal, CountFits, SuffixText, ParseSuffix, Settled, Lazily;
    BetweenParts(q, at, least, most, lazy);
    CountRead(q, at + 1, least);
    CountRead(q, at + 2 + |least|, most);
    BothBounds(q, at + 1, Decimal(least), at + 1 + |least|, Decimal(most), at + 2 + |least| + |most|);
    CountedRead(q, at, Bounds(Decimal(least), Some(Decimal(most))), at + |least| + |most| + 3, lazy, r);
  }

  lemma BothBounds(q: seq<CodePoint>, at: nat, least: nat, a: nat, most: nat, b: nat)
    requires ParseCount(q, at, 0, 0) == Parsed(least, a) && Is(q, a, ',') && at < |q|
    requires ParseCount(q, a + 1, 0, 0) == Parsed(most, b) && Is(q, b, '}') && least <= most
    requires a + 1 < |q| && IsDigit(q[a + 1])
    ensures ParseBounds(q, at) == Parsed(Bounds(least, Some(most)), b + 1)
  {
    hide ParseCount;
  }

  lemma CountedRead(q: seq<CodePoint>, at: nat, b: Bounds, a: nat, lazy: bool, r: Regex)
    requires Is(q, at, '{') && ParseBounds(q, at + 1) == Parsed(b, a)
    requires Has(q, a, Lazily(lazy)) && Settled(q, a + |Lazily(lazy)|)
    ensures ParseSuffix(q, at, r) == Parsed(Repeat(r, b.least, b.most), a + |Lazily(lazy)|)
  {
    hide ParseBounds;
    LazilyRead(q, a, lazy);
  }

  lemma SuffixRead(q: seq<CodePoint>, at: nat, s: Suffix, r: Regex)
    requires Has(q, at, SuffixText(s)) && SuffixFits(s) && at <= |q| && Settled(q, at + |SuffixText(s)|)
    ensures ParseSuffix(q, at, r) == Parsed(Repeated(s, r), at + |SuffixText(s)|)
  {
    hide *;
    match s
    case Once | Star(_) | Plus(_) | Perhaps(_) => ShortRead(q, at, s, r);
    case Exactly(count, lazy) =>
      SuffixMeans(s, r);
      ExactlyRead(q, at, count, lazy, r);
    case AtLeast(least, lazy) =>
      SuffixMeans(s, r);
      AtLeastRead(q, at, least, lazy, r);
    case Between(least, most, lazy) =>
      SuffixMeans(s, r);
      BetweenRead(q, at, least, most, lazy, r);
  }

  lemma ShortRead(q: seq<CodePoint>, at: nat, s: Suffix, r: Regex)
    requires Has(q, at, SuffixText(s)) && at <= |q| && Settled(q, at + |SuffixText(s)|)
    requires s.Once? || s.Star? || s.Plus? || s.Perhaps?
    ensures ParseSuffix(q, at, r) == Parsed(Repeated(s, r), at + |SuffixText(s)|)
  {
    match s
    case Once =>
    case Star(lazy) => SimpleRead(q, at, '*' as int, lazy);
    case Plus(lazy) => SimpleRead(q, at, '+' as int, lazy);
    case Perhaps(lazy) => SimpleRead(q, at, '?' as int, lazy);
  }

  lemma SuffixMeans(s: Suffix, r: Regex)
    requires SuffixFits(s)
    ensures s.Exactly? ==> CountFits(s.count) && Repeated(s, r) == Repeat(r, Decimal(s.count), Some(Decimal(s.count)))
    ensures s.AtLeast? ==> CountFits(s.least) && Repeated(s, r) == Repeat(r, Decimal(s.least), None)
    ensures s.Between? ==> Repeated(s, r) == Repeat(r, Decimal(s.least), Some(Decimal(s.most)))
  {
  }

  lemma SimpleRead(q: seq<CodePoint>, at: nat, quant: CodePoint, lazy: bool)
    requires Has(q, at, [quant] + Lazily(lazy)) && Settled(q, at + |[quant] + Lazily(lazy)|)
    ensures at < |q| && q[at] == quant && SkipLazy(q, at + 1) == at + |[quant] + Lazily(lazy)|
  {
    HasBoth(q, at, [quant], Lazily(lazy));
    FirstOf(q, at, [quant]);
    LazilyRead(q, at + 1, lazy);
  }

  // ----- Atoms, items, alternatives -----

  lemma LetterRead(q: seq<CodePoint>, at: nat, s: Sign, depth: nat)
    requires Has(q, at, SignText(s)) && FormFits(Letter(s), depth)
    ensures at < |q| && ParseAtom(q, at, depth) == Parsed(One(Char(s.cp)), at + |SignText(s)|)
  {
    FirstOf(q, at, SignText(s));
    if !s.Bare? {
      EscapedRead(q, at, s);
      assert q[at + 1] == SignText(s)[1];
    }
  }

  lemma MarkRead(q: seq<CodePoint>, at: nat, a: Anchor, depth: nat)
    requires Has(q, at, MarkText(a))
    ensures at < |q| && ParseAtom(q, at, depth) == Parsed(Assert(a), at + |MarkText(a)|)
  {
    FirstOf(q, at, MarkText(a));
    if |MarkText(a)| > 1 { assert q[at + 1] == MarkText(a)[1]; }
  }

  lemma KindRead(q: seq<CodePoint>, at: nat, s: Shorthand, depth: nat)
    requires Has(q, at, FormText(Kind(s)))
    ensures at < |q| && ParseAtom(q, at, depth) == Parsed(One(Class(false, {s}, [])), at + 2)
  {
    assert q[at + 0] == FormText(Kind(s))[0] && q[at + 1] == FormText(Kind(s))[1];
  }

  /** An atom begins with no character that ends or repeats what came before it. */
  lemma FormBegins(q: seq<CodePoint>, at: nat, f: Form, depth: nat)
    requires Has(q, at, FormText(f)) && FormFits(f, depth)
    ensures at < |q| && Settled(q, at) && !ItemsEnd(q, at)
  {
    FirstOf(q, at, FormText(f));
  }

  lemma ThenParts(q: seq<CodePoint>, at: nat, items: Items)
    requires items.Then? && Has(q, at, ItemsText(items))
    ensures var a := at + |ItemsText(items.before)|; var b := a + |FormText(items.form)|;
            && |ItemsText(items)| == b - at + |SuffixText(items.suffix)|
            && Has(q, at, ItemsText(items.before)) && Has(q, a, FormText(items.form))
            && Has(q, b, SuffixText(items.suffix)) && b + |SuffixText(items.suffix)| <= |q|
  {
    hide Has, FormText, SuffixText;
    var a := at + |ItemsText(items.before)|;
    HasBoth(q, at, ItemsText(items.before), FormText(items.form) + SuffixText(items.suffix));
    HasBoth(q, a, FormText(items.form), SuffixText(items.suffix));
    HasInside(q, a + |FormText(items.form)|, SuffixText(items.suffix));
  }

  lemma OrParts(q: seq<CodePoint>, at: nat, left: Expr, right: Items)
    requires Has(q, at, Text(Or(left, right)))
    ensures var a := at + |Text(left)|;
            && |Text(Or(left, right))| == |Text(left)| + 1 + |ItemsText(right)|
            && Has(q, at, Text(left)) && Is(q, a, '|') && Has(q, a + 1, ItemsText(right))
  {
    hide Has, ItemsText;
    HasBoth(q, at, Text(left), ['|' as int] + ItemsText(right));
    HeadOf(q, at + |Text(left)|, '|' as int, ItemsText(right));
  }

  lemma {:induction false} ItemsBegin(q: seq<CodePoint>, at: nat, items: Items, depth: nat)
    requires Has(q, at, ItemsText(items)) && ItemsFit(items, depth) && at <= |q| && Settled(q, at + |ItemsText(items)|)
    ensures Settled(q, at)
    decreases items
  {
    hide Has, FormText, SuffixText, FormFits, SuffixFits, ItemsText, Settled;
    if items.Then? {
      ThenParts(q, at, items);
      FormBegins(q, at + |ItemsText(items.before)|, items.form, depth);
      ItemsBegin(q, at, items.before, depth);
    } else {
      NoItems();
    }
  }

  lemma NoItems()
    ensures ItemsText(Nothing) == []
  {
  }

  lemma {:induction false} ExprBegins(q: seq<CodePoint>, at: nat, e: Expr, depth: nat)
    requires Has(q, at, Text(e)) && Fit(e, depth) && at <= |q| && Settled(q, at + |Text(e)|)
    ensures Settled(q, at)
    decreases e
  {
    hide Has, Text, Fit, ItemsText, ItemsFit, Settled;
    ExprShape(e, depth);
    if e.Branch? {
      ItemsBegin(q, at, e.items, depth);
    } else {
      OrParts(q, at, e.left, e.right);
      BarSettled(q, at + |Text(e.left)|);
      ExprBegins(q, at, e.left, depth);
    }
  }

  lemma BarSettled(q: seq<CodePoint>, at: nat)
    requires Is(q, at, '|')
    ensures Settled(q, at)
  {
  }

  lemma {:induction false} FormRead(q: seq<CodePoint>, at: nat, f: Form, depth: nat)
    requires Has(q, at, FormText(f)) && FormFits(f, depth)
    ensures at < |q| && ParseAtom(q, at, depth) == Parsed(FormMeaning(f), at + |FormText(f)|)
    decreases f
  {
    match f
    case Grouped(capturing, body) => GroupRead(q, at, capturing, body, depth);
    case SetOf(negated, members) =>
      hide Bracket, SetText, SetFits, Has;
      HeadOf(q, at, '[' as int, SetText(negated, members));
      SetRead(q, at + 1, negated, members);
    case AnyOne => FirstOf(q, at, ['.' as int]);
    case Mark(anchor) => MarkRead(q, at, anchor, depth);
    case Kind(shorthand) => KindRead(q, at, shorthand, depth);
    case Letter(sign) => LetterRead(q, at, sign, depth);
  }

  lemma {:induction false} GroupRead(q: seq<CodePoint>, at: nat, capturing: bool, body: Expr, depth: nat)
    requires Has(q, at, FormText(Grouped(capturing, body))) && FormFits(Grouped(capturing, body), depth)
    ensures at < |q|
    ensures ParseAtom(q, at, depth) == Parsed(Meaning(body), at + |FormText(Grouped(capturing, body))|)
    decreases body, 1
  {
    hide Has, Text, Fit, Meaning, ParseExpr;
    var opening := if capturing then ['(' as int] else ['(' as int, '?' as int, ':' as int];
    var a := at + |opening|;
    GroupParts(q, at, capturing, body);
    hide FormText;
    ExprRead(q, a, body, depth + 1);
    ExprBegins(q, a, body, depth + 1);
    OpeningRead(q, at, capturing);
  }

  lemma GroupParts(q: seq<CodePoint>, at: nat, capturing: bool, body: Expr)
    requires Has(q, at, FormText(Grouped(capturing, body)))
    ensures var opening := if capturing then ['(' as int] else ['(' as int, '?' as int, ':' as int];
            var a := at + |opening|;
            && |FormText(Grouped(capturing, body))| == |opening| + |Text(body)| + 1
            && Has(q, at, opening) && Has(q, a, Text(body)) && Is(q, a + |Text(body)|, ')')
  {
    hide Has, Text;
    var opening := if capturing then ['(' as int] else ['(' as int, '?' as int, ':' as int];
    var a := at + |opening|;
    HasBoth(q, at, opening, Text(body) + [')' as int]);
    HasBoth(q, a, Text(body), [')' as int]);
    FirstOf(q, a + |Text(body)|, [')' as int]);
  }

  lemma OpeningRead(q: seq<CodePoint>, at: nat, capturing: bool)
    requires Has(q, at, if capturing then ['(' as int] else ['(' as int, '?' as int, ':' as int])
    ensures Is(q, at, '(') && (!capturing ==> Is(q, at + 1, '?') && Is(q, at + 2, ':'))
  {
    var opening := if capturing then ['(' as int] else ['(' as int, '?' as int, ':' as int];
    assert q[at + 0] == opening[0];
    if !capturing { assert q[at + 1] == opening[1] && q[at + 2] == opening[2]; }
  }

  function Sofar(items: Items): Option<Regex> {
    if items.Nothing? then None else Some(ItemsMeaning(items))
  }

  /** Reading items goes on behind them with what they mean. */
  lemma {:induction false} ItemsRead(q: seq<CodePoint>, at: nat, items: Items, depth: nat)
    requires Has(q, at, ItemsText(items)) && ItemsFit(items, depth) && at <= |q| && Settled(q, at + |ItemsText(items)|)
    ensures at + |ItemsText(items)| <= |q|
    ensures ParseItems(q, at, depth, None) == ParseItems(q, at + |ItemsText(items)|, depth, Sofar(items))
    decreases items, 1
  {
    hide Has, FormText, SuffixText, FormFits, SuffixFits, FormMeaning, Repeated, ParseItems, ParseAtom, ParseSuffix,
         ItemsText, Settled;
    HasInside(q, at, ItemsText(items));
    if items.Then? {
      var a := at + |ItemsText(items.before)|;
      var b := a + |FormText(items.form)|;
      ThenParts(q, at, items);
      FormBegins(q, a, items.form, depth);
      ItemsRead(q, at, items.before, depth);
      FormRead(q, a, items.form, depth);
      SuffixRead(q, b, items.suffix, FormMeaning(items.form));
      ItemRead(q, a, depth, FormMeaning(items.form), b, Repeated(items.suffix, FormMeaning(items.form)),
               b + |SuffixText(items.suffix)|, Sofar(items.before));
    } else {
      NoItems();
    }
  }

  lemma ItemRead(q: seq<CodePoint>, at: nat, depth: nat, r: Regex, a: nat, r': Regex, b: nat, acc: Option<Regex>)
    requires at < |q| && !ItemsEnd(q, at) && ParseAtom(q, at, depth) == Parsed(r, a)
    requires a <= |q| && ParseSuffix(q, a, r) == Parsed(r', b) && Settled(q, b)
    ensures b <= |q| && ParseItems(q, at, depth, acc) == ParseItems(q, b, depth, Some(Append(acc, r')))
  {
    hide ParseAtom, ParseSuffix;
  }

  /** Reading alternatives goes on behind them with what they mean. */
  lemma {:induction false} ExprRead(q: seq<CodePoint>, at: nat, e: Expr, depth: nat)
    requires Has(q, at, Text(e)) && Fit(e, depth) && at <= |q| && ItemsEnd(q, at + |Text(e)|)
    ensures at + |Text(e)| <= |q|
    ensures ParseExpr(q, at, depth) == ParseAlternatives(q, at + |Text(e)|, depth, Meaning(e))
    decreases e, 0
  {
    hide Has, Text, Fit, Meaning, ItemsText, ItemsFit, ItemsMeaning, ParseExpr, ParseItems, ParseAlternatives;
    HasInside(q, at, Text(e));
    ExprShape(e, depth);
    match e
    case Branch(items) =>
      BranchRead(q, at, items, depth);
      FirstRead(q, at, depth, ItemsMeaning(items), at + |Text(e)|);
    case Or(left, right) =>
      OrParts(q, at, left, right);
      ExprRead(q, at, left, depth);
      BranchRead(q, at + |Text(left)| + 1, right, depth);
      NextRead(q, at + |Text(left)|, depth, Meaning(left), ItemsMeaning(right), at + |Text(e)|);
  }

  lemma ExprShape(e: Expr, depth: nat)
    requires Fit(e, depth)
    ensures e.Branch? ==>
              Text(e) == ItemsText(e.items) && ItemsFit(e.items, depth) && Meaning(e) == ItemsMeaning(e.items)
    ensures e.Or? ==> Fit(e.left, depth) && ItemsFit(e.right, depth)
    ensures e.Or? ==> Meaning(e) == Alt(Meaning(e.left), ItemsMeaning(e.right))
  {
  }

  lemma FirstRead(q: seq<CodePoint>, at: nat, depth: nat, r: Regex, a: nat)
    requires at <= |q| && ParseItems(q, at, depth, None) == Parsed(r, a)
    ensures a <= |q| && ParseExpr(q, at, depth) == ParseAlternatives(q, a, depth, r)
  {
    hide ParseItems;
  }

  lemma NextRead(q: seq<CodePoint>, at: nat, depth: nat, left: Regex, r: Regex, a: nat)
    requires Is(q, at, '|') && ParseItems(q, at + 1, depth, None) == Parsed(r, a)
    ensures a <= |q| && ParseAlternatives(q, at, depth, left) == ParseAlternatives(q, a, depth, Alt(left, r))
  {
    hide ParseItems;
  }

  /** One alternative. */
  lemma {:induction false} BranchRead(q: seq<CodePoint>, at: nat, items: Items, depth: nat)
    requires Has(q, at, ItemsText(items)) && ItemsFit(items, depth) && at <= |q| && ItemsEnd(q, at + |ItemsText(items)|)
    ensures at + |ItemsText(items)| <= |q|
    ensures ParseItems(q, at, depth, None) == Parsed(ItemsMeaning(items), at + |ItemsText(items)|)
    decreases items, 2
  {
    hide Has, ItemsText, ItemsFit;
    ItemsRead(q, at, items, depth);
  }

  /** Every text that writes an expression is read, and as that expression. */
  lemma WrittenIsRead(e: Expr)
    requires Fit(e, 0)
    ensures ParseQuery(Text(e)) == Some(Meaning(e))
  {
    HasAll(Text(e));
    ExprRead(Text(e), 0, e, 0);
  }
}
