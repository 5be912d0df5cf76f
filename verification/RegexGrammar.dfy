/** The query language: a reference parser from query text to expressions, and the storage
    an expression needs in the fixed pools of the compiler. */
module RegexGrammar {
  import opened Common
  import opened Rows
  import opened RegexSyntax

  const STATES := SEARCH_MAX * 2 + 2
  const COMPILE_WORK := 8192
  const MAX_DEPTH := 32

  datatype Parse<+T> = Fail | Parsed(value: T, at: nat)

  predicate Is(q: seq<CodePoint>, at: nat, c: char) {
    at < |q| && q[at] == c as int
  }

  predicate IsQuantifier(q: seq<CodePoint>, at: nat) {
    Is(q, at, '*') || Is(q, at, '+') || Is(q, at, '?')
  }

  predicate IsDigit(cp: CodePoint) {
    '0' as int <= cp <= '9' as int
  }

  predicate IsAlphanumeric(cp: CodePoint) {
    IsDigit(cp) || 'a' as int <= cp <= 'z' as int || 'A' as int <= cp <= 'Z' as int
  }

  function ShorthandOf(cp: CodePoint): Option<Shorthand> {
    if cp == 'd' as int then Some(Digit)
    else if cp == 's' as int then Some(Space)
    else if cp == 'w' as int then Some(Word)
    else if cp == 'D' as int then Some(NotDigit)
    else if cp == 'S' as int then Some(NotSpace)
    else if cp == 'W' as int then Some(NotWord)
    else None
  }

  /** The character named by an escape; other letters and digits are reserved. */
  function Escaped(q: seq<CodePoint>, at: nat): (p: Parse<CodePoint>)
    ensures p.Parsed? ==> p.at == at + 1 <= |q|
  {
    if at >= |q| then Fail
    else
      var cp := q[at];
      if cp == 'a' as int then Parsed(7, at + 1)
      else if cp == 'f' as int then Parsed(12, at + 1)
      else if cp == 'v' as int then Parsed(11, at + 1)
      else if cp == 'n' as int then Parsed(10, at + 1)
      else if cp == 'r' as int then Parsed(13, at + 1)
      else if cp == 't' as int then Parsed(9, at + 1)
      else if IsAlphanumeric(cp) then Fail
      else Parsed(cp, at + 1)
  }

  function ClassChar(q: seq<CodePoint>, at: nat): (p: Parse<CodePoint>)
    ensures p.Parsed? ==> at < p.at <= |q|
  {
    if at >= |q| then Fail
    else if Is(q, at, '\\') then Escaped(q, at + 1)
    else Parsed(q[at], at + 1)
  }

  /** True when the bracket starting at `at` needs nested sets, named sets or set operators. */
  predicate Intricate(q: seq<CodePoint>, at: nat)
    decreases |q| - at
  {
    if at >= |q| then false
    else if Is(q, at, '\\') then Intricate(q, at + 2)
    else if Is(q, at, ']') then false
    else if Is(q, at, '[') then true
    else if at + 1 < |q| && q[at] == q[at + 1] && (Is(q, at, '&') || Is(q, at, '-') || Is(q, at, '~')) then true
    else Intricate(q, at + 1)
  }

  predicate OutsideCore(q: seq<CodePoint>, at: nat) {
    Is(q, at, ']') || (Is(q, at, '^') && Is(q, at + 1, ']')) || Intricate(q, at)
  }

  datatype Members = Members(shorthands: set<Shorthand>, ranges: seq<Range>)
  {
    function With(x: Member): Members {
      match x
      case Short(shorthand) => this.(shorthands := shorthands + {shorthand})
      case Interval(range) => this.(ranges := ranges + [range])
    }
  }

  /** One member of a bracket: a shorthand, a character or a range. */
  datatype Member = Short(shorthand: Shorthand) | Interval(range: Range)

  function ClassMember(q: seq<CodePoint>, at: nat): (p: Parse<Member>)
    ensures p.Parsed? ==> at < p.at <= |q|
  {
    if Is(q, at, '\\') && at + 1 < |q| && ShorthandOf(q[at + 1]).Some? then
      if Is(q, at + 2, '-') && !Is(q, at + 3, ']') then Fail
      else Parsed(Short(ShorthandOf(q[at + 1]).value), at + 2)
    else
      match ClassChar(q, at)
      case Fail => Fail
      case Parsed(low, a) =>
        if Is(q, a, '-') && !Is(q, a + 1, ']') then
          match ClassChar(q, a + 1)
          case Fail => Fail
          case Parsed(high, b) => if low <= high then Parsed(Interval(Range(low, high)), b) else Fail
        else Parsed(Interval(Range(low, low)), a)
  }

  function ClassMembers(q: seq<CodePoint>, at: nat, m: Members): (p: Parse<Members>)
    ensures p.Parsed? ==> at < p.at <= |q|
    decreases |q| - at
  {
    if at >= |q| then Fail
    else if Is(q, at, ']') then
      if m.ranges == [] && m.shorthands == {} then Fail else Parsed(m, at + 1)
    else
      match ClassMember(q, at)
      case Fail => Fail
      case Parsed(x, a) => ClassMembers(q, a, m.With(x))
  }

  function Bracket(q: seq<CodePoint>, at: nat): (p: Parse<Regex>)
    ensures p.Parsed? ==> at < p.at <= |q|
  {
    if OutsideCore(q, at) then Fail
    else
      var negated := Is(q, at, '^');
      BracketBody(q, if negated then at + 1 else at, negated)
  }

  function BracketBody(q: seq<CodePoint>, at: nat, negated: bool): (p: Parse<Regex>)
    ensures p.Parsed? ==> at < p.at <= |q|
  {
    match ClassMembers(q, at, Members({}, []))
    case Fail => Fail
    case Parsed(m, a) => Parsed(One(Class(negated, m.shorthands, m.ranges)), a)
  }

  function Backslash(q: seq<CodePoint>, at: nat): (p: Parse<Regex>)
    ensures p.Parsed? ==> at < p.at <= |q|
  {
    if Is(q, at, 'A') then Parsed(Assert(TextStart), at + 1)
    else if Is(q, at, 'z') then Parsed(Assert(TextEnd), at + 1)
    else if Is(q, at, 'b') then Parsed(Assert(Boundary), at + 1)
    else if Is(q, at, 'B') then Parsed(Assert(NotBoundary), at + 1)
    else if at < |q| && ShorthandOf(q[at]).Some? then
      Parsed(One(Class(false, {ShorthandOf(q[at]).value}, [])), at + 1)
    else
      match Escaped(q, at)
      case Fail => Fail
      case Parsed(cp, a) => Parsed(One(Char(cp)), a)
  }

  predicate Reserved(cp: CodePoint) {
    cp == '*' as int || cp == '+' as int || cp == '?' as int || cp == '{' as int
    || cp == '}' as int || cp == ']' as int
  }

  /** An atom that is not a group, a bracket or an escape. */
  function Plain(cp: CodePoint): Regex {
    if cp == '.' as int then One(Any)
    else if cp == '^' as int then Assert(LineStart)
    else if cp == '$' as int then Assert(LineEnd)
    else One(Char(cp))
  }

  function ParseAtom(q: seq<CodePoint>, at: nat, depth: nat): (p: Parse<Regex>)
    requires at < |q|
    ensures p.Parsed? ==> at < p.at <= |q|
    decreases |q| - at, 0
  {
    if Is(q, at, '(') then ParseGroup(q, at + 1, depth)
    else if Is(q, at, '[') then Bracket(q, at + 1)
    else if Is(q, at, '\\') then Backslash(q, at + 1)
    else if Reserved(q[at]) then Fail
    else Parsed(Plain(q[at]), at + 1)
  }

  /** A group body after its opening parenthesis; `(?:` groups without capturing. */
  function ParseGroup(q: seq<CodePoint>, at: nat, depth: nat): (p: Parse<Regex>)
    requires at <= |q|
    ensures p.Parsed? ==> at < p.at <= |q|
    decreases |q| - at, 5
  {
    if depth >= MAX_DEPTH then Fail
    else if Is(q, at, '?') && !Is(q, at + 1, ':') then Fail
    else
      match ParseExpr(q, if Is(q, at, '?') then at + 2 else at, depth + 1)
      case Fail => Fail
      case Parsed(r, a) => if Is(q, a, ')') then Parsed(r, a + 1) else Fail
  }

  function SkipLazy(q: seq<CodePoint>, at: nat): (a: nat)
    requires at <= |q|
    ensures at <= a <= |q|
  {
    if Is(q, at, '?') then at + 1 else at
  }

  /** A decimal count; `digits` digits worth `count` have been read. */
  function ParseCount(q: seq<CodePoint>, at: nat, count: nat, digits: nat): (p: Parse<nat>)
    ensures p.Parsed? ==> at <= p.at
    ensures p.Parsed? && at <= |q| ==> p.at <= |q|
    ensures p.Parsed? && count <= SEARCH_MAX ==> p.value <= SEARCH_MAX
    decreases |q| - at
  {
    if at < |q| && IsDigit(q[at]) then
      var next := count * 10 + (q[at] - '0' as int);
      if next > SEARCH_MAX then Fail else ParseCount(q, at + 1, next, digits + 1)
    else if digits == 0 then Fail
    else Parsed(count, at)
  }

  /** The upper bound of a counted repetition whose lower bound `least` ends at `at`. */
  function ParseMost(q: seq<CodePoint>, at: nat, least: nat): (p: Parse<Option<nat>>)
    requires at <= |q|
    ensures p.Parsed? ==> at <= p.at <= |q|
  {
    if !Is(q, at, ',') then Parsed(Some(least), at)
    else if Is(q, at + 1, '}') then Parsed(None, at + 1)
    else
      match ParseCount(q, at + 1, 0, 0)
      case Fail => Fail
      case Parsed(most, a) => Parsed(Some(most), a)
  }

  datatype Bounds = Bounds(least: nat, most: Option<nat>)

  /** `{m}`, `{m,}` or `{m,n}` after its opening brace. */
  function ParseBounds(q: seq<CodePoint>, at: nat): (p: Parse<Bounds>)
    requires at <= |q|
    ensures p.Parsed? ==> at < p.at <= |q|
    ensures p.Parsed? ==> p.value.least <= SEARCH_MAX
    ensures p.Parsed? && p.value.most.Some? ==> p.value.least <= p.value.most.value <= SEARCH_MAX
  {
    match ParseCount(q, at, 0, 0)
    case Fail => Fail
    case Parsed(least, a) =>
      match ParseMost(q, a, least)
      case Fail => Fail
      case Parsed(most, b) =>
        if !Is(q, b, '}') || (most.Some? && most.value < least) then Fail
        else Parsed(Bounds(least, most), b + 1)
  }

  /** The repetition written after an atom, if any. */
  function ParseSuffix(q: seq<CodePoint>, at: nat, r: Regex): (p: Parse<Regex>)
    requires at <= |q|
    ensures p.Parsed? ==> at <= p.at <= |q|
  {
    if Is(q, at, '*') then Parsed(Repeat(r, 0, None), SkipLazy(q, at + 1))
    else if Is(q, at, '+') then Parsed(Repeat(r, 1, None), SkipLazy(q, at + 1))
    else if Is(q, at, '?') then Parsed(Repeat(r, 0, Some(1)), SkipLazy(q, at + 1))
    else if Is(q, at, '{') then
      match ParseBounds(q, at + 1)
      case Fail => Fail
      case Parsed(b, a) => Parsed(Repeat(r, b.least, b.most), SkipLazy(q, a))
    else Parsed(r, at)
  }

  function Append(acc: Option<Regex>, r: Regex): Regex {
    if acc.Some? then Cat(acc.value, r) else r
  }

  /** An atom with its repetition; a second quantifier is refused. */
  function ParseItem(q: seq<CodePoint>, at: nat, depth: nat): (p: Parse<Regex>)
    requires at < |q|
    ensures p.Parsed? ==> at < p.at <= |q|
    decreases |q| - at, 1
  {
    match ParseAtom(q, at, depth)
    case Fail => Fail
    case Parsed(r, a) =>
      match ParseSuffix(q, a, r)
      case Fail => Fail
      case Parsed(r', b) => if IsQuantifier(q, b) || Is(q, b, '{') then Fail else Parsed(r', b)
  }

  predicate ItemsEnd(q: seq<CodePoint>, at: nat) {
    at >= |q| || Is(q, at, ')') || Is(q, at, '|')
  }

  /** The items of one alternative, appended to those already read. */
  function ParseItems(q: seq<CodePoint>, at: nat, depth: nat, acc: Option<Regex>): (p: Parse<Regex>)
    requires at <= |q|
    ensures p.Parsed? ==> at <= p.at <= |q|
    decreases |q| - at, 2
  {
    if ItemsEnd(q, at) then Parsed(acc.GetOr(Empty), at)
    else
      match ParseItem(q, at, depth)
      case Fail => Fail
      case Parsed(r, a) => ParseItems(q, a, depth, Some(Append(acc, r)))
  }

  function ParseAlternatives(q: seq<CodePoint>, at: nat, depth: nat, left: Regex): (p: Parse<Regex>)
    requires at <= |q|
    ensures p.Parsed? ==> at <= p.at <= |q|
    decreases |q| - at, 3
  {
    if Is(q, at, '|') then
      match ParseItems(q, at + 1, depth, None)
      case Fail => Fail
      case Parsed(right, a) => ParseAlternatives(q, a, depth, Alt(left, right))
    else Parsed(left, at)
  }

  function ParseExpr(q: seq<CodePoint>, at: nat, depth: nat): (p: Parse<Regex>)
    requires at <= |q|
    ensures p.Parsed? ==> at <= p.at <= |q|
    decreases |q| - at, 4
  {
    match ParseItems(q, at, depth, None)
    case Fail => Fail
    case Parsed(r, a) => ParseAlternatives(q, a, depth, r)
  }

  /** The expression a whole query denotes. */
  function ParseQuery(q: seq<CodePoint>): Option<Regex> {
    match ParseExpr(q, 0, 0)
    case Fail => None
    case Parsed(r, a) => if a == |q| then Some(r) else None
  }

  // ----- What lies outside the grammar -----

  /** The letters of escapes by number and of character properties. */
  predicate Foreign(cp: CodePoint) {
    cp == 'x' as int || cp == 'u' as int || cp == 'U' as int || cp == 'p' as int || cp == 'P' as int
  }

  /** From here on the query has no flags and no named groups, no escapes by number, no properties and no set algebra;
      `inSet` tells whether a bracket is open. */
  predicate Core(q: seq<CodePoint>, at: nat, inSet: bool)
    decreases |q| - at
  {
    if at >= |q| then true
    else if Is(q, at, '\\') then !(at + 1 < |q| && Foreign(q[at + 1])) && Core(q, at + 2, inSet)
    else if inSet then Core(q, at + 1, !Is(q, at, ']'))
    else if Is(q, at, '[') then !OutsideCore(q, at + 1) && Core(q, at + 1, true)
    else if Is(q, at, '(') && Is(q, at + 1, '?') && !Is(q, at + 2, ':') then false
    else Core(q, at + 1, false)
  }

  /** The query can be read with this grammar alone. */
  predicate InCore(q: seq<CodePoint>) {
    Core(q, 0, false)
  }

  /** Reading a character of a bracket. */
  lemma ClassCharCore(q: seq<CodePoint>, at: nat)
    requires ClassChar(q, at).Parsed? && !Is(q, at, ']') && Core(q, ClassChar(q, at).at, true)
    ensures Core(q, at, true)
  {
  }

  lemma MemberCore(q: seq<CodePoint>, at: nat)
    requires ClassMember(q, at).Parsed? && !Is(q, at, ']') && Core(q, ClassMember(q, at).at, true)
    ensures Core(q, at, true)
  {
    if Is(q, at, '\\') && at + 1 < |q| && ShorthandOf(q[at + 1]).Some? { return; }
    hide Core, ClassChar;
    var a := ClassChar(q, at).at;
    if Is(q, a, '-') && !Is(q, a + 1, ']') {
      ClassCharCore(q, a + 1);
      SetCharCore(q, a);
    }
    ClassCharCore(q, at);
  }

  lemma SetCharCore(q: seq<CodePoint>, at: nat)
    requires at < |q| && !Is(q, at, '\\') && !Is(q, at, ']') && Core(q, at + 1, true)
    ensures Core(q, at, true)
  {
  }

  lemma {:induction false} MembersCore(q: seq<CodePoint>, at: nat, m: Members)
    requires ClassMembers(q, at, m).Parsed? && Core(q, ClassMembers(q, at, m).at, false)
    ensures Core(q, at, true)
    decreases |q| - at
  {
    if !Is(q, at, ']') {
      var x := ClassMember(q, at);
      MembersCore(q, x.at, m.With(x.value));
      MemberCore(q, at);
    }
  }

  lemma BracketCore(q: seq<CodePoint>, at: nat)
    requires Is(q, at, '[') && Bracket(q, at + 1).Parsed? && Core(q, Bracket(q, at + 1).at, false)
    ensures Core(q, at, false)
  {
    var negated := Is(q, at + 1, '^');
    MembersCore(q, if negated then at + 2 else at + 1, Members({}, []));
    if negated { SetCharCore(q, at + 1); }
  }

  lemma PlainCore(q: seq<CodePoint>, at: nat)
    requires at < |q| && !Is(q, at, '\\') && !Is(q, at, '[') && Core(q, at + 1, false)
    requires Is(q, at, '(') && Is(q, at + 1, '?') ==> Is(q, at + 2, ':')
    ensures Core(q, at, false)
  {
  }

  lemma BackslashCore(q: seq<CodePoint>, at: nat)
    requires Is(q, at, '\\') && Backslash(q, at + 1).Parsed? && Core(q, Backslash(q, at + 1).at, false)
    ensures Core(q, at, false)
  {
  }

  lemma {:induction false} AtomCore(q: seq<CodePoint>, at: nat, depth: nat)
    requires at < |q| && ParseAtom(q, at, depth).Parsed? && Core(q, ParseAtom(q, at, depth).at, false)
    ensures Core(q, at, false)
    decreases |q| - at, 0
  {
    hide Core, Bracket, Backslash;
    if Is(q, at, '(') {
      var inner := if Is(q, at + 1, '?') then at + 3 else at + 1;
      var body := ParseExpr(q, inner, depth + 1);
      PlainCore(q, body.at);
      ExprCore(q, inner, depth + 1);
      if Is(q, at + 1, '?') {
        PlainCore(q, at + 2);
        PlainCore(q, at + 1);
      }
      PlainCore(q, at);
    } else if Is(q, at, '[') {
      BracketCore(q, at);
    } else if Is(q, at, '\\') {
      BackslashCore(q, at);
    } else {
      PlainCore(q, at);
    }
  }

  /** Counts and bounds are written with digits, commas and a brace. */
  lemma {:induction false} CountCore(q: seq<CodePoint>, at: nat, count: nat, digits: nat)
    requires ParseCount(q, at, count, digits).Parsed? && Core(q, ParseCount(q, at, count, digits).at, false)
    ensures Core(q, at, false)
    decreases |q| - at
  {
    hide Core;
    if at < |q| && IsDigit(q[at]) {
      CountCore(q, at + 1, count * 10 + (q[at] - '0' as int), digits + 1);
      PlainCore(q, at);
    }
  }

  lemma BoundsCore(q: seq<CodePoint>, at: nat)
    requires at <= |q| && ParseBounds(q, at).Parsed? && Core(q, ParseBounds(q, at).at, false)
    ensures Core(q, at, false)
  {
    hide Core, ParseCount;
    var least := ParseCount(q, at, 0, 0);
    var most := ParseMost(q, least.at, least.value);
    PlainCore(q, most.at);
    if Is(q, least.at, ',') {
      if !Is(q, least.at + 1, '}') { CountCore(q, least.at + 1, 0, 0); }
      PlainCore(q, least.at);
    }
    CountCore(q, at, 0, 0);
  }

  lemma SuffixCore(q: seq<CodePoint>, at: nat, r: Regex)
    requires at <= |q| && ParseSuffix(q, at, r).Parsed? && Core(q, ParseSuffix(q, at, r).at, false)
    ensures Core(q, at, false)
  {
    hide Core, ParseBounds;
    if IsQuantifier(q, at) {
      if Is(q, at + 1, '?') { PlainCore(q, at + 1); }
      PlainCore(q, at);
    } else if Is(q, at, '{') {
      var b := ParseBounds(q, at + 1);
      if Is(q, b.at, '?') { PlainCore(q, b.at); }
      BoundsCore(q, at + 1);
      PlainCore(q, at);
    }
  }

  lemma {:induction false} ItemsCore(q: seq<CodePoint>, at: nat, depth: nat, acc: Option<Regex>)
    requires at <= |q| && ParseItems(q, at, depth, acc).Parsed? && Core(q, ParseItems(q, at, depth, acc).at, false)
    ensures Core(q, at, false)
    decreases |q| - at, 2
  {
    hide Core, ParseSuffix;
    if !ItemsEnd(q, at) {
      var atom := ParseAtom(q, at, depth);
      var item := ParseSuffix(q, atom.at, atom.value);
      ItemsCore(q, item.at, depth, Some(Append(acc, item.value)));
      SuffixCore(q, atom.at, atom.value);
      AtomCore(q, at, depth);
    }
  }

  lemma {:induction false} AlternativesCore(q: seq<CodePoint>, at: nat, depth: nat, left: Regex)
    requires at <= |q| && ParseAlternatives(q, at, depth, left).Parsed?
             && Core(q, ParseAlternatives(q, at, depth, left).at, false)
    ensures Core(q, at, false)
    decreases |q| - at, 3
  {
    hide Core;
    if Is(q, at, '|') {
      var right := ParseItems(q, at + 1, depth, None);
      AlternativesCore(q, right.at, depth, Alt(left, right.value));
      ItemsCore(q, at + 1, depth, None);
      PlainCore(q, at);
    }
  }

  lemma {:induction false} ExprCore(q: seq<CodePoint>, at: nat, depth: nat)
    requires at <= |q| && ParseExpr(q, at, depth).Parsed? && Core(q, ParseExpr(q, at, depth).at, false)
    ensures Core(q, at, false)
    decreases |q| - at, 4
  {
    hide Core;
    var items := ParseItems(q, at, depth, None);
    AlternativesCore(q, items.at, depth, items.value);
    ItemsCore(q, at, depth, None);
  }

  /** Whatever this grammar reads lies in the core: it takes nothing outside it for something else. */
  lemma ReadIsCore(q: seq<CodePoint>)
    requires ParseQuery(q).Some?
    ensures InCore(q)
  {
    ExprCore(q, 0, 0);
  }

  // ----- Storage -----

  /** Nodes and ranges that stay allocated, the most that are allocated at once, and work units. */
  datatype Cost = Cost(nodes: nat, peak: nat, ranges: nat, rangePeak: nat, work: nat)

  function CatCost(a: Cost, b: Cost): Cost {
    Cost(a.nodes + b.nodes, Max(a.peak, a.nodes + b.peak),
         a.ranges + b.ranges, Max(a.rangePeak, a.ranges + b.rangePeak), a.work + b.work)
  }

  const NODE_COST := Cost(1, 1, 0, 0, 1)

  /** Copy `i` of a body; copies from `solid` on stand behind a split. */
  function CopyCost(body: Cost, i: nat, solid: nat): Cost {
    if i >= solid then CatCost(body, NODE_COST) else body
  }

  lemma CopyNoCheaper(body: Cost, i: nat, solid: nat)
    ensures NoDearer(body, CopyCost(body, i, solid))
  {
  }

  function CopiesCost(body: Cost, copies: nat, solid: nat): Cost {
    if copies == 0 then Cost(0, 0, 0, 0, 0)
    else CatCost(CopiesCost(body, copies - 1, solid), CopyCost(body, copies - 1, solid))
  }

  lemma FirstCopy(body: Cost, solid: nat)
    ensures CopiesCost(body, 1, solid) == CopyCost(body, 0, solid)
  {
    assert CopiesCost(body, 0, solid) == Cost(0, 0, 0, 0, 0);
  }

  function RepeatCost(body: Cost, least: nat, most: Option<nat>): Cost {
    if most.None? then CopiesCost(body, Max(least, 1), Max(least, 1) - 1)
    else if most.value == 0 then Cost(1, Max(body.peak, 1), 0, body.rangePeak, body.work + 1)
    else CopiesCost(body, most.value, least)
  }

  function CostOf(r: Regex): Cost {
    match r
    case Empty => NODE_COST
    case One(a) => if a.Class? then Cost(1, 1, |a.ranges|, |a.ranges|, 1) else NODE_COST
    case Assert(_) => NODE_COST
    case Cat(a, b) => CatCost(CostOf(a), CostOf(b))
    case Alt(a, b) => CatCost(CatCost(CostOf(a), CostOf(b)), NODE_COST)
    case Repeat(b, least, most) => RepeatCost(CostOf(b), least, most)
  }

  /** The expression and one accepting node fit when this much is already in use. */
  predicate Fits(c: Cost, u: Usage) {
    u.nodes + c.peak <= STATES - 2 && u.ranges + c.rangePeak <= SEARCH_MAX && u.work + c.work <= COMPILE_WORK - 1
  }

  /** What is in use of nodes, ranges and the work allowance. */
  datatype Usage = Usage(nodes: nat, ranges: nat, work: nat)

  /** Storing an expression of this cost leads from one usage to the other. */
  predicate Spends(c: Cost, from: Usage, to: Usage) {
    && to.nodes == from.nodes + c.nodes && to.ranges == from.ranges + c.ranges && to.work == from.work + c.work
    && from.nodes + c.peak <= Max(STATES - 2, to.nodes) && from.ranges + c.rangePeak <= SEARCH_MAX
    && to.work <= COMPILE_WORK
  }

  lemma SpendsBoth(a: Cost, b: Cost, from: Usage, mid: Usage, to: Usage)
    requires Spends(a, from, mid) && Spends(b, mid, to)
    ensures Spends(CatCost(a, b), from, to)
  {
  }

  /** The parse failed, or its result does not fit. */
  predicate Refused(p: Parse<Regex>, u: Usage) {
    p.Fail? || !Fits(CostOf(p.value), u)
  }

  predicate Orderly(c: Cost) {
    c.nodes <= c.peak && c.ranges <= c.rangePeak
  }

  predicate NoDearer(a: Cost, b: Cost) {
    a.peak <= b.peak && a.rangePeak <= b.rangePeak && a.work <= b.work
  }

  lemma OneMore(n: nat, x: nat)
    requires n > 0
    ensures n * x == (n - 1) * x + x
  {
  }

  lemma {:induction false} CopiesOrderly(body: Cost, copies: nat, solid: nat)
    requires Orderly(body)
    ensures Orderly(CopiesCost(body, copies, solid))
    ensures CopiesCost(body, copies, solid).nodes == copies * body.nodes + if copies > solid then copies - solid else 0
    ensures CopiesCost(body, copies, solid).ranges == copies * body.ranges
  {
    if copies != 0 {
      CopiesOrderly(body, copies - 1, solid);
      OneMore(copies, body.nodes);
      OneMore(copies, body.ranges);
    }
  }

  lemma RepeatOrderly(body: Cost, least: nat, most: Option<nat>)
    requires Orderly(body) && body.nodes > 0
    ensures Orderly(RepeatCost(body, least, most)) && RepeatCost(body, least, most).nodes > 0
  {
    var copies := if most.None? then Max(least, 1) else most.value;
    CopiesOrderly(body, copies, if most.None? then copies - 1 else least);
    if copies > 0 {
      OneMore(copies, body.nodes);
    }
  }

  lemma {:induction false} CostOrderly(r: Regex)
    ensures Orderly(CostOf(r)) && CostOf(r).nodes > 0
  {
    match r
    case Cat(a, b) => CostOrderly(a); CostOrderly(b);
    case Alt(a, b) => CostOrderly(a); CostOrderly(b);
    case Repeat(b, least, most) =>
      CostOrderly(b);
      RepeatOrderly(CostOf(b), least, most);
    case _ =>
  }

  lemma {:induction false} CopiesGrow(body: Cost, i: nat, copies: nat, solid: nat)
    requires i <= copies
    ensures NoDearer(CopiesCost(body, i, solid), CopiesCost(body, copies, solid))
    decreases copies
  {
    if i < copies {
      CopiesGrow(body, i, copies - 1, solid);
    }
  }

  lemma CatDearer(a: Regex, b: Regex)
    ensures NoDearer(CostOf(a), CostOf(Cat(a, b)))
  {
  }

  /** Reading more items never makes an expression cheaper. */
  lemma {:induction false} ItemsGrow(q: seq<CodePoint>, at: nat, depth: nat, acc: Regex)
    requires at <= |q| && ParseItems(q, at, depth, Some(acc)).Parsed?
    ensures NoDearer(CostOf(acc), CostOf(ParseItems(q, at, depth, Some(acc)).value))
    decreases |q| - at
  {
    if !ItemsEnd(q, at) {
      var item := ParseItem(q, at, depth);
      CatDearer(acc, item.value);
      ItemsGrow(q, item.at, depth, Cat(acc, item.value));
    }
  }

  lemma AltDearer(left: Regex, right: Regex)
    ensures NoDearer(CostOf(left), CostOf(Alt(left, right)))
  {
    hide CostOf;
    AltCost(left, right);
  }

  lemma {:induction false} AlternativesGrow(q: seq<CodePoint>, at: nat, depth: nat, left: Regex)
    requires at <= |q| && ParseAlternatives(q, at, depth, left).Parsed?
    ensures NoDearer(CostOf(left), CostOf(ParseAlternatives(q, at, depth, left).value))
    decreases |q| - at
  {
    if Is(q, at, '|') {
      var right := ParseItems(q, at + 1, depth, None);
      AltDearer(left, right.value);
      AlternativesGrow(q, right.at, depth, Alt(left, right.value));
    }
  }

  lemma {:induction false} MembersGrow(q: seq<CodePoint>, at: nat, m: Members)
    requires ClassMembers(q, at, m).Parsed?
    ensures |m.ranges| <= |ClassMembers(q, at, m).value.ranges|
    decreases |q| - at
  {
    if at < |q| && !Is(q, at, ']') {
      var next := ClassMember(q, at);
      MembersGrow(q, next.at, m.With(next.value));
    }
  }

  lemma CatRefused(a: Cost, b: Cost, from: Usage, mid: Usage)
    requires Spends(a, from, mid) && !Fits(b, mid)
    ensures !Fits(CatCost(a, b), from)
  {
  }

  /** An item that is refused refuses the alternative it stands in. */
  lemma ItemRefused(q: seq<CodePoint>, at: nat, depth: nat, acc: Option<Regex>, from: Usage, mid: Usage)
    requires at <= |q| && !ItemsEnd(q, at) && Refused(ParseItem(q, at, depth), mid)
    requires if acc.Some? then Spends(CostOf(acc.value), from, mid) else mid == from
    ensures Refused(ParseItems(q, at, depth, acc), from)
  {
    var item := ParseItem(q, at, depth);
    if item.Parsed? {
      if acc.Some? { CatRefused(CostOf(acc.value), CostOf(item.value), from, mid); }
      var next := Append(acc, item.value);
      if ParseItems(q, item.at, depth, Some(next)).Parsed? { ItemsGrow(q, item.at, depth, next); }
    }
  }

  lemma AltCost(left: Regex, right: Regex)
    ensures CostOf(Alt(left, right)) == CatCost(CatCost(CostOf(left), CostOf(right)), NODE_COST)
  {
  }

  /** An alternation that does not fit refuses the expression it stands in. */
  lemma AltRefused(q: seq<CodePoint>, at: nat, depth: nat, left: Regex, right: Regex, from: Usage)
    requires at <= |q| && !Fits(CatCost(CatCost(CostOf(left), CostOf(right)), NODE_COST), from)
    ensures Refused(ParseAlternatives(q, at, depth, Alt(left, right)), from)
  {
    AltCost(left, right);
    hide CostOf;
    if ParseAlternatives(q, at, depth, Alt(left, right)).Parsed? {
      AlternativesGrow(q, at, depth, Alt(left, right));
    }
  }

  /** An alternative that is refused refuses the expression it stands in. */
  lemma AlternativeRefused(q: seq<CodePoint>, at: nat, depth: nat, left: Regex, from: Usage, mid: Usage)
    requires at <= |q| && Is(q, at, '|') && Spends(CostOf(left), from, mid)
             && Refused(ParseItems(q, at + 1, depth, None), mid)
    ensures Refused(ParseAlternatives(q, at, depth, left), from)
  {
    hide CostOf;
    var right := ParseItems(q, at + 1, depth, None);
    if right.Parsed? {
      CatRefused(CostOf(left), CostOf(right.value), from, mid);
      AltRefused(q, right.at, depth, left, right.value, from);
    }
  }

  /** Without room for its split an alternation is refused. */
  lemma ForkRefused(q: seq<CodePoint>, at: nat, depth: nat, left: Regex, right: Regex, from: Usage, mid: Usage,
                    to: Usage)
    requires at <= |q| && Spends(CostOf(left), from, mid) && Spends(CostOf(right), mid, to) && !Fits(NODE_COST, to)
    ensures Refused(ParseAlternatives(q, at, depth, Alt(left, right)), from)
  {
    hide CostOf;
    SpendsBoth(CostOf(left), CostOf(right), from, mid, to);
    CatRefused(CatCost(CostOf(left), CostOf(right)), NODE_COST, from, to);
    AltRefused(q, at, depth, left, right, from);
  }

  function Product(a: nat, b: nat): nat {
    a * b
  }

  /** The cost of a counted repetition, in the terms in which its copies are written out. */
  lemma CountedCost(c: Cost, least: nat, most: Option<nat>, copies: nat, splits: nat)
    requires Orderly(c) && (most.Some? ==> least <= most.value)
    requires copies == (if most.Some? then Max(most.value, 1) else Max(least, 1))
    requires splits == (if most.Some? then most.value - least else 1)
    ensures var whole := RepeatCost(c, least, most);
            && c.nodes + Product(copies - 1, c.nodes) + splits <= whole.peak
            && c.ranges + Product(copies - 1, c.ranges) <= whole.rangePeak
            && (most == Some(0) || whole == CopiesCost(c, copies, if most.Some? then least else copies - 1))
  {
    hide CopiesCost;
    OneMore(copies, c.nodes);
    OneMore(copies, c.ranges);
    CopiesOrderly(c, copies, if most.Some? then least else copies - 1);
  }

  lemma CostOfRepeat(r: Regex, least: nat, most: Option<nat>)
    ensures CostOf(Repeat(r, least, most)) == RepeatCost(CostOf(r), least, most)
    ensures Orderly(CostOf(r)) && CostOf(r).nodes > 0
  {
    CostOrderly(r);
  }
}
