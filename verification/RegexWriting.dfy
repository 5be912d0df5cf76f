/** How expressions are written: every way to write one, the text it makes and what it means. The reader of queries is
    held against this: it takes exactly these texts, for exactly these meanings. */
module RegexWriting {
  import opened Common
  import opened Rows
  import opened RegexSyntax
  import opened RegexGrammar

  // ----- Forms and their text -----

  /** One character: as it is, behind a backslash, or by the name of a control character. */
  datatype Sign = Bare(cp: CodePoint) | Quoted(cp: CodePoint) | Control(cp: CodePoint)

  /** One member of a bracket: a character, a range, or a shorthand. */
  datatype MemberForm = Single(sign: Sign) | FromTo(low: Sign, high: Sign) | KindOf(shorthand: Shorthand)

  datatype MemberForms = NoMember | AndMember(before: MemberForms, last: MemberForm)

  /** The repetition behind an atom; counts are written in decimal, a lazy one has a question mark at its end. */
  datatype Suffix =
    | Once
    | Star(lazy: bool)
    | Plus(lazy: bool)
    | Perhaps(lazy: bool)
    | Exactly(count: seq<nat>, lazy: bool)
    | AtLeast(least: seq<nat>, lazy: bool)
    | Between(least: seq<nat>, most: seq<nat>, lazy: bool)

  datatype Form =
    | Grouped(capturing: bool, body: Expr)
    | SetOf(negated: bool, members: MemberForms)
    | AnyOne
    | Mark(anchor: Anchor)
    | Kind(shorthand: Shorthand)
    | Letter(sign: Sign)

  /** Atoms with their repetitions, side by side. */
  datatype Items = Nothing | Then(before: Items, form: Form, suffix: Suffix)

  /** Alternatives between bars. */
  datatype Expr = Branch(items: Items) | Or(left: Expr, right: Items)

  function ControlName(cp: CodePoint): CodePoint {
    if cp == 7 then 'a' as int
    else if cp == 9 then 't' as int
    else if cp == 10 then 'n' as int
    else if cp == 11 then 'v' as int
    else if cp == 12 then 'f' as int
    else 'r' as int
  }

  function KindName(s: Shorthand): CodePoint {
    match s
    case Digit => 'd' as int
    case Space => 's' as int
    case Word => 'w' as int
    case NotDigit => 'D' as int
    case NotSpace => 'S' as int
    case NotWord => 'W' as int
  }

  function SignText(s: Sign): (t: seq<CodePoint>)
    ensures |t| > 0
  {
    match s
    case Bare(cp) => [cp]
    case Quoted(cp) => ['\\' as int, cp]
    case Control(cp) => ['\\' as int, ControlName(cp)]
  }

  function MemberText(m: MemberForm): (t: seq<CodePoint>)
    ensures |t| > 0
  {
    match m
    case Single(sign) => SignText(sign)
    case FromTo(low, high) => SignText(low) + ['-' as int] + SignText(high)
    case KindOf(shorthand) => ['\\' as int, KindName(shorthand)]
  }

  function MembersText(ms: MemberForms): seq<CodePoint> {
    match ms
    case NoMember => []
    case AndMember(before, last) => MembersText(before) + MemberText(last)
  }

  function MarkText(a: Anchor): (t: seq<CodePoint>)
    ensures |t| > 0
  {
    match a
    case LineStart => ['^' as int]
    case LineEnd => ['$' as int]
    case TextStart => ['\\' as int, 'A' as int]
    case TextEnd => ['\\' as int, 'z' as int]
    case Boundary => ['\\' as int, 'b' as int]
    case NotBoundary => ['\\' as int, 'B' as int]
  }

  function DigitsText(digits: seq<nat>): (t: seq<CodePoint>)
    ensures |t| == |digits|
  {
    seq(|digits|, i requires 0 <= i < |digits| => '0' as int + digits[i])
  }

  function Lazily(lazy: bool): seq<CodePoint> {
    if lazy then ['?' as int] else []
  }

  function SuffixText(s: Suffix): seq<CodePoint> {
    match s
    case Once => []
    case Star(lazy) => ['*' as int] + Lazily(lazy)
    case Plus(lazy) => ['+' as int] + Lazily(lazy)
    case Perhaps(lazy) => ['?' as int] + Lazily(lazy)
    case Exactly(count, lazy) => ['{' as int] + (DigitsText(count) + (['}' as int] + Lazily(lazy)))
    case AtLeast(least, lazy) => ['{' as int] + (DigitsText(least) + ([',' as int] + (['}' as int] + Lazily(lazy))))
    case Between(least, most, lazy) =>
      ['{' as int] + (DigitsText(least) + ([',' as int] + (DigitsText(most) + (['}' as int] + Lazily(lazy)))))
  }

  function SetText(negated: bool, members: MemberForms): seq<CodePoint> {
    (if negated then ['^' as int] else []) + (MembersText(members) + [']' as int])
  }

  function FormText(f: Form): (t: seq<CodePoint>)
    ensures |t| > 0
  {
    match f
    case Grouped(capturing, body) =>
      (if capturing then ['(' as int] else ['(' as int, '?' as int, ':' as int]) + (Text(body) + [')' as int])
    case SetOf(negated, members) => ['[' as int] + SetText(negated, members)
    case AnyOne => ['.' as int]
    case Mark(anchor) => MarkText(anchor)
    case Kind(shorthand) => ['\\' as int, KindName(shorthand)]
    case Letter(sign) => SignText(sign)
  }

  function ItemsText(items: Items): seq<CodePoint> {
    match items
    case Nothing => []
    case Then(before, form, suffix) => ItemsText(before) + (FormText(form) + SuffixText(suffix))
  }

  function Text(e: Expr): seq<CodePoint> {
    match e
    case Branch(items) => ItemsText(items)
    case Or(left, right) => Text(left) + (['|' as int] + ItemsText(right))
  }

  // ----- Which forms can be read back -----

  /** The characters that mean something else outside brackets. */
  predicate Meta(cp: CodePoint) {
    cp in {'(' as int, ')' as int, '[' as int, ']' as int, '{' as int, '}' as int, '*' as int, '+' as int, '?' as int,
           '.' as int, '^' as int, '$' as int, '|' as int, '\\' as int}
  }

  predicate SignFits(s: Sign) {
    match s
    case Bare(cp) => true
    case Quoted(cp) => !IsAlphanumeric(cp)
    case Control(cp) => cp in {7, 9, 10, 11, 12, 13}
  }

  predicate InSet(s: Sign) {
    SignFits(s) && (s.Bare? ==> s.cp != '\\' as int && s.cp != ']' as int)
  }

  /** A dash that is not the last of its bracket. */
  predicate Dash(rest: seq<CodePoint>) {
    |rest| > 0 && rest[0] == '-' as int && !(|rest| > 1 && rest[1] == ']' as int)
  }

  /** The member can stand before `rest`: behind one that is no range, a dash stands for itself only at the end. */
  predicate MemberFits(m: MemberForm, rest: seq<CodePoint>) {
    match m
    case Single(sign) => InSet(sign) && !Dash(rest)
    case FromTo(low, high) => InSet(low) && InSet(high) && low.cp <= high.cp
    case KindOf(_) => !Dash(rest)
  }

  predicate MembersFit(ms: MemberForms, rest: seq<CodePoint>) {
    match ms
    case NoMember => true
    case AndMember(before, last) => MembersFit(before, MemberText(last) + rest) && MemberFits(last, rest)
  }

  /** The bracket has members, and no set algebra or named set between its own brackets. */
  predicate SetFits(negated: bool, members: MemberForms) {
    && members.AndMember? && MembersFit(members, [']' as int]) && !Intricate(SetText(negated, members), 0)
    && (!negated ==> MembersText(members) != [] && MembersText(members)[0] != '^' as int)
  }

  function Decimal(digits: seq<nat>): nat {
    if digits == [] then 0 else Decimal(digits[..|digits| - 1]) * 10 + digits[|digits| - 1]
  }

  predicate CountFits(digits: seq<nat>) {
    digits != [] && (forall d <- digits :: d < 10) && Decimal(digits) <= SEARCH_MAX
  }

  predicate SuffixFits(s: Suffix) {
    match s
    case Exactly(count, _) => CountFits(count)
    case AtLeast(least, _) => CountFits(least)
    case Between(least, most, _) => CountFits(least) && CountFits(most) && Decimal(least) <= Decimal(most)
    case _ => true
  }

  predicate FormFits(f: Form, depth: nat) {
    match f
    case Grouped(_, body) => depth < MAX_DEPTH && Fit(body, depth + 1)
    case SetOf(negated, members) => SetFits(negated, members)
    case Letter(sign) => SignFits(sign) && (sign.Bare? ==> !Meta(sign.cp))
    case _ => true
  }

  predicate ItemsFit(items: Items, depth: nat) {
    match items
    case Nothing => true
    case Then(before, form, suffix) => ItemsFit(before, depth) && FormFits(form, depth) && SuffixFits(suffix)
  }

  /** Every part can be read back, and groups are not nested deeper than is allowed. */
  predicate Fit(e: Expr, depth: nat) {
    match e
    case Branch(items) => ItemsFit(items, depth)
    case Or(left, right) => Fit(left, depth) && ItemsFit(right, depth)
  }

  // ----- What they mean -----

  function Kinds(ms: MemberForms): set<Shorthand> {
    match ms
    case NoMember => {}
    case AndMember(before, last) => Kinds(before) + if last.KindOf? then {last.shorthand} else {}
  }

  function Ranges(ms: MemberForms): seq<Range> {
    match ms
    case NoMember => []
    case AndMember(before, last) =>
      Ranges(before) + match last
                       case Single(sign) => [Range(sign.cp, sign.cp)]
                       case FromTo(low, high) => [Range(low.cp, high.cp)]
                       case KindOf(_) => []
  }

  function Repeated(s: Suffix, r: Regex): Regex {
    match s
    case Once => r
    case Star(_) => Repeat(r, 0, None)
    case Plus(_) => Repeat(r, 1, None)
    case Perhaps(_) => Repeat(r, 0, Some(1))
    case Exactly(count, _) => Repeat(r, Decimal(count), Some(Decimal(count)))
    case AtLeast(least, _) => Repeat(r, Decimal(least), None)
    case Between(least, most, _) => Repeat(r, Decimal(least), Some(Decimal(most)))
  }

  function FormMeaning(f: Form): Regex {
    match f
    case Grouped(_, body) => Meaning(body)
    case SetOf(negated, members) => One(Class(negated, Kinds(members), Ranges(members)))
    case AnyOne => One(Any)
    case Mark(anchor) => Assert(anchor)
    case Kind(shorthand) => One(Class(false, {shorthand}, []))
    case Letter(sign) => One(Char(sign.cp))
  }

  function ItemsMeaning(items: Items): Regex {
    match items
    case Nothing => Empty
    case Then(Nothing, form, suffix) => Repeated(suffix, FormMeaning(form))
    case Then(before, form, suffix) => Cat(ItemsMeaning(before), Repeated(suffix, FormMeaning(form)))
  }

  function Meaning(e: Expr): Regex {
    match e
    case Branch(items) => ItemsMeaning(items)
    case Or(left, right) => Alt(Meaning(left), ItemsMeaning(right))
  }

  /** The text `q` is a way to write the expression `r`. */
  ghost predicate Writes(q: seq<CodePoint>, r: Regex) {
    exists e: Expr :: Fit(e, 0) && Text(e) == q && Meaning(e) == r
  }

  // ----- Texts at their places -----

  predicate Has(q: seq<CodePoint>, at: nat, t: seq<CodePoint>) {
    at + |t| <= |q| && forall i {:trigger t[i]} | 0 <= i < |t| :: q[at + i] == t[i]
  }

  lemma HasBoth(q: seq<CodePoint>, at: nat, s: seq<CodePoint>, t: seq<CodePoint>)
    ensures Has(q, at, s + t) <==> Has(q, at, s) && Has(q, at + |s|, t)
  {
    var both := s + t;
    if Has(q, at, both) {
      forall i {:trigger s[i]} | 0 <= i < |s| ensures q[at + i] == s[i] { assert both[i] == s[i]; }
      forall i {:trigger t[i]} | 0 <= i < |t| ensures q[at + |s| + i] == t[i] { assert both[|s| + i] == t[i]; }
    }
    if Has(q, at, s) && Has(q, at + |s|, t) {
      forall i {:trigger both[i]} | 0 <= i < |both| ensures q[at + i] == both[i] {
        if i >= |s| { assert both[i] == t[i - |s|]; }
      }
    }
  }

  lemma HasAll(q: seq<CodePoint>)
    ensures Has(q, 0, q)
  {
  }

  lemma HasWhole(q: seq<CodePoint>, t: seq<CodePoint>)
    requires Has(q, 0, t) && |t| == |q|
    ensures q == t
  {
  }
}
