/** Links in the text: whether a cell belongs to one, and the runs of cells that are drawn as links. */
module Urls {
  import opened Common
  import opened Rows

  const URL_MAX: nat := 1023

  /** The size of the buffers a token is read into. */
  const CAPACITY: nat := 1024

  /** Cell widths, encoding and the targets of explicit links. */
  datatype Tongue = Tongue(wide: CodePoint -> bool, encode: CodePoint -> seq<Byte>, target: nat -> seq<Byte>)
  {
    /** The encoding of a codepoint, if it has one, has at most one ASCII byte, and that of a wide one is no single
        byte. */
    ghost predicate Sane() {
      && !wide(WIDE_CONT) && (forall cp: CodePoint :: Ascii(encode(cp)) <= 1)
      && (forall cp: CodePoint | wide(cp) :: |encode(cp)| != 1)
    }
  }

  /** How many of the bytes are ASCII. */
  function Ascii(url: seq<Byte>): nat {
    if url == [] then 0 else Ascii(url[..|url| - 1]) + if url[|url| - 1] < 128 then 1 else 0
  }

  predicate UrlCharacter(cp: CodePoint) {
    cp > 32 && cp != 127 && cp != 34 && cp != 39 && cp != 60 && cp != 62 && cp != 96
  }

  // ----- Judging the bytes of a token -----

  function Lower(b: Byte): Byte {
    if 65 <= b <= 90 then b + 32 else b
  }

  predicate Begins(url: seq<Byte>, scheme: seq<Byte>) {
    |scheme| < |url| && forall k | 0 <= k < |scheme| :: Lower(url[k]) == scheme[k]
  }

  const HTTPS: seq<Byte> := [104, 116, 116, 112, 115, 58, 47, 47]
  const HTTP: seq<Byte> := [104, 116, 116, 112, 58, 47, 47]
  const FTP: seq<Byte> := [102, 116, 112, 58, 47, 47]
  const MAILTO: seq<Byte> := [109, 97, 105, 108, 116, 111, 58]

  predicate HasScheme(url: seq<Byte>) {
    Begins(url, HTTPS) || Begins(url, HTTP) || Begins(url, FTP) || Begins(url, MAILTO)
  }

  predicate OpensBracket(b: Byte) {
    b == 40 || b == 91 || b == 123
  }

  /** How many opening brackets lead. */
  function Lead(url: seq<Byte>): (n: nat)
    ensures n <= |url|
  {
    if url != [] && OpensBracket(url[0]) then 1 + Lead(url[1..]) else 0
  }

  function Opener(b: Byte): Byte {
    if b == 41 then 40 else if b == 93 then 91 else if b == 125 then 123 else 0
  }

  /** How many more `a` than `b` there are. */
  function Balance(url: seq<Byte>, a: Byte, b: Byte): int {
    if url == [] then 0
    else
      var last := url[|url| - 1];
      Balance(url[..|url| - 1], a, b) + (if last == a then 1 else 0) - (if last == b then 1 else 0)
  }

  /** The length without trailing punctuation and closing brackets that were never opened. */
  function Trim(url: seq<Byte>): (n: nat)
    ensures n <= |url|
  {
    if url == [] then 0
    else
      var last := url[|url| - 1];
      if last == 46 || last == 44 || last == 59 || last == 33 then Trim(url[..|url| - 1])
      else if Opener(last) != 0 && Balance(url, Opener(last), last) < 0 then Trim(url[..|url| - 1])
      else |url|
  }

  // ----- A logical line as one sequence -----

  predicate SoftOk(row: Row) {
    row.Hard() || (|row.cells| == row.wrapColumns && row.wrapPadding < row.wrapColumns)
  }

  predicate AllSoftOk(rows: seq<Row>) {
    forall row <- rows :: SoftOk(row)
  }

  /** The columns of a row that hold text. */
  function Limit(row: Row): (n: nat)
    requires SoftOk(row)
    ensures n <= |row.cells| && (!row.Hard() ==> n > 0)
  {
    if row.Hard() then |row.cells| else row.wrapColumns - row.wrapPadding
  }

  /** A cell and the column it stands in. */
  datatype Item = Item(cell: Cell, column: nat)

  function Items(row: Row): (s: seq<Item>)
    requires SoftOk(row)
    ensures |s| == Limit(row) && forall c | 0 <= c < |s| :: s[c] == Item(row.cells[c], c)
  {
    seq(Limit(row), c requires 0 <= c < Limit(row) => Item(row.cells[c], c))
  }

  function After(rows: seq<Row>, r: nat): seq<Item>
    requires r < |rows| && AllSoftOk(rows)
    decreases |rows| - r
  {
    Items(rows[r]) + if !rows[r].Hard() && r + 1 < |rows| then After(rows, r + 1) else []
  }

  function Before(rows: seq<Row>, r: nat): seq<Item>
    requires r < |rows| && AllSoftOk(rows)
  {
    if r > 0 && !rows[r - 1].Hard() then Before(rows, r - 1) + Items(rows[r - 1]) else []
  }

  /** The cells of the logical line that row `r` belongs to. */
  function Flat(rows: seq<Row>, r: nat): seq<Item>
    requires r < |rows| && AllSoftOk(rows)
  {
    Before(rows, r) + After(rows, r)
  }

  /** Where column `c` of row `r` is in its logical line. */
  function Place(rows: seq<Row>, r: nat, c: nat): nat
    requires r < |rows| && AllSoftOk(rows)
  {
    |Before(rows, r)| + c
  }

  lemma FlatAt(rows: seq<Row>, r: nat, c: nat)
    requires r < |rows| && AllSoftOk(rows) && c < Limit(rows[r])
    ensures Place(rows, r, c) < |Flat(rows, r)| && Flat(rows, r)[Place(rows, r, c)] == Item(rows[r].cells[c], c)
  {
  }

  lemma FlatNext(rows: seq<Row>, r: nat)
    requires r + 1 < |rows| && AllSoftOk(rows) && !rows[r].Hard()
    ensures Flat(rows, r + 1) == Flat(rows, r) && Place(rows, r + 1, 0) == Place(rows, r, Limit(rows[r]))
  {
  }

  /** Row `a` goes on, row after row, to row `b`. */
  predicate GoesOn(rows: seq<Row>, a: nat, b: nat) {
    a <= b < |rows| && forall m | a <= m < b :: !rows[m].Hard()
  }

  lemma FlatEnds(rows: seq<Row>, r: nat)
    requires r < |rows| && AllSoftOk(rows)
    ensures Place(rows, r, Limit(rows[r])) <= |Flat(rows, r)|
    ensures rows[r].Hard() || r + 1 == |rows| ==> Place(rows, r, Limit(rows[r])) == |Flat(rows, r)|
    ensures r == 0 || rows[r - 1].Hard() ==> Place(rows, r, 0) == 0
  {
  }

  // ----- Tokens -----

  /** A cell that belongs to a token: visible, and not labelled by an explicit link. */
  predicate Token(it: Item) {
    UrlCharacter(it.cell.cp) && it.cell.link == 0
  }

  function Start(f: seq<Item>, i: nat): (s: nat)
    requires i <= |f|
    ensures s <= i && (forall k | s <= k < i :: Token(f[k])) && (s > 0 ==> !Token(f[s - 1]))
  {
    if i > 0 && Token(f[i - 1]) then Start(f, i - 1) else i
  }

  function End(f: seq<Item>, i: nat): (e: nat)
    requires i <= |f|
    ensures i <= e <= |f| && (forall k | i <= k < e :: Token(f[k])) && (e < |f| ==> !Token(f[e]))
    decreases |f| - i
  {
    if i < |f| && Token(f[i]) then End(f, i + 1) else i
  }

  function CellBytes(t: Tongue, it: Item): seq<Byte> {
    if it.cell.cp == WIDE_CONT then [] else t.encode(it.cell.cp)
  }

  function BytesOf(t: Tongue, f: seq<Item>, s: nat, e: nat): seq<Byte>
    requires s <= e <= |f|
    decreases e
  {
    if e == s then [] else BytesOf(t, f, s, e - 1) + CellBytes(t, f[e - 1])
  }

  /** A second half of a wide glyph that does not follow its first half in its row. */
  predicate Orphan(t: Tongue, f: seq<Item>, j: nat)
    requires j < |f|
  {
    f[j].cell.cp == WIDE_CONT && (f[j].column == 0 || j == 0 || !t.wide(f[j - 1].cell.cp))
  }

  /** A cell that makes its whole token unreadable: one without an encoding, or half of a glyph. */
  predicate Broken(t: Tongue, f: seq<Item>, j: nat)
    requires j < |f|
  {
    Orphan(t, f, j) || (f[j].cell.cp != WIDE_CONT && t.encode(f[j].cell.cp) == [])
  }

  /** The token from `s` to `e` has an encoding that fits. */
  predicate Readable(t: Tongue, f: seq<Item>, s: nat, e: nat, capacity: nat)
    requires s <= e <= |f|
  {
    && (forall j | s <= j < e :: !Broken(t, f, j))
    && |BytesOf(t, f, s, e)| <= URL_MAX && |BytesOf(t, f, s, e)| < capacity
  }

  /** Where a link begins and ends, in cells from the one that was looked at. */
  datatype Range = Range(first: int, last: int)

  /** The link that the token at `i` holds, without leading brackets and trailing punctuation. */
  function ScanAt(t: Tongue, f: seq<Item>, i: nat, capacity: nat): Option<Range>
    requires i < |f|
  {
    if !Token(f[i]) then None
    else
      var s, e := Start(f, i), End(f, i);
      if !Readable(t, f, s, e, capacity) then None
      else
        var bytes := BytesOf(t, f, s, e);
        var skip := Lead(bytes);
        var url := bytes[skip..];
        var n := Trim(url);
        if HasScheme(url[..n]) then Some(Range(skip - (i - s), e - s - (|url| - n) - (i - s))) else None
  }

  /** Whether the cell belongs to a link. */
  predicate At(t: Tongue, rows: seq<Row>, r: nat, c: nat, capacity: nat)
    requires r < |rows| && AllSoftOk(rows) && c < |rows[r].cells|
  {
    if c >= Limit(rows[r]) then false
    else if rows[r].cells[c].link != 0 then
      |t.target(rows[r].cells[c].link)| < capacity && HasScheme(t.target(rows[r].cells[c].link))
    else
      var i := Place(rows, r, c);
      FlatAt(rows, r, c);
      var range := ScanAt(t, Flat(rows, r), i, capacity);
      range.Some? && range.value.first <= 0 < range.value.last
  }

  /** Cells of one token have one start and one end. */
  lemma {:induction false} SameToken(f: seq<Item>, i: nat, j: nat)
    requires i <= j < |f| && forall k | i <= k <= j :: Token(f[k])
    ensures Start(f, j) == Start(f, i) && End(f, j) == End(f, i)
    decreases j
  {
    if i < j { SameToken(f, i, j - 1); }
  }

  /** Looked at from another cell of the token, the link is the same. */
  lemma ScanShifts(t: Tongue, f: seq<Item>, i: nat, j: nat, capacity: nat)
    requires i <= j < |f| && forall k | i <= k <= j :: Token(f[k])
    ensures var a, b := ScanAt(t, f, i, capacity), ScanAt(t, f, j, capacity);
            if a == None then b == None else b == Some(Range(a.value.first - (j - i), a.value.last - (j - i)))
  {
    SameToken(f, i, j);
    hide Readable, BytesOf, Trim, Lead, HasScheme;
  }

  /** A token takes hardly more cells than bytes: too many cells are too many bytes. */
  lemma {:induction false} CellsAndBytes(t: Tongue, f: seq<Item>, s: nat, e: nat)
    requires t.Sane() && s <= e <= |f| && (forall j | s <= j < e :: Token(f[j]) && !Broken(t, f, j))
    ensures e - s <= |BytesOf(t, f, s, e)| + 1
    ensures e > s && t.wide(f[e - 1].cell.cp) ==> e - s <= |BytesOf(t, f, s, e)|
    decreases e
  {
    if e > s { CellsAndBytes(t, f, s, e - 1); }
  }

  lemma {:induction false} StartIs(f: seq<Item>, i: nat, s: nat)
    requires s <= i <= |f| && (forall k | s <= k < i :: Token(f[k])) && (s > 0 ==> !Token(f[s - 1]))
    ensures Start(f, i) == s
    decreases i
  {
    if s < i { StartIs(f, i - 1, s); }
  }

  lemma {:induction false} EndIs(f: seq<Item>, i: nat, e: nat)
    requires i <= e <= |f| && (forall k | i <= k < e :: Token(f[k])) && (e < |f| ==> !Token(f[e]))
    ensures End(f, i) == e
    decreases e - i
  {
    if i < e { EndIs(f, i + 1, e); }
  }

  // ----- What an address covers -----

  /** Quotes, angle brackets, white space and controls, none of which an address holds. */
  predicate Separates(cp: CodePoint) {
    cp <= ' ' as nat || cp == 0x7f || cp in ['"' as nat, '\'' as nat, '<' as nat, '>' as nat, '`' as nat]
  }

  /** The cells from `s` to `e` stand alone between separators or explicit links. */
  predicate Alone(f: seq<Item>, s: nat, e: nat) {
    && s < e <= |f| && (forall k | s <= k < e :: f[k].cell.link == 0 && !Separates(f[k].cell.cp))
    && (s > 0 ==> f[s - 1].cell.link != 0 || Separates(f[s - 1].cell.cp))
    && (e < |f| ==> f[e].cell.link != 0 || Separates(f[e].cell.cp))
  }

  lemma AloneIsToken(f: seq<Item>, s: nat, e: nat, i: nat)
    requires Alone(f, s, e) && s <= i < e
    ensures Token(f[i]) && Start(f, i) == s && End(f, i) == e
  {
    assert forall k | s <= k < e :: Token(f[k]);
    StartIs(f, i, s);
    EndIs(f, i, e);
  }

  /** The closing partner of an opening bracket. */
  predicate Brackets(open: Byte, close: Byte) {
    (open, close) in [('(' as Byte, ')' as Byte), ('[' as Byte, ']' as Byte), ('{' as Byte, '}' as Byte)]
  }

  /** An address in itself: it has a scheme, and does not end in punctuation or a closing bracket. */
  predicate Plain(url: seq<Byte>) {
    && HasScheme(url)
    && url[|url| - 1] !in ['.' as Byte, ',' as Byte, ';' as Byte, '!' as Byte, ')' as Byte, ']' as Byte, '}' as Byte]
  }

  /** The bytes begin with a text, whatever the case of its letters, and go on behind it. */
  predicate Spells(url: seq<Byte>, text: string) {
    |text| < |url| && forall k | 0 <= k < |text| :: Lower(url[k]) == text[k] as nat
  }

  /** The schemes that make an address. */
  lemma SchemesAre(url: seq<Byte>)
    ensures HasScheme(url) <==>
            Spells(url, "https://") || Spells(url, "http://") || Spells(url, "ftp://") || Spells(url, "mailto:")
  {
    SchemeIs(url, HTTPS, "https://");
    SchemeIs(url, HTTP, "http://");
    SchemeIs(url, FTP, "ftp://");
    SchemeIs(url, MAILTO, "mailto:");
  }

  lemma SchemeIs(url: seq<Byte>, scheme: seq<Byte>, text: string)
    requires |scheme| == |text| && forall k | 0 <= k < |text| :: scheme[k] == text[k] as nat
    ensures Begins(url, scheme) <==> Spells(url, text)
  {
  }

  lemma SchemeLetter(url: seq<Byte>, scheme: seq<Byte>)
    requires Begins(url, scheme) && scheme != [] && 97 <= scheme[0] <= 122
    ensures url != [] && !OpensBracket(url[0])
  {
    assert Lower(url[0]) == scheme[0];
  }

  lemma SchemeFirst(url: seq<Byte>)
    requires HasScheme(url)
    ensures url != [] && !OpensBracket(url[0])
  {
    hide Begins;
    if Begins(url, HTTPS) {
      SchemeLetter(url, HTTPS);
    } else if Begins(url, HTTP) {
      SchemeLetter(url, HTTP);
    } else if Begins(url, FTP) {
      SchemeLetter(url, FTP);
    } else {
      SchemeLetter(url, MAILTO);
    }
  }

  lemma PlainWhole(url: seq<Byte>)
    requires Plain(url)
    ensures url != [] && !OpensBracket(url[0]) && Lead(url) == 0 && Trim(url) == |url|
  {
    hide HasScheme, Balance;
    SchemeFirst(url);
    assert Opener(url[|url| - 1]) == 0;
  }

  /** A plain address that stands alone is covered from its first cell to its last. */
  lemma PlainCovered(t: Tongue, f: seq<Item>, s: nat, e: nat, i: nat, capacity: nat)
    requires Alone(f, s, e) && s <= i < e && Readable(t, f, s, e, capacity) && Plain(BytesOf(t, f, s, e))
    ensures var a: int, b: int := s - i, e - i; ScanAt(t, f, i, capacity) == Some(Range(a, b))
  {
    hide Lead, Trim, HasScheme, Balance, Start, End, Token, Separates, Readable, CellBytes;
    var url := BytesOf(t, f, s, e);
    AloneIsToken(f, s, e, i);
    PlainWhole(url);
    assert url[0..] == url && url[..|url|] == url;
  }

  lemma BracketsTrimmed(open: Byte, url: seq<Byte>, close: Byte)
    requires Brackets(open, close) && Plain(url) && Balance(url, open, close) == 0
    ensures Lead([open] + url + [close]) == 1 && Trim(url + [close]) == |url|
  {
    PlainWhole(url);
    hide HasScheme;
    assert ([open] + url + [close])[1..] == url + [close];
    assert (url + [close])[..|url|] == url;
  }

  /** Of a bracketed address the cells within the brackets are covered, and the brackets are not. */
  lemma BracketedCovered(t: Tongue, f: seq<Item>, s: nat, e: nat, i: nat, capacity: nat, open: Byte, close: Byte)
    requires Alone(f, s, e) && s <= i < e && e - s >= 2 && Readable(t, f, s, e, capacity)
    requires Brackets(open, close) && CellBytes(t, f[s]) == [open] && CellBytes(t, f[e - 1]) == [close]
    requires var url := BytesOf(t, f, s + 1, e - 1); Plain(url) && Balance(url, open, close) == 0
    ensures var a: int, b: int := s + 1 - i, e - 1 - i; ScanAt(t, f, i, capacity) == Some(Range(a, b))
  {
    hide Lead, Trim, HasScheme, Balance, Start, End, Token, Separates, Readable, CellBytes, Brackets;
    var url := BytesOf(t, f, s + 1, e - 1);
    AloneIsToken(f, s, e, i);
    BytesFrom(t, f, s, e - 1);
    BracketsTrimmed(open, url, close);
    var bytes := BytesOf(t, f, s, e);
    assert bytes == [open] + url + [close];
    assert bytes[1..] == url + [close] && (url + [close])[..|url|] == url;
  }

  /** Punctuation behind a plain address is not covered. */
  lemma PunctuationSpared(t: Tongue, f: seq<Item>, s: nat, e: nat, i: nat, capacity: nat, mark: Byte)
    requires Alone(f, s, e) && s <= i < e && e - s >= 2 && Readable(t, f, s, e, capacity)
    requires CellBytes(t, f[e - 1]) == [mark] && mark in ['.' as Byte, ',' as Byte, ';' as Byte, '!' as Byte]
    requires Plain(BytesOf(t, f, s, e - 1))
    ensures var a: int, b: int := s - i, e - 1 - i; ScanAt(t, f, i, capacity) == Some(Range(a, b))
  {
    hide HasScheme, Balance, Start, End, Token, Separates, Readable, CellBytes;
    var url := BytesOf(t, f, s, e - 1);
    AloneIsToken(f, s, e, i);
    PlainWhole(url);
    var bytes := BytesOf(t, f, s, e);
    assert bytes == url + [mark];
    assert bytes[0..] == bytes && bytes[..|url|] == url && bytes[0] == url[0];
  }

  lemma {:induction false} BytesFrom(t: Tongue, f: seq<Item>, s: nat, e: nat)
    requires s < e <= |f|
    ensures BytesOf(t, f, s, e) == CellBytes(t, f[s]) + BytesOf(t, f, s + 1, e)
    decreases e
  {
    hide CellBytes;
    if e - 1 > s {
      BytesFrom(t, f, s, e - 1);
      ConcatAssociates(CellBytes(t, f[s]), BytesOf(t, f, s + 1, e - 1), CellBytes(t, f[e - 1]));
    } else {
      assert BytesOf(t, f, s, s) == [] && BytesOf(t, f, s + 1, e) == [];
    }
  }

  // ----- Scanning -----

  /** Go back to where the token begins; a token with too many cells is given up. */
  method FindStart(t: Tongue, rows: seq<Row>, r: nat, c: nat) returns (ok: bool, k: nat, col: nat)
    requires r < |rows| && AllSoftOk(rows) && c < Limit(rows[r])
    ensures GoesOn(rows, k, r) && col < Limit(rows[k]) && Flat(rows, k) == Flat(rows, r)
            && Place(rows, k, col) <= Place(rows, r, c) < |Flat(rows, r)|
    ensures ok ==> Place(rows, k, col) == Start(Flat(rows, r), Place(rows, r, c))
    ensures !ok ==> Place(rows, r, c) > URL_MAX
                    && forall j | Place(rows, r, c) - URL_MAX - 1 <= j < Place(rows, r, c) :: Token(Flat(rows, r)[j])
  {
    hide Flat, Place, Token;
    ghost var f, i := Flat(rows, r), Place(rows, r, c);
    FlatAt(rows, r, c);
    k, col := r, c;
    var count := 0;
    while true
      invariant GoesOn(rows, k, r) && 0 <= col < Limit(rows[k]) && Flat(rows, k) == f && 0 <= count <= URL_MAX
                && Place(rows, k, col) == i - count
      invariant forall j | i - count <= j < i :: 0 <= j < |f| && Token(f[j])
      decreases URL_MAX - count
    {
      var pk, x := k, col;
      if x > 0 {
        x := x - 1;
        PlaceBack(rows, k, col);
      } else if k > 0 && !rows[k - 1].Hard() {
        pk := k - 1;
        FlatNext(rows, pk);
        PlaceBack(rows, pk, Limit(rows[pk]));
        x := Limit(rows[pk]) - 1;
      } else {
        FlatEnds(rows, k);
        StartIs(f, i, i - count);
        return true, k, col;
      }
      FlatAt(rows, pk, x);
      if !UrlCharacter(rows[pk].cells[x].cp) || rows[pk].cells[x].link != 0 {
        NotToken(rows[pk].cells[x], x);
        StartIs(f, i, i - count);
        return true, k, col;
      }
      IsToken(rows[pk].cells[x], x);
      count := count + 1;
      if count > URL_MAX {
        assert Place(rows, pk, x) == i - count;
        return false, k, col;
      }
      k, col := pk, x;
    }
  }

  lemma PlaceBack(rows: seq<Row>, k: nat, col: nat)
    requires k < |rows| && AllSoftOk(rows) && col > 0
    ensures Place(rows, k, col - 1) == Place(rows, k, col) - 1
  {
  }

  lemma NotToken(c: Cell, x: nat)
    requires !UrlCharacter(c.cp) || c.link != 0
    ensures !Token(Item(c, x))
  {
  }

  lemma IsToken(c: Cell, x: nat)
    requires UrlCharacter(c.cp) && c.link == 0
    ensures Token(Item(c, x))
  {
  }

  /** What has been read of a token up to position `p`. */
  ghost predicate ReadSofar(t: Tongue, f: seq<Item>, s: nat, p: nat, url: seq<Byte>, capacity: nat) {
    && s <= p <= |f| && (forall j | s <= j < p :: Token(f[j]) && !Broken(t, f, j))
    && url == BytesOf(t, f, s, p) && |url| <= URL_MAX && |url| < capacity
  }

  lemma {:induction false} BytesGrow(t: Tongue, f: seq<Item>, s: nat, p: nat, e: nat)
    requires s <= p <= e <= |f|
    ensures |BytesOf(t, f, s, p)| <= |BytesOf(t, f, s, e)|
    decreases e
  {
    if p < e { BytesGrow(t, f, s, p, e - 1); }
  }

  /** Position `p` holds a cell that makes the whole token unreadable. */
  lemma Unreadable(t: Tongue, f: seq<Item>, s: nat, p: nat, capacity: nat)
    requires s <= p < |f| && (forall j | s <= j <= p :: Token(f[j]))
    requires Broken(t, f, p) || |BytesOf(t, f, s, p + 1)| > URL_MAX || |BytesOf(t, f, s, p + 1)| >= capacity
    ensures p < End(f, s) && !Readable(t, f, s, End(f, s), capacity)
  {
    SameToken(f, s, p);
    BytesGrow(t, f, s, p + 1, End(f, s));
  }

  /** Read the token that begins at column `col0` of row `k0`. */
  method ReadToken(t: Tongue, rows: seq<Row>, k0: nat, col0: nat, r: nat, c: nat, capacity: nat)
    returns (ok: bool, url: seq<Byte>, cells: nat, clicked: nat)
    requires k0 < |rows| && AllSoftOk(rows) && col0 < Limit(rows[k0]) && capacity >= 2 && t.Sane()
    requires GoesOn(rows, k0, r) && c < Limit(rows[r]) && Flat(rows, k0) == Flat(rows, r)
    requires Place(rows, k0, col0) <= Place(rows, r, c) < End(Flat(rows, r), Place(rows, k0, col0))
    ensures var f, s := Flat(rows, r), Place(rows, k0, col0);
            var e := End(f, s);
            && (ok <==> Readable(t, f, s, e, capacity))
            && (ok ==> url == BytesOf(t, f, s, e) && cells == e - s && clicked == Place(rows, r, c) - s)
  {
    hide Flat, Place, Token, BytesOf, Broken, Readable, End;
    ghost var f, s, i := Flat(rows, r), Place(rows, k0, col0), Place(rows, r, c);
    var k, col := k0, col0;
    url, cells, clicked := [], 0, 0;
    FlatAt(rows, k0, col0);
    NothingRead(t, f, s, capacity);
    while k < |rows|
      invariant k <= |rows| && 0 <= col && 0 <= cells && (k < |rows| ==> GoesOn(rows, k0, k))
                && ReadSofar(t, f, s, s + cells, url, capacity)
      invariant if k < |rows| then col <= Limit(rows[k]) && Flat(rows, k) == f
                && Place(rows, k, col) == s + cells else s + cells == |f|
      invariant i < s + cells ==> clicked == i - s
      decreases |rows| - k, if k < |rows| then Gap(col, Limit(rows[k])) else 0
    {
      FlatEnds(rows, k);
      if col >= Limit(rows[k]) {
        if rows[k].Hard() { break; }
        if k + 1 < |rows| { FlatNext(rows, k); }
        k, col := k + 1, 0;
        continue;
      }
      FlatAt(rows, k, col);
      var cell := rows[k].cells[col];
      if cell.link != 0 || !UrlCharacter(cell.cp) {
        NotToken(cell, col);
        break;
      }
      IsToken(cell, col);
      if k == r && col == c { clicked := cells; }
      JoinedEither(rows, k0, k, r);
      SamePlace(rows, k, col, r, c);
      ghost var p := s + cells;
      ReadOne(t, f, s, p, url, capacity);
      if cell.cp == WIDE_CONT {
        if col == 0 || !t.wide(rows[k].cells[col - 1].cp) {
          OrphanAt(t, rows, k, col);
          Unreadable(t, f, s, p, capacity);
          return false, url, cells, clicked;
        }
        WholeAt(t, rows, k, col);
      } else {
        BrokenAt(t, f, p);
        var encoded := t.encode(cell.cp);
        if encoded == [] || |url| + |encoded| > URL_MAX || |url| + |encoded| >= capacity {
          Unreadable(t, f, s, p, capacity);
          return false, url, cells, clicked;
        }
        url := url + encoded;
      }
      cells := cells + 1;
      col := col + 1;
      PlaceBack(rows, k, col);
    }
    EndIs(f, s, s + cells);
    AllRead(t, f, s, s + cells, url, capacity);
    ok := true;
  }

  lemma NothingRead(t: Tongue, f: seq<Item>, s: nat, capacity: nat)
    requires s <= |f| && capacity > 0
    ensures ReadSofar(t, f, s, s, [], capacity)
  {
  }

  lemma AllRead(t: Tongue, f: seq<Item>, s: nat, e: nat, url: seq<Byte>, capacity: nat)
    requires ReadSofar(t, f, s, e, url, capacity)
    ensures Readable(t, f, s, e, capacity)
  {
  }

  lemma ReadOne(t: Tongue, f: seq<Item>, s: nat, p: nat, url: seq<Byte>, capacity: nat)
    requires ReadSofar(t, f, s, p, url, capacity) && p < |f| && Token(f[p])
    ensures BytesOf(t, f, s, p + 1) == url + if f[p].cell.cp == WIDE_CONT then [] else t.encode(f[p].cell.cp)
  {
  }

  lemma OrphanAt(t: Tongue, rows: seq<Row>, k: nat, col: nat)
    requires k < |rows| && AllSoftOk(rows) && col < Limit(rows[k]) && rows[k].cells[col].cp == WIDE_CONT
    requires col == 0 || !t.wide(rows[k].cells[col - 1].cp)
    ensures Place(rows, k, col) < |Flat(rows, k)| && Broken(t, Flat(rows, k), Place(rows, k, col))
  {
    FlatAt(rows, k, col);
    if col > 0 { FlatAt(rows, k, col - 1); }
  }

  lemma WholeAt(t: Tongue, rows: seq<Row>, k: nat, col: nat)
    requires k < |rows| && AllSoftOk(rows) && 0 < col < Limit(rows[k]) && t.wide(rows[k].cells[col - 1].cp)
    requires rows[k].cells[col].cp == WIDE_CONT
    ensures Place(rows, k, col) < |Flat(rows, k)| && !Broken(t, Flat(rows, k), Place(rows, k, col))
  {
    FlatAt(rows, k, col);
    FlatAt(rows, k, col - 1);
  }

  lemma BrokenAt(t: Tongue, f: seq<Item>, p: nat)
    requires p < |f| && f[p].cell.cp != WIDE_CONT
    ensures Broken(t, f, p) <==> t.encode(f[p].cell.cp) == []
  {
  }

  lemma JoinedEither(rows: seq<Row>, k0: nat, k: nat, r: nat)
    requires GoesOn(rows, k0, k) && GoesOn(rows, k0, r)
    ensures GoesOn(rows, k, r) || GoesOn(rows, r, k)
  {
  }

  /** Only the cell itself is at its place in the line. */
  lemma SamePlace(rows: seq<Row>, k: nat, col: nat, r: nat, c: nat)
    requires k < |rows| && r < |rows| && AllSoftOk(rows) && col < Limit(rows[k]) && c < Limit(rows[r])
    requires GoesOn(rows, k, r) || GoesOn(rows, r, k)
    ensures Place(rows, k, col) == Place(rows, r, c) ==> k == r && col == c
  {
    hide Place;
    if k < r { LaterPlace(rows, k, r); }
    if r < k { LaterPlace(rows, r, k); }
    PlaceIs(rows, k, col);
    PlaceIs(rows, r, c);
  }

  lemma PlaceIs(rows: seq<Row>, k: nat, col: nat)
    requires k < |rows| && AllSoftOk(rows)
    ensures Place(rows, k, col) == Place(rows, k, 0) + col
            && Place(rows, k, Limit(rows[k])) == Place(rows, k, 0) + Limit(rows[k])
  {
  }

  lemma {:induction false} LaterPlace(rows: seq<Row>, a: nat, b: nat)
    requires GoesOn(rows, a, b) && AllSoftOk(rows) && a < b
    ensures Place(rows, a, Limit(rows[a])) <= Place(rows, b, 0)
    decreases b - a
  {
    FlatNext(rows, b - 1);
    if a < b - 1 { LaterPlace(rows, a, b - 1); }
    PlaceIs(rows, b - 1, 0);
  }

  // ----- Trimming -----

  method LeadOf(url: seq<Byte>) returns (n: nat)
    ensures n == Lead(url)
  {
    n := 0;
    assert url[0..] == url;
    while n < |url| && OpensBracket(url[n])
      invariant n <= |url| && Lead(url) == n + Lead(url[n..])
    {
      n := n + 1;
    }
  }

  method BalanceOf(url: seq<Byte>, a: Byte, b: Byte) returns (n: int)
    ensures n == Balance(url, a, b)
  {
    n := 0;
    var i := 0;
    while i < |url|
      invariant 0 <= i <= |url| && n == Balance(url[..i], a, b)
    {
      assert url[..i + 1][..i] == url[..i];
      if url[i] == a { n := n + 1; }
      if url[i] == b { n := n - 1; }
      i := i + 1;
    }
    assert url[..i] == url;
  }

  method TrimOf(url: seq<Byte>) returns (n: nat)
    ensures n == Trim(url)
  {
    n := |url|;
    assert url[..n] == url;
    while n > 0
      invariant n <= |url| && Trim(url[..n]) == Trim(url)
    {
      var last := url[n - 1];
      assert url[..n][..n - 1] == url[..n - 1];
      if last == 46 || last == 44 || last == 59 || last == 33 {
        n := n - 1;
        continue;
      }
      var open := Opener(last);
      if open == 0 { break; }
      var balance := BalanceOf(url[..n], open, last);
      if balance >= 0 { break; }
      n := n - 1;
    }
  }

  // ----- The detector and the runs -----

  /** The link of the token at a cell, as far as it can be read. */
  method Scan(t: Tongue, rows: seq<Row>, r: nat, c: nat, capacity: nat) returns (range: Option<Range>)
    requires r < |rows| && AllSoftOk(rows) && c < |rows[r].cells| && t.Sane()
    ensures c >= Limit(rows[r]) ==> range == None
    ensures c < Limit(rows[r]) ==> Place(rows, r, c) < |Flat(rows, r)|
    ensures c < Limit(rows[r]) && rows[r].cells[c].link == 0 ==>
            range == ScanAt(t, Flat(rows, r), Place(rows, r, c), capacity)
  {
    hide Flat, Place, BytesOf, Readable, Trim, Lead, HasScheme, Start, End;
    if !UrlCharacter(rows[r].cells[c].cp) || c >= Limit(rows[r]) {
      if c < Limit(rows[r]) {
        FlatAt(rows, r, c);
        NotToken(rows[r].cells[c], c);
      }
      return None;
    }
    FlatAt(rows, r, c);
    if rows[r].cells[c].link != 0 { return None; }
    ghost var f, i := Flat(rows, r), Place(rows, r, c);
    if capacity < 2 {
      TooSmall(t, f, i, capacity);
      return None;
    }
    var ok, k, col := FindStart(t, rows, r, c);
    if !ok {
      TooLong(t, f, i, capacity);
      return None;
    }
    EndOfToken(f, i);
    var url, cells, clicked;
    ok, url, cells, clicked := ReadToken(t, rows, k, col, r, c, capacity);
    if !ok { return None; }
    var skip := LeadOf(url);
    var text := url[skip..];
    var n := TrimOf(text);
    var back: int := clicked;
    var first: int, last: int := skip - back, cells - (|text| - n) - back;
    range := if HasScheme(text[..n]) then Some(Range(first, last)) else None;
  }

  lemma TooSmall(t: Tongue, f: seq<Item>, i: nat, capacity: nat)
    requires i < |f| && capacity < 2
    ensures ScanAt(t, f, i, capacity) == None
  {
    hide BytesOf, Start, End;
  }

  lemma EndOfToken(f: seq<Item>, i: nat)
    requires i < |f| && Token(f[i])
    ensures i < End(f, Start(f, i)) && End(f, Start(f, i)) == End(f, i)
  {
    SameToken(f, Start(f, i), i);
  }

  /** A token with too many cells before this one has too many bytes, wherever it is looked at. */
  lemma TooLong(t: Tongue, f: seq<Item>, i: nat, capacity: nat)
    requires t.Sane() && URL_MAX < i < |f| && Token(f[i]) && forall j | i - URL_MAX - 1 <= j < i :: Token(f[j])
    ensures ScanAt(t, f, i, capacity) == None
  {
    StartBefore(f, i, i - URL_MAX - 1);
    var s, e := Start(f, i), End(f, i);
    EndOfToken(f, i);
    if Readable(t, f, s, e, capacity) {
      TokenCells(f, i);
      CellsAndBytes(t, f, s, e);
    }
  }

  lemma {:induction false} StartBefore(f: seq<Item>, i: nat, j: nat)
    requires j <= i <= |f| && forall k | j <= k < i :: Token(f[k])
    ensures Start(f, i) <= j
    decreases i
  {
    if j < i { StartBefore(f, i - 1, j); }
  }

  lemma TokenCells(f: seq<Item>, i: nat)
    requires i < |f| && Token(f[i])
    ensures forall k | Start(f, i) <= k < End(f, i) :: Token(f[k])
  {
  }

  /** Whether the cell belongs to a link, explicit or found in the text. */
  method UrlAt(t: Tongue, rows: seq<Row>, r: nat, c: nat, capacity: nat) returns (yes: bool)
    requires r < |rows| && AllSoftOk(rows) && c < |rows[r].cells| && t.Sane()
    ensures yes <==> At(t, rows, r, c, capacity)
  {
    hide Flat, Place, ScanAt;
    if c < Limit(rows[r]) && rows[r].cells[c].link != 0 {
      var target := t.target(rows[r].cells[c].link);
      return capacity > |target| && HasScheme(target);
    }
    var range := Scan(t, rows, r, c, capacity);
    yes := range.Some? && range.value.first <= 0 && range.value.last > 0;
  }

  /** A run of cells from `c` on that are all part of a link, or all not. */
  ghost predicate Uniform(t: Tongue, rows: seq<Row>, r: nat, c: nat, end: nat, yes: bool)
    requires r < |rows| && AllSoftOk(rows)
  {
    c < end <= |rows[r].cells| && forall k | c <= k < end :: At(t, rows, r, k, CAPACITY) <==> yes
  }

  /** The link of another cell of the row in the same token. */
  lemma RowShifts(t: Tongue, rows: seq<Row>, r: nat, c: nat, k: nat)
    requires r < |rows| && AllSoftOk(rows) && c <= k < Limit(rows[r])
    requires forall x | c <= x <= k :: UrlCharacter(rows[r].cells[x].cp) && rows[r].cells[x].link == 0
    ensures Place(rows, r, c) < |Flat(rows, r)| && Place(rows, r, k) < |Flat(rows, r)|
    ensures var a := ScanAt(t, Flat(rows, r), Place(rows, r, c), CAPACITY);
            ScanAt(t, Flat(rows, r), Place(rows, r, k), CAPACITY) ==
            if a == None then None else Some(Range(a.value.first - (k - c), a.value.last - (k - c)))
  {
    hide Flat, ScanAt;
    var f := Flat(rows, r);
    PlaceIs(rows, r, c);
    PlaceIs(rows, r, k);
    forall x | c <= x <= k ensures Place(rows, r, x) < |f| && Token(f[Place(rows, r, x)]) {
      FlatAt(rows, r, x);
    }
    forall j | Place(rows, r, c) <= j <= Place(rows, r, k) ensures Token(f[j]) {
      PlaceIs(rows, r, j - Place(rows, r, 0));
      assert Place(rows, r, j - Place(rows, r, 0)) == j;
    }
    ScanShifts(t, f, Place(rows, r, c), Place(rows, r, k), CAPACITY);
  }

  lemma {:induction false} AsciiJoins(a: seq<Byte>, b: seq<Byte>)
    ensures Ascii(a + b) == Ascii(a) + Ascii(b)
    decreases |b|
  {
    if b == [] {
      assert a + b == a;
    } else {
      assert (a + b)[..|a + b| - 1] == a + b[..|b| - 1];
      AsciiJoins(a, b[..|b| - 1]);
    }
  }

  lemma {:induction false} LeadAscii(url: seq<Byte>)
    ensures Lead(url) <= Ascii(url)
  {
    if url != [] && OpensBracket(url[0]) {
      LeadAscii(url[1..]);
      assert url == [url[0]] + url[1..];
      AsciiJoins([url[0]], url[1..]);
      assert Ascii([url[0]]) == 1 by { assert [url[0]][..0] == []; }
    }
  }

  /** Leading brackets take no more bytes than the token has cells. */
  lemma {:induction false} LeadInToken(t: Tongue, f: seq<Item>, s: nat, e: nat)
    requires t.Sane() && s <= e <= |f|
    ensures Ascii(BytesOf(t, f, s, e)) <= e - s && Lead(BytesOf(t, f, s, e)) <= e - s
    decreases e
  {
    if e > s {
      LeadInToken(t, f, s, e - 1);
      AsciiJoins(BytesOf(t, f, s, e - 1), CellBytes(t, f[e - 1]));
    }
    LeadAscii(BytesOf(t, f, s, e));
  }

  /** The cells of the range that starts in this row belong to the token. */
  lemma RangeInToken(t: Tongue, rows: seq<Row>, r: nat, c: nat)
    requires t.Sane() && r < |rows| && AllSoftOk(rows) && c < Limit(rows[r]) && rows[r].cells[c].link == 0
    ensures Place(rows, r, c) < |Flat(rows, r)|
    ensures var a := ScanAt(t, Flat(rows, r), Place(rows, r, c), CAPACITY);
            (a.Some? ==> UrlCharacter(rows[r].cells[c].cp))
            && (a.Some? ==> forall x | c <= x < Limit(rows[r]) && (x - c < a.value.first || x - c < a.value.last) ::
                              UrlCharacter(rows[r].cells[x].cp) && rows[r].cells[x].link == 0)
  {
    FlatAt(rows, r, c);
    var f, i := Flat(rows, r), Place(rows, r, c);
    var a := ScanAt(t, f, i, CAPACITY);
    if a.Some? {
      LeadInToken(t, f, Start(f, i), End(f, i));
      EndOfToken(f, i);
      TokenCells(f, i);
      forall x | c <= x < Limit(rows[r]) && (x - c < a.value.first || x - c < a.value.last)
        ensures UrlCharacter(rows[r].cells[x].cp) && rows[r].cells[x].link == 0
      {
        FlatAt(rows, r, x);
        PlaceIs(rows, r, x);
        PlaceIs(rows, r, c);
        assert Token(f[Place(rows, r, x)]);
      }
    }
  }

  /** One run of cells with the same answer; its end is where the token, the label or the blank space ends, or
      earlier. */
  method RunSegment(t: Tongue, rows: seq<Row>, r: nat, c: nat) returns (yes: bool, end: nat)
    requires r < |rows| && AllSoftOk(rows) && t.Sane() && c < |rows[r].cells|
    requires forall cell <- rows[r].cells :: |t.target(cell.link)| <= URL_MAX
    ensures Uniform(t, rows, r, c, end, yes)
  {
    hide Flat, Place, ScanAt, HasScheme;
    var row, limit := rows[r], Limit(rows[r]);
    end := c + 1;
    if c >= limit { return false, |row.cells|; }
    if row.cells[c].link != 0 {
      var link := row.cells[c].link;
      assert row.cells[c] in row.cells;
      while end < limit && row.cells[end].link == link
        invariant c < end <= limit && forall k | c <= k < end :: row.cells[k].link == link
      {
        end := end + 1;
      }
      return HasScheme(t.target(link)), end;
    }
    var range := Scan(t, rows, r, c, CAPACITY);
    RangeInToken(t, rows, r, c);
    if range.Some? {
      var boundary: int := c as int + if range.value.first > 0 then range.value.first else range.value.last;
      if boundary > c {
        end := if boundary > limit then limit else boundary;
        forall k | c <= k < end ensures At(t, rows, r, k, CAPACITY) <==> range.value.first <= 0 {
          RowShifts(t, rows, r, c, k);
        }
        return range.value.first <= 0, end;
      }
    }
    var token := UrlCharacter(row.cells[c].cp);
    while end < limit && row.cells[end].link == 0 && UrlCharacter(row.cells[end].cp) == token
      invariant c < end <= limit
      invariant forall k | c <= k < end :: row.cells[k].link == 0 && UrlCharacter(row.cells[k].cp) == token
    {
      end := end + 1;
    }
    forall k | c <= k < end ensures !At(t, rows, r, k, CAPACITY) {
      if token { RowShifts(t, rows, r, c, k); } else { NoToken(t, rows, r, k); }
    }
    yes := false;
  }

  lemma NoToken(t: Tongue, rows: seq<Row>, r: nat, k: nat)
    requires r < |rows| && AllSoftOk(rows) && k < Limit(rows[r]) && !UrlCharacter(rows[r].cells[k].cp)
    ensures Place(rows, r, k) < |Flat(rows, r)| && ScanAt(t, Flat(rows, r), Place(rows, r, k), CAPACITY) == None
  {
    FlatAt(rows, r, k);
  }

  /** A run to be drawn in one go: part of one link, or as far as no cell belongs to a link. */
  method UrlRun(t: Tongue, rows: seq<Row>, r: nat, c: nat) returns (yes: bool, end: nat)
    requires r < |rows| && AllSoftOk(rows) && t.Sane() && c < |rows[r].cells|
    requires forall cell <- rows[r].cells :: |t.target(cell.link)| <= URL_MAX
    ensures Uniform(t, rows, r, c, end, yes)
    ensures !yes ==> end == |rows[r].cells| || At(t, rows, r, end, CAPACITY)
  {
    hide At;
    yes, end := RunSegment(t, rows, r, c);
    if yes { return; }
    while end < |rows[r].cells|
      invariant Uniform(t, rows, r, c, end, false)
      decreases |rows[r].cells| - end
    {
      var more, next := RunSegment(t, rows, r, end);
      if more { break; }
      end := next;
    }
  }

  /** Whether the row has any part of a link. */
  method UrlInRow(t: Tongue, rows: seq<Row>, r: nat) returns (yes: bool)
    requires r < |rows| && AllSoftOk(rows) && t.Sane()
    requires forall cell <- rows[r].cells :: |t.target(cell.link)| <= URL_MAX
    ensures yes <==> exists k :: 0 <= k < |rows[r].cells| && At(t, rows, r, k, CAPACITY)
  {
    hide At;
    var c := 0;
    while c < |rows[r].cells|
      invariant 0 <= c <= |rows[r].cells| && forall k | 0 <= k < c :: !At(t, rows, r, k, CAPACITY)
    {
      var more, end := UrlRun(t, rows, r, c);
      if more {
        assert At(t, rows, r, c, CAPACITY);
        return true;
      }
      c := end;
    }
    yes := false;
  }
}
