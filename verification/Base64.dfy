/** Clipboard payloads in Base64 (section 4 of RFC 4648): what the alphabet denotes, the encoder of a reply, and the
    decoder that works in place and takes canonical padding only. */
module Base64 {
  import opened Common

  const PAD: Byte := 61
  const SEMICOLON: Byte := 59
  const WRITE_MAX: nat := 0x100000

  /** A value of six bits. */
  type Sextet = v: nat | v < 64

  function Letter(v: Sextet): Byte {
    if v < 26 then 65 + v else if v < 52 then 97 + (v - 26) else if v < 62 then 48 + (v - 52) else if v == 62 then 43
      else 47
  }

  function Digit(byte: Byte): Option<Sextet> {
    if 65 <= byte <= 90 then Some(byte - 65)
    else if 97 <= byte <= 122 then Some(byte - 97 + 26)
    else if 48 <= byte <= 57 then Some(byte - 48 + 52)
    else if byte == 43 then Some(62)
    else if byte == 47 then Some(63)
    else None
  }

  lemma DigitOfLetter(v: Sextet)
    ensures Digit(Letter(v)) == Some(v) && Letter(v) != PAD
  {
  }

  lemma LetterOfDigit(b: Byte)
    requires Digit(b).Some?
    ensures Letter(Digit(b).value) == b && b != PAD
  {
  }

  /** The letters come in the order of table 1 of RFC 4648. */
  lemma AlphabetIs(n: nat)
    ensures n < 26 ==> Letter(n) == 'A' as nat + n && Letter(26 + n) == 'a' as nat + n
    ensures n < 10 ==> Letter(52 + n) == '0' as nat + n
    ensures Letter(62) == '+' as nat && Letter(63) == '/' as nat
  {
  }

  // ----- Encoding -----

  /** The four characters of one to three bytes. */
  function Quad(d: seq<Byte>): (q: seq<Byte>)
    requires 1 <= |d| <= 3
    ensures |q| == 4
  {
    var b, c := if |d| > 1 then d[1] else 0, if |d| > 2 then d[2] else 0;
    [Letter(d[0] / 4), Letter(d[0] % 4 * 16 + b / 16),
     if |d| > 1 then Letter(b % 16 * 4 + c / 64) else PAD, if |d| > 2 then Letter(c % 64) else PAD]
  }

  function Encode(d: seq<Byte>): (q: seq<Byte>)
    ensures |q| == (|d| + 2) / 3 * 4
  {
    if d == [] then [] else if |d| <= 3 then Quad(d) else Quad(d[..3]) + Encode(d[3..])
  }

  lemma {:induction false} EncodeMore(d: seq<Byte>, e: seq<Byte>)
    requires |d| % 3 == 0
    ensures Encode(d + e) == Encode(d) + Encode(e)
    decreases |d|
  {
    if d == [] {
      NothingEncoded(d);
      assert d + e == e;
    } else {
      hide Encode, Quad;
      EncodeMore(d[3..], e);
      EncodeStep(d);
      EncodeStep(d + e);
      assert (d + e)[..3] == d[..3] && (d + e)[3..] == d[3..] + e;
      ConcatAssociates(Quad(d[..3]), Encode(d[3..]), Encode(e));
    }
  }

  lemma EncodeStep(d: seq<Byte>)
    requires |d| >= 3
    ensures Encode(d) == Quad(d[..3]) + Encode(d[3..])
  {
    if |d| == 3 { assert d[..3] == d && d[3..] == []; }
  }

  // ----- Decoding -----

  /** The bytes of four characters; padding is taken only at the end, and only with zero bits left over. */
  function QuadBytes(q: seq<Byte>, last: bool): Option<seq<Byte>>
    requires |q| == 4
  {
    var a, b, c, d := Digit(q[0]), Digit(q[1]), Digit(q[2]), Digit(q[3]);
    if a == None || b == None then None
    else
      var first: Byte := a.value * 4 + b.value / 16;
      if q[2] == PAD then if !last || q[3] != PAD || b.value % 16 != 0 then None else Some([first])
      else if q[3] == PAD then
        if !last || c == None || c.value % 4 != 0 then None else Some([first, b.value % 16 * 16 + c.value / 4])
      else if c == None || d == None then None
      else Some([first, b.value % 16 * 16 + c.value / 4, c.value % 4 * 64 + d.value])
  }

  function Decode(p: seq<Byte>): Option<seq<Byte>> {
    if p == [] then Some([])
    else if |p| < 4 then None
    else
      var d, rest := QuadBytes(p[..4], |p| == 4), Decode(p[4..]);
      if d == None || rest == None then None else Some(d.value + rest.value)
  }

  /** Four characters denote bytes just when they encode them; fewer than three bytes come last only. */
  lemma QuadInverse(q: seq<Byte>, last: bool, d: seq<Byte>)
    requires |q| == 4
    ensures QuadBytes(q, last) == Some(d) <==> 1 <= |d| <= 3 && Quad(d) == q && (last || |d| == 3)
  {
    if 1 <= |d| <= 3 && Quad(d) == q && (last || |d| == 3) { QuadBack(d, last); }
    if QuadBytes(q, last) == Some(d) { QuadForth(q, last); }
  }

  lemma QuadBack(d: seq<Byte>, last: bool)
    requires 1 <= |d| <= 3 && (last || |d| == 3)
    ensures QuadBytes(Quad(d), last) == Some(d)
  {
    hide Letter, Digit;
    var b, c := if |d| > 1 then d[1] else 0, if |d| > 2 then d[2] else 0;
    DigitOfLetter(d[0] / 4);
    DigitOfLetter(d[0] % 4 * 16 + b / 16);
    DigitOfLetter(b % 16 * 4 + c / 64);
    DigitOfLetter(c % 64);
    assert (d[0] % 4 * 16 + b / 16) / 16 == d[0] % 4 && (d[0] % 4 * 16 + b / 16) % 16 == b / 16;
    assert (b % 16 * 4 + c / 64) / 4 == b % 16 && (b % 16 * 4 + c / 64) % 4 == c / 64;
    assert d == if |d| == 1 then [d[0]] else if |d| == 2 then [d[0], b] else [d[0], b, c];
  }

  /** Bytes put together from sextets come apart into them. */
  lemma Regrouped(a: nat, b: nat, c: nat, d: nat)
    requires a < 64 && b < 64 && c < 64 && d < 64
    ensures (a * 4 + b / 16) / 4 == a && (a * 4 + b / 16) % 4 == b / 16
    ensures (b % 16 * 16 + c / 4) / 16 == b % 16 && (b % 16 * 16 + c / 4) % 16 == c / 4
    ensures (c % 4 * 64 + d) / 64 == c % 4 && (c % 4 * 64 + d) % 64 == d
    ensures b / 16 * 16 + b % 16 == b && c / 4 * 4 + c % 4 == c
  {
  }

  lemma QuadForth(q: seq<Byte>, last: bool)
    requires |q| == 4 && QuadBytes(q, last).Some?
    ensures var d := QuadBytes(q, last).value; 1 <= |d| <= 3 && Quad(d) == q && (last || |d| == 3)
  {
    hide Letter, Digit;
    LetterOfDigit(q[0]);
    LetterOfDigit(q[1]);
    var a, b := Digit(q[0]).value, Digit(q[1]).value;
    if q[2] == PAD {
      Regrouped(a, b, 0, 0);
    } else {
      LetterOfDigit(q[2]);
      var c := Digit(q[2]).value;
      if q[3] == PAD {
        Regrouped(a, b, c, 0);
      } else {
        LetterOfDigit(q[3]);
        Regrouped(a, b, c, Digit(q[3]).value);
      }
    }
  }

  /** A payload decodes to `d` just when it is the encoding of `d`. */
  lemma {:induction false} DecodeInverse(p: seq<Byte>, d: seq<Byte>)
    ensures Decode(p) == Some(d) <==> p == Encode(d)
    decreases |p|
  {
    if |p| >= 4 {
      var q, last, rest := p[..4], |p| == 4, p[4..];
      assert p == q + rest;
      if Decode(p) == Some(d) {
        var x, y := QuadBytes(q, last).value, Decode(rest).value;
        QuadInverse(q, last, x);
        DecodeInverse(rest, y);
        EncodeFirst(x, y, last);
      }
      if p == Encode(d) {
        var x, y := if |d| <= 3 then d else d[..3], if |d| <= 3 then [] else d[3..];
        assert d == x + y;
        QuadInverse(q, last, x);
        DecodeInverse(rest, y);
      }
    }
  }

  lemma EncodeFirst(x: seq<Byte>, y: seq<Byte>, last: bool)
    requires 1 <= |x| <= 3 && (last || |x| == 3) && (last ==> y == [])
    ensures Encode(x + y) == Quad(x) + Encode(y)
  {
    if y == [] {
      assert x + y == x;
    } else {
      assert (x + y)[..3] == x && (x + y)[3..] == y;
    }
  }

  // ----- The encoder of a reply -----

  /** ESC ] 5 2 ; target ; */
  function Header(target: Byte): seq<Byte> {
    [27, 93, 53, 50, 59, target, 59]
  }

  function Terminator(st: bool): seq<Byte> {
    if st then [27, 92] else [7]
  }

  /** Four sextets taken as one number come apart again. */
  lemma Sextets(s0: Sextet, s1: Sextet, s2: Sextet, s3: Sextet, value: int)
    requires value == 262144 * s0 + 4096 * s1 + 64 * s2 + s3
    ensures value / 262144 % 64 == s0 && value / 4096 % 64 == s1 && value / 64 % 64 == s2 && value % 64 == s3
  {
    assert value / 64 == 4096 * s0 + 64 * s1 + s2;
    assert value / 4096 == 64 * s0 + s1;
    assert value / 262144 == s0;
  }

  /** Three bytes taken as one number give the four letters. */
  lemma ValueLetters(a: Byte, b: Byte, c: Byte, value: int)
    requires value == 65536 * a + 256 * b + c
    ensures value / 262144 % 64 == a / 4 && value / 4096 % 64 == a % 4 * 16 + b / 16
    ensures value / 64 % 64 == b % 16 * 4 + c / 64 && value % 64 == c % 64
  {
    assert a == 4 * (a / 4) + a % 4 && b == 16 * (b / 16) + b % 16 && c == 64 * (c / 64) + c % 64;
    Sextets(a / 4, a % 4 * 16 + b / 16, b % 16 * 4 + c / 64, c % 64, value);
  }

  lemma EncodeNext(data: seq<Byte>, i: nat)
    requires i < |data| && i % 3 == 0
    ensures var next := if i + 3 <= |data| then i + 3 else |data|;
            Encode(data[..next]) == Encode(data[..i]) + Quad(data[i..next])
  {
    var next := if i + 3 <= |data| then i + 3 else |data|;
    EncodeMore(data[..i], data[i..next]);
    assert data[..next] == data[..i] + data[i..next];
  }

  /** Write the four characters of the next bytes. */
  method WriteQuad(reply: array<Byte>, out: nat, data: seq<Byte>, i: nat)
    requires out + 4 <= reply.Length && i < |data|
    modifies reply
    ensures var next := if i + 3 <= |data| then i + 3 else |data|;
            reply[..out + 4] == old(reply[..out]) + Quad(data[i..next])
  {
    hide Letter, Quad;
    var remaining := |data| - i;
    var b, c := if remaining > 1 then data[i + 1] else 0, if remaining > 2 then data[i + 2] else 0;
    var value: int := 65536 * (data[i] as int) + 256 * (b as int) + c as int;
    ValueLetters(data[i], b, c, value);
    QuadOf(data, i);
    reply[out], reply[out + 1] := Letter(value / 262144 % 64), Letter(value / 4096 % 64);
    reply[out + 2] := if remaining > 1 then Letter(value / 64 % 64) else PAD;
    reply[out + 3] := if remaining > 2 then Letter(value % 64) else PAD;
  }

  /** Write the characters of all bytes after the header. */
  method WriteBody(reply: array<Byte>, data: seq<Byte>) returns (out: nat)
    requires 7 + |Encode(data)| <= reply.Length
    modifies reply
    ensures out == 7 + |Encode(data)| && reply[..out] == old(reply[..7]) + Encode(data)
  {
    hide Encode, Quad, Letter;
    var i := 0;
    out := 7;
    NothingEncoded(data);
    while i < |data|
      invariant 0 <= i && i % 3 == 0 && out == 7 + i / 3 * 4 && i <= |data| + 2
      invariant reply[..out] == old(reply[..7]) + Encode(data[..Min(i, |data|)])
    {
      EncodeNext(data, i);
      WriteQuad(reply, out, data, i);
      out, i := out + 4, i + 3;
    }
    assert data[..|data|] == data;
  }

  /** The reply to a read request: header, encoded bytes, terminator, in a buffer of just that size. */
  method Deliver(data: seq<Byte>, target: Byte, st: bool) returns (reply: array<Byte>)
    ensures fresh(reply) && reply[..] == Header(target) + Encode(data) + Terminator(st)
  {
    hide Encode;
    var size := 7 + 4 * ((|data| + 2) / 3) + if st then 2 else 1;
    reply := new Byte[size](_ => 0);
    reply[0], reply[1], reply[2], reply[3], reply[4], reply[5], reply[6] := 27, 93, 53, 50, 59, target, 59;
    assert reply[..7] == Header(target);
    var out := WriteBody(reply, data);
    if st { reply[out], reply[out + 1] := 27, 92; } else { reply[out] := 7; }
    assert reply[..out] == Header(target) + Encode(data);
    assert reply[out..] == Terminator(st);
  }

  lemma NothingEncoded(data: seq<Byte>)
    ensures Encode(data[..0]) == []
  {
  }

  lemma QuadOf(data: seq<Byte>, i: nat)
    requires i < |data|
    ensures var next := if i + 3 <= |data| then i + 3 else |data|;
            var b, c := if i + 1 < |data| then data[i + 1] else 0, if i + 2 < |data| then data[i + 2] else 0;
            Quad(data[i..next]) ==
            [Letter(data[i] / 4), Letter(data[i] % 4 * 16 + b / 16),
             if i + 1 < |data| then Letter(b % 16 * 4 + c / 64) else PAD, if i + 2 < |data| then Letter(c % 64)
               else PAD]
  {
  }

  // ----- The decoder -----

  /** The selection a payload is for, and where the Base64 text begins. */
  predicate Targets(p: seq<Byte>, start: nat, target: Byte) {
    && start < |p| && start <= 255 && p[start] == SEMICOLON && SEMICOLON !in p[..start]
    && target == (if start > 0 then p[0] else 99) && target in {99, 112, 115}
  }

  /** A payload is taken when it names a selection and holds the encoding of no more than the limit. */
  ghost predicate Accepted(p: seq<Byte>, target: Byte, data: seq<Byte>) {
    |data| <= WRITE_MAX && exists start: nat :: Targets(p, start, target) && p[start + 1..] == Encode(data)
  }

  lemma DecodeStep(p: seq<Byte>)
    requires |p| >= 4
    ensures var d, rest := QuadBytes(p[..4], |p| == 4), Decode(p[4..]);
            Decode(p) == if d == None then None else Followed(d.value, rest)
  {
  }

  /** Bytes decoded so far, before those of the rest. */
  function Followed(d: seq<Byte>, rest: Option<seq<Byte>>): Option<seq<Byte>> {
    if rest == None then None else Some(d + rest.value)
  }

  lemma FollowedNothing(rest: Option<seq<Byte>>)
    ensures Followed([], rest) == rest
  {
    if rest.Some? { assert [] + rest.value == rest.value; }
  }

  lemma FollowedTwice(a: seq<Byte>, b: seq<Byte>, rest: Option<seq<Byte>>)
    ensures Followed(a, Followed(b, rest)) == Followed(a + b, rest)
  {
    if rest.Some? { ConcatAssociates(a, b, rest.value); }
  }

  lemma FollowedFails(a: seq<Byte>, rest: Option<seq<Byte>>)
    ensures Followed(a, rest) == None <==> rest == None
    ensures rest == Some([]) ==> Followed(a, rest) == Some(a)
  {
    assert a + [] == a;
  }

  /** Decode one group of four in place: what is written lies before anything still to be read. */
  method DecodeQuad(bytes: array<Byte>, i: nat, output: nat, last: bool) returns (ok: bool, n: nat)
    requires output <= i && i + 4 <= bytes.Length
    modifies bytes
    ensures var d := QuadBytes(old(bytes[i..i + 4]), last);
            (ok <==> d.Some?) && (ok ==>
                 n == output + |d.value| <= output + 3 && bytes[..n] == old(bytes[..output]) + d.value)
    ensures bytes[i + 4..] == old(bytes[i + 4..])
  {
    hide Digit;
    var a, b, c, d := Digit(bytes[i]), Digit(bytes[i + 1]), Digit(bytes[i + 2]), Digit(bytes[i + 3]);
    ghost var q := bytes[i..i + 4];
    assert q == [bytes[i], bytes[i + 1], bytes[i + 2], bytes[i + 3]];
    n := output;
    if a == None || b == None { return false, n; }
    var first: Byte := a.value * 4 + b.value / 16;
    if bytes[i + 2] == PAD {
      if !last || bytes[i + 3] != PAD || b.value % 16 != 0 { return false, n; }
      bytes[n] := first;
      n := n + 1;
    } else if bytes[i + 3] == PAD {
      if !last || c == None || c.value % 4 != 0 { return false, n; }
      bytes[n], bytes[n + 1] := first, b.value % 16 * 16 + c.value / 4;
      n := n + 2;
    } else {
      if c == None || d == None { return false, n; }
      bytes[n], bytes[n + 1], bytes[n + 2] := first, b.value % 16 * 16 + c.value / 4, c.value % 4 * 64 + d.value;
      n := n + 3;
    }
    ok := true;
  }

  /** Decode the groups of four from `start` on in place. */
  method DecodeGroups(bytes: array<Byte>, start: nat) returns (ok: bool, output: nat)
    requires start <= bytes.Length && (bytes.Length - start) % 4 == 0
    modifies bytes
    ensures var d := Decode(old(bytes[start..]));
            (ok <==> d.Some?) && (ok ==> output == |d.value| && output <= bytes.Length && bytes[..output] == d.value)
  {
    hide QuadBytes, Decode, Followed;
    var i := start;
    output := 0;
    ghost var payload := bytes[start..];
    NothingDecoded();
    assert payload[0..] == payload && bytes[..0] == [];
    FollowedNothing(Decode(payload));
    while i < bytes.Length
      invariant start <= i <= bytes.Length && (bytes.Length - i) % 4 == 0 && 0 <= output <= i - start
      invariant bytes[i..] == payload[i - start..]
      invariant Decode(payload) == Followed(bytes[..output], Decode(payload[i - start..]))
    {
      ghost var rest := payload[i - start..];
      ghost var sofar := bytes[..output];
      DecodeStep(rest);
      assert bytes[i..i + 4] == rest[..4] && rest[4..] == payload[i + 4 - start..];
      var n;
      ok, n := DecodeQuad(bytes, i, output, i + 4 == bytes.Length);
      FollowedFails(sofar, Decode(rest));
      if !ok { return; }
      ghost var q := QuadBytes(rest[..4], |rest| == 4);
      FollowedTwice(sofar, q.value, Decode(rest[4..]));
      output, i := n, i + 4;
    }
    ok := true;
    assert payload[i - start..] == [];
    FollowedFails(bytes[..output], Some([]));
  }

  lemma NothingDecoded()
    ensures Decode([]) == Some([])
  {
  }

  /** Only the first semicolon parts the selection from the text. */
  lemma AcceptedAt(p: seq<Byte>, start: nat)
    requires start <= |p| && SEMICOLON !in p[..start] && (start < |p| ==> p[start] == SEMICOLON)
    ensures forall t: Byte, data: seq<Byte> :: Accepted(p, t, data) <==>
              |data| <= WRITE_MAX && start < |p| && Targets(p, start, t) && p[start + 1..] == Encode(data)
  {
    forall s: nat, n: nat | s < n <= |p| ensures SEMICOLON !in p[..n] ==> p[s] != SEMICOLON {
      NoneBefore(p, n, s);
    }
  }

  lemma NoneBefore(p: seq<Byte>, n: nat, s: nat)
    requires s < n <= |p|
    ensures SEMICOLON !in p[..n] ==> p[s] != SEMICOLON
  {
    assert p[..n][s] == p[s];
  }

  /** The encoding of no more than the limit passes the test of its size. */
  lemma SizeFits(count: nat)
    ensures forall data: seq<Byte> | |data| <= WRITE_MAX
            && |Encode(data)| == count :: count % 4 == 0 && count / 4 * 3 <= WRITE_MAX + 2
  {
    hide Encode;
  }

  /** Decode a payload in place. It is taken just when it names a selection and its text is the encoding of no more
      than the limit; the result is what it encodes. */
  method DecodePayload(bytes: array<Byte>) returns (ok: bool, decoded: nat, target: Byte)
    modifies bytes
    ensures ok ==> decoded <= bytes.Length && Accepted(old(bytes[..]), target, bytes[..decoded])
    ensures !ok ==> forall t: Byte, data: seq<Byte> :: !Accepted(old(bytes[..]), t, data)
  {
    hide Decode, Encode;
    ghost var p := bytes[..];
    var start := 0;
    ok, decoded, target := false, 0, 0;
    while start < bytes.Length && bytes[start] != SEMICOLON
      invariant 0 <= start <= bytes.Length && SEMICOLON !in p[..start] && bytes[..] == p
    {
      start := start + 1;
    }
    AcceptedAt(p, start);
    if start == bytes.Length || start > 255 { return; }
    target := if start > 0 then bytes[0] else 99;
    if target != 99 && target != 112 && target != 115 { return; }
    var count := bytes.Length - (start + 1);
    assert p[start + 1..] == bytes[start + 1..];
    SizeFits(count);
    if count % 4 != 0 || count / 4 * 3 > WRITE_MAX + 2 { return; }
    ok, decoded := DecodeGroups(bytes, start + 1);
    forall data: seq<Byte> ensures Decode(p[start + 1..]) == Some(data) <==> p[start + 1..] == Encode(data) {
      DecodeInverse(p[start + 1..], data);
    }
    if ok && decoded > WRITE_MAX { ok := false; }
  }

  /** A payload is accepted in one way only. */
  lemma AcceptedOnce(p: seq<Byte>, t: Byte, data: seq<Byte>, t': Byte, data': seq<Byte>)
    requires Accepted(p, t, data) && Accepted(p, t', data')
    ensures t == t' && data == data'
  {
    var s: nat :| Targets(p, s, t) && p[s + 1..] == Encode(data);
    var s': nat :| Targets(p, s', t') && p[s' + 1..] == Encode(data');
    if s < s' { NoneBefore(p, s', s); }
    if s' < s { NoneBefore(p, s, s'); }
    DecodeInverse(p[s + 1..], data);
    DecodeInverse(p[s + 1..], data');
  }

  /** What a reply carries after its introducer is a payload that decodes to the bytes that were read. */
  lemma ReplyDecodes(data: seq<Byte>, target: Byte)
    requires |data| <= WRITE_MAX && target in {99, 112, 115}
    ensures Header(target) == [27, 93, 53, 50, 59] + [target, SEMICOLON]
    ensures Accepted([target, SEMICOLON] + Encode(data), target, data)
  {
    hide Encode;
    var p := [target, SEMICOLON] + Encode(data);
    assert p[..1] == [target];
    assert Targets(p, 1, target) && p[2..] == Encode(data);
  }
}
