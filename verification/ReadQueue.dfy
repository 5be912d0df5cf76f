/** Read requests and input bytes: the steps that the console task, readers and aborting callers take under one lock. */
module ReadQueue {
  import opened Common

  const INPUTBUF_SIZE: nat := 512

  /** A read: who asks, of which unit, and for how many bytes at most. */
  datatype Request = Request(id: nat, unit: nat, length: nat)

  datatype Reply = Reply(request: Request, aborted: bool, data: seq<Byte>)

  /** The bytes that the replies have delivered from one unit, in order. */
  function Delivered(replies: seq<Reply>, unit: nat): seq<Byte> {
    if replies == [] then []
    else
      var last := replies[|replies| - 1];
      Delivered(replies[..|replies| - 1], unit) + if last.request.unit == unit then last.data else []
  }

  lemma DeliveredMore(replies: seq<Reply>, r: Reply, unit: nat)
    ensures Delivered(replies + [r], unit) == Delivered(replies, unit) + if r.request.unit == unit then r.data else []
  {
    assert (replies + [r])[..|replies|] == replies;
  }

  // ----- What serving reads makes of those on hold -----

  /** Replies sent, reads still on hold, and bytes of a unit that are still there. */
  datatype Turn = Turn(replies: seq<Reply>, waiting: seq<Request>, held: seq<Byte>)

  /** The reply that fills a read from the bytes at hand. */
  function Filled(r: Request, held: seq<Byte>): Reply {
    Reply(r, false, held[..Min(|held|, r.length)])
  }

  /** Reads of unit `u` are filled one after the other while it has bytes; the others stay on hold. */
  function Answered(waiting: seq<Request>, u: nat, held: seq<Byte>): Turn {
    if waiting == [] then Turn([], [], held)
    else
      var r, more := waiting[0], waiting[1..];
      if r.unit == u && held != [] then
        var t := Answered(more, u, held[Min(|held|, r.length)..]);
        t.(replies := [Filled(r, held)] + t.replies)
      else
        var t := Answered(more, u, held);
        t.(waiting := [r] + t.waiting)
  }

  /** A read that has just arrived is filled from what is left, or put on hold behind the others. */
  function Dispatched(t: Turn, r: Request): Turn {
    if t.held != [] then Turn(t.replies + [Filled(r, t.held)], t.waiting, t.held[Min(|t.held|, r.length)..])
    else t.(waiting := t.waiting + [r])
  }

  /** The reads of one unit, or those of all others. */
  function Of(rs: seq<Request>, u: nat, own: bool): seq<Request> {
    if rs == [] then [] else (if (rs[0].unit == u) == own then [rs[0]] else []) + Of(rs[1..], u, own)
  }

  function Asked(rs: seq<Reply>): seq<Request> {
    if rs == [] then [] else [rs[0].request] + Asked(rs[1..])
  }

  function Data(rs: seq<Reply>): seq<Byte> {
    if rs == [] then [] else rs[0].data + Data(rs[1..])
  }

  /** First come, first served: the unit's reads are filled in the order in which they were put on hold, each with
      bytes if it asks for any, until no read or no byte is left; the bytes are those at hand, in order. No read of
      another unit is touched, and none is aborted. */
  lemma {:induction false} FirstComeFirstServed(waiting: seq<Request>, u: nat, held: seq<Byte>)
    ensures var t := Answered(waiting, u, held);
            && Of(waiting, u, true) == Asked(t.replies) + Of(t.waiting, u, true)
            && Of(waiting, u, false) == Of(t.waiting, u, false)
            && held == Data(t.replies) + t.held
            && (t.held == [] || Of(t.waiting, u, true) == [])
            && forall p <- t.replies :: !p.aborted && p.request.unit == u && |p.data| <= p.request.length
                                        && (p.request.length > 0 ==> p.data != [])
    decreases |waiting|
  {
    hide Answered, Of, Asked, Data;
    if waiting == [] {
      NothingAsked(u, held);
    } else {
      var r, more := waiting[0], waiting[1..];
      AnsweredStep(waiting, u, held);
      OfStep(waiting, u);
      if r.unit == u && held != [] {
        var rest := held[Min(|held|, r.length)..];
        FirstComeFirstServed(more, u, rest);
        AskedStep(Filled(r, held), Answered(more, u, rest).replies);
        ConcatAssociates([r], Asked(Answered(more, u, rest).replies), Of(Answered(more, u, rest).waiting, u, true));
        ConcatAssociates(held[..Min(|held|, r.length)], Data(Answered(more, u, rest).replies),
                         Answered(more, u, rest).held);
        assert held == held[..Min(|held|, r.length)] + rest;
      } else {
        FirstComeFirstServed(more, u, held);
        var t := Answered(more, u, held);
        OfStep([r] + t.waiting, u);
        assert ([r] + t.waiting)[1..] == t.waiting;
        if held == [] { NothingToServe(more, u); NothingAsked(u, held); }
      }
    }
  }

  lemma DispatchedAfter(sent: seq<Reply>, t: Turn, r: Request)
    ensures var all, last := Dispatched(t, r), Dispatched(Turn([], t.waiting, t.held), r);
            && all.waiting == last.waiting && all.held == last.held
            && sent + all.replies == sent + t.replies + last.replies
  {
  }

  lemma NothingAsked(u: nat, held: seq<Byte>)
    ensures Answered([], u, held) == Turn([], [], held) && Asked([]) == [] && Data([]) == []
    ensures forall own: bool :: Of([], u, own) == []
  {
  }

  lemma OfStep(rs: seq<Request>, u: nat)
    requires rs != []
    ensures forall own: bool ::
              Of(rs, u, own) == (if (rs[0].unit == u) == own then [rs[0]] else []) + Of(rs[1..], u, own)
  {
  }

  lemma AskedStep(p: Reply, rs: seq<Reply>)
    ensures Asked([p] + rs) == [p.request] + Asked(rs) && Data([p] + rs) == p.data + Data(rs)
  {
    assert ([p] + rs)[1..] == rs;
  }

  lemma AnsweredStep(waiting: seq<Request>, u: nat, held: seq<Byte>)
    requires waiting != []
    ensures var r, more := waiting[0], waiting[1..];
            Answered(waiting, u, held) ==
            if r.unit == u && held != [] then
              var t := Answered(more, u, held[Min(|held|, r.length)..]);
              Turn([Filled(r, held)] + t.replies, t.waiting, t.held)
            else
              var t := Answered(more, u, held);
              Turn(t.replies, [r] + t.waiting, t.held)
  {
  }

  /** Of what serving all reads makes, this much has come about and the rest is to come. */
  ghost predicate Ongoing(whole: Turn, sent: seq<Reply>, now: seq<Reply>, kept: seq<Request>, rest: Turn) {
    sent <= now && whole == Turn(now[|sent|..] + rest.replies, kept + rest.waiting, rest.held)
  }

  lemma OngoingBegins(whole: Turn, sent: seq<Reply>)
    ensures Ongoing(whole, sent, sent, [], whole)
  {
    assert sent[|sent|..] == [] && [] + whole.replies == whole.replies && [] + whole.waiting == whole.waiting;
  }

  lemma OngoingEnds(whole: Turn, sent: seq<Reply>, now: seq<Reply>, kept: seq<Request>, held: seq<Byte>)
    requires Ongoing(whole, sent, now, kept, Turn([], [], held))
    ensures now == sent + whole.replies && kept == whole.waiting && held == whole.held
  {
  }

  /** One read has been filled, or has stayed on hold. */
  lemma OngoingStep(whole: Turn, sent: seq<Reply>, now: seq<Reply>, kept: seq<Request>, w: seq<Request>, u: nat,
                    held: seq<Byte>)
    requires w != [] && Ongoing(whole, sent, now, kept, Answered(w, u, held))
    ensures if w[0].unit == u && held != [] then
              Ongoing(whole, sent, now + [Filled(w[0], held)], kept,
                      Answered(w[1..], u, held[Min(|held|, w[0].length)..]))
            else Ongoing(whole, sent, now, kept + [w[0]], Answered(w[1..], u, held))
  {
    hide Answered;
    AnsweredStep(w, u, held);
    var fill := now + [Filled(w[0], held)];
    assert fill[|sent|..] == now[|sent|..] + [Filled(w[0], held)];
    if w[0].unit == u && held != [] {
      var t := Answered(w[1..], u, held[Min(|held|, w[0].length)..]);
      ConcatAssociates(now[|sent|..], [Filled(w[0], held)], t.replies);
    } else {
      ConcatAssociates(kept, [w[0]], Answered(w[1..], u, held).waiting);
    }
  }

  lemma AnsweredNothing(u: nat, held: seq<Byte>)
    ensures Answered([], u, held) == Turn([], [], held)
  {
  }

  /** The next read is the same in the queue and in what the queue was. */
  lemma NextOf(s: seq<Request>, i: nat, w: seq<Request>, j: nat)
    requires i < |s| && j <= |w| && s[i..] == w[j..]
    ensures j < |w| && w[j..][0] == s[i] && w[j..][1..] == w[j + 1..] == s[i + 1..]
    ensures s[..i + 1] == s[..i] + [s[i]]
    ensures (s[..i] + s[i + 1..])[..i] == s[..i] && (s[..i] + s[i + 1..])[i..] == s[i + 1..]
  {
    assert |s[i..]| == |w[j..]|;
    assert w[j..][1..] == s[i..][1..];
  }

  lemma {:induction false} NothingToServe(waiting: seq<Request>, u: nat)
    ensures Answered(waiting, u, []) == Turn([], waiting, [])
  {
    if waiting != [] { NothingToServe(waiting[1..], u); }
  }

  lemma {:induction false} NoneToServe(waiting: seq<Request>, u: nat, held: seq<Byte>)
    requires forall r <- waiting :: r.unit != u
    ensures Answered(waiting, u, held) == Turn([], waiting, held)
  {
    if waiting != [] { NoneToServe(waiting[1..], u, held); }
  }

  /** The input of one unit: its fixed buffer, and pastes waiting to be moved there. */
  class Input {
    const buffer: array<Byte>
    var stored: nat
    var pastes: seq<seq<Byte>>
    var pastePos: nat
    /** All bytes that have entered the buffer, and all that have left it. */
    ghost var entered: seq<Byte>
    ghost var left: seq<Byte>

    ghost predicate Valid()
      reads this, buffer
    {
      && buffer.Length == INPUTBUF_SIZE && stored <= INPUTBUF_SIZE && entered == left + buffer[..stored]
      && (forall p <- pastes :: p != []) && (if pastes == [] then pastePos == 0 else pastePos < |pastes[0]|)
    }

    constructor ()
      ensures Valid() && fresh(buffer) && stored == 0 && pastes == [] && entered == [] && left == []
    {
      buffer := new Byte[INPUTBUF_SIZE](_ => 0);
      stored, pastes, pastePos, entered, left := 0, [], 0, [], [];
    }

    /** The bytes in the buffer. */
    ghost function Held(): (held: seq<Byte>)
      requires Valid()
      reads this, buffer
      ensures |held| == stored
    {
      buffer[..stored]
    }

    /** What the next move of a paste brings. */
    ghost function Piece(): seq<Byte>
      requires Valid()
      reads this, buffer
    {
      if pastes == [] then []
      else pastes[0][pastePos..pastePos + Min(|pastes[0]| - pastePos, INPUTBUF_SIZE - stored)]
    }

    /** All that has entered and all that is to be pasted. */
    ghost function Coming(): seq<Byte>
      requires Valid()
      reads this, buffer
    {
      entered + Pending()
    }

    /** Append what fits; the rest is lost. */
    method Put(bytes: seq<Byte>) returns (n: nat)
      requires Valid()
      modifies `stored, `entered, buffer
      ensures Valid() && n == Min(|bytes|, INPUTBUF_SIZE - old(stored)) && stored == old(stored) + n
      ensures entered == old(entered) + bytes[..n] && Held() == old(Held()) + bytes[..n]
    {
      n := Min(|bytes|, INPUTBUF_SIZE - stored);
      forall k | 0 <= k < n { buffer[stored + k] := bytes[k]; }
      stored := stored + n;
      entered := entered + bytes[..n];
      assert buffer[..stored] == old(buffer[..stored]) + bytes[..n];
    }

    /** Take at most `length` bytes from the front and move the rest up. */
    method Take(length: nat) returns (data: seq<Byte>)
      requires Valid()
      modifies `stored, `left, buffer
      ensures Valid() && entered == old(entered) && left == old(left) + data
      ensures Held() == old(Held())[Min(|old(Held())|, length)..]
      ensures |data| == Min(old(stored), length) && data == old(Held())[..Min(|old(Held())|, length)]
              && stored == old(stored) - |data|
    {
      var n := Min(stored, length);
      data := buffer[..n];
      ghost var held := buffer[..stored];
      if stored > length {
        stored := stored - n;
        var i := 0;
        while i < stored
          invariant 0 <= i <= stored && stored + n == |held| && left == old(left) && entered == old(entered)
          invariant forall k | 0 <= k < i :: buffer[k] == held[k + n]
          invariant forall k | i <= k < stored + n :: buffer[k] == held[k]
        {
          buffer[i] := buffer[i + n];
          i := i + 1;
        }
      } else {
        stored := 0;
      }
      left := left + data;
      assert held == data + buffer[..stored];
      ConcatAssociates(old(left), data, buffer[..stored]);
    }

    /** Move what fits of the first paste to the buffer. */
    method MovePaste() returns (n: nat)
      requires Valid()
      modifies `stored, `entered, `pastes, `pastePos, buffer
      ensures Valid() && entered + Pending() == old(entered + Pending())
      ensures Held() == old(Held()) + old(Piece())
      ensures stored == old(stored) + n && |Pending()| == |old(Pending())| - n
      ensures n == 0 <==> old(pastes) == [] || old(stored) == INPUTBUF_SIZE
    {
      if pastes == [] { return 0; }
      hide Unmoved;
      var rest := pastes[0][pastePos..];
      n := Put(rest);
      PendingMoves(pastes, pastePos, n);
      PendingTurns(pastes);
      ghost var after := Unmoved(pastes, pastePos + n);
      ConcatAssociates(old(entered), rest[..n], after);
      pastePos := pastePos + n;
      if pastePos >= |pastes[0]| {
        NoneEmpty(pastes);
        pastes, pastePos := pastes[1..], 0;
      }
      assert Pending() == after;
    }

    ghost function Count(): nat
      reads `pastes, `pastePos
    {
      if pastes == [] || pastePos > |pastes[0]| then 0 else |Pending()|
    }

    /** The bytes of the pastes that have not been moved yet. */
    ghost function Pending(): seq<Byte>
      requires pastes != [] ==> pastePos <= |pastes[0]|
      reads `pastes, `pastePos
    {
      Unmoved(pastes, pastePos)
    }
  }

  function All(pastes: seq<seq<Byte>>): seq<Byte> {
    if pastes == [] then [] else pastes[0] + All(pastes[1..])
  }

  function Unmoved(pastes: seq<seq<Byte>>, pos: nat): seq<Byte>
    requires pastes != [] ==> pos <= |pastes[0]|
  {
    if pastes == [] then [] else pastes[0][pos..] + All(pastes[1..])
  }

  lemma PendingMoves(pastes: seq<seq<Byte>>, pos: nat, n: nat)
    requires pastes != [] && pos + n <= |pastes[0]|
    ensures Unmoved(pastes, pos) == pastes[0][pos..][..n] + Unmoved(pastes, pos + n)
  {
    hide All;
    var p, rest := pastes[0], All(pastes[1..]);
    assert p[pos..] == p[pos..][..n] + p[pos + n..];
    assert p[pos..] + rest == p[pos..][..n] + (p[pos + n..] + rest);
  }

  lemma NoneEmpty(pastes: seq<seq<Byte>>)
    requires pastes != [] && forall p <- pastes :: p != []
    ensures forall p <- pastes[1..] :: p != []
    ensures |pastes| > 1 ==> pastes[1..][0] != []
  {
    forall k | 0 <= k < |pastes| - 1 ensures pastes[1..][k] != [] {
      assert pastes[k + 1] in pastes;
    }
  }

  lemma PendingTurns(pastes: seq<seq<Byte>>)
    requires pastes != []
    ensures Unmoved(pastes, |pastes[0]|) == Unmoved(pastes[1..], 0)
  {
    var p, rest := pastes[0], All(pastes[1..]);
    assert p[|p|..] == [] && [] + rest == rest;
    if |pastes| > 1 { assert pastes[1][0..] == pastes[1]; }
  }

  function Ids(rs: seq<Request>): seq<nat> {
    seq(|rs|, k requires 0 <= k < |rs| => rs[k].id)
  }

  function RepliedIds(rs: seq<Reply>): seq<nat> {
    seq(|rs|, k requires 0 <= k < |rs| => rs[k].request.id)
  }

  /** The device: its units, the port where new reads arrive, the reads on hold, and the replies sent. */
  class Device {
    const units: seq<Input>
    var port: seq<Request>
    var waiting: seq<Request>
    ghost var submitted: multiset<nat>
    ghost var replies: seq<Reply>
    /** The reads that callers have asked to abort. */
    ghost var cancelled: set<nat>

    /** Only a read that was to be aborted gets no data though it asks for some. */
    ghost predicate Honest()
      reads `replies, `cancelled
    {
      forall p <- replies :: if p.aborted then p.request.id in cancelled else p.request.length > 0 ==> p.data != []
    }

    ghost predicate Apart()
    {
      forall i, j | 0 <= i < j < |units| :: units[i] != units[j] && units[i].buffer != units[j].buffer
    }

    ghost function Buffers(): set<array<Byte>> {
      set u <- units :: u.buffer
    }

    ghost predicate UnitsValid()
      reads `replies, units, Buffers()
    {
      forall u | 0 <= u < |units| :: units[u].Valid() && units[u].left == Delivered(replies, u)
    }

    /** Every read submitted is in just one place: at the port, on hold, or replied to. */
    ghost predicate Accounted()
      reads `port, `waiting, `replies, `submitted
    {
      multiset(Ids(port)) + multiset(Ids(waiting)) + multiset(RepliedIds(replies)) == submitted
    }

    /** No read is on hold while its unit has bytes for it, but perhaps those of unit `u` in the middle of a step. */
    ghost predicate Served(u: nat)
      reads `waiting, units
    {
      forall r <- waiting :: r.unit < |units| && (r.unit != u ==> units[r.unit].stored == 0)
    }

    /** What every step keeps. */
    ghost predicate Valid()
      reads this, units, Buffers()
    {
      && Apart() && UnitsValid() && Accounted() && Served(|units|) && (forall r <- port :: r.unit < |units|)
      && Honest()
    }

    constructor (inputs: seq<Input>)
      requires forall i, j | 0 <= i < j < |inputs| :: inputs[i] != inputs[j] && inputs[i].buffer != inputs[j].buffer
      requires forall u <- inputs :: u.Valid() && u.left == []
      ensures Valid() && units == inputs && submitted == multiset{} && replies == [] && cancelled == {}
    {
      units, port, waiting := inputs, [], [];
      submitted, replies, cancelled := multiset{}, [], {};
    }

    /** Fill a read from its unit's buffer and reply to it. */
    method Answer(r: Request) returns (ghost data: seq<Byte>)
      requires Apart() && UnitsValid() && r.unit < |units|
      modifies `replies, units[r.unit], units[r.unit].buffer
      ensures UnitsValid() && replies == old(replies) + [Reply(r, false, data)]
      ensures units[r.unit].Valid() && Reply(r, false, data) == Filled(r, old(units[r.unit].Held()))
      ensures units[r.unit].Held() == old(units[r.unit].Held())[Min(|old(units[r.unit].Held())|, r.length)..]
      ensures var u := units[r.unit];
              && u.entered == old(u.entered) && u.pastes == old(u.pastes) && u.pastePos == old(u.pastePos)
              && |data| == Min(old(u.stored), r.length) && u.stored == old(u.stored) - |data|
    {
      assert units[r.unit].Valid();
      hide Input.Valid, Delivered, Input.Held;
      var taken := units[r.unit].Take(r.length);
      data := taken;
      Deliver(r.unit, Reply(r, false, data));
    }

    /** The data has left the unit's buffer. */
    method Deliver(unit: nat, ghost reply: Reply)
      requires unit < |units| && reply.request.unit == unit
      requires forall u | 0 <= u < |units| ::
                 units[u].Valid() && units[u].left == Delivered(replies, u) + if u == unit then reply.data else []
      modifies `replies
      ensures UnitsValid() && replies == old(replies) + [reply]
    {
      hide Input.Valid, Delivered;
      forall u: nat | u < |units| ensures units[u].left == Delivered(replies + [reply], u) {
        DeliveredMore(replies, reply, u);
        assert Delivered(replies, u) + [] == Delivered(replies, u);
      }
      replies := replies + [reply];
    }

    lemma IdsParted(rs: seq<Request>, i: nat)
      requires i < |rs|
      ensures multiset(Ids(rs)) == multiset(Ids(rs[..i] + rs[i + 1..])) + multiset{rs[i].id}
    {
      assert Ids(rs) == Ids(rs[..i]) + [rs[i].id] + Ids(rs[i + 1..]);
      assert Ids(rs[..i] + rs[i + 1..]) == Ids(rs[..i]) + Ids(rs[i + 1..]);
    }

    lemma RepliedMore(rs: seq<Reply>, r: Reply)
      ensures multiset(RepliedIds(rs + [r])) == multiset(RepliedIds(rs)) + multiset{r.request.id}
    {
      assert RepliedIds(rs + [r]) == RepliedIds(rs) + [r.request.id];
    }

    lemma IdsMore(rs: seq<Request>, r: Request)
      ensures multiset(Ids(rs + [r])) == multiset(Ids(rs)) + multiset{r.id}
    {
      assert Ids(rs + [r]) == Ids(rs) + [r.id];
    }

    /** Fill the `i`-th read on hold and take it from the queue. */
    method ServeAt(i: nat)
      requires Apart() && UnitsValid() && Accounted() && Honest() && i < |waiting|
      requires waiting[i].unit < |units| && units[waiting[i].unit].stored != 0
      modifies `waiting, `replies, units[waiting[i].unit], units[waiting[i].unit].buffer
      ensures UnitsValid() && Accounted() && Honest() && waiting == old(waiting)[..i] + old(waiting)[i + 1..]
      ensures var u := units[old(waiting)[i].unit];
              && u.Valid() && replies == old(replies) + [Filled(old(waiting)[i], old(u.Held()))]
              && u.Held() == old(u.Held())[Min(|old(u.Held())|, old(waiting)[i].length)..]
              && u.entered == old(u.entered) && u.pastes == old(u.pastes) && u.pastePos == old(u.pastePos)
              && u.stored <= old(u.stored)
    {
      hide Input.Valid, Delivered, Ids, RepliedIds;
      var r := waiting[i];
      Removed(waiting, i);
      ghost var before := replies;
      waiting := waiting[..i] + waiting[i + 1..];
      ghost var data := Answer(r);
      RepliedMore(before, Reply(r, false, data));
    }

    /** Serve the reads on hold for unit `u`, in order, while it has bytes. */
    method AnswerRequests(u: nat)
      requires Apart() && UnitsValid() && Accounted() && Served(u) && Honest() && u < |units| && units[u].Valid()
      modifies `waiting, `replies, units[u], units[u].buffer
      ensures UnitsValid() && Accounted() && Served(|units|) && Honest()
      ensures units[u].Valid()
      ensures var t := Answered(old(waiting), u, old(units[u].Held()));
              replies == old(replies) + t.replies && waiting == t.waiting && units[u].Held() == t.held
      ensures units[u].entered == old(units[u].entered)
      ensures units[u].pastes == old(units[u].pastes) && units[u].pastePos == old(units[u].pastePos)
    {
      hide Input.Valid, Delivered, Ids, RepliedIds, Answered, Input.Held, UnitsValid, Accounted, Honest, Ongoing,
           Filled;
      ghost var w, sent := waiting, replies;
      ghost var whole := Answered(w, u, units[u].Held());
      ghost var j := 0;
      var i := 0;
      OngoingBegins(whole, sent);
      assert w[0..] == w && waiting[..0] == [];
      while i < |waiting|
        invariant 0 <= i <= |waiting| && UnitsValid() && Accounted() && Served(u) && Honest() && units[u].Valid()
        invariant units[u].stored > 0 ==> forall k | 0 <= k < i :: waiting[k].unit != u
        invariant j <= |w| && waiting[i..] == w[j..]
        invariant Ongoing(whole, sent, replies, waiting[..i], Answered(w[j..], u, units[u].Held()))
        invariant units[u].entered == old(units[u].entered)
        invariant units[u].pastes == old(units[u].pastes) && units[u].pastePos == old(units[u].pastePos)
        decreases |waiting| - i
      {
        NextOf(waiting, i, w, j);
        OngoingStep(whole, sent, replies, waiting[..i], w[j..], u, units[u].Held());
        if waiting[i].unit == u && units[u].stored != 0 {
          ServeAt(i);
        } else {
          i := i + 1;
        }
        j := j + 1;
      }
      AnsweredNothing(u, units[u].Held());
      assert w[j..] == [] && waiting[..i] == waiting;
      OngoingEnds(whole, sent, replies, waiting, units[u].Held());
    }

    /** Move paste bytes to the buffer of unit `u` and serve its reads. */
    method PasteData(u: nat) returns (n: nat)
      requires Valid() && u < |units|
      modifies `waiting, `replies, units[u], units[u].buffer
      ensures Valid() && units[u].Valid() && old(units[u].Valid())
      ensures var t := Answered(old(waiting), u, old(units[u].Held() + units[u].Piece()));
              replies == old(replies) + t.replies && waiting == t.waiting && units[u].Held() == t.held
      ensures if old(units[u].pastes) == [] || old(units[u].stored) == INPUTBUF_SIZE then n == 0 else n > 0
      ensures units[u].Count() == old(units[u].Count()) - n
      ensures n == 0 && old(units[u].stored) == 0 ==> waiting == old(waiting) && units[u].pastes == []
      ensures units[u].Coming() == old(units[u].Coming())
    {
      hide Delivered, Accounted;
      assert units[u].Valid();
      if units[u].pastes == [] {
        QuietNow(u);
        assert units[u].Held() + [] == units[u].Held();
        return 0;
      }
      n := units[u].MovePaste();
      AnswerRequests(u);
    }

    /** Between steps there is no read to be served. */
    lemma QuietNow(u: nat)
      requires Valid() && u < |units| && units[u].Valid()
      ensures Answered(waiting, u, units[u].Held()) == Turn([], waiting, units[u].Held())
    {
      if units[u].stored == 0 {
        NothingToServe(waiting, u);
      } else {
        NoneToServe(waiting, u, units[u].Held());
      }
    }

    /** A caller submits a read: it joins the port. */
    method Submit(r: Request)
      requires Valid() && r.unit < |units|
      modifies `port, `submitted
      ensures Valid() && submitted == old(submitted) + multiset{r.id} && port == old(port) + [r]
    {
      hide Input.Valid, Delivered, Ids, RepliedIds;
      IdsMore(port, r);
      port, submitted := port + [r], submitted + multiset{r.id};
    }

    /** A read taken from the port is served, or put on hold behind the others. */
    method Dispatch(r: Request)
      requires AllBut(r) && r.unit < |units| && units[r.unit].Valid()
      modifies `waiting, `replies, units[r.unit], units[r.unit].buffer
      ensures Valid() && units[r.unit].Valid()
      ensures var t := Dispatched(Turn([], old(waiting), old(units[r.unit].Held())), r);
              replies == old(replies) + t.replies && waiting == t.waiting && units[r.unit].Held() == t.held
      ensures units[r.unit].Coming() == old(units[r.unit].Coming())
    {
      hide Delivered, Ids, RepliedIds, Input.Valid, Input.Held, AllBut, Valid, Input.Coming;
      if units[r.unit].stored != 0 {
        FillNow(r);
      } else {
        Hold(r);
        assert old(replies) + [] == replies;
      }
    }

    method FillNow(r: Request)
      requires AllBut(r) && r.unit < |units| && units[r.unit].Valid() && units[r.unit].stored != 0
      modifies `replies, units[r.unit], units[r.unit].buffer
      ensures Valid() && units[r.unit].Valid() && replies == old(replies) + [Filled(r, old(units[r.unit].Held()))]
      ensures units[r.unit].Held() == old(units[r.unit].Held())[Min(|old(units[r.unit].Held())|, r.length)..]
      ensures units[r.unit].Coming() == old(units[r.unit].Coming())
    {
      hide Delivered, Ids, RepliedIds, Input.Valid, Input.Held;
      ghost var before := replies;
      ghost var data := Answer(r);
      RepliedMore(before, Reply(r, false, data));
    }

    method Hold(r: Request)
      requires AllBut(r) && r.unit < |units| && units[r.unit].stored == 0
      modifies `waiting
      ensures Valid() && waiting == old(waiting) + [r]
    {
      hide Delivered, Ids, RepliedIds, Input.Valid;
      IdsMore(waiting, r);
      waiting := waiting + [r];
    }

    /** The first read at the port is taken from it. */
    method Collect() returns (r: Request)
      requires Valid() && port != []
      modifies `port
      ensures r == old(port)[0] && port == old(port)[1..] && r.unit < |units| && AllBut(r)
    {
      hide Delivered, Ids, RepliedIds, Input.Valid;
      r := TakePort(0);
      assert old(port)[..0] + old(port)[1..] == old(port)[1..];
    }

    /** The task takes one read from the port: pastes are moved first, for the reads on hold before this one. Then it is
        filled with the first of the bytes that are left, or put on hold when there are none. */
    method Serve()
      requires Valid() && port != []
      modifies `port, `waiting, `replies, units[port[0].unit], units[port[0].unit].buffer
      ensures Valid() && port == old(port)[1..] && submitted == old(submitted)
      ensures var r := old(port)[0];
              && r.unit < |units| && units[r.unit].Valid() && old(units[r.unit].Valid())
              && var held := old(units[r.unit].Held() + units[r.unit].Piece());
                 var t := Dispatched(Answered(old(waiting), r.unit, held), r);
                 replies == old(replies) + t.replies && waiting == t.waiting && units[r.unit].Held() == t.held
      ensures var u := units[old(port)[0].unit]; u.Coming() == old(u.Coming())
    {
      assert port[0] in port && units[port[0].unit].Valid();
      hide Delivered, Ids, RepliedIds, Input.Valid, UnitsValid, Served, Accounted, Honest, Input.Held, Input.Piece,
           Answered, Dispatched, Apart, Valid, Input.Coming;
      ghost var u := port[0].unit;
      ghost var sent, t := replies, Answered(waiting, u, units[u].Held() + units[u].Piece());
      var n := PasteData(port[0].unit);
      var r := Collect();
      Dispatch(r);
      DispatchedAfter(sent, t, r);
    }

    /** Bytes for unit `u` from the keyboard, the mouse or a report; what does not fit is lost. */
    method Enter(u: nat, bytes: seq<Byte>) returns (n: nat)
      requires Valid() && u < |units|
      modifies `waiting, `replies, units[u], units[u].buffer
      ensures Valid() && units[u].Valid() && old(units[u].Valid()) && n <= |bytes|
      ensures var t := Answered(old(waiting), u, old(units[u].Held()) + bytes[..n]);
              replies == old(replies) + t.replies && waiting == t.waiting && units[u].Held() == t.held
      ensures units[u].pastes == old(units[u].pastes) && units[u].pastePos == old(units[u].pastePos)
      ensures units[u].entered == old(units[u].entered) + bytes[..n]
              && n == Min(|bytes|, INPUTBUF_SIZE - old(units[u].stored))
    {
      hide Delivered, Accounted;
      n := units[u].Put(bytes);
      AnswerRequests(u);
    }

    /** Bytes to be pasted, between markers and without the bytes that could end them when the reader asked for that. */
    method QueueData(u: nat, data: seq<Byte>, bracketed: bool, storage: bool)
      requires Valid() && u < |units|
      modifies units[u]
      ensures units[u].stored == old(units[u].stored) && units[u].pastePos == old(units[u].pastePos)
      ensures units[u].entered == old(units[u].entered) && units[u].left == old(units[u].left)
      ensures Valid() && units[u].pastes == old(units[u].pastes) + if storage && PasteOf(data, bracketed) != []
              then [PasteOf(data, bracketed)] else []
    {
      hide Delivered, Accounted, PasteOf;
      var paste := PasteOf(data, bracketed);
      if paste != [] && storage { units[u].pastes := units[u].pastes + [paste]; }
    }

    /** Where a read is in a queue. */
    static method Find(queue: seq<Request>, id: nat) returns (i: nat)
      ensures i <= |queue| && (i < |queue| <==> id in Ids(queue)) && (i < |queue| ==> queue[i].id == id)
    {
      i := 0;
      while i < |queue|
        invariant 0 <= i <= |queue| && forall k | 0 <= k < i :: queue[k].id != id
      {
        if queue[i].id == id {
          assert Ids(queue)[i] == id;
          return;
        }
        i := i + 1;
      }
    }

    /** Every read is accounted for but `r`, which has just been taken from its queue. */
    ghost predicate AllBut(r: Request)
      reads this, units, Buffers()
    {
      && Apart() && UnitsValid() && Served(|units|) && Honest() && (forall q <- port :: q.unit < |units|)
      && multiset(Ids(port)) + multiset(Ids(waiting)) + multiset(RepliedIds(replies)) + multiset{r.id} == submitted
    }

    method Reject(r: Request)
      requires AllBut(r) && r.id in cancelled
      modifies `replies
      ensures Valid() && replies == old(replies) + [Reply(r, true, [])]
    {
      hide Delivered, Ids, RepliedIds, Input.Valid;
      AbortedOne(r);
      replies := replies + [Reply(r, true, [])];
    }

    /** A caller aborts a read: if it is at the port or on hold it is removed and replied to, else nothing is done. */
    method Abort(id: nat) returns (found: bool)
      requires Valid()
      modifies `port, `waiting, `replies, `cancelled
      ensures Valid() && cancelled == old(cancelled) + {id}
      ensures submitted == old(submitted) && (found <==> id in Ids(old(port)) || id in Ids(old(waiting)))
      ensures if found then exists r: Request :: r.id == id && replies == old(replies) + [Reply(r, true, [])]
              else replies == old(replies)
    {
      hide Valid, Ids;
      Cancel(id);
      found := AbortPort(id);
      if !found { found := AbortWaiting(id); }
    }

    method AbortPort(id: nat) returns (found: bool)
      requires Valid() && id in cancelled
      modifies `port, `replies
      ensures Valid() && (found <==> id in Ids(old(port))) && (!found ==> port == old(port) && replies == old(replies))
      ensures found ==> exists r: Request :: r.id == id && replies == old(replies) + [Reply(r, true, [])]
    {
      hide Delivered, Input.Valid, Ids, RepliedIds, AllBut;
      var i := Find(port, id);
      found := i < |port|;
      if found {
        var r := TakePort(i);
        Reject(r);
      }
    }

    method AbortWaiting(id: nat) returns (found: bool)
      requires Valid() && id in cancelled
      modifies `waiting, `replies
      ensures Valid() && (found <==> id in Ids(old(waiting)))
      ensures !found ==> waiting == old(waiting) && replies == old(replies)
      ensures found ==> exists r: Request :: r.id == id && replies == old(replies) + [Reply(r, true, [])]
    {
      hide Delivered, Input.Valid, Ids, RepliedIds, AllBut;
      var i := Find(waiting, id);
      found := i < |waiting|;
      if found {
        var r := TakeWaiting(i);
        Reject(r);
      }
    }

    method Cancel(id: nat)
      requires Valid()
      modifies `cancelled
      ensures Valid() && cancelled == old(cancelled) + {id}
    {
      hide Delivered, Input.Valid, Ids, RepliedIds;
      cancelled := cancelled + {id};
    }

    method TakePort(i: nat) returns (r: Request)
      requires Valid() && i < |port|
      modifies `port
      ensures r == old(port)[i] && port == old(port)[..i] + old(port)[i + 1..] && r.unit < |units| && AllBut(r)
    {
      hide Delivered, Ids, RepliedIds, Input.Valid;
      r := port[i];
      Removed(port, i);
      port := port[..i] + port[i + 1..];
    }

    method TakeWaiting(i: nat) returns (r: Request)
      requires Valid() && i < |waiting|
      modifies `waiting
      ensures r == old(waiting)[i] && waiting == old(waiting)[..i] + old(waiting)[i + 1..] && AllBut(r)
    {
      hide Delivered, Ids, RepliedIds, Input.Valid;
      r := waiting[i];
      Removed(waiting, i);
      waiting := waiting[..i] + waiting[i + 1..];
    }

    lemma Removed(rs: seq<Request>, i: nat)
      requires i < |rs|
      ensures multiset(Ids(rs)) == multiset(Ids(rs[..i] + rs[i + 1..])) + multiset{rs[i].id}
      ensures forall r <- rs[..i] + rs[i + 1..] :: r in rs
    {
      IdsParted(rs, i);
    }

    /** How many paste bytes each of the first `n` units still has. */
    ghost function Lengths(n: nat): (ns: seq<nat>)
      requires n <= |units|
      reads units
      ensures |ns| == n && forall k | 0 <= k < n :: ns[k] == units[k].Count()
    {
      if n == 0 then [] else Lengths(n - 1) + [units[n - 1].Count()]
    }

    lemma OnHold(r: Request)
      requires Valid() && r in waiting
      ensures r.unit < |units| && units[r.unit].stored == 0
    {
    }

    /** What has entered each unit and is to be pasted there. */
    ghost function Comings(): (cs: seq<seq<Byte>>)
      requires Valid()
      reads this, units, Buffers()
      ensures |cs| == |units| && forall u | 0 <= u < |units| :: units[u].Valid() && cs[u] == units[u].Coming()
    {
      seq(|units|, u requires 0 <= u < |units| && Valid() reads this, units, Buffers() => units[u].Coming())
    }

    /** No paste has been lost, doubled or reordered. */
    ghost predicate Conserved(before: seq<seq<Byte>>)
      reads units, Buffers()
    {
      |before| == |units| && forall u | 0 <= u < |units| :: units[u].Valid() && units[u].Coming() == before[u]
    }

    /** Move a paste of unit `u`: there is less to be pasted afterwards, unless nothing could be moved. */
    method PasteFor(u: nat) returns (n: nat)
      requires Valid() && u < |units| && units[u].stored == 0
      modifies `waiting, `replies, units[u], units[u].buffer
      ensures Valid() && old(replies) <= replies && Conserved(old(Comings()))
      ensures n == 0 ==> Lengths(|units|) == old(Lengths(|units|)) && waiting == old(waiting) && units[u].pastes == []
      ensures n == 0 ==> forall v | 0 <= v < |units| :: units[v].pastes == old(units[v].pastes)
      ensures n > 0 ==> Sum(Lengths(|units|)) < old(Sum(Lengths(|units|)))
    {
      hide Delivered, Ids, RepliedIds, Input.Valid, Accounted, Lengths, Sum, Input.Count, Honest, Answered,
           Input.Held, Input.Piece, Input.Coming;
      ghost var before := Lengths(|units|);
      n := PasteData(u);
      if n > 0 {
        SumLess(before, Lengths(|units|), u);
      } else {
        assert Lengths(|units|) == before;
      }
    }

    /** Move a paste for the first read on hold that can use one. */
    method PasteOnce() returns (active: bool)
      requires Valid()
      modifies `waiting, `replies, units, Buffers()
      ensures Valid() && old(replies) <= replies && Conserved(old(Comings()))
      ensures active ==> Sum(Lengths(|units|)) < old(Sum(Lengths(|units|)))
      ensures !active ==> forall r <- waiting :: r.unit < |units| && units[r.unit].pastes == []
    {
      hide Delivered, Ids, RepliedIds, Input.Valid, Accounted, UnitsValid, Lengths, Sum, Input.Count, Honest,
           Answered, Input.Held, Input.Piece, Input.Coming;
      ghost var before := Comings();
      var i := 0;
      while i < |waiting|
        invariant 0 <= i <= |waiting| && Valid() && old(replies) <= replies && Comings() == before
        invariant Lengths(|units|) == old(Lengths(|units|)) && waiting == old(waiting)
        invariant forall k | 0 <= k < i :: waiting[k].unit < |units| && units[waiting[k].unit].pastes == []
      {
        assert waiting[i] in waiting;
        OnHold(waiting[i]);
        var n := PasteFor(waiting[i].unit);
        if n > 0 { return true; }
        assert Comings() == before;
        i := i + 1;
      }
      active := false;
    }

    /** The task has been told of pastes: they are moved as long as some read on hold can use them. */
    method PollPastes()
      requires Valid()
      modifies `waiting, `replies, units, Buffers()
      ensures Valid() && old(replies) <= replies && Conserved(old(Comings()))
      ensures forall r <- waiting :: r.unit < |units| && units[r.unit].pastes == []
    {
      hide Valid, Lengths, Sum;
      var active := true;
      while active
        invariant Valid() && old(replies) <= replies && Conserved(old(Comings()))
        invariant !active ==> forall r <- waiting :: r.unit < |units| && units[r.unit].pastes == []
        decreases active, Sum(Lengths(|units|))
      {
        active := PasteOnce();
      }
    }

    /** Replying to an aborted read delivers nothing. */
    lemma AbortedOne(r: Request)
      ensures multiset(RepliedIds(replies + [Reply(r, true, [])])) == multiset(RepliedIds(replies)) + multiset{r.id}
      ensures forall u: nat :: Delivered(replies + [Reply(r, true, [])], u) == Delivered(replies, u)
    {
      RepliedMore(replies, Reply(r, true, []));
      forall u: nat ensures Delivered(replies + [Reply(r, true, [])], u) == Delivered(replies, u) {
        DeliveredMore(replies, Reply(r, true, []), u);
      }
    }
  }

  /** The bytes pasted for some data: bracketed pastes carry markers, and neither escape nor interrupt inside. */
  function PasteOf(data: seq<Byte>, bracketed: bool): seq<Byte> {
    if bracketed then [27, 91, 50, 48, 48, 126] + Harmless(data) + [27, 91, 50, 48, 49, 126] else data
  }

  function Harmless(data: seq<Byte>): (r: seq<Byte>)
    ensures 27 !in r && 3 !in r
  {
    if data == [] then []
    else (if data[0] != 27 && data[0] != 3 then [data[0]] else []) + Harmless(data[1..])
  }

  /** Harmless bytes stay, in order, and the others go: each piece of the data by itself. */
  lemma {:induction false} HarmlessParts(a: seq<Byte>, b: seq<Byte>)
    ensures Harmless(a + b) == Harmless(a) + Harmless(b)
    decreases |a|
  {
    if a == [] {
      assert a + b == b;
    } else {
      HarmlessParts(a[1..], b);
      var first := if a[0] != 27 && a[0] != 3 then [a[0]] else [];
      assert (a + b)[0] == a[0] && (a + b)[1..] == a[1..] + b;
      assert Harmless(a + b) == first + Harmless(a[1..] + b) && Harmless(a) == first + Harmless(a[1..]);
      hide Harmless;
      ConcatAssociates(first, Harmless(a[1..]), Harmless(b));
    }
  }

  lemma HarmlessOne(b: Byte)
    ensures Harmless([b]) == if b == 27 || b == 3 then [] else [b]
  {
    assert [b][1..] == [];
  }

  function Sum(ns: seq<nat>): nat {
    if ns == [] then 0 else Sum(ns[..|ns| - 1]) + ns[|ns| - 1]
  }

  lemma {:induction false} SumLess(a: seq<nat>, b: seq<nat>, u: nat)
    requires |a| == |b| && u < |a| && b[u] < a[u] && forall k | 0 <= k < |a| && k != u :: b[k] == a[k]
    ensures Sum(b) < Sum(a)
    decreases |a|
  {
    var n := |a| - 1;
    if u < n { SumLess(a[..n], b[..n], u); } else { assert a[..n] == b[..n]; }
  }
}
