/** Synchronized output: bytes held back between a begin and an end marker, until a timeout or a full buffer. */
module SyncOutput {
  import opened Common

  const SYNC_MAX: nat := 0x200000
  const LENGTH_MAX: nat := 0x7fffffff

  /** ESC [ ? 2026 h begins a synchronized update, ESC [ ? 2026 l ends it. */
  const BEGIN: seq<Byte> := [27, 91, 63, 50, 48, 50, 54, 104]
  const END: seq<Byte> := [27, 91, 63, 50, 48, 50, 54, 108]

  /** What the parser does with the bytes it is given: how many it takes, whether the last ones taken begin a
      synchronized update, and whether it fails. */
  datatype Parsing = Parsing(used: nat, begins: bool, fails: bool)

  /** The bytes end with a marker. */
  predicate EndsIn(s: seq<Byte>, mark: seq<Byte>) {
    |s| >= |mark| && s[|s| - |mark|..] == mark
  }

  /** The sizes that doubling from one page reaches. */
  predicate Sized(capacity: nat) {
    capacity in {0, 0x1000, 0x2000, 0x4000, 0x8000, 0x10000, 0x20000, 0x40000, 0x80000, 0x100000, 0x200000}
  }

  class Unit {
    /** The behaviour of the parser and of allocation, call by call. */
    const parser: nat -> Parsing
    const storage: nat -> bool
    /** Bytes of an unfinished control sequence that the parser keeps. */
    const stash: nat
    var parses: nat
    var requests: nat
    /** The buffer exists once synchronized output has been used. */
    var present: bool
    var bytes: array<Byte>
    var length: nat
    var active: bool
    var replay: bool
    var pending: bool
    /** All bytes the parser has taken, and all bytes writers have handed over, in order. */
    ghost var parsed: seq<Byte>
    ghost var accepted: seq<Byte>

    /** Between calls no byte is lost, duplicated or out of order: what was parsed, then what is held back, is what was
        accepted. */
    ghost predicate Valid()
      reads this, bytes
    {
      && length <= bytes.Length && Sized(bytes.Length) && bytes.Length <= SYNC_MAX
      && !replay && (active <==> pending) && (active ==> present) && (!active ==> length == 0)
      && parsed + bytes[..length] == accepted
    }

    /** What is held back. */
    ghost function Held(): seq<Byte>
      requires Valid()
      reads this, bytes
    {
      bytes[..length]
    }

    /** All of `whole` has been handed to the parser in one call: what it took is parsed, the rest is held back, and
        holding back is over when nothing is left. */
    ghost predicate Flushed(whole: seq<Byte>, parses0: nat, parsed0: seq<Byte>)
      requires Valid()
      reads this, bytes
    {
      var n := Min(parser(parses0).used, |whole|);
      parses == parses0 + 1 && parsed == parsed0 + whole[..n] && Held() == whole[n..] && active == (n < |whole|)
    }

    constructor (parser: nat -> Parsing, storage: nat -> bool, stash: nat)
      requires stash <= LENGTH_MAX
      ensures Valid() && !active && accepted == [] && fresh(bytes)
    {
      this.parser, this.storage, this.stash := parser, storage, stash;
      parses, requests, present, length, active, replay, pending := 0, 0, false, 0, false, false, false;
      bytes := new Byte[0];
      parsed, accepted := [], [];
    }

    /** Hand bytes to the parser. Held-back output is not begun again while it is replayed. */
    method Parse(input: seq<Byte>) returns (used: nat, begins: bool, fails: bool)
      modifies `parses, `parsed
      ensures var p := parser(old(parses));
              used == Min(p.used, |input|) && begins == (p.begins && used > 0) && fails == p.fails
      ensures parses == old(parses) + 1 && parsed == old(parsed) + input[..used]
    {
      var p := parser(parses);
      parses := parses + 1;
      used := Min(p.used, |input|);
      begins, fails := p.begins && used > 0, p.fails;
      parsed := parsed + input[..used];
    }

    method Allocate() returns (ok: bool)
      modifies `requests
      ensures ok == storage(old(requests)) && requests == old(requests) + 1
    {
      ok := storage(requests);
      requests := requests + 1;
    }

    method Cancel()
      modifies `pending
      ensures !pending
    {
      pending := false;
    }

    method Arm()
      modifies `pending
      ensures pending
    {
      Cancel();
      pending := true;
    }

    /** Replay what has been held back; what the parser does not take stays at the front of the buffer. */
    method Flush() returns (all: bool)
      requires Valid() && active
      modifies `pending, `replay, `parses, `parsed, `length, `active, bytes
      ensures Valid() && accepted == old(accepted) && all == !active
      ensures Flushed(old(Held()), old(parses), old(parsed))
    {
      hide Sized;
      Cancel();
      replay := true;
      ghost var held := bytes[..length];
      var used, begins, fails := Parse(bytes[..length]);
      replay := false;
      if used < length {
        Keep(used);
        Arm();
        return false;
      }
      length, active := 0, false;
      all := true;
    }

    /** Move what the parser has not taken to the front. */
    method Keep(used: nat)
      requires used < length <= bytes.Length
      modifies `length, bytes
      ensures length == old(length) - used && bytes[..length] == old(bytes[..length])[used..]
    {
      ghost var held := bytes[..length];
      forall k | 0 <= k < length - used { bytes[k] := bytes[used + k]; }
      length := length - used;
      assert bytes[..length] == held[used..];
    }

    /** Begin or end holding output back. Beginning fails quietly when there is no storage. */
    method Set(enabled: bool)
      requires Valid()
      modifies `present, `active, `pending, `replay, `requests, `parses, `parsed, `length, bytes
      ensures Valid() && accepted == old(accepted)
      ensures enabled ==>
                && active == present == (old(present) || storage(old(requests)))
                && parses == old(parses) && parsed == old(parsed) && Held() == old(Held())
      ensures !enabled && old(active) ==> Flushed(old(Held()), old(parses), old(parsed))
      ensures !enabled && !old(active) ==> !active && parses == old(parses) && parsed == old(parsed)
      ensures !enabled && !active ==> parsed == accepted
    {
      if !enabled {
        if present && active { var all := Flush(); }
        EmptyBuffer();
        return;
      }
      if !present {
        var ok := Allocate();
        if !ok { return; }
        present := true;
      }
      active := true;
      Arm();
    }

    lemma EmptyBuffer()
      requires Valid()
      ensures !active ==> parsed == accepted
    {
      assert !active ==> parsed + [] == parsed;
    }

    /** The task looks at its timers: an expired one ends the synchronized update. */
    method Poll(expired: bool)
      requires Valid()
      modifies `active, `pending, `replay, `parses, `parsed, `length, bytes
      ensures Valid() && accepted == old(accepted)
      ensures !expired || !old(active) ==>
                active == old(active) && parses == old(parses) && parsed == old(parsed) && Held() == old(Held())
      ensures expired && old(active) ==> Flushed(old(Held()), old(parses), old(parsed))
      ensures expired && !active ==> parsed == accepted
    {
      if present && active && pending && expired { var all := Flush(); }
      EmptyBuffer();
    }

    /** Room for one more byte: a buffer of twice the size when this one is full. */
    method Grow() returns (ok: bool)
      requires Valid() && active && length < SYNC_MAX
      modifies `bytes, `requests
      ensures Valid() && bytes[..length] == old(bytes[..length]) && (ok ==> length < bytes.Length)
      ensures bytes == old(bytes) || fresh(bytes)
      ensures !ok ==> !storage(old(requests)) && old(requests) < requests
      ensures old(requests) <= requests
    {
      if length < bytes.Length { return true; }
      var capacity := if bytes.Length > 0 then bytes.Length * 2 else 0x1000;
      ok := Allocate();
      if !ok { return; }
      var buffer := new Byte[capacity](_ => 0);
      forall k | 0 <= k < length { buffer[k] := bytes[k]; }
      assert buffer[..length] == bytes[..length];
      bytes := buffer;
    }

    /** The last eight bytes held back. */
    function Tail(): seq<Byte>
      requires 8 <= length <= bytes.Length
      reads `bytes, `length, bytes
    {
      bytes[length - 8..length]
    }

    /** Hold one byte back. */
    method Store(b: Byte)
      requires Valid() && active && length < bytes.Length
      modifies `length, `accepted, bytes
      ensures Valid() && length == old(length) + 1 && accepted == old(accepted) + [b]
              && bytes[..length] == old(bytes[..length]) + [b]
    {
      bytes[length] := b;
      length := length + 1;
      accepted := accepted + [b];
      assert bytes[..length] == old(bytes[..length]) + [b];
      assert parsed + (old(bytes[..length]) + [b]) == parsed + old(bytes[..length]) + [b];
    }

    /** An end marker at the end of what is held flushes it, a begin marker extends the wait. */
    method Recognise() returns (over: bool)
      requires Valid() && active
      modifies `length, `pending, `replay, `parses, `parsed, `active, bytes
      ensures Valid() && accepted == old(accepted) && bytes == old(bytes)
      ensures over == EndsIn(old(Held()), END)
      ensures !over ==> active && parses == old(parses) && parsed == old(parsed) && Held() == old(Held())
      ensures over ==> Flushed(old(Held()), old(parses), old(parsed))
    {
      hide Sized;
      over := false;
      if length >= 8 {
        assert Tail() == Held()[|Held()| - 8..];
        if Tail() == END {
          var all := Flush();
          return true;
        }
        if Tail() == BEGIN { Arm(); }
      }
    }

    /** Hold one byte back if there is room; a full buffer, a failed allocation or an end marker flushes what is
        held. */
    method HoldBack(b: Byte) returns (took: bool, over: bool)
      requires Valid() && active
      modifies `bytes, `length, `accepted, `pending, `replay, `parses, `parsed, `active, `requests, bytes
      ensures Valid() && (took || over) && old(requests) <= requests
      ensures accepted == if took then old(accepted) + [b] else old(accepted)
      ensures took ==> over == EndsIn(old(Held()) + [b], END)
      ensures !over ==> active && parses == old(parses) && parsed == old(parsed) && Held() == old(Held()) + [b]
      ensures over ==> Flushed(old(Held()) + (if took then [b] else []), old(parses), old(parsed))
      ensures !took ==> old(length) == SYNC_MAX || (!storage(old(requests)) && old(requests) < requests)
      ensures bytes == old(bytes) || fresh(bytes)
    {
      hide Sized;
      var room := length < SYNC_MAX;
      if room { room := Grow(); }
      if !room {
        assert Held() + [] == Held();
        var all := Flush();
        return false, true;
      }
      Store(b);
      over := Recognise();
      took := true;
    }

    /** Why holding back is broken off after `used` bytes: an end marker, a full buffer, or no storage for more. */
    ghost predicate BrokenOff(held: seq<Byte>, input: seq<Byte>, used: nat, requests0: nat)
      reads `requests
    {
      || (0 < used <= |input| && EndsIn(held + input[..used], END))
      || (used < |input| && |held| + used == SYNC_MAX)
      || exists k: nat | requests0 <= k < requests :: !storage(k)
    }

    /** Hold bytes back until an end marker, the end of the input, a full buffer or a failed allocation. Unless it is
        the end of the input, what is held is then handed to the parser. */
    method Feed(input: seq<Byte>) returns (used: nat, fails: bool)
      requires Valid() && active
      modifies this, bytes
      ensures Valid() && used <= |input| && accepted == old(accepted) + input[..used] && old(requests) <= requests
      ensures forall n | 0 < n < used :: !EndsIn(old(Held()) + input[..n], END)
      ensures parses == old(parses) ==>
                && used == |input| && active && !fails && parsed == old(parsed) && Held() == old(Held()) + input
                && (input != [] ==> !EndsIn(old(Held()) + input, END))
      ensures parses != old(parses) ==>
                && Flushed(old(Held()) + input[..used], old(parses), old(parsed)) && fails == active
                && BrokenOff(old(Held()), input, used, old(requests))
      ensures bytes == old(bytes) || fresh(bytes)
    {
      hide Sized, Flushed, EndsIn;
      used, fails := 0, false;
      assert input[..0] == [] && Held() + [] == Held();
      while used < |input| && active
        invariant Valid() && active && !fails && used <= |input| && accepted == old(accepted) + input[..used]
        invariant parses == old(parses) && parsed == old(parsed) && Held() == old(Held()) + input[..used]
        invariant forall n | 0 < n <= used :: !EndsIn(old(Held()) + input[..n], END)
        invariant old(requests) <= requests && (bytes == old(bytes) || fresh(bytes))
        decreases |input| - used
      {
        assert input[..used + 1] == input[..used] + [input[used]];
        ConcatAssociates(old(Held()), input[..used], [input[used]]);
        ghost var held, asked := Held(), requests;
        var took, over := HoldBack(input[used]);
        if took { used := used + 1; }
        if over {
          assert held + [] == held;
          fails := active;
          FlushedOnce(old(Held()) + input[..used], old(parses), old(parsed));
          return;
        }
      }
      assert input[..used] == input;
    }

    lemma FlushedOnce(whole: seq<Byte>, parses0: nat, parsed0: seq<Byte>)
      requires Valid() && Flushed(whole, parses0, parsed0)
      ensures parses == parses0 + 1
    {
    }

    /** Parse bytes directly; a begin marker among them starts to hold output back and ends the span. */
    method Direct(input: seq<Byte>) returns (used: nat, fails: bool)
      requires Valid() && !active
      modifies `parses, `parsed, `accepted, `present, `active, `pending, `requests, `replay, `length, bytes
      ensures Valid() && used <= |input| && accepted == old(accepted) + input[..used]
      ensures var p := parser(old(parses));
              && used == Min(p.used, |input|) && fails == p.fails
              && active == (p.begins && used > 0 && (old(present) || storage(old(requests))))
      ensures parses == old(parses) + 1 && parsed == old(parsed) + input[..used] && Held() == []
    {
      var begins;
      EmptyBuffer();
      used, begins, fails := Parse(input);
      accepted := accepted + input[..used];
      if begins { Set(true); }
    }

    /** The parser, called from now on, takes all of so many bytes, begins no update and does not fail. */
    ghost predicate Willing(parses0: nat, n: nat) {
      forall k: nat | parses0 <= k :: parser(k).used >= n && !parser(k).begins && !parser(k).fails
    }

    lemma StillWilling(p0: nat, p: nat, n: nat, m: nat)
      requires Willing(p0, n) && p0 <= p && m <= n
      ensures Willing(p, m)
    {
    }

    /** The bytes can be held back behind those held already: no end marker, room, and storage. */
    ghost predicate Holdable(held: seq<Byte>, input: seq<Byte>, requests0: nat) {
      && (forall n | 0 < n <= |input| :: !EndsIn(held + input[..n], END)) && |held| + |input| <= SYNC_MAX
      && (forall k: nat | requests0 <= k :: storage(k))
    }

    /** Take some bytes: hold them back, or parse them directly. */
    method Offer(input: seq<Byte>) returns (used: nat, fails: bool)
      requires Valid() && input != []
      modifies this, bytes
      ensures Valid() && used <= |input| && accepted == old(accepted) + input[..used] && old(parses) <= parses
      ensures used == 0 && !fails ==> !active
      ensures used == 0 && !fails && !old(active) ==> parses == old(parses) + 1 && parser(old(parses)).used == 0
      ensures fails && !active ==> parses == old(parses) + 1 && parser(old(parses)).fails
      ensures !old(active) && Willing(old(parses), |input|) ==>
                used == |input| && !fails && !active && parsed == old(parsed) + input
      ensures Willing(old(parses), |old(Held())| + |input|) ==> !fails && (active ==> used == |input|)
      ensures old(active) && Holdable(old(Held()), input, old(requests)) ==>
                && used == |input| && !fails && active && parses == old(parses) && parsed == old(parsed)
                && Held() == old(Held()) + input
      ensures bytes == old(bytes) || fresh(bytes)
    {
      hide Sized, EndsIn;
      if active {
        used, fails := Feed(input);
      } else {
        used, fails := Direct(input);
        assert used == |input| ==> input[..used] == input;
      }
    }

    /** A parser call of these took nothing. */
    ghost predicate Idle(from: nat, to: nat) {
      exists k: nat | from <= k < to :: parser(k).used == 0
    }

    /** A parser call of these failed. */
    ghost predicate Failed(from: nat, to: nat) {
      exists k: nat | from <= k < to :: parser(k).fails
    }

    /** Bytes that nothing was done with are offered to the parser once more when holding back is over. */
    method Round(input: seq<Byte>) returns (used: nat, fails: bool, stuck: bool)
      requires Valid() && input != []
      modifies this, bytes
      ensures Valid() && used <= |input| && accepted == old(accepted) + input[..used] && old(parses) <= parses
      ensures (stuck ==> !active && (!fails ==> Idle(old(parses), parses))) && (!stuck && !fails ==> used > 0)
      ensures fails ==> active || Failed(old(parses), parses)
      ensures !old(active) && Willing(old(parses), |input|) ==>
                used == |input| && !fails && !active && parsed == old(parsed) + input
      ensures Willing(old(parses), |old(Held())| + |input|) ==> !fails && (active ==> used == |input|)
      ensures old(active) && Holdable(old(Held()), input, old(requests)) ==>
                used == |input| && !fails && active && parsed == old(parsed) && Held() == old(Held()) + input
      ensures bytes == old(bytes) || fresh(bytes)
    {
      hide Sized, Valid, Holdable, Willing;
      stuck := false;
      used, fails := Offer(input);
      ghost var middle := parses;
      if used == 0 && !fails && !active {
        WillingTakes(old(parses), |old(Held())| + |input|);
        assert input[0..] == input;
        used, fails := Direct(input);
        stuck := used == 0;
        assert middle < parses && (stuck ==> parser(middle).used == 0) && (fails ==> parser(middle).fails);
      }
    }

    /** A writer hands over bytes. What is taken has been parsed or is held back, in order; bytes are left over only
        when it fails, or when the parser, called while nothing was held back, took none. */
    method Write(input: seq<Byte>) returns (used: nat, fails: bool)
      requires Valid()
      modifies this, bytes
      ensures Valid() && used <= |input| && accepted == old(accepted) + input[..used]
      ensures |input| > LENGTH_MAX - stash ==> used == 0 && fails && parses == old(parses)
      ensures used < |input| && !fails ==> !active && Idle(old(parses), parses)
      ensures fails && |input| <= LENGTH_MAX - stash ==> active || Failed(old(parses), parses)
      ensures |input| <= LENGTH_MAX - stash && !old(active) && Willing(old(parses), |input|) ==>
                used == |input| && !fails && !active && parsed == old(parsed) + input
      ensures |input| <= LENGTH_MAX - stash && Willing(old(parses), |old(Held())| + |input|) ==>
                used == |input| && !fails
      ensures |input| <= LENGTH_MAX - stash && old(active) && Holdable(old(Held()), input, old(requests)) ==>
                used == |input| && !fails && active && parsed == old(parsed) && Held() == old(Held()) + input
    {
      hide Sized, Valid, Holdable, Willing, Idle, Failed;
      used, fails := 0, false;
      assert input[..0] == [] && Held() + [] == Held() && parsed + [] == parsed;
      if |input| > LENGTH_MAX - stash { return 0, true; }
      while used < |input| && !fails
        invariant Valid() && used <= |input| && accepted == old(accepted) + input[..used] && old(parses) <= parses
        invariant bytes == old(bytes) || fresh(bytes)
        invariant fails ==> active || Failed(old(parses), parses)
        invariant used == 0 && !fails ==>
                    && active == old(active) && parses == old(parses) && requests == old(requests)
                    && parsed == old(parsed) && Held() == old(Held())
        invariant !old(active) && Willing(old(parses), |input|) && (used > 0 || fails) ==>
                    used == |input| && !fails && !active && parsed == old(parsed) + input
        invariant Willing(old(parses), |old(Held())| + |input|) ==> !fails && (used > 0 && active ==> used == |input|)
        invariant old(active) && Holdable(old(Held()), input, old(requests)) && (used > 0 || fails) ==>
                    used == |input| && !fails && active && parsed == old(parsed) && Held() == old(Held()) + input
        decreases !fails, |input| - used
      {
        assert used == 0 ==> input[used..] == input;
        assert input[..used] + input[used..] == input;
        NothingHeld();
        if Willing(old(parses), |old(Held())| + |input|) {
          StillWilling(old(parses), parses, |old(Held())| + |input|, |Held()| + |input[used..]|);
        }
        ghost var from := parses;
        var n, stuck;
        n, fails, stuck := Round(input[used..]);
        CallsWiden(old(parses), from, parses);
        if n == 0 && stuck {
          WillingTakes(old(parses), |old(Held())| + |input|);
          break;
        }
        used := used + n;
      }
    }

    lemma CallsWiden(p0: nat, from: nat, to: nat)
      requires p0 <= from
      ensures (Idle(from, to) ==> Idle(p0, to)) && (Failed(from, to) ==> Failed(p0, to))
    {
    }

    lemma WillingTakes(p0: nat, n: nat)
      ensures Willing(p0, n) && n > 0 ==>
                forall k: nat | p0 <= k :: parser(k).used != 0 && !parser(k).begins && !parser(k).fails
      ensures Willing(p0, n) && n > 0 ==> forall p: nat :: !Idle(p0, p)
    {
    }

    lemma NothingHeld()
      requires Valid()
      ensures !active ==> Held() == []
    {
    }
  }
}
