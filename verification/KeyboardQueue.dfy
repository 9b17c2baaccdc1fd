/** The keyboard driver in place: the decoder's fields and the ring that kbd_read empties (kernel/src/kbd.c). */
module KeyboardQueue {
  import opened Wrappers
  import opened Keyboard

  const SIZE := 256

  /** An index or a difference of indices, kept to eight bits. */
  function Wrapped(x: nat): nat
    requires x < 2 * SIZE
  {
    if x < SIZE then x else x - SIZE
  }

  /** The ring buffer with its 8-bit read and write indices. */
  datatype Ring = Ring(buf: seq<Keystroke>, r: nat, w: nat) {
    predicate Valid() { |buf| == SIZE && r < SIZE && w < SIZE }

    function Count(): nat
      requires Valid()
    {
      Wrapped(w + SIZE - r)
    }

    /** The keystrokes not yet read, oldest first. */
    function Unread(): (s: seq<Keystroke>)
      requires Valid()
      ensures |s| == Count()
      ensures forall i :: 0 <= i < Count() ==> s[i] == buf[Wrapped(r + i)]
    {
      seq(Count(), i requires 0 <= i < Count() => buf[Wrapped(r + i)])
    }

    function Push(k: Keystroke): Ring
      requires Valid()
    {
      Ring(buf[w := k], r, Wrapped(w + 1))
    }

    function Pop(): (Option<Keystroke>, Ring)
      requires Valid()
    {
      if w == r then (None, this) else (Some(buf[r]), Ring(buf, Wrapped(r + 1), w))
    }
  }

  /** A push appends, unless 255 keystrokes are unread: then the indices meet and all 256 are lost. */
  lemma PushAppends(ring: Ring, k: Keystroke)
    requires ring.Valid()
    ensures ring.Push(k).Valid()
    ensures ring.Push(k).Unread() == if ring.Count() < SIZE - 1 then ring.Unread() + [k] else []
  {
    var next := ring.Push(k);
    if ring.Count() < SIZE - 1 {
      assert next.Count() == ring.Count() + 1;
      forall i | 0 <= i < ring.Count() ensures next.Unread()[i] == ring.Unread()[i] {
      }
    } else {
      assert next.Count() == 0;
    }
  }

  /** A read takes the oldest keystroke, and nothing when none is unread. */
  lemma PopTakesOldest(ring: Ring)
    requires ring.Valid()
    ensures var (k, next) := ring.Pop();
      && next.Valid()
      && (k.None? <==> ring.Unread() == [])
      && (k.None? ==> next == ring)
      && (k.Some? ==> ring.Unread() == [k.value] + next.Unread())
  {
    var (k, next) := ring.Pop();
    if k.Some? {
      assert next.Count() == ring.Count() - 1;
      forall i | 0 <= i < next.Count() ensures next.Unread()[i] == ring.Unread()[i + 1] {
      }
    }
  }

  // ---- Typing and reading ----

  datatype Driver = Driver(decoder: Decoder, ring: Ring) {
    predicate Valid() { decoder.Valid() && ring.Valid() }

    /** One interrupt. */
    function Isr(code: Byte): Driver
      requires Valid()
    {
      var (d, k) := Feed(decoder, code);
      Driver(d, if k.Some? then ring.Push(k.value) else ring)
    }
  }

  function Isrs(s: Driver, codes: seq<Byte>): (r: Driver)
    requires s.Valid()
    ensures r.Valid()
    decreases |codes|
  {
    if codes == [] then s else Isrs(s.Isr(codes[0]), codes[1..])
  }

  function PushAll(ring: Ring, ks: seq<Keystroke>): (r: Ring)
    requires ring.Valid()
    ensures r.Valid()
    decreases |ks|
  {
    if ks == [] then ring else PushAll(ring.Push(ks[0]), ks[1..])
  }

  /** The interrupts push what the decoder yields. */
  lemma {:induction false} IsrsPush(s: Driver, codes: seq<Byte>)
    requires s.Valid()
    ensures var (d, ks) := FeedAll(s.decoder, codes);
      Isrs(s, codes) == Driver(d, PushAll(s.ring, ks))
    decreases |codes|
  {
    if codes != [] {
      IsrsPush(s.Isr(codes[0]), codes[1..]);
      var (d1, k) := Feed(s.decoder, codes[0]);
      var rest := FeedAll(d1, codes[1..]).1;
      if k.Some? {
        assert ([k.value] + rest)[1..] == rest;
      }
    }
  }

  datatype Op = Type(event: Event) | Read

  /** The driver after the operations, and what the reads returned. */
  function Run(s: Driver, ops: seq<Op>): (Driver, seq<Keystroke>)
    requires s.Valid()
    decreases |ops|
  {
    if ops == [] then (s, [])
    else
      match ops[0]
      case Type(e) => Run(Isrs(s, Bytes(e)), ops[1..])
      case Read =>
        var (k, ring) := s.ring.Pop();
        var (s', outs) := Run(s.(ring := ring), ops[1..]);
        (s', Emit(k, outs))
  }

  function Typed(ops: seq<Op>): seq<Event> {
    if ops == [] then []
    else match ops[0]
      case Type(e) => [e] + Typed(ops[1..])
      case Read => Typed(ops[1..])
  }

  /** No more than 255 keystrokes are ever unread. */
  predicate Roomy(unread: nat, ops: seq<Op>)
    decreases |ops|
  {
    ops == [] ||
    match ops[0]
    case Type(_) => unread < SIZE - 1 && Roomy(unread + 1, ops[1..])
    case Read => Roomy(if unread == 0 then 0 else unread - 1, ops[1..])
  }

  /** Reads return the keystrokes of the typed events first in, first out, and lose none, while no more than 255
    * are unread: what was read and what is left are what was there before and one keystroke for each event. */
  lemma {:induction false} ReadsInOrder(s: Driver, ops: seq<Op>) returns (strokes: seq<Keystroke>)
    requires s.Valid() && s.decoder.Normal()
    requires forall e :: e in Typed(ops) ==> Sendable(e.key)
    requires Roomy(s.ring.Count(), ops)
    ensures Run(s, ops).0.Valid() && Run(s, ops).0.decoder.Normal()
    ensures |strokes| == |Typed(ops)| && AllReport(strokes, Typed(ops), DownKeys(s.decoder.down))
    ensures Run(s, ops).1 + Run(s, ops).0.ring.Unread() == s.ring.Unread() + strokes
    decreases |ops|
  {
    if ops == [] {
      strokes := [];
    } else {
      match ops[0] {
        case Type(e) =>
          strokes := TypeStep(s, e, ops);
        case Read =>
          PopTakesOldest(s.ring);
          var (k, ring) := s.ring.Pop();
          assert ring.Count() == if s.ring.Count() == 0 then 0 else s.ring.Count() - 1;
          strokes := ReadsInOrder(s.(ring := ring), ops[1..]);
          var (s', outs) := Run(s.(ring := ring), ops[1..]);
          EmitConcat(k, outs, s'.ring.Unread());
          EmitConcat(k, ring.Unread(), strokes);
      }
    }
  }

  /** The interrupts of one event append its keystroke. */
  lemma TypeAppends(s: Driver, e: Event) returns (k: Keystroke)
    requires s.Valid() && s.decoder.Normal() && Sendable(e.key) && s.ring.Count() < SIZE - 1
    ensures var s' := Isrs(s, Bytes(e));
      && s'.decoder.Normal()
      && s'.ring.Unread() == s.ring.Unread() + [k]
      && DownKeys(s'.decoder.down) == Held(DownKeys(s.decoder.down), e)
      && Reports(k, e, Held(DownKeys(s.decoder.down), e))
  {
    EventDecodes(s.decoder, e);
    IsrsPush(s, Bytes(e));
    var ks := FeedAll(s.decoder, Bytes(e)).1;
    k := ks[0];
    hide Reports, Held, Bytes, Feed, FeedAll, DownKeys, Isrs;
    PushAppends(s.ring, k);
    assert ks[1..] == [];
    assert PushAll(s.ring, ks) == s.ring.Push(k);
  }

  lemma {:induction false} TypeStep(s: Driver, e: Event, ops: seq<Op>) returns (strokes: seq<Keystroke>)
    requires s.Valid() && s.decoder.Normal() && ops != [] && ops[0] == Type(e)
    requires forall e :: e in Typed(ops) ==> Sendable(e.key)
    requires Roomy(s.ring.Count(), ops)
    ensures Run(s, ops).0.Valid() && Run(s, ops).0.decoder.Normal()
    ensures |strokes| == |Typed(ops)| && AllReport(strokes, Typed(ops), DownKeys(s.decoder.down))
    ensures Run(s, ops).1 + Run(s, ops).0.ring.Unread() == s.ring.Unread() + strokes
    decreases |ops|, 0
  {
    hide Reports, Held, Bytes, Feed, FeedAll, DownKeys, Sendable, Isrs;
    var events := Typed(ops);
    assert events == [e] + Typed(ops[1..]) && events[1..] == Typed(ops[1..]);
    var k := TypeAppends(s, e);
    var s' := Isrs(s, Bytes(e));
    assert |s'.ring.Unread()| == s.ring.Count() + 1;
    var rest := ReadsInOrder(s', ops[1..]);
    strokes := [k] + rest;
    assert strokes[1..] == rest;
    assert s.ring.Unread() + [k] + rest == s.ring.Unread() + strokes;
  }

  // ---- In place ----

  class Kbd {
    var extended: bool
    var break_: bool
    var digraph: bool
    var twoByte: bool
    var prev: nat
    const keystates: array<bool>
    const rbuf: array<Keystroke>
    var ridx: nat
    var widx: nat

    constructor ()
      ensures Valid() && fresh(keystates) && fresh(rbuf)
      ensures State().decoder.Normal() && State().ring.Unread() == []
    {
      keystates := new bool[256](_ => false);
      rbuf := new Keystroke[SIZE](_ => Keystroke(INVALID, false, false, false, false, NUL));
      extended, break_, digraph, twoByte, prev := false, false, false, false, NO_PREV;
      ridx, widx := 0, 0;
    }

    ghost predicate Valid()
      reads this
    {
      keystates.Length == 256 && rbuf.Length == SIZE && ridx < SIZE && widx < SIZE
    }

    ghost function State(): Driver
      reads this, keystates, rbuf
    {
      Driver(Decoder(extended, break_, digraph, twoByte, prev, keystates[..]), Ring(rbuf[..], ridx, widx))
    }

    method Isr(code: Byte)
      requires Valid()
      modifies this, keystates, rbuf
      ensures Valid() && State() == old(State()).Isr(code)
    {
      hide NormalKey, ExtendedKey, Strike;
      if code == 0xfa || code == 0xfe {
        return;
      }
      if code == 0xe0 {
        extended := true;
        return;
      } else if code == 0xf0 {
        break_ := true;
        return;
      } else if code == 0xe1 {
        twoByte := true;
        return;
      }
      var key: Byte;
      if extended && (code == 0x12 || code == 0x7c) && !digraph {
        digraph := true;
        return;
      } else if twoByte {
        if prev == NO_PREV {
          prev := code;
          return;
        }
        prev := NO_PREV;
        key := ExtendedKey(code);
      } else if extended {
        key := ExtendedKey(code);
      } else {
        key := NormalKey(code);
      }
      Finish(key);
    }

    /** The key goes up or down, its keystroke into the ring, and the decoder back to the normal state. */
    method Finish(key: Byte)
      requires Valid()
      modifies this, keystates, rbuf
      ensures Valid()
      ensures var s, down := old(State()), old(keystates[..])[key := !old(break_)];
        State() == Driver(Decoder(false, false, false, false, old(prev), down),
          s.ring.Push(Strike(down, key, old(break_))))
    {
      hide Strike;
      keystates[key] := !break_;
      rbuf[widx] := Strike(keystates[..], key, break_);
      widx := Wrapped(widx + 1);
      extended, break_, digraph, twoByte := false, false, false, false;
    }

    /** None when no keystroke is unread. */
    method Read() returns (k: Option<Keystroke>)
      requires Valid()
      modifies this`ridx
      ensures Valid() && State().decoder == old(State()).decoder
      ensures (k, State().ring) == old(State()).ring.Pop()
      ensures k.None? <==> old(State().ring.Unread()) == []
      ensures k.Some? ==> old(State().ring.Unread()) == [k.value] + State().ring.Unread()
    {
      PopTakesOldest(State().ring);
      if widx == ridx {
        return None;
      }
      k := Some(rbuf[ridx]);
      ridx := Wrapped(ridx + 1);
    }
  }
}
