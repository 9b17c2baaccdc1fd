/** The scancode decoder and the keystroke ring (kernel/src/kbd.c). */
module Keyboard {
  import opened Wrappers

  const INVALID := 0xff
  const L_CTRL := 0x00
  const R_CTRL := 0x07
  const L_ALT := 0x02
  const R_ALT := 0x04
  const L_SHIFT := 0x20
  const R_SHIFT := 0x2b
  const PRINT_SCREEN := 0xae
  const PAUSE := 0xb0

  type Byte = b: nat | b < 0x100

  /** Row r of the table, 16 codes a row. */
  function NormalRow(r: nat): seq<Byte> {
    match r
    case 0 => [0xff, 0xa9, 0xff, 0xa5, 0xa3, 0xa1, 0xa2, 0xac, 0xff, 0xaa, 0xa8, 0xa6, 0xa4, 0x60, 0x80, 0xff]
    case 1 => [0xff, 0x02, 0x20, 0xff, 0x00, 0x61, 0x81, 0xff, 0xff, 0xff, 0x21, 0x42, 0x41, 0x62, 0x82, 0xff]
    case 2 => [0xff, 0x23, 0x22, 0x43, 0x63, 0x84, 0x83, 0xff, 0xff, 0x03, 0x24, 0x44, 0x65, 0x64, 0x85, 0xff]
    case 3 => [0xff, 0x26, 0x25, 0x46, 0x45, 0x66, 0x86, 0xff, 0xff, 0xff, 0x27, 0x47, 0x67, 0x87, 0x88, 0xff]
    case 4 => [0xff, 0x28, 0x48, 0x68, 0x69, 0x8a, 0x89, 0xff, 0xff, 0x29, 0x2a, 0x49, 0x4a, 0x6a, 0x8b, 0xff]
    case 5 => [0xff, 0xff, 0x4b, 0xff, 0x6b, 0x8c, 0xff, 0xff, 0x40, 0x2b, 0x4c, 0x6c, 0xff, 0x6d, 0xff, 0xff]
    case 6 => [0xff, 0xff, 0xff, 0xff, 0xff, 0xff, 0x8d, 0xff, 0xff, 0x31, 0xff, 0x51, 0x71, 0xff, 0xff, 0xff]
    case 7 => [0x11, 0x13, 0x32, 0x52, 0x53, 0x72, 0xa0, 0x91, 0xab, 0x54, 0x33, 0x94, 0x93, 0x73, 0xaf, 0xff]
    case 8 => [0xff, 0xff, 0xff, 0xa7]
    case _ => []
  }

  /** Row r of the table, 16 codes a row. */
  function ExtendedRow(r: nat): seq<Byte> {
    match r
    case 0 => [0xff, 0xff, 0xff, 0xff, 0xff, 0xff, 0xff, 0xff, 0xff, 0xff, 0xff, 0xff, 0xff, 0xff, 0xff, 0xff]
    case 1 => [0xe2, 0x04, 0xae, 0xff, 0x07, 0xc6, 0xff, 0xff, 0xe1, 0xff, 0xff, 0xff, 0xff, 0xff, 0xff, 0x01]
    case 2 => [0xe7, 0xc2, 0xff, 0xc4, 0xff, 0xff, 0xff, 0x05, 0xe5, 0xff, 0xff, 0xcc, 0xff, 0xff, 0xff, 0x06]
    case 3 => [0xe6, 0xff, 0xc3, 0xff, 0xc7, 0xff, 0xff, 0xee, 0xe8, 0xff, 0xca, 0xc5, 0xff, 0xff, 0xff, 0xef]
    case 4 => [0xe0, 0xff, 0xff, 0xff, 0xff, 0xff, 0xff, 0xff, 0xc9, 0xff, 0x92, 0xff, 0xff, 0xc8, 0xff, 0xff]
    case 5 => [0xc1, 0xff, 0xff, 0xff, 0xff, 0xff, 0xff, 0xff, 0xff, 0xff, 0x14, 0xff, 0xff, 0xff, 0xf1, 0xff]
    case 6 => [0xff, 0xff, 0xff, 0xff, 0xff, 0xff, 0xff, 0xff, 0xff, 0x6f, 0xff, 0x0e, 0x8f, 0xff, 0xff, 0xff]
    case 7 => [0x8e, 0x6e, 0x0f, 0xff, 0x10, 0x2f, 0xff, 0xb0, 0xff, 0xff, 0x70, 0xff, 0xae, 0x90]
    case _ => []
  }

  /** The printable keys by rows; the other keys have no character. */
  function Plain(key: Byte): char {
    if key == 0x03 then ' '
    else if key == 0x11 then '0' else if key == 0x13 then '.' else if key == 0x14 then '\n'
    else if 0x21 <= key <= 0x2a then "zxcvbnm,./"[key - 0x21]
    else if 0x31 <= key <= 0x33 then "123"[key - 0x31]
    else if 0x41 <= key <= 0x4c then "asdfghjkl;'\n"[key - 0x41]
    else if 0x51 <= key <= 0x54 then "456+"[key - 0x51]
    else if 0x60 <= key <= 0x6d then "\tqwertyuiop[]\\"[key - 0x60]
    else if 0x71 <= key <= 0x73 then "789"[key - 0x71]
    else if 0x80 <= key <= 0x8c then "`1234567890-="[key - 0x80]
    else if key == 0x8d then 8 as char
    else if 0x92 <= key <= 0x94 then "/*-"[key - 0x92]
    else NUL
  }

  function Shifted(key: Byte): char {
    if key == 0x03 then ' ' else if key == 0x14 then '\n'
    else if 0x21 <= key <= 0x2a then "ZXCVBNM<>?"[key - 0x21]
    else if 0x41 <= key <= 0x4c then "ASDFGHJKL:\"\n"[key - 0x41]
    else if key == 0x54 then '+'
    else if 0x60 <= key <= 0x6d then "\tQWERTYUIOP{}|"[key - 0x60]
    else if 0x80 <= key <= 0x8c then "~!@#$%^&*()_+"[key - 0x80]
    else if 0x92 <= key <= 0x94 then "/*-"[key - 0x92]
    else NUL
  }

  // ---- The decoder ----

  datatype Keystroke = Keystroke(code: Byte, released: bool, control: bool, shift: bool, alt: bool, codepoint: char)

  const NO_PREV := 0xffff

  /** The bits of current_state, the first byte of a two-byte code, and which keys are down. */
  datatype Decoder = Decoder(extended: bool, break_: bool, digraph: bool, twoByte: bool, prev: nat, down: seq<bool>) {
    predicate Valid() { |down| == 256 }

    /** Between sequences. */
    predicate Normal() { Valid() && !extended && !break_ && !digraph && !twoByte && prev == NO_PREV }
  }

  function ExtendedKey(code: Byte): Byte {
    var row := ExtendedRow(code / 16);
    if code % 16 < |row| then row[code % 16] else INVALID
  }

  function NormalKey(code: Byte): Byte {
    var row := NormalRow(code / 16);
    if code % 16 < |row| then row[code % 16] else INVALID
  }

  /** The keystroke for a key that goes up or down, with the keys down after it. */
  function Strike(down: seq<bool>, key: Byte, released: bool): Keystroke
    requires |down| == 256
  {
    var shift := down[L_SHIFT] || down[R_SHIFT];
    Keystroke(key, released, down[L_CTRL] || down[R_CTRL], shift, down[L_ALT] || down[R_ALT],
      if shift then Shifted(key) else Plain(key))
  }

  /** One byte from the keyboard. Replies to commands are not for the decoder. */
  function Feed(d: Decoder, code: Byte): (Decoder, Option<Keystroke>)
    requires d.Valid()
  {
    if code == 0xfa || code == 0xfe then (d, None)
    else if code == 0xe0 then (d.(extended := true), None)
    else if code == 0xf0 then (d.(break_ := true), None)
    else if code == 0xe1 then (d.(twoByte := true), None)
    else if d.extended && (code == 0x12 || code == 0x7c) && !d.digraph then (d.(digraph := true), None)
    else if d.twoByte && d.prev == NO_PREV then (d.(prev := code), None)
    else
      var key := if d.twoByte || d.extended then ExtendedKey(code) else NormalKey(code);
      var down := d.down[key := !d.break_];
      (Decoder(false, false, false, false, if d.twoByte then NO_PREV else d.prev, down),
        Some(Strike(down, key, d.break_)))
  }

  function Emit(k: Option<Keystroke>, ks: seq<Keystroke>): seq<Keystroke> {
    if k.Some? then [k.value] + ks else ks
  }

  lemma EmitConcat(k: Option<Keystroke>, a: seq<Keystroke>, b: seq<Keystroke>)
    ensures Emit(k, a) + b == Emit(k, a + b)
    ensures k.Some? ==> Emit(k, []) == [k.value]
  {
  }

  function FeedAll(d: Decoder, codes: seq<Byte>): (r: (Decoder, seq<Keystroke>))
    requires d.Valid()
    ensures r.0.Valid()
    decreases |codes|
  {
    if codes == [] then (d, [])
    else
      var (d1, k) := Feed(d, codes[0]);
      var (d2, ks) := FeedAll(d1, codes[1..]);
      (d2, Emit(k, ks))
  }

  // ---- What a keyboard sends ----

  datatype Key = NormalCode(code: Byte) | ExtendedCode(code: Byte) | PrintScreen | Pause

  datatype Event = Event(key: Key, released: bool)

  predicate Plainly(code: Byte) {
    code != 0xe0 && code != 0xe1 && code != 0xf0 && code != 0xfa && code != 0xfe
  }

  predicate Sendable(key: Key) {
    match key
    case NormalCode(code) => Plainly(code)
    case ExtendedCode(code) => Plainly(code) && code != 0x12 && code != 0x7c
    case _ => true
  }

  /** Scancode set 2. */
  function Bytes(e: Event): seq<Byte> {
    match e.key
    case NormalCode(code) => if e.released then [0xf0, code] else [code]
    case ExtendedCode(code) => if e.released then [0xe0, 0xf0, code] else [0xe0, code]
    case PrintScreen => if e.released then [0xe0, 0xf0, 0x7c, 0xe0, 0xf0, 0x12] else [0xe0, 0x12, 0xe0, 0x7c]
    case Pause => if e.released then [0xe1, 0xf0, 0x14, 0xf0, 0x77] else [0xe1, 0x14, 0x77]
  }

  function KeyCode(key: Key): Byte {
    match key
    case NormalCode(code) => NormalKey(code)
    case ExtendedCode(code) => ExtendedKey(code)
    case PrintScreen => PRINT_SCREEN
    case Pause => PAUSE
  }

  /** The keys held after an event. */
  function Held(held: set<Byte>, e: Event): set<Byte> {
    if e.released then held - {KeyCode(e.key)} else held + {KeyCode(e.key)}
  }

  /** What the user should see: the key, whether it went up, and the modifiers held with it. */
  predicate Reports(k: Keystroke, e: Event, held: set<Byte>) {
    && k.code == KeyCode(e.key)
    && k.released == e.released
    && (k.control <==> L_CTRL in held || R_CTRL in held)
    && (k.shift <==> L_SHIFT in held || R_SHIFT in held)
    && (k.alt <==> L_ALT in held || R_ALT in held)
    && k.codepoint == if k.shift then Shifted(k.code) else Plain(k.code)
  }

  function DownKeys(down: seq<bool>): set<Byte>
    requires |down| == 256
  {
    set k: Byte | 0 <= k < 256 && down[k]
  }

  /** The keystrokes report the events in order. */
  predicate AllReport(ks: seq<Keystroke>, events: seq<Event>, held: set<Byte>)
    decreases |events|
  {
    if events == [] then ks == []
    else
      && ks != [] && Reports(ks[0], events[0], Held(held, events[0]))
      && AllReport(ks[1..], events[1..], Held(held, events[0]))
  }

  function AllBytes(events: seq<Event>): seq<Byte> {
    if events == [] then [] else Bytes(events[0]) + AllBytes(events[1..])
  }

  lemma {:induction false} FeedConcat(d: Decoder, a: seq<Byte>, b: seq<Byte>)
    requires d.Valid()
    ensures FeedAll(d, a + b) == (FeedAll(FeedAll(d, a).0, b).0, FeedAll(d, a).1 + FeedAll(FeedAll(d, a).0, b).1)
    decreases |a|
  {
    if a == [] {
      assert a + b == b;
      assert [] + FeedAll(d, b).1 == FeedAll(d, b).1;
    } else {
      assert (a + b)[1..] == a[1..] + b;
      FeedConcat(Feed(d, a[0]).0, a[1..], b);
      var (d1, k) := Feed(d, a[0]);
      EmitConcat(k, FeedAll(d1, a[1..]).1, FeedAll(FeedAll(d, a).0, b).1);
    }
  }

  /** Replies to commands, wherever they come in, make no difference. */
  lemma RepliesIgnored(d: Decoder, before: seq<Byte>, reply: Byte, after: seq<Byte>)
    requires d.Valid() && (reply == 0xfa || reply == 0xfe)
    ensures FeedAll(d, before + [reply] + after) == FeedAll(d, before + after)
  {
    var d1 := FeedAll(d, before).0;
    FeedConcat(d, before + [reply], after);
    FeedConcat(d, before, [reply]);
    FeedConcat(d, before, after);
    FeedOne(d1, [reply], reply, []);
    assert FeedAll(d, before).1 + [] == FeedAll(d, before).1;
  }

  /** One byte ahead of others. */
  lemma FeedOne(d: Decoder, codes: seq<Byte>, code: Byte, rest: seq<Byte>)
    requires d.Valid() && codes == [code] + rest
    ensures var (d1, k) := Feed(d, code);
      var (d2, ks) := FeedAll(d1, rest);
      FeedAll(d, codes) == (d2, Emit(k, ks))
    ensures rest == [] ==>
      FeedAll(d, codes) == (Feed(d, code).0, if Feed(d, code).1.Some? then [Feed(d, code).1.value] else [])
  {
    assert codes[1..] == rest;
    EmitConcat(Feed(d, code).1, [], []);
  }

  lemma MapEnds()
    ensures ExtendedKey(0x12) == PRINT_SCREEN && ExtendedKey(0x7c) == PRINT_SCREEN && ExtendedKey(0x77) == PAUSE
  {
    assert ExtendedRow(1)[2] == 0xae;
    assert ExtendedRow(7)[7] == 0xb0;
    assert ExtendedRow(7)[12] == 0xae;
  }

  /** The state of a finished sequence, and the keystroke it gave. */
  function Finished(d: Decoder, key: Byte, released: bool): (Decoder, seq<Keystroke>)
    requires d.Valid()
  {
    var down := d.down[key := !released];
    (Decoder(false, false, false, false, NO_PREV, down), [Strike(down, key, released)])
  }

  lemma PlainSequence(d: Decoder, e: Event)
    requires d.Normal() && Sendable(e.key) && (e.key.NormalCode? || e.key.ExtendedCode?)
    ensures FeedAll(d, Bytes(e)) == Finished(d, KeyCode(e.key), e.released)
  {
    hide NormalKey, ExtendedKey, Strike;
    var code := e.key.code;
    var d1 := if e.key.ExtendedCode? then d.(extended := true) else d;
    var tail := if e.released then [0xf0, code] else [code];
    if e.released {
      FeedOne(d1, tail, 0xf0, [code]);
      FeedOne(d1.(break_ := true), [code], code, []);
    } else {
      FeedOne(d1, [code], code, []);
    }
    if e.key.ExtendedCode? {
      FeedOne(d, Bytes(e), 0xe0, tail);
    }
  }

  lemma PrintScreenSequence(d: Decoder, released: bool)
    requires d.Normal()
    ensures FeedAll(d, Bytes(Event(PrintScreen, released))) == Finished(d, PRINT_SCREEN, released)
  {
    MapEnds();
    hide NormalKey, ExtendedKey, Strike;
    var d1 := d.(extended := true);
    if released {
      var d2 := d1.(break_ := true);
      var d3 := d2.(digraph := true);
      FeedOne(d, [0xe0, 0xf0, 0x7c, 0xe0, 0xf0, 0x12], 0xe0, [0xf0, 0x7c, 0xe0, 0xf0, 0x12]);
      FeedOne(d1, [0xf0, 0x7c, 0xe0, 0xf0, 0x12], 0xf0, [0x7c, 0xe0, 0xf0, 0x12]);
      FeedOne(d2, [0x7c, 0xe0, 0xf0, 0x12], 0x7c, [0xe0, 0xf0, 0x12]);
      FeedOne(d3, [0xe0, 0xf0, 0x12], 0xe0, [0xf0, 0x12]);
      FeedOne(d3, [0xf0, 0x12], 0xf0, [0x12]);
      FeedOne(d3, [0x12], 0x12, []);
    } else {
      var d2 := d1.(digraph := true);
      FeedOne(d, [0xe0, 0x12, 0xe0, 0x7c], 0xe0, [0x12, 0xe0, 0x7c]);
      FeedOne(d1, [0x12, 0xe0, 0x7c], 0x12, [0xe0, 0x7c]);
      FeedOne(d2, [0xe0, 0x7c], 0xe0, [0x7c]);
      FeedOne(d2, [0x7c], 0x7c, []);
    }
  }

  lemma PauseSequence(d: Decoder, released: bool)
    requires d.Normal()
    ensures FeedAll(d, Bytes(Event(Pause, released))) == Finished(d, PAUSE, released)
  {
    MapEnds();
    hide NormalKey, ExtendedKey, Strike;
    var d1 := d.(twoByte := true);
    if released {
      var d2 := d1.(break_ := true);
      var d3 := d2.(prev := 0x14);
      FeedOne(d, [0xe1, 0xf0, 0x14, 0xf0, 0x77], 0xe1, [0xf0, 0x14, 0xf0, 0x77]);
      FeedOne(d1, [0xf0, 0x14, 0xf0, 0x77], 0xf0, [0x14, 0xf0, 0x77]);
      FeedOne(d2, [0x14, 0xf0, 0x77], 0x14, [0xf0, 0x77]);
      FeedOne(d3, [0xf0, 0x77], 0xf0, [0x77]);
      FeedOne(d3, [0x77], 0x77, []);
    } else {
      var d2 := d1.(prev := 0x14);
      FeedOne(d, [0xe1, 0x14, 0x77], 0xe1, [0x14, 0x77]);
      FeedOne(d1, [0x14, 0x77], 0x14, [0x77]);
      FeedOne(d2, [0x77], 0x77, []);
    }
  }

  /** Each sequence gives one keystroke for its event and leaves the decoder in the normal state. */
  lemma EventDecodes(d: Decoder, e: Event)
    requires d.Normal() && Sendable(e.key)
    ensures var (d', ks) := FeedAll(d, Bytes(e));
      && d'.Normal() && |ks| == 1
      && DownKeys(d'.down) == Held(DownKeys(d.down), e)
      && Reports(ks[0], e, Held(DownKeys(d.down), e))
  {
    match e.key
    case NormalCode(_) => PlainSequence(d, e);
    case ExtendedCode(_) => PlainSequence(d, e);
    case PrintScreen => PrintScreenSequence(d, e.released);
    case Pause => PauseSequence(d, e.released);
  }

  /** Decoder round trip: any events, in order, one keystroke each. */
  lemma {:induction false} EventsDecode(d: Decoder, events: seq<Event>)
    requires d.Normal() && forall e :: e in events ==> Sendable(e.key)
    ensures var (d', ks) := FeedAll(d, AllBytes(events));
      && d'.Normal() && |ks| == |events|
      && AllReport(ks, events, DownKeys(d.down))
    decreases |events|
  {
    if events != [] {
      var e := events[0];
      EventDecodes(d, e);
      FeedConcat(d, Bytes(e), AllBytes(events[1..]));
      var (d1, ks) := FeedAll(d, Bytes(e));
      EventsDecode(d1, events[1..]);
      var (d2, rest) := FeedAll(d1, AllBytes(events[1..]));
      assert (ks + rest)[1..] == rest;
    }
  }
}
