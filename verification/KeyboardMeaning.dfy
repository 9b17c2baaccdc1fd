/** What the keystrokes of a US keyboard say, told from its keys and scancodes (kernel/src/kbd.c). */
module KeyboardMeaning {
  import opened Wrappers
  import opened Keyboard
  import opened KeyboardLayout

  // ---- modifiers ----

  const LEFT_SHIFT := NormalCode(0x12)
  const RIGHT_SHIFT := NormalCode(0x59)
  const LEFT_CONTROL := NormalCode(0x14)
  const RIGHT_CONTROL := ExtendedCode(0x14)
  const LEFT_ALT := NormalCode(0x11)
  const RIGHT_ALT := ExtendedCode(0x11)

  const KEYPAD_PERIOD := NormalCode(0x71)
  const KEYPAD_ENTER := ExtendedCode(0x5a)

  /** Key_NumEnter of kbd.h. */
  const KEY_NUM_ENTER: Byte := 0x13

  predicate IsSpecial(code: Byte) {
    code in [L_SHIFT, R_SHIFT, L_CTRL, R_CTRL, L_ALT, R_ALT, KEY_NUM_ENTER]
  }

  lemma NormalRows023(i: nat)
    requires i < 16
    ensures !IsSpecial(NormalRow(0)[i]) && !IsSpecial(NormalRow(2)[i]) && !IsSpecial(NormalRow(3)[i])
  {
  }

  lemma NormalRows467(i: nat)
    requires i < 16
    ensures !IsSpecial(NormalRow(4)[i]) && !IsSpecial(NormalRow(6)[i])
    ensures IsSpecial(NormalRow(7)[i]) <==> i == 1
  {
  }

  lemma NormalRows158(i: nat)
    requires i < 16
    ensures IsSpecial(NormalRow(1)[i]) <==> i == 1 || i == 2 || i == 4
    ensures IsSpecial(NormalRow(5)[i]) <==> i == 9
    ensures i < 4 ==> !IsSpecial(NormalRow(8)[i])
  {
  }

  lemma ExtendedRows023(i: nat)
    requires i < 16
    ensures !IsSpecial(ExtendedRow(0)[i]) && !IsSpecial(ExtendedRow(2)[i]) && !IsSpecial(ExtendedRow(3)[i])
  {
  }

  lemma ExtendedRows45(i: nat)
    requires i < 16
    ensures !IsSpecial(ExtendedRow(4)[i]) && !IsSpecial(ExtendedRow(5)[i])
  {
  }

  lemma ExtendedRows167(i: nat)
    requires i < 16
    ensures IsSpecial(ExtendedRow(1)[i]) <==> i == 1 || i == 4
    ensures !IsSpecial(ExtendedRow(6)[i])
    ensures i < 14 ==> !IsSpecial(ExtendedRow(7)[i])
  {
  }

  lemma RowLengths(r: nat)
    ensures |NormalRow(r)| == if r < 8 then 16 else if r == 8 then 4 else 0
    ensures |ExtendedRow(r)| == if r < 7 then 16 else if r == 7 then 14 else 0
  {
  }

  lemma NormalSpecials(code: Byte)
    ensures IsSpecial(NormalKey(code)) <==> code in [0x11, 0x12, 0x14, 0x59, 0x71]
  {
    hide NormalRow, ExtendedRow, IsSpecial;
    assert !IsSpecial(INVALID) by { InvalidIsNone(); }
    RowLengths(code / 16);
    NormalRows023(code % 16);
    NormalRows467(code % 16);
    NormalRows158(code % 16);
  }

  lemma ExtendedSpecials(code: Byte)
    ensures IsSpecial(ExtendedKey(code)) <==> code in [0x11, 0x14]
  {
    hide NormalRow, ExtendedRow, IsSpecial;
    assert !IsSpecial(INVALID) by { InvalidIsNone(); }
    RowLengths(code / 16);
    ExtendedRows023(code % 16);
    ExtendedRows45(code % 16);
    ExtendedRows167(code % 16);
  }

  lemma InvalidIsNone()
    ensures !IsSpecial(INVALID) && !IsSpecial(PRINT_SCREEN) && !IsSpecial(PAUSE)
  {
  }

  lemma SpecialCodes()
    ensures NormalKey(0x71) == KEY_NUM_ENTER
    ensures NormalKey(0x12) == L_SHIFT && NormalKey(0x59) == R_SHIFT && NormalKey(0x14) == L_CTRL
    ensures ExtendedKey(0x14) == R_CTRL && NormalKey(0x11) == L_ALT && ExtendedKey(0x11) == R_ALT
  {
  }

  /** The modifier keys alone have the modifiers' codes, and the keypad's period alone has that of Key_NumEnter. */
  lemma SpecialKeys(key: Key)
    ensures KeyCode(key) == L_SHIFT <==> key == LEFT_SHIFT
    ensures KeyCode(key) == R_SHIFT <==> key == RIGHT_SHIFT
    ensures KeyCode(key) == L_CTRL <==> key == LEFT_CONTROL
    ensures KeyCode(key) == R_CTRL <==> key == RIGHT_CONTROL
    ensures KeyCode(key) == L_ALT <==> key == LEFT_ALT
    ensures KeyCode(key) == R_ALT <==> key == RIGHT_ALT
    ensures KeyCode(key) == KEY_NUM_ENTER <==> key == KEYPAD_PERIOD
  {
    hide NormalKey, ExtendedKey;
    SpecialCodes();
    InvalidIsNone();
    if key.NormalCode? {
      NormalSpecials(key.code);
    } else if key.ExtendedCode? {
      ExtendedSpecials(key.code);
    }
  }

  // ---- characters and codes ----

  /** The key is one of a row that types the characters of two strings, plain and with shift. */
  ghost predicate InRow(key: Key, codes: seq<Byte>, plain: string, shifted: string, p: char, s: char) {
    && |codes| == |plain| == |shifted|
    && exists i :: 0 <= i < |codes| && key == NormalCode(codes[i]) && p == plain[i] && s == shifted[i]
  }

  /** The keys of a US keyboard that type, with and without shift. */
  ghost predicate TypesAs(key: Key, p: char, s: char) {
    || InRow(key, DIGITS_ROW, "`1234567890-=", "~!@#$%^&*()_+", p, s)
    || InRow(key, UPPER_ROW, "qwertyuiop[]\\", "QWERTYUIOP{}|", p, s)
    || InRow(key, HOME_ROW, "asdfghjkl;'", "ASDFGHJKL:\"", p, s)
    || InRow(key, LOWER_ROW, "zxcvbnm,./", "ZXCVBNM<>?", p, s)
    || (key == NormalCode(0x29) && p == s == ' ')
    || (key in [NormalCode(0x5a), KEYPAD_ENTER] && p == s == '\n')
    || (key == NormalCode(0x0d) && p == s == '\t')
    || (key == NormalCode(0x66) && p == BACKSPACE && s == NUL)
    || (key in [ExtendedCode(0x6b), ExtendedCode(0x74), ExtendedCode(0x75), ExtendedCode(0x72)] && p == s == NUL)
  }

  const BACKSPACE := 8 as char

  /** The function keys from left to right, and the keypad's three rows of digits. */
  const FUNCTION_ROW: seq<Byte> := [0x05, 0x06, 0x04, 0x0c, 0x03, 0x0b, 0x83, 0x0a, 0x01, 0x09, 0x78, 0x07]
  const KEYPAD_123: seq<Byte> := [0x69, 0x72, 0x7a]
  const KEYPAD_456: seq<Byte> := [0x6b, 0x73, 0x74]
  const KEYPAD_789: seq<Byte> := [0x6c, 0x75, 0x7d]

  /** The key is one of a row whose codes in kbd.h follow each other. */
  ghost predicate InOrder(key: Key, codes: seq<Byte>, first: nat, code: Byte) {
    exists i :: 0 <= i < |codes| && key == NormalCode(codes[i]) && code == first + i
  }

  /** The code that kbd.h gives to a key: the rows of keys, and then Enter, Space, Backspace, Tab, Escape, Caps Lock and
    * the keypad's 0, the arrows, and Delete, End, Page Down, Insert, Home and Page Up. */
  ghost predicate HeaderCode(key: Key, code: Byte) {
    || InOrder(key, DIGITS_ROW, 0x80, code) || InOrder(key, UPPER_ROW, 0x61, code)
    || InOrder(key, HOME_ROW, 0x41, code) || InOrder(key, LOWER_ROW, 0x21, code)
    || InOrder(key, FUNCTION_ROW, 0xa1, code) || InOrder(key, KEYPAD_123, 0x31, code)
    || InOrder(key, KEYPAD_456, 0x51, code) || InOrder(key, KEYPAD_789, 0x71, code)
    || Single(key, code)
  }

  predicate Single(key: Key, code: Byte) {
    match key
    case NormalCode(c) =>
      (c, code) in [(0x5a, 0x4c), (0x29, 0x03), (0x66, 0x8d), (0x0d, 0x60), (0x76, 0xa0), (0x58, 0x40), (0x70, 0x11)]
    case ExtendedCode(c) =>
      || (c, code) in [(0x6b, 0x0e), (0x72, 0x0f), (0x74, 0x10), (0x75, 0x2f)]
      || (c, code) in [(0x71, 0x6e), (0x69, 0x6f), (0x7a, 0x70), (0x70, 0x8e), (0x6c, 0x8f), (0x7d, 0x90)]
    case _ => false
  }

  lemma FunctionLeft()
    ensures NormalKey(0x05) == 0xa1 && NormalKey(0x06) == 0xa2 && NormalKey(0x04) == 0xa3 && NormalKey(0x0c) == 0xa4
    ensures NormalKey(0x03) == 0xa5 && NormalKey(0x0b) == 0xa6
  {
  }

  lemma FunctionRight()
    ensures NormalKey(0x83) == 0xa7 && NormalKey(0x0a) == 0xa8 && NormalKey(0x01) == 0xa9 && NormalKey(0x09) == 0xaa
    ensures NormalKey(0x78) == 0xab && NormalKey(0x07) == 0xac
  {
  }

  lemma KeypadCodes()
    ensures NormalKey(0x69) == 0x31 && NormalKey(0x72) == 0x32 && NormalKey(0x7a) == 0x33 && NormalKey(0x6b) == 0x51
    ensures NormalKey(0x73) == 0x52 && NormalKey(0x74) == 0x53 && NormalKey(0x6c) == 0x71 && NormalKey(0x75) == 0x72
    ensures NormalKey(0x7d) == 0x73 && NormalKey(0x70) == 0x11 && NormalKey(0x76) == 0xa0 && NormalKey(0x58) == 0x40
  {
  }

  lemma NavigationCodes()
    ensures ExtendedKey(0x71) == 0x6e && ExtendedKey(0x69) == 0x6f && ExtendedKey(0x7a) == 0x70
    ensures ExtendedKey(0x70) == 0x8e && ExtendedKey(0x6c) == 0x8f && ExtendedKey(0x7d) == 0x90
  {
  }

  lemma CodeOfKey(key: Key, code: Byte)
    requires HeaderCode(key, code)
    ensures KeyCode(key) == code
  {
    hide NormalKey, ExtendedKey;
    DigitsKeys();
    UpperKeys();
    HomeKeys();
    LowerKeys();
    FunctionLeft();
    FunctionRight();
    KeypadCodes();
    NavigationCodes();
    OtherCodes();
  }

  lemma OtherCodes()
    ensures NormalKey(0x29) == 0x03 && NormalKey(0x5a) == 0x4c && NormalKey(0x0d) == 0x60 && NormalKey(0x66) == 0x8d
    ensures ExtendedKey(0x5a) == 0x14
    ensures ExtendedKey(0x6b) == 0x0e && ExtendedKey(0x74) == 0x10
    ensures ExtendedKey(0x75) == 0x2f && ExtendedKey(0x72) == 0x0f
  {
  }

  lemma OtherCharacters()
    ensures Plain(0x03) == Shifted(0x03) == ' ' && Plain(0x4c) == Shifted(0x4c) == '\n'
    ensures Plain(0x60) == Shifted(0x60) == '\t' && Plain(0x14) == Shifted(0x14) == '\n'
    ensures Plain(0x8d) == BACKSPACE && Shifted(0x8d) == NUL
    ensures forall code :: code in [0x0e, 0x10, 0x2f, 0x0f] ==> Plain(code) == Shifted(code) == NUL
  {
  }

  lemma TypedCharacter(key: Key, p: char, s: char)
    requires TypesAs(key, p, s)
    ensures Plain(KeyCode(key)) == p && Shifted(KeyCode(key)) == s
  {
    hide Plain, Shifted, NormalKey, ExtendedKey;
    UsLayout();
    OtherCodes();
    OtherCharacters();
  }

  // ---- what keystrokes say ----

  /** The keys held after an event. */
  function KeysHeld(held: set<Key>, e: Event): set<Key> {
    if e.released then held - {e.key} else held + {e.key}
  }

  /** The keystroke says whether the key went up, which modifier keys are held with it, the code the header gives the
    * key, and the character the key types. */
  ghost predicate Means(k: Keystroke, e: Event, held: set<Key>) {
    && k.released == e.released
    && (k.shift <==> LEFT_SHIFT in held || RIGHT_SHIFT in held)
    && (k.control <==> LEFT_CONTROL in held || RIGHT_CONTROL in held)
    && (k.alt <==> LEFT_ALT in held || RIGHT_ALT in held)
    && (forall code :: HeaderCode(e.key, code) ==> k.code == code)
    && (forall p, s :: TypesAs(e.key, p, s) ==> k.codepoint == if k.shift then s else p)
  }

  ghost predicate AllMean(ks: seq<Keystroke>, events: seq<Event>, held: set<Key>)
    decreases |events|
  {
    if events == [] then ks == []
    else
      && ks != [] && Means(ks[0], events[0], KeysHeld(held, events[0]))
      && AllMean(ks[1..], events[1..], KeysHeld(held, events[0]))
  }

  /** The decoder has the modifier keys down that are held. */
  predicate Agrees(codes: set<Byte>, held: set<Key>) {
    && (L_SHIFT in codes <==> LEFT_SHIFT in held) && (R_SHIFT in codes <==> RIGHT_SHIFT in held)
    && (L_CTRL in codes <==> LEFT_CONTROL in held) && (R_CTRL in codes <==> RIGHT_CONTROL in held)
    && (L_ALT in codes <==> LEFT_ALT in held) && (R_ALT in codes <==> RIGHT_ALT in held)
  }

  lemma StillAgrees(codes: set<Byte>, held: set<Key>, e: Event)
    requires Agrees(codes, held)
    ensures Agrees(Held(codes, e), KeysHeld(held, e))
  {
    hide KeyCode;
    SpecialKeys(e.key);
  }

  lemma ReportMeans(k: Keystroke, e: Event, codes: set<Byte>, held: set<Key>)
    requires Reports(k, e, codes) && Agrees(codes, held)
    ensures Means(k, e, held)
  {
    forall code | HeaderCode(e.key, code) ensures k.code == code {
      CodeOfKey(e.key, code);
    }
    forall p, s | TypesAs(e.key, p, s) ensures k.codepoint == if k.shift then s else p {
      TypedCharacter(e.key, p, s);
    }
    hide KeyCode, Plain, Shifted, TypesAs, HeaderCode;
  }

  lemma {:induction false} ReportsMean(ks: seq<Keystroke>, events: seq<Event>, codes: set<Byte>, held: set<Key>)
    requires AllReport(ks, events, codes) && Agrees(codes, held)
    ensures AllMean(ks, events, held)
    decreases |events|
  {
    hide Reports, Means, Agrees, Held, KeysHeld;
    if events != [] {
      StillAgrees(codes, held, events[0]);
      ReportMeans(ks[0], events[0], Held(codes, events[0]), KeysHeld(held, events[0]));
      ReportsMean(ks[1..], events[1..], Held(codes, events[0]), KeysHeld(held, events[0]));
    }
  }

  /** Whatever keys go down and up, there is one keystroke for each event that says what the keyboard's labels say. */
  lemma KeystrokesMean(d: Decoder, events: seq<Event>, held: set<Key>)
    requires d.Normal() && Agrees(DownKeys(d.down), held) && forall e :: e in events ==> Sendable(e.key)
    ensures |FeedAll(d, AllBytes(events)).1| == |events| && AllMean(FeedAll(d, AllBytes(events)).1, events, held)
  {
    hide FeedAll, AllBytes, AllReport, AllMean, Agrees, Sendable, DownKeys;
    EventsDecode(d, events);
    ReportsMean(FeedAll(d, AllBytes(events)).1, events, DownKeys(d.down), held);
  }

  /** The keypad's Enter does not send the code kbd.h gives to it. That code comes from the keypad's period, and from no
    * other key. */
  lemma KeypadEnter(d: Decoder, key: Key, released: bool)
    requires d.Normal() && Sendable(key)
    ensures var ks := FeedAll(d, Bytes(Event(key, released))).1;
      && |ks| == 1 && (ks[0].code == KEY_NUM_ENTER <==> key == KEYPAD_PERIOD)
      && (key == KEYPAD_ENTER ==> ks[0].code == KEY_NUM_ENTER + 1 && ks[0].codepoint == '\n')
  {
    hide FeedAll, KeyCode, Plain, Shifted;
    EventDecodes(d, Event(key, released));
    SpecialKeys(key);
    EnterTypes();
  }

  lemma EnterTypes()
    ensures KeyCode(KEYPAD_ENTER) == KEY_NUM_ENTER + 1 && Plain(0x14) == '\n' == Shifted(0x14)
  {
    hide NormalKey, ExtendedKey, Plain, Shifted;
    OtherCodes();
    OtherCharacters();
  }
}
