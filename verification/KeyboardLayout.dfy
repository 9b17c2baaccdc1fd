/** The tables of the decoder lay out a US keyboard (kernel/src/kbd.c). */
module KeyboardLayout {
  import opened Wrappers
  import opened Keyboard

  /** The scancodes of a row of keys give key codes in sequence. */
  predicate InSequence(codes: seq<Byte>, first: Byte) {
    forall i :: 0 <= i < |codes| ==> NormalKey(codes[i]) == first + i
  }

  /** What the keys of a row type, plain and with shift. */
  predicate Types(first: Byte, plain: string, shifted: string)
    requires first + |plain| <= 0x100
  {
    |plain| == |shifted| && forall i :: 0 <= i < |plain| ==>
      Plain(first + i) == plain[i] && Shifted(first + i) == shifted[i]
  }

  /** Scancode set 2 of the row, from left to right. */
  const DIGITS_ROW: seq<Byte> := [0x0e, 0x16, 0x1e, 0x26, 0x25, 0x2e, 0x36, 0x3d, 0x3e, 0x46, 0x45, 0x4e, 0x55]

  /** Scancode set 2 of the row, from left to right. */
  const UPPER_ROW: seq<Byte> := [0x15, 0x1d, 0x24, 0x2d, 0x2c, 0x35, 0x3c, 0x43, 0x44, 0x4d, 0x54, 0x5b, 0x5d]

  /** Scancode set 2 of the row, from left to right. */
  const HOME_ROW: seq<Byte> := [0x1c, 0x1b, 0x23, 0x2b, 0x34, 0x33, 0x3b, 0x42, 0x4b, 0x4c, 0x52]

  /** Scancode set 2 of the row, from left to right. */
  const LOWER_ROW: seq<Byte> := [0x1a, 0x22, 0x21, 0x2a, 0x32, 0x31, 0x3a, 0x41, 0x49, 0x4a]

  lemma DigitsLeft()
    ensures NormalKey(0x0e) == 0x80 && NormalKey(0x16) == 0x81 && NormalKey(0x1e) == 0x82 && NormalKey(0x26) == 0x83
    ensures NormalKey(0x25) == 0x84 && NormalKey(0x2e) == 0x85 && NormalKey(0x36) == 0x86
  {
  }

  lemma DigitsRight()
    ensures NormalKey(0x3d) == 0x87 && NormalKey(0x3e) == 0x88 && NormalKey(0x46) == 0x89 && NormalKey(0x45) == 0x8a
    ensures NormalKey(0x4e) == 0x8b && NormalKey(0x55) == 0x8c
  {
  }

  lemma DigitsKeys()
    ensures InSequence(DIGITS_ROW, 0x80) && |DIGITS_ROW| == 13
  {
    hide NormalKey;
    DigitsLeft();
    DigitsRight();
  }

  lemma UpperLeft()
    ensures NormalKey(0x15) == 0x61 && NormalKey(0x1d) == 0x62 && NormalKey(0x24) == 0x63 && NormalKey(0x2d) == 0x64
    ensures NormalKey(0x2c) == 0x65 && NormalKey(0x35) == 0x66 && NormalKey(0x3c) == 0x67
  {
  }

  lemma UpperRight()
    ensures NormalKey(0x43) == 0x68 && NormalKey(0x44) == 0x69 && NormalKey(0x4d) == 0x6a && NormalKey(0x54) == 0x6b
    ensures NormalKey(0x5b) == 0x6c && NormalKey(0x5d) == 0x6d
  {
  }

  lemma UpperKeys()
    ensures InSequence(UPPER_ROW, 0x61) && |UPPER_ROW| == 13
  {
    hide NormalKey;
    UpperLeft();
    UpperRight();
  }

  lemma HomeLeft()
    ensures NormalKey(0x1c) == 0x41 && NormalKey(0x1b) == 0x42 && NormalKey(0x23) == 0x43 && NormalKey(0x2b) == 0x44
    ensures NormalKey(0x34) == 0x45 && NormalKey(0x33) == 0x46
  {
  }

  lemma HomeRight()
    ensures NormalKey(0x3b) == 0x47 && NormalKey(0x42) == 0x48 && NormalKey(0x4b) == 0x49 && NormalKey(0x4c) == 0x4a
    ensures NormalKey(0x52) == 0x4b
  {
  }

  lemma HomeKeys()
    ensures InSequence(HOME_ROW, 0x41) && |HOME_ROW| == 11
  {
    hide NormalKey;
    HomeLeft();
    HomeRight();
  }

  lemma LowerLeft()
    ensures NormalKey(0x1a) == 0x21 && NormalKey(0x22) == 0x22 && NormalKey(0x21) == 0x23 && NormalKey(0x2a) == 0x24
    ensures NormalKey(0x32) == 0x25
  {
  }

  lemma LowerRight()
    ensures NormalKey(0x31) == 0x26 && NormalKey(0x3a) == 0x27 && NormalKey(0x41) == 0x28 && NormalKey(0x49) == 0x29
    ensures NormalKey(0x4a) == 0x2a
  {
  }

  lemma LowerKeys()
    ensures InSequence(LOWER_ROW, 0x21) && |LOWER_ROW| == 10
  {
    hide NormalKey;
    LowerLeft();
    LowerRight();
  }

  /** The keys of the four rows type the characters of a US keyboard, with and without shift. */
  lemma UsLayout()
    ensures InSequence(DIGITS_ROW, 0x80) && |DIGITS_ROW| == 13 && Types(0x80, "`1234567890-=", "~!@#$%^&*()_+")
    ensures InSequence(UPPER_ROW, 0x61) && |UPPER_ROW| == 13 && Types(0x61, "qwertyuiop[]\\", "QWERTYUIOP{}|")
    ensures InSequence(HOME_ROW, 0x41) && |HOME_ROW| == 11 && Types(0x41, "asdfghjkl;'", "ASDFGHJKL:\"")
    ensures InSequence(LOWER_ROW, 0x21) && |LOWER_ROW| == 10 && Types(0x21, "zxcvbnm,./", "ZXCVBNM<>?")
  {
    hide NormalKey, InSequence;
    DigitsKeys();
    UpperKeys();
    HomeKeys();
    LowerKeys();
  }
}
