/** A conversion specification written out is read back (libc/stdio/printf.c). */
module PrintfSpec {
  import opened Wrappers
  import opened Arith
  import opened Printf
  import opened PrintfText

  function Flag(on: bool, c: char): string {
    if on then [c] else ""
  }

  /** A number in decimal; nothing for 0. */
  function Decimal(n: nat): string {
    Reversed(Digits(n, 10, false))
  }

  function FlagsText(s: Spec): string {
    Flag(s.left, '-') + Flag(s.sign, '+') + Flag(s.space, ' ') + Flag(s.hash, '#') + Flag(s.zero, '0')
  }

  function LengthText(length: int): string {
    if length == -1 then "h" else if length == -2 then "hh"
    else if length == 1 then "l" else if length == 2 then "ll"
    else if length == 3 then "j" else if length == 4 then "z" else if length == 5 then "t"
    else if length == 6 then "L" else ""
  }

  function PrecisionText(s: Spec): string {
    if s.dot && s.precision >= 0 then "." + Decimal(s.precision) else ""
  }

  /** A specification that can be written without stars. */
  predicate Writable(s: Spec) {
    && s.width >= 0 && -2 <= s.length <= 6
    && (if s.dot then s.precision >= 0 else s.precision == -1)
    && s.kind != NUL && s.kind != '*' && !Modifies(s.kind)
  }

  function SpecText(s: Spec): string
    requires Writable(s)
  {
    FlagsText(s) + Decimal(s.width) + PrecisionText(s) + LengthText(s.length) + [s.kind]
  }

  /** The text stands in the format at i. */
  predicate Stands(format: string, i: nat, text: string) {
    i + |text| <= |format| && format[i..i + |text|] == text
  }

  lemma StandsSplit(format: string, i: nat, a: string, b: string)
    requires Stands(format, i, a + b)
    ensures Stands(format, i, a) && Stands(format, i + |a|, b)
  {
    var t := format[i..i + |a + b|];
    assert format[i..i + |a|] == t[..|a|] == a;
    assert format[i + |a|..i + |a| + |b|] == t[|a|..] == b;
  }

  /** Scanning from i with s comes to j with s'. */
  predicate Reads(format: string, i: nat, j: nat, args: seq<Arg>, k: nat, s: Spec, s': Spec) {
    ScanSpec(format, i, args, k, s) == ScanSpec(format, j, args, k, s')
  }

  lemma Then(format: string, i: nat, j: nat, l: nat, args: seq<Arg>, k: nat, s: Spec, s1: Spec, s2: Spec)
    requires Reads(format, i, j, args, k, s, s1) && Reads(format, j, l, args, k, s1, s2)
    ensures Reads(format, i, l, args, k, s, s2)
  {
  }

  lemma ReadsNothing(format: string, i: nat, args: seq<Arg>, k: nat, s: Spec)
    ensures Reads(format, i, i, args, k, s, s)
  {
  }

  /** One modifier is read. */
  lemma ReadsOne(format: string, i: nat, args: seq<Arg>, k: nat, s: Spec, c: char)
    requires Stands(format, i, [c]) && Modifies(c) && Modify(s, c).Some?
    ensures Reads(format, i, i + 1, args, k, s, Modify(s, c).value)
  {
    assert format[i..i + 1][0] == format[i];
  }

  lemma ReadsFlag(format: string, i: nat, args: seq<Arg>, k: nat, s: Spec, on: bool, c: char, s': Spec)
    requires Stands(format, i, Flag(on, c)) && Modifies(c) && Modify(s, c) == Some(s')
    ensures Reads(format, i, i + |Flag(on, c)|, args, k, s, if on then s' else s)
  {
    if on {
      ReadsOne(format, i, args, k, s, c);
    }
  }

  /** The specification after each flag. */
  function After1(s: Spec): Spec { NO_SPEC.(left := s.left) }

  function After2(s: Spec): Spec { After1(s).(sign := s.sign) }

  function After3(s: Spec): Spec { After2(s).(space := s.space) }

  function After4(s: Spec): Spec { After3(s).(hash := s.hash) }

  function After5(s: Spec): Spec { After4(s).(zero := s.zero) }

  lemma ReadsFlag1(format: string, i: nat, args: seq<Arg>, k: nat, s: Spec)
    requires Stands(format, i, Flag(s.left, '-'))
    ensures Reads(format, i, i + |Flag(s.left, '-')|, args, k, NO_SPEC, After1(s))
  {
    ReadsFlag(format, i, args, k, NO_SPEC, s.left, '-', NO_SPEC.(left := true));
  }

  lemma ReadsFlag2(format: string, i: nat, args: seq<Arg>, k: nat, s: Spec)
    requires Stands(format, i, Flag(s.sign, '+'))
    ensures Reads(format, i, i + |Flag(s.sign, '+')|, args, k, After1(s), After2(s))
  {
    ReadsFlag(format, i, args, k, After1(s), s.sign, '+', After1(s).(sign := true));
  }

  lemma ReadsFlag3(format: string, i: nat, args: seq<Arg>, k: nat, s: Spec)
    requires Stands(format, i, Flag(s.space, ' '))
    ensures Reads(format, i, i + |Flag(s.space, ' ')|, args, k, After2(s), After3(s))
  {
    ReadsFlag(format, i, args, k, After2(s), s.space, ' ', After2(s).(space := true));
  }

  lemma ReadsFlag4(format: string, i: nat, args: seq<Arg>, k: nat, s: Spec)
    requires Stands(format, i, Flag(s.hash, '#'))
    ensures Reads(format, i, i + |Flag(s.hash, '#')|, args, k, After3(s), After4(s))
  {
    ReadsFlag(format, i, args, k, After3(s), s.hash, '#', After3(s).(hash := true));
  }

  lemma ReadsFlag5(format: string, i: nat, args: seq<Arg>, k: nat, s: Spec)
    requires Stands(format, i, Flag(s.zero, '0'))
    ensures Reads(format, i, i + |Flag(s.zero, '0')|, args, k, After4(s), After5(s))
  {
    ReadsFlag(format, i, args, k, After4(s), s.zero, '0', After4(s).(zero := true));
  }

  lemma ReadsFlags(format: string, i: nat, args: seq<Arg>, k: nat, s: Spec)
    requires Stands(format, i, FlagsText(s))
    ensures Reads(format, i, i + |FlagsText(s)|, args, k, NO_SPEC, After5(s))
  {
    hide ScanSpec, Stands, Flag, Reads, After1, After2, After3, After4, After5;
    var a, b, c, d, e := Flag(s.left, '-'), Flag(s.sign, '+'), Flag(s.space, ' '), Flag(s.hash, '#'), Flag(s.zero, '0');
    StandsSplit(format, i, a + b + c + d, e);
    StandsSplit(format, i, a + b + c, d);
    StandsSplit(format, i, a + b, c);
    StandsSplit(format, i, a, b);
    var i1: nat := i + |a|;
    var i2: nat := i1 + |b|;
    var i3: nat := i2 + |c|;
    var i4: nat := i3 + |d|;
    ReadsFlag1(format, i, args, k, s);
    ReadsFlag2(format, i1, args, k, s);
    ReadsFlag3(format, i2, args, k, s);
    ReadsFlag4(format, i3, args, k, s);
    ReadsFlag5(format, i4, args, k, s);
    Then(format, i, i1, i2, args, k, NO_SPEC, After1(s), After2(s));
    Then(format, i, i2, i3, args, k, NO_SPEC, After2(s), After3(s));
    Then(format, i, i3, i4, args, k, NO_SPEC, After3(s), After4(s));
    Then(format, i, i4, i4 + |e|, args, k, NO_SPEC, After4(s), After5(s));
  }

  /** Digits that do not start with a zero that could be taken for the flag. */
  predicate NumberNext(s: Spec, digits: string) {
    && AllDigits(digits, 10)
    && (s.dot || s.zero || s.width > 0 || digits == "" || digits[0] != '0')
  }

  /** The specification after a decimal number: the precision after the dot, else the width. */
  function WithNumber(s: Spec, n: int): Spec {
    if s.dot then s.(precision := n) else s.(width := n)
  }

  function NumberOf(s: Spec): int {
    if s.dot then s.precision else s.width
  }

  /** Digits are read into the precision after the dot, else into the width. */
  lemma {:induction false} ReadsDigits(format: string, i: nat, args: seq<Arg>, k: nat, s: Spec, digits: string)
    requires Stands(format, i, digits) && NumberNext(s, digits) && NumberOf(s) >= 0
    ensures Reads(format, i, i + |digits|, args, k, s, WithNumber(s, ReadDigits(digits, 10, NumberOf(s))))
    decreases |digits|
  {
    hide *;
    if digits != "" {
      var c, rest := digits[0], digits[1..];
      assert digits == [c] + rest;
      StandsSplit(format, i, [c], rest);
      var n := ReadDigits(digits, 10, NumberOf(s));
      DigitStep(s, digits, n);
      var s1 := Modify(s, c).value;
      ReadsOne(format, i, args, k, s, c);
      ReadsDigits(format, i + 1, args, k, s1, rest);
      Then(format, i, i + 1, i + |digits|, args, k, s, s1, WithNumber(s, n));
    } else {
      NoDigits(s);
      ReadsNothing(format, i, args, k, s);
    }
  }

  lemma NoDigits(s: Spec)
    requires NumberOf(s) >= 0
    ensures WithNumber(s, ReadDigits("", 10, NumberOf(s))) == s
  {
  }

  /** One more digit. */
  lemma DigitStep(s: Spec, digits: string, n: nat)
    requires digits != "" && NumberNext(s, digits) && NumberOf(s) >= 0 && n == ReadDigits(digits, 10, NumberOf(s))
    ensures IsDigit(digits[0], 10) && Modifies(digits[0]) && Modify(s, digits[0]).Some?
    ensures var s1 := Modify(s, digits[0]).value;
      && NumberNext(s1, digits[1..])
      && NumberOf(s1) >= 0 && ReadDigits(digits[1..], 10, NumberOf(s1)) == n
      && WithNumber(s1, n) == WithNumber(s, n)
  {
    var c := digits[0];
    DecimalChar(c);
    forall j | 0 <= j < |digits[1..]| ensures digits[1..][j] == digits[j + 1] {
    }
  }

  lemma DecimalChar(c: char)
    requires IsDigit(c, 10)
    ensures '0' <= c <= '9' && Modifies(c) && DigitValue(c) == DigitOf(c).value && (DigitValue(c) == 0 <==> c == '0')
  {
  }

  lemma DecimalNext(n: nat)
    ensures AllDigits(Decimal(n), 10) && ReadDigits(Decimal(n), 10, 0) == n
    ensures Decimal(n) == "" || Decimal(n)[0] != '0'
  {
    DigitsRead(n, 10, false);
    if n > 0 {
      LastNotZero(n, 10, false);
      ReversedFirst(Digits(n, 10, false));
    }
  }

  lemma DotIs(s: Spec)
    requires !s.dot
    ensures Modifies('.') && Modify(s, '.') == Some(s.(dot := true, precision := 0))
  {
  }

  lemma PrecisionIs(t: Spec)
    requires Writable(t)
    ensures if t.dot then t.precision >= 0 else t.precision == -1
    ensures PrecisionText(t) == if t.dot then "." + Decimal(t.precision) else ""
  {
    hide Decimal;
  }

  lemma AfterDot(s: Spec, n: nat)
    requires s.dot && s.precision == 0
    ensures NumberNext(s, Decimal(n)) && NumberOf(s) == 0
    ensures WithNumber(s, ReadDigits(Decimal(n), 10, 0)) == s.(precision := n)
  {
    DecimalNext(n);
    hide AllDigits, Decimal, ReadDigits;
  }

  lemma ReadsDot(format: string, i: nat, args: seq<Arg>, k: nat, s: Spec, n: nat)
    requires Stands(format, i, "." + Decimal(n)) && !s.dot && s.precision == -1
    ensures Reads(format, i, i + 1 + |Decimal(n)|, args, k, s, s.(dot := true, precision := n))
  {
    hide *;
    DotIs(s);
    var s1 := s.(dot := true, precision := 0);
    StandsSplit(format, i, ".", Decimal(n));
    ReadsOne(format, i, args, k, s, '.');
    AfterDot(s1, n);
    ReadsDigits(format, i + 1, args, k, s1, Decimal(n));
    Then(format, i, i + 1, i + 1 + |Decimal(n)|, args, k, s, s1, s.(dot := true, precision := n));
  }

  lemma ReadsPrecision(format: string, i: nat, args: seq<Arg>, k: nat, s: Spec, t: Spec)
    requires Writable(t) && Stands(format, i, PrecisionText(t)) && !s.dot && s.precision == -1
    ensures Reads(format, i, i + |PrecisionText(t)|, args, k, s, s.(dot := t.dot, precision := t.precision))
  {
    hide *;
    PrecisionIs(t);
    if !t.dot {
      assert s.(dot := t.dot, precision := t.precision) == s;
      ReadsNothing(format, i, args, k, s);
    } else {
      ReadsDot(format, i, args, k, s, t.precision);
    }
  }

  lemma ReadsLength(format: string, i: nat, args: seq<Arg>, k: nat, s: Spec, length: int)
    requires -2 <= length <= 6 && Stands(format, i, LengthText(length)) && s.length == 0
    ensures Reads(format, i, i + |LengthText(length)|, args, k, s, s.(length := length))
  {
    var text := LengthText(length);
    if text == "" {
      assert s.(length := length) == s;
    } else {
      LengthSteps(s, length);
      assert text == [text[0]] + text[1..];
      StandsSplit(format, i, [text[0]], text[1..]);
      hide ScanSpec, Modify, Modifies, Reads, Stands, LengthText;
      var s1 := Modify(s, text[0]).value;
      ReadsOne(format, i, args, k, s, text[0]);
      if |text| == 2 {
        assert text[1..] == [text[1]];
        ReadsOne(format, i + 1, args, k, s1, text[1]);
        Then(format, i, i + 1, i + 2, args, k, s, s1, s.(length := length));
      }
    }
  }

  lemma LengthSteps(s: Spec, length: int)
    requires -2 <= length <= 6 && s.length == 0 && LengthText(length) != ""
    ensures var t := LengthText(length);
      && |t| <= 2 && Modifies(t[0]) && Modify(s, t[0]).Some?
      && (|t| == 1 ==> Modify(s, t[0]).value == s.(length := length))
      && (|t| == 2 ==> Modifies(t[1]) && Modify(Modify(s, t[0]).value, t[1]) == Some(s.(length := length)))
  {
  }

  lemma ReadsKind(format: string, i: nat, args: seq<Arg>, k: nat, s: Spec, kind: char)
    requires Stands(format, i, [kind]) && kind != NUL && kind != '*' && !Modifies(kind)
    ensures ScanSpec(format, i, args, k, s) == Parsed(s.(kind := kind), i + 1, k)
  {
    assert format[i..i + 1][0] == format[i];
  }

  lemma ReadsMeans(format: string, i: nat, j: nat, args: seq<Arg>, k: nat, s: Spec, s': Spec)
    requires Reads(format, i, j, args, k, s, s')
    ensures ScanSpec(format, i, args, k, s) == ScanSpec(format, j, args, k, s')
  {
  }

  // ---- stars ----

  /** The width and the precision as they are written: a star for one that comes from the arguments. */
  function WidthText(s: Spec, star: bool): string {
    if star then "*" else if s.width >= 0 then Decimal(s.width) else ""
  }

  function StarText(s: Spec, starWidth: bool, starPrecision: bool): string {
    FlagsText(s) + WidthText(s, starWidth) + (if starPrecision then ".*" else PrecisionText(s))
      + LengthText(s.length) + [s.kind]
  }

  /** Argument k is there, and the value of an int with its low bits is n. */
  predicate Supplies(args: seq<Arg>, k: nat, n: int) {
    k < |args| && args[k].Word? && IsSigned(n, args[k].bits, 0)
  }

  /** A specification whose stars are supplied by the arguments from k on, the width first. */
  predicate Supplied(s: Spec, starWidth: bool, starPrecision: bool, args: seq<Arg>, k: nat) {
    && -2 <= s.length <= 6 && s.kind != NUL && s.kind != '*' && !Modifies(s.kind)
    && (if starWidth then Supplies(args, k, s.width) else s.width >= 0)
    && (if starPrecision then s.dot && Supplies(args, if starWidth then k + 1 else k, s.precision)
        else if s.dot then s.precision >= 0 else s.precision == -1)
  }

  lemma ReadsStar(format: string, i: nat, args: seq<Arg>, k: nat, s: Spec, n: int)
    requires Stands(format, i, "*") && Supplies(args, k, n)
    ensures ScanSpec(format, i, args, k, s) == ScanSpec(format, i + 1, args, k + 1, WithNumber(s, n))
  {
    assert format[i..i + 1][0] == format[i];
    SignedValue(n, args[k].bits, 0);
  }

  lemma StarWidth(format: string, i: nat, args: seq<Arg>, k: nat, s: Spec, star: bool)
    requires Stands(format, i, WidthText(s, star)) && (if star then Supplies(args, k, s.width) else s.width >= 0)
    ensures ScanSpec(format, i, args, k, After5(s)) ==
      ScanSpec(format, i + |WidthText(s, star)|, args, if star then k + 1 else k, After5(s).(width := s.width))
  {
    hide ScanSpec, Decimal, Supplies, Stands;
    var s1 := After5(s);
    assert !s1.dot && s1.width == 0;
    if star {
      ReadsStar(format, i, args, k, s1, s.width);
    } else {
      DecimalNext(s.width);
      ReadsDigits(format, i, args, k, s1, Decimal(s.width));
    }
  }

  lemma StarPrecision(format: string, i: nat, args: seq<Arg>, k: nat, s: Spec, t: Spec, star: bool)
    requires Stands(format, i, if star then ".*" else PrecisionText(t))
    requires
      if star then t.dot && Supplies(args, k, t.precision) else if t.dot then t.precision >= 0 else t.precision == -1
    requires !s.dot && s.precision == -1 && -2 <= t.length <= 6 && t.kind != NUL && t.kind != '*' && !Modifies(t.kind)
    ensures ScanSpec(format, i, args, k, s) ==
      ScanSpec(format, i + |if star then ".*" else PrecisionText(t)|, args, if star then k + 1 else k,
               s.(dot := t.dot, precision := t.precision))
  {
    hide ScanSpec, Supplies, Modifies, PrecisionText, Modify;
    if star {
      DotIs(s);
      StandsSplit(format, i, ".", "*");
      ReadsOne(format, i, args, k, s, '.');
      ReadsStar(format, i + 1, args, k, s.(dot := true, precision := 0), t.precision);
    } else {
      assert PrecisionText(t) == PrecisionText(t.(width := 0)) by { SamePrecision(t); }
      ReadsPrecision(format, i, args, k, s, t.(width := 0));
    }
  }

  lemma SamePrecision(t: Spec)
    ensures PrecisionText(t) == PrecisionText(t.(width := 0))
  {
    hide Decimal;
  }

  /** A specification with stars is read back as well: a star before the dot takes its width from the next argument, one
    * behind the dot its precision. */
  lemma StarsReadBack(format: string, i: nat, args: seq<Arg>, k: nat, s: Spec, starWidth: bool, starPrecision: bool)
    requires Supplied(s, starWidth, starPrecision, args, k) && Stands(format, i, StarText(s, starWidth, starPrecision))
    ensures ScanSpec(format, i, args, k, NO_SPEC) ==
      Parsed(s, i + |StarText(s, starWidth, starPrecision)|,
             k + (if starWidth then 1 else 0) + (if starPrecision then 1 else 0))
  {
    hide ScanSpec, Stands, FlagsText, WidthText, PrecisionText, LengthText, Modifies, Supplies;
    var a, b, d := FlagsText(s), WidthText(s, starWidth), LengthText(s.length);
    var c := if starPrecision then ".*" else PrecisionText(s);
    StandsSplit(format, i, a + b + c + d, [s.kind]);
    StandsSplit(format, i, a + b + c, d);
    StandsSplit(format, i, a + b, c);
    StandsSplit(format, i, a, b);
    var i1: nat := i + |a|;
    var i2: nat := i1 + |b|;
    var i3: nat := i2 + |c|;
    var i4: nat := i3 + |d|;
    var s1 := After5(s);
    var s2 := s1.(width := s.width);
    var s3 := s2.(dot := s.dot, precision := s.precision);
    var k2: nat := if starWidth then k + 1 else k;
    var k3: nat := if starPrecision then k2 + 1 else k2;
    ReadsFlags(format, i, args, k, s);
    ReadsMeans(format, i, i1, args, k, NO_SPEC, s1);
    StarWidth(format, i1, args, k, s, starWidth);
    StarPrecision(format, i2, args, k2, s2, s, starPrecision);
    ReadsLength(format, i3, args, k3, s3, s.length);
    ReadsMeans(format, i3, i4, args, k3, s3, s3.(length := s.length));
    ReadsKind(format, i4, args, k3, s3.(length := s.length), s.kind);
  }

  /** Every specification written without stars, wherever it stands in a format, is read back as it was
    * meant: flags, width, precision, length modifier and conversion. */
  lemma SpecReadsBack(format: string, i: nat, args: seq<Arg>, k: nat, s: Spec)
    requires Writable(s) && Stands(format, i, SpecText(s))
    ensures ScanSpec(format, i, args, k, NO_SPEC) == Parsed(s, i + |SpecText(s)|, k)
  {
    hide ScanSpec, Stands, FlagsText, Decimal, PrecisionText, LengthText, Modifies;
    StarsReadBack(format, i, args, k, s, false, false);
  }

  /** A second dot is rejected, and so is a second length modifier, but for hh and ll. */
  lemma Rejected(format: string, i: nat, args: seq<Arg>, k: nat, s: Spec)
    requires i < |format|
    ensures format[i] == '.' && s.dot ==> ScanSpec(format, i, args, k, s) == Bad
    ensures
      var c := format[i];
      var twice := (c == 'h' && s.length == -1) || (c == 'l' && s.length == 1);
      c in "hljztL" && s.length != 0 && !twice ==> ScanSpec(format, i, args, k, s) == Bad
    ensures format[i] == NUL ==> ScanSpec(format, i, args, k, s) == Bad
  {
  }
}
