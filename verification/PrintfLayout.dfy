/** Where each part of the output stands: plain text, conversions, and the inside of a field (libc/stdio/printf.c). */
module PrintfLayout {
  import opened Wrappers
  import opened Arith
  import opened Printf
  import opened PrintfText

  // ---- the whole output ----

  lemma BeforeBefore(a: string, b: string, r: Printed)
    ensures Before(a, Before(b, r)) == Before(a + b, r)
  {
    if r.Printed? {
      assert a + (b + r.out) == a + b + r.out;
    }
  }

  lemma PlainCharacter(format: string, i: nat, args: seq<Arg>, k: nat, count: int)
    requires i < |format| && format[i] != '%' && format[i] != NUL
    ensures Print(format, i, args, k, count) == Before([format[i]], Print(format, i + 1, args, k, count + 1))
  {
    hide ScanSpec, Convert, Before;
  }

  lemma NothingBefore(r: Printed)
    ensures Before("", r) == r
  {
    if r.Printed? {
      assert "" + r.out == r.out;
    }
  }

  /** Text without a percent sign is emitted as it stands, and counted. */
  lemma {:induction false} PlainText(format: string, i: nat, j: nat, args: seq<Arg>, k: nat, count: int)
    requires i <= j <= |format| && '%' !in format[i..j] && NUL !in format[i..j]
    ensures Print(format, i, args, k, count) == Before(format[i..j], Print(format, j, args, k, count + (j - i)))
    decreases j - i
  {
    hide *;
    if i == j {
      assert format[i..j] == "";
      NothingBefore(Print(format, j, args, k, count));
    } else {
      assert format[i..j] == [format[i]] + format[i + 1..j];
      PlainCharacter(format, i, args, k, count);
      PlainText(format, i + 1, j, args, k, count + 1);
      BeforeBefore([format[i]], format[i + 1..j], Print(format, j, args, k, count + (j - i)));
    }
  }

  /** Two percent signs are one, and take no argument. */
  lemma PercentSign(format: string, i: nat, args: seq<Arg>, k: nat, count: int)
    requires i + 2 <= |format| && format[i..i + 2] == "%%"
    ensures Print(format, i, args, k, count) == Before("%", Print(format, i + 2, args, k, count + 1))
  {
    assert format[i] == format[i..i + 2][0] && format[i + 1] == format[i..i + 2][1];
    hide Field, Digits;
  }

  /** %c is the character with the low byte of its argument. */
  lemma Character(format: string, i: nat, args: seq<Arg>, k: nat, count: int, c: char)
    requires i + 2 <= |format| && format[i..i + 2] == "%c" && k < |args| && args[k].Word?
    requires c as nat < 0x100 && (c as nat - args[k].bits) % 0x100 == 0
    ensures Print(format, i, args, k, count) == Before([c], Print(format, i + 2, args, k + 1, count + 1))
  {
    assert format[i] == format[i..i + 2][0] && format[i + 1] == format[i..i + 2][1];
    ModIs(c as nat, args[k].bits, 0x100);
    hide Field, Digits;
  }

  /** A conversion other than a percent sign takes one argument. A string conversion emits the argument's field. Any
    * letter that is no conversion makes vprintf give up. */
  lemma ConversionUses(spec: Spec, args: seq<Arg>, k: nat)
    ensures var c := Convert(spec, args, k);
      && (c.Emits? ==> c.used == if spec.kind == '%' then k else k + 1)
      && (c.Emits? && spec.kind == 's' ==> c.text == StringText(spec, args[k].s))
      && (c.Unsupported? <==> spec.kind !in "diuoxXpcsn%")
  {
    hide Field, NumberDigits, SignedDigits, StringText;
  }

  /** A pointer is 0x and 16 lower-case digits, and reads back as the argument. */
  lemma PointerText(args: seq<Arg>, k: nat)
    requires k < |args| && args[k].Word? && args[k].bits < TWO_64
    ensures var c := Convert(NO_SPEC.(kind := 'p'), args, k);
      && c.Emits? && |c.text| == 18 && c.text[..2] == "0x" && ReadNumber(c.text, 16) == args[k].bits
  {
    var spec, v := NO_SPEC.(kind := 'p'), args[k].bits;
    UnsignedReadsBack(spec, args, k, v);
    UnsignedField(spec, args, k);
    UnsignedValue(v, v, 2);
    var s, digits := Pointer(spec), NumberDigits(v, 16, false, 16);
    SixteenDigits(v);
    FieldLaidOut(s, false, digits);
    hide Field, Convert, ReadNumber, NumberDigits, UnsignedArg;
  }

  lemma SixteenDigits(v: nat)
    requires v < TWO_64
    ensures |NumberDigits(v, 16, false, 16)| <= 16
  {
    PowAdd(16, 8, 8);
    assert Pow(16, 8) == TWO_32;
    if v > 0 {
      DigitsFit(v, 16, false, 16);
    }
  }

  // ---- a number field ----

  /** A field is sign, prefix, zeros up to the precision, and the digits with the first one in front. The padding up to
    * the width stands behind all that with the minus flag, between prefix and number with the zero flag alone, and in
    * front of all without either. */
  lemma FieldLaidOut(s: Spec, neg: bool, digits: string)
    ensures
      var sign := if neg then "-" else if s.sign then "+" else if s.space then " " else "";
      var prefix := if !s.hash then "" else match s.kind case 'o' => "0" case 'x' => "0x" case 'X' => "0X" case _ => "";
      var front, number := sign + prefix, Repeat('0', s.precision - |digits|) + Reversed(digits);
      var room := s.width - |front| - |number|;
      Field(s, neg, digits) ==
        if s.left then front + number + Repeat(if s.zero then '0' else ' ', room)
        else if s.zero then front + Repeat('0', room) + number
        else Repeat(' ', room) + front + number
  {
    FieldParts(s, neg, digits);
    FieldCases(s, neg, digits);
    hide *;
  }

  lemma FieldParts(s: Spec, neg: bool, digits: string)
    ensures SignText(s, neg) == if neg then "-" else if s.sign then "+" else if s.space then " " else ""
    ensures PrefixText(s) ==
      if !s.hash then "" else match s.kind case 'o' => "0" case 'x' => "0x" case 'X' => "0X" case _ => ""
    ensures Body(s, digits) == Repeat('0', s.precision - |digits|) + Reversed(digits)
    ensures RealLen(s, neg, digits) == |SignText(s, neg) + PrefixText(s)| + |Body(s, digits)|
  {
  }

  lemma FieldCases(s: Spec, neg: bool, digits: string)
    ensures
      var front, number, room := SignText(s, neg) + PrefixText(s), Body(s, digits), s.width - RealLen(s, neg, digits);
      Field(s, neg, digits) ==
        if s.left then front + number + Repeat(if s.zero then '0' else ' ', room)
        else if s.zero then front + Repeat('0', room) + number
        else Repeat(' ', room) + front + number
  {
    if !(neg || s.sign || s.space || s.hash) {
      NothingInFront(s, neg);
    }
    hide SignText, PrefixText, Body, RealLen, Repeat;
    var front, number, room := SignText(s, neg) + PrefixText(s), Body(s, digits), s.width - RealLen(s, neg, digits);
    Unpadded(front, number, room);
  }

  lemma NothingInFront(s: Spec, neg: bool)
    requires !(neg || s.sign || s.space || s.hash)
    ensures SignText(s, neg) + PrefixText(s) == ""
  {
  }

  lemma Unpadded(front: string, number: string, room: int)
    ensures room <= 0 ==> forall c :: front + number + Repeat(c, room) == front + number
    ensures room <= 0 ==> forall c :: front + Repeat(c, room) + number == front + number
    ensures room <= 0 ==> forall c :: Repeat(c, room) + front + number == front + number
    ensures front == "" ==> forall c :: front + Repeat(c, room) + number == Repeat(c, room) + front + number
  {
  }

  /** 0 is the digit 0, or nothing at precision 0; no other number starts with one. */
  lemma NoSpareZero(v: nat, base: nat, upper: bool, precision: int)
    requires 2 <= base <= 16
    ensures var digits := Reversed(NumberDigits(v, base, upper, precision));
      if v > 0 then digits != "" && digits[0] != '0' else digits == if precision == 0 then "" else "0"
  {
    if v > 0 {
      LastNotZero(v, base, upper);
      ReversedFirst(Digits(v, base, upper));
    } else if precision != 0 {
      assert "0"[1..] == "" && Reversed("0") == Reversed("") + "0" == "0";
    }
  }

  /** A string field is the string, cut to the precision if there is one, with blanks up to the width on its left, or on
    * its right with the minus flag. */
  lemma StringLaidOut(s: Spec, t: string)
    ensures var n := if s.precision < 0 then |t| else Min(|t|, s.precision);
      var text := StringText(s, t);
      && |text| == Max(n, s.width)
      && (if s.left then text[..n] == t[..n] && forall i :: n <= i < |text| ==> text[i] == ' '
          else text[|text| - n..] == t[..n] && forall i :: 0 <= i < |text| - n ==> text[i] == ' ')
  {
  }

  // ---- the case of letters ----

  predicate InCase(s: string, upper: bool) {
    forall i :: 0 <= i < |s| ==> !(if upper then 'a' <= s[i] <= 'z' else 'A' <= s[i] <= 'Z')
  }

  lemma {:induction false} DigitsInCase(v: nat, base: nat, upper: bool)
    requires 2 <= base <= 16
    ensures InCase(Digits(v, base, upper), upper)
    decreases v
  {
    if v > 0 {
      var (q, x) := Split(v, base);
      DigitsInCase(q, base, upper);
    }
  }

  lemma {:induction false} ReversedInCase(s: string, upper: bool)
    requires InCase(s, upper)
    ensures InCase(Reversed(s), upper)
    decreases |s|
  {
    if s != "" {
      forall i | 0 <= i < |s[1..]| ensures s[1..][i] == s[i + 1] {
      }
      ReversedInCase(s[1..], upper);
    }
  }

  /** Prefix and digits of x and p are in lower case, those of X in upper case. */
  lemma HexInCase(spec: Spec, args: seq<Arg>, k: nat)
    requires spec.kind in "xXp" && Convert(spec, args, k).Emits?
    ensures InCase(Convert(spec, args, k).text, spec.kind == 'X')
  {
    var s, upper := Pointer(spec), spec.kind == 'X';
    UnsignedField(spec, args, k);
    var v := UnsignedArg(args[k].bits, s.length).value;
    HexField(s, NumberDigits(v, 16, upper, s.precision), v, upper);
  }

  lemma JoinInCase(a: string, b: string, c: string, upper: bool)
    requires InCase(a, upper) && InCase(b, upper) && InCase(c, upper)
    ensures InCase(a + b + c, upper) && InCase(a + b, upper)
  {
  }

  /** Everything in a field but its digits is in the case of its conversion. */
  lemma PartsInCase(s: Spec, digits: string, n: int, upper: bool)
    requires InCase(digits, upper) && s.kind == (if upper then 'X' else 'x')
    ensures InCase(SignText(s, false) + PrefixText(s), upper) && InCase(Body(s, digits), upper)
    ensures InCase(Repeat('0', n), upper) && InCase(Repeat(' ', n), upper)
  {
    ReversedInCase(digits, upper);
    JoinInCase(SignText(s, false), PrefixText(s), "", upper);
    JoinInCase(Repeat('0', s.precision - |digits|), Reversed(digits), "", upper);
  }

  lemma HexField(s: Spec, digits: string, v: nat, upper: bool)
    requires digits == NumberDigits(v, 16, upper, s.precision) && s.kind == (if upper then 'X' else 'x')
    ensures InCase(Field(s, false, digits), upper)
  {
    var front, number, room := SignText(s, false) + PrefixText(s), Body(s, digits), s.width - RealLen(s, false, digits);
    DigitsInCase(v, 16, upper);
    PartsInCase(s, digits, room, upper);
    FieldCases(s, false, digits);
    hide *;
    JoinInCase(front, number, Repeat(if s.zero then '0' else ' ', room), upper);
    JoinInCase(front, Repeat('0', room), number, upper);
    JoinInCase(Repeat(' ', room), front, number, upper);
  }
}
