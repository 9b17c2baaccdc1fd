/** Format strings and arguments, on values (libc/stdio/printf.c). */
module PrintfText {
  import opened Wrappers
  import opened Arith
  import opened Printf

  /** An argument register, or a string it points to. */
  datatype Arg = Word(bits: nat) | Text(s: string)

  // ---- The conversion specification ----

  datatype Scanned = Parsed(spec: Spec, next: nat, used: nat) | Bad | NoArg

  /** The value of an int argument. */
  function IntArg(w: nat): int {
    SignedBits(w, 0x1_0000_0000)
  }

  /** The low bits of w in two's complement, where m is two to their number. */
  function SignedBits(w: nat, m: nat): int
    requires m > 0
  {
    var low := w % m;
    if 2 * low >= m then low - m else low
  }

  function DigitValue(c: char): nat {
    if '0' <= c <= '9' then (c - '0') as nat else 0
  }

  /** One character of a specification other than the conversion and the star. None rejects it. */
  function Modify(s: Spec, c: char): Option<Spec> {
    if c == '-' then Some(s.(left := true))
    else if c == '+' then Some(s.(sign := true))
    else if c == ' ' then Some(s.(space := true))
    else if c == '#' then Some(s.(hash := true))
    else if c == '0' && s.width == 0 && !s.dot && !s.zero then Some(s.(zero := true))
    else if '0' <= c <= '9' then
      if s.dot then Some(s.(precision := s.precision * 10 + DigitValue(c)))
      else Some(s.(width := s.width * 10 + DigitValue(c)))
    else if c == '.' then if s.dot then None else Some(s.(dot := true, precision := 0))
    else if c == 'h' then
      if s.length == 0 then Some(s.(length := -1)) else if s.length == -1 then Some(s.(length := -2)) else None
    else if c == 'l' then
      if s.length == 0 then Some(s.(length := 1)) else if s.length == 1 then Some(s.(length := 2)) else None
    else if c == 'j' then if s.length == 0 then Some(s.(length := 3)) else None
    else if c == 'z' then if s.length == 0 then Some(s.(length := 4)) else None
    else if c == 't' then if s.length == 0 then Some(s.(length := 5)) else None
    else if s.length == 0 then Some(s.(length := 6))
    else None
  }

  predicate Modifies(c: char) {
    c in "-+ #.hljztL" || '0' <= c <= '9'
  }

  /** From the character after % to past the conversion. */
  function ScanSpec(format: string, i: nat, args: seq<Arg>, k: nat, s: Spec): (r: Scanned)
    ensures r.Parsed? ==> i < r.next <= |format| && k <= r.used
    decreases |format| - i
  {
    if i >= |format| || format[i] == NUL then Bad
    else if format[i] == '*' then
      if k >= |args| || !args[k].Word? then NoArg
      else
        var n := IntArg(args[k].bits);
        ScanSpec(format, i + 1, args, k + 1, if s.dot then s.(precision := n) else s.(width := n))
    else if Modifies(format[i]) then
      var m := Modify(s, format[i]);
      if m.None? then Bad else ScanSpec(format, i + 1, args, k, m.value)
    else Parsed(s.(kind := format[i]), i + 1, k)
  }

  // ---- Number conversions ----

  const INT64_MIN := -0x8000_0000_0000_0000
  const MIN_DIGITS := "8085774586302733229"

  /** A signed argument under a length modifier. */
  function SignedArg(w: nat, length: int): int {
    if length == -2 then SignedBits(w, 0x100)
    else if length == -1 then SignedBits(w, 0x1_0000)
    else if 1 <= length <= 5 then SignedBits(w, 0x1_0000_0000_0000_0000)
    else IntArg(w)
  }

  /** An unsigned argument; under L the code leaves the value unset. */
  function UnsignedArg(w: nat, length: int): Option<nat> {
    if length == -2 then Some(w % 0x100)
    else if length == -1 then Some(w % 0x1_0000)
    else if 1 <= length <= 5 then Some(w % 0x1_0000_0000_0000_0000)
    else if length == 0 then Some(w % 0x1_0000_0000)
    else None
  }

  /** The digits of a number; none for 0 with precision 0. */
  function NumberDigits(v: nat, base: nat, upper: bool, precision: int): string
    requires 2 <= base <= 16
  {
    if v == 0 then if precision != 0 then "0" else ""
    else Digits(v, base, upper)
  }

  function SignedDigits(v: int, precision: int): string {
    if v == INT64_MIN then MIN_DIGITS else NumberDigits(if v < 0 then -v else v, 10, false, precision)
  }

  lemma LastDigit(v: nat, x: nat)
    requires x < 10 && v * 10 + x > 0
    ensures Digits(v * 10 + x, 10, false) == [DigitChar(x, false)] + Digits(v, 10, false)
  {
    var (q, y) := Split(v * 10 + x, 10);
    assert q == v && y == x;
  }

  lemma MinDigits5()
    ensures Digits(92233, 10, false) == "33229"
  {
    LastDigit(0, 9);
    LastDigit(9, 2);
    LastDigit(92, 2);
    LastDigit(922, 3);
    LastDigit(9223, 3);
  }

  lemma MinDigits10()
    ensures Digits(9223372036, 10, false) == "6302733229"
  {
    hide Digits, Split;
    MinDigits5();
    LastDigit(92233, 7);
    LastDigit(922337, 2);
    LastDigit(9223372, 0);
    LastDigit(92233720, 3);
    LastDigit(922337203, 6);
  }

  lemma MinDigits15()
    ensures Digits(922337203685477, 10, false) == "774586302733229"
  {
    hide Digits, Split;
    MinDigits10();
    LastDigit(9223372036, 8);
    LastDigit(92233720368, 5);
    LastDigit(922337203685, 4);
    LastDigit(9223372036854, 7);
    LastDigit(92233720368547, 7);
  }

  /** The literal for INT64_MIN is its digits. */
  lemma MinDigits()
    ensures MIN_DIGITS == Digits(-INT64_MIN, 10, false)
  {
    hide Digits, Split;
    MinDigits15();
    LastDigit(922337203685477, 5);
    LastDigit(9223372036854775, 8);
    LastDigit(92233720368547758, 0);
    LastDigit(922337203685477580, 8);
  }

  lemma NumberShows(v: nat, base: nat, upper: bool, precision: int)
    requires base == 8 || base == 10 || base == 16
    ensures Shows(NumberDigits(v, base, upper, precision), base, v)
  {
    if v == 0 && precision != 0 {
      assert Reversed("0") == "0" by { assert "0"[1..] == ""; }
      assert "0"[1..] == "";
    } else {
      DigitsRead(v, base, upper);
    }
  }

  /** The conversion p is x with a fixed length, at least 16 digits and a prefix. */
  function Pointer(s: Spec): Spec {
    if s.kind == 'p' then
      s.(kind := 'x', length := 2, precision := if s.precision == -1 then 16 else s.precision, hash := true)
    else s
  }

  /** What a conversion emits and adds to the count, and the next argument. */
  datatype Converted = Emits(text: string, added: int, used: nat) | Unsupported | Missing

  function Number(s: Spec, neg: bool, digits: string, k: nat): Converted {
    Emits(Field(s, neg, digits), Max(RealLen(s, neg, digits), s.width), k)
  }

  /** A string: padded to the width, cut to the precision. */
  function StringText(s: Spec, t: string): string {
    var n := if s.precision < 0 || |t| < s.precision then |t| else s.precision;
    var pad := Repeat(' ', s.width - n);
    if s.left then t[..n] + pad else pad + t[..n]
  }

  function Convert(spec: Spec, args: seq<Arg>, k: nat): Converted {
    var s := Pointer(spec);
    if s.kind == '%' then Emits("%", 1, k)
    else if !IsNumeric(s.kind) && s.kind != 'c' && s.kind != 's' && s.kind != 'n' then Unsupported
    else if k >= |args| || (s.kind == 's') != args[k].Text? then Missing
    else if s.kind == 'd' || s.kind == 'i' then
      var v := SignedArg(args[k].bits, s.length);
      Number(s, v < 0, SignedDigits(v, s.precision), k + 1)
    else if s.kind == 'c' then Emits([(args[k].bits % 0x100) as char], 1, k + 1)
    else if s.kind == 's' then
      var t := args[k].s;
      var n := if s.precision < 0 || |t| < s.precision then |t| else s.precision;
      Emits(StringText(s, t), n + (if s.width > n then s.width - n else 0), k + 1)
    else if s.kind == 'n' then Emits("", 0, k + 1)
    else
      var v := UnsignedArg(args[k].bits, s.length);
      if v.None? then Missing
      else Number(s, false, NumberDigits(v.value, BaseOf(s.kind), s.kind == 'X', s.precision), k + 1)
  }

  lemma ConvertCounts(spec: Spec, args: seq<Arg>, k: nat)
    ensures Convert(spec, args, k).Emits? ==> Convert(spec, args, k).added == |Convert(spec, args, k).text|
  {
    var s := Pointer(spec);
    if k < |args| && args[k].Word? {
      var v := SignedArg(args[k].bits, s.length);
      FieldLength(s, v < 0, SignedDigits(v, s.precision));
      var u := UnsignedArg(args[k].bits, s.length);
      if u.Some? {
        FieldLength(s, false, NumberDigits(u.value, BaseOf(s.kind), s.kind == 'X', s.precision));
      }
    }
  }

  lemma SignedShows(v: int, precision: int)
    ensures Shows(SignedDigits(v, precision), 10, if v < 0 then -v else v)
  {
    if v == INT64_MIN {
      MinDigits();
      DigitsRead(-INT64_MIN, 10, false);
    } else {
      NumberShows(if v < 0 then -v else v, 10, false, precision);
    }
  }

  lemma SignedField(spec: Spec, args: seq<Arg>, k: nat)
    requires (spec.kind == 'd' || spec.kind == 'i') && k < |args| && args[k].Word?
    ensures Convert(spec, args, k).Emits? && IsNumeric(spec.kind) && BaseOf(spec.kind) == 10
    ensures var v := SignedArg(args[k].bits, spec.length);
      Convert(spec, args, k).text == Field(spec, v < 0, SignedDigits(v, spec.precision))
  {
  }

  lemma UnsignedField(spec: Spec, args: seq<Arg>, k: nat)
    requires spec.kind in "uoxXp" && k < |args| && args[k].Word?
    ensures var s := Pointer(spec);
      var u := UnsignedArg(args[k].bits, s.length);
      && IsNumeric(s.kind)
      && (u.Some? ==>
            && Convert(spec, args, k).Emits?
            && Convert(spec, args, k).text ==
              Field(s, false, NumberDigits(u.value, BaseOf(s.kind), s.kind == 'X', s.precision)))
  {
  }

  /** Two to the number of bits of an argument's type under a length modifier: char, short, int, and the long types. */
  function TypeSize(length: int): nat {
    match length
    case -2 => 0x100
    case -1 => 0x1_0000
    case 1 => TWO_64
    case 2 => TWO_64
    case 3 => TWO_64
    case 4 => TWO_64
    case 5 => TWO_64
    case _ => TWO_32
  }

  /** v is the value of the unsigned type, or of the signed one, that has the low bits of w. */
  predicate IsUnsigned(v: int, w: nat, length: int) {
    0 <= v < TypeSize(length) && (v - w) % TypeSize(length) == 0
  }

  predicate IsSigned(v: int, w: nat, length: int) {
    0 - TypeSize(length) <= 2 * v < TypeSize(length) && (v - w) % TypeSize(length) == 0
  }

  lemma UnsignedValue(v: int, w: nat, length: int)
    requires -2 <= length <= 5
    ensures IsUnsigned(v, w, length) <==> UnsignedArg(w, length) == Some(v)
  {
    SizeIs(w, length);
    ModIs(v, w, TypeSize(length));
    hide TypeSize, UnsignedArg;
  }

  lemma SizeIs(w: nat, length: int)
    requires -2 <= length <= 5
    ensures TypeSize(length) > 0 && UnsignedArg(w, length) == Some(w % TypeSize(length))
  {
  }

  lemma SignedByte(v: int, w: nat)
    ensures -0x100 <= 2 * v < 0x100 && (v - w) % 0x100 == 0 <==> SignedBits(w, 0x100) == v
  {
  }

  lemma SignedShort(v: int, w: nat)
    ensures -0x1_0000 <= 2 * v < 0x1_0000 && (v - w) % 0x1_0000 == 0 <==> SignedBits(w, 0x1_0000) == v
  {
  }

  lemma SignedInt(v: int, w: nat)
    ensures 0 - TWO_32 <= 2 * v < TWO_32 && (v - w) % TWO_32 == 0 <==> SignedBits(w, TWO_32) == v
  {
  }

  lemma SignedLong(v: int, w: nat)
    ensures 0 - TWO_64 <= 2 * v < TWO_64 && (v - w) % TWO_64 == 0 <==> SignedBits(w, TWO_64) == v
  {
  }

  lemma SignedValue(v: int, w: nat, length: int)
    ensures IsSigned(v, w, length) <==> SignedArg(w, length) == v
  {
    hide SignedBits;
    if length == -2 {
      SignedByte(v, w);
    } else if length == -1 {
      SignedShort(v, w);
    } else if 1 <= length <= 5 {
      SignedLong(v, w);
    } else {
      SignedInt(v, w);
    }
  }

  lemma SignedSize(v: int)
    ensures Signed(v < 0, if v < 0 then -v else v) == v
  {
  }

  /** A signed field reads back as the value its type gives to the argument word, exactly when zeros do not pad it on
    * the right, or the value is 0. */
  lemma SignedReadsBack(spec: Spec, args: seq<Arg>, k: nat, v: int)
    requires (spec.kind == 'd' || spec.kind == 'i') && k < |args| && args[k].Word?
    requires IsSigned(v, args[k].bits, spec.length)
    ensures Convert(spec, args, k).Emits?
    ensures (ReadNumber(Convert(spec, args, k).text, 10) == v)
      <==> (!ZeroTail(spec, v < 0, SignedDigits(v, spec.precision)) || v == 0)
  {
    hide *;
    SignedField(spec, args, k);
    SignedValue(v, args[k].bits, spec.length);
    SignedSize(v);
    var neg, digits := v < 0, SignedDigits(v, spec.precision);
    var size: nat := if v < 0 then -v else v;
    SignedShows(v, spec.precision);
    FieldReadsBack(spec, neg, digits, size);
  }

  /** So does an unsigned one, in its base; p is read as hexadecimal, and its argument is a long one. */
  lemma UnsignedReadsBack(spec: Spec, args: seq<Arg>, k: nat, v: nat)
    requires spec.kind in "uoxXp" && k < |args| && args[k].Word? && (spec.kind == 'p' || -2 <= spec.length <= 5)
    requires IsUnsigned(v, args[k].bits, if spec.kind == 'p' then 2 else spec.length)
    ensures Convert(spec, args, k).Emits?
    ensures var base := if spec.kind == 'u' then 10 else if spec.kind == 'o' then 8 else 16;
      var s := Pointer(spec);
      (ReadNumber(Convert(spec, args, k).text, base) == v)
      <==> (!ZeroTail(s, false, NumberDigits(v, base, s.kind == 'X', s.precision)) || v == 0)
  {
    UnsignedField(spec, args, k);
    var s := Pointer(spec);
    UnsignedValue(v, args[k].bits, s.length);
    assert BaseOf(s.kind) == if spec.kind == 'u' then 10 else if spec.kind == 'o' then 8 else 16;
    hide Field, Convert, ReadNumber, NumberDigits, ZeroTail, UnsignedArg, Shows, Pointer, IsNumeric;
    NumberShows(v, BaseOf(s.kind), s.kind == 'X', s.precision);
    FieldReadsBack(s, false, NumberDigits(v, BaseOf(s.kind), s.kind == 'X', s.precision), v);
  }

  // ---- The whole format ----

  /** What is emitted, what is counted, and whether -1 is returned; or behaviour C leaves undefined. */
  datatype Printed = Printed(out: string, count: int, failed: bool) | Undefined

  function Before(text: string, r: Printed): Printed {
    if r.Undefined? then r else r.(out := text + r.out)
  }

  function Print(format: string, i: nat, args: seq<Arg>, k: nat, count: int): Printed
    decreases |format| - i
  {
    if i >= |format| || format[i] == NUL then Printed("", count, false)
    else if format[i] != '%' then Before([format[i]], Print(format, i + 1, args, k, count + 1))
    else
      match ScanSpec(format, i + 1, args, k, NO_SPEC)
      case Bad => Printed("", count, true)
      case NoArg => Undefined
      case Parsed(s, next, used) =>
        match Convert(s, args, used)
        case Unsupported => Printed("", count, true)
        case Missing => Undefined
        case Emits(text, added, k') => Before(text, Print(format, next, args, k', count + added))
  }

  /** The count is the number of characters emitted. */
  lemma {:induction false} CountIsLength(format: string, i: nat, args: seq<Arg>, k: nat, count: int)
    ensures var r := Print(format, i, args, k, count);
      r.Printed? ==> r.count == count + |r.out|
    decreases |format| - i
  {
    hide ScanSpec, Convert;
    if i < |format| && format[i] != NUL {
      if format[i] != '%' {
        CountIsLength(format, i + 1, args, k, count + 1);
      } else {
        var p := ScanSpec(format, i + 1, args, k, NO_SPEC);
        if p.Parsed? {
          var c := Convert(p.spec, args, p.used);
          if c.Emits? {
            ConvertCounts(p.spec, args, p.used);
            CountIsLength(format, p.next, args, c.used, count + c.added);
          }
        }
      }
    }
  }
}
