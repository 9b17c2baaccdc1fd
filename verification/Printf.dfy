/** Formatted output, on values (libc/stdio/printf.c, as built into the kernel). */
module Printf {
  import opened Wrappers
  import opened Arith

  const BUFFER_SIZE := 32

  // ---- Numbers as digits ----

  /** The character of a digit; letters follow the case of the conversion. */
  function DigitChar(x: nat, upper: bool): char
    requires x < 16
  {
    if x < 10 then '0' + x as char else (if upper then 'A' else 'a') + (x - 10) as char
  }

  /** The last digit and the number before it. */
  function Split(v: nat, base: nat): (r: (nat, nat))
    requires base >= 2
    ensures r.1 < base && r.0 * base + r.1 == v
    ensures v > 0 ==> r.0 < v
  {
    var (q, x) := (v / base, v % base);
    Smaller(q, x, base);
    (q, x)
  }

  lemma Smaller(q: nat, x: nat, base: nat)
    requires base >= 2
    ensures q * base + x > 0 ==> q < q * base + x
  {
    Products(q, q, 2, base);
  }

  lemma Products(a: nat, b: nat, x: nat, y: nat)
    requires a <= b && x <= y
    ensures a * x <= b * y
  {
    assert b * y == a * y + (b - a) * y;
    assert a * y == a * x + a * (y - x);
  }

  /** The digits, least significant first, as the buffer holds them. */
  function Digits(v: nat, base: nat, upper: bool): string
    requires 2 <= base <= 16
    decreases v
  {
    if v == 0 then ""
    else
      var (q, x) := Split(v, base);
      [DigitChar(x, upper)] + Digits(q, base, upper)
  }

  function Reversed(s: string): (r: string)
    ensures |r| == |s|
  {
    if s == "" then "" else Reversed(s[1..]) + [s[0]]
  }

  /** The digit found last is not 0. */
  lemma {:induction false} LastNotZero(v: nat, base: nat, upper: bool)
    requires 2 <= base <= 16 && v > 0
    ensures var d := Digits(v, base, upper); d != "" && d[|d| - 1] != '0'
    decreases v
  {
    var (q, x) := Split(v, base);
    if q > 0 {
      LastNotZero(q, base, upper);
    } else {
      assert x == v && Digits(q, base, upper) == "";
    }
  }

  lemma {:induction false} ReversedFirst(s: string)
    requires s != ""
    ensures Reversed(s)[0] == s[|s| - 1]
    decreases |s|
  {
    if |s| > 1 {
      ReversedFirst(s[1..]);
    }
  }

  function Repeat(c: char, n: int): (s: string)
    ensures |s| == (if n > 0 then n else 0) && forall i :: 0 <= i < |s| ==> s[i] == c
  {
    if n <= 0 then "" else [c] + Repeat(c, n - 1)
  }

  lemma {:induction false} DigitsFit(v: nat, base: nat, upper: bool, k: nat)
    requires 2 <= base <= 16 && v < Pow(base, k)
    ensures |Digits(v, base, upper)| <= k
    decreases k
  {
    if v > 0 {
      assert k > 0;
      Quotient(v, base, Pow(base, k - 1));
      DigitsFit(Split(v, base).0, base, upper, k - 1);
    }
  }

  lemma Quotient(v: nat, base: nat, p: nat)
    requires base >= 2 && v < base * p
    ensures Split(v, base).0 < p
  {
    var q := Split(v, base).0;
    if q >= p {
      Products(p, q, base, base);
    }
  }

  /** A 64-bit number never needs more than 22 of the 32 bytes of the digit buffer. */
  lemma BufferFits(v: nat, base: nat, upper: bool)
    requires v < 0x1_0000_0000_0000_0000 && (base == 8 || base == 10 || base == 16)
    ensures |Digits(v, base, upper)| <= 22 < BUFFER_SIZE
  {
    PowMono(8, base, 22);
    assert Pow(8, 22) > 0x1_0000_0000_0000_0000 by {
      assert Pow(8, 4) == 4096;
      PowAdd(8, 4, 4);
      PowAdd(8, 8, 8);
      PowAdd(8, 16, 4);
      PowAdd(8, 20, 2);
      assert Pow(8, 2) == 64;
    }
    DigitsFit(v, base, upper, 22);
  }

  lemma {:induction false} PowMono(a: nat, b: nat, n: nat)
    requires a <= b
    ensures Pow(a, n) <= Pow(b, n)
  {
    if n > 0 {
      PowMono(a, b, n - 1);
      Products(a, b, Pow(a, n - 1), Pow(b, n - 1));
    }
  }

  // ---- A number field ----

  /** What stands between % and the conversion. */
  datatype Spec = Spec(left: bool, sign: bool, space: bool, hash: bool, zero: bool,
    width: int, precision: int, length: int, kind: char, dot: bool)

  const NO_SPEC := Spec(false, false, false, false, false, 0, -1, 0, NUL, false)

  function SignText(s: Spec, neg: bool): string {
    if neg then "-" else if s.sign then "+" else if s.space then " " else ""
  }

  function PrefixText(s: Spec): string {
    if s.hash && s.kind == 'o' then "0"
    else if s.hash && (s.kind == 'x' || s.kind == 'X') then ['0', s.kind]
    else ""
  }

  /** Leading zeros and the digits, most significant first. */
  function Body(s: Spec, digits: string): string {
    Repeat('0', s.precision - |digits|) + Reversed(digits)
  }

  /** The characters without padding, as the code counts them. */
  function RealLen(s: Spec, neg: bool, digits: string): int {
    (if |digits| < s.precision then s.precision else |digits|)
    + (if neg || s.sign || s.space then 1 else 0)
    + (if s.hash && s.kind == 'o' then 1 else if s.hash && (s.kind == 'x' || s.kind == 'X') then 2 else 0)
  }

  /** The field, in the order the code emits it. */
  function Field(s: Spec, neg: bool, digits: string): string {
    var pad := if s.zero then '0' else ' ';
    var padlen := s.width - RealLen(s, neg, digits);
    var front := SignText(s, neg) + PrefixText(s);
    if padlen > 0 && !s.left then
      if s.zero && (neg || s.sign || s.space || s.hash) then front + Repeat(pad, padlen) + Body(s, digits)
      else Repeat(pad, padlen) + front + Body(s, digits)
    else if padlen > 0 then front + Body(s, digits) + Repeat(pad, padlen)
    else front + Body(s, digits)
  }

  /** A field has the length the code adds to its count. */
  lemma FieldLength(s: Spec, neg: bool, digits: string)
    ensures |Field(s, neg, digits)| == Max(RealLen(s, neg, digits), s.width)
  {
  }

  // ---- Reading a field back ----

  function DigitOf(c: char): Option<nat> {
    if '0' <= c <= '9' then Some((c - '0') as nat)
    else if 'a' <= c <= 'f' then Some((c - 'a') as nat + 10)
    else if 'A' <= c <= 'F' then Some((c - 'A') as nat + 10)
    else None
  }

  predicate IsDigit(c: char, base: nat) {
    DigitOf(c).Some? && DigitOf(c).value < base
  }

  /** The number the text begins with, after the digits read so far. */
  function ReadDigits(text: string, base: nat, acc: nat): nat
    decreases |text|
  {
    if text == "" || !IsDigit(text[0], base) then acc
    else ReadDigits(text[1..], base, acc * base + DigitOf(text[0]).value)
  }

  function SkipSpaces(text: string): string
    decreases |text|
  {
    if text != "" && text[0] == ' ' then SkipSpaces(text[1..]) else text
  }

  function SkipPrefix(text: string, base: nat): string {
    if base == 16 && |text| >= 2 && text[0] == '0' && (text[1] == 'x' || text[1] == 'X') then text[2..] else text
  }

  /** Blanks, a sign, a prefix and digits, as strtol reads them. */
  function ReadNumber(text: string, base: nat): int {
    var t := SkipSpaces(text);
    if t != "" && t[0] == '-' then 0 - ReadDigits(SkipPrefix(t[1..], base), base, 0)
    else if t != "" && t[0] == '+' then ReadDigits(SkipPrefix(t[1..], base), base, 0)
    else ReadDigits(SkipPrefix(t, base), base, 0)
  }

  function BaseOf(kind: char): nat {
    if kind == 'o' then 8 else if kind == 'x' || kind == 'X' then 16 else 10
  }

  /** The text is digits of the base only. */
  predicate AllDigits(s: string, base: nat) {
    forall i :: 0 <= i < |s| ==> IsDigit(s[i], base)
  }

  lemma {:induction false} ReadConcat(a: string, b: string, base: nat, acc: nat)
    requires AllDigits(a, base)
    ensures ReadDigits(a + b, base, acc) == ReadDigits(b, base, ReadDigits(a, base, acc))
    decreases |a|
  {
    if a == "" {
      assert a + b == b;
    } else {
      assert (a + b)[1..] == a[1..] + b;
      assert forall i :: 0 <= i < |a[1..]| ==> a[1..][i] == a[i + 1];
      ReadConcat(a[1..], b, base, acc * base + DigitOf(a[0]).value);
    }
  }

  /** A leading zero is read. */
  lemma ZeroRead(s: string, base: nat, acc: nat)
    requires 2 <= base && s != "" && s[0] == '0'
    ensures ReadDigits(s, base, acc) == ReadDigits(s[1..], base, acc * base)
  {
  }

  lemma {:induction false} ReadZeros(n: int, base: nat, acc: nat)
    requires 2 <= base
    ensures ReadDigits(Repeat('0', n), base, acc) == acc * Pow(base, if n > 0 then n else 0)
    decreases n
  {
    if n > 0 {
      var s := Repeat('0', n);
      assert s[1..] == Repeat('0', n - 1);
      ReadZeros(n - 1, base, acc * base);
      Reassociate(acc, base, Pow(base, n - 1));
      assert Pow(base, n) == base * Pow(base, n - 1);
      ZeroRead(s, base, acc);
      hide ReadDigits, Pow, Repeat;
    }
  }

  lemma DigitBack(x: nat, upper: bool, base: nat)
    requires x < base <= 16
    ensures IsDigit(DigitChar(x, upper), base) && DigitOf(DigitChar(x, upper)) == Some(x)
  {
  }

  lemma ReadOne(c: char, base: nat, acc: nat, x: nat)
    requires IsDigit(c, base) && DigitOf(c) == Some(x)
    ensures ReadDigits([c], base, acc) == acc * base + x
  {
    assert [c][1..] == "";
  }

  /** The digits of v, turned around, read as v. */
  lemma {:induction false} DigitsRead(v: nat, base: nat, upper: bool)
    requires 2 <= base <= 16
    ensures AllDigits(Reversed(Digits(v, base, upper)), base)
    ensures ReadDigits(Reversed(Digits(v, base, upper)), base, 0) == v
    decreases v
  {
    hide Split, DigitChar, DigitOf, IsDigit;
    if v > 0 {
      var (q, x) := Split(v, base);
      DigitBack(x, upper, base);
      DigitsRead(q, base, upper);
      OneDigitMore(Digits(q, base, upper), DigitChar(x, upper), q, x, base);
    }
  }

  lemma OneDigitMore(rest: string, c: char, q: nat, x: nat, base: nat)
    requires IsDigit(c, base) && DigitOf(c) == Some(x)
    requires AllDigits(Reversed(rest), base) && ReadDigits(Reversed(rest), base, 0) == q
    ensures AllDigits(Reversed([c] + rest), base)
    ensures ReadDigits(Reversed([c] + rest), base, 0) == q * base + x
  {
    assert ([c] + rest)[1..] == rest;
    ReadConcat(Reversed(rest), [c], base, 0);
    ReadOne(c, base, q, x);
  }

  lemma {:induction false} SkipsBlanks(n: int, rest: string)
    ensures SkipSpaces(Repeat(' ', n) + rest) == SkipSpaces(rest)
    decreases n
  {
    if n > 0 {
      assert (Repeat(' ', n) + rest)[1..] == Repeat(' ', n - 1) + rest;
      SkipsBlanks(n - 1, rest);
    } else {
      assert Repeat(' ', n) + rest == rest;
    }
  }

  /** Digits that read as v: those Digits gives, one zero, or none. */
  predicate Shows(digits: string, base: nat, v: nat) {
    AllDigits(Reversed(digits), base) && ReadDigits(Reversed(digits), base, 0) == v
  }

  predicate AllBlank(s: string) {
    forall i :: 0 <= i < |s| ==> s[i] == ' '
  }

  predicate PrefixOk(prefix: string, base: nat) {
    prefix == "" || (base == 16 && (prefix == "0x" || prefix == "0X")) || (base == 8 && prefix == "0")
  }

  /** After the sign: a prefix, digits and blanks. */
  lemma RestReads(prefix: string, body: string, tail: string, base: nat)
    requires 8 <= base <= 16 && PrefixOk(prefix, base) && AllDigits(body, base) && AllBlank(tail)
    ensures ReadDigits(SkipPrefix(prefix + body + tail, base), base, 0) == ReadDigits(body, base, 0)
  {
    SkipIs(prefix, body, tail, base);
    ReadConcat(body, tail, base, 0);
    StopsAtTail(tail, base, ReadDigits(body, base, 0));
    if prefix == "0" {
      ReadConcat("0", body + tail, base, 0);
      ReadOne('0', base, 0, 0);
    }
    hide SkipPrefix, ReadDigits, PrefixOk;
  }

  lemma SkipIs(prefix: string, body: string, tail: string, base: nat)
    requires 8 <= base <= 16 && PrefixOk(prefix, base) && AllDigits(body, base) && AllBlank(tail)
    ensures var rest := SkipPrefix(prefix + body + tail, base);
      rest == body + tail || (prefix == "0" && rest == "0" + (body + tail))
  {
    if base == 16 && prefix != "" {
      assert (prefix + body + tail)[2..] == body + tail;
    }
  }

  lemma StopsAtTail(tail: string, base: nat, acc: nat)
    requires AllBlank(tail)
    ensures ReadDigits(tail, base, acc) == acc
  {
  }

  lemma {:induction false} SkipsAll(tail: string)
    requires AllBlank(tail)
    ensures SkipSpaces(tail) == ""
    decreases |tail|
  {
    if tail != "" {
      SkipsAll(tail[1..]);
    }
  }

  /** Nothing in front of the digits looks like a sign. */
  predicate Unsigned(rest: string) {
    AllBlank(rest) || (rest != "" && rest[0] != ' ' && rest[0] != '-' && rest[0] != '+')
  }

  /** A sign is read, and a blank or no sign does not matter. */
  lemma SignReads(sign: string, rest: string, base: nat)
    requires sign in ["", "-", "+", " "] && Unsigned(rest)
    ensures ReadNumber(sign + rest, base)
      == Signed(sign == "-", ReadDigits(SkipPrefix(rest, base), base, 0))
  {
    var t := SkipSpaces(rest);
    if AllBlank(rest) {
      SkipsAll(rest);
      assert ReadDigits(SkipPrefix(rest, base), base, 0) == 0 == ReadDigits(SkipPrefix("", base), base, 0);
    }
    assert ReadNumber(rest, base) == ReadDigits(SkipPrefix(rest, base), base, 0);
    if sign == "" {
      assert sign + rest == rest;
    } else {
      assert (sign + rest)[1..] == rest;
      assert (sign + rest)[0] == sign[0];
    }
  }

  /** Blanks, a sign, a prefix, digits and blanks read as the signed number. */
  lemma ShapeReads(n: int, sign: string, prefix: string, body: string, tail: string, base: nat)
    requires 8 <= base <= 16 && PrefixOk(prefix, base) && AllDigits(body, base) && AllBlank(tail)
    requires sign in ["", "-", "+", " "]
    ensures ReadNumber(Repeat(' ', n) + (sign + (prefix + body + tail)), base)
      == Signed(sign == "-", ReadDigits(body, base, 0))
  {
    var rest := prefix + body + tail;
    Unsigns(prefix, body, tail, base);
    hide ReadNumber, ReadDigits, SkipPrefix, AllDigits, PrefixOk, AllBlank, Unsigned, Repeat;
    RestReads(prefix, body, tail, base);
    BlanksIgnored(n, sign + rest, base);
    SignReads(sign, rest, base);
  }

  lemma Unsigns(prefix: string, body: string, tail: string, base: nat)
    requires PrefixOk(prefix, base) && AllDigits(body, base) && AllBlank(tail)
    ensures Unsigned(prefix + body + tail)
  {
    if prefix + body == "" {
      assert prefix + body + tail == tail;
    } else {
      assert (prefix + body + tail)[0] == (prefix + body)[0];
    }
  }

  lemma BlanksIgnored(n: int, text: string, base: nat)
    ensures ReadNumber(Repeat(' ', n) + text, base) == ReadNumber(text, base)
  {
    SkipsBlanks(n, text);
  }

  function Signed(neg: bool, v: nat): int {
    if neg then 0 - v else v
  }

  // ---- Fields read back ----

  predicate IsNumeric(kind: char) {
    kind == 'd' || kind == 'i' || kind == 'u' || kind == 'o' || kind == 'x' || kind == 'X'
  }

  /** Padded on the right with zeros. */
  predicate ZeroTail(s: Spec, neg: bool, digits: string) {
    s.left && s.zero && s.width > RealLen(s, neg, digits)
  }

  lemma BodyReads(z: int, s: Spec, digits: string, base: nat, v: nat)
    requires 8 <= base <= 16 && Shows(digits, base, v)
    ensures AllDigits(Repeat('0', z) + Body(s, digits), base)
    ensures ReadDigits(Repeat('0', z) + Body(s, digits), base, 0) == v
    ensures AllDigits(Body(s, digits) + Repeat('0', z), base)
    ensures ReadDigits(Body(s, digits) + Repeat('0', z), base, 0) == v * Pow(base, if z > 0 then z else 0)
  {
    var more := s.precision - |digits|;
    ReadZeros(z, base, 0);
    ReadZeros(more, base, 0);
    ReadConcat(Repeat('0', more), Reversed(digits), base, 0);
    ReadConcat(Repeat('0', z), Body(s, digits), base, 0);
    ReadConcat(Body(s, digits), Repeat('0', z), base, 0);
    ReadZeros(z, base, v);
  }

  /** The field is blanks, sign, prefix, digits with leading zeros, and blanks. */
  lemma FieldShape(s: Spec, neg: bool, digits: string) returns (blanks: int, zeros: int, tail: string)
    requires !ZeroTail(s, neg, digits)
    ensures AllBlank(tail)
    ensures Field(s, neg, digits) ==
      Repeat(' ', blanks) + (SignText(s, neg) + (PrefixText(s) + (Repeat('0', zeros) + Body(s, digits)) + tail))
  {
    var padlen := s.width - RealLen(s, neg, digits);
    var sign, prefix, body := SignText(s, neg), PrefixText(s), Body(s, digits);
    assert !(neg || s.sign || s.space || s.hash) ==> sign == "" && prefix == "";
    hide Body, SignText, PrefixText, RealLen, Repeat;
    blanks, zeros, tail := 0, 0, "";
    if padlen <= 0 {
      NoParts(sign, prefix, body, "");
    } else if s.left {
      tail := Repeat(' ', padlen);
      NoParts(sign, prefix, body, tail);
    } else if s.zero {
      zeros := padlen;
      ZeroParts(sign, prefix, Repeat('0', zeros), body);
    } else {
      blanks := padlen;
      BlankParts(Repeat(' ', blanks), sign, prefix, body);
    }
    assert Repeat('0', 0) == "" && Repeat(' ', 0) == "";
    Regroup(Repeat(' ', blanks), sign, prefix, Repeat('0', zeros), body, tail);
  }

  lemma NoParts(b: string, c: string, e: string, f: string)
    ensures "" + b + c + "" + e + f == b + c + e + f && b + c + e + "" == b + c + e
  {
  }

  lemma ZeroParts(b: string, c: string, d: string, e: string)
    ensures "" + b + c + d + e + "" == b + c + d + e
    ensures b == "" && c == "" ==> d + (b + c) + e == b + c + d + e
  {
  }

  lemma BlankParts(a: string, b: string, c: string, e: string)
    ensures a + b + c + "" + e + "" == a + (b + c) + e
  {
    assert a + b + c == a + (b + c);
  }

  lemma Regroup(a: string, b: string, c: string, d: string, e: string, f: string)
    ensures a + (b + (c + (d + e) + f)) == a + b + c + d + e + f
  {
    assert c + (d + e) + f == c + d + e + f;
    assert b + (c + d + e + f) == b + c + d + e + f;
    assert a + (b + c + d + e + f) == a + b + c + d + e + f;
  }

  /** A number field reads back as its number, unless zeros pad it on the right and the number is not 0. */
  lemma FieldReadsBack(s: Spec, neg: bool, digits: string, v: nat)
    requires IsNumeric(s.kind) && Shows(digits, BaseOf(s.kind), v)
    ensures ReadNumber(Field(s, neg, digits), BaseOf(s.kind)) == Signed(neg, v)
      <==> !ZeroTail(s, neg, digits) || v == 0
  {
    var base, sign, prefix := BaseOf(s.kind), SignText(s, neg), PrefixText(s);
    assert PrefixOk(prefix, base) && sign in ["", "-", "+", " "] && (sign == "-" <==> neg);
    hide Body, SignText, PrefixText, RealLen, Field, ReadNumber, ReadDigits, Shows, Pow, AllDigits, Repeat;
    if ZeroTail(s, neg, digits) {
      var padlen := s.width - RealLen(s, neg, digits);
      BodyReads(padlen, s, digits, base, v);
      var body := Body(s, digits) + Repeat('0', padlen);
      ShapeReads(0, sign, prefix, body, "", base);
      ZeroTailShape(s, neg, digits);
      PowGrows(base, padlen, v);
    } else {
      var blanks, zeros, tail := FieldShape(s, neg, digits);
      BodyReads(zeros, s, digits, base, v);
      ShapeReads(blanks, sign, prefix, Repeat('0', zeros) + Body(s, digits), tail, base);
    }
  }

  lemma ZeroTailShape(s: Spec, neg: bool, digits: string)
    requires ZeroTail(s, neg, digits)
    ensures Field(s, neg, digits) == Repeat(' ', 0)
      + (SignText(s, neg) + (PrefixText(s) + (Body(s, digits) + Repeat('0', s.width - RealLen(s, neg, digits))) + ""))
  {
    hide Body, SignText, PrefixText, RealLen;
  }

  lemma PowGrows(b: nat, n: nat, v: nat)
    requires b >= 2 && n > 0
    ensures v * Pow(b, n) == v <==> v == 0
  {
    PowMono(1, b, n - 1);
    PowOne(n - 1);
    Products(2, b, 1, Pow(b, n - 1));
    Products(v, v, 2, Pow(b, n));
  }

  lemma {:induction false} PowOne(n: nat)
    ensures Pow(1, n) == 1
  {
    if n > 0 {
      PowOne(n - 1);
    }
  }
}
