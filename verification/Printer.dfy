/** vprintf in place: the parsing loop, the digit buffer and the running count (libc/stdio/printf.c). */
module Printer {
  import opened Wrappers
  import opened Arith
  import opened Printf
  import opened PrintfText

  lemma Joined(a: string, b: string, c: string)
    ensures a + b + c == a + (b + c)
  {
  }

  lemma RepeatMore(c: char, n: int)
    requires n > 0
    ensures Repeat(c, n) == [c] + Repeat(c, n - 1)
  {
  }

  lemma {:induction false} ReversedConcat(a: string, b: string)
    ensures Reversed(a + b) == Reversed(b) + Reversed(a)
    decreases |a|
  {
    if a == "" {
      assert a + b == b;
    } else {
      assert (a + b)[1..] == a[1..] + b;
      ReversedConcat(a[1..], b);
      Joined(Reversed(b), Reversed(a[1..]), [a[0]]);
    }
  }

  /** The last character leads the reversed string. */
  lemma ReversedLast(s: string)
    requires s != ""
    ensures Reversed(s) == [s[|s| - 1]] + Reversed(s[..|s| - 1])
  {
    var front, last := s[..|s| - 1], [s[|s| - 1]];
    assert s == front + last;
    ReversedConcat(front, last);
    assert last[1..] == "";
  }

  class Output {
    var out: string
    const buffer: array<char>

    constructor ()
      ensures out == "" && fresh(buffer) && buffer.Length == BUFFER_SIZE
    {
      out := "";
      buffer := new char[BUFFER_SIZE];
    }

    method Putchar(c: char)
      modifies this`out
      ensures out == old(out) + [c]
    {
      out := out + [c];
    }

    method PutRepeat(c: char, n: int)
      modifies this`out
      ensures out == old(out) + Repeat(c, n)
    {
      var left := n;
      while left > 0
        invariant out + Repeat(c, left) == old(out) + Repeat(c, n)
        decreases left
      {
        RepeatMore(c, left);
        Joined(out, [c], Repeat(c, left - 1));
        Putchar(c);
        left := left - 1;
      }
      assert out + "" == out;
    }

    /** The digits from the end of the buffer to its start. */
    method PutReversed(digits: string)
      modifies this`out
      ensures out == old(out) + Reversed(digits)
    {
      var len := |digits|;
      assert digits[..len] == digits;
      while len > 0
        invariant 0 <= len <= |digits|
        invariant out + Reversed(digits[..len]) == old(out) + Reversed(digits)
      {
        ReversedLast(digits[..len]);
        assert digits[..len][..len - 1] == digits[..len - 1];
        Joined(out, [digits[len - 1]], Reversed(digits[..len - 1]));
        len := len - 1;
        Putchar(digits[len]);
      }
      assert out + "" == out;
    }

    /** The digits of a number into the buffer, least significant first. They always fit. */
    method FillDigits(v: nat, base: nat, upper: bool, precision: int) returns (len: nat)
      requires v < TWO_64 && (base == 8 || base == 10 || base == 16)
      requires buffer.Length == BUFFER_SIZE
      modifies buffer
      ensures len < BUFFER_SIZE && buffer[..len] == NumberDigits(v, base, upper, precision)
    {
      len := 0;
      if v == 0 && precision != 0 {
        buffer[0] := '0';
        return 1;
      }
      BufferFits(v, base, upper);
      ghost var digits := Digits(v, base, upper);
      var value := v;
      assert buffer[..0] + digits == digits;
      while value > 0
        invariant 0 <= len && len + |Digits(value, base, upper)| == |digits| <= BUFFER_SIZE
        invariant buffer[..len] + Digits(value, base, upper) == digits
        decreases value
      {
        var (q, x) := Split(value, base);
        ghost var done := buffer[..len];
        Joined(done, [DigitChar(x, upper)], Digits(q, base, upper));
        buffer[len] := DigitChar(x, upper);
        assert buffer[..len + 1] == done + [DigitChar(x, upper)];
        len := len + 1;
        value := q;
      }
      assert buffer[..len] + "" == buffer[..len];
    }

    method PutSign(s: Spec, neg: bool)
      modifies this`out
      ensures out == old(out) + SignText(s, neg)
    {
      if neg {
        Putchar('-');
      } else if s.sign {
        Putchar('+');
      } else if s.space {
        Putchar(' ');
      }
    }

    method PutPrefix(s: Spec)
      modifies this`out
      ensures out == old(out) + PrefixText(s)
    {
      if s.hash && s.kind == 'o' {
        Putchar('0');
      } else if s.hash && (s.kind == 'x' || s.kind == 'X') {
        Putchar('0');
        Putchar(s.kind);
      }
    }

    /** Padding, sign, prefix, zeros and digits, and what they add to the count. */
    method PutNumber(s: Spec, neg: bool, digits: string) returns (added: int)
      modifies this`out
      ensures out == old(out) + Field(s, neg, digits)
      ensures added == Max(RealLen(s, neg, digits), s.width)
    {
      hide SignText, PrefixText, Repeat, Reversed;
      var realLen := RealLen(s, neg, digits);
      var signed, pad := false, if s.zero then '0' else ' ';
      if s.width > realLen && !s.left {
        if s.zero && (neg || s.sign || s.space || s.hash) {
          PutSign(s, neg);
          PutPrefix(s);
          signed := true;
        }
        PutRepeat(pad, s.width - realLen);
      }
      if !signed {
        PutSign(s, neg);
        PutPrefix(s);
      }
      PutRepeat('0', s.precision - |digits|);
      PutReversed(digits);
      if s.width > realLen && s.left {
        PutRepeat(pad, s.width - realLen);
      }
      FieldParts(old(out), s, neg, digits);
      added := if realLen > s.width then realLen else s.width;
    }

    /** A string conversion, and what it adds to the count. */
    method PutString(s: Spec, t: string) returns (added: int)
      modifies this`out
      ensures out == old(out) + StringText(s, t) && added == |StringText(s, t)|
    {
      StringCount(s, t);
      hide Repeat;
      var n := if s.precision < 0 || |t| < s.precision then |t| else s.precision;
      Joined(out, Repeat(' ', s.width - n), t[..n]);
      Joined(out, t[..n], Repeat(' ', s.width - n));
      if !s.left {
        PutRepeat(' ', s.width - n);
      }
      out := out + t[..n];
      if s.left {
        PutRepeat(' ', s.width - n);
      }
      added := n + if s.width > n then s.width - n else 0;
    }

    method ParseSpec(format: string, i: nat, args: seq<Arg>, k: nat) returns (r: Scanned)
      ensures r == ScanSpec(format, i, args, k, NO_SPEC)
    {
      hide Modify;
      var s, j, used := NO_SPEC, i, k;
      while j < |format| && format[j] != NUL
        invariant used >= 0
        invariant ScanSpec(format, j, args, used, s) == ScanSpec(format, i, args, k, NO_SPEC)
        decreases |format| - j
      {
        var c := format[j];
        if c == '*' {
          if used >= |args| || !args[used].Word? {
            return NoArg;
          }
          var n := IntArg(args[used].bits);
          s := if s.dot then s.(precision := n) else s.(width := n);
          used := used + 1;
        } else if Modifies(c) {
          var m := Modify(s, c);
          if m.None? {
            return Bad;
          }
          s := m.value;
        } else {
          return Parsed(s.(kind := c), j + 1, used);
        }
        j := j + 1;
      }
      r := Bad;
    }

    /** One conversion; the text it would emit is emitted, if it emits any. */
    method PutConversion(spec: Spec, args: seq<Arg>, k: nat) returns (added: int, used: nat)
      requires buffer.Length == BUFFER_SIZE && Convert(spec, args, k).Emits?
      modifies this`out, buffer
      ensures Convert(spec, args, k) == Emits(Convert(spec, args, k).text, added, used)
      ensures out == old(out) + Convert(spec, args, k).text
    {
      hide Field, RealLen, Digits, StringText, SignedBits;
      var s := Pointer(spec);
      used := k + 1;
      if s.kind == '%' {
        Putchar('%');
        return 1, k;
      }
      if s.kind == 'd' || s.kind == 'i' {
        var v := SignedArg(args[k].bits, s.length);
        SignedRange(args[k].bits, s.length);
        if v == INT64_MIN {
          added := PutNumber(s, true, MIN_DIGITS);
        } else {
          var len := FillDigits(if v < 0 then -v else v, 10, false, s.precision);
          added := PutNumber(s, v < 0, buffer[..len]);
        }
      } else if s.kind == 'c' {
        Putchar((args[k].bits % 0x100) as char);
        added := 1;
      } else if s.kind == 's' {
        StringCount(s, args[k].s);
        added := PutString(s, args[k].s);
      } else if s.kind == 'n' {
        assert out + "" == out;
        added := 0;
      } else {
        var v := UnsignedArg(args[k].bits, s.length).value;
        var len := FillDigits(v, BaseOf(s.kind), s.kind == 'X', s.precision);
        added := PutNumber(s, false, buffer[..len]);
      }
    }

    /** What follows a percent sign; false where vprintf gives up. */
    method PutSpec(format: string, i: nat, args: seq<Arg>, k: nat)
      returns (ok: bool, next: nat, used: nat, added: int)
      requires buffer.Length == BUFFER_SIZE && !ScanSpec(format, i, args, k, NO_SPEC).NoArg?
      requires var p := ScanSpec(format, i, args, k, NO_SPEC); p.Parsed? ==> !Convert(p.spec, args, p.used).Missing?
      modifies this`out, buffer
      ensures var p := ScanSpec(format, i, args, k, NO_SPEC);
        && (ok <==> p.Parsed? && Convert(p.spec, args, p.used).Emits?)
        && (ok ==> next == p.next)
        && (ok ==> Convert(p.spec, args, p.used) == Emits(Convert(p.spec, args, p.used).text, added, used))
        && out == if ok then old(out) + Convert(p.spec, args, p.used).text else old(out)
    {
      hide Convert, ScanSpec;
      var spec := ParseSpec(format, i, args, k);
      if spec.Bad? || Convert(spec.spec, args, spec.used).Unsupported? {
        return false, 0, 0, 0;
      }
      added, used := PutConversion(spec.spec, args, spec.used);
      ok, next := true, spec.next;
    }

    /** vprintf: -1, or the number of characters emitted. */
    method Vprintf(format: string, args: seq<Arg>) returns (result: int)
      requires buffer.Length == BUFFER_SIZE && Print(format, 0, args, 0, 0).Printed?
      modifies this`out, buffer
      ensures var r := Print(format, 0, args, 0, 0);
        out == old(out) + r.out && result == if r.failed then -1 else r.count
      ensures result == -1 || result == |out| - |old(out)|
    {
      hide *;
      CountIsLength(format, 0, args, 0, 0);
      var i: nat, k: nat, count := 0, 0, 0;
      ghost var r := Print(format, 0, args, 0, 0);
      RestStart(out, r);
      while i < |format| && format[i] != NUL
        invariant Rest(old(out), out, Print(format, i, args, k, count), r)
        decreases |format| - i
      {
        PrintUnfolds(old(out), out, format, i, args, k, count, r);
        if format[i] != '%' {
          Putchar(format[i]);
          count := count + 1;
          i := i + 1;
        } else {
          var ok, next, used, added := PutSpec(format, i + 1, args, k);
          if !ok {
            return -1;
          }
          i, k, count := next, used, count + added;
        }
      }
      PrintEnds(old(out), out, format, i, args, k, count, r);
      result := count;
    }
  }

  /** What is out so far and what is to come make the whole. */
  ghost predicate Rest(start: string, out: string, rest: Printed, r: Printed) {
    rest.Printed? && r.Printed? && out + rest.out == start + r.out && rest.count == r.count && rest.failed == r.failed
  }

  lemma RestOf(start: string, out: string, text: string, rest: Printed, r: Printed)
    requires Rest(start, out, Before(text, rest), r)
    ensures Rest(start, out + text, rest, r)
  {
    Joined(out, text, rest.out);
  }

  lemma RestStart(out: string, r: Printed)
    requires r.Printed?
    ensures Rest(out, out, r, r)
  {
  }

  lemma PrintEnds(start: string, out: string, format: string, i: nat, args: seq<Arg>, k: nat, count: int, r: Printed)
    requires Rest(start, out, Print(format, i, args, k, count), r) && (i >= |format| || format[i] == NUL)
    ensures r.Printed? && out == start + r.out && count == r.count && !r.failed
  {
    assert out + "" == out;
  }

  /** One turn of the loop: a plain character, a conversion, or a format that is rejected. */
  lemma PrintUnfolds(start: string, out: string, format: string, i: nat, args: seq<Arg>, k: nat, count: int, r: Printed)
    requires Rest(start, out, Print(format, i, args, k, count), r) && i < |format| && format[i] != NUL
    ensures format[i] != '%' ==> Rest(start, out + [format[i]], Print(format, i + 1, args, k, count + 1), r)
    ensures format[i] == '%' ==>
      var p := ScanSpec(format, i + 1, args, k, NO_SPEC);
      && !p.NoArg?
      && (p.Parsed? ==> !Convert(p.spec, args, p.used).Missing?)
      && (p.Bad? || Convert(p.spec, args, p.used).Unsupported? ==> r.Printed? && out == start + r.out && r.failed)
      && (p.Parsed? && Convert(p.spec, args, p.used).Emits? ==>
            var c := Convert(p.spec, args, p.used);
            Rest(start, out + c.text, Print(format, p.next, args, c.used, count + c.added), r))
  {
    hide Convert, ScanSpec, Rest;
    if format[i] != '%' {
      RestOf(start, out, [format[i]], Print(format, i + 1, args, k, count + 1), r);
    } else {
      var p := ScanSpec(format, i + 1, args, k, NO_SPEC);
      RestFacts(start, out, Print(format, i, args, k, count), r);
      if p.Parsed? && Convert(p.spec, args, p.used).Emits? {
        var c := Convert(p.spec, args, p.used);
        RestOf(start, out, c.text, Print(format, p.next, args, c.used, count + c.added), r);
      }
    }
  }

  lemma RestFacts(start: string, out: string, rest: Printed, r: Printed)
    requires Rest(start, out, rest, r)
    ensures rest.Printed? && r.Printed? && rest.failed == r.failed
    ensures rest.out == "" ==> out == start + r.out
  {
    assert out + "" == out;
  }

  lemma SignedRange(w: nat, length: int)
    ensures INT64_MIN <= SignedArg(w, length) < TWO_64
  {
  }

  lemma StringCount(s: Spec, t: string)
    ensures var n := if s.precision < 0 || |t| < s.precision then |t| else s.precision;
      |StringText(s, t)| == n + if s.width > n then s.width - n else 0
  {
  }

  /** The pieces in the order they are put. */
  lemma FieldParts(out: string, s: Spec, neg: bool, digits: string)
    ensures var padlen := s.width - RealLen(s, neg, digits);
      var pad := Repeat(if s.zero then '0' else ' ', padlen);
      var (sign, prefix) := (SignText(s, neg), PrefixText(s));
      var (zeros, rev) := (Repeat('0', s.precision - |digits|), Reversed(digits));
      out + Field(s, neg, digits) ==
        if padlen > 0 && !s.left then
          if s.zero && (neg || s.sign || s.space || s.hash) then out + sign + prefix + pad + zeros + rev
          else out + pad + sign + prefix + zeros + rev
        else if padlen > 0 then out + sign + prefix + zeros + rev + pad
        else out + sign + prefix + zeros + rev
  {
    hide SignText, PrefixText, Repeat, Reversed, RealLen;
    var padlen := s.width - RealLen(s, neg, digits);
    var pad := Repeat(if s.zero then '0' else ' ', padlen);
    var (sign, prefix) := (SignText(s, neg), PrefixText(s));
    var (zeros, rev) := (Repeat('0', s.precision - |digits|), Reversed(digits));
    Six(out, pad, sign, prefix, zeros, rev);
  }

  lemma Six(out: string, pad: string, sign: string, prefix: string, zeros: string, rev: string)
    ensures out + (sign + prefix + pad + (zeros + rev)) == out + sign + prefix + pad + zeros + rev
    ensures out + (pad + (sign + prefix) + (zeros + rev)) == out + pad + sign + prefix + zeros + rev
    ensures out + (sign + prefix + (zeros + rev) + pad) == out + sign + prefix + zeros + rev + pad
    ensures out + (sign + prefix + (zeros + rev)) == out + sign + prefix + zeros + rev
  {
  }
}
