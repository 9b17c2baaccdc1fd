/** String conversions on the terminal: what vprintf hands to it, in which calls (libc/stdio/printf.c). */
module PrintfTerminal {
  import opened Wrappers
  import opened Printf
  import opened PrintfText
  import T = TerminalText
  import Terminal

  function PadCalls(n: int): seq<T.Call> {
    if n <= 0 then [] else [T.Putchar(' ')] + PadCalls(n - 1)
  }

  /** The padding goes out character by character. The string goes to tty_write, which finds all of it in memory but
    * is to write only as much as the precision allows. */
  function StringCalls(s: Spec, t: string): seq<T.Call> {
    var n := if s.precision < 0 || |t| < s.precision then |t| else s.precision;
    var pad := PadCalls(s.width - n);
    if s.left then [T.WriteText(t, n)] + pad else pad + [T.WriteText(t, n)]
  }

  lemma {:induction false} TextOfConcat(a: seq<T.Call>, b: seq<T.Call>)
    ensures T.TextOf(a + b) == T.TextOf(a) + T.TextOf(b)
    decreases |a|
  {
    if a == [] {
      assert a + b == b;
    } else {
      assert (a + b)[1..] == a[1..] + b;
      TextOfConcat(a[1..], b);
    }
  }

  lemma {:induction false} PadText(n: int)
    ensures T.TextOf(PadCalls(n)) == Repeat(' ', n)
  {
    if n > 0 {
      PadText(n - 1);
      assert PadCalls(n)[1..] == PadCalls(n - 1);
    }
  }

  /** The calls bring the field's characters. */
  lemma StringCallsText(s: Spec, t: string)
    ensures T.TextOf(StringCalls(s, t)) == StringText(s, t)
  {
    var n := if s.precision < 0 || |t| < s.precision then |t| else s.precision;
    PadText(s.width - n);
    var call := [T.WriteText(t, n)];
    assert call[1..] == [] && T.TextOf(call) == t[..n] + "" == t[..n];
    TextOfConcat(call, PadCalls(s.width - n));
    TextOfConcat(PadCalls(s.width - n), call);
  }

  /** The terminal draws exactly the field, where tty_write does not read on behind the precision. */
  lemma StringDrawn(k: Terminal.Core, s: Spec, t: string)
    requires Terminal.Ok(k) && T.Supported(k, StringText(s, t)) && T.Supported(k, T.TextOf(StringCalls(s, t)))
    requires T.AllLetGo(k, StringCalls(s, t))
    ensures T.Do(k, StringCalls(s, t)) == Some(T.Fold(k, StringText(s, t)))
  {
    StringCallsText(s, t);
    T.CallsAreFold(k, StringCalls(s, t));
  }
}
