/** Control sequences, written out and read back (kernel/src/tty.c). */
module TerminalSequences {
  import opened Wrappers
  import opened Terminal
  import opened TerminalText
  import P = Printf

  // ---- writing ----

  function Numeral(n: nat): string {
    if n == 0 then "0" else P.Reversed(P.Digits(n, 10, false))
  }

  /** The arguments in decimal, with semicolons between them. */
  function Listed(args: seq<nat>): string
    decreases |args|
  {
    if args == [] then "" else if |args| == 1 then Numeral(args[0]) else Numeral(args[0]) + ";" + Listed(args[1..])
  }

  /** What follows ESC. */
  function SequenceText(args: seq<nat>, cmd: char): string {
    "[" + Listed(args) + [cmd]
  }

  /** The argument array: the arguments, and zeros behind them. */
  predicate Filled(slots: seq<nat>, args: seq<nat>) {
    |slots| == MAX_ARGS && forall j :: 0 <= j < MAX_ARGS ==> slots[j] == if j < |args| then args[j] else 0
  }

  predicate IsCommand(cmd: char) {
    !IsDigit(cmd) && cmd != ';' && cmd != NUL
  }

  // ---- reading ----

  /** The text stands in s at i. */
  predicate Stands(s: string, i: nat, t: string) {
    i + |t| <= |s| && s[i..i + |t|] == t
  }

  lemma StandsSplit(s: string, i: nat, a: string, b: string)
    requires Stands(s, i, a + b)
    ensures Stands(s, i, a) && Stands(s, i + |a|, b)
    ensures forall j :: 0 <= j < |a| ==> s[i + j] == a[j]
  {
    var t := s[i..i + |a + b|];
    assert t[..|a|] == a && t[|a|..] == b;
    forall j | 0 <= j < |a| ensures s[i + j] == a[j] {
      assert t[j] == a[j];
    }
  }

  /** Digits are read into argument n. */
  lemma {:induction false} ScanDigits(s: string, i: nat, slots: seq<nat>, count: int, digits: string, n: nat)
    requires |s| > 0 && s[|s| - 1] == NUL && |slots| == MAX_ARGS && -1 <= count < MAX_ARGS
    requires n == (if count == -1 then 0 else count) && n < MAX_ARGS
    requires digits != "" && Stands(s, i, digits) && P.AllDigits(digits, 10) && i + |digits| < |s|
    ensures Scan(s, i, slots, count) ==
      Scan(s, i + |digits|, slots[n := P.ReadDigits(digits, 10, slots[n])], n)
    decreases |digits|
  {
    var c, rest := digits[0], digits[1..];
    assert digits == [c] + rest;
    StandsSplit(s, i, [c], rest);
    assert s[i + 0] == c && P.IsDigit(c, 10);
    var value := slots[n] * 10 + (c as nat - '0' as nat);
    assert Scan(s, i, slots, count) == Scan(s, i + 1, slots[n := value], n);
    assert P.ReadDigits(digits, 10, slots[n]) == P.ReadDigits(rest, 10, value);
    if rest != "" {
      forall j | 0 <= j < |rest| ensures P.IsDigit(rest[j], 10) {
        assert rest[j] == digits[j + 1];
      }
      ScanDigits(s, i + 1, slots[n := value], n, rest, n);
      assert slots[n := value][n := P.ReadDigits(rest, 10, value)] == slots[n := P.ReadDigits(rest, 10, value)];
    }
  }

  lemma NumeralReads(n: nat)
    ensures Numeral(n) != "" && P.AllDigits(Numeral(n), 10) && P.ReadDigits(Numeral(n), 10, 0) == n
  {
    P.DigitsRead(n, 10, false);
  }

  lemma ListedFrom(args: seq<nat>, m: nat, cmd: char)
    requires m < |args|
    ensures Listed(args[m..]) + [cmd] ==
      Numeral(args[m]) + (if m + 1 == |args| then [cmd] else [';'] + (Listed(args[m + 1..]) + [cmd]))
  {
    assert args[m..][0] == args[m] && args[m..][1..] == args[m + 1..];
  }

  /** Argument m is read. */
  lemma ScanArgument(s: string, i: nat, slots: seq<nat>, args: seq<nat>, m: nat)
    requires |s| > 0 && s[|s| - 1] == NUL && m < |args| <= MAX_ARGS
    requires Filled(slots, args[..m]) && Stands(s, i, Numeral(args[m])) && i + |Numeral(args[m])| < |s|
    ensures Filled(slots[m := args[m]], args[..m + 1])
    ensures Scan(s, i, slots, if m == 0 then -1 else m) == Scan(s, i + |Numeral(args[m])|, slots[m := args[m]], m)
  {
    hide Scan, Numeral, Stands;
    NumeralReads(args[m]);
    ScanDigits(s, i, slots, if m == 0 then -1 else m, Numeral(args[m]), m);
  }

  /** A semicolon begins the next argument, and a command ends them. */
  lemma ScanPunctuation(s: string, i: nat, slots: seq<nat>, args: seq<nat>, m: nat, c: char)
    requires |s| > 0 && s[|s| - 1] == NUL && m < |args| <= MAX_ARGS && i + 1 < |s| && s[i] == c
    requires Filled(slots, args[..m + 1])
    ensures c == ';' && m + 1 < |args| ==> Scan(s, i, slots, m) == Scan(s, i + 1, slots, m + 1)
    ensures IsCommand(c) ==> Scan(s, i, slots, m) == Command(c, slots, m + 1, i + 1)
  {
    if c == ';' && m + 1 < |args| {
      assert slots[m + 1 := 0] == slots;
    }
  }

  /** The arguments from number m on are read, and then the command. */
  lemma {:induction false} ScanArguments(s: string, i: nat, slots: seq<nat>, args: seq<nat>, m: nat, cmd: char)
    requires |s| > 0 && s[|s| - 1] == NUL && m < |args| <= MAX_ARGS && IsCommand(cmd)
    requires |slots| == MAX_ARGS && Filled(slots, args[..m]) && Stands(s, i, Listed(args[m..]) + [cmd])
    requires i + |Listed(args[m..]) + [cmd]| < |s|
    ensures var r := Scan(s, i, slots, if m == 0 then -1 else m);
      && r.Command? && r.cmd == cmd && r.count == |args| && Filled(r.args, args)
      && r.len == i + |Listed(args[m..]) + [cmd]|
    decreases |args| - m
  {
    hide Scan, Numeral, Listed, Stands, Filled, IsCommand;
    var t, last := Numeral(args[m]), m + 1 == |args|;
    ListedFrom(args, m, cmd);
    var tail := if last then [cmd] else [';'] + (Listed(args[m + 1..]) + [cmd]);
    StandsSplit(s, i, t, tail);
    ScanArgument(s, i, slots, args, m);
    var i', slots' := i + |t|, slots[m := args[m]];
    StandsSplit(s, i', [tail[0]], tail[1..]);
    assert tail == [tail[0]] + tail[1..] && s[i' + 0] == tail[0];
    ScanPunctuation(s, i', slots', args, m, tail[0]);
    if last {
      assert args[..m + 1] == args;
    } else {
      ScanArguments(s, i' + 1, slots', args, m + 1, cmd);
    }
  }

  /** A control sequence with up to 16 arguments in decimal is read back as it was meant, whatever follows it. */
  lemma SequenceReadsBack(args: seq<nat>, cmd: char, after: string)
    requires |args| <= MAX_ARGS && IsCommand(cmd)
    ensures var r := Parse(SequenceText(args, cmd) + after + [NUL]);
      && r.Command? && r.cmd == cmd && r.count == |args| && Filled(r.args, args)
      && r.len == |SequenceText(args, cmd)|
  {
    hide Scan, Listed;
    var t := SequenceText(args, cmd);
    var s, body := t + after + [NUL], Listed(args) + [cmd];
    assert s[0] == '[' && Stands(s, 1, body) && |t| == 1 + |body|;
    assert Filled(NO_ARGS, []);
    hide SequenceText, Filled;
    if args == [] {
      NoArguments(s, cmd);
    } else {
      assert args[0..] == args && args[..0] == [];
      ScanArguments(s, 1, NO_ARGS, args, 0, cmd);
    }
  }

  lemma NoArguments(s: string, cmd: char)
    requires |s| > 2 && s[|s| - 1] == NUL && IsCommand(cmd) && Stands(s, 1, Listed([]) + [cmd])
    ensures Scan(s, 1, NO_ARGS, -1) == Command(cmd, NO_ARGS, 0, 2) && |Listed([]) + [cmd]| == 1
  {
    assert Listed([]) + [cmd] == [cmd];
    StandsSplit(s, 1, [cmd], "");
    assert s[1 + 0] == cmd;
  }

  // ---- the effect ----

  /** Before its last character a sequence is held, and nothing happens. */
  lemma {:induction false} HeldSequence(k: Core, t: string, m: nat)
    requires Ok(k) && k.active && k.buf == "" && m < |t| <= ESCAPE_MAX && t[0] == '[' && NUL !in t
    requires Parse(t + [NUL]).Command? && Parse(t + [NUL]).len == |t|
    ensures Supported(k, t[..m]) && Fold(k, t[..m]) == k.(buf := t[..m])
    decreases m
  {
    hide Parse;
    if m == 0 {
      assert t[..m] == "" && k.(buf := "") == k;
    } else {
      var c := t[m - 1];
      assert t[..m] == t[..m - 1] + [c];
      HeldSequence(k, t, m - 1);
      ParseCut(t, m);
      CharHeld(k.(buf := t[..m - 1]), c);
      FoldMore(k, t[..m - 1], c);
    }
  }

  lemma CharHeld(k: Core, c: char)
    requires Ok(k) && k.active && |k.buf| < ESCAPE_MAX && c != NUL && Parse(k.buf + [c] + [NUL]).Incomplete?
    ensures Fits(k, c) && Char(k, c) == k.(buf := k.buf + [c])
  {
    hide Parse;
  }

  lemma {:induction false} FoldMore(k: Core, t: string, c: char)
    requires Supported(k, t) && Fits(Fold(k, t), c)
    ensures Supported(k, t + [c]) && Fold(k, t + [c]) == Char(Fold(k, t), c)
    decreases |t|
  {
    hide Fits, Char;
    if t == "" {
      assert t + [c] == [c] && [c][1..] == "";
    } else {
      assert (t + [c])[1..] == t[1..] + [c];
      FoldMore(Char(k, t[0]), t[1..], c);
    }
  }

  lemma NoNul(args: seq<nat>, cmd: char)
    requires IsCommand(cmd)
    ensures NUL !in SequenceText(args, cmd)
  {
    ListedNoNul(args);
  }

  lemma {:induction false} ListedNoNul(args: seq<nat>)
    ensures NUL !in Listed(args)
    decreases |args|
  {
    if args != [] {
      NumeralNoNul(args[0]);
      ListedNoNul(args[1..]);
    }
  }

  lemma NumeralNoNul(n: nat)
    ensures NUL !in Numeral(n)
  {
    NumeralReads(n);
    hide Numeral;
    forall i | 0 <= i < |Numeral(n)| ensures Numeral(n)[i] != NUL {
      assert P.IsDigit(Numeral(n)[i], 10);
    }
  }

  /** ESC and a written sequence that fits the escape buffer do what the command does with the arguments, once its last
    * character is there. */
  lemma SequenceActs(k: Core, args: seq<nat>, cmd: char)
    requires Ok(k) && !k.active && |args| <= MAX_ARGS && IsCommand(cmd)
    requires |SequenceText(args, cmd)| <= ESCAPE_MAX
    requires forall slots :: Filled(slots, args) ==> Reaches(k, cmd, slots, |args|)
    ensures Supported(k, [ESC] + SequenceText(args, cmd))
    ensures exists slots ::
      Filled(slots, args) && Fold(k, [ESC] + SequenceText(args, cmd)) == Csi(k, cmd, slots, |args|)
  {
    var t := SequenceText(args, cmd);
    var m := |t| - 1;
    assert t[m] == cmd && t[0] == '[' && t == t[..m] + [cmd] && t + "" + [NUL] == t + [NUL];
    hide Parse, SequenceText, Filled, Reaches, Csi;
    SequenceReadsBack(args, cmd, "");
    NoNul(args, cmd);
    var slots, k1 := Parse(t + [NUL]).args, k.(active := true);
    HeldSequence(k1, t, m);
    CommandActs(k, k1.(buf := t[..m]), t, cmd);
    FoldMore(k1, t[..m], cmd);
    EscapeFirst(k, t);
  }

  lemma CommandActs(k: Core, held: Core, t: string, cmd: char)
    requires Ok(k) && !k.active && cmd != NUL && |t| <= ESCAPE_MAX
    requires t == held.buf + [cmd] && held == k.(active := true, buf := held.buf)
    requires var r := Parse(t + [NUL]); r.Command? && Reaches(k, r.cmd, r.args, r.count)
    ensures var r := Parse(t + [NUL]); Fits(held, cmd) && Char(held, cmd) == Csi(k, r.cmd, r.args, r.count)
  {
    hide Parse, Csi;
    assert held.(active := false, buf := "") == k;
  }

  lemma EscapeFirst(k: Core, t: string)
    requires Ok(k) && !k.active && Supported(k.(active := true), t)
    ensures Supported(k, [ESC] + t) && Fold(k, [ESC] + t) == Fold(k.(active := true), t)
  {
    assert ([ESC] + t)[1..] == t;
    assert Fits(k, ESC) && Char(k, ESC) == k.(active := true);
  }
}
