/** What the calls of the terminal draw, and when it matters how a text is cut into calls (kernel/src/tty.c). */
module TerminalText {
  import opened Wrappers
  import opened Terminal

  // ---- One character at a time ----

  /** A character the terminal supports here: printable, a handled control, ESC, or one that continues or ends
    * a control sequence that fits the escape buffer and the argument array. */
  predicate Fits(k: Core, c: char) {
    && Ok(k)
    && c != NUL
    && if k.active then
         && |k.buf| < ESCAPE_MAX
         && (match Parse(k.buf + [c] + [NUL])
             case Incomplete => true
             case Command(cmd, args, count, _) => Reaches(k, cmd, args, count)
             case _ => false)
       else IsControl(c) || c == ESC || c >= ' '
  }

  /** What one character does, whichever call brings it. */
  function Char(k: Core, c: char): (k': Core)
    requires Fits(k, c)
    ensures Ok(k')
  {
    if k.active then
      var buf := k.buf + [c];
      match Parse(buf + [NUL])
      case Command(cmd, args, count, _) =>
        CsiKeeps(k.(active := false, buf := ""), cmd, args, count);
        Csi(k.(active := false, buf := ""), cmd, args, count)
      case _ => k.(buf := buf)
    else if c == ESC then k.(active := true)
    else if IsControl(c) then
      ControlKeeps(k, c);
      Control(k, c)
    else
      PutKeeps(k, c);
      Put(k, c)
  }

  predicate Supported(k: Core, text: string)
    decreases |text|
  {
    text == "" || (Fits(k, text[0]) && Supported(Char(k, text[0]), text[1..]))
  }

  /** A text, one character at a time. */
  function Fold(k: Core, text: string): Core
    requires Supported(k, text)
    decreases |text|
  {
    if text == "" then k else Fold(Char(k, text[0]), text[1..])
  }

  lemma {:induction false} FoldConcat(k: Core, a: string, b: string)
    requires Supported(k, a + b)
    ensures Supported(k, a) && Supported(Fold(k, a), b)
    ensures Fold(k, a + b) == Fold(Fold(k, a), b)
    decreases |a|
  {
    if a == "" {
      assert a + b == b;
    } else {
      assert (a + b)[1..] == a[1..] + b;
      FoldConcat(Char(k, a[0]), a[1..], b);
    }
  }

  // ---- The calls ----

  /** tty_write is given the text in memory, up to its NUL, and the number of characters to write. */
  datatype Call = Putchar(c: char) | WriteText(mem: string, size: nat)

  predicate Room(k: Core) {
    Ok(k) && (k.active ==> |k.buf| < ESCAPE_MAX)
  }

  /** tty_write_locked, from character i on. parsecontrol is not told the size: it reads up to the NUL. None when a
    * full escape buffer is flushed or the cursor has left the screen. */
  function Write(k: Core, mem: string, size: nat, i: nat): Option<Core>
    requires size <= |mem|
    decreases size - i
  {
    if i >= size then Some(k)
    else if !Room(k) then None
    else if k.active then Write(PutChar(k, mem[i]), mem, size, i + 1)
    else
      var (k', j) := ParseControl(k, mem + [NUL], i);
      if j >= size then Some(k')
      else if !Room(k') then None
      else Write(PutChar(k', mem[j]), mem, size, j + 1)
  }

  /** A text that ends before the size is outside this model. */
  function DoOne(k: Core, call: Call): Option<Core> {
    match call
    case Putchar(c) => if Room(k) then Some(PutChar(k, c)) else None
    case WriteText(mem, size) => if size <= |mem| then Write(k, mem, size, 0) else None
  }

  function Do(k: Core, calls: seq<Call>): Option<Core>
    decreases |calls|
  {
    if calls == [] then Some(k)
    else
      var k' := DoOne(k, calls[0]);
      if k'.None? then None else Do(k'.value, calls[1..])
  }

  function Text(call: Call): string {
    match call
    case Putchar(c) => [c]
    case WriteText(mem, size) => if size <= |mem| then mem[..size] else mem
  }

  function TextOf(calls: seq<Call>): string {
    if calls == [] then "" else Text(calls[0]) + TextOf(calls[1..])
  }

  // ---- Where parsecontrol lets go ----

  /** Where tty_write stands between two characters: at the head of its loop, in parsecontrol behind a control
    * character, in a sequence parsecontrol reads, behind such a sequence, or in one held in the escape buffer. */
  datatype Mode = Head | Controls | Sequence | Behind | Held

  function Start(k: Core): Mode {
    if k.active then Held else Head
  }

  /** The mode after a character, which leaves a sequence open or not. A character behind a sequence goes to
    * tty_putchar. */
  function NextMode(m: Mode, c: char, open: bool): Mode {
    if open then if m == Behind || m == Held then Held else Sequence
    else if m == Sequence then Behind
    else if (m == Head || m == Controls) && IsControl(c) then Controls
    else Head
  }

  /** parsecontrol takes the character as well, whatever the size. */
  predicate ReadsOn(m: Mode, c: char) {
    m == Sequence || (m == Controls && (IsControl(c) || c == ESC))
  }

  function ModeAfter(k: Core, m: Mode, text: string): Mode
    requires Supported(k, text)
    decreases |text|
  {
    if text == "" then m
    else
      var k' := Char(k, text[0]);
      ModeAfter(k', NextMode(m, text[0], k'.active), text[1..])
  }

  /** Nothing behind the first size characters is drawn. */
  predicate LetsGo(k: Core, mem: string, size: nat)
    requires size <= |mem| && Supported(k, mem[..size])
  {
    size < |mem| ==> !ReadsOn(ModeAfter(k, Start(k), mem[..size]), mem[size])
  }

  /** From character i on: the first place, not before the size, where parsecontrol does not read on. */
  function Stop(k: Core, m: Mode, mem: string, size: nat, i: nat): (e: nat)
    ensures i <= |mem| ==> i <= e <= |mem|
    decreases |mem| - i
  {
    if i < |mem| && Fits(k, mem[i]) && (i < size || ReadsOn(m, mem[i])) then
      var k' := Char(k, mem[i]);
      Stop(k', NextMode(m, mem[i], k'.active), mem, size, i + 1)
    else i
  }

  /** The characters from i up to e fit, and e is that place. */
  predicate StopsAt(k: Core, m: Mode, mem: string, size: nat, i: nat, e: nat)
    decreases e - i
  {
    if i >= e then i == e && size <= e <= |mem| && (e < |mem| ==> !ReadsOn(m, mem[e]))
    else
      && e <= |mem| && Fits(k, mem[i]) && (i < size || ReadsOn(m, mem[i]))
      && var k' := Char(k, mem[i]);
         StopsAt(k', NextMode(m, mem[i], k'.active), mem, size, i + 1, e)
  }

  /** The first character of a stretch of text. */
  lemma Peel(k: Core, mem: string, i: nat, e: nat)
    requires i < e <= |mem|
    ensures mem[i..e] != "" && mem[i..e][0] == mem[i] && mem[i..e][1..] == mem[i + 1..e]
    ensures Supported(k, mem[i..e]) <==> Fits(k, mem[i]) && Supported(Char(k, mem[i]), mem[i + 1..e])
    ensures Supported(k, mem[i..e]) ==> Fold(k, mem[i..e]) == Fold(Char(k, mem[i]), mem[i + 1..e])
  {
  }

  lemma {:induction false} StopsInside(k: Core, m: Mode, mem: string, size: nat, i: nat, e: nat)
    requires StopsAt(k, m, mem, size, i, e)
    ensures size <= e <= |mem| && i <= e && Supported(k, mem[i..e])
    decreases e - i
  {
    hide Fits, Char, ReadsOn, NextMode;
    if i < e {
      var k' := Char(k, mem[i]);
      StopsInside(k', NextMode(m, mem[i], k'.active), mem, size, i + 1, e);
      Peel(k, mem, i, e);
    }
  }

  /** A supported text has such a place. It is the size itself if and only if parsecontrol lets go there. */
  lemma {:induction false} StopIsThere(k: Core, m: Mode, mem: string, size: nat, i: nat)
    requires i <= size <= |mem| && Supported(k, mem[i..])
    ensures var e := Stop(k, m, mem, size, i);
      && StopsAt(k, m, mem, size, i, e) && Supported(k, mem[i..size])
      && (e == size <==> size < |mem| ==> !ReadsOn(ModeAfter(k, m, mem[i..size]), mem[size]))
    decreases size - i
  {
    hide Fits, Char, ReadsOn, NextMode;
    if i < size {
      assert mem[i..][0] == mem[i] && mem[i..][1..] == mem[i + 1..];
      var k' := Char(k, mem[i]);
      StopIsThere(k', NextMode(m, mem[i], k'.active), mem, size, i + 1);
      Peel(k, mem, i, size);
    } else {
      assert mem[i..size] == "";
      StopBehind(k, m, mem, size, i);
    }
  }

  lemma {:induction false} StopBehind(k: Core, m: Mode, mem: string, size: nat, i: nat)
    requires size <= i <= |mem| && Supported(k, mem[i..])
    ensures var e := Stop(k, m, mem, size, i);
      StopsAt(k, m, mem, size, i, e) && (e == i <==> i < |mem| ==> !ReadsOn(m, mem[i]))
    decreases |mem| - i
  {
    hide Fits, Char, ReadsOn, NextMode;
    if i < |mem| {
      assert mem[i..][0] == mem[i] && mem[i..][1..] == mem[i + 1..];
      if ReadsOn(m, mem[i]) {
        var k' := Char(k, mem[i]);
        StopBehind(k', NextMode(m, mem[i], k'.active), mem, size, i + 1);
        StopsInside(k', NextMode(m, mem[i], k'.active), mem, size, i + 1, Stop(k, m, mem, size, i));
      }
    }
  }

  /** Where parsecontrol lets go at the size, what is in memory behind need not be supported. */
  lemma {:induction false} StopsHere(k: Core, m: Mode, mem: string, size: nat, i: nat)
    requires i <= size <= |mem| && Supported(k, mem[i..size])
    requires size < |mem| ==> !ReadsOn(ModeAfter(k, m, mem[i..size]), mem[size])
    ensures StopsAt(k, m, mem, size, i, size)
    decreases size - i
  {
    hide Fits, Char, ReadsOn, NextMode;
    if i < size {
      Peel(k, mem, i, size);
      var k' := Char(k, mem[i]);
      StopsHere(k', NextMode(m, mem[i], k'.active), mem, size, i + 1);
    } else {
      assert mem[i..size] == "";
    }
  }

  // ---- A partial sequence is read again without effect ----

  /** A parse cut off after m characters. */
  function Cut(r: Parsed, m: nat): Parsed {
    if (r.Command? || r.GaveUp?) && r.len <= m then r else Incomplete
  }

  lemma {:induction false} ScanCut(r: string, m: nat, i: nat, args: seq<nat>, count: int)
    requires i <= m <= |r| && |args| == MAX_ARGS && -1 <= count < MAX_ARGS
    ensures Scan(r[..m] + [NUL], i, args, count) == Cut(Scan(r + [NUL], i, args, count), m)
    decreases m - i
  {
    if i < m {
      var c := r[i];
      assert (r[..m] + [NUL])[i] == c == (r + [NUL])[i];
      if c != NUL && IsDigit(c) {
        var n := if count == -1 then 0 else count;
        ScanCut(r, m, i + 1, args[n := args[n] * 10 + (c as nat - '0' as nat)], n);
      } else if c == ';' && count < 15 {
        ScanCut(r, m, i + 1, args[count + 1 := 0], count + 1);
      }
    }
  }

  lemma ParseCut(r: string, m: nat)
    requires 0 < m <= |r| && r[0] == '['
    ensures Parse(r[..m] + [NUL]) == Cut(Parse(r + [NUL]), m)
  {
    ScanCut(r, m, 1, NO_ARGS, -1);
  }

  lemma OpenChar(k: Core, c: char)
    requires k.active && Fits(k, c)
    ensures var p := Parse(k.buf + [c] + [NUL]);
      && Ok(k) && (p.Incomplete? || p.Command?)
      && (p.Incomplete? ==> Char(k, c) == k.(buf := k.buf + [c]))
      && (p.Command? ==>
            && Reaches(k, p.cmd, p.args, p.count)
            && Char(k, c) == Csi(k.(active := false, buf := ""), p.cmd, p.args, p.count))
  {
    hide Ok, Csi, Parse, Reaches;
  }

  /** Characters of an open sequence add up to the sequence: the parser in parsecontrol, which reads it from character
    * i on, has its effect and stands behind it; a sequence it reads to the NUL is held. */
  lemma {:induction false} OpenSequence(k: Core, mem: string, size: nat, i: nat, j: nat, e: nat)
    requires i <= j <= |mem| && i < |mem| && mem[i] == '[' && k.active && k.buf == mem[i..j]
    requires j > i ==> Parse(mem[i..j] + [NUL]) == Incomplete
    requires StopsAt(k, Sequence, mem, size, j, e)
    ensures j <= e <= |mem| && Supported(k, mem[j..e])
    ensures
      match Parse(mem[i..] + [NUL])
      case Incomplete => e == |mem| && Fold(k, mem[j..e]) == k.(buf := mem[i..])
      case Command(cmd, args, count, len) =>
        && j < i + len <= e && Ok(k) && Reaches(k, cmd, args, count)
        && var k' := Csi(k.(active := false, buf := ""), cmd, args, count);
           && StopsAt(k', Behind, mem, size, i + len, e) && Supported(k', mem[i + len..e])
           && Fold(k, mem[j..e]) == Fold(k', mem[i + len..e])
      case _ => false
    decreases |mem| - j
  {
    hide *;
    StopsInside(k, Sequence, mem, size, j, e);
    var r, x := mem[i..], j - i;
    if j == e {
      InSequence(k, mem, size, j);
      EmptyText(k);
      assert mem[i..j] == r && mem[j..e] == "";
    } else {
      var c, b := mem[j], mem[i..j + 1];
      assert k.buf + [c] == b == r[..x + 1] && r[..x] == mem[i..j];
      StopsStep(k, Sequence, mem, size, j, e);
      OpenChar(k, c);
      NextInSequence(c);
      CutBoth(r, x);
      Peel(k, mem, j, e);
      if Parse(b + [NUL]).Incomplete? {
        OpenSequence(k.(buf := b), mem, size, i, j + 1, e);
        SameReach(k, b);
      } else {
        var p := Parse(b + [NUL]);
        OpenOkAt(k);
        CsiOpen(k.(active := false, buf := ""), p.cmd, p.args, p.count);
      }
    }
  }

  lemma StopsStep(k: Core, m: Mode, mem: string, size: nat, i: nat, e: nat)
    requires StopsAt(k, m, mem, size, i, e) && i < e
    ensures e <= |mem| && Fits(k, mem[i])
    ensures var k' := Char(k, mem[i]); StopsAt(k', NextMode(m, mem[i], k'.active), mem, size, i + 1, e)
  {
    hide Fits, Char, ReadsOn, NextMode;
  }

  lemma NextInSequence(c: char)
    ensures NextMode(Sequence, c, true) == Sequence && NextMode(Sequence, c, false) == Behind
  {
  }

  /** A sequence that is not complete after x characters, with one more of them. */
  lemma CutBoth(r: string, x: nat)
    requires x < |r| && r[0] == '[' && (x > 0 ==> Parse(r[..x] + [NUL]) == Incomplete)
    ensures var p := Parse(r[..x + 1] + [NUL]);
      p.Command? ==> Parse(r + [NUL]) == p && p.len == x + 1
  {
    ParseCut(r, x + 1);
    if x > 0 {
      ParseCut(r, x);
    }
    hide Scan;
  }

  lemma SameReach(k: Core, b: string)
    ensures k.(buf := b).(active := false, buf := "") == k.(active := false, buf := "")
    ensures forall cmd: char, args: seq<nat>, count: nat {:trigger Reaches(k.(buf := b), cmd, args, count)} ::
      Reaches(k.(buf := b), cmd, args, count) <==> Reaches(k, cmd, args, count)
  {
  }

  lemma OpenOkAt(k: Core)
    requires Ok(k)
    ensures Ok(k.(active := false, buf := ""))
  {
  }

  // ---- The routines are the fold ----

  /** tty_putchar does what the character does. */
  lemma PutCharIsChar(k: Core, c: char)
    requires Fits(k, c)
    ensures Room(k) && PutChar(k, c) == Char(k, c)
  {
    if k.active {
      var buf := k.buf + [c];
      assert (buf + [NUL])[0] == buf[0];
    } else {
      var s := [c, NUL];
      if IsControl(c) {
        ControlKeeps(k, c);
        assert ParseControl(Control(k, c), s, 1) == (Control(k, c), 2);
      } else if c == ESC {
        assert s[1..] == [NUL];
      }
    }
  }

  /** parseescape from character i on, with the sequence just begun. */
  lemma EscapeRun(k: Core, mem: string, size: nat, i: nat, e: nat)
    requires Ok(k) && !k.active && i <= e && StopsAt(k.(active := true), Sequence, mem, size, i, e)
    ensures e <= |mem| && Supported(k.(active := true), mem[i..e])
    ensures var (k', n) := ParseEscape(k, mem[i..] + [NUL]);
      && Ok(k') && i + n <= e && Supported(k', mem[i + n..e])
      && Fold(k.(active := true), mem[i..e]) == Fold(k', mem[i + n..e])
      && (if k'.active then i + n == e == |mem| else StopsAt(k', Behind, mem, size, i + n, e))
  {
    hide *;
    var k1 := k.(active := true);
    OpenOk(k);
    StopsInside(k1, Sequence, mem, size, i, e);
    EscapeIs(k, mem[i..]);
    FoldOk(k1, mem[i..e]);
    if i == e {
      InSequence(k1, mem, size, i);
      EmptyText(k1);
      assert mem[i..] == "" && mem[i..e] == "";
    } else {
      Peel(k1, mem, i, e);
      OpensWithBracket(k1, mem[i..e]);
      assert k1.buf == mem[i..i];
      OpenSequence(k1, mem, size, i, i, e);
      match Parse(mem[i..] + [NUL])
      case Incomplete =>
        assert mem[e..e] == "";
        EmptyText(k1.(buf := mem[i..]));
      case Command(cmd, args, count, len) =>
        ReachBefore(k, cmd, args, count);
        CsiKeeps(k, cmd, args, count);
        CsiOpen(k, cmd, args, count);
        StopsInside(Csi(k, cmd, args, count), Behind, mem, size, i + len, e);
    }
  }

  /** An open sequence is read to the NUL. */
  lemma InSequence(k: Core, mem: string, size: nat, i: nat)
    requires StopsAt(k, Sequence, mem, size, i, i)
    ensures i == |mem|
  {
  }

  lemma ReachBefore(k: Core, cmd: char, args: seq<nat>, count: nat)
    requires Ok(k) && !k.active
    ensures Reaches(k.(active := true), cmd, args, count) <==> Reaches(k, cmd, args, count)
    ensures k.(active := true).(active := false, buf := "") == k
  {
  }

  /** What parseescape does with an open sequence. */
  lemma EscapeIs(k: Core, rest: string)
    requires Ok(k) && !k.active
    ensures rest == "" ==> ParseEscape(k, rest + [NUL]) == (k.(active := true), 0)
    ensures rest != "" && rest[0] == '[' && Parse(rest + [NUL]).Incomplete? ==>
      ParseEscape(k, rest + [NUL]) == (k.(buf := rest, active := true), |rest|)
    ensures rest != "" && rest[0] == '[' && Parse(rest + [NUL]).Command? ==>
      var p := Parse(rest + [NUL]);
      ParseEscape(k, rest + [NUL]) == (Csi(k, p.cmd, p.args, p.count), p.len)
  {
    hide Csi, Scan, Sound;
    var s := rest + [NUL];
    assert s[..|s| - 1] == rest;
    assert k.(active := false, buf := "") == k;
  }

  lemma OpenOk(k: Core)
    requires Ok(k) && !k.active
    ensures Ok(k.(active := true)) && k.buf == ""
  {
  }

  lemma OpensWithBracket(k: Core, rest: string)
    requires k.active && k.buf == "" && rest != "" && Supported(k, rest)
    ensures rest[0] == '[' && NUL !in rest[..1]
  {
    assert k.buf + [rest[0]] + [NUL] == [rest[0], NUL];
  }

  lemma EmptyText(k: Core)
    ensures Supported(k, "") && Fold(k, "") == k
  {
  }

  lemma CsiOpen(k: Core, cmd: char, args: seq<nat>, count: nat)
    requires Ok(k)
    ensures Csi(k, cmd, args, count).active == k.active
  {
  }

  lemma {:induction false} FoldOk(k: Core, text: string)
    requires Ok(k) && Supported(k, text)
    ensures Ok(Fold(k, text))
    decreases |text|
  {
    if text != "" {
      FoldOk(Char(k, text[0]), text[1..]);
    }
  }

  /** tty_putchar gets the character: one parsecontrol does not take, or any behind a sequence. */
  predicate HandedOver(m: Mode, c: char) {
    m == Behind || ((m == Head || m == Controls) && !IsControl(c) && c != ESC)
  }

  /** Then the loop of tty_write is at its head. */
  lemma BackAtHead(k: Core, m: Mode, c: char)
    requires Fits(k, c) && !k.active && HandedOver(m, c)
    ensures var k' := Char(k, c); NextMode(m, c, k'.active) == Start(k')
  {
    hide Ok, Csi, Parse, Control;
  }

  /** parsecontrol has the effect of the characters it takes. It stops at a character tty_putchar then gets, or at or
    * behind the size where it lets go. */
  lemma {:induction false} ControlRun(k: Core, m: Mode, mem: string, size: nat, i: nat, e: nat) returns (m': Mode)
    requires Ok(k) && !k.active && StopsAt(k, m, mem, size, i, e)
    requires (m == Head && i < size) || m == Controls
    ensures i <= e <= |mem| && size <= e && Supported(k, mem[i..e])
    ensures var (k', j) := ParseControl(k, mem + [NUL], i);
      && Ok(k') && (j >= size ==> k' == Fold(k, mem[i..e]))
      && (j < size ==>
            && !k'.active && HandedOver(m', mem[j]) && StopsAt(k', m', mem, size, j, e)
            && Supported(k', mem[j..e]) && Fold(k, mem[i..e]) == Fold(k', mem[j..e]))
    decreases |mem| - i
  {
    hide Grid, Csi, Parse, ParseEscape, Put, Control, Reaches;
    m' := m;
    StopsInside(k, m, mem, size, i, e);
    var s := mem + [NUL];
    if i == e {
      assert mem[i..e] == "";
    } else {
      var c := mem[i];
      assert s[i] == c;
      Peel(k, mem, i, e);
      if IsControl(c) {
        ControlKeeps(k, c);
        m' := ControlRun(Control(k, c), Controls, mem, size, i + 1, e);
      } else if c == ESC {
        assert s[i + 1..] == mem[i + 1..] + [NUL];
        EscapeRun(k, mem, size, i + 1, e);
        m' := Behind;
        var (k', n) := ParseEscape(k, mem[i + 1..] + [NUL]);
        StopEnds(k', mem, size, i + 1 + n, e);
      }
    }
  }

  /** Behind a sequence parsecontrol lets go at once. */
  lemma StopEnds(k: Core, mem: string, size: nat, i: nat, e: nat)
    requires i <= e <= |mem|
    ensures StopsAt(k, Behind, mem, size, i, e) && i >= size ==> i == e
    ensures i == e ==> Supported(k, mem[i..e]) && Fold(k, mem[i..e]) == k
  {
    if i == e {
      assert mem[i..e] == "";
    }
  }

  /** tty_write does what the characters up to where parsecontrol lets go do, one at a time. */
  lemma {:induction false} WriteDraws(k: Core, mem: string, size: nat, i: nat, e: nat)
    requires Ok(k) && i <= size && StopsAt(k, Start(k), mem, size, i, e)
    ensures size <= e <= |mem| && Supported(k, mem[i..e])
    ensures Write(k, mem, size, i) == Some(Fold(k, mem[i..e]))
    decreases |mem| - i
  {
    hide Ok, Fits, Char, PutChar, ParseControl;
    StopsInside(k, Start(k), mem, size, i, e);
    if i == size {
      assert e == i && mem[i..e] == "";
    } else if k.active {
      Peel(k, mem, i, e);
      PutCharIsChar(k, mem[i]);
      WriteDraws(Char(k, mem[i]), mem, size, i + 1, e);
    } else {
      var m' := ControlRun(k, Head, mem, size, i, e);
      var (k', j) := ParseControl(k, mem + [NUL], i);
      if j < size {
        Peel(k', mem, j, e);
        PutCharIsChar(k', mem[j]);
        BackAtHead(k', m', mem[j]);
        WriteDraws(Char(k', mem[j]), mem, size, j + 1, e);
      }
    }
  }

  /** Where parsecontrol lets go at the size, tty_write does what its characters do, one at a time, whatever follows
    * them in memory. */
  lemma WriteIsFold(k: Core, mem: string, size: nat)
    requires Ok(k) && size <= |mem| && Supported(k, mem[..size]) && LetsGo(k, mem, size)
    ensures Write(k, mem, size, 0) == Some(Fold(k, mem[..size]))
  {
    assert mem[0..size] == mem[..size];
    StopsHere(k, Start(k), mem, size, 0);
    WriteDraws(k, mem, size, 0, size);
  }

  /** Elsewhere it draws on, up to where parsecontrol does let go. */
  lemma WriteReadsOn(k: Core, mem: string, size: nat)
    requires Ok(k) && size <= |mem| && Supported(k, mem)
    ensures Supported(k, mem[..size])
    ensures var e := Stop(k, Start(k), mem, size, 0);
      && size <= e <= |mem| && (e == size <==> LetsGo(k, mem, size))
      && Supported(k, mem[..e]) && Write(k, mem, size, 0) == Some(Fold(k, mem[..e]))
  {
    assert mem[0..] == mem && mem[0..size] == mem[..size];
    StopIsThere(k, Start(k), mem, size, 0);
    var e := Stop(k, Start(k), mem, size, 0);
    WriteDraws(k, mem, size, 0, e);
    assert mem[0..e] == mem[..e];
  }

  /** Each call gives parsecontrol no more to take than its own characters. */
  predicate AllLetGo(k: Core, calls: seq<Call>)
    requires Supported(k, TextOf(calls))
    decreases |calls|
  {
    if calls == [] then true
    else
      FoldConcat(k, Text(calls[0]), TextOf(calls[1..]));
      && (calls[0].WriteText? ==> calls[0].size <= |calls[0].mem| && LetsGo(k, calls[0].mem, calls[0].size))
      && AllLetGo(Fold(k, Text(calls[0])), calls[1..])
  }

  /** Such calls leave what their text does. */
  lemma {:induction false} CallsAreFold(k: Core, calls: seq<Call>)
    requires Ok(k) && Supported(k, TextOf(calls)) && AllLetGo(k, calls)
    ensures Do(k, calls) == Some(Fold(k, TextOf(calls)))
    decreases |calls|
  {
    if calls != [] {
      var text := Text(calls[0]);
      FoldConcat(k, text, TextOf(calls[1..]));
      FoldOk(k, text);
      match calls[0] {
        case Putchar(c) =>
          PutCharIsChar(k, c);
          assert Fold(Char(k, c), text[1..]) == Char(k, c);
        case WriteText(mem, size) =>
          WriteIsFold(k, mem, size);
      }
      CallsAreFold(Fold(k, text), calls[1..]);
    }
  }

  /** Two ways to cut one supported text into calls end in one state, where parsecontrol lets go at every cut. */
  lemma ChunkingDoesNotMatter(k: Core, a: seq<Call>, b: seq<Call>)
    requires Ok(k) && TextOf(a) == TextOf(b) && Supported(k, TextOf(a)) && AllLetGo(k, a) && AllLetGo(k, b)
    ensures Do(k, a).Some? && Do(k, a) == Do(k, b)
    ensures Ok(Do(k, a).value)
  {
    CallsAreFold(k, a);
    CallsAreFold(k, b);
    FoldOk(k, TextOf(a));
  }

  // ---- Which cuts matter ----

  lemma {:induction false} SequenceIsOpen(k: Core, m: Mode, text: string)
    requires Supported(k, text) && (m == Sequence ==> k.active)
    ensures ModeAfter(k, m, text) == Sequence ==> Fold(k, text).active
    decreases |text|
  {
    hide Fits, Char;
    if text != "" {
      var k' := Char(k, text[0]);
      SequenceIsOpen(k', NextMode(m, text[0], k'.active), text[1..]);
    }
  }

  /** A cut outside sequences in front of a printable character never matters. */
  lemma PlainCut(k: Core, mem: string, size: nat)
    requires size < |mem| && Supported(k, mem[..size]) && !Fold(k, mem[..size]).active
    requires !IsControl(mem[size]) && mem[size] != ESC
    ensures LetsGo(k, mem, size)
  {
    SequenceIsOpen(k, Start(k), mem[..size]);
  }

  /** A cut between two newlines: the first call draws both. */
  lemma NewlinesTogether(k: Core)
    requires Ok(k) && !k.active
    ensures Supported(k, "\n\n") && Write(k, "\n\n", 1, 0) == Some(Fold(k, "\n\n"))
    ensures k.row + 2 < k.h ==> Fold(k, "\n\n").row == k.row + 2 && Fold(k, "\n").row == k.row + 1
  {
    NewlineStep(k);
    var k1 := Char(k, '\n');
    NewlineStep(k1);
    var t := "\n\n";
    assert t[0] == t[1] == '\n' && t[1..] == "\n" && t[1..][1..] == "" && t[..2] == t;
    NewlineModes();
    hide Fits, Char, Ok, ReadsOn, NextMode;
    assert Supported(k, t) && Fold(k, t) == Char(k1, '\n') && Fold(k, "\n") == k1;
    assert Stop(k, Head, t, 1, 0) == Stop(k1, Controls, t, 1, 1) == Stop(Char(k1, '\n'), Controls, t, 1, 2) == 2;
    hide Supported, Fold, Stop, Write, LetsGo;
    WriteReadsOn(k, t, 1);
  }

  lemma NewlineStep(k: Core)
    requires Ok(k) && !k.active
    ensures Fits(k, '\n') && Ok(Char(k, '\n')) && !Char(k, '\n').active && Char(k, '\n').h == k.h
    ensures Char(k, '\n').row == if k.row + 1 == k.h then k.row else k.row + 1
  {
    ControlKeeps(k, '\n');
    hide Ok, Scroll;
  }

  lemma NewlineModes()
    ensures NextMode(Head, '\n', false) == NextMode(Controls, '\n', false) == Controls && ReadsOn(Controls, '\n')
  {
  }

  /** One text in memory, written in two calls: what lies between the cut and where parsecontrol lets go is drawn by
    * both. So a cut inside a sequence leaves the end of the sequence on the screen as text. */
  lemma CutInTwo(k: Core, mem: string, size: nat)
    requires Ok(k) && size <= |mem| && Supported(k, mem)
    requires Supported(k, mem[..Stop(k, Start(k), mem, size, 0)] + mem[size..])
    ensures var e := Stop(k, Start(k), mem, size, 0);
      Do(k, [WriteText(mem, size), WriteText(mem[size..], |mem| - size)]) == Some(Fold(k, mem[..e] + mem[size..]))
  {
    hide Supported, Fold, Write, Stop, LetsGo, Ok;
    WriteReadsOn(k, mem, size);
    var e, rest := Stop(k, Start(k), mem, size, 0), mem[size..];
    FoldConcat(k, mem[..e], rest);
    FoldOk(k, mem[..e]);
    var k1 := Fold(k, mem[..e]);
    assert rest[..|rest|] == rest;
    WholeLetsGo(k1, rest);
    WriteIsFold(k1, rest, |rest|);
    var calls := [WriteText(mem, size), WriteText(rest, |rest|)];
    assert calls[1..] == [WriteText(rest, |rest|)] && calls[1..][1..] == [];
    assert Do(k1, calls[1..]) == Some(Fold(k1, rest));
  }

  lemma WholeLetsGo(k: Core, mem: string)
    requires Supported(k, mem[..|mem|])
    ensures LetsGo(k, mem, |mem|)
  {
  }
}
