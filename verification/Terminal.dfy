/** The terminal's grid and its incremental escape parser, on values (kernel/src/tty.c). */
module Terminal {
  import opened Wrappers
  import opened Arith

  const TAB_WIDTH := 8
  const ESCAPE_MAX := 63   // sizeof(escapebuf) - 1
  const MAX_ARGS := 16

  const BACKSPACE := 8 as char
  const ESC := 27 as char

  datatype Color = Color(fg: nat, bg: nat)

  /** A cell of glyph pixels, or all zero. */
  datatype Cell = Blank | Glyph(c: char, color: Color)

  /** Everything but the visible buffer. Row h of the back buffer, below the last line, is never drawn on;
    * buf is the text in escapebuf. */
  datatype Core = Core(w: nat, h: nat, row: nat, col: nat, color: Color,
    back: seq<seq<Cell>>, used: seq<nat>, buf: string, active: bool)

  /** Buffers have their sizes, and every cell at or past used[y] is blank. */
  predicate Sound(w: nat, h: nat, back: seq<seq<Cell>>, used: seq<nat>) {
    && 0 < w < TWO_64 && h > 0
    && |back| == h + 1 && |used| == h + 1
    && (forall y :: 0 <= y <= h ==> |back[y]| == w && used[y] <= w)
    && (forall y, x :: 0 <= y <= h && used[y] <= x < w ==> back[y][x] == Blank)
    && used[h] == 0
  }

  predicate Grid(k: Core) {
    Sound(k.w, k.h, k.back, k.used)
  }

  /** The grid is sound, the cursor is in range, and escapebuf is in use only while a sequence is open. */
  predicate Ok(k: Core) {
    && Grid(k)
    && k.row < k.h && k.col < k.w
    && (k.active || k.buf == "")
    && |k.buf| <= ESCAPE_MAX
  }

  // ---- Drawing ----

  function BlankRow(w: nat): seq<Cell> {
    seq(w, _ => Blank)
  }

  function Blit(k: Core, c: char): Core
    requires Ok(k)
  {
    k.(back := k.back[k.row := k.back[k.row][k.col := Glyph(c, k.color)]],
       used := k.used[k.row := Max(k.used[k.row], k.col + 1)])
  }

  function ClearLine(k: Core): Core
    requires Ok(k)
  {
    k.(back := k.back[k.row := BlankRow(k.w)], used := k.used[k.row := 0])
  }

  /** Row y after the scroll: as many cells as either row uses come from the row below. */
  function ScrolledRow(k: Core, y: nat): seq<Cell>
    requires Grid(k) && y < k.h
  {
    var cnt := Max(k.used[y], k.used[y + 1]);
    k.back[y + 1][..cnt] + k.back[y][cnt..]
  }

  function ScrolledRows(k: Core): (r: seq<seq<Cell>>)
    requires Grid(k)
    ensures |r| == k.h + 1
  {
    seq(k.h, y requires 0 <= y < k.h => ScrolledRow(k, y)) + [k.back[k.h]]
  }

  /** tty_scroll: only the used cells move. */
  function Scroll(k: Core): Core
    requires Grid(k)
  {
    k.(back := ScrolledRows(k), used := k.used[1..] + [k.used[k.h]])
  }

  /** Moving only the used cells is a full shift of all rows, with a blank last row. */
  lemma ScrollIsShift(k: Core)
    requires Grid(k)
    ensures Grid(Scroll(k))
    ensures forall y :: 0 <= y < k.h ==> Scroll(k).back[y] == k.back[y + 1]
    ensures Scroll(k).back[k.h - 1] == BlankRow(k.w)
    ensures Scroll(k).used == k.used[1..] + [0]
  {
    var k' := Scroll(k);
    forall y | 0 <= y < k.h ensures k'.back[y] == k.back[y + 1] && |k'.back[y]| == k.w {
      assert k'.back[y] == ScrolledRow(k, y);
    }
  }

  /** One line down, scrolling at the bottom. */
  function LineDown(k: Core): Core
    requires Grid(k)
  {
    if k.row + 1 == k.h then Scroll(k) else k.(row := k.row + 1)
  }

  /** A character and the step to the next cell. */
  function Put(k: Core, c: char): Core
    requires Ok(k)
  {
    BlitKeeps(k, c);
    var b := Blit(k, c);
    if k.col + 1 == k.w then LineDown(b.(col := 0)) else b.(col := k.col + 1)
  }

  predicate IsControl(c: char) {
    c == '\n' || c == BACKSPACE || c == '\t' || c == '\r'
  }

  function Control(k: Core, c: char): Core
    requires Ok(k) && IsControl(c)
  {
    if c == '\n' then LineDown(k).(col := 0)
    else if c == BACKSPACE then (if k.col == 0 then k else k.(col := k.col - 1))
    else if c == '\t' then
      var col := k.col + TAB_WIDTH - k.col % TAB_WIDTH;
      if col >= k.w then LineDown(k.(col := 0)) else k.(col := col)
    else k.(col := 0)
  }

  // ---- Cursor movement ----

  /** The loop of cursor forward. */
  function Forward(row: nat, col: nat, w: nat, h: nat): (nat, nat)
    requires w > 0
    decreases col
  {
    if col < w then (row, col)
    else if row + 1 == h then (row, w - 1)
    else Forward(row + 1, col - w, w, h)
  }

  /** The loop of cursor backward: row, column and what is left to subtract. */
  function Backward(row: nat, col: nat, num: int, w: nat): (nat, nat, int)
    requires w > 0
    decreases num
  {
    if col >= num then (row, col, num)
    else if row == 0 then (0, 0, num - w)
    else Backward(row - 1, col, num - w, w)
  }

  /** Cursor forward moves along the text, up to the last cell. */
  lemma {:induction false} ForwardIsLinear(row: nat, col: nat, w: nat, h: nat)
    requires w > 0 && row < h
    ensures var (r, c) := Forward(row, col, w, h);
      && r < h && c < w
      && r * w + c == if row * w + col < h * w then row * w + col else h * w - 1
    decreases col
  {
    if col < w {
      RowBound(row, col, w, h);
    } else if row + 1 == h {
      assert h * w == row * w + w;
    } else {
      ForwardIsLinear(row + 1, col - w, w, h);
      assert (row + 1) * w + (col - w) == row * w + col;
    }
  }

  lemma RowBound(row: nat, col: nat, w: nat, h: nat)
    requires row < h && col < w
    ensures row * w + col < h * w
  {
    AtLeast(h - row, w);
    assert (h - row) * w == h * w - row * w;
  }

  /** A move that stays on the screen ends num cells back; one that passes the first cell ends in row 0, at a column
    * that counts from the end of the row before it. */
  lemma {:induction false} BackwardEnds(row: nat, col: nat, num: int, w: nat)
    requires w > 0 && num >= col - w + 1 && col < w
    ensures var (r, c, left) := Backward(row, col, num, w);
      if num <= row * w + col then r <= row && 0 <= c - left < w && r * w + (c - left) == row * w + col - num
      else r == 0 && c - left == (row + 1) * w - num
    decreases num
  {
    if row > 0 && col < num {
      BackwardEnds(row - 1, col, num - w, w);
      assert (row - 1) * w == row * w - w;
    }
  }

  /** Cursor backward moves along the text, down to the first cell, exactly when it does not pass the first cell or
    * passes it by what is left of its row; and it stays on the screen exactly when num is at most the cells up to
    * the end of the row. */
  lemma {:induction false} BackwardIsLinear(row: nat, col: nat, num: int, w: nat)
    requires w > 0 && num >= col - w + 1 && col < w
    ensures var (r, c, left) := Backward(row, col, num, w);
      var at := row * w + col;
      && r <= row
      && (r * w + (c - left) == (if num <= at then at - num else 0) <==> num <= at || num == (row + 1) * w)
      && (0 <= c - left < w <==> num <= (row + 1) * w)
  {
    BackwardEnds(row, col, num, w);
    hide Backward;
    assert (row + 1) * w == row * w + w;
  }

  // ---- Control sequences ----

  /** What parseescape makes of the text after ESC: the command, its arguments, and the characters read. */
  datatype Parsed = Incomplete | NotCsi | GaveUp(len: nat) | Command(cmd: char, args: seq<nat>, count: nat, len: nat)

  predicate IsDigit(c: char) { '0' <= c <= '9' }

  /** The argument loop, from character i on. count is one less than the arguments begun. */
  function Scan(s: string, i: nat, args: seq<nat>, count: int): (r: Parsed)
    requires |s| > 0 && s[|s| - 1] == NUL && i < |s|
    requires |args| == MAX_ARGS && -1 <= count < MAX_ARGS
    ensures !r.NotCsi? && (r.Command? || r.GaveUp? ==> i < r.len < |s|)
    decreases |s| - i
  {
    var c := s[i];
    if c == NUL then Incomplete
    else if IsDigit(c) then
      var n := if count == -1 then 0 else count;
      Scan(s, i + 1, args[n := args[n] * 10 + (c as nat - '0' as nat)], n)
    else if c == ';' then
      if count < 15 then Scan(s, i + 1, args[count + 1 := 0], count + 1) else GaveUp(i + 1)
    else Command(c, args, count + 1, i + 1)
  }

  const NO_ARGS: seq<nat> := [0, 0, 0, 0, 0, 0, 0, 0, 0, 0, 0, 0, 0, 0, 0, 0]

  /** The text after ESC, with its terminator. */
  function Parse(s: string): Parsed
    requires |s| > 0 && s[|s| - 1] == NUL
  {
    if s[0] != '[' then NotCsi else Scan(s, 1, NO_ARGS, -1)
  }

  function Ansi4(n: nat): nat {
    match n
    case 0 => 0x000000 case 1 => 0xaa0000 case 2 => 0x00aa00 case 3 => 0xaa5500
    case 4 => 0x0000aa case 5 => 0xaa00aa case 6 => 0x00aaaa case 7 => 0xaaaaaa
    case 8 => 0x555555 case 9 => 0xff5555 case 10 => 0x55ff55 case 11 => 0xffff55
    case 12 => 0x5555ff case 13 => 0xff55ff case 14 => 0x55ffff case _ => 0xffffff
  }

  /** The palette init_ansicolors builds: 16 colors, a 6x6x6 cube and a gray ramp. */
  function Ansi8(n: nat): nat {
    if n < 16 then Ansi4(n)
    else if n < 232 then
      var i := n - 16;
      i / 36 * 255 / 5 * 0x1_0000 + i / 6 % 6 * 255 / 5 * 0x100 + i % 6 * 255 / 5
    else (n - 231) * 255 / 25 * 0x01_0101
  }

  /** Bitwise or. */
  function Or(a: nat, b: nat): nat {
    if a == 0 then b else if b == 0 then a
    else 2 * Or(a / 2, b / 2) + (if a % 2 == 1 || b % 2 == 1 then 1 else 0)
  }

  const DEFAULT_COLOR := Color(0xaaaaaa, 0x000000)

  function Arg(args: seq<nat>, j: nat): nat {
    if j < |args| then args[j] else 0
  }

  /** The extended color that starts at argument j: the color, if one is given, and the last argument used. */
  function Extended(args: seq<nat>, j: nat, before: nat): (r: (nat, nat))
    ensures r.1 > j
  {
    var n := Arg(args, j + 1);
    if n == 5 then
      if Arg(args, j + 2) >= 256 then (before, j + 1) else (Ansi8(Arg(args, j + 2)), j + 2)
    else if n == 2 then
      (Or(Or(Arg(args, j + 2) * 0x1_0000, Arg(args, j + 3) * 0x100), Arg(args, j + 4)), j + 4)
    else (before, j + 1)
  }

  /** Select graphic rendition, from argument j on. */
  function Rendition(color: Color, args: seq<nat>, count: nat, j: nat): Color
    decreases count - j
  {
    if j >= count then color
    else
      var a := Arg(args, j);
      if a == 38 then
        var (fg, last) := Extended(args, j, color.fg);
        Rendition(color.(fg := fg), args, count, last + 1)
      else if a == 48 then
        var (bg, last) := Extended(args, j, color.bg);
        Rendition(color.(bg := bg), args, count, last + 1)
      else
        var next :=
          if a == 0 then DEFAULT_COLOR
          else if 30 <= a <= 37 then color.(fg := Ansi4(a - 30))
          else if 90 <= a <= 97 then color.(fg := Ansi4(a - 82))
          else if a == 39 then color.(fg := DEFAULT_COLOR.fg)
          else if 40 <= a <= 47 then color.(bg := Ansi4(a - 40))
          else if 100 <= a <= 107 then color.(bg := Ansi4(a - 92))
          else if a == 49 then color.(bg := DEFAULT_COLOR.bg)
          else color;
        Rendition(next, args, count, j + 1)
  }

  function Num(args: seq<nat>, count: nat): nat {
    if count > 0 then Arg(args, 0) else 1
  }

  /** The effect of a complete sequence. A column below zero wraps as the 64-bit variable does. */
  function Csi(k: Core, cmd: char, args: seq<nat>, count: nat): Core
    requires Ok(k)
  {
    var num := Num(args, count);
    if cmd == 'C' then
      var (row, col) := Forward(k.row, k.col + num, k.w, k.h);
      k.(row := row, col := col)
    else if cmd == 'D' then
      var (row, col, left) := Backward(k.row, k.col, num, k.w);
      k.(row := row, col := (col - left) % TWO_64)
    else if cmd == 'E' then k.(row := if k.row + num >= k.h then k.h - 1 else k.row + num)
    else if cmd == 'F' then k.(row := if k.row < num then 0 else k.row - num)
    else if cmd == 'G' then
      var col := if count > 0 then Arg(args, 0) - 1 else 0;
      k.(col := if col < 0 || col >= k.w then k.w - 1 else col)
    else if cmd == 'K' then ClearLine(k)
    else if cmd == 'm' then k.(color := Rendition(k.color, args, count, 0))
    else k
  }

  // ---- The routines ----

  /** parseescape on the terminated text after ESC: the new state and the characters read. */
  function ParseEscape(k: Core, s: string): (Core, nat)
    requires Ok(k) && |s| > 0 && s[|s| - 1] == NUL
  {
    if s[0] == NUL then (k.(active := true), 0)
    else
      match Parse(s)
      case NotCsi => (k, 0)
      case Incomplete => if k.active then (k, 0) else (k.(buf := s[..|s| - 1], active := true), |s| - 1)
      case GaveUp(_) => (k, 0)
      case Command(cmd, args, count, len) => (Csi(k.(active := false, buf := ""), cmd, args, count), len)
  }

  /** parsecontrol from character i of the terminated text: the new state and the next character to look at. */
  function ParseControl(k: Core, s: string, i: nat): (r: (Core, nat))
    requires Ok(k) && |s| > 0 && s[|s| - 1] == NUL && i < |s|
    ensures r.1 >= i && (r.1 == i ==> r.0 == k)
    decreases |s| - i
  {
    var c := s[i];
    if i == |s| - 1 || c == NUL then (k, i + 1)
    else if IsControl(c) then
      ControlKeeps(k, c);
      ParseControl(Control(k, c), s, i + 1)
    else if c == ESC then
      var (k', n) := ParseEscape(k, s[i + 1..]);
      (k', i + 1 + n)
    else (k, i)
  }

  /** tty_putchar_locked, while the escape buffer has room. */
  function PutChar(k: Core, c: char): Core
    requires Ok(k) && (k.active ==> |k.buf| < ESCAPE_MAX)
  {
    if k.active then
      var buf := k.buf + [c];
      ParseEscape(k.(buf := buf), buf + [NUL]).0
    else
      var (k', next) := ParseControl(k, [c, NUL], 0);
      if next != 0 then k' else Put(k', c)
  }

  // ---- What they keep ----

  lemma BlitKeeps(k: Core, c: char)
    requires Ok(k)
    ensures Ok(Blit(k, c))
  {
  }

  lemma ClearKeeps(k: Core)
    requires Ok(k)
    ensures Ok(ClearLine(k))
  {
  }

  lemma LineDownKeeps(k: Core)
    requires Ok(k)
    ensures Ok(LineDown(k))
  {
    ScrollIsShift(k);
  }

  lemma PutKeeps(k: Core, c: char)
    requires Ok(k)
    ensures Ok(Put(k, c))
  {
    BlitKeeps(k, c);
    LineDownKeeps(Blit(k, c).(col := 0));
  }

  lemma ControlKeeps(k: Core, c: char)
    requires Ok(k) && IsControl(c)
    ensures Ok(Control(k, c)) && Control(k, c).active == k.active
  {
    LineDownKeeps(k);
    LineDownKeeps(k.(col := 0));
  }

  /** A cursor move backward stays on the screen. */
  predicate Reaches(k: Core, cmd: char, args: seq<nat>, count: nat) {
    cmd == 'D' ==> Num(args, count) <= (k.row + 1) * k.w
  }

  lemma MovedOk(k: Core, row: nat, col: nat)
    requires Ok(k)
    ensures Ok(k.(row := row, col := col)) <==> row < k.h && col < k.w
  {
  }

  /** The column of a move off the screen wraps to one past the last. */
  lemma BackKeeps(k: Core, num: nat)
    requires Ok(k)
    ensures var (row, col, left) := Backward(k.row, k.col, num, k.w);
      var k' := k.(row := row, col := (col - left) % TWO_64);
      && (num <= (k.row + 1) * k.w ==> Ok(k'))
      && (num < TWO_64 && Ok(k') ==> num <= (k.row + 1) * k.w)
  {
    var (row, col, left) := Backward(k.row, k.col, num, k.w);
    BackwardIsLinear(k.row, k.col, num, k.w);
    BackwardEnds(k.row, k.col, num, k.w);
    MovedOk(k, row, (col - left) % TWO_64);
    hide Backward, Grid;
    assert 0 < k.w < TWO_64 && k.row < k.h;
    hide Ok;
    if num > (k.row + 1) * k.w && num < TWO_64 {
      assert (k.row + 1) * k.w >= k.w by { AtLeast(k.row + 1, k.w); }
      assert (col - left) % TWO_64 == col - left + TWO_64;
    }
  }

  /** A complete sequence keeps the cursor in range and the grid sound, if and only if no move back leaves the
    * screen. */
  lemma CsiKeeps(k: Core, cmd: char, args: seq<nat>, count: nat)
    requires Ok(k)
    ensures Reaches(k, cmd, args, count) ==> Ok(Csi(k, cmd, args, count))
    ensures Num(args, count) < TWO_64 && Ok(Csi(k, cmd, args, count)) ==> Reaches(k, cmd, args, count)
  {
    hide *;
    if cmd == 'D' {
      CsiBack(k, args, count);
      BackKeeps(k, Num(args, count));
    } else {
      NoBack(k, cmd, args, count);
      if cmd == 'K' {
        CsiClear(k, args, count);
        ClearKeeps(k);
      } else {
        CsiMoves(k, cmd, args, count);
        var k' := Csi(k, cmd, args, count);
        RecoloredOk(k, k'.row, k'.col, k'.color);
      }
    }
  }

  lemma CsiBack(k: Core, args: seq<nat>, count: nat)
    requires Ok(k)
    ensures var (row, col, left) := Backward(k.row, k.col, Num(args, count), k.w);
      Csi(k, 'D', args, count) == k.(row := row, col := (col - left) % TWO_64)
    ensures Reaches(k, 'D', args, count) <==> Num(args, count) <= (k.row + 1) * k.w
    ensures k.w > 0
  {
    hide Backward, Num;
  }

  lemma NoBack(k: Core, cmd: char, args: seq<nat>, count: nat)
    requires cmd != 'D'
    ensures Reaches(k, cmd, args, count)
  {
  }

  lemma CsiClear(k: Core, args: seq<nat>, count: nat)
    requires Ok(k)
    ensures Csi(k, 'K', args, count) == ClearLine(k)
  {
    hide ClearLine;
  }

  /** All other sequences move the cursor, inside the screen, or change the color. */
  lemma CsiMoves(k: Core, cmd: char, args: seq<nat>, count: nat)
    requires Ok(k) && cmd != 'D' && cmd != 'K'
    ensures var k' := Csi(k, cmd, args, count);
      k' == k.(row := k'.row, col := k'.col, color := k'.color) && k'.row < k.h && k'.col < k.w
  {
    ForwardIsLinear(k.row, k.col + Num(args, count), k.w, k.h);
    assert k.row < k.h && k.col < k.w;
    hide Ok, Grid, Forward, Rendition, Num;
  }

  lemma RecoloredOk(k: Core, row: nat, col: nat, color: Color)
    requires Ok(k) && row < k.h && col < k.w
    ensures Ok(k.(row := row, col := col, color := color))
  {
  }
}
