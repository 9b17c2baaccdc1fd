/** The terminal in place: the back buffer, the visible buffer and the cursor drawn on it (kernel/src/tty.c). */
module TerminalScreen {
  import opened Wrappers
  import opened Arith
  import opened Terminal
  import T = Terminal
  import opened TerminalText

  /** A cell of the visible buffer: the glyph, and the cursor bar over it, if drawn. */
  datatype Shown = Shown(cell: Cell, bar: Option<nat>)

  type Place = Option<(nat, nat)>

  /** The visible cell is the back buffer's, or the old cursor is there. */
  predicate Clean(back: seq<seq<Cell>>, vis: seq<seq<Shown>>, cur: Place, y: nat, x: nat)
    requires y < |vis| && x < |vis[y]| && y < |back| && x < |back[y]|
  {
    cur == Some((y, x)) || vis[y][x] == Shown(back[y][x], None)
  }

  predicate Sized<X>(rows: seq<seq<X>>, w: nat, h: nat) {
    |rows| >= h && forall y :: 0 <= y < h ==> |rows[y]| == w
  }

  ghost predicate Matches(back: seq<seq<Cell>>, vis: seq<seq<Shown>>, cur: Place, w: nat, h: nat) {
    && |vis| == h && Sized(vis, w, h) && Sized(back, w, h)
    && (cur.Some? ==> cur.value.0 < h && cur.value.1 < w)
    && (forall y, x :: 0 <= y < h && 0 <= x < w ==> Clean(back, vis, cur, y, x))
  }

  /** Writing a cell of both buffers, or of the visible one alone at the old cursor. */
  lemma CellWritten(back: seq<seq<Cell>>, vis: seq<seq<Shown>>, cur: Place, w: nat, h: nat, y: nat, x: nat, cell: Cell)
    requires Matches(back, vis, cur, w, h) && y < h && x < w
    ensures Matches(back[y := back[y][x := cell]], vis[y := vis[y][x := Shown(cell, None)]], cur, w, h)
  {
    var back', vis' := back[y := back[y][x := cell]], vis[y := vis[y][x := Shown(cell, None)]];
    forall j, i | 0 <= j < h && 0 <= i < w ensures Clean(back', vis', cur, j, i) {
      assert Clean(back, vis, cur, j, i);
    }
  }

  /** Copying the old cursor's cell back leaves no cursor. */
  lemma CursorErased(back: seq<seq<Cell>>, vis: seq<seq<Shown>>, w: nat, h: nat, y: nat, x: nat)
    requires Matches(back, vis, Some((y, x)), w, h)
    ensures Matches(back, vis[y := vis[y][x := Shown(back[y][x], None)]], None, w, h)
  {
    var vis' := vis[y := vis[y][x := Shown(back[y][x], None)]];
    forall j, i | 0 <= j < h && 0 <= i < w ensures Clean(back, vis', None, j, i) {
      assert Clean(back, vis, Some((y, x)), j, i);
    }
  }

  lemma CursorDrawn(back: seq<seq<Cell>>, vis: seq<seq<Shown>>, w: nat, h: nat, y: nat, x: nat, shown: Shown)
    requires Matches(back, vis, None, w, h) && y < h && x < w
    ensures vis[y][x] == Shown(back[y][x], None)
    ensures Matches(back, vis[y := vis[y][x := shown]], Some((y, x)), w, h)
  {
    assert Clean(back, vis, None, y, x);
    var vis' := vis[y := vis[y][x := shown]];
    forall j, i | 0 <= j < h && 0 <= i < w ensures Clean(back, vis', Some((y, x)), j, i) {
      assert Clean(back, vis, None, j, i);
    }
  }

  /** Two visible buffers that agree with one back buffer, with one cursor, are one. So after every
    * call the picture depends on the state alone, and not on how its text was cut into calls. */
  lemma PictureIsDetermined(back: seq<seq<Cell>>, vis1: seq<seq<Shown>>, vis2: seq<seq<Shown>>, w: nat, h: nat,
                            row: nat, col: nat)
    requires Matches(back, vis1, Some((row, col)), w, h) && Matches(back, vis2, Some((row, col)), w, h)
    requires vis1[row][col] == vis2[row][col]
    ensures vis1 == vis2
  {
    forall y | 0 <= y < h ensures vis1[y] == vis2[y] {
      forall x | 0 <= x < w ensures vis1[y][x] == vis2[y][x] {
        assert Clean(back, vis1, Some((row, col)), y, x) && Clean(back, vis2, Some((row, col)), y, x);
      }
    }
  }

  /** Replacing a row of both buffers, where each new visible cell is clean. */
  lemma RowWritten(back: seq<seq<Cell>>, vis: seq<seq<Shown>>, cur: Place, w: nat, h: nat, y: nat, cells: seq<Cell>,
                   shown: seq<Shown>)
    requires Matches(back, vis, cur, w, h) && y < h && |cells| == |shown| == w
    requires forall x :: 0 <= x < w ==> cur == Some((y, x)) || shown[x] == Shown(cells[x], None)
    ensures Matches(back[y := cells], vis[y := shown], cur, w, h)
  {
    var back', vis' := back[y := cells], vis[y := shown];
    forall j, i | 0 <= j < h && 0 <= i < w ensures Clean(back', vis', cur, j, i) {
      assert Clean(back, vis, cur, j, i);
    }
  }

  /** The scrolled cells of a visible row. */
  function ShownBelow(below: seq<Cell>, cnt: nat): (r: seq<Shown>)
    requires cnt <= |below|
    ensures |r| == cnt && forall x :: 0 <= x < cnt ==> r[x] == Shown(below[x], None)
  {
    seq(cnt, x requires 0 <= x < cnt => Shown(below[x], None))
  }

  lemma ShiftedRow(back: seq<seq<Cell>>, vis: seq<seq<Shown>>, cur: Place, w: nat, h: nat, i: nat, cnt: nat)
    requires Matches(back, vis, cur, w, h) && i < h && cnt <= w && |back| > h && |back[i + 1]| == w
    ensures |vis| == h && |vis[i]| == w
    ensures Matches(back[i := back[i + 1][..cnt] + back[i][cnt..]],
      vis[i := ShownBelow(back[i + 1], cnt) + vis[i][cnt..]], cur, w, h)
  {
    var cells, shown := back[i + 1][..cnt] + back[i][cnt..], ShownBelow(back[i + 1], cnt) + vis[i][cnt..];
    forall x | 0 <= x < w ensures cur == Some((i, x)) || shown[x] == Shown(cells[x], None) {
      assert Clean(back, vis, cur, i, x);
    }
    RowWritten(back, vis, cur, w, h, i, cells, shown);
  }

  function BlankRows(w: nat, n: nat): seq<seq<Cell>> {
    seq(n, _ => BlankRow(w))
  }

  lemma BlankMatches(w: nat, h: nat, cur: Place)
    requires cur.Some? ==> cur.value.0 < h && cur.value.1 < w
    requires 0 < w < TWO_64 && h > 0
    ensures Matches(BlankRows(w, h + 1), seq(h, _ => seq(w, _ => Shown(Blank, None))), cur, w, h)
    ensures Sound(w, h, BlankRows(w, h + 1), seq(h + 1, _ => 0))
  {
  }

  /** A loop that has scrolled every row has scrolled the grid. */
  lemma ScrollDone(k: Core, back: seq<seq<Cell>>, used: seq<nat>)
    requires Grid(k) && |back| == k.h + 1 && |used| == k.h + 1
    requires forall y :: 0 <= y < k.h ==> back[y] == ScrolledRow(k, y) && used[y] == k.used[y + 1]
    requires back[k.h] == k.back[k.h] && used[k.h] == k.used[k.h]
    ensures back == T.Scroll(k).back && used == T.Scroll(k).used
    ensures used[k.h - 1] == 0 && Sound(k.w, k.h, back, used)
  {
    ScrollIsShift(k);
  }

  class Screen {
    const w: nat
    const h: nat
    var row: nat
    var col: nat
    var color: Color
    var back: seq<seq<Cell>>
    var vis: seq<seq<Shown>>
    var used: seq<nat>
    var cur: Option<(nat, nat)>  // row and column of the drawn cursor
    var buf: string
    var active: bool

    ghost function State(): Core
      reads this
    {
      Core(w, h, row, col, color, back, used, buf, active)
    }

    /** Between operations on cells the two buffers agree everywhere but under the old cursor. */
    ghost predicate Mid()
      reads this
    {
      Sound(w, h, back, used) && Matches(back, vis, cur, w, h)
    }

    /** The visible buffer is the back buffer with the cursor over (row, col). */
    ghost predicate Agree()
      reads this
    {
      && Mid() && row < h && col < w
      && cur == Some((row, col))
      && vis[row][col] == Shown(back[row][col], Some(color.fg % 0x100_0000))
    }

    /** tty_init over a black framebuffer, with the cursor in the first cell. */
    constructor (width: nat, height: nat)
      requires 0 < width < TWO_64 && height > 0
      ensures w == width && h == height && Agree() && Ok(State()) && !active && color == DEFAULT_COLOR
      ensures row == 0 && col == 0 && back == BlankRows(w, h + 1) && used == seq(h + 1, _ => 0)
    {
      w, h, row, col, color, buf, active := width, height, 0, 0, DEFAULT_COLOR, "", false;
      back, used, cur := BlankRows(width, height + 1), seq(height + 1, _ => 0), None;
      vis := seq(height, _ => seq(width, _ => Shown(Blank, None)));
      new;
      BlankMatches(w, h, None);
      hide Matches, BlankRows;
      DrawCursor();
    }

    method DrawCursor()
      requires Mid() && Ok(State())
      modifies this`vis, this`cur
      ensures State() == old(State()) && Agree()
    {
      if cur.Some? {
        var (y, x) := cur.value;
        CursorErased(back, vis, w, h, y, x);
        vis := vis[y := vis[y][x := Shown(back[y][x], None)]];
      }
      cur := Some((row, col));
      var bar := Shown(vis[row][col].cell, Some(color.fg % 0x100_0000));
      CursorDrawn(back, vis, w, h, row, col, bar);
      vis := vis[row := vis[row][col := bar]];
    }

    /** tty_clear: blank buffers, the cursor in the first cell; color and escape state stay. */
    method Clear()
      requires Mid() && Ok(State())
      modifies this`back, this`vis, this`used, this`row, this`col, this`cur
      ensures Agree() && row == 0 && col == 0
      ensures back == BlankRows(w, h + 1) && used == seq(h + 1, _ => 0)
    {
      BlankMatches(w, h, cur);
      vis := seq(h, _ => seq(w, _ => Shown(Blank, None)));
      back := BlankRows(w, h + 1);
      used := seq(h + 1, _ => 0);
      row, col := 0, 0;
      hide Matches, BlankRows;
      DrawCursor();
    }

    method ClearLine()
      requires Mid() && Ok(State())
      modifies this`back, this`vis, this`used
      ensures State() == T.ClearLine(old(State())) && Mid()
    {
      ClearKeeps(State());
      var blank := seq(w, _ => Shown(Blank, None));
      RowWritten(back, vis, cur, w, h, row, BlankRow(w), blank);
      vis := vis[row := blank];
      back := back[row := BlankRow(w)];
      used := used[row := 0];
    }

    method BlitChar(c: char)
      requires Mid() && Ok(State())
      modifies this`back, this`vis, this`used
      ensures State() == Blit(old(State()), c) && Mid()
    {
      BlitKeeps(State(), c);
      CellWritten(back, vis, cur, w, h, row, col, Glyph(c, color));
      vis := vis[row := vis[row][col := Shown(Glyph(c, color), None)]];
      back := back[row := back[row][col := Glyph(c, color)]];
      used := used[row := Max(used[row], col + 1)];
    }

    method Scroll()
      requires Mid()
      modifies this`back, this`vis, this`used
      ensures State() == T.Scroll(old(State())) && Mid()
    {
      ghost var k := State();
      var i := 0;
      hide Matches, ScrolledRows;
      while i < h
        invariant 0 <= i <= h
        invariant |back| == h + 1 && |used| == h + 1
        invariant forall y :: 0 <= y < i ==> back[y] == ScrolledRow(k, y) && used[y] == k.used[y + 1]
        invariant forall y :: i <= y <= h ==> back[y] == k.back[y] && used[y] == k.used[y]
        invariant Matches(back, vis, cur, w, h)
      {
        var cnt := Max(used[i], used[i + 1]);
        ShiftedRow(back, vis, cur, w, h, i, cnt);
        vis := vis[i := ShownBelow(back[i + 1], cnt) + vis[i][cnt..]];
        back := back[i := back[i + 1][..cnt] + back[i][cnt..]];
        used := used[i := used[i + 1]];
        i := i + 1;
      }
      // The bytes to blank in the last row are none: used[h - 1] is 0 by now.
      ScrollDone(k, back, used);
      used := used[h - 1 := 0];
    }

    method LineDown()
      requires Mid() && row < h
      modifies this`back, this`vis, this`used, this`row
      ensures State() == T.LineDown(old(State())) && Mid()
    {
      row := row + 1;
      if row == h {
        Scroll();
        row := row - 1;
      }
    }

    /** A glyph and the step to the next cell. */
    method PutGlyph(c: char)
      requires Mid() && Ok(State())
      modifies this`back, this`vis, this`used, this`row, this`col
      ensures State() == Put(old(State()), c) && Mid()
    {
      BlitKeeps(State(), c);
      BlitChar(c);
      col := col + 1;
      if col == w {
        col := 0;
        LineDown();
      }
    }

    /** One control character. */
    method ControlChar(c: char)
      requires Mid() && Ok(State()) && IsControl(c)
      modifies this`back, this`vis, this`used, this`row, this`col, this`cur
      ensures State() == Control(old(State()), c) && Mid() && Ok(State())
    {
      ControlKeeps(State(), c);
      hide Sound, Matches, T.Scroll, T.LineDown;
      if c == '\n' {
        LineDown();
        col := 0;
        DrawCursor();
      } else if c == BACKSPACE {
        if col > 0 {
          col := col - 1;
        }
      } else if c == '\t' {
        col := col + TAB_WIDTH - col % TAB_WIDTH;
        if col >= w {
          col := 0;
          LineDown();
        }
        DrawCursor();
      } else {
        col := 0;
        DrawCursor();
      }
    }

    method MoveForward(num: nat)
      requires w > 0 && h > 0 && row < h
      modifies this`row, this`col
      ensures (row, col) == Forward(old(row), old(col) + num, w, h)
    {
      col := col + num;
      while col >= w
        invariant row < h
        invariant Forward(row, col, w, h) == Forward(old(row), old(col) + num, w, h)
        decreases col
      {
        col := col - w;
        if row == h - 1 {
          col := w - 1;
          break;
        } else {
          row := row + 1;
        }
      }
    }

    method MoveBackward(n: nat)
      requires w > 0
      modifies this`row, this`col
      ensures var (r, c, left) := Backward(old(row), old(col), n, w); row == r && col == (c - left) % TWO_64
    {
      var num: int := n;
      while col < num
        invariant col == old(col)
        invariant Backward(row, col, num, w) == Backward(old(row), old(col), n, w)
        decreases num
      {
        num := num - w;
        if row == 0 {
          col := 0;
          break;
        } else {
          row := row - 1;
        }
      }
      col := (col - num) % TWO_64;
    }

    /** Select graphic rendition. */
    method SelectRendition(args: seq<nat>, count: nat)
      modifies this`color
      ensures color == Rendition(old(color), args, count, 0)
    {
      var j := 0;
      while j < count
        invariant j >= 0
        invariant Rendition(color, args, count, j) == Rendition(old(color), args, count, 0)
        decreases count - j
      {
        var a := Arg(args, j);
        if a == 0 {
          color := DEFAULT_COLOR;
        } else if 30 <= a <= 37 {
          color := Color(Ansi4(a - 30), color.bg);
        } else if 90 <= a <= 97 {
          color := Color(Ansi4(a - 90 + 8), color.bg);
        } else if a == 38 {
          var (fg, last) := Extended(args, j, color.fg);
          color, j := Color(fg, color.bg), last;
        } else if a == 39 {
          color := Color(DEFAULT_COLOR.fg, color.bg);
        } else if 40 <= a <= 47 {
          color := Color(color.fg, Ansi4(a - 40));
        } else if 100 <= a <= 107 {
          color := Color(color.fg, Ansi4(a - 100 + 8));
        } else if a == 48 {
          var (bg, last) := Extended(args, j, color.bg);
          color, j := Color(color.fg, bg), last;
        } else if a == 49 {
          color := Color(color.fg, DEFAULT_COLOR.bg);
        }
        j := j + 1;
      }
    }

    method MoveCursor(cmd: char, args: seq<nat>, count: nat)
      requires Ok(State()) && cmd in "CDEFG"
      modifies this`row, this`col
      ensures State() == Csi(old(State()), cmd, args, count)
    {
      var num := Num(args, count);
      match cmd
      case 'C' => MoveForward(num);
      case 'D' => MoveBackward(num);
      case 'E' =>
        row := row + num;
        if row >= h {
          row := h - 1;
        }
      case 'F' => row := if row < num then 0 else row - num;
      case _ =>
        var to := if count > 0 then Arg(args, 0) - 1 else 0;
        if to < 0 || to >= w {
          to := w - 1;
        }
        col := to;
    }

    method RunCommand(cmd: char, args: seq<nat>, count: nat)
      requires Mid() && Ok(State())
      modifies this`back, this`vis, this`used, this`row, this`col, this`color
      ensures State() == Csi(old(State()), cmd, args, count) && Mid()
    {
      hide Sound, Matches;
      match cmd
      case 'K' => ClearLine();
      case 'm' => SelectRendition(args, count);
      case 'C' | 'D' | 'E' | 'F' | 'G' => MoveCursor(cmd, args, count);
      case _ =>
    }

    /** parseescape: the number of characters read. */
    method ParseEscape(s: string) returns (n: nat)
      requires Mid() && Ok(State()) && |s| > 0 && s[|s| - 1] == NUL
      modifies this
      ensures (State(), n) == T.ParseEscape(old(State()), s) && Mid() && cur == old(cur)
    {
      hide Sound, Matches, Csi;
      if s[0] == NUL {
        active := true;
        return 0;
      }
      if s[0] != '[' {
        return 0;
      }
      var i, count := 1, -1;
      var args: seq<nat> := NO_ARGS;
      while IsDigit(s[i]) || s[i] == ';'
        invariant 1 <= i < |s| && |args| == MAX_ARGS && -1 <= count < MAX_ARGS
        invariant Scan(s, i, args, count) == Parse(s)
        decreases |s| - i
      {
        if IsDigit(s[i]) {
          if count == -1 {
            count := 0;
          }
          args := args[count := args[count] * 10 + (s[i] as nat - '0' as nat)];
        } else if count < 15 {
          count := count + 1;
          args := args[count := 0];
        } else {
          return 0;
        }
        i := i + 1;
      }
      if s[i] == NUL {
        if active {
          return 0;
        }
        buf := s[..|s| - 1];
        active := true;
        return |buf|;
      }
      active := false;
      buf := "";
      RunCommand(s[i], args, count + 1);
      n := i + 1;
    }

    /** parsecontrol from character i: the next character to look at. */
    method ParseControl(s: string, i: nat) returns (next: nat)
      requires Mid() && Ok(State()) && |s| > 0 && s[|s| - 1] == NUL && i < |s|
      modifies this
      ensures (State(), next) == T.ParseControl(old(State()), s, i) && Mid()
    {
      hide Sound, Matches, Control, T.ParseEscape;
      next := i;
      while IsControl(s[next])
        invariant i <= next < |s|
        invariant Mid() && Ok(State())
        invariant T.ParseControl(State(), s, next) == T.ParseControl(old(State()), s, i)
        decreases |s| - next
      {
        ControlChar(s[next]);
        next := next + 1;
      }
      if s[next] == NUL {
        return next + 1;
      }
      if s[next] == ESC {
        var n := ParseEscape(s[next + 1..]);
        next := next + 1 + n;
      }
    }

    method PutCharLocked(c: char)
      requires Mid() && Room(State()) && Ok(PutChar(State(), c))
      modifies this
      ensures State() == PutChar(old(State()), c) && Agree()
    {
      if active {
        buf := buf + [c];
        var _ := ParseEscape(buf + [NUL]);
        DrawCursor();
        return;
      }
      var next := ParseControl([c, NUL], 0);
      if next == 0 {
        PutGlyph(c);
      }
      DrawCursor();
    }

    method WriteLocked(mem: string, size: nat)
      requires Mid() && Ok(State()) && size <= |mem|
      requires TerminalText.Write(State(), mem, size, 0).Some? && Ok(TerminalText.Write(State(), mem, size, 0).value)
      modifies this
      ensures Some(State()) == TerminalText.Write(old(State()), mem, size, 0) && Agree()
    {
      hide Sound, Matches, PutChar, T.ParseControl;
      var i := 0;
      while i < size
        invariant i >= 0
        invariant Mid() && (i < size ==> Ok(State()))
        invariant TerminalText.Write(State(), mem, size, i) == TerminalText.Write(old(State()), mem, size, 0)
        decreases size - i
      {
        if active {
          PutCharLocked(mem[i]);
        } else {
          i := ParseControl(mem + [NUL], i);
          if i < size {
            PutCharLocked(mem[i]);
          }
        }
        i := i + 1;
      }
      DrawCursor();
    }

    /** Any calls that let go at their ends leave the picture of their text. */
    method Perform(calls: seq<Call>)
      requires Agree() && Ok(State()) && Supported(State(), TextOf(calls)) && AllLetGo(State(), calls)
      modifies this
      ensures State() == Fold(old(State()), TextOf(calls)) && Agree() && Ok(State())
      decreases |calls|
    {
      hide Sound, Matches, Fits, Char, LetsGo, TerminalText.Write, PutChar;
      if calls == [] {
        return;
      }
      ghost var k, text := State(), Text(calls[0]);
      FoldConcat(k, text, TextOf(calls[1..]));
      FoldOk(k, text);
      match calls[0] {
        case Putchar(c) =>
          PutCharIsChar(k, c);
          assert text[1..] == "" && Fold(k, text) == Char(k, c);
          PutCharLocked(c);
        case WriteText(mem, size) =>
          WriteIsFold(k, mem, size);
          WriteLocked(mem, size);
      }
      Perform(calls[1..]);
    }
  }
}
