/** What characters and sequences do to the screen, told from row, column and cells (kernel/src/tty.c). */
module TerminalDrawing {
  import opened Wrappers
  import opened Arith
  import opened Bits
  import opened Terminal
  import opened TerminalColors
  import opened TerminalText

  // ---- pictures ----

  /** Everything but the cells, the cursor and the color is as before. */
  predicate SameRest(k: Core, k': Core) {
    k'.w == k.w && k'.h == k.h && k'.buf == k.buf && k'.active == k.active
  }

  /** Every cell is as before. */
  predicate SameCells(k: Core, k': Core)
    requires Grid(k) && Grid(k')
  {
    SameRest(k, k') && forall y, x :: 0 <= y < k.h && 0 <= x < k.w ==> k'.back[y][x] == k.back[y][x]
  }

  /** Every cell is as the one below it was, and the last row is blank. */
  predicate MovedUp(k: Core, k': Core)
    requires Grid(k) && Grid(k')
  {
    && SameRest(k, k')
    && forall y, x :: 0 <= y < k.h && 0 <= x < k.w ==> k'.back[y][x] == if y + 1 < k.h then k.back[y + 1][x] else Blank
  }

  /** Every cell but the one at row y, column x is as before. */
  predicate SameBut(k: Core, k': Core, y: nat, x: nat)
    requires Grid(k) && Grid(k')
  {
    && SameRest(k, k')
    && forall y', x' :: 0 <= y' < k.h && 0 <= x' < k.w && !(y' == y && x' == x) ==> k'.back[y'][x'] == k.back[y'][x']
  }

  /** The cursor moves, and nothing else changes. */
  predicate MovesTo(k: Core, k': Core, row: int, col: int)
    requires Grid(k) && Grid(k')
  {
    SameCells(k, k') && k'.color == k.color && k'.row == row && k'.col == col
  }

  /** The cursor goes to the next row, at column 0; on the last row the text moves up instead. */
  predicate NextLine(k: Core, k': Core)
    requires Grid(k) && Grid(k')
  {
    && k'.color == k.color && k'.col == 0
    && if k.row + 1 < k.h then k'.row == k.row + 1 && SameCells(k, k') else k'.row == k.row && MovedUp(k, k')
  }

  // ---- characters ----

  lemma LineDownDraws(k: Core)
    requires Ok(k)
    ensures Ok(LineDown(k)) && NextLine(k, LineDown(k).(col := 0))
  {
    LineDownKeeps(k);
    ScrollIsShift(k);
    var k' := LineDown(k).(col := 0);
    if k.row + 1 == k.h {
      forall y, x | 0 <= y < k.h && 0 <= x < k.w
        ensures k'.back[y][x] == if y + 1 < k.h then k.back[y + 1][x] else Blank
      {
        assert k'.back[y] == k.back[y + 1];
      }
    }
  }

  /** Newline starts the next line, return goes back to the start of the line, backspace one column back but not past
    * the start, and tab to the next multiple of 8, or to the next line when that is past the last column. */
  lemma ControlDraws(k: Core, c: char)
    requires Ok(k) && IsControl(c)
    ensures var k', stop := Control(k, c), (k.col / 8 + 1) * 8;
      && Ok(k')
      && (c == '\n' ==> NextLine(k, k'))
      && (c == '\r' ==> MovesTo(k, k', k.row, 0))
      && (c == BACKSPACE ==> MovesTo(k, k', k.row, if k.col > 0 then k.col - 1 else 0))
      && (c == '\t' ==> if stop < k.w then MovesTo(k, k', k.row, stop) else NextLine(k, k'))
  {
    ControlKeeps(k, c);
    LineDownDraws(k);
    LineDownDraws(k.(col := 0));
  }

  /** The cell at row y, column x once the cursor's cell holds the character in the current color. */
  function WithGlyph(k: Core, c: char, y: nat, x: nat): Cell
    requires Grid(k) && y < k.h && x < k.w
  {
    if y == k.row && x == k.col then Glyph(c, k.color) else k.back[y][x]
  }

  /** How many cells of the text come before the cursor. */
  function Place(k: Core): nat { k.row * k.w + k.col }

  /** A character becomes the glyph under the cursor in the current color, and the cursor goes one cell on along the
    * text. Behind the last cell the whole text, with the new glyph, moves up. */
  lemma PutDraws(k: Core, c: char)
    requires Ok(k)
    ensures var k', up := Put(k, c), k.row + 1 == k.h && k.col + 1 == k.w;
      && Ok(k') && SameRest(k, k') && k'.color == k.color
      && (forall y, x :: 0 <= y < k.h && 0 <= x < k.w ==>
            k'.back[y][x] ==
              if !up then WithGlyph(k, c, y, x) else if y + 1 < k.h then WithGlyph(k, c, y + 1, x) else Blank)
      && (if up then k'.row == k.row && k'.col == 0 else Place(k') == Place(k) + 1)
  {
    BlitKeeps(k, c);
    PutKeeps(k, c);
    var drawn := Blit(k, c);
    forall y, x | 0 <= y < k.h && 0 <= x < k.w ensures drawn.back[y][x] == WithGlyph(k, c, y, x) {
    }
    LineDownDraws(drawn.(col := 0));
    assert (k.row + 1) * k.w == k.row * k.w + k.w;
  }

  // ---- texts ----

  /** A character that moves no cursor of its own accord and opens no sequence. */
  predicate Printable(c: char) {
    c >= ' '
  }

  /** The cell at row y, column x of the text on the screen followed by s, counting on below the last row. */
  function Written(k: Core, s: string, y: nat, x: nat): Cell
    requires Grid(k) && x < k.w
  {
    var i := y * k.w + x - Place(k);
    if 0 <= i < |s| then Glyph(s[i], k.color) else if y < k.h then k.back[y][x] else Blank
  }

  /** The screen shows the text with s written at the cursor, moved up by as many rows as it took to keep the cursor
    * on the last one. */
  ghost predicate Shows(k: Core, s: string, k': Core, up: nat)
    requires Grid(k)
  {
    && Ok(k') && SameRest(k, k') && k'.color == k.color
    && Place(k') + up * k.w == Place(k) + |s| && (up > 0 ==> k'.row + 1 == k.h)
    && forall y, x :: 0 <= y < k.h && 0 <= x < k.w ==> k'.back[y][x] == Written(k, s, y + up, x)
  }

  lemma SamePlace(w: nat, y: nat, x: nat, y': nat, x': nat)
    requires x < w && x' < w && y * w + x == y' * w + x'
    ensures y == y' && x == x'
  {
    DivModUnique(y * w + x, w, y, x);
    DivModUnique(y * w + x, w, y', x');
  }

  /** The cell of the new glyph is the next one of the text. */
  lemma GlyphNext(k: Core, s: string, k1: Core, up: nat, c: char, y: nat, x: nat)
    requires Grid(k) && Shows(k, s, k1, up) && y < k.h && x < k.w
    ensures WithGlyph(k1, c, y, x) == Written(k, s + [c], y + up, x)
  {
    assert k1.back[y][x] == Written(k, s, y + up, x);
    assert k1.col < k.w && k1.color == k.color && SameRest(k, k1);
    assert Place(k1) + up * k.w == Place(k) + |s|;
    hide Shows, Ok, Grid;
    Along(k.w, k1.row, k1.col, up);
    if (y + up) * k.w + x == Place(k) + |s| {
      SamePlace(k.w, y + up, x, k1.row + up, k1.col);
    }
  }

  lemma Along(w: nat, row: nat, col: nat, up: nat)
    ensures row * w + col + up * w == (row + up) * w + col
  {
  }

  /** The last cell of the screen. */
  predicate AtEnd(k: Core) {
    k.row + 1 == k.h && k.col + 1 == k.w
  }

  /** The character in the last cell leaves nothing of the text for the row below. */
  lemma BelowIsBlank(k: Core, s: string, k1: Core, up: nat, c: char, x: nat)
    requires Grid(k) && Shows(k, s, k1, up) && AtEnd(k1) && x < k.w
    ensures Written(k, s + [c], k.h + up, x) == Blank
  {
    hide Ok, Grid;
    Along(k.w, k1.row, k1.col, up);
    Along(k.w, k1.row + up, k1.col, 1);
    assert (k.h + up) * k.w == Place(k) + |s + [c]|;
  }

  lemma PutCell(k: Core, c: char, y: nat, x: nat)
    requires Ok(k) && y < k.h && x < k.w
    ensures Ok(Put(k, c)) && SameRest(k, Put(k, c))
    ensures Put(k, c).back[y][x] ==
      if !AtEnd(k) then WithGlyph(k, c, y, x) else if y + 1 < k.h then WithGlyph(k, c, y + 1, x) else Blank
  {
    PutDraws(k, c);
    hide Put, WithGlyph;
  }

  lemma CellMore(k: Core, s: string, k1: Core, up: nat, c: char, y: nat, x: nat, up': nat)
    requires Ok(k) && Shows(k, s, k1, up) && y < k.h && x < k.w && up' == if AtEnd(k1) then up + 1 else up
    ensures Ok(Put(k1, c)) && SameRest(k1, Put(k1, c))
    ensures Put(k1, c).back[y][x] == Written(k, s + [c], y + up', x)
  {
    PutCell(k1, c, y, x);
    if !AtEnd(k1) {
      GlyphNext(k, s, k1, up, c, y, x);
    } else if y + 1 < k.h {
      GlyphNext(k, s, k1, up, c, y + 1, x);
    } else {
      BelowIsBlank(k, s, k1, up, c, x);
    }
  }

  lemma PlaceMore(k: Core, s: string, k1: Core, up: nat, c: char)
    requires Ok(k) && Shows(k, s, k1, up)
    ensures var k', up' := Put(k1, c), if AtEnd(k1) then up + 1 else up;
      && Ok(k') && SameRest(k, k') && k'.color == k.color
      && Place(k') + up' * k.w == Place(k) + |s| + 1 && (up' > 0 ==> k'.row + 1 == k'.h)
  {
    PutDraws(k1, c);
    assert Ok(k1) && k1.w == k.w && Place(k1) + up * k.w == Place(k) + |s| && (up > 0 ==> k1.row + 1 == k1.h);
    var k' := Put(k1, c);
    assert Ok(k') && k'.row < k'.h && k'.col < k'.w;
    hide Ok, Put, Shows;
    assert (up + 1) * k.w == up * k.w + k.w;
    if up > 0 && !AtEnd(k1) {
      Further(k.w, k1.row, k1.col, k'.row, k'.col);
    }
  }

  /** One cell on along the text is not a row back. */
  lemma Further(w: nat, row: nat, col: nat, row': nat, col': nat)
    requires col < w && col' < w && row' * w + col' == row * w + col + 1
    ensures row' >= row
  {
    if row' < row {
      RowsApart(w, row', row);
    }
  }

  lemma RowsApart(w: nat, low: nat, high: nat)
    requires low < high
    ensures low * w + w <= high * w
  {
    AtLeast(high - low, w);
    assert (high - low) * w == high * w - low * w;
  }

  lemma ShowsMore(k: Core, s: string, k1: Core, up: nat, c: char)
    requires Ok(k) && Shows(k, s, k1, up)
    ensures Shows(k, s + [c], Put(k1, c), if AtEnd(k1) then up + 1 else up)
  {
    var up' := if AtEnd(k1) then up + 1 else up;
    PlaceMore(k, s, k1, up, c);
    forall y: nat, x: nat | y < k.h && x < k.w
      ensures Put(k1, c).back[y][x] == Written(k, s + [c], y + up', x)
    {
      CellMore(k, s, k1, up, c, y, x, up');
    }
    hide Ok, Put, Written, AtEnd, Place;
  }

  /** Printable text lies along the rows from the cursor on, in the current color, and over nothing else. */
  lemma {:induction false} TextLies(k: Core, s: string)
    requires Ok(k) && !k.active && forall i :: 0 <= i < |s| ==> Printable(s[i])
    ensures Supported(k, s) && exists up: nat :: Shows(k, s, Fold(k, s), up)
    decreases |s|
  {
    if s == "" {
      NothingWritten(k);
      assert Fold(k, s) == k;
    } else {
      var front, c := s[..|s| - 1], s[|s| - 1];
      assert s == front + [c];
      TextLies(k, front);
      var up: nat :| Shows(k, front, Fold(k, front), up);
      OneMore(k, front, c);
      hide Shows, Fits, Char, Put;
      ShowsMore(k, front, Fold(k, front), up, c);
    }
  }

  lemma NothingWritten(k: Core)
    requires Ok(k)
    ensures Shows(k, "", k, 0)
  {
  }

  lemma {:induction false} OneMore(k: Core, s: string, c: char)
    requires Ok(k) && Supported(k, s) && !Fold(k, s).active && Printable(c)
    ensures Ok(Fold(k, s)) && Supported(k, s + [c]) && Fold(k, s + [c]) == Put(Fold(k, s), c)
    decreases |s|
  {
    if s == "" {
      assert (s + [c])[1..] == "";
      assert Fits(k, c) && Char(k, c) == Put(k, c);
    } else {
      assert (s + [c])[1..] == s[1..] + [c];
      OneMore(Char(k, s[0]), s[1..], c);
    }
  }

  // ---- sequences ----

  lemma CursorMoves(k: Core, row: nat, col: nat)
    requires Grid(k)
    ensures MovesTo(k, k.(row := row, col := col), row, col)
  {
  }

  lemma CsiForward(k: Core, args: seq<nat>, count: nat)
    requires Ok(k)
    ensures var (row, col) := Forward(k.row, k.col + Num(args, count), k.w, k.h);
      Csi(k, 'C', args, count) == k.(row := row, col := col)
  {
    hide Forward, Num;
  }

  /** Cursor forward goes on along the text by the first argument, or by 1, up to the last cell. */
  lemma ForwardDraws(k: Core, args: seq<nat>, count: nat)
    requires Ok(k) && |args| > 0
    ensures var k', n := Csi(k, 'C', args, count), if count > 0 then args[0] else 1;
      Grid(k') && MovesTo(k, k', k'.row, k'.col) && Place(k') == Min(Place(k) + n, k.h * k.w - 1)
  {
    var n := Num(args, count);
    assert n == if count > 0 then args[0] else 1;
    var (row, col) := Forward(k.row, k.col + n, k.w, k.h);
    CsiForward(k, args, count);
    ForwardIsLinear(k.row, k.col + n, k.w, k.h);
    hide Forward, Csi, Num, Sound;
    CursorMoves(k, row, col);
  }

  /** Cursor backward goes back along the text by the first argument, or by 1. A move back past the first cell ends in
    * the first row, at the column that counts from the end of the row it started in. */
  lemma BackDraws(k: Core, args: seq<nat>, count: nat)
    requires Ok(k) && |args| > 0
    ensures var k', n := Csi(k, 'D', args, count), if count > 0 then args[0] else 1;
      && Grid(k')
      && (n <= Place(k) ==> MovesTo(k, k', k'.row, k'.col) && Place(k') == Place(k) - n)
      && (Place(k) < n <= (k.row + 1) * k.w ==> MovesTo(k, k', 0, (k.row + 1) * k.w - n))
  {
    var n := Num(args, count);
    assert n == if count > 0 then args[0] else 1;
    var (row, col, left) := Backward(k.row, k.col, n, k.w);
    CsiBack(k, args, count);
    BackPlace(k.row, k.col, n, k.w);
    hide Backward, Csi, Num;
    CursorMoves(k, row, (col - left) % TWO_64);
  }

  lemma BackPlace(row: nat, col: nat, n: nat, w: nat)
    requires 0 < w < TWO_64 && col < w
    ensures var (r, c, left) := Backward(row, col, n, w);
      var end := (c - left) % TWO_64;
      && (n <= row * w + col ==> r * w + end == row * w + col - n)
      && (row * w + col < n <= (row + 1) * w ==> r == 0 && end == (row + 1) * w - n)
  {
    BackwardEnds(row, col, n, w);
    hide Backward;
    assert (row + 1) * w == row * w + w;
  }

  /** Cursor down and up keep the column and stop at the last and first row. The absolute column counts from 1; 0 and
    * columns past the last mean the last one. Clearing a line blanks the row of the cursor, a rendition changes the
    * color alone, and any other command nothing. */
  lemma OthersDraw(k: Core, cmd: char, args: seq<nat>, count: nat)
    requires Ok(k) && |args| > 0
    ensures var k', n := Csi(k, cmd, args, count), if count > 0 then args[0] else 1;
      && (cmd == 'E' ==> MovesTo(k, k', Min(k.row + n, k.h - 1), k.col))
      && (cmd == 'F' ==> MovesTo(k, k', Max(k.row - n, 0), k.col))
      && (cmd == 'G' && count == 0 ==> MovesTo(k, k', k.row, 0))
      && (cmd == 'G' && count > 0 ==> MovesTo(k, k', k.row, if 1 <= args[0] <= k.w then args[0] - 1 else k.w - 1))
      && (cmd == 'K' ==>
            && Grid(k') && k'.back[k.row] == BlankRow(k.w) && (k'.row, k'.col, k'.color) == (k.row, k.col, k.color)
            && forall y :: 0 <= y < k.h && y != k.row ==> k'.back[y] == k.back[y])
      && (cmd == 'm' ==> Grid(k') && SameCells(k, k') && (k'.row, k'.col) == (k.row, k.col))
      && (cmd !in "CDEFGKm" ==> k' == k)
  {
    ClearKeeps(k);
  }
}
