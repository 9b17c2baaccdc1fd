/** The colors that escape sequences name (kernel/src/tty.c). */
module TerminalColors {
  import opened Arith
  import opened Terminal

  /** Or of numbers without a common bit is their sum. */
  lemma {:induction false} OrAdds(q: nat, b: nat, k: nat)
    requires b < Pow(2, k)
    ensures Or(q * Pow(2, k), b) == q * Pow(2, k) + b
    decreases k
  {
    hide *;
    PowTwo(k);
    if k == 0 {
      OrNone(q);
    } else {
      var p := Pow(2, k - 1);
      OrAdds(q, b / 2, k - 1);
      Doubles(q, p);
      OrEven(q * p, b);
    }
  }

  lemma PowTwo(k: nat)
    ensures Pow(2, k) == if k == 0 then 1 else 2 * Pow(2, k - 1)
  {
  }

  lemma OrNone(a: nat)
    ensures Or(a, 0) == a
  {
  }

  lemma Doubles(q: nat, p: nat)
    ensures q * (2 * p) == 2 * (q * p)
  {
  }

  /** The low bit of an even number leaves the other's alone. */
  lemma OrEven(a: nat, b: nat)
    requires Or(a, b / 2) == a + b / 2
    ensures Or(2 * a, b) == 2 * a + b
  {
  }

  function Rgb(r: nat, g: nat, b: nat): nat {
    r * 0x1_0000 + g * 0x100 + b
  }

  lemma Powers()
    ensures Pow(2, 8) == 0x100 && Pow(2, 16) == 0x1_0000
  {
    assert Pow(2, 4) == 16;
    assert Pow(2, 12) == 0x1000;
  }

  lemma OrIsRgb(r: nat, g: nat, b: nat)
    requires g < 256 && b < 256
    ensures Or(Or(r * 0x1_0000, g * 0x100), b) == Rgb(r, g, b)
  {
    Powers();
    OrAdds(r, g * 0x100, 16);
    OrAdds(r * 0x100 + g, b, 8);
  }

  /** The color with one of its grounds replaced: 38 is the foreground, 48 the background. */
  function SetGround(color: Color, ground: nat, rgb: nat): Color {
    if ground == 38 then color.(fg := rgb) else color.(bg := rgb)
  }

  /** A 24-bit color among the arguments sets its ground to the color it names and leaves the other ground alone; the
    * arguments behind it follow. */
  lemma TrueColor(color: Color, args: seq<nat>, count: nat, j: nat, ground: nat, r: nat, g: nat, b: nat)
    requires r < 256 && g < 256 && b < 256 && (ground == 38 || ground == 48)
    requires j < count && j + 5 <= |args| && args[j..j + 5] == [ground, 2, r, g, b]
    ensures Rendition(color, args, count, j) == Rendition(SetGround(color, ground, Rgb(r, g, b)), args, count, j + 5)
  {
    OrIsRgb(r, g, b);
    var t := args[j..j + 5];
    assert args[j] == t[0] && args[j + 1] == t[1] && args[j + 2] == t[2];
    assert args[j + 3] == t[3] && args[j + 4] == t[4];
    hide Or, Rgb, Ansi4;
  }

  /** The palette's cube has six levels of each primary color. */
  lemma PaletteCube(r: nat, g: nat, b: nat)
    requires r < 6 && g < 6 && b < 6
    ensures Ansi8(16 + 36 * r + 6 * g + b) == Rgb(51 * r, 51 * g, 51 * b)
  {
    var n := 36 * r + 6 * g + b;
    DivModUnique(n, 36, r, 6 * g + b);
    DivModUnique(n, 6, 6 * r + g, b);
    DivModUnique(6 * r + g, 6, r, g);
    DivModUnique(r * 255, 5, 51 * r, 0);
    DivModUnique(g * 255, 5, 51 * g, 0);
    DivModUnique(b * 255, 5, 51 * b, 0);
  }

  // ---- the sixteen colors ----

  /** The strength of a primary color. */
  function Level(on: bool, bright: bool): nat {
    if on then if bright then 0xff else 0xaa else if bright then 0x55 else 0
  }

  predicate Odd(n: nat) { n % 2 == 1 }

  /** The colors of a text-mode display: bits 0, 1, 2 and 3 stand for red, green, blue and bright, and dark yellow is
    * brown. */
  function TextColor(n: nat): nat {
    var bright := Odd(n / 8);
    var green := if n == 3 then 0x55 else Level(Odd(n / 2), bright);
    Rgb(Level(Odd(n), bright), green, Level(Odd(n / 4), bright))
  }

  lemma OddParts(n: nat)
    requires n < 16
    ensures Odd(n) <==> n in [1, 3, 5, 7, 9, 11, 13, 15]
    ensures Odd(n / 2) <==> n in [2, 3, 6, 7, 10, 11, 14, 15]
    ensures Odd(n / 4) <==> 4 <= n < 8 || 12 <= n
    ensures Odd(n / 8) <==> 8 <= n
  {
  }

  lemma TableIsTextColor(n: nat)
    requires n < 16
    ensures Ansi4(n) == TextColor(n)
  {
    hide Odd;
    OddParts(n);
  }

  lemma DefaultIsTextColor()
    ensures DEFAULT_COLOR == Color(TextColor(7), TextColor(0))
  {
    hide TextColor;
    TableIsTextColor(7);
    TableIsTextColor(0);
  }

  /** What one argument other than 38 and 48 makes of the color. */
  function Named(color: Color, a: nat): Color {
    if a == 0 then Color(TextColor(7), TextColor(0))
    else if 30 <= a <= 37 then color.(fg := TextColor(a - 30))
    else if a == 39 then color.(fg := TextColor(7))
    else if 40 <= a <= 47 then color.(bg := TextColor(a - 40))
    else if a == 49 then color.(bg := TextColor(0))
    else if 90 <= a <= 97 then color.(fg := TextColor(a - 90 + 8))
    else if 100 <= a <= 107 then color.(bg := TextColor(a - 100 + 8))
    else color
  }

  /** The arguments one after another. */
  function NamedAll(color: Color, args: seq<nat>): Color
    decreases |args|
  {
    if args == [] then color else NamedAll(Named(color, args[0]), args[1..])
  }

  /** Arguments that name the sixteen colors, reset, or mean nothing act one after another, whatever comes behind. */
  lemma {:induction false} ArgumentsInTurn(color: Color, args: seq<nat>, count: nat, j: nat, named: seq<nat>)
    requires j + |named| <= count <= |args| && args[j..j + |named|] == named
    requires forall i :: 0 <= i < |named| ==> named[i] != 38 && named[i] != 48
    ensures Rendition(color, args, count, j) == Rendition(NamedAll(color, named), args, count, j + |named|)
    decreases |named|
  {
    hide Named;
    if named != [] {
      assert args[j] == named[0] && args[j + 1..j + |named|] == named[1..];
      OneArgument(color, args, count, j);
      ArgumentsInTurn(Named(color, args[j]), args, count, j + 1, named[1..]);
    }
  }

  lemma OneArgument(color: Color, args: seq<nat>, count: nat, j: nat)
    requires j < count <= |args| && args[j] != 38 && args[j] != 48
    ensures Rendition(color, args, count, j) == Rendition(Named(color, args[j]), args, count, j + 1)
  {
    hide Ansi4, TextColor, Extended;
    DefaultIsTextColor();
    forall n: nat | n < 16 ensures Ansi4(n) == TextColor(n) {
      TableIsTextColor(n);
    }
  }

  /** A sequence of such arguments alone, as parsed. */
  lemma RenditionNames(color: Color, args: seq<nat>, count: nat)
    requires count <= |args| && forall i :: 0 <= i < count ==> args[i] != 38 && args[i] != 48
    ensures Rendition(color, args, count, 0) == NamedAll(color, args[..count])
  {
    ArgumentsInTurn(color, args, count, 0, args[..count]);
  }

  /** An 8-bit color among the arguments sets its ground to the palette's color: one of the sixteen, of the cube, or of
    * a gray ramp. The arguments behind it follow. A number past the palette sets nothing. */
  lemma EightBitColor(color: Color, args: seq<nat>, count: nat, j: nat, ground: nat, n: nat)
    requires (ground == 38 || ground == 48) && j < count && j + 3 <= |args| && args[j..j + 3] == [ground, 5, n]
    ensures Rendition(color, args, count, j) ==
      if n < 256 then Rendition(SetGround(color, ground, Ansi8(n)), args, count, j + 3)
      else Rendition(color, args, count, j + 2)
  {
    var t := args[j..j + 3];
    assert args[j] == t[0] && args[j + 1] == t[1] && args[j + 2] == t[2];
    hide Ansi4, Ansi8;
  }

  /** The ends of the palette: the sixteen colors, and grays in 24 steps. */
  lemma PaletteEnds(n: nat)
    requires n < 16 || 232 <= n < 256
    ensures n < 16 ==> Ansi8(n) == TextColor(n)
    ensures n >= 232 ==> exists gray: nat ::
      Ansi8(n) == Rgb(gray, gray, gray) && 25 * gray <= 255 * (n - 231) < 25 * (gray + 1)
  {
    if n < 16 {
      TableIsTextColor(n);
    } else {
      var gray := (n - 231) * 255 / 25;
      assert Ansi8(n) == Rgb(gray, gray, gray);
    }
  }
}
