/** The colour and style codes of the console's header and `colorize`,
    which wraps a string in an ANSI SGR escape sequence:
    ESC "[" style ";3" colour "m" text ESC "[0m". */
module Ansi {
  import opened Wrappers

  /** The eight terminal colours, numbered 0 to 7. */
  datatype Color = Black | Red | Green | Yellow | Blue | Magenta | Cyan | White {

    function Code(): (n: nat)
      ensures n < 8
    {
      match this
      case Black => 0
      case Red => 1
      case Green => 2
      case Yellow => 3
      case Blue => 4
      case Magenta => 5
      case Cyan => 6
      case White => 7
    }
  }

  /** The two text styles, numbered 0 and 1. */
  datatype Style = Normal | Bold {

    function Code(): (n: nat)
      ensures n < 2
    {
      match this
      case Normal => 0
      case Bold => 1
    }
  }

  /** The colour whose code is `n`, if there is one. */
  function ColorOfCode(n: int): (r: Option<Color>)
    ensures r.Some? <==> 0 <= n < 8
    ensures r.Some? ==> r.value.Code() == n
  {
    if n == 0 then Some(Black)
    else if n == 1 then Some(Red)
    else if n == 2 then Some(Green)
    else if n == 3 then Some(Yellow)
    else if n == 4 then Some(Blue)
    else if n == 5 then Some(Magenta)
    else if n == 6 then Some(Cyan)
    else if n == 7 then Some(White)
    else None
  }

  /** The style whose code is `n`, if there is one. */
  function StyleOfCode(n: int): (r: Option<Style>)
    ensures r.Some? <==> 0 <= n < 2
    ensures r.Some? ==> r.value.Code() == n
  {
    if n == 0 then Some(Normal) else if n == 1 then Some(Bold) else None
  }

  /** Distinct colours have distinct codes, and likewise styles. */
  lemma CodesAreInjective(c: Color, d: Color, s: Style, t: Style)
    ensures c.Code() == d.Code() ==> c == d
    ensures s.Code() == t.Code() ==> s == t
  {
  }

  const Esc: char := '\U{1B}'

  /** The decimal digit for `n`; every colour and style code is one. */
  function Digit(n: nat): (d: char)
    requires n < 10
    ensures '0' <= d <= '9' && d as int - '0' as int == n
  {
    ('0' as int + n) as char
  }

  /** `QConsole::colorize`: `s` between the escape that selects `style` and
      `color` and the escape that resets all attributes. The style is Bold
      unless one is given. */
  function Colorize(s: string, color: Color, style: Style := Bold): (r: string)
    ensures |r| == |s| + 11
    ensures r[7..|r| - 4] == s
  {
    [Esc, '[', Digit(style.Code()), ';', '3', Digit(color.Code()), 'm'] + s + [Esc, '[', '0', 'm']
  }

  /** A string split back into what `Colorize` was given. */
  datatype Styled = Styled(text: string, color: Color, style: Style)

  /** Reads a string of the form `Colorize` produces; None for any other. */
  function Uncolorize(t: string): (r: Option<Styled>)
  {
    if |t| < 11 || t[..2] != [Esc, '['] || t[3..5] != [';', '3'] || t[6] != 'm'
       || t[|t| - 4..] != [Esc, '[', '0', 'm'] then None
    else
      match (StyleOfCode(t[2] as int - '0' as int), ColorOfCode(t[5] as int - '0' as int))
      case (Some(style), Some(color)) => Some(Styled(t[7..|t| - 4], color, style))
      case _ => None
  }

  /** `Colorize` loses nothing: its output reads back as its input. */
  lemma UncolorizeColorize(s: string, color: Color, style: Style)
    ensures Uncolorize(Colorize(s, color, style)) == Some(Styled(s, color, style))
  {
    var t := Colorize(s, color, style);
    assert t[..2] == [Esc, '['];
    assert t[3..5] == [';', '3'];
    assert t[|t| - 4..] == [Esc, '[', '0', 'm'];
  }

  /** Every string that reads back is the colorized form of what it reads
      as, so `Colorize` is a bijection onto the strings `Uncolorize`
      accepts. */
  lemma ColorizeUncolorize(t: string)
    requires Uncolorize(t).Some?
    ensures var x := Uncolorize(t).value; Colorize(x.text, x.color, x.style) == t
  {
    var x := Uncolorize(t).value;
    var u := Colorize(x.text, x.color, x.style);
    assert |u| == |t|;
    forall i | 0 <= i < |t| ensures u[i] == t[i] {
      if i < 2 {
        assert t[i] == t[..2][i];
      } else if 3 <= i < 5 {
        assert t[i] == t[3..5][i - 3];
      } else if i >= |t| - 4 {
        assert t[i] == t[|t| - 4..][i - (|t| - 4)];
      } else if 7 <= i < |t| - 4 {
        assert u[i] == u[7..|u| - 4][i - 7];
      }
    }
  }

  /** The escape sequences `colorizeTest` in tests/test-qconsole.cc expects,
      and the default style, which is bold. */
  lemma ColorizeExamples()
    ensures Colorize("Test", Cyan, Normal) == "\U{1B}[0;36mTest\U{1B}[0m"
    ensures Colorize("Test", Blue, Normal) == "\U{1B}[0;34mTest\U{1B}[0m"
    ensures Colorize("Test", Cyan, Bold) == "\U{1B}[1;36mTest\U{1B}[0m"
    ensures Colorize("Test", Cyan) == Colorize("Test", Cyan, Bold)
  {
    assert Colorize("Test", Cyan, Normal) == "\U{1B}[0;36mTest\U{1B}[0m" by {
      assert Digit(0) == '0' && Digit(6) == '6';
    }
    assert Colorize("Test", Blue, Normal) == "\U{1B}[0;34mTest\U{1B}[0m" by {
      assert Digit(0) == '0' && Digit(4) == '4';
    }
    assert Colorize("Test", Cyan, Bold) == "\U{1B}[1;36mTest\U{1B}[0m" by {
      assert Digit(1) == '1' && Digit(6) == '6';
    }
  }
}
