/** `colour` (monster-main.cc:98-118): wraps a report fragment in the
    markup for one of the sixteen basic Crawl colours. On a terminal the
    markup is an ANSI escape; otherwise it is an IRC-style ^C colour code
    closed by ^O. Whether standard output is a terminal is a parameter. */
module Colours {
  import opened Text

  // The basic colours, in Crawl's numbering.
  const Black: int := 0
  const Blue: int := 1
  const Green: int := 2
  const Cyan: int := 3
  const Red: int := 4
  const Magenta: int := 5
  const Brown: int := 6
  const LightGrey: int := 7
  const DarkGrey: int := 8
  const LightBlue: int := 9
  const LightGreen: int := 10
  const LightCyan: int := 11
  const LightRed: int := 12
  const LightMagenta: int := 13
  const Yellow: int := 14
  const White: int := 15

  predicate IsBasicColour(c: int) {
    0 <= c < 16
  }

  /** The IRC colour code for each basic colour; black has none. */
  const ColourCodes: seq<string> :=
    ["", "02", "03", "10", "05", "06", "07", "15",
     "14", "12", "09", "11", "04", "13", "08", "16"]

  /** Crawl numbers colours blue-green-red, ANSI red-green-blue. */
  const Bgr: seq<nat> := [0, 4, 2, 6, 1, 5, 3, 7]

  const Esc: char := '\U{1B}'
  /** `CONTROL('C')` and `CONTROL('O')`. */
  const CtrlC: char := '\U{03}'
  const CtrlO: char := '\U{0F}'

  /** "ESC[0;" then 3 (foreground) or 4 (background), the ANSI colour
      digit, ";", bold for the light half, "m". */
  function TtyOpen(c: int, bg: bool): string
    requires IsBasicColour(c)
  {
    [Esc] + "[0;" + (if bg then "4" else "3") + [DigitChar(Bgr[c % 8])] + ";"
      + (if c >= 8 then "1" else "0") + "m"
  }

  const TtyClose: string := [Esc] + "[0m"

  function IrcOpen(c: int, bg: bool): string
    requires IsBasicColour(c)
  {
    [CtrlC] + ColourCodes[c] + (if bg then ",01" else "")
  }

  function Colour(c: int, text: string, bg: bool, tty: bool): string
    requires IsBasicColour(c)
  {
    if tty then
      if c == 0 then text else TtyOpen(c, bg) + text + TtyClose
    else if ColourCodes[c] == "" then text
    else IrcOpen(c, bg) + text + [CtrlO]
  }

  // ---------------------------------------------------------------------
  // Properties

  /** `Bgr` is the three-bit reversal, so it is its own inverse. */
  lemma BgrReversesBits(c: int)
    requires 0 <= c < 8
    ensures Bgr[c] == (c % 2) * 4 + (c / 2 % 2) * 2 + c / 4
    ensures Bgr[Bgr[c]] == c
  {
  }

  /** Only black leaves the text unmarked, in either mode. */
  lemma ColourPlainIff(c: int, text: string, bg: bool, tty: bool)
    requires IsBasicColour(c)
    ensures Colour(c, text, bg, tty) == text <==> c == Black
  {
    var r := Colour(c, text, bg, tty);
    if c != 0 {
      assert ColourCodes[c] != "";
      assert |r| > |text|;
    }
  }

  /** A marked fragment is an opening that does not depend on the text,
      the text itself, and a closing that depends only on the mode. */
  lemma ColourFrames(c: int, text: string, bg: bool, tty: bool)
    requires IsBasicColour(c) && c != Black
    ensures tty ==> Colour(c, text, bg, tty) == TtyOpen(c, bg) + text + TtyClose
    ensures !tty ==> Colour(c, text, bg, tty) == IrcOpen(c, bg) + text + [CtrlO]
  {
    assert ColourCodes[c] != "";
  }

  /** The ANSI escape names the foreground or background, the colour's
      ANSI digit and, in its eighth character, boldness for the light
      colours. */
  lemma TtyLayout(c: int, bg: bool)
    requires IsBasicColour(c)
    ensures |TtyOpen(c, bg)| == 9
    ensures TtyOpen(c, bg)[4] == (if bg then '4' else '3')
    ensures TtyOpen(c, bg)[5] == DigitChar(Bgr[c % 8])
    ensures TtyOpen(c, bg)[7] == (if c >= DarkGrey then '1' else '0')
  {
  }

  /** Each colour has its own IRC code. */
  lemma IrcOpenInjective(c1: int, c2: int, bg: bool)
    requires IsBasicColour(c1) && c1 != Black && IsBasicColour(c2) && c2 != Black
    requires IrcOpen(c1, bg) == IrcOpen(c2, bg)
    ensures c1 == c2
  {
    assert IrcOpen(c1, bg)[1..3] == ColourCodes[c1];
    assert IrcOpen(c2, bg)[1..3] == ColourCodes[c2];
  }

  /** Each colour has its own ANSI escape. */
  lemma TtyOpenInjective(c1: int, c2: int, bg: bool)
    requires IsBasicColour(c1) && IsBasicColour(c2)
    requires TtyOpen(c1, bg) == TtyOpen(c2, bg)
    ensures c1 == c2
  {
    TtyLayout(c1, bg);
    TtyLayout(c2, bg);
    BgrReversesBits(c1 % 8);
    BgrReversesBits(c2 % 8);
    assert DigitChar(Bgr[c1 % 8]) == DigitChar(Bgr[c2 % 8]);
  }

  /** An opening, a text and a closing: openings of one length and a
      shared closing can be told apart, and so can the texts. */
  lemma FramedParts(o1: string, t1: string, o2: string, t2: string, close: string)
    requires |o1| == |o2| && o1 + t1 + close == o2 + t2 + close
    ensures o1 == o2 && t1 == t2
  {
    var r := o1 + t1 + close;
    assert o1 == r[..|o1|] && o2 == r[..|o2|];
    assert t1 == r[|o1|..|r| - |close|];
  }

  /** The marked fragment determines both the colour and the text. */
  lemma ColourInjective(c1: int, t1: string, c2: int, t2: string, bg: bool, tty: bool)
    requires IsBasicColour(c1) && c1 != Black && IsBasicColour(c2) && c2 != Black
    requires Colour(c1, t1, bg, tty) == Colour(c2, t2, bg, tty)
    ensures c1 == c2 && t1 == t2
  {
    ColourFrames(c1, t1, bg, tty);
    ColourFrames(c2, t2, bg, tty);
    if tty {
      TtyLayout(c1, bg);
      TtyLayout(c2, bg);
      FramedParts(TtyOpen(c1, bg), t1, TtyOpen(c2, bg), t2, TtyClose);
      TtyOpenInjective(c1, c2, bg);
    } else {
      assert |IrcOpen(c1, bg)| == |IrcOpen(c2, bg)|;
      FramedParts(IrcOpen(c1, bg), t1, IrcOpen(c2, bg), t2, [CtrlO]);
      IrcOpenInjective(c1, c2, bg);
    }
  }
}
