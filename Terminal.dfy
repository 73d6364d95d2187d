/**
  A small model of a terminal, used as the reference for what the
  renderer's escape sequences do.  It understands exactly two control
  sequences of ECMA-48 (section 8.3.117, SELECT GRAPHIC RENDITION):
  parameter 0, which restores the default rendition, and the 24-bit
  foreground selection "38;2;r;g;b" in the semicolon-separated form that
  xterm-compatible terminals accept (ECMA-48 reserves parameter 38 for
  foreground colour; ITU-T T.416's own direct-colour form is the
  colon-separated "38:2:<colour space>:r:g:b").  The literals here are the standard's, written out
  independently of the strings the renderer builds.

  `Interpret` turns a text into the list of characters the terminal
  displays, each with the pen (default or a colour) active when it is drawn.
 */
module Terminal {
  import opened Wrappers
  import opened Decimal

  /** The control character ESCAPE (code 27) that introduces a control sequence. */
  const Escape: char := '\U{1B}'

  /** CSI 0 m: select the default rendition. */
  const SgrReset: string := [Escape, '[', '0', 'm']

  /** CSI 38;2; : the fixed part of a direct-colour foreground selection, before the red component. */
  const SgrForegroundPrefix: string := [Escape, '[', '3', '8', ';', '2', ';']

  /** The pen a terminal draws with: its default colour, or a 24-bit colour. */
  datatype Pen = Default | Truecolor(r: int, g: int, b: int)

  /** `s` begins with `p`. */
  predicate StartsWith(p: string, s: string) {
    |p| <= |s| && s[..|p|] == p
  }

  /**
    Reads one colour component at the front of `s`: a decimal integer
    followed by the character `stop` (';' between components, 'm' at the end).
   */
  function ReadComponent(s: string, stop: char): (res: Option<(int, string)>)
    ensures res.Some? ==> |res.value.1| < |s|
  {
    match ReadInt(s)
    case None => None
    case Some((v, t)) => if |t| > 0 && t[0] == stop then Some((v, t[1..])) else None
  }

  /** Decodes a direct-colour foreground selection at the front of `s` into its pen and the text after it. */
  function ParseSetColor(s: string): (res: Option<(Pen, string)>)
    ensures res.Some? ==> |res.value.1| < |s|
  {
    if !StartsWith(SgrForegroundPrefix, s) then None
    else
      match ReadComponent(s[|SgrForegroundPrefix|..], ';')
      case None => None
      case Some((r, t1)) =>
        match ReadComponent(t1, ';')
        case None => None
        case Some((g, t2)) =>
          match ReadComponent(t2, 'm')
          case None => None
          case Some((b, t3)) => Some((Truecolor(r, g, b), t3))
  }

  /**
    What a terminal that starts with pen `pen` displays for `s`: a reset
    sets the default pen, a colour selection sets that colour, and every
    other character is drawn with the current pen.
   */
  function Interpret(s: string, pen: Pen): seq<(char, Pen)>
    decreases |s|
  {
    if s == [] then []
    else if StartsWith(SgrReset, s) then Interpret(s[|SgrReset|..], Default)
    else
      match ParseSetColor(s)
      case Some((p, rest)) => Interpret(rest, p)
      case None => [(s[0], pen)] + Interpret(s[1..], pen)
  }

  /** The characters a display shows, with their pens dropped. */
  function Shown(d: seq<(char, Pen)>): (s: string)
    ensures |s| == |d|
    ensures forall i :: 0 <= i < |d| ==> s[i] == d[i].0
  {
    if d == [] then "" else [d[0].0] + Shown(d[1..])
  }

  /** Text that does not start with ESCAPE starts with neither control sequence. */
  lemma NoEscapeAtFront(s: string)
    requires |s| > 0 && s[0] != Escape
    ensures !StartsWith(SgrForegroundPrefix, s) && !StartsWith(SgrReset, s)
    ensures ParseSetColor(s) == None
  {
  }

  /** A character other than ESCAPE is drawn with the current pen. */
  lemma InterpretPlain(ch: char, rest: string, pen: Pen)
    requires ch != Escape
    ensures Interpret([ch] + rest, pen) == [(ch, pen)] + Interpret(rest, pen)
  {
    var s := [ch] + rest;
    NoEscapeAtFront(s);
    assert s[1..] == rest;
  }
}
