/**
  The two escape sequences of the renderer: the 24-bit foreground colour
  "ESC [ 38 ; 2 ; r ; g ; b m" built by `rgb_to_ansi`, and the reset
  "ESC [ 0 m" returned by `reset_color`.  The lemmas here connect these
  strings to the terminal model of module `Terminal`: the reset is that
  terminal's reset, the colour escape decodes back to its own colour, and a
  glyph framed by the two shows in that colour and nothing after it does.
 */
module Ansi {
  import opened Wrappers
  import opened Decimal
  import opened Terminal

  /** The fixed part of the colour escape, up to the red component. */
  const SetColorPrefix: string := "\U{1B}[38;2;"

  /** The colour escape for `(r, g, b)`, each component written in decimal. */
  function RgbToAnsi(r: int, g: int, b: int): (s: string)
    ensures StartsWith(SetColorPrefix, s) && |s| > |SetColorPrefix|
    ensures s[|s| - 1] == 'm'
  {
    var params := ColorParameters(r, g, b);
    PrefixOfJoin(SetColorPrefix, params);
    SetColorPrefix + params
  }

  /** The part of the colour escape after its fixed prefix: "r;g;bm". */
  function ColorParameters(r: int, g: int, b: int): (s: string)
    ensures |s| > 0 && s[|s| - 1] == 'm'
  {
    IntToDecimal(r) + ";" + IntToDecimal(g) + ";" + IntToDecimal(b) + "m"
  }

  lemma PrefixOfJoin(a: string, b: string)
    ensures StartsWith(a, a + b)
  {
    assert (a + b)[..|a|] == a;
  }

  /** The fixed prefix of the colour escape is the terminal's direct-colour foreground selection. */
  lemma PrefixIsForegroundSelection()
    ensures SetColorPrefix == SgrForegroundPrefix
  {
  }

  /** The escape that sets the pen back to the terminal's default: exactly the terminal's reset. */
  function ResetColor(): (s: string)
    ensures s == SgrReset
  {
    "\U{1B}[0m"
  }

  /** A component followed by its stop character reads back as that component. */
  lemma ReadComponentRoundTrip(v: int, stop: char, rest: string)
    requires !IsDigit(stop)
    ensures ReadComponent(IntToDecimal(v) + [stop] + rest, stop) == Some((v, rest))
  {
    var t := [stop] + rest;
    assert IntToDecimal(v) + [stop] + rest == IntToDecimal(v) + t;
    ReadIntRoundTrip(v, t);
    assert t[1..] == rest;
  }

  lemma Assoc<T>(a: seq<T>, b: seq<T>, c: seq<T>)
    ensures (a + b) + c == a + (b + c)
  {
  }

  /** The colour escape followed by `rest`, regrouped component by component. */
  lemma RgbToAnsiSplit(r: int, g: int, b: int, rest: string)
    ensures RgbToAnsi(r, g, b) + rest
         == SetColorPrefix + (IntToDecimal(r) + ";" + (IntToDecimal(g) + ";" + (IntToDecimal(b) + "m" + rest)))
  {
    var dr, dg, db := IntToDecimal(r), IntToDecimal(g), IntToDecimal(b);
    Assoc(SetColorPrefix, ColorParameters(r, g, b), rest);
    var t2 := db + "m" + rest;
    var t1 := dg + ";" + t2;
    Assoc(dr + ";" + dg + ";" + db, "m", rest);
    Assoc(dr + ";" + dg + ";", db, "m" + rest);
    Assoc(db, "m", rest);
    Assoc(dr + ";" + dg, ";", t2);
    Assoc(dr + ";", dg, ";" + t2);
    Assoc(dg, ";", t2);
    Assoc(dr, ";", t1);
  }

  /** The terminal decodes the colour escape of `(r, g, b)` back to that exact colour. */
  lemma ParseRgbToAnsi(r: int, g: int, b: int, rest: string)
    ensures ParseSetColor(RgbToAnsi(r, g, b) + rest) == Some((Truecolor(r, g, b), rest))
  {
    var t2 := IntToDecimal(b) + "m" + rest;
    var t1 := IntToDecimal(g) + ";" + t2;
    var t0 := IntToDecimal(r) + ";" + t1;
    var s := RgbToAnsi(r, g, b) + rest;
    RgbToAnsiSplit(r, g, b, rest);
    PrefixIsForegroundSelection();
    assert StartsWith(SetColorPrefix, s) && s[|SetColorPrefix|..] == t0;
    ReadComponentRoundTrip(r, ';', t1);
    assert ReadComponent(t0, ';') == Some((r, t1));
    ReadComponentRoundTrip(g, ';', t2);
    assert ReadComponent(t1, ';') == Some((g, t2));
    ReadComponentRoundTrip(b, 'm', rest);
    assert ReadComponent(t2, 'm') == Some((b, rest));
  }

  /**
    A glyph drawn between a colour escape and a reset shows in exactly that
    colour, whatever pen was active before, and the text after it is drawn
    with the default pen: no colour carries over to what follows.
   */
  lemma InterpretFramedGlyph(r: int, g: int, b: int, ch: char, rest: string, pen: Pen)
    requires ch != Escape
    ensures Interpret(RgbToAnsi(r, g, b) + [ch] + ResetColor() + rest, pen)
         == [(ch, Truecolor(r, g, b))] + Interpret(rest, Default)
  {
    var after := ResetColor() + rest;
    var tail := [ch] + after;
    Regroup(RgbToAnsi(r, g, b), ch, ResetColor(), rest);
    InterpretSetColor(r, g, b, tail, pen);
    InterpretPlain(ch, after, Truecolor(r, g, b));
    InterpretReset(rest, Truecolor(r, g, b));
  }

  lemma Regroup(a: string, ch: char, z: string, rest: string)
    ensures a + [ch] + z + rest == a + ([ch] + (z + rest))
  {
  }

  /** A colour escape switches the pen to its colour. */
  lemma InterpretSetColor(r: int, g: int, b: int, rest: string, pen: Pen)
    ensures Interpret(RgbToAnsi(r, g, b) + rest, pen) == Interpret(rest, Truecolor(r, g, b))
  {
    var s := RgbToAnsi(r, g, b) + rest;
    PrefixOfJoin(RgbToAnsi(r, g, b), rest);
    SetColorIsNotReset(s);
    ParseRgbToAnsi(r, g, b, rest);
  }

  lemma SetColorIsNotReset(s: string)
    requires StartsWith(SetColorPrefix, s)
    ensures s != [] && !StartsWith(SgrReset, s)
  {
    assert s[2] == SetColorPrefix[2] == '3' && SgrReset[2] == '0';
  }

  /** A reset switches the pen back to the default. */
  lemma InterpretReset(rest: string, pen: Pen)
    ensures Interpret(ResetColor() + rest, pen) == Interpret(rest, Default)
  {
    var s := ResetColor() + rest;
    PrefixOfJoin(ResetColor(), rest);
    assert s[|SgrReset|..] == rest;
  }
}
