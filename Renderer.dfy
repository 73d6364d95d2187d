/**
  The two text-assembly passes of the renderer.  Both take the frame after
  the resize and colour conversions (`cv2.resize`, `cv2.cvtColor`), which
  are given as grids: rows of grey samples, and rows of (r, g, b) triples.

  `FrameToAscii` walks the grey grid row by row, appending one glyph per
  sample and a newline per row.  `FrameToColoredAscii` walks the grids by
  index for `OutputHeight` rows of `width` cells, appending each glyph
  between the colour escape of its pixel and a reset.
 */
module Renderer {
  import opened Wrappers
  import opened Quantizer
  import opened Terminal
  import opened Ansi
  import opened Geometry

  type Rgb = (int, int, int)

  /** `g` has `rows` rows of `cols` entries each. */
  predicate IsGrid<T>(g: seq<seq<T>>, rows: nat, cols: nat) {
    |g| == rows && forall i :: 0 <= i < |g| ==> |g[i]| == cols
  }

  /** The grey grid and the colour grid have the same rows and row lengths. */
  predicate SameShape(gray: seq<seq<int>>, rgb: seq<seq<Rgb>>) {
    |gray| == |rgb| && forall i :: 0 <= i < |gray| ==> |gray[i]| == |rgb[i]|
  }

  // ---------------------------------------------------------------------------
  // Monochrome text

  /** The glyphs of one row of grey samples, one per sample, in order. */
  function RowText(row: seq<int>): (s: string)
    ensures |s| == |row|
    ensures forall k :: 0 <= k < |row| ==> s[k] == PixelToAscii(row[k])
  {
    if row == [] then "" else [PixelToAscii(row[0])] + RowText(row[1..])
  }

  /** The monochrome text of a grey grid: each row's glyphs followed by a newline. */
  function AsciiText(gray: seq<seq<int>>): string {
    if gray == [] then "" else RowText(gray[0]) + "\n" + AsciiText(gray[1..])
  }

  lemma RowTextSnoc(row: seq<int>, v: int)
    ensures RowText(row + [v]) == RowText(row) + [PixelToAscii(v)]
  {
    var a, b := RowText(row + [v]), RowText(row) + [PixelToAscii(v)];
    assert forall k :: 0 <= k < |a| ==> a[k] == b[k] by {
      forall k | 0 <= k < |a| ensures a[k] == b[k] {
        assert (row + [v])[k] == if k < |row| then row[k] else v;
      }
    }
  }

  lemma {:induction false} AsciiTextSnoc(gray: seq<seq<int>>, row: seq<int>)
    ensures AsciiText(gray + [row]) == AsciiText(gray) + RowText(row) + "\n"
    decreases |gray|
  {
    SnocParts(gray, row);
    if gray != [] {
      AsciiTextSnoc(gray[1..], row);
    }
  }

  /** `frame_to_ascii`'s loops: for each row, one glyph per sample, then a newline. */
  method FrameToAscii(gray: seq<seq<int>>) returns (text: string)
    ensures text == AsciiText(gray)
  {
    text := "";
    var i := 0;
    while i < |gray|
      invariant 0 <= i <= |gray|
      invariant text == AsciiText(gray[..i])
    {
      ghost var done := text;
      var row := gray[i];
      var j := 0;
      while j < |row|
        invariant 0 <= j <= |row|
        invariant text == done + RowText(row[..j])
      {
        ExtendGlyphs(done, row, j);
        text := text + [PixelToAscii(row[j])];
        j := j + 1;
      }
      ExtendLines(gray, i);
      text := text + "\n";
      i := i + 1;
    }
    assert gray[..i] == gray;
  }

  /** One more glyph extends the text of the first `j` samples of a row to the first `j + 1`. */
  lemma ExtendGlyphs(done: string, row: seq<int>, j: nat)
    requires j < |row|
    ensures done + RowText(row[..j]) + [PixelToAscii(row[j])] == done + RowText(row[..j + 1])
  {
    Assoc(done, RowText(row[..j]), [PixelToAscii(row[j])]);
    RowTextSnoc(row[..j], row[j]);
    TakeOneMore(row, j);
  }

  /** A finished row and its newline extend the text of the first `i` rows to the first `i + 1`. */
  lemma ExtendLines(gray: seq<seq<int>>, i: nat)
    requires i < |gray|
    ensures AsciiText(gray[..i]) + RowText(gray[i][..|gray[i]|]) + "\n" == AsciiText(gray[..i + 1])
  {
    assert gray[i][..|gray[i]|] == gray[i];
    AsciiTextSnoc(gray[..i], gray[i]);
    TakeOneMore(gray, i);
  }

  lemma TakeOneMore<T>(s: seq<T>, i: nat)
    requires i < |s|
    ensures s[..i + 1] == s[..i] + [s[i]]
  {
  }

  /** The first element and the rest of `s + [x]`. */
  lemma SnocParts<T>(s: seq<T>, x: T)
    ensures (s + [x])[0] == if s == [] then x else s[0]
    ensures (s + [x])[1..] == if s == [] then [] else s[1..] + [x]
  {
    if s == [] {
      assert s + [x] == [x];
    } else {
      assert (s + [x])[1..] == s[1..] + [x];
    }
  }

  lemma SliceAfter(a: string, b: string, lo: nat, hi: nat)
    requires |a| <= lo <= hi <= |a| + |b|
    ensures (a + b)[lo..hi] == b[lo - |a|..hi - |a|]
  {
  }

  /** Where line `r` starts in a text whose lines are `w` characters long. */
  function LineStart(r: nat, w: nat): nat {
    if r == 0 then 0 else LineStart(r - 1, w) + w
  }

  lemma {:induction false} LineStartIsProduct(r: nat, w: nat)
    ensures LineStart(r, w) == r * w
  {
    if r > 0 {
      LineStartIsProduct(r - 1, w);
    }
  }

  lemma {:induction false} LineStartGrows(a: nat, b: nat, w: nat)
    requires a <= b
    ensures LineStart(a, w) <= LineStart(b, w)
    decreases b
  {
    if a < b {
      LineStartGrows(a, b - 1, w);
    }
  }

  lemma TailIsGrid<T>(g: seq<seq<T>>, rows: nat, cols: nat)
    requires IsGrid(g, rows, cols) && rows > 0
    ensures IsGrid(g[1..], rows - 1, cols)
  {
    forall i | 0 <= i < rows - 1 ensures |g[1..][i]| == cols {
      assert g[1..][i] == g[i + 1];
    }
  }

  /** The text of a grid has `cols + 1` characters per row. */
  lemma {:induction false} AsciiLength(gray: seq<seq<int>>, rows: nat, cols: nat)
    requires IsGrid(gray, rows, cols)
    ensures |AsciiText(gray)| == LineStart(rows, cols + 1)
    decreases rows
  {
    if rows > 0 {
      TailIsGrid(gray, rows, cols);
      AsciiLength(gray[1..], rows - 1, cols);
      ShiftedStart(rows, cols + 1);
    }
  }

  /** Line `r` of the text of a grid is the glyphs of row `r` and a newline. */
  lemma {:induction false} AsciiLine(gray: seq<seq<int>>, rows: nat, cols: nat, r: nat)
    requires IsGrid(gray, rows, cols) && r < rows
    ensures LineStart(r + 1, cols + 1) <= |AsciiText(gray)|
    ensures AsciiText(gray)[LineStart(r, cols + 1)..LineStart(r + 1, cols + 1)] == RowText(gray[r]) + "\n"
    decreases r
  {
    var w := cols + 1;
    var tail := gray[1..];
    TailIsGrid(gray, rows, cols);
    var head := RowText(gray[0]) + "\n";
    var rest := AsciiText(tail);
    var t := AsciiText(gray);
    assert t == head + rest;
    if r == 0 {
      assert t[..w] == head;
    } else {
      AsciiLine(tail, rows - 1, cols, r - 1);
      ShiftedStart(r, w);
      ShiftedStart(r + 1, w);
      SliceAfter(head, rest, LineStart(r, w), LineStart(r + 1, w));
      assert tail[r - 1] == gray[r];
    }
  }

  /** Line `r` starts one line further on than line `r - 1` of the text after the first line. */
  lemma {:induction false} ShiftedStart(r: nat, w: nat)
    requires r > 0
    ensures LineStart(r, w) == w + LineStart(r - 1, w)
  {
    if r > 1 {
      ShiftedStart(r - 1, w);
    }
  }

  /** The monochrome text of a `rows` x `cols` grid has `rows * (cols + 1)` characters. */
  lemma AsciiSize(gray: seq<seq<int>>, rows: nat, cols: nat)
    requires IsGrid(gray, rows, cols)
    ensures |AsciiText(gray)| == rows * (cols + 1)
  {
    AsciiLength(gray, rows, cols);
    LineStartIsProduct(rows, cols + 1);
  }

  /**
    The monochrome text of a `rows` x `cols` grid is `rows` lines: line `r`,
    from offset `r * (cols + 1)` up to `(r + 1) * (cols + 1)`, is the glyphs
    of row `r` followed by a newline.
   */
  lemma AsciiLineAt(gray: seq<seq<int>>, rows: nat, cols: nat, r: nat)
    requires IsGrid(gray, rows, cols) && r < rows
    ensures r * (cols + 1) <= (r + 1) * (cols + 1) <= |AsciiText(gray)|
    ensures AsciiText(gray)[r * (cols + 1)..(r + 1) * (cols + 1)] == RowText(gray[r]) + "\n"
  {
    AsciiLine(gray, rows, cols, r);
    LineStartGrows(r, r + 1, cols + 1);
    LineStartIsProduct(r, cols + 1);
    LineStartIsProduct(r + 1, cols + 1);
  }

  /** The newlines of the monochrome text are exactly the line ends: no glyph is a newline. */
  lemma NewlinesAtLineEnds(gray: seq<seq<int>>, rows: nat, cols: nat)
    requires IsGrid(gray, rows, cols)
    ensures forall k :: 0 <= k < |AsciiText(gray)| ==>
      (AsciiText(gray)[k] == '\n' <==> k % (cols + 1) == cols)
  {
    forall k | 0 <= k < |AsciiText(gray)| {
      AsciiCharAt(gray, rows, cols, k);
    }
  }

  /**
    Character `k` of the monochrome text is the newline that ends line
    `k div (cols + 1)` when `k mod (cols + 1)` is `cols`, and otherwise the
    glyph of the sample in that row and column.
   */
  lemma AsciiCharAt(gray: seq<seq<int>>, rows: nat, cols: nat, k: nat)
    requires IsGrid(gray, rows, cols) && k < |AsciiText(gray)|
    ensures k / (cols + 1) < rows
    ensures AsciiText(gray)[k] == if k % (cols + 1) == cols then '\n'
                                  else PixelToAscii(gray[k / (cols + 1)][k % (cols + 1)])
    ensures AsciiText(gray)[k] == '\n' <==> k % (cols + 1) == cols
  {
    AsciiLength(gray, rows, cols);
    var w := cols + 1;
    var r, c := k / w, k % w;
    LineOf(k, rows, w);
    AsciiCharOne(gray, rows, cols, r, c);
  }

  /** Column `c` of line `r`: the glyph of sample `(r, c)`, or the newline after the last one. */
  lemma AsciiCharOne(gray: seq<seq<int>>, rows: nat, cols: nat, r: nat, c: nat)
    requires IsGrid(gray, rows, cols) && r < rows && c <= cols
    ensures LineStart(r, cols + 1) + c < |AsciiText(gray)|
    ensures AsciiText(gray)[LineStart(r, cols + 1) + c] == if c == cols then '\n' else PixelToAscii(gray[r][c])
  {
    var t := AsciiText(gray);
    var w := cols + 1;
    AsciiLine(gray, rows, cols, r);
    var lo, hi := LineStart(r, w), LineStart(r + 1, w);
    LineChar(t[lo..hi], RowText(gray[r]), c);
    assert t[lo..hi][c] == t[lo + c];
  }

  /** Character `k` lies in line `k div w`, at column `k mod w`. */
  lemma LineOf(k: nat, rows: nat, w: nat)
    requires w > 0 && k < LineStart(rows, w)
    ensures k / w < rows && k % w < w
    ensures LineStart(k / w, w) + k % w == k
  {
    LineStartIsProduct(k / w, w);
    if k / w >= rows {
      LineStartGrows(rows, k / w, w);
    }
  }

  lemma LineChar(line: string, glyphs: string, c: nat)
    requires line == glyphs + "\n" && c < |line|
    ensures line[c] == if c == |glyphs| then '\n' else glyphs[c]
  {
  }

  // ---------------------------------------------------------------------------
  // Coloured text

  /** A glyph framed by the colour escape of its pixel and a reset. */
  function ColoredCell(v: int, c: Rgb): string {
    RgbToAnsi(c.0, c.1, c.2) + [PixelToAscii(v)] + ResetColor()
  }

  /**
    The terminal reads a cell's leading escape as the colour of the cell's
    own pixel, and what it leaves is the glyph directly followed by the reset.
   */
  lemma CellDecodes(v: int, c: Rgb, rest: string)
    ensures ParseSetColor(ColoredCell(v, c) + rest)
         == Some((Truecolor(c.0, c.1, c.2), [PixelToAscii(v)] + ResetColor() + rest))
  {
    var a, g, z := RgbToAnsi(c.0, c.1, c.2), [PixelToAscii(v)], ResetColor();
    Assoc(a + g, z, rest);
    Assoc(a, g, z + rest);
    Assoc(g, z, rest);
    ParseRgbToAnsi(c.0, c.1, c.2, g + z + rest);
  }

  /** The strings of `parts`, one after another. */
  function Concat(parts: seq<string>): string {
    if parts == [] then "" else parts[0] + Concat(parts[1..])
  }

  /** The framed glyph of each cell of a row, pairing the grey and colour rows sample by sample. */
  function Cells(grayRow: seq<int>, rgbRow: seq<Rgb>): seq<string> {
    if grayRow == [] || rgbRow == [] then []
    else [ColoredCell(grayRow[0], rgbRow[0])] + Cells(grayRow[1..], rgbRow[1..])
  }

  /** The framed glyphs of one row, in order. */
  function ColoredRowText(grayRow: seq<int>, rgbRow: seq<Rgb>): string {
    Concat(Cells(grayRow, rgbRow))
  }

  /** Each row's framed glyphs followed by a newline, pairing the two grids row by row. */
  function Lines(gray: seq<seq<int>>, rgb: seq<seq<Rgb>>): seq<string> {
    if gray == [] || rgb == [] then []
    else [ColoredRowText(gray[0], rgb[0]) + "\n"] + Lines(gray[1..], rgb[1..])
  }

  /** The coloured text of the grids: its lines one after another. */
  function ColoredText(gray: seq<seq<int>>, rgb: seq<seq<Rgb>>): string {
    Concat(Lines(gray, rgb))
  }

  /** The display that a coloured row should produce: each glyph in its own pixel's colour. */
  function PaintedRow(grayRow: seq<int>, rgbRow: seq<Rgb>): (d: seq<(char, Pen)>)
    requires |grayRow| == |rgbRow|
    ensures |d| == |grayRow|
    ensures forall k :: 0 <= k < |d| ==>
      d[k] == (PixelToAscii(grayRow[k]), Truecolor(rgbRow[k].0, rgbRow[k].1, rgbRow[k].2))
  {
    if grayRow == [] then []
    else [(PixelToAscii(grayRow[0]), Truecolor(rgbRow[0].0, rgbRow[0].1, rgbRow[0].2))]
         + PaintedRow(grayRow[1..], rgbRow[1..])
  }

  /** The display the coloured text should produce: the rows in order, each newline in the default pen. */
  function Painting(gray: seq<seq<int>>, rgb: seq<seq<Rgb>>): seq<(char, Pen)>
    requires SameShape(gray, rgb)
  {
    if gray == [] then [] else PaintedRow(gray[0], rgb[0]) + [('\n', Default)] + Painting(gray[1..], rgb[1..])
  }

  lemma {:induction false} ConcatSnoc(parts: seq<string>, s: string)
    ensures Concat(parts + [s]) == Concat(parts) + s
    decreases |parts|
  {
    var p := parts + [s];
    SnocParts(parts, s);
    if parts == [] {
      EmptyAppend(s);
    } else {
      ConcatSnoc(parts[1..], s);
      Assoc(parts[0], Concat(parts[1..]), s);
    }
  }

  lemma EmptyAppend<T>(s: seq<T>)
    ensures [] + s == s && s + [] == s
  {
  }

  lemma ConcatCons(s: string, parts: seq<string>)
    ensures Concat([s] + parts) == s + Concat(parts)
  {
    var p := [s] + parts;
    assert p[0] == s && p[1..] == parts;
  }

  lemma {:induction false} CellsSnoc(grayRow: seq<int>, rgbRow: seq<Rgb>, v: int, c: Rgb)
    requires |grayRow| == |rgbRow|
    ensures Cells(grayRow + [v], rgbRow + [c]) == Cells(grayRow, rgbRow) + [ColoredCell(v, c)]
    decreases |grayRow|
  {
    var g, k := grayRow + [v], rgbRow + [c];
    SnocParts(grayRow, v);
    SnocParts(rgbRow, c);
    if grayRow == [] {
      EmptyAppend([ColoredCell(v, c)]);
    } else {
      var head := ColoredCell(grayRow[0], rgbRow[0]);
      assert Cells(g, k) == [head] + Cells(grayRow[1..] + [v], rgbRow[1..] + [c]);
      CellsSnoc(grayRow[1..], rgbRow[1..], v, c);
      ConsSnoc(head, Cells(grayRow[1..], rgbRow[1..]), ColoredCell(v, c));
    }
  }

  lemma ConsSnoc<T>(h: T, s: seq<T>, x: T)
    ensures [h] + (s + [x]) == ([h] + s) + [x]
  {
  }

  lemma {:induction false} LinesSnoc(gray: seq<seq<int>>, rgb: seq<seq<Rgb>>, grayRow: seq<int>, rgbRow: seq<Rgb>)
    requires |gray| == |rgb|
    ensures Lines(gray + [grayRow], rgb + [rgbRow]) == Lines(gray, rgb) + [ColoredRowText(grayRow, rgbRow) + "\n"]
    decreases |gray|
  {
    var g, c := gray + [grayRow], rgb + [rgbRow];
    var last := [ColoredRowText(grayRow, rgbRow) + "\n"];
    SnocParts(gray, grayRow);
    SnocParts(rgb, rgbRow);
    if gray == [] {
      EmptyAppend(last);
    } else {
      LinesSnoc(gray[1..], rgb[1..], grayRow, rgbRow);
      Assoc([ColoredRowText(gray[0], rgb[0]) + "\n"], Lines(gray[1..], rgb[1..]), last);
    }
  }

  /**
    `frame_to_colored_ascii`'s outer loop: for each `y` below the output
    height, the framed glyphs of row `y`, then a newline.
   */
  method FrameToColoredAscii(frameHeight: nat, frameWidth: nat, width: nat,
                             gray: seq<seq<int>>, rgb: seq<seq<Rgb>>) returns (text: string)
    requires frameWidth > 0
    requires IsGrid(gray, OutputHeight(frameHeight, frameWidth, width), width)
    requires IsGrid(rgb, OutputHeight(frameHeight, frameWidth, width), width)
    ensures text == ColoredText(gray, rgb)
  {
    var newHeight := OutputHeight(frameHeight, frameWidth, width);
    text := "";
    var y := 0;
    assert gray[..y] == [] && rgb[..y] == [];
    while y < newHeight
      invariant 0 <= y <= newHeight
      invariant text == ColoredText(gray[..y], rgb[..y])
    {
      var line := ColoredRow(gray[y], rgb[y], width);
      ExtendRows(gray, rgb, y);
      text := text + line;
      text := text + "\n";
      y := y + 1;
    }
    assert gray[..y] == gray && rgb[..y] == rgb;
  }

  /**
    `frame_to_colored_ascii`'s inner loop: for each `x` below `width`, the
    glyph of the grey sample between the colour escape of the pixel and a reset.
   */
  method ColoredRow(grayRow: seq<int>, rgbRow: seq<Rgb>, width: nat) returns (text: string)
    requires |grayRow| == width && |rgbRow| == width
    ensures text == ColoredRowText(grayRow, rgbRow)
  {
    text := "";
    var x := 0;
    assert grayRow[..x] == [] && rgbRow[..x] == [];
    while x < width
      invariant 0 <= x <= width
      invariant text == ColoredRowText(grayRow[..x], rgbRow[..x])
    {
      var grayPixel := grayRow[x];
      var (r, g, b) := rgbRow[x];
      var asciiChar := PixelToAscii(grayPixel);
      var coloredChar := RgbToAnsi(r, g, b) + [asciiChar] + ResetColor();
      ExtendRow(grayRow, rgbRow, x);
      text := text + coloredChar;
      x := x + 1;
    }
    assert grayRow[..x] == grayRow && rgbRow[..x] == rgbRow;
  }

  /** One more framed glyph extends the row text of the first `x` cells to the first `x + 1`. */
  lemma ExtendRow(grayRow: seq<int>, rgbRow: seq<Rgb>, x: nat)
    requires |grayRow| == |rgbRow| && x < |grayRow|
    ensures ColoredRowText(grayRow[..x], rgbRow[..x]) + ColoredCell(grayRow[x], rgbRow[x])
         == ColoredRowText(grayRow[..x + 1], rgbRow[..x + 1])
  {
    TakeOneMore(grayRow, x);
    TakeOneMore(rgbRow, x);
    CellsSnoc(grayRow[..x], rgbRow[..x], grayRow[x], rgbRow[x]);
    ConcatSnoc(Cells(grayRow[..x], rgbRow[..x]), ColoredCell(grayRow[x], rgbRow[x]));
  }

  /** A finished row and its newline extend the text of the first `y` rows to the first `y + 1`. */
  lemma ExtendRows(gray: seq<seq<int>>, rgb: seq<seq<Rgb>>, y: nat)
    requires |gray| == |rgb| && y < |gray|
    ensures ColoredText(gray[..y], rgb[..y]) + ColoredRowText(gray[y], rgb[y]) + "\n"
         == ColoredText(gray[..y + 1], rgb[..y + 1])
  {
    var row := ColoredRowText(gray[y], rgb[y]);
    TakeOneMore(gray, y);
    TakeOneMore(rgb, y);
    LinesSnoc(gray[..y], rgb[..y], gray[y], rgb[y]);
    ConcatSnoc(Lines(gray[..y], rgb[..y]), row + "\n");
    Assoc(ColoredText(gray[..y], rgb[..y]), row, "\n");
  }

  /** A coloured row, on a terminal in its default pen, shows each glyph in its pixel's colour and leaves the default pen. */
  lemma {:induction false} InterpretColoredRow(grayRow: seq<int>, rgbRow: seq<Rgb>, rest: string)
    requires |grayRow| == |rgbRow|
    ensures Interpret(ColoredRowText(grayRow, rgbRow) + rest, Default)
         == PaintedRow(grayRow, rgbRow) + Interpret(rest, Default)
    decreases |grayRow|
  {
    if grayRow == [] {
      assert ColoredRowText(grayRow, rgbRow) + rest == rest;
    } else {
      var c := rgbRow[0];
      var ch := PixelToAscii(grayRow[0]);
      var cell := ColoredCell(grayRow[0], c);
      var row := ColoredRowText(grayRow[1..], rgbRow[1..]);
      var head := [(ch, Truecolor(c.0, c.1, c.2))];
      ConcatCons(cell, Cells(grayRow[1..], rgbRow[1..]));
      Assoc(cell, row, rest);
      InterpretFramedGlyph(c.0, c.1, c.2, ch, row + rest, Default);
      InterpretColoredRow(grayRow[1..], rgbRow[1..], rest);
      Assoc(head, PaintedRow(grayRow[1..], rgbRow[1..]), Interpret(rest, Default));
    }
  }

  /**
    On a terminal in its default pen, the coloured text shows exactly the
    intended painting: every glyph in the colour of its own pixel, every
    newline in the default pen.
   */
  lemma {:induction false} ColoredTextDisplays(gray: seq<seq<int>>, rgb: seq<seq<Rgb>>)
    requires SameShape(gray, rgb)
    ensures Interpret(ColoredText(gray, rgb), Default) == Painting(gray, rgb)
    decreases |gray|
  {
    if gray != [] {
      SameShapeTail(gray, rgb);
      var row := ColoredRowText(gray[0], rgb[0]);
      var tail := ColoredText(gray[1..], rgb[1..]);
      var nl := "\n" + tail;
      ConcatCons(row + "\n", Lines(gray[1..], rgb[1..]));
      Assoc(row, "\n", tail);
      InterpretColoredRow(gray[0], rgb[0], nl);
      InterpretPlain('\n', tail, Default);
      ColoredTextDisplays(gray[1..], rgb[1..]);
      PaintingUnfold(gray, rgb);
    }
  }

  lemma SameShapeTail(gray: seq<seq<int>>, rgb: seq<seq<Rgb>>)
    requires SameShape(gray, rgb) && gray != []
    ensures SameShape(gray[1..], rgb[1..]) && |gray[0]| == |rgb[0]|
  {
    assert forall i :: 0 <= i < |gray| - 1 ==> gray[1..][i] == gray[i + 1] && rgb[1..][i] == rgb[i + 1];
  }

  lemma PaintingUnfold(gray: seq<seq<int>>, rgb: seq<seq<Rgb>>)
    requires SameShape(gray, rgb) && gray != []
    ensures SameShape(gray[1..], rgb[1..])
    ensures Painting(gray, rgb)
         == PaintedRow(gray[0], rgb[0]) + ([('\n', Default)] + Painting(gray[1..], rgb[1..]))
  {
    SameShapeTail(gray, rgb);
  }

  /** Without its colours, the painting of the coloured text is the monochrome text. */
  lemma {:induction false} PaintingShowsAsciiText(gray: seq<seq<int>>, rgb: seq<seq<Rgb>>)
    requires SameShape(gray, rgb)
    ensures Shown(Painting(gray, rgb)) == AsciiText(gray)
    decreases |gray|
  {
    if gray != [] {
      PaintingShowsAsciiText(gray[1..], rgb[1..]);
      var p, q := Shown(Painting(gray, rgb)), AsciiText(gray);
      assert |p| == |q|;
      assert forall k :: 0 <= k < |p| ==> p[k] == q[k];
    }
  }

  /**
    The coloured text of a frame, as a terminal shows it, is the monochrome
    text of the same grey grid with each glyph in its pixel's colour: rows
    0 .. `OutputHeight - 1` in order, `width` glyphs and a newline each.
   */
  lemma ColoredMatchesMonochrome(frameHeight: nat, frameWidth: nat, width: nat,
                                 gray: seq<seq<int>>, rgb: seq<seq<Rgb>>)
    requires frameWidth > 0
    requires IsGrid(gray, OutputHeight(frameHeight, frameWidth, width), width)
    requires IsGrid(rgb, OutputHeight(frameHeight, frameWidth, width), width)
    ensures Shown(Interpret(ColoredText(gray, rgb), Default)) == AsciiText(gray)
    ensures |AsciiText(gray)| == OutputHeight(frameHeight, frameWidth, width) * (width + 1)
  {
    assert SameShape(gray, rgb);
    ColoredTextDisplays(gray, rgb);
    PaintingShowsAsciiText(gray, rgb);
    AsciiSize(gray, OutputHeight(frameHeight, frameWidth, width), width);
  }
}
