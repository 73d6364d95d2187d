# Webcam ASCII-art renderer: a verified model of the frame-to-text pipeline

`2nd_attempt.py` turns each webcam frame into text for a terminal. Every
pixel of a shrunken frame becomes one glyph of a 12-glyph palette, ordered
from the densest (`'@'`) to the lightest (`' '`). The monochrome renderer
`frame_to_ascii` prints the glyphs row by row, one newline per row. The
coloured renderer `frame_to_colored_ascii` wraps every glyph between a
24-bit colour escape (`ESC[38;2;r;g;bm`) for its pixel and a reset
(`ESC[0m`). Both pick the number of text rows from the frame's aspect
ratio, halved because terminal cells are about twice as tall as they are
wide.

This project models that pipeline in Dafny. It starts from the frame after
resizing and colour conversion, which it takes as given grids.

- `Quantizer` models `ASCII_CHARS` and `pixel_to_ascii`: clamp to 0..255,
  take bucket `v * 12 div 256`, cap it at 11, look up the glyph.
- `Geometry` models the row count `int(height / original_width * width * 0.5)`.
  Over exact rationals this is `height * width div (2 * original_width)`.
- `Decimal` renders an `int` as Python's `str` does. It also has a reader that
  undoes the rendering.
- `Terminal` is a small model of a terminal, written from the control
  sequences of ECMA-48 (section 8.3.117, SELECT GRAPHIC RENDITION):
  `CSI 0 m` restores the default rendition, and `CSI 38;2;r;g;b m` selects
  a 24-bit foreground colour. The latter is the semicolon-separated form that
  xterm-compatible terminals accept; ITU-T T.416's own direct-colour form is
  the colon-separated `38:2:<colour space>:r:g:b`.
  `Interpret` turns a text into the characters displayed, each paired with
  the pen (default or a colour) it is drawn with. Its literals are its own,
  not the renderer's strings, so it is the reference the coloured output
  is checked against.
- `Ansi` models `rgb_to_ansi` and `reset_color`, and connects them to the
  terminal model: the reset is the terminal's reset, the colour escape's
  prefix is the terminal's foreground selection, and the escape decodes
  back to its own colour.
- `Renderer` models the accumulation loops of both renderers as methods with
  loop invariants. Each method is proved equal to a recursive specification
  function (`AsciiText`, `ColoredText`), and lemmas state the layout and
  display properties of those functions.

Notes on what the code does, which the model follows:

- The row count is truncated by `int(...)` (2nd_attempt.py:43), not rounded
  (`Geometry.HeightTruncates`). The arithmetic itself puts no lower bound of
  one row on it (`Geometry.HeightMayBeZero`); what happens to a zero-row
  target in the resize is described under "Left out". Nothing validates the
  frame, and a zero-width frame raises Python's division error at
  2nd_attempt.py:42; the model makes a frame width above zero a precondition.
- The comment at 2nd_attempt.py:31 presents the index cap as what keeps the
  index in bounds. But `255 * 12 div 256` is 11, so the cap never takes
  effect (`Quantizer.CapNeverApplies`). The model keeps the cap, because the
  code has it.

## Model

| member | source | states |
|---|---|---|
| Quantizer.GlyphIndex | 2nd_attempt.py:26-32 | for every integer sample, the palette index is below 12, so the lookup never goes out of bounds |
| Quantizer.PaletteGlyphs | 2nd_attempt.py:8 | `ASCII_CHARS` has 12 pairwise different glyphs, the first `'@'` and the last `' '` |
| Quantizer.Clamp | 2nd_attempt.py:25-26 | the result is in 0..255; it equals the sample exactly when the sample is in 0..255; below the range it is 0 and above it 255 |
| Quantizer.PixelToAscii | 2nd_attempt.py:22-34 | the glyph of any sample is a printable ASCII character |
| Quantizer.GlyphInPalette | 2nd_attempt.py:8-34 | every glyph returned is one of `ASCII_CHARS` |
| Quantizer.OutOfRangeIsClamped | 2nd_attempt.py:26 | a sample below 0 gets the index and glyph of 0 (`'@'`); a sample above 255 gets those of 255 (`' '`) |
| Quantizer.InRangeIndex | 2nd_attempt.py:29-34 | for a sample in 0..255 the index is `min(v * 12 div 256, 11)`; 0 gives `'@'` and 255 gives `' '` |
| Quantizer.CapNeverApplies | 2nd_attempt.py:29-32 | the index equals the uncapped bucket `clamp(v) * len(ASCII_CHARS) div 256` for every sample |
| Quantizer.BucketBounds | 2nd_attempt.py:29 | a sample has index `k` exactly when its clamped value `c` satisfies `256k <= 12c < 256(k+1)` |
| Quantizer.Monotone | 2nd_attempt.py:29-32 | a larger sample never gets a smaller palette index (a denser glyph) |
| Quantizer.BucketStart | 2nd_attempt.py:29-34 | the returned sample in 0..255 has index `k`, and the sample just below it has index `k - 1` |
| Quantizer.EveryGlyphIsUsed | 2nd_attempt.py:8-34 | every palette glyph is the glyph of some sample in 0..255 |
| Geometry.OutputHeight | 2nd_attempt.py:42-43 | the row count `h` satisfies `h * 2W <= H * width < (h + 1) * 2W`, so it is the floor of `H / W * width * 0.5` |
| Geometry.HeightIsFloor | 2nd_attempt.py:42-43 | `rows` is at most the row count exactly when `rows * 2W <= H * width` |
| Geometry.HeightMayBeZero | 2nd_attempt.py:42-43 | the row count is 0 exactly when `H * width < 2W`: there is no lower bound of one row |
| Geometry.HeightGrowsWithWidth | 2nd_attempt.py:65-67 | a wider output never has fewer rows |
| Geometry.HeightTruncates | 2nd_attempt.py:42-43 | 640x480 at width 122 gets 45 rows, not 46: the result is truncated; widths 120 and 100 give 45 and 37; a 640x1 frame gets 0 rows |
| Decimal.NatToDecimal | 2nd_attempt.py:16 | the numeral of a natural number is non-empty, all digits, and has no leading zero |
| Decimal.IntToDecimal | 2nd_attempt.py:16 | the numeral of an integer starts with `'-'` exactly when the integer is negative, and is all digits after that sign |
| Decimal.ValueOfDecimal | 2nd_attempt.py:16 | the value of the digits of a natural number's numeral is that number |
| Decimal.DecimalOfValue | 2nd_attempt.py:16 | every digit string without leading zeros is the numeral of its own value |
| Decimal.ReadNatRoundTrip | 2nd_attempt.py:16 | reading a natural number's numeral, followed by a non-digit, gives back the number and the rest of the text |
| Decimal.ReadIntRoundTrip | 2nd_attempt.py:16 | reading an integer's numeral, sign included and followed by a non-digit, gives back the integer and the rest of the text |
| Ansi.RgbToAnsi | 2nd_attempt.py:14-16 | the colour escape starts with `ESC[38;2;`, has parameters after that prefix, and ends with `m` |
| Ansi.PrefixIsForegroundSelection | 2nd_attempt.py:16 | the fixed part `ESC [ 38 ; 2 ;` of the colour escape is the terminal's direct-colour foreground selection |
| Ansi.ColorParameters | 2nd_attempt.py:16 | the parameter part `r;g;bm` is non-empty and ends with `m` |
| Ansi.ParseRgbToAnsi | 2nd_attempt.py:14-16 | decoding the colour escape of `(r, g, b)` gives back exactly that colour and the text after the escape |
| Ansi.InterpretSetColor | 2nd_attempt.py:16 | on the terminal model, the colour escape of `(r, g, b)` switches the pen to that colour, whatever the pen was |
| Ansi.ResetColor | 2nd_attempt.py:18-20 | the reset is exactly the terminal's SGR reset `CSI 0 m` (`ESC [ 0 m`) |
| Ansi.InterpretReset | 2nd_attempt.py:18-20 | on the terminal model, the reset switches the pen back to the default, whatever the pen was, and its four characters are not displayed |
| Ansi.InterpretFramedGlyph | 2nd_attempt.py:88 | a glyph between a colour escape and a reset is shown in exactly that colour, and the text after it is drawn in the default pen: no colour carries over |
| Renderer.RowText | 2nd_attempt.py:57-58 | a row's text has one character per sample, and character `k` is the glyph of sample `k` |
| Renderer.AsciiText | 2nd_attempt.py:55-61 | reference definition of the monochrome text (no contract of its own): each row's glyphs and a newline, rows in order; its layout is stated by `AsciiSize`, `AsciiLineAt` and `AsciiCharAt` |
| Renderer.FrameToAscii | 2nd_attempt.py:55-61 | the nested `+=` loops build exactly `AsciiText(gray)`: each row's glyphs and then a newline, rows in order |
| Renderer.AsciiSize | 2nd_attempt.py:55-61 | the monochrome text of an R x C grid has `R * (C + 1)` characters |
| Renderer.AsciiLineAt | 2nd_attempt.py:56-59 | line `r`, at offsets `r(C+1)` up to `(r+1)(C+1)` of the text, is the glyphs of row `r` followed by a newline |
| Renderer.AsciiCharAt | 2nd_attempt.py:56-59 | character `k` of the text is a newline when `k mod (C+1) = C`, and otherwise the glyph of sample `(k div (C+1), k mod (C+1))` |
| Renderer.NewlinesAtLineEnds | 2nd_attempt.py:59 | a character of the monochrome text is a newline exactly when it ends a line |
| Renderer.ColoredCell | 2nd_attempt.py:81-88 | definition of one coloured cell (no contract of its own): the colour escape of the pixel, its glyph, the reset; what it means is stated by `CellDecodes` and `Ansi.InterpretFramedGlyph` |
| Renderer.CellDecodes | 2nd_attempt.py:85-88 | the terminal reads a cell's leading escape as exactly the colour of its own pixel, and what remains is the glyph directly followed by the reset |
| Renderer.PaintedRow | 2nd_attempt.py:79-88 | the intended display of a row has glyph `k` in the colour of pixel `k`, one entry per cell |
| Renderer.ColoredText | 2nd_attempt.py:77-93 | reference definition of the coloured text (no contract of its own): each row's cells and a newline, rows in order; what it displays is stated by `ColoredTextDisplays` |
| Renderer.FrameToColoredAscii | 2nd_attempt.py:77-93 | the `y` loop over `new_height` rows builds exactly `ColoredText(gray, rgb)`: each row's cells and then a newline, rows in order |
| Renderer.ColoredRow | 2nd_attempt.py:79-89 | the `x` loop over `width` cells builds exactly the row's framed glyphs, cells in order |
| Renderer.ExtendRow | 2nd_attempt.py:88-89 | appending cell `x` to the text of the first `x` cells gives the text of the first `x + 1` cells |
| Renderer.ExtendRows | 2nd_attempt.py:78-91 | appending row `y` and its newline to the text of the first `y` rows gives the text of the first `y + 1` rows |
| Renderer.InterpretColoredRow | 2nd_attempt.py:79-89 | from the default pen, a coloured row shows each glyph in its own pixel's colour and leaves the pen at the default |
| Renderer.ColoredTextDisplays | 2nd_attempt.py:77-93 | from the default pen, the coloured text shows exactly the intended painting: every glyph in its own pixel's colour, every newline in the default pen |
| Renderer.PaintingShowsAsciiText | 2nd_attempt.py:55-61 | without its colours, the intended painting is the monochrome text of the same grey grid |
| Renderer.ColoredMatchesMonochrome | 2nd_attempt.py:63-93 | with its escapes interpreted and colours dropped, the coloured text of a frame is the monochrome text: `new_height` lines of `width` glyphs and a newline, `new_height * (width + 1)` characters |

## Left out

- `cv2.resize` and the `cv2.cvtColor` conversions to grey and to RGB (2nd_attempt.py:46-52, 70-74) are foreign library calls. Their results are inputs: a grid of grey samples and a grid of `(r, g, b)` triples. The methods require each grid to be `new_height` rows of `width` entries, the shape `cv2.resize` produces when it succeeds.
- The grey-or-colour test of `frame_to_ascii` (2nd_attempt.py:49-52) only chooses how the grey grid is obtained, so it is covered by taking the grey grid as input.
- Floating-point evaluation of `height / original_width * width * 0.5` is not modelled. The model uses the exact rational value truncated to an integer. When `height / original_width` is not a dyadic fraction, the float result can fall just below an integer and truncate to one row fewer than the exact floor; see the `Geometry.OutputHeight` line below.
- Geometry.OutputHeight: is the exact floor of `height * width / (2 * original_width)`, which can be one row more than the source's float computation. For a frame 448 high and 640 wide at `width` 180, `448 / 640` is not exact in binary. The product with 180 rounds to just below 126, and `int(...)` then gives 62 rows where the model gives 63. For 4:3 and 16:9 frames (ratios 0.75 and 0.5625) at the widths 120 and 100 that the two entry points pass, every float step is exact and the two agree.
- `Geometry.OutputHeight` requires `original_width > 0`. For a zero-width frame the source raises Python's division error; the model does not represent that error.
- `FrameToAscii` loops over the grey grid it is given, as the source's `for row in gray_frame` does. The row count `new_height` and `cv2.resize` are not part of that method. `FrameToColoredAscii` takes the frame's dimensions and `width`, and loops `new_height` times, as the source does.
- `ColoredText`, `Cells` and `Lines` pair the grey and colour grids entry by entry. The methods only use them on grids of the same shape, which the preconditions guarantee.
- In `ColoredRow`, the inner `x` loop of `frame_to_colored_ascii` is a method of its own. The accumulator is the row's text, which the outer loop then appends; the resulting string is the same.
- `clear_screen` (2nd_attempt.py:10-12) runs an OS shell command and is not modelled.
- `main`, `main_colored` and the interactive prompt under `__main__` are not modelled. They cover webcam capture, `print`, `input`, `time.sleep`, keyboard interrupts and cleanup: device and terminal I/O.
- The terminal model `Terminal.Interpret` understands only the two SGR forms `CSI 0 m` and `CSI 38;2;r;g;b m`, the ones the renderer emits. Every other character is displayed as drawn, including other escape sequences.
- Colour components are modelled as unbounded integers. The source's `int(r)` of an 8-bit sample is always in 0..255, and nothing in the model depends on that range.
- `FrameToColoredAscii` and `ColoredMatchesMonochrome` allow a row count of zero, with empty grids, and then give the empty text. In the source, `cv2.resize` is called with the target size `(width, 0)` in that case (2nd_attempt.py:46, 70); OpenCV rejects an empty target size and raises, so the source produces no text at all. The model does not represent that foreign error. The same holds for `width` 0.
- The default argument `width=80` of `frame_to_ascii` and `frame_to_colored_ascii` (2nd_attempt.py:36, 63) is not modelled: `width` is always an explicit parameter, as at the two call sites, which pass 120 and 100.
