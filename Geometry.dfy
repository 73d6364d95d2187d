/**
  The output height of both renderers: `int(height / original_width * width * 0.5)`.
  Over exact rationals the expression is `height * width / (2 * original_width)`,
  and `int` truncates it, which for the non-negative values here is the floor.
 */
module Geometry {

  /**
    The number of text rows for a `height` x `originalWidth` frame shown
    `width` glyphs wide: `height / originalWidth * width * 0.5` rounded down.
    The result times `2 * originalWidth` does not exceed `height * width`,
    and one row more would.
   */
  function OutputHeight(height: nat, originalWidth: nat, width: nat): (rows: nat)
    requires originalWidth > 0
    ensures rows * (2 * originalWidth) <= height * width < (rows + 1) * (2 * originalWidth)
  {
    var area := height * width;
    QuotientIsNatural(area, 2 * originalWidth);
    area / (2 * originalWidth)
  }

  lemma QuotientIsNatural(a: int, d: int)
    requires a >= 0 && d > 0
    ensures a / d >= 0
  {
  }

  /** `rows` fit exactly when `rows` half-height lines do not exceed the frame's aspect ratio. */
  lemma HeightIsFloor(height: nat, originalWidth: nat, width: nat, rows: nat)
    requires originalWidth > 0
    ensures rows <= OutputHeight(height, originalWidth, width)
        <==> rows * (2 * originalWidth) <= height * width
  {
    var h := OutputHeight(height, originalWidth, width);
    var d := 2 * originalWidth;
    if rows <= h {
      MulMonotone(rows, h, d);
    } else {
      MulMonotone(h + 1, rows, d);
    }
  }

  lemma MulMonotone(a: nat, b: nat, d: nat)
    requires a <= b
    ensures a * d <= b * d
  {
    var k := b - a;
    assert b * d == a * d + k * d;
  }

  /** There is no lower bound of one row: a frame flat enough gives no rows at all. */
  lemma HeightMayBeZero(height: nat, originalWidth: nat, width: nat)
    requires originalWidth > 0
    ensures OutputHeight(height, originalWidth, width) == 0 <==> height * width < 2 * originalWidth
  {
    HeightIsFloor(height, originalWidth, width, 1);
  }

  /** A wider output never has fewer rows. */
  lemma HeightGrowsWithWidth(height: nat, originalWidth: nat, w1: nat, w2: nat)
    requires originalWidth > 0 && w1 <= w2
    ensures OutputHeight(height, originalWidth, w1) <= OutputHeight(height, originalWidth, w2)
  {
    MulMonotone(w1, w2, height);
    assert height * w1 == w1 * height && height * w2 == w2 * height;
    HeightIsFloor(height, originalWidth, w2, OutputHeight(height, originalWidth, w1));
  }

  /**
    The result is truncated, not rounded: a 640 x 480 frame shown 122 glyphs
    wide is 45.75 rows tall over the rationals and gets 45 rows; the widths
    the two entry points use, 120 and 100, give 45 and 37 rows.
   */
  lemma HeightTruncates()
    ensures OutputHeight(480, 640, 122) == 45
    ensures OutputHeight(480, 640, 120) == 45
    ensures OutputHeight(480, 640, 100) == 37
    ensures OutputHeight(1, 640, 120) == 0
  {
  }
}
