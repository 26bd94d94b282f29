/** The physical LED matrix and the firmware's serpentine addressing `XY`. */
module Matrix {
  import opened Common

  /** MATRIX_WIDTH, MATRIX_HEIGHT and NUM_LEDS. */
  const Width: nat := 30
  const Height: nat := 15
  const NumLeds: nat := 450

  /**
   * Strip index of column `x`, row `y`. Even rows run forwards, odd rows run
   * backwards; `reverseX` is a uint8_t, so it wraps for columns past the end.
   */
  function XY(x: u8, y: u8): (i: u16)
    ensures x < Width && y < Height ==> i < NumLeds
  {
    if y % 2 == 1 then
      var reverseX: u8 := (Width - 1 - x) % 0x100;
      y * Width + reverseX
    else
      y * Width + x
  }

  /** Column of the LED at strip index `i` (the inverse of `XY` in `x`). */
  function StripColumn(i: nat): (x: nat)
  {
    if (i / Width) % 2 == 1 then Width - 1 - i % Width else i % Width
  }

  /** Row of the LED at strip index `i`. */
  function StripRow(i: nat): (y: nat)
  {
    i / Width
  }

  /** On the matrix, each row is a run of 30 consecutive indices, reversed on odd rows. */
  lemma XYRows(x: u8, y: u8)
    requires x < Width
    ensures y % 2 == 0 ==> XY(x, y) == Width * y + x
    ensures y % 2 == 1 ==> XY(x, y) == Width * y + (Width - 1 - x)
  {
  }

  /** `StripColumn` and `StripRow` recover the cell from its strip index. */
  lemma XYInverse(x: u8, y: u8)
    requires x < Width && y < Height
    ensures StripRow(XY(x, y)) == y && StripColumn(XY(x, y)) == x
  {
    var i := XY(x, y);
    var k := i - Width * y;
    assert 0 <= k < Width;
    DivModUnique(i, Width, y, k);
  }

  /** No two cells share an LED. */
  lemma XYInjective(x1: u8, y1: u8, x2: u8, y2: u8)
    requires x1 < Width && y1 < Height && x2 < Width && y2 < Height
    requires XY(x1, y1) == XY(x2, y2)
    ensures x1 == x2 && y1 == y2
  {
    XYInverse(x1, y1);
    XYInverse(x2, y2);
  }

  /** Every LED of the strip is the image of some cell: with injectivity, `XY` is a bijection. */
  lemma XYOnto(i: nat)
    requires i < NumLeds
    ensures StripColumn(i) < Width && StripRow(i) < Height
    ensures XY(StripColumn(i), StripRow(i)) == i
  {
    var y := i / Width;
    var k := i % Width;
    DivModUnique(i, Width, y, k);
  }
}
