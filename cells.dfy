/**
 * The browser's mapping from backing-canvas pixels to grid cells: the
 * row-major number of the on-screen cell and the serpentine strip index
 * sent to the firmware.
 */
module Cells {
  import opened Common
  import opened Matrix

  /** cell_size, and the canvas size grid_width * cell_size by grid_height * cell_size. */
  const CellSize: nat := 40
  const CanvasWidth: nat := 1200
  const CanvasHeight: nat := 600

  /** A pointer position in backing-canvas pixels. */
  datatype Position = Position(x: nat, y: nat)

  predicate OnCanvas(p: Position)
  {
    p.x < CanvasWidth && p.y < CanvasHeight
  }

  /** `GetCellNumber`: the row-major number of the on-screen cell under `p`. */
  function GetCellNumber(p: Position): (n: nat)
    ensures OnCanvas(p) ==> n < NumLeds
  {
    p.x / CellSize + (p.y / CellSize) * Width
  }

  /** `drawGridCells` draws cell i at column i % 30 and row floor(i / 30). */
  function CellColumn(i: nat): (x: nat)
  {
    i % Width
  }

  function CellRow(i: nat): (y: nat)
  {
    i / Width
  }

  /** Every pixel of the cell in column x, row y has number x + 30y. */
  lemma CellNumberOfCell(x: nat, y: nat, dx: nat, dy: nat)
    requires x < Width && y < Height && dx < CellSize && dy < CellSize
    ensures GetCellNumber(Position(CellSize * x + dx, CellSize * y + dy)) == x + Width * y
  {
    DivModUnique(CellSize * x + dx, CellSize, x, dx);
    DivModUnique(CellSize * y + dy, CellSize, y, dy);
  }

  /** The drawGridCells decomposition names the cell whose number is i. */
  lemma DecomposeInverse(i: nat)
    requires i < NumLeds
    ensures CellColumn(i) < Width && CellRow(i) < Height
    ensures CellColumn(i) + Width * CellRow(i) == i
    ensures GetCellNumber(Position(CellSize * CellColumn(i), CellSize * CellRow(i))) == i
  {
    CellNumberOfCell(CellColumn(i), CellRow(i), 0, 0);
  }

  /** And the cell number of column x, row y decomposes back into x and y. */
  lemma ComposeInverse(x: nat, y: nat)
    requires x < Width && y < Height
    ensures CellColumn(x + Width * y) == x && CellRow(x + Width * y) == y
  {
    DivModUnique(x + Width * y, Width, y, x);
  }

  function Abs(v: int): (a: nat)
  {
    if v < 0 then -v else v
  }

  /** The row `GetCellNumberTransformed` computes: floor(|py - height| / cell_size). */
  function TransformedRow(py: nat): (row: nat)
  {
    Abs(py - CanvasHeight) / CellSize
  }

  /** `GetCellNumberTransformed`, as written. */
  function GetCellNumberTransformed(p: Position): (i: int)
    ensures OnCanvas(p) ==> 0 <= i < NumLeds + Width
  {
    var x := p.x / CellSize;
    var y := TransformedRow(p.y);
    if y % 2 == 1 then (Width - x) + (y * Width) - 1 else x + (y * Width)
  }

  /** The browser's transform is the firmware's XY at the column and the transformed row. */
  lemma TransformedIsXY(p: Position)
    requires p.x < CanvasWidth && TransformedRow(p.y) < 0x100
    ensures GetCellNumberTransformed(p) == XY(p.x / CellSize, TransformedRow(p.y))
  {
  }

  /** Below the top pixel row, the transformed index lies in the strip. */
  lemma TransformedInRange(p: Position)
    requires p.x < CanvasWidth && 1 <= p.y <= CanvasHeight
    ensures 0 <= GetCellNumberTransformed(p) < NumLeds
  {
    assert TransformedRow(p.y) < Height;
  }

  /** On the top pixel row the transformed row is 15, past the end of the strip. */
  lemma TransformedTopEdge(p: Position)
    requires p.x < CanvasWidth && p.y == 0
    ensures TransformedRow(p.y) == Height && GetCellNumberTransformed(p) >= NumLeds
  {
  }

  /** Pixel rows 39 and 40 lie in different screen cells but get the same strip index. */
  lemma TransformedBoundaryCollision()
    ensures GetCellNumber(Position(0, 39)) == 0 && GetCellNumber(Position(0, 40)) == Width
    ensures GetCellNumberTransformed(Position(0, 39)) == GetCellNumberTransformed(Position(0, 40)) == 420
  {
  }

  /** The strip row of the on-screen row of pixel row py: the screen's top row is the strip's last. */
  function StripRowOf(py: nat): (row: nat)
    requires py < CanvasHeight
  {
    Height - 1 - py / CellSize
  }

  /** The strip index of the cell under `p`, with the row flipped per cell rather than per pixel. */
  function StripIndex(p: Position): (i: nat)
    requires OnCanvas(p)
    ensures i < NumLeds
    ensures i == XY(p.x / CellSize, StripRowOf(p.y))
  {
    var x := p.x / CellSize;
    var y := StripRowOf(p.y);
    if y % 2 == 1 then (Width - x) + (y * Width) - 1 else x + (y * Width)
  }

  /** The strip index of a position is the firmware address of its screen cell, flipped vertically. */
  lemma StripIndexOfScreenCell(p: Position)
    requires OnCanvas(p)
    ensures CellRow(GetCellNumber(p)) < Height
    ensures StripIndex(p) == XY(CellColumn(GetCellNumber(p)), Height - 1 - CellRow(GetCellNumber(p)))
  {
    ComposeInverse(p.x / CellSize, p.y / CellSize);
  }

  /** Two positions get the same strip index exactly when they are in the same screen cell. */
  lemma StripIndexMatchesScreenCell(p: Position, q: Position)
    requires OnCanvas(p) && OnCanvas(q)
    ensures StripIndex(p) == StripIndex(q) <==> GetCellNumber(p) == GetCellNumber(q)
  {
    StripIndexOfScreenCell(p);
    StripIndexOfScreenCell(q);
    var n, m := GetCellNumber(p), GetCellNumber(q);
    if StripIndex(p) == StripIndex(q) {
      XYInjective(CellColumn(n), Height - 1 - CellRow(n), CellColumn(m), Height - 1 - CellRow(m));
      assert n == CellColumn(n) + Width * CellRow(n);
      assert m == CellColumn(m) + Width * CellRow(m);
    }
  }

  /** Off the cell boundaries the written transform and the corrected one agree. */
  lemma TransformedAgreesInsideCells(p: Position)
    requires OnCanvas(p) && p.y % CellSize != 0
    ensures GetCellNumberTransformed(p) == StripIndex(p)
  {
    var a, b := p.y / CellSize, p.y % CellSize;
    assert CanvasHeight - p.y == CellSize * (Height - 1 - a) + (CellSize - b);
    DivModUnique(CanvasHeight - p.y, CellSize, Height - 1 - a, CellSize - b);
  }
}
