/**
 * The browser's painting state: the `drawing` flag, the stroke being
 * collected in `current_cells`, the colour captured when it started, the
 * `grid_data` array shown on screen, and the messages handed to `sendData`.
 */
module Canvas {
  import opened Matrix
  import opened Colour
  import opened Cells

  /** An entry of grid_data: never painted (undefined) or a colour picker value. */
  datatype Cell = Empty | Painted(colour: string)

  /** `if (grid_data[i])`: undefined and the empty string are falsy. */
  predicate Truthy(c: Cell)
  {
    c.Painted? && c.colour != ""
  }

  /** The "data" member of a message passed to sendData. */
  datatype Payload = Stroke(color: nat, cells: seq<int>) | Text(text: string)

  /** A message passed to sendData: {action, data}. */
  datatype Outgoing = Outgoing(action: string, data: Payload)

  const ClearMessage: Outgoing := Outgoing("clear", Text(""))

  predicate NoDuplicates(s: seq<int>)
  {
    forall i, j :: 0 <= i < j < |s| ==> s[i] != s[j]
  }

  /** One drawCell call of drawGridCells: column, row and fill colour. */
  datatype DrawnCell = DrawnCell(x: nat, y: nat, colour: string)

  /** The drawCell calls drawGridCells makes for `g`, in index order. */
  function Drawn(g: seq<Cell>): (d: seq<DrawnCell>)
    ensures |d| <= |g|
  {
    if g == [] then []
    else
      var i := |g| - 1;
      Drawn(g[..i]) + (if Truthy(g[i]) then [DrawnCell(CellColumn(i), CellRow(i), g[i].colour)] else [])
  }

  /** Every drawn cell is a painted entry of the grid, drawn at its own column and row. */
  lemma {:induction false} DrawnSound(g: seq<Cell>, k: nat)
    requires k < |Drawn(g)|
    ensures var d := Drawn(g)[k];
      d.x < Width && d.x + Width * d.y < |g| && Truthy(g[d.x + Width * d.y]) &&
      g[d.x + Width * d.y].colour == d.colour
  {
    var i := |g| - 1;
    var prev := Drawn(g[..i]);
    if k < |prev| {
      DrawnSound(g[..i], k);
    }
  }

  /** Every painted entry of the grid is drawn. */
  lemma {:induction false} DrawnComplete(g: seq<Cell>, i: nat)
    requires i < |g| && Truthy(g[i])
    ensures DrawnCell(CellColumn(i), CellRow(i), g[i].colour) in Drawn(g)
  {
    var last := |g| - 1;
    if i < last {
      assert g[..last][i] == g[i];
      DrawnComplete(g[..last], i);
    }
  }

  /** The drawn cells come in strictly increasing index order, so no entry is drawn twice. */
  lemma {:induction false} DrawnIncreasing(g: seq<Cell>, k: nat, l: nat)
    requires k < l < |Drawn(g)|
    ensures Drawn(g)[k].x + Width * Drawn(g)[k].y < Drawn(g)[l].x + Width * Drawn(g)[l].y
  {
    var i := |g| - 1;
    var prev := Drawn(g[..i]);
    if l < |prev| {
      DrawnIncreasing(g[..i], k, l);
    } else {
      DrawnSound(g[..i], k);
      assert Drawn(g)[l] == DrawnCell(CellColumn(i), CellRow(i), g[i].colour);
      assert CellColumn(i) + Width * CellRow(i) == i;
    }
  }

  /** A cleared grid draws no cell: only the grid lines remain. */
  lemma {:induction false} DrawnOfCleared(g: seq<Cell>)
    requires forall i :: 0 <= i < |g| ==> g[i] == Empty
    ensures Drawn(g) == []
  {
    if g != [] {
      DrawnOfCleared(g[..|g| - 1]);
    }
  }

  /** The cell painted under the pointer is drawn at the pointer's column and row. */
  lemma PaintedUnderPointer(g: seq<Cell>, p: Position, colour: string)
    requires |g| == NumLeds && OnCanvas(p) && colour != ""
    ensures DrawnCell(p.x / CellSize, p.y / CellSize, colour) in Drawn(g[GetCellNumber(p) := Painted(colour)])
  {
    var n := GetCellNumber(p);
    ComposeInverse(p.x / CellSize, p.y / CellSize);
    DrawnComplete(g[n := Painted(colour)], n);
  }

  class PaintCanvas {
    var drawing: bool
    var currentCells: seq<int>
    var currentColor: string
    var gridData: array<Cell>
    var sent: seq<Outgoing>

    ghost predicate Valid()
      reads this
    {
      && gridData.Length == NumLeds
      && NoDuplicates(currentCells)
      && (forall k :: 0 <= k < |currentCells| ==> 0 <= currentCells[k] < NumLeds + Width)
      && (drawing ==> IsHexColour(currentColor))
    }

    /** The state once the script has run: not drawing and an empty grid, after one "clear" message. */
    constructor ()
      ensures Valid() && fresh(gridData)
      ensures !drawing && currentCells == [] && sent == [ClearMessage]
      ensures forall i :: 0 <= i < NumLeds ==> gridData[i] == Empty
    {
      drawing := false;
      currentCells := [];
      currentColor := "";
      gridData := new Cell[NumLeds](_ => Empty);
      sent := [ClearMessage];
    }

    /** `clearGrid`: a fresh, empty grid_data, and a "clear" message. */
    method ClearGrid()
      requires Valid()
      modifies this
      ensures Valid() && fresh(gridData)
      ensures forall i :: 0 <= i < NumLeds ==> gridData[i] == Empty
      ensures sent == old(sent) + [ClearMessage]
      ensures drawing == old(drawing) && currentCells == old(currentCells) && currentColor == old(currentColor)
    {
      gridData := new Cell[NumLeds](_ => Empty);
      sent := sent + [ClearMessage];
    }

    /** `updateCell`: paint one on-screen cell with the colour picker's value. */
    method UpdateCell(cell: nat, picker: string)
      requires Valid() && cell < NumLeds
      modifies gridData
      ensures gridData[..] == old(gridData[..])[cell := Painted(picker)]
    {
      gridData[cell] := Painted(picker);
    }

    /** `mouseHandler`: record the transformed index under the pointer once per stroke and paint its cell. */
    method MouseHandler(p: Position, picker: string)
      requires Valid() && OnCanvas(p)
      modifies this, gridData
      ensures Valid()
      ensures gridData == old(gridData) && drawing == old(drawing)
      ensures currentColor == old(currentColor) && sent == old(sent)
      ensures GetCellNumberTransformed(p) in old(currentCells) ==>
        currentCells == old(currentCells) && gridData[..] == old(gridData[..])
      ensures GetCellNumberTransformed(p) !in old(currentCells) ==>
        && currentCells == old(currentCells) + [GetCellNumberTransformed(p)]
        && gridData[..] == old(gridData[..])[GetCellNumber(p) := Painted(picker)]
    {
      var trans := GetCellNumberTransformed(p);
      var number := GetCellNumber(p);
      if trans !in currentCells {
        currentCells := currentCells + [trans];
        UpdateCell(number, picker);
      }
    }

    /** `mousedown`: start a stroke in the picker's colour at the pointer. */
    method MouseDown(p: Position, picker: string)
      requires Valid() && OnCanvas(p) && IsHexColour(picker)
      modifies this, gridData
      ensures Valid() && drawing && currentColor == picker
      ensures currentCells == [GetCellNumberTransformed(p)]
      ensures gridData == old(gridData) && gridData[..] == old(gridData[..])[GetCellNumber(p) := Painted(picker)]
      ensures sent == old(sent)
    {
      currentCells := [];
      currentColor := picker;
      drawing := true;
      MouseHandler(p, picker);
    }

    /** `mousemove`: extend the stroke while drawing; otherwise nothing happens. */
    method MouseMove(p: Position, picker: string)
      requires Valid() && OnCanvas(p)
      modifies this, gridData
      ensures Valid()
      ensures !old(drawing) ==> unchanged(this) && gridData[..] == old(gridData[..])
      ensures gridData == old(gridData) && drawing == old(drawing)
      ensures currentColor == old(currentColor) && sent == old(sent)
      ensures old(drawing) && GetCellNumberTransformed(p) !in old(currentCells) ==>
        && currentCells == old(currentCells) + [GetCellNumberTransformed(p)]
        && gridData[..] == old(gridData[..])[GetCellNumber(p) := Painted(picker)]
      ensures !(old(drawing) && GetCellNumberTransformed(p) !in old(currentCells)) ==>
        currentCells == old(currentCells) && gridData[..] == old(gridData[..])
    {
      if drawing {
        MouseHandler(p, picker);
      }
    }

    /** `mouseup`: end a stroke by sending it once as a "grid" message. */
    method MouseUp()
      requires Valid()
      modifies this
      ensures Valid() && !drawing
      ensures old(drawing) ==>
        sent == old(sent) + [Outgoing("grid", Stroke(HexToDec(old(currentColor)), old(currentCells)))]
      ensures !old(drawing) ==> sent == old(sent)
      ensures gridData == old(gridData) && currentCells == old(currentCells) && currentColor == old(currentColor)
    {
      if drawing {
        drawing := false;
        sent := sent + [Outgoing("grid", Stroke(HexToDec(currentColor), currentCells))];
      }
    }

    /** `drawGridCells`: one drawCell call per painted entry, at column i % 30 and row floor(i / 30). */
    method DrawGridCells() returns (drawn: seq<DrawnCell>)
      requires Valid()
      ensures drawn == Drawn(gridData[..])
    {
      drawn := [];
      var i := 0;
      while i < NumLeds
        invariant i <= NumLeds
        invariant drawn == Drawn(gridData[..i])
      {
        assert gridData[..i + 1][..i] == gridData[..i];
        if Truthy(gridData[i]) {
          drawn := drawn + [DrawnCell(CellColumn(i), CellRow(i), gridData[i].colour)];
        }
        i := i + 1;
      }
      assert gridData[..i] == gridData[..];
    }
  }

  /** A drag over cell (2,3), then (3,3) twice, records two strip indices and sends them once. */
  method DragOverRepeatedCell() returns (message: Outgoing)
    ensures message == Outgoing("grid", Stroke(0xff0000, [357, 356]))
  {
    RedValue();
    var canvas := new PaintCanvas();
    assert GetCellNumberTransformed(Position(80, 125)) == 357;
    assert GetCellNumberTransformed(Position(120, 125)) == 356;
    assert GetCellNumberTransformed(Position(130, 130)) == 356;
    canvas.MouseDown(Position(80, 125), "#ff0000");
    assert canvas.currentCells == [357];
    canvas.MouseMove(Position(120, 125), "#ff0000");
    assert canvas.currentCells == [357, 356];
    canvas.MouseMove(Position(130, 130), "#ff0000");
    assert canvas.currentCells == [357, 356];
    canvas.MouseUp();
    message := canvas.sent[|canvas.sent| - 1];
  }

  /**
   * Pressing at pixel row 39 and moving to pixel row 40 enters screen cell
   * (0, 1), but its transformed index is the one already recorded, so that
   * cell is not painted.
   */
  method DragAcrossRowBoundary() returns (cells: seq<int>, entered: Cell)
    ensures cells == [420] && entered == Empty
  {
    RedValue();
    var canvas := new PaintCanvas();
    assert GetCellNumberTransformed(Position(0, 39)) == 420 && GetCellNumber(Position(0, 39)) == 0;
    assert GetCellNumberTransformed(Position(0, 40)) == 420 && GetCellNumber(Position(0, 40)) == Width;
    canvas.MouseDown(Position(0, 39), "#ff0000");
    assert canvas.currentCells == [420];
    canvas.MouseMove(Position(0, 40), "#ff0000");
    cells, entered := canvas.currentCells, canvas.gridData[Width];
  }
}
