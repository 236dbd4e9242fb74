/** The seeding routines of GameOfLifeInitializations.c as methods of a
    Seeder, whose log records every call of the cell-activation primitive in
    order. Each method's postcondition says that it appends exactly the
    cells its shape or layout function describes. */
module Seeding {
  import opened CTypes
  import opened Cells
  import opened Patterns
  import opened Layouts

  class Seeder {
    /** REDUCED_WIDTH and REDUCED_HEIGHT, the grid's size in cells. */
    const width: nat
    const height: nat
    /** The cells passed to activateCellAndIncrementCount so far, in order. */
    var log: seq<Cell>

    constructor(w: nat, h: nat)
      ensures width == w && height == h && log == []
    {
      width := w;
      height := h;
      log := [];
    }

    /** activateCellAndIncrementCount, whose body is not part of this model:
        each call is recorded and nothing else is modelled. */
    method Activate(x: int, y: int)
      modifies this
      ensures log == old(log) + [Cell(x, y)]
    {
      log := log + [Cell(x, y)];
    }

    /** drawVerticalLine */
    method DrawVerticalLine(x: int)
      modifies this
      ensures log == old(log) + VerticalLine(x, height)
    {
      var y := 2;
      while y < height - 2
        invariant log + ColumnFrom(x, y, height - 2) == old(log) + VerticalLine(x, height)
        decreases height - 2 - y
      {
        Activate(x, y);
        y := y + 1;
      }
    }

    /** initializeGameWithVerticalLine */
    method InitializeGameWithVerticalLine()
      modifies this
      ensures log == old(log) + VerticalLines(width, height)
    {
      DrawVerticalLine(width / 4);
      DrawVerticalLine(3 * width / 4);
    }

    /** placeLWSS */
    method PlaceLwss(startX: uint8, startY: uint8)
      modifies this
      ensures log == old(log) + LwssAt(startX, startY)
    {
      Activate(startX, startY);
      Activate(startX + 3, startY);

      Activate(startX + 4, startY + 1);

      Activate(startX, startY + 2);
      Activate(startX + 4, startY + 2);

      Activate(startX + 1, startY + 3);
      Activate(startX + 2, startY + 3);
      Activate(startX + 3, startY + 3);
      Activate(startX + 4, startY + 3);
    }

    /** placeGlider */
    method PlaceGlider(startX: uint8, startY: uint8)
      modifies this
      ensures log == old(log) + GliderAt(startX, startY)
    {
      Activate(startX, startY + 2);
      Activate(startX + 1, startY + 2);
      Activate(startX + 2, startY + 2);
      Activate(startX + 2, startY + 1);
      Activate(startX + 1, startY);
    }

    /** initializeGameWithGliders; it returns only on the grids
        GlidersTerminate admits (GlidersDiverge shows the others loop). */
    method InitializeGameWithGliders()
      requires GlidersTerminate(width, height)
      modifies this
      ensures log == old(log) + GliderLayout(width, height)
    {
      var horizontalSpacing := HorizontalSpacing(width);
      var verticalSpacing := VerticalSpacing(height);
      ghost var ys := if Margin < width - Margin then Anchors(Margin, height - Margin, verticalSpacing) else [];
      ghost var target := log + GliderLayout(width, height);
      var x := Margin;
      while x < width - Margin
        invariant Margin <= x
        invariant horizontalSpacing > 0 || x >= width - Margin
        invariant log + GliderGrid(Anchors(x, width - Margin, horizontalSpacing), ys) == target
        decreases width - Margin - x
      {
        GliderGridStep(x, width - Margin, horizontalSpacing, ys);
        Consume(log, GliderColumn(x, ys), GliderGrid(Anchors(x + horizontalSpacing, width - Margin, horizontalSpacing), ys), target);
        assert ys == Anchors(Margin, height - Margin, verticalSpacing);
        PlaceGliderColumn(x, verticalSpacing);
        x := x + horizontalSpacing;
      }
    }

    /** The inner loop of initializeGameWithGliders: one glider per y anchor,
        in the column at x. */
    method PlaceGliderColumn(x: int, verticalSpacing: int)
      requires verticalSpacing > 0 || Margin >= height - Margin
      modifies this
      ensures log == old(log) + GliderColumn(x, Anchors(Margin, height - Margin, verticalSpacing))
    {
      ghost var target := log + GliderColumn(x, Anchors(Margin, height - Margin, verticalSpacing));
      var y := Margin;
      while y < height - Margin
        invariant verticalSpacing > 0 || y >= height - Margin
        invariant log + GliderColumn(x, Anchors(y, height - Margin, verticalSpacing)) == target
        decreases height - Margin - y
      {
        GliderColumnStep(x, y, height - Margin, verticalSpacing);
        PlaceGlider(ToUint8(x), ToUint8(y));
        y := y + verticalSpacing;
      }
    }

    /** initializeGameLWSS */
    method InitializeGameLwss()
      modifies this
      ensures log == old(log) + LwssLayout(width, height)
    {
      var xLeft := width / 4 - 4;
      var xRight := 3 * width / 4 - 2;

      var yLeft := height / 4 - 4;
      var yRight := 3 * height / 4 - 2;

      PlaceLwss(ToUint8(xLeft), ToUint8(yLeft));
      PlaceLwss(ToUint8(xLeft), ToUint8(yRight));
      PlaceLwss(ToUint8(xRight), ToUint8(yLeft));
      PlaceLwss(ToUint8(xRight), ToUint8(yRight));
    }

    /** drawDoubleTriple */
    method DrawDoubleTriple(x: int, y: int)
      modifies this
      ensures log == old(log) + DoubleTripleAt(x, y)
    {
      Activate(x + 2, y);
      Activate(x + 3, y);
      Activate(x + 4, y);
      Activate(x + 8, y);
      Activate(x + 9, y);
      Activate(x + 10, y);
    }

    /** drawQuadrupleSingle */
    method DrawQuadrupleSingle(x: int, y: int)
      modifies this
      ensures log == old(log) + QuadrupleSingleAt(x, y)
    {
      Activate(x, y);
      Activate(x + 5, y);
      Activate(x + 7, y);
      Activate(x + 12, y);
    }

    /** drawPulsar */
    method DrawPulsar(x: int, y: int)
      modifies this
      ensures log == old(log) + PulsarAt(x, y)
    {
      DrawDoubleTriple(x, y);

      DrawQuadrupleSingle(x, y + 2);
      DrawQuadrupleSingle(x, y + 3);
      DrawQuadrupleSingle(x, y + 4);

      DrawDoubleTriple(x, y + 5);
      DrawDoubleTriple(x, y + 7);

      DrawQuadrupleSingle(x, y + 8);
      DrawQuadrupleSingle(x, y + 9);
      DrawQuadrupleSingle(x, y + 10);

      DrawDoubleTriple(x, y + 12);
    }

    /** initializeGameWith2Pulsars */
    method InitializeGameWith2Pulsars()
      modifies this
      ensures log == old(log) + TwoPulsarLayout(width)
    {
      DrawPulsar(2, 2);
      DrawPulsar(width / 2 + 2, 2);
    }

    /** initializeGameWithPulsar */
    method InitializeGameWithPulsar()
      modifies this
      ensures log == old(log) + PulsarLayout(width)
    {
      DrawPulsar(width / 4 + 2, 2);
    }
  }
}
