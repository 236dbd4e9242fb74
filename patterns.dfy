/** The seed shapes of GameOfLifeInitializations.c, as the ordered cell
    sequences the stamp routines emit for an anchor (x, y), together with
    the pictures they are meant to draw. */
module Patterns {
  import opened Cells

  // ---------------------------------------------------------------- glider

  /** The cells placeGlider activates, in call order. */
  function GliderAt(x: int, y: int): seq<Cell> {
    [Cell(x, y + 2), Cell(x + 1, y + 2), Cell(x + 2, y + 2), Cell(x + 2, y + 1), Cell(x + 1, y)]
  }

  /** The standard glider, heading toward larger x and larger y. */
  const GliderPicture: seq<string> := [
    ".#.",
    "..#",
    "###"]

  /** A glider is five distinct cells inside the 3x3 box at its anchor. */
  lemma GliderShape(x: int, y: int)
    ensures |GliderAt(x, y)| == 5 && Distinct(GliderAt(x, y))
    ensures InBox(GliderAt(x, y), x, y, 3, 3)
  {
  }

  /** Its cells are those of the glider picture placed at the anchor; it
      emits the bottom row first and the top cell last. */
  lemma GliderMatchesPicture(x: int, y: int)
    ensures forall c :: c in GliderAt(x, y) <==> c in Shift(Picture(GliderPicture), x, y)
  {
    GliderPictureCells();
    assert Shift(Picture(GliderPicture), x, y) ==
      [Cell(x + 1, y), Cell(x + 2, y + 1), Cell(x, y + 2), Cell(x + 1, y + 2), Cell(x + 2, y + 2)];
  }

  /** Read in reading order, the glider picture has its top cell first. */
  lemma GliderPictureCells()
    ensures Picture(GliderPicture) == [Cell(1, 0), Cell(2, 1), Cell(0, 2), Cell(1, 2), Cell(2, 2)]
  {
  }

  // ------------------------------------------------- lightweight spaceship

  /** The cells placeLWSS activates, in call order. */
  function LwssAt(x: int, y: int): seq<Cell> {
    [Cell(x, y), Cell(x + 3, y),
     Cell(x + 4, y + 1),
     Cell(x, y + 2), Cell(x + 4, y + 2),
     Cell(x + 1, y + 3), Cell(x + 2, y + 3), Cell(x + 3, y + 3), Cell(x + 4, y + 3)]
  }

  /** The picture drawn in the comment of placeLWSS. */
  const LwssPicture: seq<string> := [
    "#..#.",
    "....#",
    "#...#",
    ".####"]

  /** A spaceship is nine distinct cells, in reading order, inside a 5-wide,
      4-tall box at its anchor. */
  lemma LwssShape(x: int, y: int)
    ensures |LwssAt(x, y)| == 9 && RowMajor(LwssAt(x, y)) && Distinct(LwssAt(x, y))
    ensures InBox(LwssAt(x, y), x, y, 5, 4)
  {
    RowMajorDistinct(LwssAt(x, y));
  }

  /** placeLWSS emits exactly the '#' cells of its comment's picture, row by
      row: columns {0, 3}, then {4}, then {0, 4}, then {1, 2, 3, 4}. */
  lemma LwssMatchesPicture(x: int, y: int)
    ensures LwssAt(x, y) == Shift(Picture(LwssPicture), x, y)
  {
    assert Picture(LwssPicture) == LwssAt(0, 0);
  }

  // ---------------------------------------------------------------- pulsar

  /** The cells drawDoubleTriple activates: two runs of three on row y. */
  function DoubleTripleAt(x: int, y: int): seq<Cell> {
    [Cell(x + 2, y), Cell(x + 3, y), Cell(x + 4, y), Cell(x + 8, y), Cell(x + 9, y), Cell(x + 10, y)]
  }

  /** The cells drawQuadrupleSingle activates: four single cells on row y. */
  function QuadrupleSingleAt(x: int, y: int): seq<Cell> {
    [Cell(x, y), Cell(x + 5, y), Cell(x + 7, y), Cell(x + 12, y)]
  }

  /** The column offsets of a double-triple row: two runs of three. */
  predicate DoubleTripleColumn(d: int) {
    d == 2 || d == 3 || d == 4 || d == 8 || d == 9 || d == 10
  }

  /** The column offsets of a quadruple-single row: four single cells. */
  predicate QuadrupleSingleColumn(d: int) {
    d == 0 || d == 5 || d == 7 || d == 12
  }

  /** The cells drawPulsar activates, in call order: the row offsets of its
      ten sub-shape calls are 0, 2, 3, 4, 5, 7, 8, 9, 10 and 12. */
  function PulsarAt(x: int, y: int): seq<Cell> {
    DoubleTripleAt(x, y) +
    (QuadrupleSingleAt(x, y + 2) +
    (QuadrupleSingleAt(x, y + 3) +
    (QuadrupleSingleAt(x, y + 4) +
    (DoubleTripleAt(x, y + 5) +
    (DoubleTripleAt(x, y + 7) +
    (QuadrupleSingleAt(x, y + 8) +
    (QuadrupleSingleAt(x, y + 9) +
    (QuadrupleSingleAt(x, y + 10) +
     DoubleTripleAt(x, y + 12)))))))))
  }

  /** The pulsar's cells relative to its anchor, stated independently of the
      call sequence: a double-triple column on a row whose offset is a
      quadruple-single column, or the other way round. */
  predicate InPulsar(dx: int, dy: int) {
    (DoubleTripleColumn(dx) && QuadrupleSingleColumn(dy)) ||
    (QuadrupleSingleColumn(dx) && DoubleTripleColumn(dy))
  }

  lemma DoubleTripleCell(x: int, y: int, c: Cell)
    ensures c in DoubleTripleAt(x, y) <==> c.y == y && DoubleTripleColumn(c.x - x)
  {
    if c.y == y && DoubleTripleColumn(c.x - x) {
      assert c == Cell(x + (c.x - x), y);
    }
  }

  lemma QuadrupleSingleCell(x: int, y: int, c: Cell)
    ensures c in QuadrupleSingleAt(x, y) <==> c.y == y && QuadrupleSingleColumn(c.x - x)
  {
    if c.y == y && QuadrupleSingleColumn(c.x - x) {
      assert c == Cell(x + (c.x - x), y);
    }
  }

  /** drawDoubleTriple emits six distinct cells, left to right on row y, at
      exactly the double-triple column offsets {2, 3, 4, 8, 9, 10}. */
  lemma DoubleTripleShape(x: int, y: int)
    ensures |DoubleTripleAt(x, y)| == 6 && RowMajor(DoubleTripleAt(x, y))
    ensures forall c :: c in DoubleTripleAt(x, y) <==> c.y == y && DoubleTripleColumn(c.x - x)
  {
    forall c ensures c in DoubleTripleAt(x, y) <==> c.y == y && DoubleTripleColumn(c.x - x) {
      DoubleTripleCell(x, y, c);
    }
  }

  /** drawQuadrupleSingle emits four distinct cells, left to right on row y,
      at exactly the quadruple-single column offsets {0, 5, 7, 12}. */
  lemma QuadrupleSingleShape(x: int, y: int)
    ensures |QuadrupleSingleAt(x, y)| == 4 && RowMajor(QuadrupleSingleAt(x, y))
    ensures forall c :: c in QuadrupleSingleAt(x, y) <==> c.y == y && QuadrupleSingleColumn(c.x - x)
  {
    forall c ensures c in QuadrupleSingleAt(x, y) <==> c.y == y && QuadrupleSingleColumn(c.x - x) {
      QuadrupleSingleCell(x, y, c);
    }
  }

  /** A cell belongs to the pulsar at (x, y) exactly when InPulsar holds of
      its offset from the anchor. */
  lemma PulsarCell(x: int, y: int, c: Cell)
    ensures c in PulsarAt(x, y) <==> InPulsar(c.x - x, c.y - y)
  {
    DoubleTripleCell(x, y, c);
    QuadrupleSingleCell(x, y + 2, c);
    QuadrupleSingleCell(x, y + 3, c);
    QuadrupleSingleCell(x, y + 4, c);
    DoubleTripleCell(x, y + 5, c);
    DoubleTripleCell(x, y + 7, c);
    QuadrupleSingleCell(x, y + 8, c);
    QuadrupleSingleCell(x, y + 9, c);
    QuadrupleSingleCell(x, y + 10, c);
    DoubleTripleCell(x, y + 12, c);
  }

  /** drawPulsar emits its cells in row-major order. */
  lemma PulsarRowMajor(x: int, y: int)
    ensures RowMajor(PulsarAt(x, y))
  {
    var r12 := DoubleTripleAt(x, y + 12);
    DoubleTripleShape(x, y + 12);
    var r10 := QuadrupleSingleAt(x, y + 10) + r12;
    QuadrupleSingleShape(x, y + 10);
    StackRow(QuadrupleSingleAt(x, y + 10), y + 10, r12);
    var r9 := QuadrupleSingleAt(x, y + 9) + r10;
    QuadrupleSingleShape(x, y + 9);
    StackRow(QuadrupleSingleAt(x, y + 9), y + 9, r10);
    var r8 := QuadrupleSingleAt(x, y + 8) + r9;
    QuadrupleSingleShape(x, y + 8);
    StackRow(QuadrupleSingleAt(x, y + 8), y + 8, r9);
    var r7 := DoubleTripleAt(x, y + 7) + r8;
    DoubleTripleShape(x, y + 7);
    StackRow(DoubleTripleAt(x, y + 7), y + 7, r8);
    var r5 := DoubleTripleAt(x, y + 5) + r7;
    DoubleTripleShape(x, y + 5);
    StackRow(DoubleTripleAt(x, y + 5), y + 5, r7);
    var r4 := QuadrupleSingleAt(x, y + 4) + r5;
    QuadrupleSingleShape(x, y + 4);
    StackRow(QuadrupleSingleAt(x, y + 4), y + 4, r5);
    var r3 := QuadrupleSingleAt(x, y + 3) + r4;
    QuadrupleSingleShape(x, y + 3);
    StackRow(QuadrupleSingleAt(x, y + 3), y + 3, r4);
    var r2 := QuadrupleSingleAt(x, y + 2) + r3;
    QuadrupleSingleShape(x, y + 2);
    StackRow(QuadrupleSingleAt(x, y + 2), y + 2, r3);
    DoubleTripleShape(x, y);
    StackRow(DoubleTripleAt(x, y), y, r2);
  }

  /** A cell belongs to the pulsar at (x, y) exactly when InPulsar holds of
      its offset from the anchor. */
  lemma PulsarMembers(x: int, y: int)
    ensures forall c :: c in PulsarAt(x, y) <==> InPulsar(c.x - x, c.y - y)
  {
    forall c ensures c in PulsarAt(x, y) <==> InPulsar(c.x - x, c.y - y) {
      PulsarCell(x, y, c);
    }
  }

  /** A pulsar is 4 x 6 + 6 x 4 = 48 distinct cells, emitted in reading
      order. */
  lemma PulsarShape(x: int, y: int)
    ensures |PulsarAt(x, y)| == 48
    ensures RowMajor(PulsarAt(x, y)) && Distinct(PulsarAt(x, y))
  {
    PulsarRowMajor(x, y);
    RowMajorDistinct(PulsarAt(x, y));
  }

  /** A pulsar lies inside the 13x13 box at its anchor. */
  lemma PulsarInBox(x: int, y: int)
    ensures InBox(PulsarAt(x, y), x, y, 13, 13)
  {
    forall c | c in PulsarAt(x, y) ensures x <= c.x < x + 13 && y <= c.y < y + 13 {
      PulsarCell(x, y, c);
    }
  }

  /** The relative cell set is closed under the three maps. */
  lemma InPulsarSymmetric(dx: int, dy: int)
    ensures InPulsar(dx, dy) <==> InPulsar(12 - dx, dy)
    ensures InPulsar(dx, dy) <==> InPulsar(dx, 12 - dy)
    ensures InPulsar(dx, dy) <==> InPulsar(dy, dx)
  {
  }

  /** The pulsar is unchanged by reflecting its columns (dx to 12 - dx), its
      rows (dy to 12 - dy), and by transposing (dx, dy) to (dy, dx): the
      double-triple rows with quadruple-single columns are the transpose of
      the quadruple-single rows with double-triple columns. */
  lemma PulsarSymmetry(x: int, y: int)
    ensures forall c :: c in PulsarAt(x, y) <==> Cell(2 * x + 12 - c.x, c.y) in PulsarAt(x, y)
    ensures forall c :: c in PulsarAt(x, y) <==> Cell(c.x, 2 * y + 12 - c.y) in PulsarAt(x, y)
    ensures forall c :: c in PulsarAt(x, y) <==> Cell(x + c.y - y, y + c.x - x) in PulsarAt(x, y)
  {
    forall c: Cell
      ensures c in PulsarAt(x, y) <==> Cell(2 * x + 12 - c.x, c.y) in PulsarAt(x, y)
      ensures c in PulsarAt(x, y) <==> Cell(c.x, 2 * y + 12 - c.y) in PulsarAt(x, y)
      ensures c in PulsarAt(x, y) <==> Cell(x + c.y - y, y + c.x - x) in PulsarAt(x, y)
    {
      PulsarCell(x, y, c);
      PulsarCell(x, y, Cell(2 * x + 12 - c.x, c.y));
      PulsarCell(x, y, Cell(c.x, 2 * y + 12 - c.y));
      PulsarCell(x, y, Cell(x + c.y - y, y + c.x - x));
      InPulsarSymmetric(c.x - x, c.y - y);
    }
  }
}
