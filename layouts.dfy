/** Where the initializeGame* routines of GameOfLifeInitializations.c put
    their stamps on a grid of w columns and h rows (REDUCED_WIDTH and
    REDUCED_HEIGHT), as the cell sequences they activate. */
module Layouts {
  import opened CTypes
  import opened Cells
  import opened Patterns

  // ------------------------------------------------------- vertical lines

  /** The cells (x, y) for y = from, from + 1, ..., below - 1. */
  function ColumnFrom(x: int, from: int, below: int): seq<Cell>
    decreases below - from
  {
    if from >= below then [] else [Cell(x, from)] + ColumnFrom(x, from + 1, below)
  }

  /** The cells drawVerticalLine(x) activates on a grid of height h. */
  function VerticalLine(x: int, h: int): seq<Cell> {
    ColumnFrom(x, 2, h - 2)
  }

  lemma {:induction false} ColumnFromCells(x: int, from: int, below: int)
    ensures |ColumnFrom(x, from, below)| == if from < below then below - from else 0
    ensures forall i :: 0 <= i < |ColumnFrom(x, from, below)| ==> ColumnFrom(x, from, below)[i] == Cell(x, from + i)
    decreases below - from
  {
    if from < below {
      ColumnFromCells(x, from + 1, below);
    }
  }

  /** drawVerticalLine(x) activates (x, 2), (x, 3), ..., (x, h - 3) in that
      order: h - 4 distinct cells when h >= 4 and none otherwise, and a cell
      is on the line exactly when it is in column x, rows 2 to h - 3. */
  lemma VerticalLineCells(x: int, h: int)
    ensures |VerticalLine(x, h)| == if h >= 4 then h - 4 else 0
    ensures forall i :: 0 <= i < |VerticalLine(x, h)| ==> VerticalLine(x, h)[i] == Cell(x, 2 + i)
    ensures forall c :: c in VerticalLine(x, h) <==> c.x == x && 2 <= c.y <= h - 3
    ensures RowMajor(VerticalLine(x, h)) && Distinct(VerticalLine(x, h))
  {
    ColumnFromCells(x, 2, h - 2);
    var s := VerticalLine(x, h);
    forall c: Cell | c.x == x && 2 <= c.y <= h - 3 ensures c in s {
      assert s[c.y - 2] == c;
    }
    RowMajorDistinct(s);
  }

  /** initializeGameWithVerticalLine: a line in column w / 4, then one in
      column 3 * w / 4 (C evaluates 3 * w first, then divides). */
  function VerticalLines(w: nat, h: int): seq<Cell> {
    VerticalLine(w / 4, h) + VerticalLine((3 * w) / 4, h)
  }

  /** The two lines hold 2 (h - 4) cells. On a grid at least two columns wide
      they stand in different columns, so no cell is activated twice; on a
      narrower one both are drawn in column 0 and every cell of the line is
      activated twice. */
  lemma VerticalLinesColumns(w: nat, h: int)
    ensures |VerticalLines(w, h)| == if h >= 4 then 2 * (h - 4) else 0
    ensures w >= 2 ==> w / 4 < (3 * w) / 4 && Distinct(VerticalLines(w, h))
    ensures w <= 1 && h >= 5 ==> VerticalLines(w, h)[0] == VerticalLines(w, h)[h - 4] == Cell(0, 2)
  {
    VerticalLineCells(w / 4, h);
    VerticalLineCells((3 * w) / 4, h);
    if w >= 2 {
      DistinctAppend(VerticalLine(w / 4, h), VerticalLine((3 * w) / 4, h));
    }
  }

  // -------------------------------------------------------------- gliders

  /** GLIDER_SIZE: a glider fills a 3x3 box. */
  const GliderSize := 3
  /** NUMBER_OF_GLIDERS_PER_ROW and NUMBER_OF_GLIDERS_PER_COLUMN. */
  const GlidersPerRow := 6
  const GlidersPerColumn := 3
  /** GLIDER_SIZE / 2: both loops start here and stop this far from the far edge. */
  const Margin := GliderSize / 2

  /** horizontalSpacing, in C's truncating int division. */
  function HorizontalSpacing(w: int): int {
    CDiv(w - GliderSize, GlidersPerRow - 1)
  }

  /** verticalSpacing, in C's truncating int division. */
  function VerticalSpacing(h: int): int {
    CDiv(h - GliderSize, GlidersPerColumn - 1)
  }

  /** The values a counter takes in `for (v = start; v < limit; v += step)`;
      defined only where that loop ends. */
  function Anchors(start: int, limit: int, step: int): seq<int>
    requires step > 0 || start >= limit
    decreases limit - start
  {
    if start >= limit then [] else [start] + Anchors(start + step, limit, step)
  }

  /** The counter visits start, start + step, start + 2 step, ... while below
      limit, and stops at the first value at or past it. */
  lemma {:induction false} AnchorsValues(start: int, limit: int, step: int)
    requires step > 0
    ensures forall i :: 0 <= i < |Anchors(start, limit, step)| ==> Anchors(start, limit, step)[i] == start + i * step
    ensures forall v :: v in Anchors(start, limit, step) ==> start <= v < limit
    ensures start + |Anchors(start, limit, step)| * step >= limit
    decreases limit - start
  {
    if start < limit {
      var r := Anchors(start, limit, step);
      var rest := Anchors(start + step, limit, step);
      AnchorsValues(start + step, limit, step);
      forall i | 1 <= i < |r| ensures r[i] == start + i * step {
        assert r[i] == rest[i - 1];
        assert (i - 1) * step + step == i * step;
      }
      assert |r| * step == |rest| * step + step;
    }
  }

  /** The nested loops of initializeGameWithGliders end: there is nothing to
      do (the outer guard fails at once), or the outer counter advances and
      the inner loop either does nothing or advances too. */
  predicate GlidersTerminate(w: int, h: int) {
    Margin >= w - Margin || (HorizontalSpacing(w) > 0 && (Margin >= h - Margin || VerticalSpacing(h) > 0))
  }

  /** The loops end exactly for grids at most two columns wide, and for grids
      at least eight columns wide whose height is at most 2 or at least 5. */
  lemma GlidersTerminateIff(w: int, h: int)
    ensures GlidersTerminate(w, h) <==> w <= 2 || (w >= 8 && (h <= 2 || h >= 5))
  {
  }

  /** Outside that condition the outer guard holds at the start, and either
      x never advances, or the inner guard holds at its start and y never
      advances: the routine does not return. */
  lemma GlidersDiverge(w: int, h: int)
    requires !GlidersTerminate(w, h)
    ensures Margin < w - Margin
    ensures HorizontalSpacing(w) == 0 || (Margin < h - Margin && VerticalSpacing(h) == 0)
  {
  }

  /** Gliders at (x, y) for each y of ys in turn; placeGlider takes uint8_t
      parameters, so the anchor is converted first. */
  function GliderColumn(x: int, ys: seq<int>): seq<Cell> {
    if ys == [] then [] else GliderAt(ToUint8(x), ToUint8(ys[0])) + GliderColumn(x, ys[1..])
  }

  /** A column of gliders for each x of xs in turn: x in the outer loop. */
  function GliderGrid(xs: seq<int>, ys: seq<int>): seq<Cell> {
    if xs == [] then [] else GliderColumn(xs[0], ys) + GliderGrid(xs[1..], ys)
  }

  /** The cells initializeGameWithGliders activates on a w-by-h grid. */
  function GliderLayout(w: int, h: int): seq<Cell>
    requires GlidersTerminate(w, h)
  {
    if Margin >= w - Margin then []
    else GliderGrid(Anchors(Margin, w - Margin, HorizontalSpacing(w)),
                    Anchors(Margin, h - Margin, VerticalSpacing(h)))
  }

  /** One turn of the outer loop: the column at the current x anchor, then
      the columns at the anchors still to come. */
  lemma GliderGridStep(x: int, limit: int, step: int, ys: seq<int>)
    requires x < limit && step > 0
    ensures GliderGrid(Anchors(x, limit, step), ys) ==
            GliderColumn(x, ys) + GliderGrid(Anchors(x + step, limit, step), ys)
  {
    assert Anchors(x, limit, step) == [x] + Anchors(x + step, limit, step);
  }

  /** One turn of the inner loop: the glider at the current y anchor, then
      those at the anchors still to come. */
  lemma GliderColumnStep(x: int, y: int, limit: int, step: int)
    requires y < limit && step > 0
    ensures GliderColumn(x, Anchors(y, limit, step)) ==
            GliderAt(ToUint8(x), ToUint8(y)) + GliderColumn(x, Anchors(y + step, limit, step))
  {
    assert Anchors(y, limit, step) == [y] + Anchors(y + step, limit, step);
  }

  /** Each y anchor yields one glider: the j-th block of five cells is the
      glider at the j-th anchor. */
  lemma {:induction false} GliderColumnBlocks(x: int, ys: seq<int>)
    ensures |GliderColumn(x, ys)| == 5 * |ys|
    ensures forall j :: 0 <= j < |ys| ==> GliderColumn(x, ys)[5 * j .. 5 * j + 5] == GliderAt(ToUint8(x), ToUint8(ys[j]))
  {
    if ys != [] {
      var g := GliderAt(ToUint8(x), ToUint8(ys[0]));
      var rest := GliderColumn(x, ys[1..]);
      GliderColumnBlocks(x, ys[1..]);
      forall j | 1 <= j < |ys|
        ensures GliderColumn(x, ys)[5 * j .. 5 * j + 5] == GliderAt(ToUint8(x), ToUint8(ys[j]))
      {
        assert (g + rest)[5 * j .. 5 * j + 5] == rest[5 * (j - 1) .. 5 * (j - 1) + 5];
        assert ys[1..][j - 1] == ys[j];
      }
    }
  }

  /** With n = 5 |ys| cells per column, the grid holds |xs| n cells. */
  lemma {:induction false} GliderGridLength(xs: seq<int>, ys: seq<int>)
    ensures |GliderGrid(xs, ys)| == 5 * |ys| * |xs|
  {
    if xs != [] {
      GliderColumnBlocks(xs[0], ys);
      GliderGridLength(xs[1..], ys);
    }
  }

  /** x is the outer loop: the column of gliders at the i-th x anchor comes
      after the columns at all earlier anchors and before those at later
      ones. */
  lemma {:induction false} GliderGridColumns(xs: seq<int>, ys: seq<int>, i: nat)
    requires i < |xs|
    ensures GliderGrid(xs, ys) == GliderGrid(xs[..i], ys) + GliderColumn(xs[i], ys) + GliderGrid(xs[i + 1..], ys)
  {
    if i == 0 {
      assert xs[..0] == [];
    } else {
      GliderGridColumns(xs[1..], ys, i - 1);
      assert xs[..i][0] == xs[0] && xs[..i][1..] == xs[1..][..i - 1];
      assert xs[1..][i - 1] == xs[i] && xs[1..][i..] == xs[i + 1..];
    }
  }

  /** Gliders anchored where x0 <= x and x + 3 <= x0 + w (and likewise for y)
      stay inside the w-by-h box at (x0, y0), provided the anchors survive
      the conversion to uint8_t. */
  lemma {:induction false} GliderColumnInBox(x: int, ys: seq<int>, x0: int, y0: int, w: int, h: int)
    requires 0 <= x < 0x100 && x0 <= x && x + 3 <= x0 + w
    requires forall y :: y in ys ==> 0 <= y < 0x100 && y0 <= y && y + 3 <= y0 + h
    ensures InBox(GliderColumn(x, ys), x0, y0, w, h)
  {
    if ys != [] {
      assert ys[0] in ys;
      assert forall y :: y in ys[1..] ==> y in ys;
      GliderShape(x, ys[0]);
      GliderColumnInBox(x, ys[1..], x0, y0, w, h);
      InBoxAppend(GliderAt(x, ys[0]), GliderColumn(x, ys[1..]), x0, y0, w, h);
    }
  }

  lemma {:induction false} GliderGridInBox(xs: seq<int>, ys: seq<int>, x0: int, y0: int, w: int, h: int)
    requires forall x :: x in xs ==> 0 <= x < 0x100 && x0 <= x && x + 3 <= x0 + w
    requires forall y :: y in ys ==> 0 <= y < 0x100 && y0 <= y && y + 3 <= y0 + h
    ensures InBox(GliderGrid(xs, ys), x0, y0, w, h)
  {
    if xs != [] {
      assert xs[0] in xs;
      assert forall x :: x in xs[1..] ==> x in xs;
      GliderColumnInBox(xs[0], ys, x0, y0, w, h);
      GliderGridInBox(xs[1..], ys, x0, y0, w, h);
      InBoxAppend(GliderColumn(xs[0], ys), GliderGrid(xs[1..], ys), x0, y0, w, h);
    }
  }

  /** The layout is one glider per (x, y) anchor pair, x = 1 + i hs below
      w - 1 in the outer loop and y = 1 + j vs below h - 1 in the inner one;
      for grids up to 257 cells a side no anchor wraps, and every cell lies
      in columns 1 to w and rows 1 to h: never left of or above the grid,
      but possibly one column or row past its last. */
  lemma GliderLayoutCells(w: int, h: int)
    requires GlidersTerminate(w, h)
    requires w <= 257 && h <= 257
    ensures InBox(GliderLayout(w, h), 1, 1, w, h)
  {
    if Margin < w - Margin {
      var xs := Anchors(Margin, w - Margin, HorizontalSpacing(w));
      var ys := Anchors(Margin, h - Margin, VerticalSpacing(h));
      AnchorsValues(Margin, w - Margin, HorizontalSpacing(w));
      if Margin < h - Margin {
        AnchorsValues(Margin, h - Margin, VerticalSpacing(h));
      }
      GliderGridInBox(xs, ys, 1, 1, w, h);
    }
  }

  /** The anchors on a 32x16 grid: six columns and three rows of them. */
  lemma PanelAnchors()
    ensures GlidersTerminate(32, 16)
    ensures Anchors(Margin, 32 - Margin, HorizontalSpacing(32)) == [1, 6, 11, 16, 21, 26]
    ensures Anchors(Margin, 16 - Margin, VerticalSpacing(16)) == [1, 7, 13]
  {
    assert Margin == 1 && HorizontalSpacing(32) == 5 && VerticalSpacing(16) == 6;
    assert Anchors(1, 31, 5) == [1, 6, 11, 16, 21, 26];
    assert Anchors(1, 15, 6) == [1, 7, 13];
  }

  /** A 128x64 SSD1306 panel with 4-pixel cells is a 32x16 grid; there the
      loops place GlidersPerRow x GlidersPerColumn = 18 gliders... */
  lemma GliderLayoutPanelCount()
    ensures GlidersTerminate(32, 16)
    ensures |GliderLayout(32, 16)| == 5 * GlidersPerRow * GlidersPerColumn
  {
    PanelAnchors();
    GliderGridLength([1, 6, 11, 16, 21, 26], [1, 7, 13]);
  }

  /** ... and every one of their cells lies inside the grid. */
  lemma GliderLayoutPanelInBox()
    ensures GlidersTerminate(32, 16)
    ensures InBox(GliderLayout(32, 16), 0, 0, 32, 16)
  {
    PanelAnchors();
    GliderGridInBox([1, 6, 11, 16, 21, 26], [1, 7, 13], 0, 0, 32, 16);
  }

  /** The anchors on a 33x16 grid: the last column of anchors is at 31. */
  lemma EdgeAnchors()
    ensures GlidersTerminate(33, 16)
    ensures Anchors(Margin, 33 - Margin, HorizontalSpacing(33)) == [1, 7, 13, 19, 25, 31]
    ensures Anchors(Margin, 16 - Margin, VerticalSpacing(16)) == [1, 7, 13]
  {
    assert Margin == 1 && HorizontalSpacing(33) == 6 && VerticalSpacing(16) == 6;
    assert Anchors(1, 32, 6) == [1, 7, 13, 19, 25, 31];
    assert Anchors(1, 15, 6) == [1, 7, 13];
  }

  /** On a 33-column grid the glider at the last x anchor, 31, reaches
      column 33, past the grid's last column 32. */
  lemma GliderLayoutEdge()
    ensures GlidersTerminate(33, 16)
    ensures Cell(33, 3) in GliderLayout(33, 16)
  {
    EdgeAnchors();
    var xs := [1, 7, 13, 19, 25, 31];
    var ys := [1, 7, 13];
    GliderGridColumns(xs, ys, 5);
    assert GliderColumn(31, ys) == GliderAt(31, 1) + GliderColumn(31, [7, 13]);
    assert Cell(33, 3) in GliderAt(31, 1);
  }

  // ---------------------------------------------------------- spaceships

  /** xLeft and yLeft: n / 4 - 4, computed in int, so negative below 16. */
  function LwssNear(n: nat): int {
    n / 4 - 4
  }

  /** xRight and yRight: 3 n / 4 - 2 (C evaluates 3 * n first). */
  function LwssFar(n: nat): int {
    (3 * n) / 4 - 2
  }

  /** initializeGameLWSS: four spaceships at (xLeft, yLeft), (xLeft, yRight),
      (xRight, yLeft), (xRight, yRight), in that order; placeLWSS takes
      uint8_t parameters, so each anchor is converted first. */
  function LwssLayout(w: nat, h: nat): seq<Cell> {
    LwssAt(ToUint8(LwssNear(w)), ToUint8(LwssNear(h))) +
    (LwssAt(ToUint8(LwssNear(w)), ToUint8(LwssFar(h))) +
    (LwssAt(ToUint8(LwssFar(w)), ToUint8(LwssNear(h))) +
     LwssAt(ToUint8(LwssFar(w)), ToUint8(LwssFar(h)))))
  }

  /** Two spaceships with disjoint boxes share no cell. */
  lemma LwssApart(x1: int, y1: int, x2: int, y2: int)
    requires x1 + 5 <= x2 || x2 + 5 <= x1 || y1 + 4 <= y2 || y2 + 4 <= y1
    ensures forall c :: c in LwssAt(x1, y1) ==> c !in LwssAt(x2, y2)
  {
    LwssShape(x1, y1);
    LwssShape(x2, y2);
  }

  /** On grids from 16 to 256 cells a side no anchor wraps: the four
      spaceships are 36 distinct cells, all inside the grid. */
  lemma LwssLayoutFits(w: nat, h: nat)
    requires 16 <= w <= 256 && 16 <= h <= 256
    ensures |LwssLayout(w, h)| == 36
    ensures Distinct(LwssLayout(w, h))
    ensures InBox(LwssLayout(w, h), 0, 0, w, h)
  {
    var xl, xr, yl, yr := LwssNear(w), LwssFar(w), LwssNear(h), LwssFar(h);
    assert ToUint8(xl) == xl && ToUint8(xr) == xr && ToUint8(yl) == yl && ToUint8(yr) == yr;
    var a, b, c, d := LwssAt(xl, yl), LwssAt(xl, yr), LwssAt(xr, yl), LwssAt(xr, yr);
    LwssShape(xl, yl);
    LwssShape(xl, yr);
    LwssShape(xr, yl);
    LwssShape(xr, yr);
    LwssApart(xr, yl, xr, yr);
    DistinctAppend(c, d);
    LwssApart(xl, yr, xr, yl);
    LwssApart(xl, yr, xr, yr);
    DistinctAppend(b, c + d);
    LwssApart(xl, yl, xl, yr);
    LwssApart(xl, yl, xr, yl);
    LwssApart(xl, yl, xr, yr);
    DistinctAppend(a, b + (c + d));
    InBoxAppend(c, d, 0, 0, w, h);
    InBoxAppend(b, c + d, 0, 0, w, h);
    InBoxAppend(a, b + (c + d), 0, 0, w, h);
  }

  /** On a grid narrower than 16 columns xLeft is negative, and the uint8_t
      conversion puts the first two spaceships at column 252 or beyond. */
  lemma LwssLayoutWraps(w: nat, h: nat)
    requires w < 16
    ensures LwssLayout(w, h)[0].x == 252 + w / 4
    ensures LwssLayout(w, h)[9].x == 252 + w / 4
  {
  }

  // -------------------------------------------------------------- pulsars

  /** initializeGameWithPulsar: one pulsar at (w / 4 + 2, 2). */
  function PulsarLayout(w: nat): seq<Cell> {
    PulsarAt(w / 4 + 2, 2)
  }

  /** initializeGameWith2Pulsars: a pulsar at (2, 2), then one at
      (w / 2 + 2, 2). */
  function TwoPulsarLayout(w: nat): seq<Cell> {
    PulsarAt(2, 2) + PulsarAt(w / 2 + 2, 2)
  }

  /** The single pulsar lies inside the grid exactly when the grid is at
      least 19 columns wide and 15 rows tall. */
  lemma PulsarLayoutFits(w: nat, h: nat)
    ensures InBox(PulsarLayout(w), 0, 0, w, h) <==> w >= 19 && h >= 15
  {
    var x := w / 4 + 2;
    PulsarCell(x, 2, Cell(x + 12, 4));
    PulsarCell(x, 2, Cell(x + 4, 14));
    if w >= 19 && h >= 15 {
      PulsarInBox(x, 2);
    }
  }

  /** From 26 columns on the second pulsar starts right of the first one's
      box, so the two are 96 distinct cells. */
  lemma TwoPulsarLayoutDistinct(w: nat)
    requires w >= 26
    ensures |TwoPulsarLayout(w)| == 96
    ensures Distinct(TwoPulsarLayout(w))
  {
    var x := w / 2 + 2;
    PulsarShape(2, 2);
    PulsarShape(x, 2);
    PulsarInBox(2, 2);
    PulsarInBox(x, 2);
    forall c | c in PulsarAt(2, 2) ensures c !in PulsarAt(x, 2) {
      assert c.x < 15;
    }
    DistinctAppend(PulsarAt(2, 2), PulsarAt(x, 2));
  }

  /** Two pulsars on row 2 whose boxes lie within the columns and rows of
      the grid. */
  lemma PulsarPairInBox(x1: int, x2: int, w: int, h: int)
    requires 0 <= x1 && x1 + 13 <= w && 0 <= x2 && x2 + 13 <= w && h >= 15
    ensures InBox(PulsarAt(x1, 2) + PulsarAt(x2, 2), 0, 0, w, h)
  {
    PulsarInBox(x1, 2);
    PulsarInBox(x2, 2);
    InBoxWiden(PulsarAt(x1, 2), x1, 2, 13, 13, 0, 0, w, h);
    InBoxWiden(PulsarAt(x2, 2), x2, 2, 13, 13, 0, 0, w, h);
    InBoxAppend(PulsarAt(x1, 2), PulsarAt(x2, 2), 0, 0, w, h);
  }

  lemma TwoPulsarsInBox(w: nat, h: nat)
    requires w >= 29 && h >= 15
    ensures InBox(PulsarAt(2, 2) + PulsarAt(w / 2 + 2, 2), 0, 0, w, h)
  {
    PulsarPairInBox(2, w / 2 + 2, w, h);
  }

  /** From 29 columns and 15 rows on, both pulsars lie inside the grid. */
  lemma TwoPulsarLayoutFits(w: nat, h: nat)
    requires w >= 29 && h >= 15
    ensures InBox(TwoPulsarLayout(w), 0, 0, w, h)
  {
    TwoPulsarsInBox(w, h);
  }

  /** Below 26 columns the second pulsar's anchor is within 12 columns of the
      first, and at 24 columns the two share a cell. */
  lemma TwoPulsarsOverlap()
    ensures exists i, j :: 0 <= i < 48 <= j < 96 && TwoPulsarLayout(24)[i] == TwoPulsarLayout(24)[j]
  {
    PulsarCell(2, 2, Cell(14, 4));
    PulsarCell(14, 2, Cell(14, 4));
    var s := TwoPulsarLayout(24);
    PulsarShape(2, 2);
    PulsarShape(14, 2);
    var i :| 0 <= i < 48 && PulsarAt(2, 2)[i] == Cell(14, 4);
    var j :| 0 <= j < 48 && PulsarAt(14, 2)[j] == Cell(14, 4);
    assert s[i] == s[48 + j];
  }
}
