/** Cells, orderings of cell sequences, and cells read off a picture of
    '#' and '.' rows. */
module Cells {

  /** A coordinate pair as handed to the cell-activation primitive. */
  datatype Cell = Cell(x: int, y: int)

  /** Row-major order: an earlier row, or the same row and an earlier column. */
  predicate Before(a: Cell, b: Cell) {
    a.y < b.y || (a.y == b.y && a.x < b.x)
  }

  /** The cells appear in strictly increasing row-major order. */
  predicate RowMajor(s: seq<Cell>) {
    forall i, j :: 0 <= i < j < |s| ==> Before(s[i], s[j])
  }

  /** No cell is activated twice. */
  predicate Distinct(s: seq<Cell>) {
    forall i, j :: 0 <= i < j < |s| ==> s[i] != s[j]
  }

  /** Every cell lies in the w-by-h box whose top-left corner is (x, y). */
  predicate InBox(s: seq<Cell>, x: int, y: int, w: int, h: int) {
    forall c :: c in s ==> x <= c.x < x + w && y <= c.y < y + h
  }

  /** The cells of s, each moved by (x, y). */
  function Shift(s: seq<Cell>, x: int, y: int): seq<Cell> {
    seq(|s|, i requires 0 <= i < |s| => Cell(s[i].x + x, s[i].y + y))
  }

  /** The columns marked '#' in row[i..], left to right, as cells on row y. */
  function RowFrom(row: string, i: nat, y: int): seq<Cell>
    decreases |row| - i
  {
    if i >= |row| then []
    else (if row[i] == '#' then [Cell(i, y)] else []) + RowFrom(row, i + 1, y)
  }

  /** The cells marked '#' in rows[k..], row by row, left to right. */
  function PictureFrom(rows: seq<string>, k: nat): seq<Cell>
    decreases |rows| - k
  {
    if k >= |rows| then [] else RowFrom(rows[k], 0, k) + PictureFrom(rows, k + 1)
  }

  /** All cells marked '#' in a picture, relative to its top-left corner, in
      reading order. */
  function Picture(rows: seq<string>): seq<Cell> {
    PictureFrom(rows, 0)
  }

  /** Cells in row-major order are pairwise distinct. */
  lemma RowMajorDistinct(s: seq<Cell>)
    requires RowMajor(s)
    ensures Distinct(s)
  {
    forall i, j | 0 <= i < j < |s| ensures s[i] != s[j] {
      assert Before(s[i], s[j]);
    }
  }

  lemma {:induction false} RowMajorAppend(a: seq<Cell>, b: seq<Cell>)
    requires RowMajor(a) && RowMajor(b)
    requires forall i, j :: 0 <= i < |a| && 0 <= j < |b| ==> Before(a[i], b[j])
    ensures RowMajor(a + b)
  {
    var s := a + b;
    forall i, j | 0 <= i < j < |s| ensures Before(s[i], s[j]) {
      if j < |a| {
        assert s[i] == a[i] && s[j] == a[j];
      } else if i < |a| {
        assert s[i] == a[i] && s[j] == b[j - |a|];
      } else {
        assert s[i] == b[i - |a|] && s[j] == b[j - |a|];
      }
    }
  }

  /** Stacking a row of cells on top of cells that all lie on later rows keeps
      row-major order. */
  lemma StackRow(row: seq<Cell>, r: int, rest: seq<Cell>)
    requires RowMajor(row) && forall c :: c in row ==> c.y == r
    requires RowMajor(rest) && forall c :: c in rest ==> c.y > r
    ensures RowMajor(row + rest)
    ensures forall c :: c in row + rest ==> c.y >= r
  {
    forall i, j | 0 <= i < |row| && 0 <= j < |rest| ensures Before(row[i], rest[j]) {
      assert row[i] in row && rest[j] in rest;
    }
    RowMajorAppend(row, rest);
  }

  /** Joining two duplicate-free sequences with no cell in common gives a
      duplicate-free sequence. */
  lemma {:induction false} DistinctAppend(a: seq<Cell>, b: seq<Cell>)
    requires Distinct(a) && Distinct(b)
    requires forall c :: c in a ==> c !in b
    ensures Distinct(a + b)
  {
    var s := a + b;
    forall i, j | 0 <= i < j < |s| ensures s[i] != s[j] {
      if j < |a| {
        assert s[i] == a[i] && s[j] == a[j];
      } else if i < |a| {
        assert s[i] == a[i] && s[j] == b[j - |a|];
        assert a[i] in a && b[j - |a|] in b;
      } else {
        assert s[i] == b[i - |a|] && s[j] == b[j - |a|];
      }
    }
  }

  /** Two sequences inside a box join into one inside it. */
  lemma InBoxAppend(a: seq<Cell>, b: seq<Cell>, x: int, y: int, w: int, h: int)
    requires InBox(a, x, y, w, h) && InBox(b, x, y, w, h)
    ensures InBox(a + b, x, y, w, h)
  {
    forall c | c in a + b ensures x <= c.x < x + w && y <= c.y < y + h {
      assert c in a || c in b;
    }
  }

  /** A sequence inside a box is inside every box that contains it. */
  lemma InBoxWiden(s: seq<Cell>, x: int, y: int, w: int, h: int, x': int, y': int, w': int, h': int)
    requires InBox(s, x, y, w, h)
    requires x' <= x && x + w <= x' + w' && y' <= y && y + h <= y' + h'
    ensures InBox(s, x', y', w', h')
  {
  }

  /** Bookkeeping for a loop that appends the next part of its remaining
      work to its log: the log plus what remains is unchanged. */
  lemma Consume(done: seq<Cell>, next: seq<Cell>, rest: seq<Cell>, target: seq<Cell>)
    requires done + (next + rest) == target
    ensures (done + next) + rest == target
  {
  }
}
