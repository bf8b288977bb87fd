/**
 * Grid coordinates and the list of affected squares that update_field
 * computes for every position (DecisionMaker.py, lines 83-114).
 */
module Neighbourhood {

  /** A (row, column) pair, as the `coordinates` tuples of update_field. */
  datatype Coord = Coord(row: int, col: int)

  predicate NoDuplicates<T(==)>(s: seq<T>) {
    forall i, j :: 0 <= i < j < |s| ==> s[i] != s[j]
  }

  function Elems<T>(s: seq<T>): set<T> {
    set x | x in s
  }

  /** A sequence without repeats has as many distinct elements as entries. */
  lemma {:induction false} DistinctCount<T>(s: seq<T>)
    requires NoDuplicates(s)
    ensures |Elems(s)| == |s|
  {
    if s != [] {
      var init := s[..|s| - 1];
      DistinctCount(init);
      assert Elems(s) == Elems(init) + {s[|s| - 1]} by {
        assert s == init + [s[|s| - 1]];
      }
      assert s[|s| - 1] !in init;
    }
  }

  predicate InBounds(p: Coord, rows: int, cols: int) {
    0 <= p.row < rows && 0 <= p.col < cols
  }

  /** p and q are different squares of the same 3×3 block. */
  predicate Adjacent(p: Coord, q: Coord) {
    p != q && -1 <= p.row - q.row <= 1 && -1 <= p.col - q.col <= 1
  }

  /** Two sequences without duplicates and without common elements concatenate to one without duplicates. */
  lemma NoDuplicatesConcat<T>(a: seq<T>, b: seq<T>)
    requires NoDuplicates(a) && NoDuplicates(b)
    requires forall x :: x in a ==> x !in b
    ensures NoDuplicates(a + b)
  {
    forall i, j | 0 <= i < j < |a + b|
      ensures (a + b)[i] != (a + b)[j]
    {
      if i < |a| && j >= |a| {
        assert (a + b)[i] in a && (a + b)[j] == b[j - |a|];
      }
    }
  }

  /**
   * One column of the 3×3 block around row `row`: the squares of column `x`
   * in the row above, in row `row` (only when `withCentre`) and in the row
   * below, each only when its row index passes the bounds check, top to
   * bottom.
   */
  function BlockColumn(x: int, row: int, rows: int, withCentre: bool): (r: seq<Coord>)
    requires 0 <= row < rows
    ensures forall p {:trigger p in r} :: p in r <==> p.col == x && 0 <= p.row < rows && -1 <= p.row - row <= 1 && (withCentre || p.row != row)
    ensures |r| == Span(row, rows) - (if withCentre then 0 else 1)
    ensures NoDuplicates(r)
  {
    var topY, centerY, bottomY := row - 1, row, row + 1;
    (if topY >= 0 then [Coord(topY, x)] else [])
    + (if withCentre && centerY >= 0 then [Coord(centerY, x)] else [])
    + (if bottomY < rows then [Coord(bottomY, x)] else [])
  }

  /**
   * The affected squares of (row, col), in the order the source appends
   * them: the left column top to bottom, then above and below, then the
   * right column top to bottom. The checks `center_y >= 0` and
   * `center_x >= 0` always hold and are kept as in the source.
   */
  function AffectedSquares(row: int, col: int, rows: int, cols: int): (r: seq<Coord>)
    requires 0 <= row < rows && 0 <= col < cols
    ensures forall p {:trigger p in r} :: p in r <==> InBounds(p, rows, cols) && Adjacent(p, Coord(row, col))
    ensures NoDuplicates(r)
  {
    var leftX, centerX, rightX := col - 1, col, col + 1;
    var left := if leftX >= 0 then BlockColumn(leftX, row, rows, true) else [];
    var middle := if centerX >= 0 then BlockColumn(centerX, row, rows, false) else [];
    var right := if rightX < cols then BlockColumn(rightX, row, rows, true) else [];
    NoDuplicatesConcat(left, middle);
    NoDuplicatesConcat(left + middle, right);
    left + middle + right
  }

  /** Number of rows (or columns) of the 3×3 block that lie inside the grid. */
  function Span(i: int, n: int): int {
    (if i > 0 then 1 else 0) + 1 + (if i < n - 1 then 1 else 0)
  }

  /**
   * A square has 3 affected squares in a corner, 5 on an edge and 8
   * inside the grid (for a grid of at least 2×2); in general the in-grid
   * part of its 3×3 block less itself.
   */
  lemma AffectedSquaresCount(row: int, col: int, rows: int, cols: int)
    requires 0 <= row < rows && 0 <= col < cols
    ensures |AffectedSquares(row, col, rows, cols)| == Span(row, rows) * Span(col, cols) - 1
    ensures rows >= 2 && cols >= 2 ==>
      var onRowEdge := row == 0 || row == rows - 1;
      var onColEdge := col == 0 || col == cols - 1;
      |AffectedSquares(row, col, rows, cols)| ==
        if onRowEdge && onColEdge then 3 else if onRowEdge || onColEdge then 5 else 8
  {
  }

  /** Adjacency within bounds is symmetric, so bombs and the squares they reduce are mutual neighbours. */
  lemma AffectedSquaresSymmetric(p: Coord, q: Coord, rows: int, cols: int)
    requires InBounds(p, rows, cols) && InBounds(q, rows, cols)
    ensures p in AffectedSquares(q.row, q.col, rows, cols) <==> q in AffectedSquares(p.row, p.col, rows, cols)
  {
  }
}
