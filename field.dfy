/**
 * The game field handed to the decision core and the read-only queries a
 * SquareWrapper makes of it (SquareWrapper.py, lines 73-93).
 */
module Fields {
  import opened Optional
  import opened Squares
  import opened Neighbourhood

  /** Rows of squares, as the `field` argument of update_field. */
  type Field = seq<seq<Square>>

  /** At least one row, a non-empty first row, and all rows equally long. */
  predicate IsRectangular(field: Field) {
    |field| > 0 && |field[0]| > 0 && forall i :: 0 <= i < |field| ==> |field[i]| == |field[0]|
  }

  predicate InField(field: Field, p: Coord) {
    0 <= p.row < |field| && 0 <= p.col < |field[p.row]|
  }

  function At(field: Field, p: Coord): Square
    requires InField(field, p)
  {
    field[p.row][p.col]
  }

  /** All positions of the field, the keys of `wrapped_squares`. */
  function Cells(field: Field): (cells: set<Coord>)
    ensures forall p :: p in cells <==> InField(field, p)
  {
    set r, c | 0 <= r < |field| && 0 <= c < |field[r]| :: Coord(r, c)
  }

  /**
   * The neighbours a wrapper is linked to by map_wrappers. Every affected
   * coordinate is a key of `wrapped_squares`, so the lookup at
   * SquareWrapper.py line 58 never fails on a rectangular field.
   */
  function Neighbours(field: Field, p: Coord): (ns: seq<Coord>)
    requires IsRectangular(field) && InField(field, p)
    ensures forall q {:trigger q in ns} :: q in ns <==> InField(field, q) && Adjacent(q, p)
    ensures NoDuplicates(ns)
  {
    AffectedSquares(p.row, p.col, |field|, |field[0]|)
  }

  /** The positions of `ps` whose square is unchecked, in the order of `ps`. */
  function UncheckedOf(field: Field, ps: seq<Coord>): (r: seq<Coord>)
    requires forall q :: q in ps ==> InField(field, q)
    ensures forall q :: q in r <==> q in ps && At(field, q).isUnchecked
    ensures NoDuplicates(ps) ==> NoDuplicates(r)
    ensures |r| <= |ps|
  {
    if ps == [] then []
    else
      var q := ps[|ps| - 1];
      UncheckedOf(field, ps[..|ps| - 1]) + (if At(field, q).isUnchecked then [q] else [])
  }

  /**
   * The neighbour table of the wrappers: for each position, the
   * coordinates its wrapper was given at construction (the
   * affected_square_coordinates), which map_wrappers links to wrappers.
   */
  type Links = map<Coord, seq<Coord>>

  /** `links` gives every position of the field each of its neighbours exactly once. */
  ghost predicate LinksOk(field: Field, links: Links) {
    && IsRectangular(field)
    && forall p :: InField(field, p) ==>
         && p in links && NoDuplicates(links[p])
         && forall q {:trigger q in links[p]} :: q in links[p] <==> InField(field, q) && Adjacent(q, p)
  }

  /** The table update_field builds: Neighbours of every position. */
  function LinksOf(field: Field): (links: Links)
    requires IsRectangular(field)
    ensures LinksOk(field, links)
  {
    map p | p in Cells(field) :: Neighbours(field, p)
  }

  /** extract_unchecked_neighbours: the unchecked neighbours in neighbour order. */
  function UncheckedNeighbours(field: Field, links: Links, p: Coord): (r: seq<Coord>)
    requires LinksOk(field, links) && InField(field, p)
    ensures forall q :: q in r <==> InField(field, q) && Adjacent(q, p) && At(field, q).isUnchecked
    ensures NoDuplicates(r)
  {
    UncheckedOf(field, links[p])
  }

  /** Every square has at most eight neighbours. */
  lemma LinksAtMostEight(field: Field, links: Links, p: Coord)
    requires LinksOk(field, links) && InField(field, p)
    ensures |links[p]| <= 8
  {
    var ns := Neighbours(field, p);
    assert Elems(links[p]) == Elems(ns);
    DistinctCount(links[p]);
    DistinctCount(ns);
    AffectedSquaresCount(p.row, p.col, |field|, |field[0]|);
  }

  /**
   * is_value_completely_assigned: the square shows a positive number equal
   * to its count of unchecked neighbours (already deduced bombs included),
   * so all of them hold bombs.
   */
  predicate IsValueCompletelyAssigned(field: Field, links: Links, p: Coord)
    requires LinksOk(field, links) && InField(field, p)
  {
    var v := At(field, p).value;
    v.Some? && v.value > 0 && |UncheckedNeighbours(field, links, p)| == v.value
  }

  /**
   * is_value_completely_assigned holds exactly when the square shows a
   * positive number equal to the count of unchecked squares around it.
   */
  lemma CompletelyAssignedCount(field: Field, links: Links, p: Coord)
    requires LinksOk(field, links) && InField(field, p)
    ensures IsValueCompletelyAssigned(field, links, p) <==>
      && At(field, p).value.Some? && At(field, p).value.value > 0
      && |set q | q in Cells(field) && Adjacent(q, p) && At(field, q).isUnchecked| == At(field, p).value.value
  {
    var us := UncheckedNeighbours(field, links, p);
    assert Elems(us) == set q | q in Cells(field) && Adjacent(q, p) && At(field, q).isUnchecked;
    DistinctCount(us);
  }

  /** The positions of row `r`, left to right. */
  function Row(r: int, cols: nat): (s: seq<Coord>)
    ensures |s| == cols
    ensures forall c :: 0 <= c < cols ==> s[c] == Coord(r, c)
  {
    seq(cols, c requires 0 <= c < cols => Coord(r, c))
  }

  /** The first `rows` rows in row-major order: the iteration order of `wrapped_squares`. */
  function RowMajor(rows: nat, cols: nat): (s: seq<Coord>)
    ensures forall p :: p in s <==> InBounds(p, rows, cols)
    ensures NoDuplicates(s)
  {
    if rows == 0 then []
    else
      var earlier := RowMajor(rows - 1, cols);
      assert forall p :: p in earlier ==> p.row < rows - 1;
      earlier + Row(rows - 1, cols)
  }

  /** All positions of a rectangular field in row-major order. */
  function Scan(field: Field): (s: seq<Coord>)
    requires IsRectangular(field)
    ensures forall p :: p in s <==> InField(field, p)
    ensures NoDuplicates(s)
  {
    RowMajor(|field|, |field[0]|)
  }

  /** Each position of `s` comes strictly before the later ones in row-major order. */
  predicate Ordered(s: seq<Coord>) {
    forall i, j :: 0 <= i < j < |s| ==> ScannedBefore(s[i], s[j])
  }

  /** RowMajor lists the positions in strictly increasing row-major order. */
  lemma {:induction false} RowMajorOrdered(rows: nat, cols: nat)
    ensures Ordered(RowMajor(rows, cols))
  {
    if rows > 0 {
      var earlier := RowMajor(rows - 1, cols);
      var last := Row(rows - 1, cols);
      RowMajorOrdered(rows - 1, cols);
      var s := earlier + last;
      assert RowMajor(rows, cols) == s;
      forall i, j | 0 <= i < j < |s|
        ensures ScannedBefore(s[i], s[j])
      {
        if j >= |earlier| {
          assert s[j] == last[j - |earlier|];
          if i < |earlier| {
            assert s[i] == earlier[i] && earlier[i] in earlier;
            assert s[i].row < rows - 1 == s[j].row;
            assert ScannedBefore(s[i], s[j]);
          } else {
            assert s[i] == last[i - |earlier|] == Coord(rows - 1, i - |earlier|);
            assert s[j] == Coord(rows - 1, j - |earlier|);
            assert ScannedBefore(s[i], s[j]);
          }
        } else {
          assert s[i] == earlier[i] && s[j] == earlier[j];
          assert 0 <= i < j < |earlier|;
          assert ScannedBefore(earlier[i], earlier[j]);
        }
      }
    }
  }

  /** Scan visits the positions in strictly increasing row-major order. */
  lemma ScanOrdered(field: Field)
    requires IsRectangular(field)
    ensures Ordered(Scan(field))
  {
    RowMajorOrdered(|field|, |field[0]|);
    assert Scan(field) == RowMajor(|field|, |field[0]|);
  }

  /** p comes before q when the field is scanned row by row. */
  predicate ScannedBefore(p: Coord, q: Coord) {
    p.row < q.row || (p.row == q.row && p.col < q.col)
  }
}
