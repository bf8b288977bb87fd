/**
 * The SquareWrapper objects of one update_field call (SquareWrapper.py and
 * DecisionMaker.py, lines 76-140), held index-based: one WrapperGrid holds
 * the mutable attributes of every wrapper in maps keyed by the wrapper's
 * coordinates, and a wrapper's neighbours are its entry in the link table
 * `links` that BuildLinks fills, in the order of DecisionMaker.py lines
 * 94-114. A
 * wrapper method that updates attributes of a neighbouring wrapper is a
 * method of the grid that takes the coordinates of both.
 *
 * Every method is proved to leave the attributes as the matching function
 * of module Propagation or Scoring says, and module PropagationFacts
 * proves what those functions compute.
 */
module SquareWrappers {
  import opened Optional
  import opened Neighbourhood
  import opened Fields
  import opened Propagation
  import opened Scoring

  /** `p` is a square of the field that the first loop of update_field visits before (r, c). */
  ghost predicate VisitedBefore(field: Field, p: Coord, r: int, c: int) {
    InField(field, p) && ScannedBefore(p, Coord(r, c))
  }

  /** `links` holds the affected squares of exactly the squares visited before (r, c). */
  ghost predicate LinkedBefore(field: Field, links: Links, r: int, c: int)
    requires IsRectangular(field)
  {
    && (forall p :: p in links <==> VisitedBefore(field, p, r, c))
    && (forall p :: p in links ==> links[p] == Neighbours(field, p))
  }

  /**
   * The first loop of update_field (DecisionMaker.py lines 77-119): row by
   * row, the affected squares of every square (lines 83-114), each handed
   * to the wrapper of that square and, through map_wrappers, turned into
   * its neighbours (SquareWrapper.py lines 49-58).
   */
  method BuildLinks(field: Field) returns (links: Links)
    requires IsRectangular(field)
    ensures links == LinksOf(field)
  {
    links := map[];
    var r := 0;
    while r < |field|
      invariant 0 <= r <= |field|
      invariant LinkedBefore(field, links, r, 0)
    {
      var c := 0;
      while c < |field[r]|
        invariant 0 <= c <= |field[r]|
        invariant LinkedBefore(field, links, r, c)
      {
        links := links[Coord(r, c) := AffectedSquares(r, c, |field|, |field[0]|)];
        c := c + 1;
      }
      assert forall p :: VisitedBefore(field, p, r, c) <==> VisitedBefore(field, p, r + 1, 0);
      r := r + 1;
    }
  }

  /**
   * The filter of SquareWrapper.py line 117: the squares of `neighbours`, in
   * order, that are unchecked and not among `bombs`.
   */
  method SafeNeighbours(field: Field, neighbours: seq<Coord>, bombs: seq<Coord>) returns (appended: seq<Coord>)
    requires forall q :: q in neighbours ==> InField(field, q)
    ensures appended == SafeAmong(field, neighbours, bombs)
  {
    appended := [];
    for i := 0 to |neighbours|
      invariant appended == SafeAmong(field, neighbours[..i], bombs)
    {
      assert neighbours[..i + 1][..i] == neighbours[..i];
      if neighbours[i] !in bombs && At(field, neighbours[i]).isUnchecked {
        appended := appended + [neighbours[i]];
      }
    }
    assert neighbours[..|neighbours|] == neighbours;
  }

  class WrapperGrid {
    /** The squares being wrapped; never changed. */
    const field: Field
    /** The neighbours of every wrapper, as built by update_field; never changed. */
    const links: Links
    /** effective_value of each wrapper */
    var effective: map<Coord, Option<int>>
    /** The wrappers whose has_reduced_neighbours flag is set. */
    var reduced: set<Coord>
    /** adjacent_bombs of each wrapper, in append order */
    var adjacentBombs: map<Coord, seq<Coord>>
    /** Everything appended to adjacent_safe_squares during this call, in append order. */
    var safe: seq<Coord>
    /** score of each wrapper */
    var score: map<Coord, real>

    function State(): PassState
      reads this
    {
      PassState(effective, reduced, adjacentBombs, safe)
    }

    ghost predicate Valid()
      reads this
    {
      Wf(field, links, State()) && forall p :: InField(field, p) ==> p in score
    }

    /**
     * The wrappers of update_field's first loop (DecisionMaker.py lines
     * 76-119), each set up by SquareWrapper's constructor (SquareWrapper.py
     * lines 37-47, with the class default score of line 23): effective_value
     * = square.value, no bombs, not marked, score 0.
     */
    constructor (field: Field)
      requires IsRectangular(field)
      ensures this.field == field && links == LinksOf(field) && Valid()
      ensures State() == InitialState(field)
      ensures forall p :: InField(field, p) ==> score[p] == 0.0
    {
      this.field := field;
      var lk := BuildLinks(field);
      links := lk;
      var initial := InitialState(field);
      effective := initial.effective;
      reduced := initial.reduced;
      adjacentBombs := initial.adjacentBombs;
      safe := initial.safe;
      score := map p | p in Cells(field) :: 0.0;
    }

    /**
     * reduce_effective_value of wrapper `cell`, told by its neighbour `bomb`
     * that `bomb` is a bomb (SquareWrapper.py lines 104-118).
     */
    method ReduceEffectiveValue(cell: Coord, bomb: Coord)
      requires Valid() && InField(field, cell)
      modifies this
      ensures Valid()
      ensures State() == Propagation.ReduceEffectiveValue(field, links, old(State()), cell, bomb)
      ensures score == old(score)
    {
      var bombs := adjacentBombs[cell] + [bomb];
      adjacentBombs := adjacentBombs[cell := bombs];
      if effective[cell].Some? {
        var e := effective[cell].value - 1;
        effective := effective[cell := Some(e)];
        if e == 0 {
          var appended := SafeNeighbours(field, links[cell], bombs);
          safe := safe + appended;
        }
      }
    }

    /** reduce_neighbours of wrapper `bomb` (SquareWrapper.py lines 95-102). */
    method ReduceNeighbours(bomb: Coord)
      requires Valid() && InField(field, bomb)
      modifies this
      ensures Valid()
      ensures State() == Propagation.ReduceNeighbours(field, links, old(State()), bomb)
      ensures score == old(score)
    {
      var ns := links[bomb];
      assert forall q :: q in ns ==> InField(field, q);
      for i := 0 to |ns|
        invariant Valid() && score == old(score)
        invariant State() == ReduceEach(field, links, old(State()), ns[..i], bomb)
      {
        assert ns[..i + 1][..i] == ns[..i];
        ReduceEffectiveValue(ns[i], bomb);
      }
      assert ns[..|ns|] == ns;
    }

    /** update_effective_value of wrapper `cell` (SquareWrapper.py lines 60-71). */
    method UpdateEffectiveValue(cell: Coord)
      requires Valid() && InField(field, cell)
      modifies this
      ensures Valid()
      ensures State() == Propagation.UpdateEffectiveValue(field, links, old(State()), cell)
      ensures score == old(score)
    {
      if IsValueCompletelyAssigned(field, links, cell) {
        var us := UncheckedNeighbours(field, links, cell);
        for i := 0 to |us|
          invariant Valid() && score == old(score)
          invariant State() == MarkEach(field, links, old(State()), us[..i])
        {
          assert us[..i + 1][..i] == us[..i];
          var w := us[i];
          if w !in reduced {
            reduced := reduced + {w};
            ReduceNeighbours(w);
          }
        }
        assert us[..|us|] == us;
      }
    }

    /**
     * update_score of wrapper `cell` (SquareWrapper.py lines 120-140): the
     * same amount is added to the score of every unchecked neighbour, and
     * no other score and no other attribute changes.
     */
    method UpdateScore(cell: Coord)
      requires Valid() && InField(field, cell) && CanScore(field, links, effective, cell)
      modifies this
      ensures Valid() && State() == old(State())
      ensures forall p :: p in score <==> p in old(score)
      ensures forall p :: p in score ==> score[p] == old(score)[p] + Contribution(field, links, effective, cell, p)
    {
      var neighbours := UncheckedNeighbours(field, links, cell);
      var amount: real;
      if effective[cell].None? {
        amount := 1.0;
      } else if effective[cell].value == 0 {
        amount := 0.0;
      } else {
        amount := effective[cell].value as real / |neighbours| as real;
      }
      assert amount == ScoreForEach(effective[cell], |neighbours|);
      var scores := score;
      for i := 0 to |neighbours|
        invariant forall p :: p in scores <==> p in score
        invariant forall p :: p in scores ==> scores[p] == score[p] + (if p in neighbours[..i] then amount else 0.0)
      {
        assert neighbours[..i + 1] == neighbours[..i] + [neighbours[i]];
        var w := neighbours[i];
        scores := scores[w := scores[w] + amount];
      }
      assert neighbours[..|neighbours|] == neighbours;
      score := scores;
    }

    /** The bomb-marking loop of update_field (DecisionMaker.py lines 126-128), in row-major order. */
    method UpdateEffectiveValues()
      requires Valid()
      modifies this
      ensures Valid()
      ensures State() == UpdateEach(field, links, old(State()), Scan(field))
      ensures score == old(score)
    {
      var ps := Scan(field);
      for i := 0 to |ps|
        invariant Valid() && score == old(score)
        invariant State() == UpdateEach(field, links, old(State()), ps[..i])
      {
        assert ps[..i + 1][..i] == ps[..i];
        UpdateEffectiveValue(ps[i]);
      }
      assert ps[..|ps|] == ps;
    }

    /**
     * The safe-square collection of update_field (DecisionMaker.py lines
     * 131-134): the safe squares of every wrapper, as a set. Every wrapper
     * shares the one list, so the set holds everything appended.
     */
    method CollectSafeSquares() returns (safeSquares: set<Coord>)
      requires Valid()
      ensures safeSquares == Elems(safe)
    {
      var ps := Scan(field);
      assert Coord(0, 0) in ps;
      safeSquares := {};
      for i := 0 to |ps|
        invariant safeSquares == if i == 0 then {} else Elems(safe)
      {
        var collected := safeSquares;
        for j := 0 to |safe|
          invariant collected == (if i == 0 then {} else Elems(safe)) + Elems(safe[..j])
        {
          assert safe[..j + 1] == safe[..j] + [safe[j]];
          collected := collected + {safe[j]};
        }
        assert safe[..|safe|] == safe;
        safeSquares := collected;
      }
    }

    /**
     * The scoring loop of update_field (DecisionMaker.py lines 139-140):
     * update_score on every wrapper, row by row.
     */
    method UpdateScores()
      requires Valid() && ScoresDefined(field, links, effective)
      modifies this
      ensures Valid() && State() == old(State())
      ensures forall p :: InField(field, p) ==> score[p] == old(score)[p] + ScoreSum(field, links, effective, Scan(field), p)
    {
      var ps := Scan(field);
      for i := 0 to |ps|
        invariant Valid() && State() == old(State())
        invariant forall p :: InField(field, p) ==> score[p] == old(score)[p] + ScoreSum(field, links, effective, ps[..i], p)
      {
        assert ps[..i + 1][..i] == ps[..i];
        UpdateScore(ps[i]);
      }
      assert ps[..|ps|] == ps;
    }
  }
}
