/**
 * The risk score of update_score (SquareWrapper.py, lines 120-140) as
 * functions of the effective values: every wrapper adds one amount to the
 * score of each of its unchecked neighbours, and DecisionMaker.py, lines
 * 139-140, lets every wrapper of the field do so once, in row-major order.
 * Scores are exact reals.
 */
module Scoring {
  import opened Optional
  import opened Neighbourhood
  import opened Fields
  import opened Propagation
  import opened PropagationFacts

  /**
   * Nothing is divided by zero at SquareWrapper.py line 137: a wrapper whose
   * effective value is neither None nor 0 has an unchecked neighbour.
   */
  predicate CanScore(field: Field, links: Links, eff: map<Coord, Option<int>>, w: Coord)
    requires LinksOk(field, links) && InField(field, w) && w in eff
  {
    eff[w].Some? && eff[w].value != 0 ==> |UncheckedNeighbours(field, links, w)| > 0
  }

  ghost predicate ScoresDefined(field: Field, links: Links, eff: map<Coord, Option<int>>)
    requires LinksOk(field, links)
  {
    forall w :: InField(field, w) ==> w in eff && CanScore(field, links, eff, w)
  }

  /**
   * score_for_each: 1 for a wrapper whose effective value is None, 0 for
   * one whose effective value is 0, and otherwise the effective value shared
   * out evenly, so that the unchecked neighbours receive exactly the
   * effective value in total.
   */
  function ScoreForEach(e: Option<int>, unchecked: nat): (a: real)
    requires e.Some? && e.value != 0 ==> unchecked > 0
    ensures e.None? ==> a == 1.0
    ensures e == Some(0) ==> a == 0.0
  {
    match e
    case None => 1.0
    case Some(v) => if v == 0 then 0.0 else v as real / unchecked as real
  }

  /** What update_score of wrapper `w` adds to the score of `x`. */
  function Contribution(field: Field, links: Links, eff: map<Coord, Option<int>>, w: Coord, x: Coord): real
    requires LinksOk(field, links) && InField(field, w) && w in eff && CanScore(field, links, eff, w)
  {
    if InField(field, x) && Adjacent(x, w) && At(field, x).isUnchecked
    then ScoreForEach(eff[w], |UncheckedNeighbours(field, links, w)|)
    else 0.0
  }

  /** The score of `x` after update_score has run on the wrappers of `ws` in turn, from 0. */
  function ScoreSum(field: Field, links: Links, eff: map<Coord, Option<int>>, ws: seq<Coord>, x: Coord): real
    requires LinksOk(field, links) && ScoresDefined(field, links, eff)
    requires forall w :: w in ws ==> InField(field, w)
  {
    if ws == [] then 0.0
    else ScoreSum(field, links, eff, ws[..|ws| - 1], x) + Contribution(field, links, eff, ws[|ws| - 1], x)
  }

  /** The score of every position at the end of the scoring loop of update_field. */
  ghost function FinalScores(field: Field, links: Links): (scores: map<Coord, real>)
    requires LinksOk(field, links) && ScoresDefined(field, links, Propagated(field, links).effective)
    ensures forall p :: p in scores <==> InField(field, p)
  {
    map p | p in Cells(field) :: ScoreSum(field, links, Propagated(field, links).effective, Scan(field), p)
  }

  /** A checked square never receives any score. */
  lemma {:induction false} CheckedScoresZero(field: Field, links: Links, eff: map<Coord, Option<int>>, ws: seq<Coord>, x: Coord)
    requires LinksOk(field, links) && ScoresDefined(field, links, eff)
    requires forall w :: w in ws ==> InField(field, w)
    requires InField(field, x) && !At(field, x).isUnchecked
    ensures ScoreSum(field, links, eff, ws, x) == 0.0
  {
    if ws != [] {
      CheckedScoresZero(field, links, eff, ws[..|ws| - 1], x);
    }
  }

  /** Every amount handed out lies between 0 and 1: each effective value lies between 0 and its count of unchecked neighbours. */
  ghost predicate AmountsAtMostOne(field: Field, links: Links, eff: map<Coord, Option<int>>)
    requires LinksOk(field, links)
  {
    forall w :: InField(field, w) && w in eff && eff[w].Some? ==>
      0 <= eff[w].value <= |UncheckedNeighbours(field, links, w)|
  }

  /** The wrappers of `ws` next to `x`. */
  function Contributors(ws: seq<Coord>, x: Coord): set<Coord> {
    set w | w in ws && Adjacent(w, x)
  }

  /** A revealed wrapper with a nonzero effective value hands out exactly that value in total. */
  lemma ScoreForEachDistributes(e: int, unchecked: nat)
    requires e != 0 && unchecked > 0
    ensures ScoreForEach(Some(e), unchecked) * unchecked as real == e as real
  {
  }

  /** A share of at most `n` among `n` is at most 1. */
  lemma ShareAtMostOne(e: int, n: int)
    requires 0 < e <= n
    ensures 0.0 < e as real / n as real <= 1.0
  {
    var q := e as real / n as real;
    assert q * n as real == e as real;
    assert (q - 1.0) * n as real == (e - n) as real;
  }

  lemma ContributionAtMostOne(field: Field, links: Links, eff: map<Coord, Option<int>>, w: Coord, x: Coord)
    requires LinksOk(field, links) && ScoresDefined(field, links, eff) && InField(field, w)
    requires eff[w].Some? ==> 0 <= eff[w].value <= |UncheckedNeighbours(field, links, w)|
    ensures 0.0 <= Contribution(field, links, eff, w, x) <= 1.0
    ensures !Adjacent(w, x) ==> Contribution(field, links, eff, w, x) == 0.0
  {
    if InField(field, x) && Adjacent(x, w) && At(field, x).isUnchecked && eff[w].Some? && eff[w].value != 0 {
      ShareAtMostOne(eff[w].value, |UncheckedNeighbours(field, links, w)|);
    }
  }

  lemma {:induction false} ScoreSumBounds(field: Field, links: Links, eff: map<Coord, Option<int>>, ws: seq<Coord>, x: Coord)
    requires LinksOk(field, links) && ScoresDefined(field, links, eff) && AmountsAtMostOne(field, links, eff)
    requires forall w :: w in ws ==> InField(field, w)
    requires NoDuplicates(ws)
    ensures 0.0 <= ScoreSum(field, links, eff, ws, x) <= |Contributors(ws, x)| as real
  {
    if ws != [] {
      var init := ws[..|ws| - 1];
      var w := ws[|ws| - 1];
      ScoreSumBounds(field, links, eff, init, x);
      assert ws == init + [w];
      ContributionAtMostOne(field, links, eff, w, x);
      var before := ScoreSum(field, links, eff, init, x);
      var share := Contribution(field, links, eff, w, x);
      assert ScoreSum(field, links, eff, ws, x) == before + share;
      if Adjacent(w, x) {
        assert w !in init;
        assert Contributors(ws, x) == Contributors(init, x) + {w};
        assert |Contributors(ws, x)| == |Contributors(init, x)| + 1;
      } else {
        assert Contributors(ws, x) == Contributors(init, x);
      }
    }
  }

  /**
   * When every effective value lies between 0 and its count of unchecked
   * neighbours, the final score of every square lies between 0 and 8, as
   * SquareWrapper.py line 22 says.
   */
  lemma ScoreBetweenZeroAndEight(field: Field, links: Links, x: Coord)
    requires LinksOk(field, links) && InField(field, x)
    requires ScoresDefined(field, links, Propagated(field, links).effective)
    requires AmountsAtMostOne(field, links, Propagated(field, links).effective)
    ensures 0.0 <= FinalScores(field, links)[x] <= 8.0
  {
    var ws := Scan(field);
    ScoreSumBounds(field, links, Propagated(field, links).effective, ws, x);
    var ns := links[x];
    assert Contributors(ws, x) <= Elems(ns);
    SubsetCount(Contributors(ws, x), Elems(ns));
    DistinctCount(ns);
    LinksAtMostEight(field, links, x);
  }

  /** Some neighbour of `w` is unchecked. */
  ghost predicate HasUncheckedNeighbour(field: Field, w: Coord) {
    exists q :: InField(field, q) && Adjacent(q, w) && At(field, q).isUnchecked
  }

  /** A square has no unchecked neighbour exactly when extract_unchecked_neighbours returns nothing. */
  lemma NoUncheckedNeighbours(field: Field, links: Links, w: Coord)
    requires LinksOk(field, links) && InField(field, w)
    ensures |UncheckedNeighbours(field, links, w)| == 0 <==> !HasUncheckedNeighbour(field, w)
  {
    var us := UncheckedNeighbours(field, links, w);
    if |us| > 0 {
      assert us[0] in us;
    }
    if HasUncheckedNeighbour(field, w) {
      var q :| InField(field, q) && Adjacent(q, w) && At(field, q).isUnchecked;
      assert q in us;
    }
  }

  /** After the pass, update_score of `w` divides by zero only if `w` has no unchecked neighbour and shows a nonzero value. */
  lemma CanScoreAfterPass(field: Field, links: Links, w: Coord)
    requires LinksOk(field, links) && InField(field, w)
    ensures w in Propagated(field, links).effective
    ensures CanScore(field, links, Propagated(field, links).effective, w) <==>
      HasUncheckedNeighbour(field, w) || At(field, w).value.None? || At(field, w).value == Some(0)
  {
    var st := Propagated(field, links);
    NoUncheckedNeighbours(field, links, w);
    AdjacentBombsAfterPass(field, links, w);
    if |UncheckedNeighbours(field, links, w)| == 0 {
      PropagatedInv(field, links);
      assert ReducedUnchecked(field, st);
      assert DeducedNeighbours(field, links, w) <= Elems(UncheckedNeighbours(field, links, w));
      assert st.effective[w] == At(field, w).value;
    }
  }

  /**
   * Division by zero in update_score depends on the field alone: it cannot
   * happen after the bomb-marking pass exactly when every square with no
   * unchecked neighbour has no value or value 0.
   */
  ghost predicate NoScoreDivisionByZero(field: Field) {
    forall w :: InField(field, w) && !HasUncheckedNeighbour(field, w) ==>
      At(field, w).value.None? || At(field, w).value == Some(0)
  }

  lemma ScoresDefinedExactly(field: Field, links: Links)
    requires LinksOk(field, links)
    ensures ScoresDefined(field, links, Propagated(field, links).effective) <==> NoScoreDivisionByZero(field)
  {
    forall w | InField(field, w)
      ensures w in Propagated(field, links).effective
      ensures CanScore(field, links, Propagated(field, links).effective, w) <==>
        HasUncheckedNeighbour(field, w) || At(field, w).value.None? || At(field, w).value == Some(0)
    {
      CanScoreAfterPass(field, links, w);
    }
  }
}
