/**
 * The decision policy of DecisionMaker.py: the state machine of
 * decide_next_square over the beginning-of-game and field-updated flags,
 * the FIFO of safe squares and the set of squares already returned, and
 * the update_field call that refills them from one field.
 *
 * Squares are compared by identity, as Square defines no equality. A
 * queued SquareWrapper is reduced to what is read of it later: its square
 * and its coordinates.
 */
module Decisions {
  import opened Optional
  import opened Squares
  import opened Neighbourhood
  import opened Fields
  import opened Propagation
  import opened PropagationFacts
  import opened Scoring
  import opened SquareWrappers

  /** A wrapper handed to the safe-square queue or kept as the best guess. */
  datatype Entry = Entry(square: Square, coordinates: Coord)

  /** The wrapper of position `p`. */
  function EntryAt(field: Field, p: Coord): (e: Entry)
    requires InField(field, p)
    ensures e.square == At(field, p) && e.coordinates == p
  {
    Entry(At(field, p), p)
  }

  /** May be guessed: unchecked and not a deduced bomb (DecisionMaker.py line 151). */
  predicate IsCandidate(field: Field, bombs: set<Coord>, p: Coord) {
    InField(field, p) && At(field, p).isUnchecked && p !in bombs
  }

  /**
   * `best` is the candidate with the lowest score, the first in row-major
   * order among equal scores, and None exactly when there is no candidate.
   */
  ghost predicate IsFirstMinimal(field: Field, bombs: set<Coord>, score: map<Coord, real>, best: Option<Coord>)
    requires forall p :: InField(field, p) ==> p in score
  {
    && (best.None? <==> forall p :: !IsCandidate(field, bombs, p))
    && (best.Some? ==>
          && IsCandidate(field, bombs, best.value)
          && forall q :: IsCandidate(field, bombs, q) ==>
               && score[best.value] <= score[q]
               && (ScannedBefore(q, best.value) ==> score[best.value] < score[q]))
  }

  /**
   * The search for the best valued wrapper (DecisionMaker.py lines
   * 148-154): one pass over the wrappers in row-major order, replacing the
   * current best only by a strictly lower score.
   */
  method BestValued(field: Field, bombs: set<Coord>, score: map<Coord, real>) returns (best: Option<Coord>)
    requires IsRectangular(field) && forall p :: InField(field, p) ==> p in score
    ensures IsFirstMinimal(field, bombs, score, best)
  {
    var ps := Scan(field);
    ScanOrdered(field);
    best := None;
    for i := 0 to |ps|
      invariant best.None? <==> forall k :: 0 <= k < i ==> !IsCandidate(field, bombs, ps[k])
      invariant best.Some? ==>
        && best.value in ps[..i] && IsCandidate(field, bombs, best.value)
        && forall k :: 0 <= k < i && IsCandidate(field, bombs, ps[k]) ==>
             && score[best.value] <= score[ps[k]]
             && (ScannedBefore(ps[k], best.value) ==> score[best.value] < score[ps[k]])
    {
      var p := ps[i];
      if At(field, p).isUnchecked && p !in bombs {
        if best.None? || score[p] < score[best.value] {
          forall k | 0 <= k < i
            ensures ScannedBefore(ps[k], p)
          {
          }
          best := Some(p);
        } else {
          var j :| 0 <= j < i && ps[j] == best.value;
          assert ScannedBefore(ps[j], p);
        }
      }
    }
    forall q | IsCandidate(field, bombs, q)
      ensures exists k :: 0 <= k < |ps| && ps[k] == q
    {
      assert q in ps;
    }
  }

  /** Nothing of the field stands in the way of the first, random move. */
  predicate HasNoEmptyRow(field: Field) {
    |field| > 0 && forall i :: 0 <= i < |field| ==> |field[i]| > 0
  }

  /** The wrappers of the positions of `ps` whose square is not among `returned`. */
  function QueuedFor(field: Field, ps: set<Coord>, returned: set<Square>): set<Entry> {
    set p | p in ps && InField(field, p) && At(field, p) !in returned :: EntryAt(field, p)
  }

  /** Adding one position to `ps` adds at most its own wrapper. */
  lemma QueuedForStep(field: Field, ps: set<Coord>, p: Coord, returned: set<Square>)
    requires InField(field, p)
    ensures QueuedFor(field, ps + {p}, returned) ==
      QueuedFor(field, ps, returned) + (if At(field, p) !in returned then {EntryAt(field, p)} else {})
  {
    var lhs := QueuedFor(field, ps + {p}, returned);
    var rhs := QueuedFor(field, ps, returned) + (if At(field, p) !in returned then {EntryAt(field, p)} else {});
    forall e | e in lhs
      ensures e in rhs
    {
      var q :| q in ps + {p} && InField(field, q) && At(field, q) !in returned && e == EntryAt(field, q);
      if q != p {
        assert e in QueuedFor(field, ps, returned);
      }
    }
  }

  /**
   * What update_field puts in the queue (DecisionMaker.py lines 131-145):
   * the wrapper of every square found safe in the pass, unless that square
   * was returned before.
   */
  ghost function Enqueued(field: Field, returned: set<Square>): set<Entry>
    requires IsRectangular(field)
  {
    QueuedFor(field, Elems(Propagated(field, LinksOf(field)).safe), returned)
  }

  /** The wrapper update_field keeps as its guess, given its coordinates. */
  function EntryOf(field: Field, best: Option<Coord>): Option<Entry>
    requires best.Some? ==> InField(field, best.value)
  {
    match best
    case None => None
    case Some(p) => Some(EntryAt(field, p))
  }

  /** `guess` is the wrapper of the best valued square of the field after the pass. */
  ghost predicate IsBestGuess(field: Field, guess: Option<Entry>)
    requires IsRectangular(field) && ScoresDefined(field, LinksOf(field), Propagated(field, LinksOf(field)).effective)
  {
    && (guess.Some? ==> InField(field, guess.value.coordinates) && guess == EntryOf(field, Some(guess.value.coordinates)))
    && IsFirstMinimal(field, Propagated(field, LinksOf(field)).reduced, FinalScores(field, LinksOf(field)),
                      if guess.None? then None else Some(guess.value.coordinates))
  }

  /**
   * The wrapper pass of update_field (DecisionMaker.py lines 76-140): the
   * wrappers are created, every wrapper updates the effective values, the
   * safe squares are collected and every wrapper spreads its score. The
   * result is the deduced bombs, the safe set and the scores.
   */
  method RunPass(field: Field) returns (bombs: set<Coord>, safeSet: set<Coord>, score: map<Coord, real>)
    requires IsRectangular(field) && NoScoreDivisionByZero(field)
    ensures ScoresDefined(field, LinksOf(field), Propagated(field, LinksOf(field)).effective)
    ensures bombs == Propagated(field, LinksOf(field)).reduced
    ensures safeSet == Elems(Propagated(field, LinksOf(field)).safe)
    ensures forall p :: p in safeSet ==> InField(field, p)
    ensures forall p :: InField(field, p) ==> p in score && score[p] == FinalScores(field, LinksOf(field))[p]
  {
    var grid := new WrapperGrid(field);
    grid.UpdateEffectiveValues();
    assert grid.State() == Propagated(field, LinksOf(field));
    safeSet := grid.CollectSafeSquares();
    SafeAfterPass(field, LinksOf(field));
    ScoresDefinedExactly(field, LinksOf(field));
    grid.UpdateScores();
    bombs := grid.reduced;
    score := grid.score;
  }

  /**
   * The wrappers the enqueue loop of update_field (DecisionMaker.py lines
   * 142-145) puts at the back of the queue, in the order they are put
   * there: each wrapper of the set whose square was not returned before,
   * once. The set is visited in an order the model leaves open.
   */
  method SafeEntries(field: Field, safeSet: set<Coord>, returned: set<Square>) returns (added: seq<Entry>)
    requires forall p :: p in safeSet ==> InField(field, p)
    ensures NoDuplicates(added)
    ensures Elems(added) == QueuedFor(field, safeSet, returned)
  {
    added := [];
    var remaining := safeSet;
    while remaining != {}
      invariant remaining <= safeSet
      invariant NoDuplicates(added)
      invariant forall e :: e in added ==> e.coordinates !in remaining
      invariant Elems(added) == QueuedFor(field, safeSet - remaining, returned)
      decreases |remaining|
    {
      var p :| p in remaining;
      QueuedForStep(field, safeSet - remaining, p, returned);
      assert safeSet - (remaining - {p}) == (safeSet - remaining) + {p};
      if At(field, p) !in returned {
        added := added + [EntryAt(field, p)];
      }
      remaining := remaining - {p};
    }
    assert safeSet - remaining == safeSet;
  }

  /** The best of the first scores is the best of the second when they agree on the field. */
  lemma FirstMinimalTransfer(field: Field, bombs: set<Coord>, s1: map<Coord, real>, s2: map<Coord, real>, best: Option<Coord>)
    requires forall p :: InField(field, p) ==> p in s1 && p in s2 && s1[p] == s2[p]
    requires IsFirstMinimal(field, bombs, s1, best)
    ensures IsFirstMinimal(field, bombs, s2, best)
  {
  }

  /** The scores the wrappers end with are those of FinalScores, so their best is the best guess. */
  lemma BestValuedOfPass(field: Field, score: map<Coord, real>, best: Option<Coord>)
    requires IsRectangular(field) && ScoresDefined(field, LinksOf(field), Propagated(field, LinksOf(field)).effective)
    requires forall p :: InField(field, p) ==> p in score && score[p] == FinalScores(field, LinksOf(field))[p]
    requires IsFirstMinimal(field, Propagated(field, LinksOf(field)).reduced, score, best)
    ensures IsBestGuess(field, EntryOf(field, best))
  {
    FirstMinimalTransfer(field, Propagated(field, LinksOf(field)).reduced, score, FinalScores(field, LinksOf(field)), best);
  }

  /**
   * What update_field computes from one field (DecisionMaker.py lines
   * 68-154): the wrappers it queues, in order, and the guess it keeps.
   */
  method ComputeUpdate(field: Field, returned: set<Square>) returns (added: seq<Entry>, guess: Option<Entry>)
    requires IsRectangular(field) && NoScoreDivisionByZero(field)
    ensures NoDuplicates(added) && Elems(added) == Enqueued(field, returned)
    ensures ScoresDefined(field, LinksOf(field), Propagated(field, LinksOf(field)).effective)
    ensures IsBestGuess(field, guess)
  {
    var bombs, safeSet, score := RunPass(field);
    added := SafeEntries(field, safeSet, returned);
    var best := BestValued(field, bombs, score);
    BestValuedOfPass(field, score, best);
    guess := EntryOf(field, best);
  }

  /** The square of the kept guess, if there is one. */
  function SquareOf(guess: Option<Entry>): (square: Option<Square>)
    ensures square.Some? <==> guess.Some?
    ensures guess.Some? ==> square.value == guess.value.square
  {
    match guess
    case None => None
    case Some(e) => Some(e.square)
  }

  /**
   * A decision taken from a freshly queued set: with something queued, one
   * of its wrappers, the rest staying queued once each; with nothing, the
   * guess.
   */
  ghost predicate TakenFrom(queued: set<Entry>, next: Option<Square>, rest: seq<Entry>, guess: Option<Entry>)
  {
    && (queued != {} ==>
          exists e :: e in queued && next == Some(e.square)
            && NoDuplicates([e] + rest) && Elems([e] + rest) == queued)
    && (queued == {} ==> rest == [] && next == SquareOf(guess))
  }

  /**
   * What a decision that had to update the field returns: with safe
   * squares to queue, one of them, the rest staying queued; without, the
   * best guess of the field.
   */
  ghost predicate DecidedAfterUpdate(field: Field, returned: set<Square>, next: Option<Square>,
                                     queue: seq<Entry>, guess: Option<Entry>)
    requires IsRectangular(field)
  {
    && ScoresDefined(field, LinksOf(field), Propagated(field, LinksOf(field)).effective)
    && IsBestGuess(field, guess)
    && TakenFrom(Enqueued(field, returned), next, queue, guess)
  }

  /** Taking the front of a queue without repeats, or the guess when it is empty, is a decision taken from its elements. */
  lemma TakenFromQueue(queue: seq<Entry>, guess: Option<Entry>, next: Option<Square>, rest: seq<Entry>)
    requires NoDuplicates(queue)
    requires queue != [] ==> next == Some(queue[0].square) && rest == queue[1..]
    requires queue == [] ==> rest == [] && next == SquareOf(guess)
    ensures TakenFrom(Elems(queue), next, rest, guess)
  {
    if queue != [] {
      var e := queue[0];
      assert [e] + rest == queue;
      assert e in Elems(queue);
    }
  }

  class DecisionMaker {
    var isBeginningOfGame: bool
    var isFieldUpdated: bool
    /** The safe-square queue, front first. */
    var safeSquares: seq<Entry>
    var bestValuedSquareWrapper: Option<Entry>
    /** The attribute reset clears, which no other method reads (DecisionMaker.py line 58). */
    var bestValuedSquare: Option<Square>
    var returnedDecisions: set<Square>
    /** How many times update_field has run. */
    ghost var updates: nat

    /** A new decision maker is reset; it has no guess (DecisionMaker.py lines 17, 21-22). */
    constructor ()
      ensures isBeginningOfGame && !isFieldUpdated && safeSquares == [] && returnedDecisions == {}
      ensures bestValuedSquareWrapper == None && bestValuedSquare == None && updates == 0
    {
      isBeginningOfGame := true;
      isFieldUpdated := false;
      safeSquares := [];
      bestValuedSquareWrapper := None;
      bestValuedSquare := None;
      returnedDecisions := {};
      updates := 0;
      new;
      Reset();
    }

    /**
     * reset (DecisionMaker.py lines 50-59). The cached guess
     * bestValuedSquareWrapper is not cleared.
     */
    method Reset()
      modifies this
      ensures isBeginningOfGame && safeSquares == [] && !isFieldUpdated
      ensures bestValuedSquare == None && returnedDecisions == {}
      ensures bestValuedSquareWrapper == old(bestValuedSquareWrapper) && updates == old(updates)
    {
      isBeginningOfGame := true;
      safeSquares := [];
      isFieldUpdated := false;
      bestValuedSquare := None;
      returnedDecisions := {};
    }

    /** do_safe_squares_exist (DecisionMaker.py lines 61-66). */
    function DoSafeSquaresExist(): (exist: bool)
      reads this
      ensures exist <==> |safeSquares| > 0
    {
      safeSquares != []
    }

    /**
     * update_field (DecisionMaker.py lines 68-154): one pass over the
     * wrappers of the field, then the safe squares not returned before are
     * queued and the best valued wrapper is kept as the guess.
     */
    method UpdateField(field: Field)
      requires IsRectangular(field) && NoScoreDivisionByZero(field)
      modifies this
      ensures isBeginningOfGame == old(isBeginningOfGame) && isFieldUpdated == old(isFieldUpdated)
      ensures returnedDecisions == old(returnedDecisions) && bestValuedSquare == old(bestValuedSquare)
      ensures updates == old(updates) + 1
      ensures |safeSquares| >= |old(safeSquares)| && safeSquares[..|old(safeSquares)|] == old(safeSquares)
      ensures NoDuplicates(safeSquares[|old(safeSquares)|..])
      ensures Elems(safeSquares[|old(safeSquares)|..]) == Enqueued(field, returnedDecisions)
      ensures ScoresDefined(field, LinksOf(field), Propagated(field, LinksOf(field)).effective)
      ensures IsBestGuess(field, bestValuedSquareWrapper)
    {
      var added, guess := ComputeUpdate(field, returnedDecisions);
      safeSquares := safeSquares + added;
      assert safeSquares[|old(safeSquares)|..] == added;
      bestValuedSquareWrapper := guess;
      updates := updates + 1;
    }

    /** pick_random_square (DecisionMaker.py lines 156-169): any square of the field. */
    method PickRandomSquare(field: Field) returns (square: Square)
      requires HasNoEmptyRow(field)
      ensures exists row, column :: 0 <= row < |field| && 0 <= column < |field[row]| && square == field[row][column]
    {
      var row :| 0 <= row < |field|;
      var column :| 0 <= column < |field[row]|;
      square := field[row][column];
    }

    /** pick_safe_square (DecisionMaker.py lines 171-183): the square at the front of the queue. */
    method PickSafeSquare() returns (square: Square)
      requires safeSquares != []
      modifies this
      ensures square == old(safeSquares)[0].square && safeSquares == old(safeSquares)[1..]
      ensures isBeginningOfGame == old(isBeginningOfGame) && isFieldUpdated == old(isFieldUpdated)
      ensures returnedDecisions == old(returnedDecisions) && bestValuedSquare == old(bestValuedSquare)
      ensures bestValuedSquareWrapper == old(bestValuedSquareWrapper) && updates == old(updates)
    {
      square := safeSquares[0].square;
      safeSquares := safeSquares[1..];
    }

    /**
     * pick_best_valued_square (DecisionMaker.py lines 185-193): the square
     * of the kept guess; None where the source fails for want of a guess.
     */
    method PickBestValuedSquare() returns (square: Option<Square>)
      ensures square == SquareOf(bestValuedSquareWrapper)
    {
      if bestValuedSquareWrapper.None? {
        square := None;
      } else {
        square := Some(bestValuedSquareWrapper.value.square);
      }
    }

    /**
     * decide_next_square (DecisionMaker.py lines 24-48). The first move is
     * random; after it, a queued safe square is taken first; with an empty
     * queue the field is updated and the decision made again, which then
     * takes a newly queued square or the guess. None stands for the failure
     * of pick_best_valued_square when there is no guess; the state is then
     * left as the failure leaves it.
     */
    method DecideNextSquare(field: Field) returns (next: Option<Square>)
      requires isBeginningOfGame ==> HasNoEmptyRow(field)
      requires !isBeginningOfGame && safeSquares == [] && !isFieldUpdated ==>
        IsRectangular(field) && NoScoreDivisionByZero(field)
      modifies this
      decreases if isFieldUpdated then 0 else 1
      ensures !isBeginningOfGame
      ensures returnedDecisions == old(returnedDecisions) + (if next.Some? then {next.value} else {})
      ensures bestValuedSquare == old(bestValuedSquare)
      // The first move: a random square; nothing else changes.
      ensures old(isBeginningOfGame) ==>
        && next.Some?
        && (exists row, column :: 0 <= row < |field| && 0 <= column < |field[row]| && next.value == field[row][column])
        && safeSquares == old(safeSquares) && isFieldUpdated == old(isFieldUpdated)
        && bestValuedSquareWrapper == old(bestValuedSquareWrapper) && updates == old(updates)
      // A queued safe square: the front one is taken and the rest stay in order.
      ensures !old(isBeginningOfGame) && old(safeSquares) != [] ==>
        && next == Some(old(safeSquares)[0].square) && safeSquares == old(safeSquares)[1..]
        && !isFieldUpdated && bestValuedSquareWrapper == old(bestValuedSquareWrapper) && updates == old(updates)
      // Right after an update with nothing queued: the guess, if any.
      ensures !old(isBeginningOfGame) && old(safeSquares) == [] && old(isFieldUpdated) ==>
        && next == SquareOf(old(bestValuedSquareWrapper))
        && safeSquares == [] && (next.Some? <==> !isFieldUpdated)
        && bestValuedSquareWrapper == old(bestValuedSquareWrapper) && updates == old(updates)
      // Otherwise the field is updated exactly once and the decision is taken from the update.
      ensures !old(isBeginningOfGame) && old(safeSquares) == [] && !old(isFieldUpdated) ==>
        && updates == old(updates) + 1
        && DecidedAfterUpdate(field, old(returnedDecisions), next, safeSquares, bestValuedSquareWrapper)
      // Between top-level calls the field-updated flag is clear, so update_field runs at most once per call.
      ensures !old(isFieldUpdated) && next.Some? ==> !isFieldUpdated
      ensures updates <= old(updates) + 1
      // With no guess the flag stays set and the queue empty, so later calls fail the same way until a reset.
      ensures next.None? ==> isFieldUpdated && safeSquares == [] && bestValuedSquareWrapper == None
    {
      if isBeginningOfGame {
        isBeginningOfGame := false;
        var square := PickRandomSquare(field);
        next := Some(square);
      } else if DoSafeSquaresExist() {
        var square := PickSafeSquare();
        next := Some(square);
        isFieldUpdated := false;
      } else if isFieldUpdated {
        next := PickBestValuedSquare();
        if next.Some? {
          isFieldUpdated := false;
        }
      } else {
        UpdateField(field);
        ghost var queue, guess := safeSquares, bestValuedSquareWrapper;
        assert NoDuplicates(queue) && Elems(queue) == Enqueued(field, old(returnedDecisions)) by {
          assert queue[|old(safeSquares)|..] == queue;
        }
        isFieldUpdated := true;
        next := DecideNextSquare(field);
        TakenFromQueue(queue, guess, next, safeSquares);
      }
      if next.Some? {
        returnedDecisions := returnedDecisions + {next.value};
      }
    }
  }
}
