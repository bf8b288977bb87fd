# PySweeper decision core in Dafny

This project models the part of PySweeper that decides which square of a
Minesweeper field to click next:

- **The decision policy.** This is the `DecisionMaker` class and its `decide_next_square` state machine. It works over:
  - the beginning-of-game and field-updated flags;
  - a FIFO queue of safe squares;
  - the set of squares already returned.
- **The per-field inference that refills the queue.** This is `update_field` and the `SquareWrapper` nodes it builds:
  - one wrapper per square, linked to its in-bounds 3×3 neighbours;
  - bombs are marked where a square's number equals the count of its unchecked neighbours;
  - each bomb lowers the effective value of every neighbour once, and a wrapper that reaches exactly 0 emits its other unchecked neighbours as safe;
  - risk scores are spread from each wrapper onto its unchecked neighbours;
  - the unchecked, non-bomb wrapper with the lowest score is kept as the guess.
- **The `Square` record** that the game field is made of.

Modules, one concern each:

| file | module | what it holds |
|---|---|---|
| `optional.dfy` | `Optional` | `Option<T>`: Python's `None` |
| `square.dfy` | `Squares` | the `Square` class (identity semantics, as in Python) |
| `neighbours.dfy` | `Neighbourhood` | coordinates, 3×3 adjacency, the affected-square list of `update_field` |
| `field.dfy` | `Fields` | the field, the neighbour table, `extract_unchecked_neighbours`, `is_value_completely_assigned`, the row-major scan |
| `propagation.dfy` | `Propagation` | the bomb-marking pass as functions on the attributes of all wrappers of one call (`PassState`) |
| `propagation_facts.dfy` | `PropagationFacts` | the invariant of the pass and what it computes |
| `scoring.dfy` | `Scoring` | `update_score` as functions, bounds, and exactly when it divides by zero |
| `wrapper_grid.dfy` | `SquareWrappers` | the wrappers of one call as a class (`WrapperGrid`) whose methods update their attributes in place, each proved against the `Propagation` / `Scoring` functions |
| `decision_maker.dfy` | `Decisions` | `update_field`'s orchestration, the argmin search, the enqueue filter, and the `DecisionMaker` class |

How the model represents the source:

- **Wrappers.** The wrappers of one `update_field` call are held index-based, in the spirit of the source's own coordinate keys. A wrapper's attributes are entries of maps keyed by `Coord(row, col)`, and its linked neighbours are the entry of a link table.
- **Order.** The loops follow the source's order: row-major over the wrappers, and the affected-square order of `DecisionMaker.py` lines 94-114 over neighbours.
- **Scores** are exact reals.
- **`None`** is modelled as `Option` wherever the source checks `is None`.

The code behaves as follows, in places a reader might not expect:

- `update_score` has no edge or corner bonus.
- A bomb reduces every neighbour, revealed or not. A neighbour whose effective value is None stays None.
- A revealed 0 never makes its neighbours safe: its effective value only goes down from 0.
- The count of `is_value_completely_assigned` includes neighbours that are already deduced bombs.
- The returned-squares set filters only at enqueue. The random and best-guess branches may return a square twice.
- The field-updated flag means "an update has just run". With an empty queue and the flag clear, the field is updated. With the flag set, the cached guess is returned.
- With no guess available, `pick_best_valued_square` raises at `DecisionMaker.py` line 191; nothing signals that no move is left.

## Model

| member | source | states |
|---|---|---|
| Squares.Square.constructor | MinesweeperPlayer/Square.py:12-16 | the four attributes are stored exactly as passed; there is no precondition, so no relation between them is enforced |
| Squares.DefaultSquare | MinesweeperPlayer/Square.py:12 | a square built with no arguments has centre (0, 0), value -1, no bomb, unchecked |
| Neighbourhood.BlockColumn | MinesweeperPlayer/DecisionMaker.py:94-114 | one column of appends holds exactly the in-bounds squares of that column in the rows from one above to one below the target (the target's own row only in the outer columns), with no repeats; its length is the row span, less one for the middle column |
| Neighbourhood.AffectedSquares | MinesweeperPlayer/DecisionMaker.py:83-114 | the affected squares of (r, c) are exactly the in-bounds squares of the surrounding 3×3 block other than (r, c), each listed once |
| Neighbourhood.AffectedSquaresCount | MinesweeperPlayer/DecisionMaker.py:83-114 | the list has (row span × column span) − 1 entries: 3 in a corner, 5 on an edge, 8 inside, for a grid of at least 2×2 |
| Neighbourhood.AffectedSquaresSymmetric | MinesweeperPlayer/DecisionMaker.py:83-114 | p is affected by q exactly when q is affected by p |
| Fields.Cells | MinesweeperPlayer/DecisionMaker.py:76-119 | the keys of `wrapped_squares` are exactly the positions of the field |
| Fields.Neighbours | MinesweeperPlayer/SquareWrapper.py:49-58 | on a rectangular field every affected coordinate is a position of the field, so every lookup of `map_wrappers` succeeds and links exactly the adjacent wrappers, each once |
| Fields.LinksOf | MinesweeperPlayer/DecisionMaker.py:116-124 | the table of linked neighbours gives every position each adjacent position exactly once |
| Fields.UncheckedOf | MinesweeperPlayer/SquareWrapper.py:93 | the filter keeps exactly the unchecked positions, adds no repeats and never lengthens the list |
| Fields.UncheckedNeighbours | MinesweeperPlayer/SquareWrapper.py:88-93 | `extract_unchecked_neighbours` returns exactly the unchecked adjacent squares, each once |
| Fields.LinksAtMostEight | MinesweeperPlayer/DecisionMaker.py:83-114 | a wrapper has at most eight neighbours |
| Fields.IsValueCompletelyAssigned | MinesweeperPlayer/SquareWrapper.py:73-86 | `is_value_completely_assigned`: its partner `CompletelyAssignedCount` proves it holds iff the value is not None, is positive, and equals the number of unchecked adjacent squares |
| Fields.CompletelyAssignedCount | MinesweeperPlayer/SquareWrapper.py:73-86 | `is_value_completely_assigned` holds iff the value is not None, is positive, and equals the number of unchecked squares around it (deduced bombs included) |
| Fields.RowMajor | MinesweeperPlayer/DecisionMaker.py:77-78 | the row-by-row enumeration lists every position of an R×C grid exactly once |
| Fields.Scan | MinesweeperPlayer/DecisionMaker.py:77-78 | the iteration order of `wrapped_squares` lists every position of the field exactly once |
| Fields.RowMajorOrdered | MinesweeperPlayer/DecisionMaker.py:77-78 | the enumeration is strictly increasing in row-major order |
| Fields.ScanOrdered | MinesweeperPlayer/DecisionMaker.py:77-78 | the wrappers are visited in strictly increasing row-major order (needed for tie-breaking at line 152) |
| Propagation.InitialState | MinesweeperPlayer/SquareWrapper.py:37-47 | every wrapper of the field has an effective value and a bomb list |
| Propagation.SafeAmong | MinesweeperPlayer/SquareWrapper.py:117 | the filter of line 117 keeps exactly the neighbours that are unchecked and not in `adjacent_bombs` |
| Propagation.ReduceNeighbours | MinesweeperPlayer/SquareWrapper.py:95-102 | `reduce_neighbours` sets or clears no `has_reduced_neighbours` flag |
| Propagation.MarkBomb | MinesweeperPlayer/SquareWrapper.py:69-71 | after one iteration the flag of `w` is set and no other flag changes |
| Propagation.MarkEach | MinesweeperPlayer/SquareWrapper.py:68-71 | the loop of `update_effective_value` adds exactly its unchecked neighbours to the flagged wrappers; flags are only ever set, never cleared |
| Propagation.UpdateEach | MinesweeperPlayer/DecisionMaker.py:126-128 | the pass flags exactly the bombs deduced by the wrappers visited, on top of those already flagged |
| Propagation.ReduceEffectiveValue | MinesweeperPlayer/SquareWrapper.py:104-118 | `reduce_effective_value` changes no flag; its partners `ReduceEffectiveValueBombs`, `ReduceEffectiveValueEffective` and `ReduceEffectiveValueSafe` prove the append to `adjacent_bombs`, the decrement of a number (None kept) and the safe squares appended on the step to 0 |
| Propagation.UpdateEffectiveValue | MinesweeperPlayer/SquareWrapper.py:60-71 | `update_effective_value` keeps every wrapper's attributes defined; its partner `MarkEachInv` proves it keeps the invariant of the pass, and `Propagation.UpdateEach` that a run of it over a list of wrappers flags exactly the unchecked neighbours of the completely assigned ones among them |
| Propagation.Propagated | MinesweeperPlayer/DecisionMaker.py:126-128 | the state after the pass is defined for every wrapper; its partners `DeducedBombs`, `AdjacentBombsAfterPass` and `SafeAfterPass` prove which wrappers are bombs, what `adjacent_bombs` and `effective_value` hold, and exactly which squares are safe |
| PropagationFacts.InitialInv | MinesweeperPlayer/SquareWrapper.py:37-47 | the freshly built wrappers satisfy the invariant of the pass: effective value = value, no bombs, nothing safe |
| PropagationFacts.ReduceEffectiveValueBombs | MinesweeperPlayer/SquareWrapper.py:110 | `reduce_effective_value` appends the bomb to this wrapper's `adjacent_bombs` and changes no other wrapper's list |
| PropagationFacts.ReduceEffectiveValueEffective | MinesweeperPlayer/SquareWrapper.py:112-113 | a number is lowered by exactly 1, None stays None, and no other wrapper's value changes |
| PropagationFacts.ReduceEffectiveValueSafe | MinesweeperPlayer/SquareWrapper.py:112-118 | squares are appended as safe exactly when the effective value goes from 1 to 0, and they are exactly the unchecked neighbours not in the updated `adjacent_bombs` |
| PropagationFacts.ReduceStepBombs | MinesweeperPlayer/SquareWrapper.py:101-110 | one reduction keeps every bomb list repeat-free and exact, and takes the reduced neighbour off the pending set |
| PropagationFacts.ReduceStepEffective | MinesweeperPlayer/SquareWrapper.py:112-113 | one reduction keeps every effective value equal to the square's value less the length of its bomb list |
| PropagationFacts.ReduceStepSafe | MinesweeperPlayer/SquareWrapper.py:112-118 | one reduction keeps the safe list equal to exactly the squares that have a witness |
| PropagationFacts.ReduceStep | MinesweeperPlayer/SquareWrapper.py:104-118 | one `reduce_effective_value` call keeps the whole invariant of the pass |
| PropagationFacts.ReduceEachInv | MinesweeperPlayer/SquareWrapper.py:95-102 | `reduce_neighbours` keeps the invariant at every step of its loop |
| PropagationFacts.MarkBombInv | MinesweeperPlayer/SquareWrapper.py:69-71 | flagging an unchecked square and reducing its neighbours keeps the invariant, and a flagged square is skipped |
| PropagationFacts.MarkEachInv | MinesweeperPlayer/SquareWrapper.py:67-71 | `update_effective_value` keeps the invariant |
| PropagationFacts.UpdateEachInv | MinesweeperPlayer/DecisionMaker.py:126-128 | the whole pass keeps the invariant |
| PropagationFacts.PropagatedInv | MinesweeperPlayer/DecisionMaker.py:126-128 | the state after the pass satisfies the invariant |
| PropagationFacts.BombsOfMembers | MinesweeperPlayer/SquareWrapper.py:67-71 | the bombs deduced by a sequence of wrappers are exactly the unchecked neighbours of its completely assigned ones |
| PropagationFacts.DeducedBombs | MinesweeperPlayer/SquareWrapper.py:67-85 | after the pass the flagged wrappers are exactly the unchecked neighbours of completely assigned wrappers, whatever the visiting order |
| PropagationFacts.AdjacentBombsOf | MinesweeperPlayer/SquareWrapper.py:104-113 | under the invariant a wrapper's bomb list holds each flagged neighbour exactly once, and its effective value is the square's value (line 39) less their number |
| PropagationFacts.AdjacentBombsAfterPass | MinesweeperPlayer/SquareWrapper.py:104-113 | after the pass each deduced bomb has reduced each neighbour exactly once, and a revealed wrapper's effective value is its value less its count of deduced-bomb neighbours (the length of `adjacent_bombs`) |
| PropagationFacts.SafeAfterPass | MinesweeperPlayer/DecisionMaker.py:130-134 | the collected safe squares are exactly those with a witness; each is an unchecked square of the field; every unchecked non-bomb neighbour of a wrapper whose positive value is matched by deduced bombs is among them |
| PropagationFacts.CompletelyAssignedBombList | MinesweeperPlayer/SquareWrapper.py:82-85 | a completely assigned wrapper ends with exactly its unchecked neighbours as bomb list, as many as its value |
| PropagationFacts.CompletelyAssignedAppendsNothing | MinesweeperPlayer/SquareWrapper.py:116-118 | a completely assigned wrapper appends no safe square of its own |
| Scoring.ScoreForEach | MinesweeperPlayer/SquareWrapper.py:128-137 | the amount is 1 for a None effective value and 0 for 0 |
| Scoring.ScoreForEachDistributes | MinesweeperPlayer/SquareWrapper.py:136-140 | a revealed wrapper with nonzero effective value e hands out exactly e in total over its unchecked neighbours |
| Scoring.Contribution | MinesweeperPlayer/SquareWrapper.py:127-140 | what `update_score` of one wrapper adds to one square; its partners `ContributionAtMostOne` and `CheckedScoresZero` prove it lies between 0 and 1 when the wrapper's effective value lies between 0 and its count of unchecked neighbours, and is 0 for a non-adjacent or checked square |
| Scoring.ScoreSum | MinesweeperPlayer/DecisionMaker.py:139-140 | the score after the scoring loop has run over a list of wrappers; its partner `ScoreSumBounds` proves that, when every effective value lies between 0 and its count of unchecked neighbours (`AmountsAtMostOne`), over a list without repeats it lies between 0 and the number of adjacent wrappers in the list |
| Scoring.FinalScores | MinesweeperPlayer/DecisionMaker.py:139-140 | after the scoring loop every position of the field has a score |
| Scoring.CheckedScoresZero | MinesweeperPlayer/SquareWrapper.py:139-140 | a checked square never receives any score |
| Scoring.ContributionAtMostOne | MinesweeperPlayer/SquareWrapper.py:127-140 | when the wrapper's effective value lies between 0 and its count of unchecked neighbours, one wrapper adds between 0 and 1 to a square, and nothing to a square not next to it |
| Scoring.ScoreSumBounds | MinesweeperPlayer/DecisionMaker.py:139-140 | when every effective value lies between 0 and its count of unchecked neighbours (`AmountsAtMostOne`), the score a square collects over a list without repeats lies between 0 and the number of adjacent wrappers that scored |
| Scoring.ScoreBetweenZeroAndEight | MinesweeperPlayer/SquareWrapper.py:21-22 | when every effective value lies between 0 and its count of unchecked neighbours (`AmountsAtMostOne`), every final score lies between 0 and 8; without that hypothesis the bound of line 22 does not hold (see Left out) |
| Scoring.NoUncheckedNeighbours | MinesweeperPlayer/SquareWrapper.py:127-137 | `extract_unchecked_neighbours` is empty exactly when no adjacent square is unchecked |
| Scoring.CanScoreAfterPass | MinesweeperPlayer/SquareWrapper.py:131-137 | after the pass `update_score` of w does not divide by zero iff w has an unchecked neighbour or shows None or 0 |
| Scoring.ScoresDefinedExactly | MinesweeperPlayer/DecisionMaker.py:139-140 | the scoring loop divides by zero nowhere exactly when every square with no unchecked neighbour shows None or 0 |
| SquareWrappers.BuildLinks | MinesweeperPlayer/DecisionMaker.py:77-124 | the nested loops give every position of the field its affected squares, linked as neighbours: the table `LinksOf` |
| SquareWrappers.SafeNeighbours | MinesweeperPlayer/SquareWrapper.py:117 | the loop of line 117 appends exactly the `SafeAmong` filter, in order |
| SquareWrappers.WrapperGrid.constructor | MinesweeperPlayer/DecisionMaker.py:76-124 | the wrappers start with effective value = square value, no bombs, no flags, nothing safe, score 0, linked by `LinksOf` |
| SquareWrappers.WrapperGrid.ReduceEffectiveValue | MinesweeperPlayer/SquareWrapper.py:104-118 | the wrappers' attributes become those of `Propagation.ReduceEffectiveValue`; scores are untouched |
| SquareWrappers.WrapperGrid.ReduceNeighbours | MinesweeperPlayer/SquareWrapper.py:95-102 | every neighbour of the bomb is reduced in link order; the result is `Propagation.ReduceNeighbours` |
| SquareWrappers.WrapperGrid.UpdateEffectiveValue | MinesweeperPlayer/SquareWrapper.py:60-71 | an unflagged unchecked neighbour of a completely assigned wrapper is flagged and then reduces its neighbours; the result is `Propagation.UpdateEffectiveValue` |
| SquareWrappers.WrapperGrid.UpdateScore | MinesweeperPlayer/SquareWrapper.py:120-140 | the same amount is added to the score of every unchecked neighbour; no other score and no other attribute changes |
| SquareWrappers.WrapperGrid.UpdateEffectiveValues | MinesweeperPlayer/DecisionMaker.py:126-128 | `update_effective_value` runs on every wrapper in row-major order; the result is `UpdateEach` over the scan, which from the initial wrappers is `Propagated` |
| SquareWrappers.WrapperGrid.CollectSafeSquares | MinesweeperPlayer/DecisionMaker.py:130-134 | the collected set is everything appended as safe during the call |
| SquareWrappers.WrapperGrid.UpdateScores | MinesweeperPlayer/DecisionMaker.py:136-140 | each square's score grows by the sum of what every wrapper, in row-major order, hands to it |
| Decisions.BestValued | MinesweeperPlayer/DecisionMaker.py:147-154 | the result is an unchecked, non-bomb wrapper of minimal score, the first in row-major order among equal scores (strict `<`), and None iff there is no such wrapper |
| Decisions.RunPass | MinesweeperPlayer/DecisionMaker.py:76-140 | the wrapper pass returns exactly the deduced bombs, the collected safe squares and the final scores |
| Decisions.SafeEntries | MinesweeperPlayer/DecisionMaker.py:142-145 | each wrapper of the safe set whose square was not returned before is queued exactly once, and no other |
| Decisions.BestValuedOfPass | MinesweeperPlayer/DecisionMaker.py:148-154 | the argmin over the scores the wrappers end with is the argmin over `FinalScores` |
| Decisions.ComputeUpdate | MinesweeperPlayer/DecisionMaker.py:68-154 | the wrappers to queue are exactly the safe ones whose square was not returned, each once; the guess is the best valued wrapper |
| Decisions.DecisionMaker.constructor | MinesweeperPlayer/DecisionMaker.py:14-22 | a new decision maker is at the beginning of a game, with an empty queue, nothing returned and no guess |
| Decisions.DecisionMaker.Reset | MinesweeperPlayer/DecisionMaker.py:50-59 | beginning of game, empty queue, flag clear, returned set empty; the cached guess is kept |
| Decisions.DecisionMaker.DoSafeSquaresExist | MinesweeperPlayer/DecisionMaker.py:61-66 | true iff the queue is non-empty |
| Decisions.DecisionMaker.UpdateField | MinesweeperPlayer/DecisionMaker.py:68-154 | the queue keeps its entries and gains exactly the safe wrappers whose square was not returned, each once; the guess becomes the best valued wrapper; no flag changes |
| Decisions.DecisionMaker.PickRandomSquare | MinesweeperPlayer/DecisionMaker.py:156-169 | the result is `field[row][column]` for some in-bounds row and column |
| Decisions.DecisionMaker.PickSafeSquare | MinesweeperPlayer/DecisionMaker.py:171-183 | the square of the front entry is returned and exactly that entry is removed |
| Decisions.DecisionMaker.PickBestValuedSquare | MinesweeperPlayer/DecisionMaker.py:185-193 | the square of the cached guess |
| Decisions.DecisionMaker.DecideNextSquare | MinesweeperPlayer/DecisionMaker.py:24-48 | a random square on the first move, untouched queue; otherwise the front of a non-empty queue, the rest kept in order; otherwise a single update and a decision from it; the flag is clear between top-level calls, so the update runs at most once and the recursion ends after one level; every returned square joins the returned set, which only grows; on a None result the flag stays set with an empty queue and no guess, so later calls also give None until a reset |

## Left out

- The rest of the repository is not part of this model: the window, screenshot and mouse handling, the image conversion, the game-loop glue, and the unused `SquareChange` record. Logging calls are left out too.
- Decisions.DecisionMaker.PickRandomSquare: `random.randint` is a nondeterministic in-bounds choice. Uniformity is not modelled.
- Decisions.DecisionMaker.PickRandomSquare: requires at least one row and no empty row. With no rows the source always fails at `DecisionMaker.py` line 164; with an empty row it fails only when `randint` picks that row.
- Decisions.SafeEntries: the iteration order of a Python set is not modelled. The queued wrappers are fixed as a set, without repeats, and their order is left open.
- Decisions.DecisionMaker: `queue.Queue` is a plain sequence used first in, first out. Its locking is not modelled.
- Scoring.ScoreForEach: scores are exact reals, not floats. A float tie may break differently in the source.
- SquareWrappers.WrapperGrid.UpdateScores: `DecisionMaker.py` line 140 passes two arguments to the argument-less `update_score`, which raises TypeError in the source. The model calls `update_score` with no arguments, as defined at `SquareWrapper.py` lines 120-140. The unused maximum indices (lines 137-138, rows and columns swapped) are left out.
- SquareWrappers.WrapperGrid.constructor: the safe list is per call. In the source, line 47 of `SquareWrapper.py` assigns a local, so every wrapper of every call appends to the one class-level list of line 20. Squares found safe in an earlier call, or before a `reset`, are therefore collected again in later calls. The model's safe set is what one call appends.
- Scoring.ScoreBetweenZeroAndEight: the bound of `SquareWrapper.py` line 22 is proved only when every effective value is between 0 and its count of unchecked neighbours. Without that the comment is false. A revealed 3 whose only unchecked neighbour is x hands x 3.0. A revealed 0 next to a deduced bomb ends with effective value -1 and hands out a negative amount.
- Decisions.DecisionMaker.DecideNextSquare: when no guess exists, `pick_best_valued_square` fails at `DecisionMaker.py` line 191. The model returns None and leaves the state as the failure leaves it.
- Decisions.DecisionMaker.UpdateField: requires a rectangular, non-empty field. On an empty field the source fails at `max` (line 137). On a ragged one `map_wrappers` fails on a missing key.
- Decisions.DecisionMaker.UpdateField: requires that no square without an unchecked neighbour shows a nonzero number. Otherwise the source divides by zero at `SquareWrapper.py` line 137. `Scoring.ScoresDefinedExactly` proves this condition is exactly the one under which the scoring loop never divides by zero.
- Decisions.DecisionMaker.Reset: `reset` clears `_best_valued_square` (a misspelling, line 58). The model keeps that attribute as a separate field that nothing else reads. The cached wrapper survives a reset.
- SquareWrappers.WrapperGrid: wrapper objects and their mutual references (`_affected_square_wrappers`, `map_wrappers`) are a table of neighbour coordinates into per-attribute maps. Aliasing between wrapper objects is not modelled.
- Squares.Square: the attributes are constants, because nothing in the decision core assigns them after construction.
