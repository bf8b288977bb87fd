/**
 * What the bomb-marking pass of update_field computes, as functions of the
 * field (SquareWrapper.py, lines 60-118, driven by DecisionMaker.py, lines
 * 126-128), and what it is proved to compute.
 *
 * The mutable per-wrapper attributes of all wrappers of one call are held
 * together in a PassState, keyed by coordinates:
 *   effective      effective_value of each wrapper,
 *   reduced        the wrappers whose has_reduced_neighbours is set,
 *   adjacentBombs  adjacent_bombs of each wrapper, in append order,
 *   safe           every wrapper appended to adjacent_safe_squares
 *                  during the call, in append order.
 * Each sequence of steps is a fold that takes its LAST element last, so a
 * loop that has done i steps has computed the fold of the first i.
 */
module Propagation {
  import opened Optional
  import opened Squares
  import opened Neighbourhood
  import opened Fields

  datatype PassState = PassState(
    effective: map<Coord, Option<int>>,
    reduced: set<Coord>,
    adjacentBombs: map<Coord, seq<Coord>>,
    safe: seq<Coord>)

  /** Every position of the rectangular field has an entry in both maps. */
  ghost predicate Covers(field: Field, st: PassState) {
    IsRectangular(field)
    && forall p :: InField(field, p) ==> p in st.effective && p in st.adjacentBombs
  }

  /** The state of the wrappers of `field`, linked by `links`. */
  ghost predicate Wf(field: Field, links: Links, st: PassState) {
    LinksOk(field, links) && Covers(field, st)
  }

  /** The wrappers as constructed: effective_value = square.value, nothing deduced. */
  function InitialState(field: Field): (st: PassState)
    requires IsRectangular(field)
    ensures Covers(field, st)
  {
    PassState(map p | p in Cells(field) :: At(field, p).value, {},
              map p | p in Cells(field) :: [], [])
  }

  /** The positions of `ps` that are unchecked and not in `bombs`, in order (line 117's filter). */
  function SafeAmong(field: Field, ps: seq<Coord>, bombs: seq<Coord>): (r: seq<Coord>)
    requires forall q :: q in ps ==> InField(field, q)
    ensures forall q :: q in r <==> q in ps && q !in bombs && At(field, q).isUnchecked
  {
    if ps == [] then []
    else
      var q := ps[|ps| - 1];
      SafeAmong(field, ps[..|ps| - 1], bombs) + (if q !in bombs && At(field, q).isUnchecked then [q] else [])
  }

  /** reduce_effective_value of wrapper `cell`, told that `bomb` is a bomb. */
  function ReduceEffectiveValue(field: Field, links: Links, st: PassState, cell: Coord, bomb: Coord): (r: PassState)
    requires Wf(field, links, st) && InField(field, cell)
    ensures Wf(field, links, r) && r.reduced == st.reduced
  {
    var bombs := st.adjacentBombs[cell] + [bomb];
    var st' := st.(adjacentBombs := st.adjacentBombs[cell := bombs]);
    match st.effective[cell]
    case None => st'
    case Some(e) =>
      st'.(effective := st.effective[cell := Some(e - 1)],
           safe := if e - 1 == 0 then st.safe + SafeAmong(field, links[cell], bombs) else st.safe)
  }

  /** reduce_effective_value called with `bomb` on each wrapper of `ws` in turn. */
  function ReduceEach(field: Field, links: Links, st: PassState, ws: seq<Coord>, bomb: Coord): (r: PassState)
    requires Wf(field, links, st) && forall w :: w in ws ==> InField(field, w)
    ensures Wf(field, links, r) && r.reduced == st.reduced
  {
    if ws == [] then st
    else ReduceEffectiveValue(field, links, ReduceEach(field, links, st, ws[..|ws| - 1], bomb), ws[|ws| - 1], bomb)
  }

  /** reduce_neighbours of wrapper `bomb`: every neighbour, checked or not, is reduced once. */
  function ReduceNeighbours(field: Field, links: Links, st: PassState, bomb: Coord): (r: PassState)
    requires Wf(field, links, st) && InField(field, bomb)
    ensures Wf(field, links, r) && r.reduced == st.reduced
  {
    ReduceEach(field, links, st, links[bomb], bomb)
  }

  /** One iteration of update_effective_value's loop: mark `w` and reduce its neighbours unless already marked. */
  function MarkBomb(field: Field, links: Links, st: PassState, w: Coord): (r: PassState)
    requires Wf(field, links, st) && InField(field, w)
    ensures Wf(field, links, r) && r.reduced == st.reduced + {w}
  {
    if w in st.reduced then st
    else ReduceNeighbours(field, links, st.(reduced := st.reduced + {w}), w)
  }

  function MarkEach(field: Field, links: Links, st: PassState, ws: seq<Coord>): (r: PassState)
    requires Wf(field, links, st) && forall w :: w in ws ==> InField(field, w)
    ensures Wf(field, links, r) && r.reduced == st.reduced + Elems(ws)
  {
    if ws == [] then st
    else MarkBomb(field, links, MarkEach(field, links, st, ws[..|ws| - 1]), ws[|ws| - 1])
  }

  /** update_effective_value of wrapper `cell`. */
  function UpdateEffectiveValue(field: Field, links: Links, st: PassState, cell: Coord): (r: PassState)
    requires Wf(field, links, st) && InField(field, cell)
    ensures Wf(field, links, r)
  {
    if IsValueCompletelyAssigned(field, links, cell) then MarkEach(field, links, st, UncheckedNeighbours(field, links, cell))
    else st
  }

  /** The bombs deduced by the wrappers of `ps`: the unchecked neighbours of the completely assigned ones. */
  function BombsOf(field: Field, links: Links, ps: seq<Coord>): set<Coord>
    requires LinksOk(field, links) && forall p :: p in ps ==> InField(field, p)
  {
    if ps == [] then {}
    else
      var p := ps[|ps| - 1];
      BombsOf(field, links, ps[..|ps| - 1])
      + (if IsValueCompletelyAssigned(field, links, p) then Elems(UncheckedNeighbours(field, links, p)) else {})
  }

  /** update_effective_value on the wrappers of `ps` in turn (DecisionMaker.py lines 127-128). */
  function UpdateEach(field: Field, links: Links, st: PassState, ps: seq<Coord>): (r: PassState)
    requires Wf(field, links, st) && forall p :: p in ps ==> InField(field, p)
    ensures Wf(field, links, r) && r.reduced == st.reduced + BombsOf(field, links, ps)
  {
    if ps == [] then st
    else UpdateEffectiveValue(field, links, UpdateEach(field, links, st, ps[..|ps| - 1]), ps[|ps| - 1])
  }

  /** The state of all wrappers after the bomb-marking pass of one update_field call. */
  function Propagated(field: Field, links: Links): (st: PassState)
    requires LinksOk(field, links)
    ensures Wf(field, links, st)
  {
    UpdateEach(field, links, InitialState(field), Scan(field))
  }
}
