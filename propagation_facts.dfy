/**
 * What the bomb-marking pass is proved to compute: which wrappers end up
 * marked as bombs, what adjacent_bombs and effective_value hold
 * afterwards, and exactly which squares were appended as safe.
 */
module PropagationFacts {
  import opened Optional
  import opened Squares
  import opened Neighbourhood
  import opened Fields
  import opened Propagation

  /** `n` subtracted from a value that may be None. */
  function Minus(v: Option<int>, n: int): Option<int> {
    match v
    case None => None
    case Some(x) => Some(x - n)
  }

  /**
   * x was appended as safe by wrapper w: w shows v > 0, at least v bombs
   * have reduced it, and x is an unchecked neighbour of w that was not
   * among the first v of them (those in adjacent_bombs when its effective
   * value reached 0).
   */
  ghost predicate SafeWitness(field: Field, bombs: map<Coord, seq<Coord>>, w: Coord, x: Coord)
    requires IsRectangular(field)
  {
    && InField(field, w) && w in bombs && At(field, w).value.Some?
    && var v := At(field, w).value.value;
    && 0 < v <= |bombs[w]|
    && InField(field, x) && Adjacent(x, w) && At(field, x).isUnchecked
    && x !in bombs[w][..v]
  }

  /** Only unchecked squares of the field are ever marked as bombs. */
  ghost predicate ReducedUnchecked(field: Field, st: PassState) {
    forall b :: b in st.reduced ==> InField(field, b) && At(field, b).isUnchecked
  }

  /** No wrapper lists the same bomb twice in adjacent_bombs. */
  ghost predicate BombListsDistinct(field: Field, st: PassState)
    requires Covers(field, st)
  {
    forall w :: InField(field, w) ==> NoDuplicates(st.adjacentBombs[w])
  }

  /**
   * adjacent_bombs of w holds exactly the marked neighbours of w, except
   * that `bomb` has not yet reached the wrappers in `pending`.
   */
  ghost predicate BombListsExact(field: Field, st: PassState, bomb: Coord, pending: set<Coord>)
    requires Covers(field, st)
  {
    forall w, b :: InField(field, w) ==>
      (b in st.adjacentBombs[w] <==> b in st.reduced && Adjacent(b, w) && !(b == bomb && w in pending))
  }

  /** effective_value is the square's value less the bombs reported to the wrapper. */
  ghost predicate EffectiveMatches(field: Field, st: PassState)
    requires Covers(field, st)
  {
    forall w :: InField(field, w) ==> st.effective[w] == Minus(At(field, w).value, |st.adjacentBombs[w]|)
  }

  /** Everything appended as safe has a witness, and every witnessed square was appended. */
  ghost predicate SafeMatches(field: Field, st: PassState)
    requires Covers(field, st)
  {
    && (forall w, x :: SafeWitness(field, st.adjacentBombs, w, x) ==> x in st.safe)
    && (forall x :: x in st.safe ==> exists w :: SafeWitness(field, st.adjacentBombs, w, x))
  }

  /** The invariant of the pass while `bomb` has reduced every neighbour except those in `pending`. */
  ghost predicate InvPending(field: Field, st: PassState, bomb: Coord, pending: set<Coord>) {
    && Covers(field, st)
    && ReducedUnchecked(field, st)
    && BombListsDistinct(field, st)
    && BombListsExact(field, st, bomb, pending)
    && EffectiveMatches(field, st)
    && SafeMatches(field, st)
  }

  /** The invariant between two bombs. */
  ghost predicate Inv(field: Field, st: PassState) {
    InvPending(field, st, Coord(-1, -1), {})
  }

  lemma NoPending(field: Field, st: PassState, bomb: Coord)
    requires InvPending(field, st, bomb, {})
    ensures Inv(field, st)
  {
    assert BombListsExact(field, st, Coord(-1, -1), {}) by {
      assert BombListsExact(field, st, bomb, {});
    }
  }

  lemma InitialInv(field: Field)
    requires IsRectangular(field)
    ensures Inv(field, InitialState(field))
  {
    var st := InitialState(field);
    forall w | InField(field, w)
      ensures st.effective[w] == Minus(At(field, w).value, |st.adjacentBombs[w]|)
    {
      match At(field, w).value
      case None =>
      case Some(v) =>
    }
  }

  /** reduce_effective_value appends the bomb to adjacent_bombs of `w` and of no other wrapper. */
  lemma ReduceEffectiveValueBombs(field: Field, links: Links, st: PassState, w: Coord, bomb: Coord)
    requires Wf(field, links, st) && InField(field, w)
    ensures ReduceEffectiveValue(field, links, st, w, bomb).adjacentBombs == st.adjacentBombs[w := st.adjacentBombs[w] + [bomb]]
  {
  }

  /** reduce_effective_value lowers a number by exactly 1, leaves None as it is and changes no other wrapper's value. */
  lemma ReduceEffectiveValueEffective(field: Field, links: Links, st: PassState, w: Coord, bomb: Coord)
    requires Wf(field, links, st) && InField(field, w)
    ensures ReduceEffectiveValue(field, links, st, w, bomb).effective == st.effective[w := Minus(st.effective[w], 1)]
  {
  }

  lemma ReduceStepBombs(field: Field, links: Links, st: PassState, bomb: Coord, pending: set<Coord>, w: Coord)
    requires Wf(field, links, st) && BombListsDistinct(field, st) && BombListsExact(field, st, bomb, pending)
    requires InField(field, bomb) && bomb in st.reduced
    requires w in pending && InField(field, w) && Adjacent(w, bomb)
    ensures var r := ReduceEffectiveValue(field, links, st, w, bomb);
      BombListsDistinct(field, r) && BombListsExact(field, r, bomb, pending - {w})
  {
    var r := ReduceEffectiveValue(field, links, st, w, bomb);
    var bombs := st.adjacentBombs[w] + [bomb];
    ReduceEffectiveValueBombs(field, links, st, w, bomb);
    assert bomb !in st.adjacentBombs[w];
    forall u, b | InField(field, u)
      ensures b in r.adjacentBombs[u] <==> b in r.reduced && Adjacent(b, u) && !(b == bomb && u in pending - {w})
    {
      if u == w {
        assert b in bombs <==> b in st.adjacentBombs[w] || b == bomb;
      }
    }
  }

  lemma ReduceStepEffective(field: Field, links: Links, st: PassState, bomb: Coord, w: Coord)
    requires Wf(field, links, st) && EffectiveMatches(field, st) && InField(field, w)
    ensures EffectiveMatches(field, ReduceEffectiveValue(field, links, st, w, bomb))
  {
  }

  /**
   * reduce_effective_value appends to the safe list exactly when the
   * effective value goes from 1 to 0, and then exactly the unchecked
   * neighbours that are not in the updated adjacent_bombs.
   */
  lemma ReduceEffectiveValueSafe(field: Field, links: Links, st: PassState, w: Coord, bomb: Coord)
    requires Wf(field, links, st) && InField(field, w)
    ensures var r := ReduceEffectiveValue(field, links, st, w, bomb);
      forall x :: x in r.safe <==>
        x in st.safe
        || (st.effective[w] == Some(1) && InField(field, x) && Adjacent(x, w)
            && x !in st.adjacentBombs[w] + [bomb] && At(field, x).isUnchecked)
  {
  }

  lemma ReduceStepSafe(field: Field, links: Links, st: PassState, bomb: Coord, w: Coord)
    requires Wf(field, links, st) && EffectiveMatches(field, st) && SafeMatches(field, st) && InField(field, w)
    ensures SafeMatches(field, ReduceEffectiveValue(field, links, st, w, bomb))
  {
    var r := ReduceEffectiveValue(field, links, st, w, bomb);
    var old_ := st.adjacentBombs[w];
    var bombs := old_ + [bomb];
    ReduceEffectiveValueBombs(field, links, st, w, bomb);
    ReduceEffectiveValueSafe(field, links, st, w, bomb);
    var ra := r.adjacentBombs;
    assert ra[w] == bombs;
    // Witnesses of wrappers other than w are untouched; those of w only change when it reaches its value.
    forall u, x | SafeWitness(field, ra, u, x)
      ensures x in r.safe
    {
      if u == w {
        var v := At(field, w).value.value;
        if |old_| >= v {
          assert bombs[..v] == old_[..v];
          assert SafeWitness(field, st.adjacentBombs, u, x);
        } else {
          assert |bombs| == v && bombs[..v] == bombs;
          assert st.effective[w] == Some(1);
        }
      } else {
        assert ra[u] == st.adjacentBombs[u];
        assert SafeWitness(field, st.adjacentBombs, u, x);
      }
    }
    forall x | x in r.safe
      ensures exists u :: SafeWitness(field, ra, u, x)
    {
      if x in st.safe {
        var u :| SafeWitness(field, st.adjacentBombs, u, x);
        if u == w {
          var v := At(field, w).value.value;
          assert bombs[..v] == old_[..v];
        } else {
          assert ra[u] == st.adjacentBombs[u];
        }
        assert SafeWitness(field, ra, u, x);
      } else {
        var v := At(field, w).value.value;
        assert st.effective[w] == Some(1);
        assert |bombs| == v && bombs[..v] == bombs;
        assert SafeWitness(field, ra, w, x);
      }
    }
  }

  /** One reduce_effective_value call keeps the invariant and takes `w` off the pending set. */
  lemma ReduceStep(field: Field, links: Links, st: PassState, bomb: Coord, pending: set<Coord>, w: Coord)
    requires LinksOk(field, links) && InvPending(field, st, bomb, pending)
    requires InField(field, bomb) && bomb in st.reduced
    requires w in pending && InField(field, w) && Adjacent(w, bomb)
    ensures InvPending(field, ReduceEffectiveValue(field, links, st, w, bomb), bomb, pending - {w})
  {
    ReduceStepBombs(field, links, st, bomb, pending, w);
    ReduceStepEffective(field, links, st, bomb, w);
    ReduceStepSafe(field, links, st, bomb, w);
  }

  /** Reducing the first j squares of `ns`, all neighbours of `bomb`, keeps the invariant. */
  lemma {:induction false} ReduceEachInv(field: Field, links: Links, st: PassState, bomb: Coord, ns: seq<Coord>, j: nat)
    requires LinksOk(field, links) && InField(field, bomb)
    requires NoDuplicates(ns) && forall w :: w in ns ==> InField(field, w) && Adjacent(w, bomb)
    requires InvPending(field, st, bomb, Elems(ns)) && bomb in st.reduced
    requires j <= |ns|
    ensures InvPending(field, ReduceEach(field, links, st, ns[..j], bomb), bomb, Elems(ns[j..]))
  {
    if j == 0 {
      assert ns[..0] == [] && ns[0..] == ns;
    } else {
      ReduceEachInv(field, links, st, bomb, ns, j - 1);
      var prev := ReduceEach(field, links, st, ns[..j - 1], bomb);
      var w := ns[j - 1];
      PendingShrinks(ns, j);
      ReduceStep(field, links, prev, bomb, Elems(ns[j - 1..]), w);
      ReduceEachLast(field, links, st, bomb, ns, j);
    }
  }

  lemma ReduceEachLast(field: Field, links: Links, st: PassState, bomb: Coord, ns: seq<Coord>, j: nat)
    requires Wf(field, links, st) && forall w :: w in ns ==> InField(field, w)
    requires 0 < j <= |ns|
    ensures ReduceEach(field, links, st, ns[..j], bomb)
         == ReduceEffectiveValue(field, links, ReduceEach(field, links, st, ns[..j - 1], bomb), ns[j - 1], bomb)
  {
    assert ns[..j][..j - 1] == ns[..j - 1];
  }

  lemma PendingShrinks<T>(ns: seq<T>, j: nat)
    requires NoDuplicates(ns) && 0 < j <= |ns|
    ensures ns[j - 1] in Elems(ns[j - 1..])
    ensures Elems(ns[j - 1..]) - {ns[j - 1]} == Elems(ns[j..])
  {
    assert ns[j - 1..] == [ns[j - 1]] + ns[j..];
    assert ns[j - 1] !in ns[j..];
  }

  /** Setting has_reduced_neighbours on `w` leaves every neighbour of `w` pending. */
  lemma MarkStartInv(field: Field, links: Links, st: PassState, w: Coord)
    requires LinksOk(field, links) && Inv(field, st) && InField(field, w) && At(field, w).isUnchecked && w !in st.reduced
    ensures InvPending(field, st.(reduced := st.reduced + {w}), w, Elems(links[w]))
  {
    var st1 := st.(reduced := st.reduced + {w});
    var ns := links[w];
    assert forall u :: u in Elems(ns) <==> InField(field, u) && Adjacent(u, w);
    forall u, b | InField(field, u)
      ensures b in st1.adjacentBombs[u] <==> b in st1.reduced && Adjacent(b, u) && !(b == w && u in Elems(ns))
    {
      assert b in st.adjacentBombs[u] <==> b in st.reduced && Adjacent(b, u);
    }
  }

  /** Marking an unchecked square and reducing its neighbours, unless already marked, keeps the invariant. */
  lemma MarkBombInv(field: Field, links: Links, st: PassState, w: Coord)
    requires LinksOk(field, links) && Inv(field, st) && InField(field, w) && At(field, w).isUnchecked
    ensures Inv(field, MarkBomb(field, links, st, w))
  {
    if w !in st.reduced {
      var st1 := st.(reduced := st.reduced + {w});
      var ns := links[w];
      MarkStartInv(field, links, st, w);
      ReduceEachInv(field, links, st1, w, ns, |ns|);
      assert ns[..|ns|] == ns;
      assert Elems(ns[|ns|..]) == {} by {
        assert ns[|ns|..] == [];
      }
      NoPending(field, MarkBomb(field, links, st, w), w);
    }
  }

  lemma {:induction false} MarkEachInv(field: Field, links: Links, st: PassState, ws: seq<Coord>)
    requires LinksOk(field, links) && Inv(field, st)
    requires forall w :: w in ws ==> InField(field, w) && At(field, w).isUnchecked
    ensures Inv(field, MarkEach(field, links, st, ws))
  {
    if ws != [] {
      MarkEachInv(field, links, st, ws[..|ws| - 1]);
      MarkBombInv(field, links, MarkEach(field, links, st, ws[..|ws| - 1]), ws[|ws| - 1]);
    }
  }

  lemma {:induction false} UpdateEachInv(field: Field, links: Links, st: PassState, ps: seq<Coord>)
    requires LinksOk(field, links) && Inv(field, st) && forall p :: p in ps ==> InField(field, p)
    ensures Inv(field, UpdateEach(field, links, st, ps))
  {
    if ps != [] {
      UpdateEachInv(field, links, st, ps[..|ps| - 1]);
      var p := ps[|ps| - 1];
      if IsValueCompletelyAssigned(field, links, p) {
        MarkEachInv(field, links, UpdateEach(field, links, st, ps[..|ps| - 1]), UncheckedNeighbours(field, links, p));
      }
    }
  }

  lemma PropagatedInv(field: Field, links: Links)
    requires LinksOk(field, links)
    ensures Inv(field, Propagated(field, links))
  {
    InitialInv(field);
    UpdateEachInv(field, links, InitialState(field), Scan(field));
  }

  /** The bombs the wrappers of `ps` deduce: the unchecked neighbours of those that are completely assigned. */
  lemma {:induction false} BombsOfMembers(field: Field, links: Links, ps: seq<Coord>)
    requires LinksOk(field, links) && forall p :: p in ps ==> InField(field, p)
    ensures forall x :: x in BombsOf(field, links, ps) <==>
      exists k :: k in ps && IsValueCompletelyAssigned(field, links, k) && x in UncheckedNeighbours(field, links, k)
  {
    if ps != [] {
      var init := ps[..|ps| - 1];
      BombsOfMembers(field, links, init);
      forall x | x in BombsOf(field, links, ps)
        ensures exists k :: k in ps && IsValueCompletelyAssigned(field, links, k) && x in UncheckedNeighbours(field, links, k)
      {
        if x in BombsOf(field, links, init) {
          var k :| k in init && IsValueCompletelyAssigned(field, links, k) && x in UncheckedNeighbours(field, links, k);
          assert k in ps;
        } else {
          assert ps[|ps| - 1] in ps;
        }
      }
      forall x, k | k in ps && IsValueCompletelyAssigned(field, links, k) && x in UncheckedNeighbours(field, links, k)
        ensures x in BombsOf(field, links, ps)
      {
        if k != ps[|ps| - 1] {
          assert ps == init + [ps[|ps| - 1]];
          assert k in init;
        }
      }
    }
  }

  /**
   * After the pass, has_reduced_neighbours is set on exactly the unchecked
   * neighbours of the completely assigned wrappers. The test reads only the
   * squares' values and unchecked flags, so the result does not depend on
   * the order in which the wrappers are visited.
   */
  lemma DeducedBombs(field: Field, links: Links)
    requires LinksOk(field, links)
    ensures forall x :: x in Propagated(field, links).reduced <==>
      exists k :: InField(field, k) && IsValueCompletelyAssigned(field, links, k) && x in UncheckedNeighbours(field, links, k)
  {
    BombsOfMembers(field, links, Scan(field));
  }

  /** The deduced bombs next to `w`. */
  ghost function DeducedNeighbours(field: Field, links: Links, w: Coord): set<Coord>
    requires LinksOk(field, links)
  {
    set b | b in Propagated(field, links).reduced && Adjacent(b, w)
  }

  /**
   * After the pass, adjacent_bombs of every wrapper lists each deduced bomb
   * next to it exactly once, so each bomb reduced each neighbour once, and
   * effective_value is the square's value less that number.
   */
  lemma AdjacentBombsAfterPass(field: Field, links: Links, w: Coord)
    requires LinksOk(field, links) && InField(field, w)
    ensures var st := Propagated(field, links);
      && NoDuplicates(st.adjacentBombs[w])
      && (forall b :: b in st.adjacentBombs[w] <==> b in st.reduced && Adjacent(b, w))
      && |st.adjacentBombs[w]| == |DeducedNeighbours(field, links, w)|
      && st.effective[w] == Minus(At(field, w).value, |DeducedNeighbours(field, links, w)|)
  {
    PropagatedInv(field, links);
    AdjacentBombsOf(field, Propagated(field, links), w);
  }

  /** What the invariant says about one wrapper's adjacent_bombs and effective_value. */
  lemma AdjacentBombsOf(field: Field, st: PassState, w: Coord)
    requires Inv(field, st) && InField(field, w)
    ensures NoDuplicates(st.adjacentBombs[w])
    ensures forall b :: b in st.adjacentBombs[w] <==> b in st.reduced && Adjacent(b, w)
    ensures Elems(st.adjacentBombs[w]) == set b | b in st.reduced && Adjacent(b, w)
    ensures |st.adjacentBombs[w]| == |set b | b in st.reduced && Adjacent(b, w)|
    ensures st.effective[w] == Minus(At(field, w).value, |set b | b in st.reduced && Adjacent(b, w)|)
  {
    var bs := st.adjacentBombs[w];
    assert forall b :: b in bs <==> b in st.reduced && Adjacent(b, w) by {
      assert BombListsExact(field, st, Coord(-1, -1), {});
    }
    assert Elems(bs) == set b | b in st.reduced && Adjacent(b, w);
    DistinctCount(bs);
  }

  /**
   * The squares appended as safe during the pass are exactly those with a
   * witness; in particular each is an unchecked square of the field, and
   * every unchecked, non-bomb neighbour of a wrapper whose positive value
   * is matched by deduced bombs is among them.
   */
  lemma SafeAfterPass(field: Field, links: Links)
    requires LinksOk(field, links)
    ensures var st := Propagated(field, links);
      forall x :: x in st.safe <==> exists w :: SafeWitness(field, st.adjacentBombs, w, x)
    ensures var st := Propagated(field, links);
      forall x :: x in st.safe ==> InField(field, x) && At(field, x).isUnchecked
    ensures var st := Propagated(field, links);
      forall w, x ::
        && InField(field, w) && At(field, w).value.Some?
        && 0 < At(field, w).value.value <= |DeducedNeighbours(field, links, w)|
        && InField(field, x) && Adjacent(x, w) && At(field, x).isUnchecked && x !in st.reduced
        ==> x in st.safe
  {
    var st := Propagated(field, links);
    PropagatedInv(field, links);
    forall w, x |
        && InField(field, w) && At(field, w).value.Some?
        && 0 < At(field, w).value.value <= |DeducedNeighbours(field, links, w)|
        && InField(field, x) && Adjacent(x, w) && At(field, x).isUnchecked && x !in st.reduced
      ensures x in st.safe
    {
      AdjacentBombsAfterPass(field, links, w);
      var v := At(field, w).value.value;
      assert x !in st.adjacentBombs[w];
      assert x !in st.adjacentBombs[w][..v];
      assert SafeWitness(field, st.adjacentBombs, w, x);
    }
  }

  /** A subset of a set has no more elements. */
  lemma {:induction false} SubsetCount<T>(a: set<T>, b: set<T>)
    requires a <= b
    ensures |a| <= |b|
    decreases |b|
  {
    if a != {} {
      var x :| x in a;
      SubsetCount(a - {x}, b - {x});
    }
  }

  /** The bomb list of a completely assigned wrapper is its unchecked neighbours, in some order. */
  lemma CompletelyAssignedBombList(field: Field, links: Links, w: Coord)
    requires LinksOk(field, links) && InField(field, w) && IsValueCompletelyAssigned(field, links, w)
    ensures var bs := Propagated(field, links).adjacentBombs[w];
      Elems(bs) == Elems(UncheckedNeighbours(field, links, w)) && |bs| == At(field, w).value.value
  {
    var st := Propagated(field, links);
    var bs := st.adjacentBombs[w];
    var us := UncheckedNeighbours(field, links, w);
    PropagatedInv(field, links);
    AdjacentBombsAfterPass(field, links, w);
    forall x | x in us
      ensures x in bs
    {
      DeducedBombs(field, links);
      assert x in st.reduced;
    }
    forall x | x in bs
      ensures x in us
    {
      assert x in st.reduced && Adjacent(x, w);
      assert ReducedUnchecked(field, st);
    }
    assert Elems(bs) == Elems(us);
    DistinctCount(bs);
    DistinctCount(us);
  }

  /**
   * A completely assigned wrapper appends no safe square of its own: when
   * its effective value reaches 0 all of its unchecked neighbours are
   * already in its adjacent_bombs.
   */
  lemma CompletelyAssignedAppendsNothing(field: Field, links: Links, w: Coord)
    requires LinksOk(field, links) && InField(field, w) && IsValueCompletelyAssigned(field, links, w)
    ensures forall x :: !SafeWitness(field, Propagated(field, links).adjacentBombs, w, x)
  {
    var bs := Propagated(field, links).adjacentBombs[w];
    CompletelyAssignedBombList(field, links, w);
    assert bs[..At(field, w).value.value] == bs;
    forall x | InField(field, x) && Adjacent(x, w) && At(field, x).isUnchecked
      ensures x in bs[..At(field, w).value.value]
    {
      assert x in UncheckedNeighbours(field, links, w);
      assert x in Elems(bs);
    }
  }
}
