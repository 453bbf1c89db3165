/**
 * ExpressionBounds: the bound store both propagators read and write, over
 * the canonical Bounds of the problem's relations.
 */
module Store {
  import opened Wrappers
  import opened TupleAlgebra
  import opened Ast

  /**
   * Everything the store holds: the universe size and the canonical bounds
   * of relations (kodkod.instance.Bounds), the store's own bounds of other
   * expressions, the `changed` flag, and whether the canonical Bounds has
   * rejected a write (Kodkod throws there, and nothing runs afterwards).
   */
  datatype State = State(
    size: nat,
    relLowers: map<NodeId, TupleSet>, relUppers: map<NodeId, TupleSet>,
    lowers: map<NodeId, TupleSet>, uppers: map<NodeId, TupleSet>,
    changed: bool, failed: bool)

  /** A store over canonical bounds that has not been written yet. */
  function Fresh(size: nat, relLowers: map<NodeId, TupleSet>, relUppers: map<NodeId, TupleSet>): State {
    State(size, relLowers, relUppers, map[], map[], false, false)
  }

  /**
   * lowerBound: the store's own entry, else for a relation its canonical
   * lower bound, else the empty set.
   */
  function LowerOf(s: State, e: Expr): TupleSet {
    if e.id in s.lowers then s.lowers[e.id]
    else if e.Relation? && e.id in s.relLowers then s.relLowers[e.id]
    else {}
  }

  /**
   * upperBound: the store's own entry, else for a relation its canonical
   * upper bound, else every tuple of the expression's arity.
   */
  function UpperOf(s: State, e: Expr): TupleSet {
    if e.id in s.uppers then s.uppers[e.id]
    else if e.Relation? && e.id in s.relUppers then s.relUppers[e.id]
    else AllOf(s.size, Arity(e))
  }

  /**
   * The store's own entry shadows a relation's canonical bound: a new
   * canonical bound is seen only through a relation with no entry of its
   * own, and never through any other expression.
   */
  lemma LookupShadows(s: State, e: Expr, lo: TupleSet, up: TupleSet)
    ensures var s' := s.(relLowers := s.relLowers[e.id := lo], relUppers := s.relUppers[e.id := up]);
            && (e.Relation? && e.id !in s.lowers ==> LowerOf(s', e) == lo)
            && (e.Relation? && e.id !in s.uppers ==> UpperOf(s', e) == up)
            && (e.id in s.lowers || !e.Relation? ==> LowerOf(s', e) == LowerOf(s, e))
            && (e.id in s.uppers || !e.Relation? ==> UpperOf(s', e) == UpperOf(s, e))
  {
  }

  /**
   * An expression bound nowhere reads the trivial bounds, empty below and
   * every tuple of its arity above, which admit any value it can take.
   */
  lemma UnboundIsTrivial(s: State, e: Expr, x: TupleSet)
    requires e.id !in s.lowers && e.id !in s.uppers
    requires e.Relation? ==> e.id !in s.relLowers && e.id !in s.relUppers
    requires forall t | t in x :: |t| == Arity(e) && InUniverse(s.size, t)
    ensures LowerOf(s, e) == {} <= x <= UpperOf(s, e)
  {
    forall t | t in x ensures t in UpperOf(s, e) {
      AllOfComplete(s.size, t);
    }
  }

  /** The lower bounds of the expressions `cs` in store `s`. */
  function LowersOf(s: State, cs: seq<Expr>): (r: seq<TupleSet>)
    ensures |r| == |cs| && forall i | 0 <= i < |cs| :: r[i] == LowerOf(s, cs[i])
  {
    seq(|cs|, i requires 0 <= i < |cs| => LowerOf(s, cs[i]))
  }

  /** The upper bounds of the expressions `cs` in store `s`. */
  function UppersOf(s: State, cs: seq<Expr>): (r: seq<TupleSet>)
    ensures |r| == |cs| && forall i | 0 <= i < |cs| :: r[i] == UpperOf(s, cs[i])
  {
    seq(|cs|, i requires 0 <= i < |cs| => UpperOf(s, cs[i]))
  }

  /**
   * The effect of bound(e, lower, upper). A null side keeps the current
   * bound. The call is ignored when the new lower bound has fewer tuples
   * than the current one, when the new upper bound has more, and when both
   * sides are unchanged. Otherwise a relation's bounds go to the canonical
   * Bounds, which rejects a lower bound outside the upper bound, and mark
   * the store changed; any other expression's bounds stay in the store.
   */
  function BoundSpec(s: State, e: Expr, lower: Nullable<TupleSet>, upper: Nullable<TupleSet>): State {
    var currentLower := LowerOf(s, e);
    var currentUpper := UpperOf(s, e);
    var lo := lower.GetOr(currentLower);
    var up := upper.GetOr(currentUpper);
    if s.failed then s
    else if |currentLower| > |lo| || |currentUpper| < |up| then s
    else if currentLower == lo && currentUpper == up then s
    else if e.Relation? then
      if lo <= up then
        s.(relLowers := s.relLowers[e.id := lo], relUppers := s.relUppers[e.id := up], changed := true)
      else s.(failed := true)
    else s.(lowers := s.lowers[e.id := lo], uppers := s.uppers[e.id := up])
  }

  /** kodkod.instance.Bounds: the canonical lower and upper bound of every bound relation. */
  class Bounds {
    const size: nat
    var lowers: map<NodeId, TupleSet>
    var uppers: map<NodeId, TupleSet>

    constructor (size: nat)
      ensures this.size == size && lowers == map[] && uppers == map[]
    {
      this.size := size;
      lowers := map[];
      uppers := map[];
    }

    /** Bounds.bound: records both bounds of relation `r`, refused unless lower is within upper. */
    method Bound(r: NodeId, lower: TupleSet, upper: TupleSet) returns (ok: bool)
      modifies this
      ensures ok == (lower <= upper)
      ensures ok ==> lowers == old(lowers)[r := lower] && uppers == old(uppers)[r := upper]
      ensures !ok ==> lowers == old(lowers) && uppers == old(uppers)
    {
      ok := lower <= upper;
      if ok {
        lowers := lowers[r := lower];
        uppers := uppers[r := upper];
      }
    }
  }

  class ExpressionBounds {
    const bounds: Bounds
    var lowers: map<NodeId, TupleSet>
    var uppers: map<NodeId, TupleSet>
    var changed: bool
    var failed: bool

    constructor (bounds: Bounds)
      ensures this.bounds == bounds
      ensures View() == Fresh(bounds.size, bounds.lowers, bounds.uppers)
    {
      this.bounds := bounds;
      lowers := map[];
      uppers := map[];
      changed := false;
      failed := false;
    }

    /** The store's contents as a value. */
    function View(): State
      reads this, bounds
    {
      State(bounds.size, bounds.lowers, bounds.uppers, lowers, uppers, changed, failed)
    }

    /** lowerBound: the store's own entry, else a relation's canonical lower bound, else empty. */
    function LowerBound(e: Expr): (r: TupleSet)
      reads this, bounds
      ensures e.id in lowers ==> r == lowers[e.id]
      ensures e.id !in lowers && e.Relation? && e.id in bounds.lowers ==> r == bounds.lowers[e.id]
      ensures e.id !in lowers && !(e.Relation? && e.id in bounds.lowers) ==> r == {}
    {
      LowerOf(View(), e)
    }

    /** upperBound: the store's own entry, else a relation's canonical upper bound, else every tuple of its arity. */
    function UpperBound(e: Expr): (r: TupleSet)
      reads this, bounds
      ensures e.id in uppers ==> r == uppers[e.id]
      ensures e.id !in uppers && e.Relation? && e.id in bounds.uppers ==> r == bounds.uppers[e.id]
      ensures e.id !in uppers && !(e.Relation? && e.id in bounds.uppers) ==> r == AllOf(bounds.size, Arity(e))
    {
      UpperOf(View(), e)
    }

    /** bound: tightens the bounds of `e`, null sides kept as they are. */
    method Bound(e: Expr, lower: Nullable<TupleSet>, upper: Nullable<TupleSet>)
      modifies this, bounds
      ensures View() == BoundSpec(old(View()), e, lower, upper)
    {
      var currentLower := LowerBound(e);
      var currentUpper := UpperBound(e);
      var lo := lower.GetOr(currentLower);
      var up := upper.GetOr(currentUpper);
      if failed {
        return;
      }
      if |currentLower| > |lo| {
        return;
      }
      if |currentUpper| < |up| {
        return;
      }
      if currentLower != lo || currentUpper != up {
        if e.Relation? {
          var ok := bounds.Bound(e.id, lo, up);
          if !ok {
            failed := true;
            return;
          }
          changed := true;
        } else {
          lowers := lowers[e.id := lo];
          uppers := uppers[e.id := up];
        }
      }
    }

    method Reset()
      modifies this
      ensures View() == old(View()).(changed := false)
    {
      changed := false;
    }

    function Changed(): (r: bool)
      reads this
      ensures r == changed
    {
      changed
    }
  }

  // ---------------------------------------------------------------- properties of bound

  /** A null side of bound leaves that side where it is. */
  lemma BoundNullKeeps(s: State, e: Expr, lower: Nullable<TupleSet>, upper: Nullable<TupleSet>)
    requires !BoundSpec(s, e, lower, upper).failed
    ensures lower.Null? ==> LowerOf(BoundSpec(s, e, lower, upper), e) == LowerOf(s, e)
    ensures upper.Null? ==> UpperOf(BoundSpec(s, e, lower, upper), e) == UpperOf(s, e)
  {
  }

  /** bound ignores a lower bound with fewer tuples or an upper bound with more tuples than the current ones. */
  lemma BoundRefusesLoosening(s: State, e: Expr, lo: TupleSet, up: TupleSet)
    requires |lo| < |LowerOf(s, e)| || |up| > |UpperOf(s, e)|
    ensures BoundSpec(s, e, NonNull(lo), NonNull(up)) == s
  {
  }

  /** bound with the current bounds changes nothing. */
  lemma BoundSameIsNoop(s: State, e: Expr)
    ensures BoundSpec(s, e, NonNull(LowerOf(s, e)), NonNull(UpperOf(s, e))) == s
  {
  }

  /**
   * The check is on sizes, not on inclusion: a lower bound of the same size
   * with different tuples replaces the old one.
   */
  lemma BoundAcceptsSameSizeSwap()
    ensures var s := State(2, map[7 := {[0]}], map[7 := {[0], [1]}], map[], map[], false, false);
            var s' := BoundSpec(s, Relation(7, 1), NonNull({[1]}), Null);
            !s'.failed && s'.changed && s'.relLowers[7] == {[1]} && s'.relUppers[7] == {[0], [1]}
  {
  }

  /**
   * An accepted, effective bound of a relation writes through to the
   * canonical bounds and marks the store changed; an effective bound of any
   * other expression stays in the store and leaves the flag alone.
   */
  lemma BoundWrites(s: State, e: Expr, lo: TupleSet, up: TupleSet)
    requires !s.failed
    requires |lo| >= |LowerOf(s, e)| && |up| <= |UpperOf(s, e)|
    requires lo != LowerOf(s, e) || up != UpperOf(s, e)
    ensures var s' := BoundSpec(s, e, NonNull(lo), NonNull(up));
            && (e.Relation? && lo <= up ==>
                  s'.changed && s'.relLowers[e.id] == lo && s'.relUppers[e.id] == up && s'.lowers == s.lowers)
            && (e.Relation? && !(lo <= up) ==> s'.failed && s'.relLowers == s.relLowers)
            && (!e.Relation? ==>
                  s'.changed == s.changed && s'.relLowers == s.relLowers && s'.relUppers == s.relUppers
                  && LowerOf(s', e) == lo && UpperOf(s', e) == up)
  {
    var s' := BoundSpec(s, e, NonNull(lo), NonNull(up));
    if e.Relation? {
      if lo <= up {
        assert s' == s.(relLowers := s.relLowers[e.id := lo], relUppers := s.relUppers[e.id := up], changed := true);
      } else {
        assert s' == s.(failed := true);
      }
    } else {
      assert s' == s.(lowers := s.lowers[e.id := lo], uppers := s.uppers[e.id := up]);
    }
  }

  /** Only an accepted write of a relation's bounds sets the changed flag or alters the canonical bounds. */
  lemma BoundChangesOnlyRelations(s: State, e: Expr, lower: Nullable<TupleSet>, upper: Nullable<TupleSet>)
    ensures var s' := BoundSpec(s, e, lower, upper);
            (s'.changed && !s.changed) || s'.relLowers != s.relLowers || s'.relUppers != s.relUppers
            ==> e.Relation? && s'.changed
  {
  }

  // ---------------------------------------------------------------- the invariant every pass keeps

  /** Both sides bind the same relations and every lower bound lies within its upper bound. */
  ghost predicate Consistent(L: map<NodeId, TupleSet>, U: map<NodeId, TupleSet>) {
    L.Keys == U.Keys && forall r | r in L :: L[r] <= U[r]
  }

  /** The canonical bounds are consistent. */
  ghost predicate CanonValid(s: State) {
    Consistent(s.relLowers, s.relUppers)
  }

  /** The store holds no entry of its own for an id of R (the ids of the relations). */
  ghost predicate LocalAvoids(s: State, R: set<NodeId>) {
    s.lowers.Keys !! R && s.uppers.Keys !! R
  }

  /** Bound relations stay bound, lower bounds never lose size and upper bounds never gain it. */
  ghost predicate Narrowed(L0: map<NodeId, TupleSet>, U0: map<NodeId, TupleSet>, L1: map<NodeId, TupleSet>, U1: map<NodeId, TupleSet>) {
    && (forall r | r in L0 :: r in L1 && |L1[r]| >= |L0[r]|)
    && (forall r | r in U0 :: r in U1 && |U1[r]| <= |U0[r]|)
  }

  /** The canonical bounds of `s1` are narrowed from those of `s0`. */
  ghost predicate Tightened(s0: State, s1: State) {
    Narrowed(s0.relLowers, s0.relUppers, s1.relLowers, s1.relUppers)
  }

  /**
   * What any sequence of bound calls keeps: the universe; a failed store
   * stays as it is; the changed flag is never cleared, and while it is clear
   * the canonical bounds are untouched; valid canonical bounds stay valid;
   * and when the store keeps no entries for relations, it keeps none and
   * the canonical bounds only tighten.
   */
  ghost predicate Evolves(s0: State, s1: State, R: set<NodeId>) {
    && s1.size == s0.size
    && (s0.failed ==> s1 == s0)
    && (s0.changed ==> s1.changed)
    && (!s1.changed ==> s1.relLowers == s0.relLowers && s1.relUppers == s0.relUppers)
    && (CanonValid(s0) ==> CanonValid(s1))
    && (LocalAvoids(s0, R) ==> LocalAvoids(s1, R) && Tightened(s0, s1))
  }

  lemma EvolvesReflexive(s: State, R: set<NodeId>)
    ensures Evolves(s, s, R)
  {
  }

  lemma EvolvesTransitive(s0: State, s1: State, s2: State, R: set<NodeId>)
    requires Evolves(s0, s1, R) && Evolves(s1, s2, R)
    ensures Evolves(s0, s2, R)
  {
  }

  /** A canonical write that passed the size checks keeps the invariant. */
  lemma RelationWriteEvolves(s: State, e: Expr, lo: TupleSet, up: TupleSet, R: set<NodeId>)
    requires e.Relation? && e.id in R && !s.failed && lo <= up
    requires |LowerOf(s, e)| <= |lo| && |UpperOf(s, e)| >= |up|
    ensures Evolves(s, s.(relLowers := s.relLowers[e.id := lo], relUppers := s.relUppers[e.id := up], changed := true), R)
  {
    var s' := s.(relLowers := s.relLowers[e.id := lo], relUppers := s.relUppers[e.id := up], changed := true);
    if LocalAvoids(s, R) {
      assert e.id !in s.lowers && e.id !in s.uppers;
      assert Tightened(s, s');
    }
  }

  /** An entry of the store's own for an expression that is not a relation keeps the invariant. */
  lemma LocalWriteEvolves(s: State, e: Expr, lo: TupleSet, up: TupleSet, R: set<NodeId>)
    requires e.id !in R && !s.failed
    ensures Evolves(s, s.(lowers := s.lowers[e.id := lo], uppers := s.uppers[e.id := up]), R)
  {
  }

  /** One bound call keeps the invariant. */
  lemma BoundEvolves(s: State, e: Expr, lower: Nullable<TupleSet>, upper: Nullable<TupleSet>, R: set<NodeId>)
    requires Separates(R, e)
    ensures Evolves(s, BoundSpec(s, e, lower, upper), R)
  {
    var currentLower, currentUpper := LowerOf(s, e), UpperOf(s, e);
    var lo, up := lower.GetOr(currentLower), upper.GetOr(currentUpper);
    if s.failed || |currentLower| > |lo| || |currentUpper| < |up| || (currentLower == lo && currentUpper == up) {
      EvolvesReflexive(s, R);
    } else if e.Relation? {
      if lo <= up {
        RelationWriteEvolves(s, e, lo, up, R);
      }
    } else {
      LocalWriteEvolves(s, e, lo, up, R);
    }
  }
}
