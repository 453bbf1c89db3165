/**
 * The propagation loop the examples run before solving: build a fresh
 * store over the problem's Bounds, run the upward propagator over the
 * formula, then the downward propagator, and repeat for as long as some
 * relation's canonical bounds changed.
 */
module Driver {
  import opened TupleAlgebra
  import opened Ast
  import opened Store
  import opened Traversal
  import Upward
  import Downward

  /** How the loop ended: no relation changed, Bounds.bound refused a write, or the pass budget ran out. */
  datatype Outcome = Converged | Failed | OutOfFuel

  /**
   * One round of the loop on canonical bounds `L`/`U`: a fresh store, an
   * upward pass and a downward pass, each propagator with its own empty
   * visited set.
   */
  ghost function Pass(f: Formula, size: nat, L: map<NodeId, TupleSet>, U: map<NodeId, TupleSet>): State {
    var s0 := Fresh(size, L, U);
    var s1 := Upward.UpFormula(Walk(s0, {}), f).store;
    Downward.DownFormula(Walk(s1, {}), f).store
  }

  /**
   * The loop run with a budget of `fuel` rounds: how it ends and the
   * canonical bounds it leaves behind.
   */
  ghost function Run(f: Formula, size: nat, L: map<NodeId, TupleSet>, U: map<NodeId, TupleSet>, fuel: nat)
    : (Outcome, map<NodeId, TupleSet>, map<NodeId, TupleSet>)
    decreases fuel
  {
    if fuel == 0 then (OutOfFuel, L, U)
    else
      var s := Pass(f, size, L, U);
      if s.failed then (Failed, s.relLowers, s.relUppers)
      else if !s.changed then (Converged, s.relLowers, s.relUppers)
      else Run(f, size, s.relLowers, s.relUppers, fuel - 1)
  }

  /**
   * One round only tightens the canonical bounds, keeps them consistent,
   * and reports no change only when it left them as they were.
   */
  lemma PassTightens(f: Formula, size: nat, L: map<NodeId, TupleSet>, U: map<NodeId, TupleSet>, R: set<NodeId>)
    requires SeparatedFormula(R, f)
    ensures var s := Pass(f, size, L, U);
      && s.size == size
      && Narrowed(L, U, s.relLowers, s.relUppers)
      && (!s.changed ==> s.relLowers == L && s.relUppers == U)
      && (Consistent(L, U) ==> Consistent(s.relLowers, s.relUppers))
  {
    var s0 := Fresh(size, L, U);
    var s1 := Upward.UpFormula(Walk(s0, {}), f).store;
    var s2 := Downward.DownFormula(Walk(s1, {}), f).store;
    Upward.UpFormulaEvolves(Walk(s0, {}), f, R);
    Downward.DownFormulaEvolves(Walk(s1, {}), f, R);
    EvolvesTransitive(s0, s1, s2, R);
    assert LocalAvoids(s0, R);
  }

  /** Going from bounds `L0`/`U0` to `L1`/`U1` only tightens them and keeps consistent bounds consistent. */
  ghost predicate Tighter(L0: map<NodeId, TupleSet>, U0: map<NodeId, TupleSet>, L1: map<NodeId, TupleSet>, U1: map<NodeId, TupleSet>) {
    Narrowed(L0, U0, L1, U1) && (Consistent(L0, U0) ==> Consistent(L1, U1))
  }

  lemma TighterTransitive(L0: map<NodeId, TupleSet>, U0: map<NodeId, TupleSet>, L1: map<NodeId, TupleSet>, U1: map<NodeId, TupleSet>,
                          L2: map<NodeId, TupleSet>, U2: map<NodeId, TupleSet>)
    requires Tighter(L0, U0, L1, U1) && Tighter(L1, U1, L2, U2)
    ensures Tighter(L0, U0, L2, U2)
  {
  }

  /**
   * However the loop ends, the canonical bounds it leaves are tighter than
   * those it started from, and consistent bounds stay consistent.
   */
  lemma {:induction false} RunTightens(f: Formula, size: nat, L: map<NodeId, TupleSet>, U: map<NodeId, TupleSet>, fuel: nat, R: set<NodeId>)
    requires SeparatedFormula(R, f)
    ensures var r := Run(f, size, L, U, fuel); Tighter(L, U, r.1, r.2)
    decreases fuel
  {
    if fuel > 0 {
      var s := Pass(f, size, L, U);
      PassTightens(f, size, L, U, R);
      assert Tighter(L, U, s.relLowers, s.relUppers);
      if !s.failed && s.changed {
        RunTightens(f, size, s.relLowers, s.relUppers, fuel - 1, R);
        var r := Run(f, size, s.relLowers, s.relUppers, fuel - 1);
        TighterTransitive(L, U, s.relLowers, s.relUppers, r.1, r.2);
      }
    }
  }

  /**
   * When the loop converges, its bounds are a fixpoint: one more round
   * changes nothing and fails nowhere.
   */
  lemma {:induction false} ConvergedIsFixpoint(f: Formula, size: nat, L: map<NodeId, TupleSet>, U: map<NodeId, TupleSet>, fuel: nat, R: set<NodeId>)
    requires SeparatedFormula(R, f)
    requires Run(f, size, L, U, fuel).0 == Converged
    ensures var r := Run(f, size, L, U, fuel);
      var s := Pass(f, size, r.1, r.2);
      !s.changed && !s.failed && s.relLowers == r.1 && s.relUppers == r.2
    decreases fuel
  {
    var s := Pass(f, size, L, U);
    if s.changed {
      ConvergedIsFixpoint(f, size, s.relLowers, s.relUppers, fuel - 1, R);
    } else {
      PassTightens(f, size, L, U, R);
    }
  }

  /** One round of the loop body on the problem's Bounds. */
  method PropagateOnce(f: Formula, bounds: Bounds) returns (changed: bool, failed: bool)
    modifies bounds
    ensures var s := Pass(f, bounds.size, old(bounds.lowers), old(bounds.uppers));
      && bounds.lowers == s.relLowers && bounds.uppers == s.relUppers
      && changed == s.changed && failed == s.failed
  {
    var eb := new ExpressionBounds(bounds);
    var up := new BoundPropagator(eb);
    Upward.AcceptFormula(up, f);
    var down := new BoundPropagator(eb);
    Downward.AcceptFormula(down, f);
    changed := eb.Changed();
    failed := eb.failed;
  }

  /**
   * The loop: rounds until one reports no change. A refused write ends it
   * with Failed (Kodkod throws out of the loop there); `fuel` caps the
   * number of rounds.
   */
  method Propagate(f: Formula, bounds: Bounds, fuel: nat) returns (outcome: Outcome)
    modifies bounds
    ensures (outcome, bounds.lowers, bounds.uppers) == Run(f, bounds.size, old(bounds.lowers), old(bounds.uppers), fuel)
  {
    var changed := true;
    var left: nat := fuel;
    while changed
      invariant left <= fuel
      invariant changed ==> Run(f, bounds.size, old(bounds.lowers), old(bounds.uppers), fuel)
                            == Run(f, bounds.size, bounds.lowers, bounds.uppers, left)
      invariant !changed ==> Run(f, bounds.size, old(bounds.lowers), old(bounds.uppers), fuel)
                             == (Converged, bounds.lowers, bounds.uppers)
      decreases left
    {
      if left == 0 {
        return OutOfFuel;
      }
      var failed;
      changed, failed := PropagateOnce(f, bounds);
      if failed {
        return Failed;
      }
      left := left - 1;
    }
    outcome := Converged;
  }
}
