/**
 * UpwardExpressionBoundPropagator: every expression node gets bounds
 * computed from its operands' bounds, after the operands have been visited.
 */
module Upward {
  import opened Wrappers
  import opened TupleAlgebra
  import opened TransitiveClosure
  import opened Ast
  import opened Store
  import opened Traversal
  import opened Semantics

  // ---------------------------------------------------------------- the rules

  /** The (lower, upper) the rule gives a binary expression from its operands' bounds. */
  function BinaryBounds(op: ExprOp, lL: TupleSet, uL: TupleSet, lR: TupleSet, uR: TupleSet): (TupleSet, TupleSet) {
    match op
    case Difference => (lL - uR, uL - lR)
    case Intersection => (lL * lR, uL * uR)
    case Join => (JoinSet(lL, lR), JoinSet(uL, uR))
    case Override => (OverrideSet(lL, lR, uR), OverrideSet(uL, uR, lR))
    case Product => (ProductSet(lL, lR), ProductSet(uL, uR))
    case Union => (lL + lR, uL + uR)
  }

  /** Whatever values within their bounds the operands take, the binary rule's bounds hold the result. */
  lemma BinaryBoundsSound(op: ExprOp, lL: TupleSet, uL: TupleSet, lR: TupleSet, uR: TupleSet, x: TupleSet, y: TupleSet)
    requires lL <= x <= uL && lR <= y <= uR
    ensures BinaryBounds(op, lL, uL, lR, uR).0 <= ApplyBinary(op, x, y) <= BinaryBounds(op, lL, uL, lR, uR).1
  {
    if op == Override {
      FirstsMonotone(y, uR);
      FirstsMonotone(lR, y);
    }
  }

  /**
   * The (lower, upper) the rule gives a unary expression from its operand's
   * bounds: getTransposeSet or getClosureSet of each side. The reflexive
   * closure adds loops only on the atoms of each side's own tuples.
   */
  ghost function UnaryBounds(op: UnaryOp, l: TupleSet, u: TupleSet): (TupleSet, TupleSet) {
    match op
    case Transpose => (TransposeSet(l), TransposeSet(u))
    case Closure => (ClosureOf(l, false), ClosureOf(u, false))
    case ReflexiveClosure => (ClosureOf(l, true), ClosureOf(u, true))
  }

  /**
   * Whatever value within its bounds the operand takes, the unary rule's
   * lower bound lies within the result. So does the result within the
   * upper bound, except for the reflexive closure, whose upper bound holds
   * the result only when every atom of the universe lies on an edge of the
   * operand's upper bound.
   */
  lemma UnaryBoundsSound(op: UnaryOp, size: nat, l: TupleSet, u: TupleSet, x: TupleSet)
    requires l <= x <= u
    requires forall t | t in u :: InUniverse(size, t)
    ensures UnaryBounds(op, l, u).0 <= ApplyUnary(op, size, x)
    ensures op != ReflexiveClosure || Atoms(size) <= EdgeAtoms(u) ==> ApplyUnary(op, size, x) <= UnaryBounds(op, l, u).1
  {
    UnaryMonotone(op, size, l, x);
    UnaryMonotone(op, size, x, u);
    if op == ReflexiveClosure {
      ClosureMonotone(l, x, false);
      assert EdgeAtoms(l) <= Atoms(size) by {
        forall t | t in Edges(l) ensures t[0] < size && t[1] < size {
          assert InUniverse(size, t);
        }
      }
      ClosureMonotone(x, u, true);
    }
  }

  /**
   * The reflexive closure's upper bound can miss a loop: over three atoms,
   * with r between {} and {(0, 1)}, every value of *r holds (2, 2), which
   * the rule's upper bound leaves out.
   */
  lemma ReflexiveClosureUpperMissesLoops(x: TupleSet)
    requires x <= {[0, 1]}
    ensures [2, 2] in ApplyUnary(ReflexiveClosure, 3, x)
    ensures [2, 2] !in UnaryBounds(ReflexiveClosure, {}, {[0, 1]}).1
  {
    assert 2 in Atoms(3);
    var u := {[0, 1]};
    assert 2 !in EdgeAtoms(u) by {
      assert Edges(u) == u;
    }
    assert [2, 2] !in Diagonal(EdgeAtoms(u));
    assert [2, 2] !in Connected(u);
  }

  /** The bounds of a constant: NONE, UNIV and IDEN exactly, INTS anything unary. */
  function ConstantBounds(kind: ConstKind, size: nat): (TupleSet, TupleSet) {
    match kind
    case None => ({}, {})
    case Univ => (AllOf(size, 1), AllOf(size, 1))
    case Iden => (Diagonal(Atoms(size)), Diagonal(Atoms(size)))
    case Ints => ({}, AllOf(size, 1))
  }

  /** NONE is empty, UNIV holds every atom, IDEN pairs every atom with itself, and each is bound exactly. */
  lemma ConstantBoundsExact(size: nat, a: Atom, b: Atom)
    ensures ConstantBounds(None, size) == ({}, {})
    ensures ConstantBounds(Univ, size).0 == ConstantBounds(Univ, size).1
    ensures [a] in ConstantBounds(Univ, size).0 <==> a < size
    ensures ConstantBounds(Iden, size).0 == ConstantBounds(Iden, size).1
    ensures [a, b] in ConstantBounds(Iden, size).0 <==> a == b && a < size
  {
    AllOfMembers(size, 1, [a]);
    assert InUniverse(size, [a]) <==> a < size by {
      assert [a][0] == a;
    }
    assert [a, b] == [a, a] ==> a == b;
  }

  /** The bounds of an n-ary expression from its operands' bounds; a null side leaves the store as it is. */
  function NaryBounds(op: ExprOp, ls: seq<TupleSet>, us: seq<TupleSet>): (Nullable<TupleSet>, Nullable<TupleSet>)
    requires |ls| == |us|
  {
    match op
    case Intersection => (Reduced(ls, IntersectionSet), Reduced(us, IntersectionSet))
    case Union => (Reduced(ls, UnionSet), Reduced(us, UnionSet))
    case Product => (Reduced(ls, ProductSet), Reduced(us, ProductSet))
    case Override =>
      if ls == [] then (Null, Null)
      else (NonNull(OverrideFold(ls[0], ls[1..], us[1..])), NonNull(OverrideFold(us[0], us[1..], ls[1..])))
    case _ => (Null, Null)
  }

  /** Whatever values within their bounds the operands take, the n-ary rule's bounds hold the result. */
  lemma NaryBoundsSound(op: ExprOp, ls: seq<TupleSet>, xs: seq<TupleSet>, us: seq<TupleSet>)
    requires Within(ls, xs, us) && |xs| > 0
    requires op in {Intersection, Union, Product, Override}
    ensures NaryBounds(op, ls, us).0.value <= ApplyNary(op, xs) <= NaryBounds(op, ls, us).1.value
  {
    match op
    case Intersection =>
      FoldMonotone(ls[0], ls[1..], xs[0], xs[1..], IntersectionSet);
      FoldMonotone(xs[0], xs[1..], us[0], us[1..], IntersectionSet);
    case Union =>
      FoldMonotone(ls[0], ls[1..], xs[0], xs[1..], UnionSet);
      FoldMonotone(xs[0], xs[1..], us[0], us[1..], UnionSet);
    case Product =>
      FoldMonotone(ls[0], ls[1..], xs[0], xs[1..], ProductSet);
      FoldMonotone(xs[0], xs[1..], us[0], us[1..], ProductSet);
    case Override =>
      OverrideFoldMonotone(ls[0], ls[1..], us[1..], xs[0], xs[1..], xs[1..]);
      OverrideFoldMonotone(xs[0], xs[1..], xs[1..], us[0], us[1..], ls[1..]);
  }

  /** The bounds a conditional expression gets: what both branches must hold, and what either may hold. */
  function IfBounds(lThen: TupleSet, uThen: TupleSet, lElse: TupleSet, uElse: TupleSet): (TupleSet, TupleSet) {
    (lThen * lElse, uThen + uElse)
  }

  /** Whichever branch is taken, its value lies within the conditional's bounds. */
  lemma IfBoundsSound(lThen: TupleSet, uThen: TupleSet, lElse: TupleSet, uElse: TupleSet, x: TupleSet, y: TupleSet, cond: bool)
    requires lThen <= x <= uThen && lElse <= y <= uElse
    ensures IfBounds(lThen, uThen, lElse, uElse).0 <= (if cond then x else y) <= IfBounds(lThen, uThen, lElse, uElse).1
  {
  }

  /** What the rule of expression `e` does to the store. */
  ghost function UpRule(s: State, e: Expr): State {
    match e
    case Relation(_, _) => s
    case Variable(_, _) => s
    case Constant(_, kind) =>
      var b := ConstantBounds(kind, s.size);
      BoundSpec(s, e, NonNull(b.0), NonNull(b.1))
    case Unary(_, op, sub) =>
      var b := UnaryBounds(op, LowerOf(s, sub), UpperOf(s, sub));
      BoundSpec(s, e, NonNull(b.0), NonNull(b.1))
    case Binary(_, op, l, r) =>
      var b := BinaryBounds(op, LowerOf(s, l), UpperOf(s, l), LowerOf(s, r), UpperOf(s, r));
      BoundSpec(s, e, NonNull(b.0), NonNull(b.1))
    case Nary(_, op, cs) =>
      var b := NaryBounds(op, LowersOf(s, cs), UppersOf(s, cs));
      BoundSpec(s, e, b.0, b.1)
    case IfExpr(_, _, t, f) =>
      var b := IfBounds(LowerOf(s, t), UpperOf(s, t), LowerOf(s, f), UpperOf(s, f));
      BoundSpec(s, e, NonNull(b.0), NonNull(b.1))
  }

  /** What the rule of declaration `d` does: its variable gets the bounds of its expression. */
  function UpDeclRule(s: State, d: Decl): State {
    BoundSpec(s, d.variable, NonNull(LowerOf(s, d.expression)), NonNull(UpperOf(s, d.expression)))
  }

  /**
   * The rule gives the variable the whole lower bound of its expression,
   * yet a quantified variable is bound to one tuple of the expression at a
   * time: `x : r` with r fixed at {[0], [1]} gives x the lower bound
   * {[0], [1]}, which its value {[0]} does not hold.
   */
  lemma DeclLowerExceedsBinding()
    ensures var x := Variable(1, 1);
            var s := State(2, map[0 := {[0], [1]}], map[0 := {[0], [1]}], map[1 := {}], map[1 := {[0], [1]}], false, false);
            var s' := UpDeclRule(s, Decl(2, x, Relation(0, 1)));
            LowerOf(s', x) == {[0], [1]} && !(LowerOf(s', x) <= {[0]})
  {
  }

  // ---------------------------------------------------------------- the traversal

  /** The walk after visiting expression `e`: its operands (unless already visited), then its own rule. */
  ghost function UpExpr(w: Walk, e: Expr): Walk
    decreases e, 1
  {
    match e
    case Relation(_, _) => w
    case Variable(_, _) => w
    case Constant(_, _) => w.(store := UpRule(w.store, e))
    case _ =>
      var w1 := UpChildren(w, e);
      w1.(store := UpRule(w1.store, e))
  }

  /** The default traversal of a composite expression: the visited check, then the operands in order. */
  ghost function UpChildren(w: Walk, e: Expr): Walk
    requires !e.Relation? && !e.Variable? && !e.Constant?
    decreases e, 0
  {
    if e.id in w.cache then w
    else
      var w0 := Enter(w, e.id);
      match e
      case Unary(_, _, sub) => UpExpr(w0, sub)
      case Binary(_, _, l, r) => UpExpr(UpExpr(w0, l), r)
      case Nary(_, _, cs) => UpExprs(w0, cs)
      case IfExpr(_, c, t, f) => UpExpr(UpExpr(UpFormula(w0, c), t), f)
  }

  ghost function UpExprs(w: Walk, cs: seq<Expr>): Walk
    decreases cs, 2
  {
    if cs == [] then w else UpExprs(UpExpr(w, cs[0]), cs[1..])
  }

  /** Formulas have no upward rule: the default traversal visits their parts once. */
  ghost function UpFormula(w: Walk, f: Formula): Walk
    decreases f, 1
  {
    if f.id in w.cache then w
    else
      var w0 := Enter(w, f.id);
      match f
      case BinaryFormula(_, _, l, r) => UpFormula(UpFormula(w0, l), r)
      case NaryFormula(_, _, fs) => UpFormulas(w0, fs)
      case Not(_, g) => UpFormula(w0, g)
      case Comparison(_, _, l, r) => UpExpr(UpExpr(w0, l), r)
      case Multiplicity(_, _, x) => UpExpr(w0, x)
      case Quantified(_, _, ds, body) => UpFormula(UpDecls(w0, ds), body)
  }

  ghost function UpFormulas(w: Walk, fs: seq<Formula>): Walk
    decreases fs, 2
  {
    if fs == [] then w else UpFormulas(UpFormula(w, fs[0]), fs[1..])
  }

  /** A declaration: its variable and expression (unless already visited), then its rule. */
  ghost function UpDecl(w: Walk, d: Decl): Walk
    decreases d, 1
  {
    var w1 := if d.id in w.cache then w else UpExpr(UpExpr(Enter(w, d.id), d.variable), d.expression);
    w1.(store := UpDeclRule(w1.store, d))
  }

  ghost function UpDecls(w: Walk, ds: seq<Decl>): Walk
    decreases ds, 2
  {
    if ds == [] then w else UpDecls(UpDecl(w, ds[0]), ds[1..])
  }

  // ---------------------------------------------------------------- what the walk keeps

  /** One rule keeps the store's invariant. */
  lemma UpRuleEvolves(s: State, e: Expr, R: set<NodeId>)
    requires Separates(R, e)
    ensures Evolves(s, UpRule(s, e), R)
  {
    match e
    case Relation(_, _) => EvolvesReflexive(s, R);
    case Variable(_, _) => EvolvesReflexive(s, R);
    case Constant(_, kind) =>
      var b := ConstantBounds(kind, s.size);
      BoundEvolves(s, e, NonNull(b.0), NonNull(b.1), R);
    case Unary(_, op, sub) =>
      var b := UnaryBounds(op, LowerOf(s, sub), UpperOf(s, sub));
      BoundEvolves(s, e, NonNull(b.0), NonNull(b.1), R);
    case Binary(_, op, l, r) =>
      var b := BinaryBounds(op, LowerOf(s, l), UpperOf(s, l), LowerOf(s, r), UpperOf(s, r));
      BoundEvolves(s, e, NonNull(b.0), NonNull(b.1), R);
    case Nary(_, op, cs) =>
      var b := NaryBounds(op, LowersOf(s, cs), UppersOf(s, cs));
      BoundEvolves(s, e, b.0, b.1, R);
    case IfExpr(_, _, t, f) =>
      var b := IfBounds(LowerOf(s, t), UpperOf(s, t), LowerOf(s, f), UpperOf(s, f));
      BoundEvolves(s, e, NonNull(b.0), NonNull(b.1), R);
  }

  /** Visiting an expression keeps the store's invariant. */
  lemma {:induction false} UpExprEvolves(w: Walk, e: Expr, R: set<NodeId>)
    requires SeparatedExpr(R, e)
    ensures Evolves(w.store, UpExpr(w, e).store, R)
    decreases e, 1
  {
    match e
    case Relation(_, _) => EvolvesReflexive(w.store, R);
    case Variable(_, _) => EvolvesReflexive(w.store, R);
    case Constant(_, _) => UpRuleEvolves(w.store, e, R);
    case _ =>
      var w1 := UpChildren(w, e);
      UpChildrenEvolves(w, e, R);
      UpRuleEvolves(w1.store, e, R);
      EvolvesTransitive(w.store, w1.store, UpRule(w1.store, e), R);
  }

  lemma {:induction false} UpChildrenEvolves(w: Walk, e: Expr, R: set<NodeId>)
    requires !e.Relation? && !e.Variable? && !e.Constant?
    requires SeparatedExpr(R, e)
    ensures Evolves(w.store, UpChildren(w, e).store, R)
    decreases e, 0
  {
    if e.id in w.cache {
      EvolvesReflexive(w.store, R);
    } else {
      var w0 := Enter(w, e.id);
      match e
      case Unary(_, _, sub) =>
        UpExprEvolves(w0, sub, R);
      case Binary(_, _, l, r) =>
        UpExprEvolves(w0, l, R);
        UpExprEvolves(UpExpr(w0, l), r, R);
        EvolvesTransitive(w0.store, UpExpr(w0, l).store, UpExpr(UpExpr(w0, l), r).store, R);
      case Nary(_, _, cs) =>
        UpExprsEvolves(w0, cs, R);
      case IfExpr(_, c, t, f) =>
        var w1 := UpFormula(w0, c);
        var w2 := UpExpr(w1, t);
        UpFormulaEvolves(w0, c, R);
        UpExprEvolves(w1, t, R);
        UpExprEvolves(w2, f, R);
        EvolvesTransitive(w0.store, w1.store, w2.store, R);
        EvolvesTransitive(w0.store, w2.store, UpExpr(w2, f).store, R);
    }
  }

  lemma {:induction false} UpExprsEvolves(w: Walk, cs: seq<Expr>, R: set<NodeId>)
    requires forall i | 0 <= i < |cs| :: SeparatedExpr(R, cs[i])
    ensures Evolves(w.store, UpExprs(w, cs).store, R)
    decreases cs, 2
  {
    if cs == [] {
      EvolvesReflexive(w.store, R);
    } else {
      var w1 := UpExpr(w, cs[0]);
      UpExprEvolves(w, cs[0], R);
      assert forall i | 0 <= i < |cs[1..]| :: cs[1..][i] == cs[i + 1];
      UpExprsEvolves(w1, cs[1..], R);
      EvolvesTransitive(w.store, w1.store, UpExprs(w1, cs[1..]).store, R);
    }
  }

  /** Visiting a formula keeps the store's invariant. */
  lemma {:induction false} UpFormulaEvolves(w: Walk, f: Formula, R: set<NodeId>)
    requires SeparatedFormula(R, f)
    ensures Evolves(w.store, UpFormula(w, f).store, R)
    decreases f, 1
  {
    if f.id in w.cache {
      EvolvesReflexive(w.store, R);
    } else {
      var w0 := Enter(w, f.id);
      match f
      case BinaryFormula(_, _, l, r) =>
        UpFormulaEvolves(w0, l, R);
        UpFormulaEvolves(UpFormula(w0, l), r, R);
        EvolvesTransitive(w0.store, UpFormula(w0, l).store, UpFormula(UpFormula(w0, l), r).store, R);
      case NaryFormula(_, _, fs) =>
        UpFormulasEvolves(w0, fs, R);
      case Not(_, g) =>
        UpFormulaEvolves(w0, g, R);
      case Comparison(_, _, l, r) =>
        UpExprEvolves(w0, l, R);
        UpExprEvolves(UpExpr(w0, l), r, R);
        EvolvesTransitive(w0.store, UpExpr(w0, l).store, UpExpr(UpExpr(w0, l), r).store, R);
      case Multiplicity(_, _, x) =>
        UpExprEvolves(w0, x, R);
      case Quantified(_, _, ds, body) =>
        UpDeclsEvolves(w0, ds, R);
        UpFormulaEvolves(UpDecls(w0, ds), body, R);
        EvolvesTransitive(w0.store, UpDecls(w0, ds).store, UpFormula(UpDecls(w0, ds), body).store, R);
    }
  }

  lemma {:induction false} UpFormulasEvolves(w: Walk, fs: seq<Formula>, R: set<NodeId>)
    requires forall i | 0 <= i < |fs| :: SeparatedFormula(R, fs[i])
    ensures Evolves(w.store, UpFormulas(w, fs).store, R)
    decreases fs, 2
  {
    if fs == [] {
      EvolvesReflexive(w.store, R);
    } else {
      var w1 := UpFormula(w, fs[0]);
      UpFormulaEvolves(w, fs[0], R);
      assert forall i | 0 <= i < |fs[1..]| :: fs[1..][i] == fs[i + 1];
      UpFormulasEvolves(w1, fs[1..], R);
      EvolvesTransitive(w.store, w1.store, UpFormulas(w1, fs[1..]).store, R);
    }
  }

  lemma {:induction false} UpDeclEvolves(w: Walk, d: Decl, R: set<NodeId>)
    requires SeparatedDecl(R, d)
    ensures Evolves(w.store, UpDecl(w, d).store, R)
    decreases d, 1
  {
    var w1 := if d.id in w.cache then w else UpExpr(UpExpr(Enter(w, d.id), d.variable), d.expression);
    if d.id in w.cache {
      EvolvesReflexive(w.store, R);
    } else {
      var w0 := Enter(w, d.id);
      UpExprEvolves(w0, d.variable, R);
      UpExprEvolves(UpExpr(w0, d.variable), d.expression, R);
      EvolvesTransitive(w0.store, UpExpr(w0, d.variable).store, w1.store, R);
    }
    BoundEvolves(w1.store, d.variable, NonNull(LowerOf(w1.store, d.expression)), NonNull(UpperOf(w1.store, d.expression)), R);
    EvolvesTransitive(w.store, w1.store, UpDeclRule(w1.store, d), R);
  }

  lemma {:induction false} UpDeclsEvolves(w: Walk, ds: seq<Decl>, R: set<NodeId>)
    requires forall i | 0 <= i < |ds| :: SeparatedDecl(R, ds[i])
    ensures Evolves(w.store, UpDecls(w, ds).store, R)
    decreases ds, 2
  {
    if ds == [] {
      EvolvesReflexive(w.store, R);
    } else {
      var w1 := UpDecl(w, ds[0]);
      UpDeclEvolves(w, ds[0], R);
      assert forall i | 0 <= i < |ds[1..]| :: ds[1..][i] == ds[i + 1];
      UpDeclsEvolves(w1, ds[1..], R);
      EvolvesTransitive(w.store, w1.store, UpDecls(w1, ds[1..]).store, R);
    }
  }

  // ---------------------------------------------------------------- the visitor

  /** The n-ary OVERRIDE loop: each operand after the first overrides the bounds built so far. */
  method NaryOverride(ls: seq<TupleSet>, us: seq<TupleSet>) returns (lowers: Nullable<TupleSet>, uppers: Nullable<TupleSet>)
    requires |ls| == |us|
    ensures (lowers, uppers) == NaryBounds(Override, ls, us)
  {
    lowers, uppers := Null, Null;
    var i := 0;
    while i < |ls|
      invariant 0 <= i <= |ls|
      invariant i == 0 ==> lowers == Null && uppers == Null
      invariant i > 0 ==> lowers == NonNull(OverrideFold(ls[0], ls[1..i], us[1..i]))
      invariant i > 0 ==> uppers == NonNull(OverrideFold(us[0], us[1..i], ls[1..i]))
    {
      if i > 0 {
        assert ls[1..i + 1] == ls[1..i] + [ls[i]];
        assert us[1..i + 1] == us[1..i] + [us[i]];
        OverrideFoldSnoc(ls[0], ls[1..i], us[1..i], ls[i], us[i]);
        OverrideFoldSnoc(us[0], us[1..i], ls[1..i], us[i], ls[i]);
      }
      if lowers == Null {
        lowers := NonNull(ls[i]);
      } else {
        lowers := NonNull(OverrideSet(lowers.value, ls[i], us[i]));
      }
      if uppers == Null {
        uppers := NonNull(us[i]);
      } else {
        uppers := NonNull(OverrideSet(uppers.value, us[i], ls[i]));
      }
      i := i + 1;
    }
    if ls != [] {
      assert ls[1..] == ls[1..|ls|] && us[1..] == us[1..|us|];
    }
  }

  /** Expression.accept: the visit for the node's kind. */
  method Accept(p: BoundPropagator, e: Expr)
    modifies p, p.bounds, p.bounds.bounds
    ensures p.Snapshot() == UpExpr(old(p.Snapshot()), e)
    decreases e, 3
  {
    match e
    case Relation(_, _) =>
    case Variable(_, _) =>
    case Constant(_, _) => VisitConstant(p, e);
    case Unary(_, _, _) => VisitUnary(p, e);
    case Binary(_, _, _, _) => VisitBinary(p, e);
    case Nary(_, _, _) => VisitNary(p, e);
    case IfExpr(_, _, _, _) => VisitIf(p, e);
  }

  /** The default traversal of a composite expression (AbstractVoidVisitor): visited check, then operands. */
  method VisitChildren(p: BoundPropagator, e: Expr)
    requires !e.Relation? && !e.Variable? && !e.Constant?
    modifies p, p.bounds, p.bounds.bounds
    ensures p.Snapshot() == UpChildren(old(p.Snapshot()), e)
    decreases e, 1
  {
    var seen := p.Visited(e.id);
    if seen {
      return;
    }
    match e
    case Unary(_, _, sub) =>
      Accept(p, sub);
    case Binary(_, _, l, r) =>
      Accept(p, l);
      Accept(p, r);
    case Nary(_, _, cs) =>
      ghost var w0 := p.Snapshot();
      var i := 0;
      while i < |cs|
        invariant 0 <= i <= |cs|
        invariant UpExprs(p.Snapshot(), cs[i..]) == UpExprs(w0, cs)
      {
        assert cs[i..][1..] == cs[i + 1..];
        Accept(p, cs[i]);
        i := i + 1;
      }
    case IfExpr(_, c, t, f) =>
      AcceptFormula(p, c);
      Accept(p, t);
      Accept(p, f);
  }

  /** visit(ConstantExpression): NONE, UNIV and IDEN bound exactly, any other constant between empty and full. */
  method VisitConstant(p: BoundPropagator, e: Expr)
    requires e.Constant?
    modifies p.bounds, p.bounds.bounds
    ensures p.Snapshot() == UpExpr(old(p.Snapshot()), e)
    decreases e, 2
  {
    var size := p.bounds.bounds.size;
    var exact: TupleSet;
    if e.kind == None {
      exact := {};
    } else if e.kind == Univ {
      exact := AllOf(size, 1);
    } else if e.kind == Iden {
      exact := Diagonal(Atoms(size));
    } else {
      p.bounds.Bound(e, NonNull({}), NonNull(AllOf(size, Arity(e))));
      return;
    }
    p.bounds.Bound(e, NonNull(exact), NonNull(exact));
  }

  /** The closure or transpose of each side of an operand's bounds, computed by the loops of the algebra. */
  method UnaryRule(op: UnaryOp, l: TupleSet, u: TupleSet) returns (lowers: TupleSet, uppers: TupleSet)
    ensures (lowers, uppers) == UnaryBounds(op, l, u)
  {
    match op
    case Closure =>
      lowers := GetClosureSet(l, false);
      uppers := GetClosureSet(u, false);
    case ReflexiveClosure =>
      lowers := GetClosureSet(l, true);
      uppers := GetClosureSet(u, true);
    case Transpose =>
      lowers, uppers := TransposeSet(l), TransposeSet(u);
  }

  /** visit(UnaryExpression): the closure or transpose of each side of the operand's bounds. */
  method VisitUnary(p: BoundPropagator, e: Expr)
    requires e.Unary?
    modifies p, p.bounds, p.bounds.bounds
    ensures p.Snapshot() == UpExpr(old(p.Snapshot()), e)
    decreases e, 2
  {
    VisitChildren(p, e);
    ghost var w1 := p.Snapshot();
    var lowers, uppers := UnaryRule(e.uop, p.bounds.LowerBound(e.sub), p.bounds.UpperBound(e.sub));
    p.bounds.Bound(e, NonNull(lowers), NonNull(uppers));
    assert p.Snapshot() == w1.(store := UpRule(w1.store, e));
  }

  /** The binary rule over both operands' bounds, joins computed by the nested loops of getJoinSet. */
  method BinaryRule(op: ExprOp, lL: TupleSet, uL: TupleSet, lR: TupleSet, uR: TupleSet) returns (lowers: TupleSet, uppers: TupleSet)
    ensures (lowers, uppers) == BinaryBounds(op, lL, uL, lR, uR)
  {
    match op
    case Difference =>
      lowers, uppers := lL - uR, uL - lR;
    case Intersection =>
      lowers, uppers := lL * lR, uL * uR;
    case Join =>
      lowers := GetJoinSet(lL, lR);
      uppers := GetJoinSet(uL, uR);
    case Override =>
      lowers, uppers := OverrideSet(lL, lR, uR), OverrideSet(uL, uR, lR);
    case Product =>
      lowers, uppers := ProductSet(lL, lR), ProductSet(uL, uR);
    case Union =>
      lowers, uppers := lL + lR, uL + uR;
  }

  /** visit(BinaryExpression): the operator's rule over both operands' bounds. */
  method VisitBinary(p: BoundPropagator, e: Expr)
    requires e.Binary?
    modifies p, p.bounds, p.bounds.bounds
    ensures p.Snapshot() == UpExpr(old(p.Snapshot()), e)
    decreases e, 2
  {
    VisitChildren(p, e);
    ghost var w1 := p.Snapshot();
    var lowers, uppers := BinaryRule(e.op, p.bounds.LowerBound(e.left), p.bounds.UpperBound(e.left),
                                     p.bounds.LowerBound(e.right), p.bounds.UpperBound(e.right));
    p.bounds.Bound(e, NonNull(lowers), NonNull(uppers));
    assert p.Snapshot() == w1.(store := UpRule(w1.store, e));
  }

  /** The n-ary rule: the operands' bounds folded from the left by reduce, or the override loop. */
  method NaryRule(op: ExprOp, ls: seq<TupleSet>, us: seq<TupleSet>) returns (lowers: Nullable<TupleSet>, uppers: Nullable<TupleSet>)
    requires |ls| == |us|
    ensures (lowers, uppers) == NaryBounds(op, ls, us)
  {
    match op
    case Intersection =>
      lowers := Reduce(ls, IntersectionSet);
      uppers := Reduce(us, IntersectionSet);
    case Override =>
      lowers, uppers := NaryOverride(ls, us);
    case Product =>
      lowers := Reduce(ls, ProductSet);
      uppers := Reduce(us, ProductSet);
    case Union =>
      lowers := Reduce(ls, UnionSet);
      uppers := Reduce(us, UnionSet);
    case Difference =>
      lowers, uppers := Null, Null;
    case Join =>
      lowers, uppers := Null, Null;
  }

  /** visit(NaryExpression): the n-ary rule; an operator without one leaves the bounds alone. */
  method VisitNary(p: BoundPropagator, e: Expr)
    requires e.Nary?
    modifies p, p.bounds, p.bounds.bounds
    ensures p.Snapshot() == UpExpr(old(p.Snapshot()), e)
    decreases e, 2
  {
    VisitChildren(p, e);
    ghost var w1 := p.Snapshot();
    var s := p.bounds.View();
    var lowers, uppers := NaryRule(e.op, LowersOf(s, e.children), UppersOf(s, e.children));
    p.bounds.Bound(e, lowers, uppers);
    assert p.Snapshot() == w1.(store := UpRule(w1.store, e));
  }

  /** visit(IfExpression): lower what both branches hold, upper what either may hold. */
  method VisitIf(p: BoundPropagator, e: Expr)
    requires e.IfExpr?
    modifies p, p.bounds, p.bounds.bounds
    ensures p.Snapshot() == UpExpr(old(p.Snapshot()), e)
    decreases e, 2
  {
    VisitChildren(p, e);
    var lowers := p.bounds.LowerBound(e.thenExpr) * p.bounds.LowerBound(e.elseExpr);
    var uppers := p.bounds.UpperBound(e.thenExpr) + p.bounds.UpperBound(e.elseExpr);
    p.bounds.Bound(e, NonNull(lowers), NonNull(uppers));
  }

  /** visit(Decl): the variable takes the bounds of its expression. */
  method VisitDecl(p: BoundPropagator, d: Decl)
    modifies p, p.bounds, p.bounds.bounds
    ensures p.Snapshot() == UpDecl(old(p.Snapshot()), d)
    decreases d, 2
  {
    var seen := p.Visited(d.id);
    if !seen {
      Accept(p, d.variable);
      Accept(p, d.expression);
    }
    p.bounds.Bound(d.variable, NonNull(p.bounds.LowerBound(d.expression)), NonNull(p.bounds.UpperBound(d.expression)));
  }

  /** Formula.accept: formulas only pass the traversal on to their parts, once. */
  method AcceptFormula(p: BoundPropagator, f: Formula)
    modifies p, p.bounds, p.bounds.bounds
    ensures p.Snapshot() == UpFormula(old(p.Snapshot()), f)
    decreases f, 3
  {
    var seen := p.Visited(f.id);
    if seen {
      return;
    }
    match f
    case BinaryFormula(_, _, l, r) =>
      AcceptFormula(p, l);
      AcceptFormula(p, r);
    case NaryFormula(_, _, fs) =>
      ghost var w0 := p.Snapshot();
      var i := 0;
      while i < |fs|
        invariant 0 <= i <= |fs|
        invariant UpFormulas(p.Snapshot(), fs[i..]) == UpFormulas(w0, fs)
      {
        assert fs[i..][1..] == fs[i + 1..];
        AcceptFormula(p, fs[i]);
        i := i + 1;
      }
    case Not(_, g) =>
      AcceptFormula(p, g);
    case Comparison(_, _, l, r) =>
      Accept(p, l);
      Accept(p, r);
    case Multiplicity(_, _, x) =>
      Accept(p, x);
    case Quantified(_, _, ds, body) =>
      ghost var w0 := p.Snapshot();
      var i := 0;
      while i < |ds|
        invariant 0 <= i <= |ds|
        invariant UpDecls(p.Snapshot(), ds[i..]) == UpDecls(w0, ds)
      {
        assert ds[i..][1..] == ds[i + 1..];
        VisitDecl(p, ds[i]);
        i := i + 1;
      }
      AcceptFormula(p, body);
  }
}
