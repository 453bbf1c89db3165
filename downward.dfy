/**
 * DownwardExpressionBoundPropagator: each expression's rule first narrows
 * its operands' bounds from its own, then the traversal goes on to the
 * operands. Formulas pass the traversal on only through conjunctions,
 * comparisons, multiplicity formulas and quantifiers; a negation or a
 * disjunction stops it.
 */
module Downward {
  import opened Wrappers
  import opened TupleAlgebra
  import opened Ast
  import opened Store
  import opened Traversal
  import opened DownwardRules
  import opened Semantics

  // ---------------------------------------------------------------- the rules, on the store

  /** One bound call with the two sides of narrowing `n`. */
  function Push(s: State, e: Expr, n: Narrowing): State {
    BoundSpec(s, e, n.lower, n.upper)
  }

  /** The binary rule's narrowings, computed before either bound call; OVERRIDE has none. */
  function BinaryNarrowings(op: ExprOp, la: nat, ra: nat, ea: nat, pL: TupleSet, pU: TupleSet,
                            lL: TupleSet, uL: TupleSet, lR: TupleSet, uR: TupleSet): Nullable<(Narrowing, Narrowing)>
  {
    match op
    case Difference => NonNull(DifferenceDown(pL, pU, lL, uL, lR, uR))
    case Intersection => NonNull(IntersectionDown(pL, lL, lR))
    case Join => NonNull(JoinDown(la, ra, ea, pL, pU, lL, uL, lR, uR))
    case Override => Null
    case Product => NonNull(ProductDown(la, ea, pL, pU, lL, uL, lR, uR))
    case Union => NonNull(UnionDown(pL, pU, lL, uL, lR, uR))
  }

  /**
   * The narrowing of one operand of an n-ary expression with parent bounds
   * `pL`, `pU` from its current bounds `l`, `u`: INTERSECTION adds the
   * parent's lower bound, PRODUCT the operand's splits of the parent's
   * bounds, UNION the parent's upper bound and the singletons.
   */
  function OperandDown(op: ExprOp, pL: TupleSet, pU: TupleSet, loSplit: TupleSet, hiSplit: TupleSet,
                       singles: TupleSet, l: TupleSet, u: TupleSet): Narrowing
  {
    match op
    case Intersection => Narrowing(NonNull(l + pL), Null)
    case Product => ProductChildDown(loSplit, hiSplit, l, u)
    case Union => UnionChildDown(pU, singles, l, u)
    case _ => Narrowing(Null, Null)
  }

  /** A tuple of the intersection of the values lies in each of them. */
  lemma IntersectionOfMembers(xs: seq<TupleSet>, t: Tuple, i: nat)
    requires i < |xs| && t in ApplyNary(Intersection, xs)
    ensures t in xs[i]
  {
    FoldIntersectionMembers(xs[0], xs[1..], t);
    if i > 0 {
      assert t in xs[1..][i - 1];
    }
  }

  /**
   * Each operand's INTERSECTION narrowing keeps its value when the
   * intersection of the values lies above the parent's lower bound: every
   * tuple the parent must hold, each operand must hold too.
   */
  lemma IntersectionChildDownSound(pL: TupleSet, pU: TupleSet, loSplit: TupleSet, hiSplit: TupleSet, singles: TupleSet,
                                   ls: seq<TupleSet>, xs: seq<TupleSet>, us: seq<TupleSet>, i: nat)
    requires Within(ls, xs, us) && i < |xs|
    requires pL <= ApplyNary(Intersection, xs)
    ensures Keeps(OperandDown(Intersection, pL, pU, loSplit, hiSplit, singles, ls[i], us[i]), xs[i])
  {
    forall t | t in pL ensures t in xs[i] {
      IntersectionOfMembers(xs, t, i);
    }
  }

  /**
   * The narrowing of operand i of an n-ary expression: the parent's bounds
   * are read in the store `s0` the rule started from, the operand's own in
   * the store `s` the earlier operands left.
   */
  function NaryChildDown(s0: State, s: State, e: Expr, i: nat): Narrowing
    requires e.Nary? && i < |e.children|
  {
    var c, ks, pL, pU := e.children[i], Arities(e.children), LowerOf(s0, e), UpperOf(s0, e);
    OperandDown(e.op, pL, pU, Splits(pL, ks)[i], Splits(pU, ks)[i], Singletons(pL, UppersOf(s0, e.children)), LowerOf(s, c), UpperOf(s, c))
  }

  /** The operands from i on, narrowed one after the other. */
  function NaryFrom(s0: State, s: State, e: Expr, i: nat): State
    requires e.Nary?
    decreases |e.children| - i
  {
    if i >= |e.children| then s
    else NaryFrom(s0, Push(s, e.children[i], NaryChildDown(s0, s, e, i)), e, i + 1)
  }

  /** Whether the n-ary operator has a downward rule. */
  predicate NaryNarrows(op: ExprOp) {
    op == Intersection || op == Product || op == Union
  }

  /** What the rule of expression `e` does to the store. */
  function DownRule(s: State, e: Expr): State {
    match e
    case Unary(_, op, sub) =>
      if op == Transpose then Push(s, sub, TransposeDown(LowerOf(s, e), UpperOf(s, e))) else s
    case Binary(_, op, l, r) =>
      var ns := BinaryNarrowings(op, Arity(l), Arity(r), Arity(e), LowerOf(s, e), UpperOf(s, e),
                                 LowerOf(s, l), UpperOf(s, l), LowerOf(s, r), UpperOf(s, r));
      if ns.Null? then s else Push(Push(s, l, ns.value.0), r, ns.value.1)
    case Nary(_, op, _) =>
      if NaryNarrows(op) then NaryFrom(s, s, e, 0) else s
    case IfExpr(_, _, t, f) =>
      var ns := IfDown(LowerOf(s, e), LowerOf(s, t), UpperOf(s, t), LowerOf(s, f), UpperOf(s, f));
      Push(Push(s, t, ns.0), f, ns.1)
    case _ => s
  }

  /** What the rule of a comparison or multiplicity formula does to the store. */
  function DownFormulaRule(s: State, f: Formula): State {
    match f
    case Comparison(_, op, l, r) =>
      var lL, uL, lR, uR := LowerOf(s, l), UpperOf(s, l), LowerOf(s, r), UpperOf(s, r);
      if op == Equals then
        var n := EqualsDown(lL, uL, lR, uR);
        Push(Push(s, l, n), r, n)
      else
        var ns := SubsetDown(lL, uL, lR, uR);
        Push(Push(s, r, ns.1), l, ns.0)
    case Multiplicity(_, m, x) =>
      var n := MultDown(m, LowerOf(s, x), UpperOf(s, x));
      if n.Null? then s else Push(s, x, n.value)
    case _ => s
  }

  // ---------------------------------------------------------------- the traversal

  /** The walk after visiting expression `e`: its own rule, then its operands unless already visited. */
  ghost function DownExpr(w: Walk, e: Expr): Walk
    decreases e, 1
  {
    match e
    case Relation(_, _) => w
    case Variable(_, _) => w
    case Constant(_, _) => w
    case _ => DownChildren(w.(store := DownRule(w.store, e)), e)
  }

  /** The default traversal of a composite expression: the visited check, then the operands in order. */
  ghost function DownChildren(w: Walk, e: Expr): Walk
    requires !e.Relation? && !e.Variable? && !e.Constant?
    decreases e, 0
  {
    if e.id in w.cache then w
    else
      var w0 := Enter(w, e.id);
      match e
      case Unary(_, _, sub) => DownExpr(w0, sub)
      case Binary(_, _, l, r) => DownExpr(DownExpr(w0, l), r)
      case Nary(_, _, cs) => DownExprs(w0, cs)
      case IfExpr(_, c, t, f) => DownExpr(DownExpr(DownFormula(w0, c), t), f)
  }

  ghost function DownExprs(w: Walk, cs: seq<Expr>): Walk
    decreases cs, 2
  {
    if cs == [] then w else DownExprs(DownExpr(w, cs[0]), cs[1..])
  }

  /**
   * The walk after visiting formula `f`: a conjunction passes on to its
   * parts, any other connective and a negation stop; a comparison or a
   * multiplicity formula applies its rule, then visits its expressions.
   */
  ghost function DownFormula(w: Walk, f: Formula): Walk
    decreases f, 1
  {
    match f
    case BinaryFormula(_, op, l, r) =>
      if op != And || f.id in w.cache then w
      else DownFormula(DownFormula(Enter(w, f.id), l), r)
    case NaryFormula(_, op, fs) =>
      if op != And || f.id in w.cache then w
      else DownFormulas(Enter(w, f.id), fs)
    case Not(_, _) => w
    case Comparison(_, _, l, r) =>
      var w1 := w.(store := DownFormulaRule(w.store, f));
      if f.id in w1.cache then w1 else DownExpr(DownExpr(Enter(w1, f.id), l), r)
    case Multiplicity(_, _, x) =>
      var w1 := w.(store := DownFormulaRule(w.store, f));
      if f.id in w1.cache then w1 else DownExpr(Enter(w1, f.id), x)
    case Quantified(_, _, ds, body) =>
      if f.id in w.cache then w else DownFormula(DownDecls(Enter(w, f.id), ds), body)
  }

  ghost function DownFormulas(w: Walk, fs: seq<Formula>): Walk
    decreases fs, 2
  {
    if fs == [] then w else DownFormulas(DownFormula(w, fs[0]), fs[1..])
  }

  /** A declaration has no downward rule: its variable and expression, once. */
  ghost function DownDecl(w: Walk, d: Decl): Walk
    decreases d, 1
  {
    if d.id in w.cache then w else DownExpr(DownExpr(Enter(w, d.id), d.variable), d.expression)
  }

  ghost function DownDecls(w: Walk, ds: seq<Decl>): Walk
    decreases ds, 2
  {
    if ds == [] then w else DownDecls(DownDecl(w, ds[0]), ds[1..])
  }

  // ---------------------------------------------------------------- what the walk keeps

  lemma {:induction false} NaryFromEvolves(s0: State, s: State, e: Expr, i: nat, R: set<NodeId>)
    requires e.Nary? && forall j | 0 <= j < |e.children| :: Separates(R, e.children[j])
    ensures Evolves(s, NaryFrom(s0, s, e, i), R)
    decreases |e.children| - i
  {
    if i >= |e.children| {
      EvolvesReflexive(s, R);
    } else {
      var n := NaryChildDown(s0, s, e, i);
      var s1 := Push(s, e.children[i], n);
      BoundEvolves(s, e.children[i], n.lower, n.upper, R);
      NaryFromEvolves(s0, s1, e, i + 1, R);
      EvolvesTransitive(s, s1, NaryFrom(s0, s1, e, i + 1), R);
    }
  }

  /** One expression rule keeps the store's invariant: it only bounds the expression's operands. */
  lemma DownRuleEvolves(s: State, e: Expr, R: set<NodeId>)
    requires SeparatedExpr(R, e)
    ensures Evolves(s, DownRule(s, e), R)
  {
    match e
    case Unary(_, op, sub) =>
      if op == Transpose {
        var n := TransposeDown(LowerOf(s, e), UpperOf(s, e));
        BoundEvolves(s, sub, n.lower, n.upper, R);
      } else {
        EvolvesReflexive(s, R);
      }
    case Binary(_, op, l, r) =>
      var ns := BinaryNarrowings(op, Arity(l), Arity(r), Arity(e), LowerOf(s, e), UpperOf(s, e),
                                 LowerOf(s, l), UpperOf(s, l), LowerOf(s, r), UpperOf(s, r));
      if ns.Null? {
        EvolvesReflexive(s, R);
      } else {
        PushPairEvolves(s, l, r, ns.value, R);
      }
    case Nary(_, op, cs) =>
      if NaryNarrows(op) {
        forall j | 0 <= j < |cs|
          ensures Separates(R, cs[j])
        {
          assert SeparatedExpr(R, cs[j]);
        }
        NaryFromEvolves(s, s, e, 0, R);
      } else {
        EvolvesReflexive(s, R);
      }
    case IfExpr(_, _, t, f) =>
      var ns := IfDown(LowerOf(s, e), LowerOf(s, t), UpperOf(s, t), LowerOf(s, f), UpperOf(s, f));
      PushPairEvolves(s, t, f, ns, R);
    case _ =>
      EvolvesReflexive(s, R);
  }

  /** Two bound calls on operands that are separated keep the store's invariant. */
  lemma PushPairEvolves(s: State, a: Expr, b: Expr, ns: (Narrowing, Narrowing), R: set<NodeId>)
    requires Separates(R, a) && Separates(R, b)
    ensures Evolves(s, Push(Push(s, a, ns.0), b, ns.1), R)
  {
    var s1 := Push(s, a, ns.0);
    BoundEvolves(s, a, ns.0.lower, ns.0.upper, R);
    BoundEvolves(s1, b, ns.1.lower, ns.1.upper, R);
    EvolvesTransitive(s, s1, Push(s1, b, ns.1), R);
  }

  /** One formula rule keeps the store's invariant. */
  lemma DownFormulaRuleEvolves(s: State, f: Formula, R: set<NodeId>)
    requires SeparatedFormula(R, f)
    ensures Evolves(s, DownFormulaRule(s, f), R)
  {
    match f
    case Comparison(_, op, l, r) =>
      var lL, uL, lR, uR := LowerOf(s, l), UpperOf(s, l), LowerOf(s, r), UpperOf(s, r);
      if op == Equals {
        var n := EqualsDown(lL, uL, lR, uR);
        PushPairEvolves(s, l, r, (n, n), R);
      } else {
        var ns := SubsetDown(lL, uL, lR, uR);
        PushPairEvolves(s, r, l, (ns.1, ns.0), R);
      }
    case Multiplicity(_, m, x) =>
      var n := MultDown(m, LowerOf(s, x), UpperOf(s, x));
      if n.Null? {
        EvolvesReflexive(s, R);
      } else {
        BoundEvolves(s, x, n.value.lower, n.value.upper, R);
      }
    case _ =>
      EvolvesReflexive(s, R);
  }

  /** Visiting an expression keeps the store's invariant. */
  lemma {:induction false} DownExprEvolves(w: Walk, e: Expr, R: set<NodeId>)
    requires SeparatedExpr(R, e)
    ensures Evolves(w.store, DownExpr(w, e).store, R)
    decreases e, 1
  {
    match e
    case Relation(_, _) => EvolvesReflexive(w.store, R);
    case Variable(_, _) => EvolvesReflexive(w.store, R);
    case Constant(_, _) => EvolvesReflexive(w.store, R);
    case _ =>
      var w1 := w.(store := DownRule(w.store, e));
      DownRuleEvolves(w.store, e, R);
      DownChildrenEvolves(w1, e, R);
      EvolvesTransitive(w.store, w1.store, DownChildren(w1, e).store, R);
  }

  lemma {:induction false} DownChildrenEvolves(w: Walk, e: Expr, R: set<NodeId>)
    requires !e.Relation? && !e.Variable? && !e.Constant?
    requires SeparatedExpr(R, e)
    ensures Evolves(w.store, DownChildren(w, e).store, R)
    decreases e, 0
  {
    if e.id in w.cache {
      EvolvesReflexive(w.store, R);
    } else {
      var w0 := Enter(w, e.id);
      match e
      case Unary(_, _, sub) =>
        DownExprEvolves(w0, sub, R);
      case Binary(_, _, l, r) =>
        DownExprEvolves(w0, l, R);
        DownExprEvolves(DownExpr(w0, l), r, R);
        EvolvesTransitive(w0.store, DownExpr(w0, l).store, DownExpr(DownExpr(w0, l), r).store, R);
      case Nary(_, _, cs) =>
        DownExprsEvolves(w0, cs, R);
      case IfExpr(_, c, t, f) =>
        var w1 := DownFormula(w0, c);
        var w2 := DownExpr(w1, t);
        DownFormulaEvolves(w0, c, R);
        DownExprEvolves(w1, t, R);
        DownExprEvolves(w2, f, R);
        EvolvesTransitive(w0.store, w1.store, w2.store, R);
        EvolvesTransitive(w0.store, w2.store, DownExpr(w2, f).store, R);
    }
  }

  lemma {:induction false} DownExprsEvolves(w: Walk, cs: seq<Expr>, R: set<NodeId>)
    requires forall i | 0 <= i < |cs| :: SeparatedExpr(R, cs[i])
    ensures Evolves(w.store, DownExprs(w, cs).store, R)
    decreases cs, 2
  {
    if cs == [] {
      EvolvesReflexive(w.store, R);
    } else {
      var w1 := DownExpr(w, cs[0]);
      DownExprEvolves(w, cs[0], R);
      assert forall i | 0 <= i < |cs[1..]| :: cs[1..][i] == cs[i + 1];
      DownExprsEvolves(w1, cs[1..], R);
      EvolvesTransitive(w.store, w1.store, DownExprs(w1, cs[1..]).store, R);
    }
  }

  /** Visiting a formula keeps the store's invariant. */
  lemma {:induction false} DownFormulaEvolves(w: Walk, f: Formula, R: set<NodeId>)
    requires SeparatedFormula(R, f)
    ensures Evolves(w.store, DownFormula(w, f).store, R)
    decreases f, 1
  {
    match f
    case BinaryFormula(_, op, l, r) =>
      if op != And || f.id in w.cache {
        EvolvesReflexive(w.store, R);
      } else {
        var w0 := Enter(w, f.id);
        DownFormulaEvolves(w0, l, R);
        DownFormulaEvolves(DownFormula(w0, l), r, R);
        EvolvesTransitive(w0.store, DownFormula(w0, l).store, DownFormula(DownFormula(w0, l), r).store, R);
      }
    case NaryFormula(_, op, fs) =>
      if op != And || f.id in w.cache {
        EvolvesReflexive(w.store, R);
      } else {
        DownFormulasEvolves(Enter(w, f.id), fs, R);
      }
    case Not(_, _) =>
      EvolvesReflexive(w.store, R);
    case Comparison(_, _, l, r) =>
      var w1 := w.(store := DownFormulaRule(w.store, f));
      DownFormulaRuleEvolves(w.store, f, R);
      if f.id in w1.cache {
      } else {
        var w0 := Enter(w1, f.id);
        DownExprEvolves(w0, l, R);
        DownExprEvolves(DownExpr(w0, l), r, R);
        EvolvesTransitive(w0.store, DownExpr(w0, l).store, DownExpr(DownExpr(w0, l), r).store, R);
        EvolvesTransitive(w.store, w0.store, DownExpr(DownExpr(w0, l), r).store, R);
      }
    case Multiplicity(_, _, x) =>
      var w1 := w.(store := DownFormulaRule(w.store, f));
      DownFormulaRuleEvolves(w.store, f, R);
      if f.id in w1.cache {
      } else {
        var w0 := Enter(w1, f.id);
        DownExprEvolves(w0, x, R);
        EvolvesTransitive(w.store, w0.store, DownExpr(w0, x).store, R);
      }
    case Quantified(_, _, ds, body) =>
      if f.id in w.cache {
        EvolvesReflexive(w.store, R);
      } else {
        var w0 := Enter(w, f.id);
        DownDeclsEvolves(w0, ds, R);
        DownFormulaEvolves(DownDecls(w0, ds), body, R);
        EvolvesTransitive(w0.store, DownDecls(w0, ds).store, DownFormula(DownDecls(w0, ds), body).store, R);
      }
  }

  lemma {:induction false} DownFormulasEvolves(w: Walk, fs: seq<Formula>, R: set<NodeId>)
    requires forall i | 0 <= i < |fs| :: SeparatedFormula(R, fs[i])
    ensures Evolves(w.store, DownFormulas(w, fs).store, R)
    decreases fs, 2
  {
    if fs == [] {
      EvolvesReflexive(w.store, R);
    } else {
      var w1 := DownFormula(w, fs[0]);
      DownFormulaEvolves(w, fs[0], R);
      assert forall i | 0 <= i < |fs[1..]| :: fs[1..][i] == fs[i + 1];
      DownFormulasEvolves(w1, fs[1..], R);
      EvolvesTransitive(w.store, w1.store, DownFormulas(w1, fs[1..]).store, R);
    }
  }

  lemma {:induction false} DownDeclEvolves(w: Walk, d: Decl, R: set<NodeId>)
    requires SeparatedDecl(R, d)
    ensures Evolves(w.store, DownDecl(w, d).store, R)
    decreases d, 1
  {
    if d.id in w.cache {
      EvolvesReflexive(w.store, R);
    } else {
      var w0 := Enter(w, d.id);
      DownExprEvolves(w0, d.variable, R);
      DownExprEvolves(DownExpr(w0, d.variable), d.expression, R);
      EvolvesTransitive(w0.store, DownExpr(w0, d.variable).store, DownDecl(w, d).store, R);
    }
  }

  lemma {:induction false} DownDeclsEvolves(w: Walk, ds: seq<Decl>, R: set<NodeId>)
    requires forall i | 0 <= i < |ds| :: SeparatedDecl(R, ds[i])
    ensures Evolves(w.store, DownDecls(w, ds).store, R)
    decreases ds, 2
  {
    if ds == [] {
      EvolvesReflexive(w.store, R);
    } else {
      var w1 := DownDecl(w, ds[0]);
      DownDeclEvolves(w, ds[0], R);
      assert forall i | 0 <= i < |ds[1..]| :: ds[1..][i] == ds[i + 1];
      DownDeclsEvolves(w1, ds[1..], R);
      EvolvesTransitive(w.store, w1.store, DownDecls(w1, ds[1..]).store, R);
    }
  }

  // ---------------------------------------------------------------- the visitor

  /** Expression.accept: the visit for the node's kind. */
  method Accept(p: BoundPropagator, e: Expr)
    modifies p, p.bounds, p.bounds.bounds
    ensures p.Snapshot() == DownExpr(old(p.Snapshot()), e)
    decreases e, 3
  {
    match e
    case Relation(_, _) =>
    case Variable(_, _) =>
    case Constant(_, _) =>
    case Unary(_, _, _) => VisitUnary(p, e);
    case Binary(_, _, _, _) => VisitBinary(p, e);
    case Nary(_, _, _) => VisitNary(p, e);
    case IfExpr(_, _, _, _) => VisitIf(p, e);
  }

  /** The default traversal of a composite expression (AbstractVoidVisitor): visited check, then operands. */
  method VisitChildren(p: BoundPropagator, e: Expr)
    requires !e.Relation? && !e.Variable? && !e.Constant?
    modifies p, p.bounds, p.bounds.bounds
    ensures p.Snapshot() == DownChildren(old(p.Snapshot()), e)
    decreases e, 1
  {
    var seen := p.Visited(e.id);
    if seen {
      return;
    }
    match e
    case Unary(_, _, sub) =>
      Accept(p, sub);
    case Binary(_, _, l, r) =>
      Accept(p, l);
      Accept(p, r);
    case Nary(_, _, cs) =>
      ghost var w0 := p.Snapshot();
      var i := 0;
      while i < |cs|
        invariant 0 <= i <= |cs|
        invariant DownExprs(p.Snapshot(), cs[i..]) == DownExprs(w0, cs)
      {
        assert cs[i..][1..] == cs[i + 1..];
        Accept(p, cs[i]);
        i := i + 1;
      }
    case IfExpr(_, c, t, f) =>
      AcceptFormula(p, c);
      Accept(p, t);
      Accept(p, f);
  }

  /** visit(UnaryExpression): a transpose gives its operand the transpose of its own bounds. */
  method VisitUnary(p: BoundPropagator, e: Expr)
    requires e.Unary?
    modifies p, p.bounds, p.bounds.bounds
    ensures p.Snapshot() == DownExpr(old(p.Snapshot()), e)
    decreases e, 2
  {
    ghost var w0 := p.Snapshot();
    if e.uop == Transpose {
      p.bounds.Bound(e.sub, NonNull(TransposeSet(p.bounds.LowerBound(e))), NonNull(TransposeSet(p.bounds.UpperBound(e))));
    }
    assert p.Snapshot() == w0.(store := DownRule(w0.store, e));
    VisitChildren(p, e);
  }

  /** The binary rule's narrowings, by the loops of each operator's case. */
  method BinaryRule(op: ExprOp, la: nat, ra: nat, ea: nat, pL: TupleSet, pU: TupleSet,
                    lL: TupleSet, uL: TupleSet, lR: TupleSet, uR: TupleSet) returns (ns: Nullable<(Narrowing, Narrowing)>)
    ensures ns == BinaryNarrowings(op, la, ra, ea, pL, pU, lL, uL, lR, uR)
  {
    match op
    case Difference =>
      var left, right := DifferenceRule(pL, pU, lL, uL, lR, uR);
      ns := NonNull((left, right));
    case Intersection =>
      ns := NonNull(IntersectionDown(pL, lL, lR));
    case Join =>
      var left, right := JoinRule(la, ra, ea, pL, pU, lL, uL, lR, uR);
      ns := NonNull((left, right));
    case Override =>
      ns := Null;
    case Product =>
      var left, right := ProductRule(la, ea, pL, pU, lL, uL, lR, uR);
      ns := NonNull((left, right));
    case Union =>
      var left, right := UnionRule(pL, pU, lL, uL, lR, uR);
      ns := NonNull((left, right));
  }

  /** visit(BinaryExpression): both operands' narrowings are computed, then bound, left first. */
  method VisitBinary(p: BoundPropagator, e: Expr)
    requires e.Binary?
    modifies p, p.bounds, p.bounds.bounds
    ensures p.Snapshot() == DownExpr(old(p.Snapshot()), e)
    decreases e, 2
  {
    ghost var w0 := p.Snapshot();
    var l, r := e.left, e.right;
    var ns := BinaryRule(e.op, Arity(l), Arity(r), Arity(e), p.bounds.LowerBound(e), p.bounds.UpperBound(e),
                         p.bounds.LowerBound(l), p.bounds.UpperBound(l), p.bounds.LowerBound(r), p.bounds.UpperBound(r));
    if ns.NonNull? {
      p.bounds.Bound(l, ns.value.0.lower, ns.value.0.upper);
      p.bounds.Bound(r, ns.value.1.lower, ns.value.1.upper);
    }
    assert p.Snapshot() == w0.(store := DownRule(w0.store, e));
    VisitChildren(p, e);
  }

  /** The operator's rule for one operand of an n-ary expression, the union's by its loop. */
  method NaryChildRule(op: ExprOp, pL: TupleSet, pU: TupleSet, loSplit: TupleSet, hiSplit: TupleSet,
                       singles: TupleSet, l: TupleSet, u: TupleSet) returns (n: Narrowing)
    ensures n == OperandDown(op, pL, pU, loSplit, hiSplit, singles, l, u)
  {
    match op
    case Intersection =>
      n := Narrowing(NonNull(l + pL), Null);
    case Product =>
      n := ProductChildDown(loSplit, hiSplit, l, u);
    case Union =>
      n := UnionChildRule(pU, singles, l, u);
    case _ =>
      n := Narrowing(Null, Null);
  }

  /** One step of the operand loop: operand i narrowed from its bounds in the current store. */
  method NarrowOperand(b: ExpressionBounds, e: Expr, i: nat, ghost s0: State, topLower: TupleSet, topUpper: TupleSet,
                       loSplits: seq<TupleSet>, hiSplits: seq<TupleSet>, singles: TupleSet)
    requires e.Nary? && i < |e.children| == |loSplits| == |hiSplits|
    requires topLower == LowerOf(s0, e) && topUpper == UpperOf(s0, e)
    requires e.op == Product ==> loSplits == Splits(topLower, Arities(e.children))
    requires e.op == Product ==> hiSplits == Splits(topUpper, Arities(e.children))
    requires e.op == Union ==> singles == Singletons(topLower, UppersOf(s0, e.children))
    modifies b, b.bounds
    ensures b.View() == Push(old(b.View()), e.children[i], NaryChildDown(s0, old(b.View()), e, i))
  {
    var c := e.children[i];
    var n := NaryChildRule(e.op, topLower, topUpper, loSplits[i], hiSplits[i], singles, b.LowerBound(c), b.UpperBound(c));
    b.Bound(c, n.lower, n.upper);
  }

  /**
   * The operand loop of visit(NaryExpression): the parent's bounds, the
   * splits of a product and the singletons of a union are taken once; then
   * each operand in turn is narrowed from its current bounds.
   */
  method NarrowOperands(b: ExpressionBounds, e: Expr)
    requires e.Nary? && NaryNarrows(e.op)
    modifies b, b.bounds
    ensures b.View() == NaryFrom(old(b.View()), old(b.View()), e, 0)
  {
    ghost var s0 := b.View();
    var cs := e.children;
    var topLower, topUpper := b.LowerBound(e), b.UpperBound(e);
    var loSplits: seq<TupleSet> := seq(|cs|, _ => {});
    var hiSplits: seq<TupleSet> := seq(|cs|, _ => {});
    var singles: TupleSet := {};
    if e.op == Product {
      loSplits := Split(topLower, Arities(cs));
      hiSplits := Split(topUpper, Arities(cs));
    } else if e.op == Union {
      singles := Singletons(topLower, UppersOf(b.View(), cs));
    }
    var i := 0;
    while i < |cs|
      invariant 0 <= i <= |cs|
      invariant NaryFrom(s0, b.View(), e, i) == NaryFrom(s0, s0, e, 0)
    {
      NarrowOperand(b, e, i, s0, topLower, topUpper, loSplits, hiSplits, singles);
      i := i + 1;
    }
  }

  /** visit(NaryExpression): INTERSECTION, PRODUCT and UNION narrow their operands, then the default traversal. */
  method VisitNary(p: BoundPropagator, e: Expr)
    requires e.Nary?
    modifies p, p.bounds, p.bounds.bounds
    ensures p.Snapshot() == DownExpr(old(p.Snapshot()), e)
    decreases e, 2
  {
    ghost var w0 := p.Snapshot();
    if NaryNarrows(e.op) {
      NarrowOperands(p.bounds, e);
    }
    assert p.Snapshot() == w0.(store := DownRule(w0.store, e));
    VisitChildren(p, e);
  }

  /** visit(IfExpression): both branches gain the parent's lower bound, then the default traversal. */
  method VisitIf(p: BoundPropagator, e: Expr)
    requires e.IfExpr?
    modifies p, p.bounds, p.bounds.bounds
    ensures p.Snapshot() == DownExpr(old(p.Snapshot()), e)
    decreases e, 2
  {
    ghost var w0 := p.Snapshot();
    var t, f := e.thenExpr, e.elseExpr;
    var thenLower := p.bounds.LowerBound(t) + p.bounds.LowerBound(e);
    var thenUpper := p.bounds.UpperBound(t);
    var elseLower := p.bounds.LowerBound(f) + p.bounds.LowerBound(e);
    var elseUpper := p.bounds.UpperBound(f);
    p.bounds.Bound(t, NonNull(thenLower), NonNull(thenUpper));
    p.bounds.Bound(f, NonNull(elseLower), NonNull(elseUpper));
    assert p.Snapshot() == w0.(store := DownRule(w0.store, e));
    VisitChildren(p, e);
  }

  /** visit(ComparisonFormula): EQUALS narrows both sides alike; SUBSET the right side's lower, then the left side's upper. */
  method VisitComparison(p: BoundPropagator, f: Formula)
    requires f.Comparison?
    modifies p, p.bounds, p.bounds.bounds
    ensures p.Snapshot() == DownFormula(old(p.Snapshot()), f)
    decreases f, 2
  {
    ghost var w0 := p.Snapshot();
    var l, r := f.left, f.right;
    var lower := p.bounds.LowerBound(l) + p.bounds.LowerBound(r);
    var upper := p.bounds.UpperBound(l) * p.bounds.UpperBound(r);
    if f.cop == Equals {
      p.bounds.Bound(l, NonNull(lower), NonNull(upper));
      p.bounds.Bound(r, NonNull(lower), NonNull(upper));
    } else {
      p.bounds.Bound(r, NonNull(lower), Null);
      p.bounds.Bound(l, Null, NonNull(upper));
    }
    assert p.Snapshot() == w0.(store := DownFormulaRule(w0.store, f));
    var seen := p.Visited(f.id);
    if !seen {
      Accept(p, l);
      Accept(p, r);
    }
  }

  /**
   * visit(MultiplicityFormula): NO empties the expression; ONE and LONE
   * take a singleton upper bound as the lower bound, or else a singleton
   * lower bound as the upper bound; SOME fixes a singleton upper bound.
   */
  method VisitMultiplicity(p: BoundPropagator, f: Formula)
    requires f.Multiplicity?
    modifies p, p.bounds, p.bounds.bounds
    ensures p.Snapshot() == DownFormula(old(p.Snapshot()), f)
    decreases f, 2
  {
    ghost var w0 := p.Snapshot();
    var x := f.expression;
    var lowers, uppers := p.bounds.LowerBound(x), p.bounds.UpperBound(x);
    match f.mult {
      case No =>
        p.bounds.Bound(x, NonNull({}), NonNull({}));
      case One =>
        if |uppers| == 1 {
          lowers := uppers;
        } else if |lowers| == 1 {
          uppers := lowers;
        }
        p.bounds.Bound(x, NonNull(lowers), NonNull(uppers));
      case Lone =>
        if |uppers| == 1 {
          lowers := uppers;
        } else if |lowers| == 1 {
          uppers := lowers;
        }
        p.bounds.Bound(x, NonNull(lowers), NonNull(uppers));
      case Some =>
        if |uppers| == 1 {
          p.bounds.Bound(x, NonNull(uppers), NonNull(uppers));
        }
    }
    assert p.Snapshot() == w0.(store := DownFormulaRule(w0.store, f));
    var seen := p.Visited(f.id);
    if !seen {
      Accept(p, x);
    }
  }

  /** visit(Decl): the default traversal, variable then expression, once. */
  method VisitDecl(p: BoundPropagator, d: Decl)
    modifies p, p.bounds, p.bounds.bounds
    ensures p.Snapshot() == DownDecl(old(p.Snapshot()), d)
    decreases d, 2
  {
    var seen := p.Visited(d.id);
    if !seen {
      Accept(p, d.variable);
      Accept(p, d.expression);
    }
  }

  /** Formula.accept: conjunctions and quantifiers pass on to their parts, negations and disjunctions stop. */
  method AcceptFormula(p: BoundPropagator, f: Formula)
    modifies p, p.bounds, p.bounds.bounds
    ensures p.Snapshot() == DownFormula(old(p.Snapshot()), f)
    decreases f, 3
  {
    match f
    case BinaryFormula(_, op, l, r) =>
      if op == And {
        var seen := p.Visited(f.id);
        if !seen {
          AcceptFormula(p, l);
          AcceptFormula(p, r);
        }
      }
    case NaryFormula(_, op, fs) =>
      if op == And {
        var seen := p.Visited(f.id);
        if !seen {
          ghost var w0 := p.Snapshot();
          var i := 0;
          while i < |fs|
            invariant 0 <= i <= |fs|
            invariant DownFormulas(p.Snapshot(), fs[i..]) == DownFormulas(w0, fs)
          {
            assert fs[i..][1..] == fs[i + 1..];
            AcceptFormula(p, fs[i]);
            i := i + 1;
          }
        }
      }
    case Not(_, _) =>
    case Comparison(_, _, _, _) =>
      VisitComparison(p, f);
    case Multiplicity(_, _, _) =>
      VisitMultiplicity(p, f);
    case Quantified(_, _, ds, body) =>
      var seen := p.Visited(f.id);
      if !seen {
        ghost var w0 := p.Snapshot();
        var i := 0;
        while i < |ds|
          invariant 0 <= i <= |ds|
          invariant DownDecls(p.Snapshot(), ds[i..]) == DownDecls(w0, ds)
        {
          assert ds[i..][1..] == ds[i + 1..];
          VisitDecl(p, ds[i]);
          i := i + 1;
        }
        AcceptFormula(p, body);
      }
  }
}
