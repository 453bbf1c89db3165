/**
 * The meaning of the relational operators on actual relation values: the
 * reference the propagation rules are checked against. A bound (lower,
 * upper) is sound for a value when lower <= value <= upper.
 */
module Semantics {
  import opened TupleAlgebra
  import opened TransitiveClosure
  import opened Ast

  /** The value of `x op y`. Override keeps the tuples of `x` whose first atom starts no tuple of `y`, then adds `y`. */
  function ApplyBinary(op: ExprOp, x: TupleSet, y: TupleSet): TupleSet {
    match op
    case Union => x + y
    case Intersection => x * y
    case Difference => x - y
    case Join => JoinSet(x, y)
    case Product => ProductSet(x, y)
    case Override => OverrideSet(x, y, y)
  }

  /**
   * The value of a unary operator applied to `x` in a universe of `size`
   * atoms. `*x` is `^x` plus the identity on every atom of the universe,
   * whether or not the atom lies on an edge of `x`.
   */
  ghost function ApplyUnary(op: UnaryOp, size: nat, x: TupleSet): TupleSet {
    match op
    case Transpose => TransposeSet(x)
    case Closure => ClosureOf(x, false)
    case ReflexiveClosure => ClosureOf(x, false) + Diagonal(Atoms(size))
  }

  /** The value of an n-ary operator over operand values `xs`, folded from the left. */
  function ApplyNary(op: ExprOp, xs: seq<TupleSet>): TupleSet
    requires |xs| > 0
  {
    match op
    case Union => FoldLeft(xs[0], xs[1..], UnionSet)
    case Intersection => FoldLeft(xs[0], xs[1..], IntersectionSet)
    case Product => FoldLeft(xs[0], xs[1..], ProductSet)
    case Override => OverrideFold(xs[0], xs[1..], xs[1..])
    case _ => FoldLeft(xs[0], xs[1..], (a, b) => ApplyBinary(op, a, b))
  }

  /** Each value of `xs` lies within the bounds at its position. */
  ghost predicate Within(ls: seq<TupleSet>, xs: seq<TupleSet>, us: seq<TupleSet>) {
    |ls| == |xs| == |us| && forall i | 0 <= i < |xs| :: ls[i] <= xs[i] <= us[i]
  }

  lemma FirstsMonotone(a: TupleSet, b: TupleSet)
    requires a <= b
    ensures Firsts(a) <= Firsts(b)
  {
  }

  /** A closure never loses tuples when its argument grows. */
  lemma ClosureMonotone(x: TupleSet, y: TupleSet, reflexive: bool)
    requires x <= y
    ensures ClosureOf(x, reflexive) <= ClosureOf(y, reflexive)
  {
    assert EdgeAtoms(x) <= EdgeAtoms(y) by {
      assert Edges(x) <= Edges(y);
    }
    forall a, b | Reaches(x, a, b) ensures Reaches(y, a, b) {
      var p :| IsPath(x, p) && p[0] == a && p[|p| - 1] == b;
      assert IsPath(y, p);
    }
    assert Connected(x) <= Connected(y);
  }

  /** Transposition and both closures never lose tuples when their argument grows. */
  lemma UnaryMonotone(op: UnaryOp, size: nat, x: TupleSet, y: TupleSet)
    requires x <= y
    ensures ApplyUnary(op, size, x) <= ApplyUnary(op, size, y)
  {
    if op != Transpose {
      ClosureMonotone(x, y, false);
    }
  }

  /** A fold whose combining step is monotone in both arguments is itself monotone. */
  lemma {:induction false} FoldMonotone(a: TupleSet, xs: seq<TupleSet>, b: TupleSet, ys: seq<TupleSet>,
                                        f: (TupleSet, TupleSet) -> TupleSet)
    requires forall p, q, r, s | p <= r && q <= s :: f(p, q) <= f(r, s)
    requires a <= b && |xs| == |ys| && forall i | 0 <= i < |xs| :: xs[i] <= ys[i]
    ensures FoldLeft(a, xs, f) <= FoldLeft(b, ys, f)
    decreases |xs|
  {
    if xs != [] {
      FoldMonotone(f(a, xs[0]), xs[1..], f(b, ys[0]), ys[1..], f);
    }
  }

  lemma {:induction false} OverrideFoldMonotone(a: TupleSet, rs: seq<TupleSet>, gs: seq<TupleSet>,
                                                b: TupleSet, rs': seq<TupleSet>, gs': seq<TupleSet>)
    requires a <= b && |rs| == |gs| == |rs'| == |gs'|
    requires forall i | 0 <= i < |rs| :: rs[i] <= rs'[i] && gs'[i] <= gs[i]
    ensures OverrideFold(a, rs, gs) <= OverrideFold(b, rs', gs')
    decreases |rs|
  {
    if rs != [] {
      FirstsMonotone(gs'[0], gs[0]);
      OverrideFoldMonotone(OverrideSet(a, rs[0], gs[0]), rs[1..], gs[1..], OverrideSet(b, rs'[0], gs'[0]), rs'[1..], gs'[1..]);
    }
  }
}
