/**
 * The slice of Kodkod's abstract syntax tree the propagators visit.
 * Every node carries a NodeId standing for its Java object identity: the
 * visited cache and the bound store are keyed by it, so two occurrences of
 * one shared node carry the same id.
 */
module Ast {

  type NodeId = nat

  /** ExprOperator, the binary and n-ary relational operators. */
  datatype ExprOp = Union | Intersection | Difference | Join | Product | Override

  /** The unary relational operators. */
  datatype UnaryOp = Transpose | Closure | ReflexiveClosure

  /** The four constant expressions NONE, UNIV, IDEN and INTS. */
  datatype ConstKind = None | Univ | Iden | Ints

  /** FormulaOperator. */
  datatype FormulaOp = And | Or | Implies | Iff

  /** ExprCompOperator. */
  datatype CompOp = Equals | Subset

  /** Multiplicity of a multiplicity formula. */
  datatype Mult = No | Lone | One | Some

  /** Quantifier. */
  datatype Quantifier = All | Exists

  datatype Expr =
    | Relation(id: NodeId, arity: nat)
    | Variable(id: NodeId, arity: nat)
    | Constant(id: NodeId, kind: ConstKind)
    | Unary(id: NodeId, uop: UnaryOp, sub: Expr)
    | Binary(id: NodeId, op: ExprOp, left: Expr, right: Expr)
    | Nary(id: NodeId, op: ExprOp, children: seq<Expr>)
    | IfExpr(id: NodeId, condition: Formula, thenExpr: Expr, elseExpr: Expr)

  /** A declaration `variable : expression` of a quantified formula. */
  datatype Decl = Decl(id: NodeId, variable: Expr, expression: Expr)

  datatype Formula =
    | BinaryFormula(id: NodeId, fop: FormulaOp, lhs: Formula, rhs: Formula)
    | NaryFormula(id: NodeId, fop: FormulaOp, operands: seq<Formula>)
    | Not(id: NodeId, formula: Formula)
    | Comparison(id: NodeId, cop: CompOp, left: Expr, right: Expr)
    | Multiplicity(id: NodeId, mult: Mult, expression: Expr)
    | Quantified(id: NodeId, quant: Quantifier, decls: seq<Decl>, body: Formula)

  /**
   * Expression.arity(): a relation or variable has its declared arity, the
   * constants 1 (IDEN 2), a closure or transpose 2, a join l + r - 2, a
   * product the sum of its operands and the other operators the arity of
   * their first operand; a conditional has the arity of its then-branch.
   */
  function Arity(e: Expr): nat
    decreases e
  {
    match e
    case Relation(_, k) => k
    case Variable(_, k) => k
    case Constant(_, kind) => if kind == Iden then 2 else 1
    case Unary(_, _, _) => 2
    case Binary(_, op, l, r) =>
      if op == Join then (if Arity(l) + Arity(r) >= 2 then Arity(l) + Arity(r) - 2 else 0)
      else if op == Product then Arity(l) + Arity(r)
      else Arity(l)
    case Nary(_, op, cs) =>
      if op == Product then SumArity(cs)
      else if |cs| > 0 then Arity(cs[0])
      else 0
    case IfExpr(_, _, t, _) => Arity(t)
  }

  /** The arities of `cs`, added up. */
  function SumArity(cs: seq<Expr>): nat
    decreases cs
  {
    if cs == [] then 0 else Arity(cs[0]) + SumArity(cs[1..])
  }

  /** The arities of the children, in order. */
  function Arities(cs: seq<Expr>): (r: seq<nat>)
    ensures |r| == |cs|
    ensures forall i | 0 <= i < |cs| :: r[i] == Arity(cs[i])
  {
    seq(|cs|, i requires 0 <= i < |cs| => Arity(cs[i]))
  }

  // ---------------------------------------------------------------- identities

  /** Relations are exactly the nodes whose ids are in R. */
  ghost predicate Separates(R: set<NodeId>, e: Expr) {
    e.Relation? <==> e.id in R
  }

  /** Every expression node of `e` is told apart from relations by its id. */
  ghost predicate SeparatedExpr(R: set<NodeId>, e: Expr)
    decreases e
  {
    && Separates(R, e)
    && match e
       case Unary(_, _, sub) => SeparatedExpr(R, sub)
       case Binary(_, _, l, r) => SeparatedExpr(R, l) && SeparatedExpr(R, r)
       case Nary(_, _, cs) => forall i | 0 <= i < |cs| :: SeparatedExpr(R, cs[i])
       case IfExpr(_, c, t, f) => SeparatedFormula(R, c) && SeparatedExpr(R, t) && SeparatedExpr(R, f)
       case _ => true
  }

  /** Every expression node inside `f` is told apart from relations by its id. */
  ghost predicate SeparatedFormula(R: set<NodeId>, f: Formula)
    decreases f
  {
    match f
    case BinaryFormula(_, _, l, r) => SeparatedFormula(R, l) && SeparatedFormula(R, r)
    case NaryFormula(_, _, fs) => forall i | 0 <= i < |fs| :: SeparatedFormula(R, fs[i])
    case Not(_, g) => SeparatedFormula(R, g)
    case Comparison(_, _, l, r) => SeparatedExpr(R, l) && SeparatedExpr(R, r)
    case Multiplicity(_, _, x) => SeparatedExpr(R, x)
    case Quantified(_, _, ds, body) => (forall i | 0 <= i < |ds| :: SeparatedDecl(R, ds[i])) && SeparatedFormula(R, body)
  }

  /** Both parts of declaration `d` are separated. */
  ghost predicate SeparatedDecl(R: set<NodeId>, d: Decl)
    decreases d
  {
    SeparatedExpr(R, d.variable) && SeparatedExpr(R, d.expression)
  }
}
