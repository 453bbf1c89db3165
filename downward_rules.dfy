/**
 * The rules of DownwardExpressionBoundPropagator: from the bounds of a node
 * and of its operands, the bounds each operand is asked to take.  Each rule
 * is a function of the bounds it reads, a method that computes it the way
 * the propagator's loops do, and lemmas saying when the narrowing keeps
 * every value the operand can still take, and when it does not.
 */
module DownwardRules {
  import opened Wrappers
  import opened TupleAlgebra
  import opened Ast
  import opened Semantics

  /** The arguments of one bound call: a null side keeps the current bound. */
  datatype Narrowing = Narrowing(lower: Nullable<TupleSet>, upper: Nullable<TupleSet>)

  function Both(lower: TupleSet, upper: TupleSet): Narrowing {
    Narrowing(NonNull(lower), NonNull(upper))
  }

  /** A narrowing keeps value `x` when `x` lies within every side it gives. */
  ghost predicate Keeps(n: Narrowing, x: TupleSet) {
    && (n.lower.NonNull? ==> n.lower.value <= x)
    && (n.upper.NonNull? ==> x <= n.upper.value)
  }

  // ---------------------------------------------------------------- difference

  /**
   * DIFFERENCE: the left operand gains the parent's lower bound and keeps
   * only tuples the parent or the right operand may hold; the right operand
   * gains the new left lower tuples outside the parent's lower bound and
   * loses the parent's lower bound.
   */
  function DifferenceDown(pL: TupleSet, pU: TupleSet, lL: TupleSet, uL: TupleSet, lR: TupleSet, uR: TupleSet): (Narrowing, Narrowing) {
    var leftLower := lL + pL;
    (Both(leftLower, uL * (pU + uR)), Both(lR + (leftLower - pL), uR - pL))
  }

  method DifferenceRule(pL: TupleSet, pU: TupleSet, lL: TupleSet, uL: TupleSet, lR: TupleSet, uR: TupleSet)
    returns (left: Narrowing, right: Narrowing)
    ensures (left, right) == DifferenceDown(pL, pU, lL, uL, lR, uR)
  {
    var leftLower := lL + pL;
    var rightLower := lR;
    var todo := leftLower;
    while todo != {}
      invariant todo <= leftLower
      invariant rightLower == lR + (leftLower - todo - pL)
      decreases todo
    {
      var t :| t in todo;
      if t !in pL {
        rightLower := rightLower + {t};
      }
      todo := todo - {t};
    }
    assert leftLower - todo - pL == leftLower - pL;
    left := Both(leftLower, uL * (pU + uR));
    right := Both(rightLower, uR - pL);
  }

  /** The left narrowings and the right upper narrowing keep every pair of values whose difference the parent allows. */
  lemma DifferenceDownSound(pL: TupleSet, pU: TupleSet, lL: TupleSet, uL: TupleSet, lR: TupleSet, uR: TupleSet, x: TupleSet, y: TupleSet)
    requires lL <= x <= uL && lR <= y <= uR && pL <= x - y <= pU
    ensures Keeps(DifferenceDown(pL, pU, lL, uL, lR, uR).0, x)
    ensures y <= DifferenceDown(pL, pU, lL, uL, lR, uR).1.upper.value
  {
  }

  /**
   * The right lower narrowing is not implied: a left tuple outside the
   * parent's lower bound may be in the difference, yet it is forced into the
   * right operand.
   */
  lemma DifferenceDownRightLowerOverreaches(t: Tuple)
    ensures var r := DifferenceDown({}, {t}, {t}, {t}, {}, {t}).1;
            {} <= {t} - {} <= {t} && t in r.lower.value && !Keeps(r, {})
  {
  }

  // ---------------------------------------------------------------- intersection

  /** INTERSECTION: both operands gain the parent's lower bound; upper bounds are left alone. */
  function IntersectionDown(pL: TupleSet, lL: TupleSet, lR: TupleSet): (Narrowing, Narrowing) {
    (Narrowing(NonNull(lL + pL), Null), Narrowing(NonNull(lR + pL), Null))
  }

  lemma IntersectionDownSound(pL: TupleSet, lL: TupleSet, lR: TupleSet, x: TupleSet, y: TupleSet)
    requires lL <= x && lR <= y && pL <= x * y
    ensures Keeps(IntersectionDown(pL, lL, lR).0, x) && Keeps(IntersectionDown(pL, lL, lR).1, y)
  {
  }

  // ---------------------------------------------------------------- join

  /** The pairs of a left and a right tuple whose glued atoms give `t`; the join key is not compared. */
  function Candidates(uL: TupleSet, uR: TupleSet, t: Tuple): set<(Tuple, Tuple)> {
    set p, q | p in uL && q in uR && Glue(p, q) == t :: (p, q)
  }

  /** Left tuples that are the only candidate prefix of a tuple of the parent's lower bound. */
  function OnlyPrefixes(pL: TupleSet, uL: TupleSet, uR: TupleSet): TupleSet {
    set p, q | p in uL && q in uR && Glue(p, q) in pL && Candidates(uL, uR, Glue(p, q)) == {(p, q)} :: p
  }

  /** Right tuples that are the only candidate suffix of a tuple of the parent's lower bound. */
  function OnlySuffixes(pL: TupleSet, uL: TupleSet, uR: TupleSet): TupleSet {
    set p, q | p in uL && q in uR && Glue(p, q) in pL && Candidates(uL, uR, Glue(p, q)) == {(p, q)} :: q
  }

  /** The tuples of `src` whose atoms lo .. hi-1 are none, or one of `keys`. */
  function KeepKeyed(src: TupleSet, lo: nat, hi: nat, keys: set<Tuple>): TupleSet {
    set p | p in src && (Slice(p, lo, hi) == [] || Slice(p, lo, hi) in keys)
  }

  /** The position of a left operand's last atom. */
  function LastOf(arity: nat): nat {
    if arity > 0 then arity - 1 else 0
  }

  /**
   * JOIN, for operands of arities la and ra and a join of arity ea: each
   * operand gains its tuples that are the only candidates for a tuple of the
   * parent's lower bound, and keeps only tuples whose prefix (suffix) starts
   * (ends) some tuple of the parent's upper bound.
   */
  function JoinDown(la: nat, ra: nat, ea: nat, pL: TupleSet, pU: TupleSet, lL: TupleSet, uL: TupleSet, lR: TupleSet, uR: TupleSet)
    : (Narrowing, Narrowing)
  {
    (Both(lL + OnlyPrefixes(pL, uL, uR), KeepKeyed(uL, 0, LastOf(la), Keys(pU, 0, LastOf(la)))),
     Both(lR + OnlySuffixes(pL, uL, uR), KeepKeyed(uR, 1, ra, Keys(pU, LastOf(la), ea))))
  }

  /** Candidates grow by the pairs of one more left tuple. */
  lemma CandidatesAddLeft(done: TupleSet, p: Tuple, uR: TupleSet, t: Tuple)
    ensures Candidates(done + {p}, uR, t) == Candidates(done, uR, t) + PairsWith(p, uR, t)
  {
  }

  /** The pairs of left tuple `p` with the tuples of `rs` that glue to `t`. */
  function PairsWith(p: Tuple, rs: TupleSet, t: Tuple): set<(Tuple, Tuple)> {
    set q | q in rs && Glue(p, q) == t :: (p, q)
  }

  /** `w` holds, for each parent lower tuple, its candidate pairs from `done` and from `p` with `doneR`. */
  ghost predicate WitnessesSoFar(w: map<Tuple, set<(Tuple, Tuple)>>, pL: TupleSet, done: TupleSet, uR: TupleSet, p: Tuple, doneR: TupleSet) {
    && (forall t :: t in w <==> t in pL && Candidates(done, uR, t) + PairsWith(p, doneR, t) != {})
    && (forall t | t in w :: w[t] == Candidates(done, uR, t) + PairsWith(p, doneR, t))
  }

  /** Recording pair (p, q) under the tuple it glues to, when that tuple is in the parent's lower bound. */
  function Record(w: map<Tuple, set<(Tuple, Tuple)>>, pL: TupleSet, p: Tuple, q: Tuple): map<Tuple, set<(Tuple, Tuple)>> {
    var t := Glue(p, q);
    if t in pL then w[t := (if t in w then w[t] else {}) + {(p, q)}] else w
  }

  /** The pairs of `p` grow by (p, q) under the tuple they glue to. */
  lemma PairsWithAddRight(p: Tuple, doneR: TupleSet, q: Tuple, t: Tuple)
    ensures PairsWith(p, doneR + {q}, t) == PairsWith(p, doneR, t) + (if t == Glue(p, q) then {(p, q)} else {})
  {
  }

  lemma RecordStep(w: map<Tuple, set<(Tuple, Tuple)>>, pL: TupleSet, done: TupleSet, uR: TupleSet, p: Tuple, doneR: TupleSet, q: Tuple)
    requires WitnessesSoFar(w, pL, done, uR, p, doneR)
    ensures WitnessesSoFar(Record(w, pL, p, q), pL, done, uR, p, doneR + {q})
  {
    var w' := Record(w, pL, p, q);
    forall t
      ensures t in w' <==> t in pL && Candidates(done, uR, t) + PairsWith(p, doneR + {q}, t) != {}
      ensures t in w' ==> w'[t] == Candidates(done, uR, t) + PairsWith(p, doneR + {q}, t)
    {
      PairsWithAddRight(p, doneR, q, t);
      RecordOne(w, pL, done, uR, p, doneR, q, t);
    }
  }

  /** Recording (p, q) keeps the entry of one tuple `t` as WitnessesSoFar wants it. */
  lemma RecordOne(w: map<Tuple, set<(Tuple, Tuple)>>, pL: TupleSet, done: TupleSet, uR: TupleSet, p: Tuple, doneR: TupleSet, q: Tuple, t: Tuple)
    requires t in w <==> t in pL && Candidates(done, uR, t) + PairsWith(p, doneR, t) != {}
    requires t in w ==> w[t] == Candidates(done, uR, t) + PairsWith(p, doneR, t)
    requires PairsWith(p, doneR + {q}, t) == PairsWith(p, doneR, t) + (if t == Glue(p, q) then {(p, q)} else {})
    ensures var w' := Record(w, pL, p, q);
      && (t in w' <==> t in pL && Candidates(done, uR, t) + PairsWith(p, doneR + {q}, t) != {})
      && (t in w' ==> w'[t] == Candidates(done, uR, t) + PairsWith(p, doneR + {q}, t))
  {
    if t == Glue(p, q) && t !in w {
      assert Candidates(done, uR, t) + PairsWith(p, doneR, t) == {} || t !in pL;
    }
  }

  /** The inner loop of the witness search: the pairs of left tuple `p` with every right tuple. */
  method AddPartners(w0: map<Tuple, set<(Tuple, Tuple)>>, pL: TupleSet, done: TupleSet, p: Tuple, uR: TupleSet)
    returns (w: map<Tuple, set<(Tuple, Tuple)>>)
    requires WitnessesSoFar(w0, pL, done, uR, p, {})
    ensures WitnessesSoFar(w, pL, done, uR, p, uR)
  {
    w := w0;
    var rest := uR;
    ghost var doneR: TupleSet := {};
    while rest != {}
      invariant doneR + rest == uR && doneR !! rest
      invariant WitnessesSoFar(w, pL, done, uR, p, doneR)
      decreases rest
    {
      var q :| q in rest;
      RecordStep(w, pL, done, uR, p, doneR, q);
      w := Record(w, pL, p, q);
      doneR := doneR + {q};
      rest := rest - {q};
    }
  }

  /** The prefix and suffix lists of the JOIN rule, kept as one map from a parent lower tuple to its candidate pairs. */
  method JoinWitnesses(pL: TupleSet, uL: TupleSet, uR: TupleSet) returns (w: map<Tuple, set<(Tuple, Tuple)>>)
    ensures forall t :: t in w <==> t in pL && Candidates(uL, uR, t) != {}
    ensures forall t | t in w :: w[t] == Candidates(uL, uR, t)
  {
    w := map[];
    var todo := uL;
    while todo != {}
      invariant todo <= uL
      invariant forall t :: t in w <==> t in pL && Candidates(uL - todo, uR, t) != {}
      invariant forall t | t in w :: w[t] == Candidates(uL - todo, uR, t)
      decreases todo
    {
      var p :| p in todo;
      forall t ensures PairsWith(p, {}, t) == {} {
      }
      w := AddPartners(w, pL, uL - todo, p, uR);
      forall t ensures Candidates(uL - (todo - {p}), uR, t) == Candidates(uL - todo, uR, t) + PairsWith(p, uR, t) {
        assert uL - (todo - {p}) == (uL - todo) + {p};
        CandidatesAddLeft(uL - todo, p, uR, t);
      }
      todo := todo - {p};
    }
    assert uL - todo == uL;
  }

  /** The groups of `src` whose key is not a key of `top`, removed. */
  method DropUnkeyed(src: TupleSet, lo: nat, hi: nat, top: TupleSet, tlo: nat, thi: nat) returns (kept: TupleSet)
    ensures kept == KeepKeyed(src, lo, hi, Keys(top, tlo, thi))
  {
    var topGroups := Subsequence(top, tlo, thi);
    var groups := Subsequence(src, lo, hi);
    kept := src - set k, t | k in groups && k !in topGroups && t in groups[k] :: t;
    forall p | p in src ensures p in kept <==> p in KeepKeyed(src, lo, hi, Keys(top, tlo, thi)) {
      if Slice(p, lo, hi) != [] {
        assert p in groups[Slice(p, lo, hi)];
      }
    }
  }

  method JoinRule(la: nat, ra: nat, ea: nat, pL: TupleSet, pU: TupleSet, lL: TupleSet, uL: TupleSet, lR: TupleSet, uR: TupleSet)
    returns (left: Narrowing, right: Narrowing)
    ensures (left, right) == JoinDown(la, ra, ea, pL, pU, lL, uL, lR, uR)
  {
    var w := JoinWitnesses(pL, uL, uR);
    var prefixes := set t, x | t in w && x in w[t] && w[t] == {x} :: x.0;
    var suffixes := set t, x | t in w && x in w[t] && w[t] == {x} :: x.1;
    forall p | p in prefixes ensures p in OnlyPrefixes(pL, uL, uR) {
      var t, x :| t in w && x in w[t] && w[t] == {x} && p == x.0;
      assert x.0 in uL && x.1 in uR && Glue(x.0, x.1) == t;
    }
    forall p | p in OnlyPrefixes(pL, uL, uR) ensures p in prefixes {
      var q :| q in uR && Glue(p, q) in pL && Candidates(uL, uR, Glue(p, q)) == {(p, q)};
      assert (p, q) in w[Glue(p, q)];
    }
    forall q | q in suffixes ensures q in OnlySuffixes(pL, uL, uR) {
      var t, x :| t in w && x in w[t] && w[t] == {x} && q == x.1;
      assert x.0 in uL && x.1 in uR && Glue(x.0, x.1) == t;
    }
    forall q | q in OnlySuffixes(pL, uL, uR) ensures q in suffixes {
      var p :| p in uL && Glue(p, q) in pL && Candidates(uL, uR, Glue(p, q)) == {(p, q)};
      assert (p, q) in w[Glue(p, q)];
    }
    assert prefixes == OnlyPrefixes(pL, uL, uR);
    assert suffixes == OnlySuffixes(pL, uL, uR);
    var leftUpper := DropUnkeyed(uL, 0, LastOf(la), pU, 0, LastOf(la));
    var rightUpper := DropUnkeyed(uR, 1, ra, pU, LastOf(la), ea);
    left := Both(lL + prefixes, leftUpper);
    right := Both(lR + suffixes, rightUpper);
  }

  /**
   * The lower narrowings keep the operands whenever their join holds the
   * parent's lower bound: the one candidate pair of a parent tuple must be
   * the pair that produced it, since skipping the key check only adds
   * candidates.
   */
  lemma JoinDownLowerSound(pL: TupleSet, lL: TupleSet, uL: TupleSet, lR: TupleSet, uR: TupleSet, x: TupleSet, y: TupleSet)
    requires lL <= x <= uL && lR <= y <= uR && pL <= JoinSet(x, y)
    ensures lL + OnlyPrefixes(pL, uL, uR) <= x
    ensures lR + OnlySuffixes(pL, uL, uR) <= y
  {
    forall p, q | p in uL && q in uR && Glue(p, q) in pL && Candidates(uL, uR, Glue(p, q)) == {(p, q)}
      ensures p in x && q in y
    {
      var t := Glue(p, q);
      var p', q' :| p' in x && q' in y && Meets(p', q') && Glue(p', q') == t;
      assert (p', q') in Candidates(uL, uR, t);
    }
  }

  /**
   * The upper narrowings keep every tuple that meets a partner in the other
   * operand, when the operands have their declared arities and their join
   * lies within the parent's upper bound.
   */
  lemma JoinDownUpperKeepsMatched(la: nat, ra: nat, pU: TupleSet, x: TupleSet, y: TupleSet, p: Tuple, q: Tuple)
    requires la >= 1 && ra >= 1 && HasArity(x, la) && HasArity(y, ra)
    requires JoinSet(x, y) <= pU && p in x && q in y && Meets(p, q)
    ensures p in KeepKeyed(x, 0, LastOf(la), Keys(pU, 0, LastOf(la)))
    ensures q in KeepKeyed(y, 1, ra, Keys(pU, LastOf(la), la + ra - 2))
  {
    var t := Glue(p, q);
    assert t in JoinSet(x, y);
    assert t == p[..la - 1] + q[1..];
    assert Slice(t, 0, la - 1) == Slice(p, 0, la - 1);
    assert Slice(t, la - 1, la + ra - 2) == Slice(q, 1, ra);
  }

  /**
   * A tuple with no partner loses its place: with an empty right operand the
   * join is empty whatever the left operand holds, yet the left upper bound
   * is cut to nothing.
   */
  lemma JoinDownDropsUnmatched()
    ensures var l := JoinDown(2, 2, 2, {}, {}, {}, {[0, 1]}, {}, {}).0;
            JoinSet({[0, 1]}, {}) == {} && !Keeps(l, {[0, 1]})
  {
    assert Slice([0, 1], 0, 1) == [0];
  }

  // ---------------------------------------------------------------- product

  /** The first `n` atoms of each tuple. */
  function Prefixes(ts: TupleSet, n: nat): TupleSet {
    set t | t in ts :: Slice(t, 0, n)
  }

  /** The atoms of each tuple from position `n` up to `hi`. */
  function Suffixes(ts: TupleSet, n: nat, hi: nat): TupleSet {
    set t | t in ts :: Slice(t, n, hi)
  }

  /** All atoms of each tuple from position `n` on. */
  function Tails(ts: TupleSet, n: nat): TupleSet {
    set t | t in ts :: Slice(t, n, |t|)
  }

  /**
   * PRODUCT, for a left operand of arity la and a product of arity ea: each
   * operand gains its part of the parent's lower tuples and keeps only
   * tuples that are its part of some parent upper tuple.
   */
  function ProductDown(la: nat, ea: nat, pL: TupleSet, pU: TupleSet, lL: TupleSet, uL: TupleSet, lR: TupleSet, uR: TupleSet)
    : (Narrowing, Narrowing)
  {
    (Both(lL + Prefixes(pL, la), uL * Prefixes(pU, la)),
     Both(lR + Tails(pL, la), uR * Suffixes(pU, la, ea)))
  }

  /** The atom loop of the PRODUCT rule: the atoms before position `n`, and the rest. */
  method SplitAt(t: Tuple, n: nat) returns (prefix: Tuple, suffix: Tuple)
    ensures prefix == Slice(t, 0, n) && suffix == Slice(t, n, |t|)
  {
    prefix, suffix := [], [];
    var i := 0;
    while i < |t|
      invariant 0 <= i <= |t|
      invariant prefix == t[..if i < n then i else n]
      invariant suffix == if i <= n then [] else t[n..i]
    {
      if i < n {
        prefix := prefix + [t[i]];
      } else {
        suffix := suffix + [t[i]];
      }
      i := i + 1;
    }
  }

  method ProductRule(la: nat, ea: nat, pL: TupleSet, pU: TupleSet, lL: TupleSet, uL: TupleSet, lR: TupleSet, uR: TupleSet)
    returns (left: Narrowing, right: Narrowing)
    ensures (left, right) == ProductDown(la, ea, pL, pU, lL, uL, lR, uR)
  {
    var leftLower, rightLower := lL, lR;
    var todo := pL;
    while todo != {}
      invariant todo <= pL
      invariant leftLower == lL + Prefixes(pL - todo, la)
      invariant rightLower == lR + Tails(pL - todo, la)
      decreases todo
    {
      var t :| t in todo;
      var prefix, suffix := SplitAt(t, la);
      leftLower := leftLower + {prefix};
      rightLower := rightLower + {suffix};
      assert pL - (todo - {t}) == (pL - todo) + {t};
      todo := todo - {t};
    }
    assert pL - todo == pL;
    left := Both(leftLower, uL * Prefixes(pU, la));
    right := Both(rightLower, uR * Suffixes(pU, la, ea));
  }

  /** The lower narrowings keep operands of the declared arity whose product holds the parent's lower bound. */
  lemma ProductDownLowerSound(la: nat, pL: TupleSet, lL: TupleSet, lR: TupleSet, x: TupleSet, y: TupleSet)
    requires HasArity(x, la) && lL <= x && lR <= y && pL <= ProductSet(x, y)
    ensures lL + Prefixes(pL, la) <= x && lR + Tails(pL, la) <= y
  {
    forall t | t in pL ensures Slice(t, 0, la) in x && Slice(t, la, |t|) in y {
      ProductSplits(x, y, la, t);
      assert Slice(t, 0, la) == t[..la] && Slice(t, la, |t|) == t[la..];
    }
  }

  /**
   * The upper narrowings keep operands of the declared arities whose product
   * lies within the parent's upper bound, provided the other operand is not
   * empty.
   */
  lemma ProductDownUpperSound(la: nat, ra: nat, pU: TupleSet, uL: TupleSet, uR: TupleSet, x: TupleSet, y: TupleSet)
    requires HasArity(x, la) && HasArity(y, ra) && x <= uL && y <= uR && ProductSet(x, y) <= pU
    ensures y != {} ==> x <= uL * Prefixes(pU, la)
    ensures x != {} ==> y <= uR * Suffixes(pU, la, la + ra)
  {
    if y != {} {
      var q :| q in y;
      forall p | p in x ensures p in Prefixes(pU, la) {
        assert p + q in ProductSet(x, y);
        assert Slice(p + q, 0, la) == p;
      }
    }
    if x != {} {
      var p :| p in x;
      forall q | q in y ensures q in Suffixes(pU, la, la + ra) {
        assert p + q in ProductSet(x, y);
        assert Slice(p + q, la, la + ra) == q;
      }
    }
  }

  /** With an empty operand the product is empty, and the other operand's upper bound is cut to nothing. */
  lemma ProductDownEmptiesBeside()
    ensures var l := ProductDown(1, 2, {}, {}, {}, {[0]}, {}, {}).0;
            ProductSet({[0]}, {}) == {} && !Keeps(l, {[0]})
  {
    assert [0] !in Prefixes({}, 1);
  }

  // ---------------------------------------------------------------- union

  /**
   * UNION: a parent lower tuple that only one operand may hold is added to
   * that operand's lower bound, and each operand keeps only tuples the
   * parent may hold.
   */
  function UnionDown(pL: TupleSet, pU: TupleSet, lL: TupleSet, uL: TupleSet, lR: TupleSet, uR: TupleSet): (Narrowing, Narrowing) {
    (Both(lL + (set t | t in pL && t in uL && t !in uR), uL * pU),
     Both(lR + (set t | t in pL && t !in uL && t in uR), uR * pU))
  }

  method UnionRule(pL: TupleSet, pU: TupleSet, lL: TupleSet, uL: TupleSet, lR: TupleSet, uR: TupleSet)
    returns (left: Narrowing, right: Narrowing)
    ensures (left, right) == UnionDown(pL, pU, lL, uL, lR, uR)
  {
    var leftLower, rightLower := lL, lR;
    var todo := pL;
    while todo != {}
      invariant todo <= pL
      invariant leftLower == lL + set t | t in pL - todo && t in uL && t !in uR
      invariant rightLower == lR + set t | t in pL - todo && t !in uL && t in uR
      decreases todo
    {
      var t :| t in todo;
      if t in uL && t !in uR {
        leftLower := leftLower + {t};
      }
      if t !in uL && t in uR {
        rightLower := rightLower + {t};
      }
      todo := todo - {t};
    }
    assert pL - todo == pL;
    left := Both(leftLower, uL * pU);
    right := Both(rightLower, uR * pU);
  }

  /** Every narrowing of the UNION rule keeps operands whose union lies within the parent's bounds. */
  lemma UnionDownSound(pL: TupleSet, pU: TupleSet, lL: TupleSet, uL: TupleSet, lR: TupleSet, uR: TupleSet, x: TupleSet, y: TupleSet)
    requires lL <= x <= uL && lR <= y <= uR && pL <= x + y <= pU
    ensures Keeps(UnionDown(pL, pU, lL, uL, lR, uR).0, x) && Keeps(UnionDown(pL, pU, lL, uL, lR, uR).1, y)
  {
  }

  // ---------------------------------------------------------------- transpose

  /** TRANSPOSE: the operand takes the transpose of each side of the parent's bounds. */
  function TransposeDown(pL: TupleSet, pU: TupleSet): Narrowing {
    Both(TransposeSet(pL), TransposeSet(pU))
  }

  lemma TransposeMonotone(a: TupleSet, b: TupleSet)
    requires a <= b
    ensures TransposeSet(a) <= TransposeSet(b)
  {
  }

  /** The narrowing keeps every operand whose transpose lies within the parent's bounds. */
  lemma TransposeDownSound(pL: TupleSet, pU: TupleSet, x: TupleSet)
    requires pL <= TransposeSet(x) <= pU
    ensures Keeps(TransposeDown(pL, pU), x)
  {
    TransposeMonotone(pL, TransposeSet(x));
    TransposeMonotone(TransposeSet(x), pU);
    TransposeInvolutive(x);
  }

  // ---------------------------------------------------------------- if

  /** IfExpression: both branches gain the parent's lower bound and keep their upper bounds. */
  function IfDown(pL: TupleSet, lT: TupleSet, uT: TupleSet, lE: TupleSet, uE: TupleSet): (Narrowing, Narrowing) {
    (Both(lT + pL, uT), Both(lE + pL, uE))
  }

  /** The narrowing of the branch the condition takes keeps its value. */
  lemma IfDownKeepsTaken(pL: TupleSet, lT: TupleSet, uT: TupleSet, lE: TupleSet, uE: TupleSet, x: TupleSet, y: TupleSet)
    requires lT <= x <= uT && lE <= y <= uE
    ensures pL <= x ==> Keeps(IfDown(pL, lT, uT, lE, uE).0, x)
    ensures pL <= y ==> Keeps(IfDown(pL, lT, uT, lE, uE).1, y)
  {
  }

  /** The branch not taken is narrowed all the same: its value need not hold the parent's lower bound. */
  lemma IfDownNarrowsUntaken(t: Tuple)
    ensures !Keeps(IfDown({t}, {}, {t}, {}, {t}).1, {})
  {
  }

  // ---------------------------------------------------------------- comparison

  /** EQUALS: both sides take the union of the lower bounds and the intersection of the upper bounds. */
  function EqualsDown(lL: TupleSet, uL: TupleSet, lR: TupleSet, uR: TupleSet): Narrowing {
    Both(lL + lR, uL * uR)
  }

  /**
   * SUBSET: the right side's lower bound rises to the union of the lower
   * bounds, the left side's upper bound falls to the intersection of the
   * upper bounds; as (left, right).
   */
  function SubsetDown(lL: TupleSet, uL: TupleSet, lR: TupleSet, uR: TupleSet): (Narrowing, Narrowing) {
    (Narrowing(Null, NonNull(uL * uR)), Narrowing(NonNull(lL + lR), Null))
  }

  lemma ComparisonDownSound(lL: TupleSet, uL: TupleSet, lR: TupleSet, uR: TupleSet, x: TupleSet, y: TupleSet)
    requires lL <= x <= uL && lR <= y <= uR
    ensures x == y ==> Keeps(EqualsDown(lL, uL, lR, uR), x) && Keeps(EqualsDown(lL, uL, lR, uR), y)
    ensures x <= y ==> Keeps(SubsetDown(lL, uL, lR, uR).0, x) && Keeps(SubsetDown(lL, uL, lR, uR).1, y)
  {
  }

  // ---------------------------------------------------------------- multiplicity

  /** What a multiplicity formula says of its expression's value. */
  ghost predicate MultHolds(m: Mult, x: TupleSet) {
    match m
    case No => x == {}
    case Lone => |x| <= 1
    case One => |x| == 1
    case Some => x != {}
  }

  /** ONE and LONE: a one-tuple upper bound becomes the lower bound, else a one-tuple lower bound becomes the upper bound. */
  function OneDown(l: TupleSet, u: TupleSet): Narrowing {
    if |u| == 1 then Both(u, u)
    else if |l| == 1 then Both(l, l)
    else Both(l, u)
  }

  /** The bound call of a multiplicity formula, or null when the rule makes none. */
  function MultDown(m: Mult, l: TupleSet, u: TupleSet): Nullable<Narrowing> {
    match m
    case No => NonNull(Both({}, {}))
    case One => NonNull(OneDown(l, u))
    case Lone => NonNull(OneDown(l, u))
    case Some => if |u| == 1 then NonNull(Both(u, u)) else Null
  }

  lemma SubsetSize(x: TupleSet, u: TupleSet)
    requires x <= u
    ensures |x| <= |u| && (|x| == |u| ==> x == u)
  {
    assert u == x + (u - x);
    assert x * (u - x) == {};
    if |x| == |u| {
      assert |u - x| == 0;
    }
  }

  /** For NO, ONE and SOME the bound call keeps every value the formula allows. */
  lemma MultDownSound(m: Mult, l: TupleSet, u: TupleSet, x: TupleSet)
    requires m != Lone && l <= x <= u && MultHolds(m, x)
    ensures MultDown(m, l, u).NonNull? ==> Keeps(MultDown(m, l, u).value, x)
  {
    if |u| == 1 && x != {} {
      var t :| t in x;
      SubsetSize({t}, u);
      SubsetSize({t}, x);
      SubsetSize(x, u);
    }
    if m == One && |l| == 1 {
      SubsetSize(l, x);
    }
  }

  /** LONE promotes a one-tuple upper bound to the lower bound, though the expression may be empty. */
  lemma LoneDownOverreaches(t: Tuple)
    ensures MultHolds(Lone, {}) && !Keeps(MultDown(Lone, {}, {t}).value, {})
  {
  }

  // ---------------------------------------------------------------- n-ary union

  /** How many of the operands' upper bounds hold `t`, counted by position. */
  function Count(us: seq<TupleSet>, t: Tuple): nat
    decreases |us|
  {
    if us == [] then 0 else (if t in us[0] then 1 else 0) + Count(us[1..], t)
  }

  lemma {:induction false} CountPositive(us: seq<TupleSet>, t: Tuple, k: nat)
    requires k < |us| && t in us[k]
    ensures Count(us, t) >= 1
    decreases |us|
  {
    if k > 0 {
      assert t in us[1..][k - 1];
      CountPositive(us[1..], t, k - 1);
    }
  }

  /** Two different positions holding `t` count twice. */
  lemma {:induction false} CountTwo(us: seq<TupleSet>, t: Tuple, i: nat, j: nat)
    requires i < |us| && j < |us| && i != j && t in us[i] && t in us[j]
    ensures Count(us, t) >= 2
    decreases |us|
  {
    if i > 0 && j > 0 {
      assert t in us[1..][i - 1] && t in us[1..][j - 1];
      CountTwo(us[1..], t, i - 1, j - 1);
    } else {
      var k := if i == 0 then j else i;
      assert t in us[1..][k - 1];
      CountPositive(us[1..], t, k - 1);
    }
  }

  /** The parent lower tuples that exactly one operand's upper bound holds. */
  function Singletons(pL: TupleSet, us: seq<TupleSet>): TupleSet {
    set t | t in pL && Count(us, t) == 1
  }

  /**
   * N-ary UNION, for one operand: its upper bound cut to the parent's, and
   * the singletons that remain in it added to its lower bound.
   */
  function UnionChildDown(pU: TupleSet, singles: TupleSet, l: TupleSet, u: TupleSet): Narrowing {
    var uppers := u * pU;
    Both(l + uppers * singles, uppers)
  }

  method UnionChildRule(pU: TupleSet, singles: TupleSet, l: TupleSet, u: TupleSet) returns (n: Narrowing)
    ensures n == UnionChildDown(pU, singles, l, u)
  {
    var uppers := u * pU;
    var lowers := l;
    var todo := uppers;
    while todo != {}
      invariant todo <= uppers
      invariant lowers == l + (uppers - todo) * singles
      decreases todo
    {
      var t :| t in todo;
      if t in singles {
        lowers := lowers + {t};
      }
      todo := todo - {t};
    }
    assert uppers - todo == uppers;
    n := Both(lowers, uppers);
  }

  /** The union of n operands holds exactly the tuples of some operand. */
  lemma UnionOfMembers(xs: seq<TupleSet>, t: Tuple)
    requires |xs| > 0
    ensures t in ApplyNary(Union, xs) <==> exists i | 0 <= i < |xs| :: t in xs[i]
  {
    FoldUnionMembers(xs[0], xs[1..], t);
    if exists i | 0 <= i < |xs[1..]| :: t in xs[1..][i] {
      var i :| 0 <= i < |xs[1..]| && t in xs[1..][i];
      assert t in xs[i + 1];
    }
    if exists i | 0 <= i < |xs| :: t in xs[i] {
      var i :| 0 <= i < |xs| && t in xs[i];
      if i > 0 {
        assert t in xs[1..][i - 1];
      }
    }
  }

  /** Each operand's narrowing keeps its value when the union of the values lies within the parent's bounds. */
  lemma UnionChildDownSound(pL: TupleSet, pU: TupleSet, ls: seq<TupleSet>, xs: seq<TupleSet>, us: seq<TupleSet>, i: nat)
    requires Within(ls, xs, us) && i < |xs|
    requires pL <= ApplyNary(Union, xs) <= pU
    ensures Keeps(UnionChildDown(pU, Singletons(pL, us), ls[i], us[i]), xs[i])
  {
    forall t | t in xs[i] ensures t in pU {
      UnionOfMembers(xs, t);
    }
    forall t | t in us[i] * pU && t in Singletons(pL, us) ensures t in xs[i] {
      UnionOfMembers(xs, t);
      var j :| 0 <= j < |xs| && t in xs[j];
      if j != i {
        CountTwo(us, t, i, j);
        assert false;
      }
    }
  }

  // ---------------------------------------------------------------- n-ary product

  /** The sum of the first `j` arities: where operand j's atoms start. */
  function Offset(ks: seq<nat>, j: nat): nat
    requires j <= |ks|
    decreases j
  {
    if j == 0 then 0 else Offset(ks, j - 1) + ks[j - 1]
  }

  /** Operand j's part of tuple t. */
  function Part(t: Tuple, ks: seq<nat>, j: nat): Tuple
    requires j < |ks|
  {
    Slice(t, Offset(ks, j), Offset(ks, j) + ks[j])
  }

  /** The per-operand parts of the tuples of `ts`, for operands of arities `ks`. */
  function Splits(ts: TupleSet, ks: seq<nat>): (r: seq<TupleSet>)
    ensures |r| == |ks|
  {
    seq(|ks|, j requires 0 <= j < |ks| => set t | t in ts :: Part(t, ks, j))
  }

  /** DownwardExpressionBoundPropagator.split: cuts every tuple into consecutive parts of the operands' arities. */
  method Split(ts: TupleSet, ks: seq<nat>) returns (parts: seq<TupleSet>)
    ensures parts == Splits(ts, ks)
  {
    parts := seq(|ks|, j => {});
    var todo := ts;
    while todo != {}
      invariant todo <= ts && |parts| == |ks|
      invariant forall j | 0 <= j < |ks| :: parts[j] == set t | t in ts - todo :: Part(t, ks, j)
      decreases todo
    {
      var t :| t in todo;
      var i := 0;
      var j := 0;
      while j < |ks|
        invariant 0 <= j <= |ks| && |parts| == |ks| && i == Offset(ks, j)
        invariant forall m | 0 <= m < j :: parts[m] == (set u | u in ts - todo :: Part(u, ks, m)) + {Part(t, ks, m)}
        invariant forall m | j <= m < |ks| :: parts[m] == set u | u in ts - todo :: Part(u, ks, m)
      {
        var k := ks[j];
        parts := parts[j := parts[j] + {Slice(t, i, i + k)}];
        i := i + k;
        j := j + 1;
      }
      assert ts - (todo - {t}) == (ts - todo) + {t};
      todo := todo - {t};
    }
    assert ts - todo == ts;
  }

  /** N-ary PRODUCT, for one operand: its lower split joins its lower bound, and its upper bound keeps only its upper split. */
  function ProductChildDown(loSplit: TupleSet, hiSplit: TupleSet, l: TupleSet, u: TupleSet): Narrowing {
    Both(l + loSplit, u * hiSplit)
  }

  /** Where operand j starts, counted from the second operand on. */
  lemma {:induction false} OffsetShift(ks: seq<nat>, j: nat)
    requires j < |ks|
    ensures Offset(ks, j + 1) == ks[0] + Offset(ks[1..], j)
    decreases j
  {
    if j > 0 {
      OffsetShift(ks, j - 1);
      assert ks[1..][j - 1] == ks[j];
    }
  }

  /** A tuple of a left-folded product starts with a tuple of the start value. */
  lemma {:induction false} ProductFoldPrefix(acc: TupleSet, n: nat, ys: seq<TupleSet>, ks: seq<nat>, t: Tuple)
    requires |ys| == |ks| && HasArity(acc, n) && forall i | 0 <= i < |ys| :: HasArity(ys[i], ks[i])
    requires t in FoldLeft(acc, ys, ProductSet)
    ensures |t| >= n && t[..n] in acc
    decreases |ys|
  {
    if ys == [] {
      assert t[..n] == t;
    } else {
      ProductFoldStep(acc, n, ys, ks, t);
      ProductFoldPrefix(ProductSet(acc, ys[0]), n + ks[0], ys[1..], ks[1..], t);
      var h := t[..n + ks[0]];
      ProductSplits(acc, ys[0], n, h);
      assert h[..n] == t[..n];
    }
  }

  /** One step of the fold: the product with the first operand has the summed arity, and the rest keep theirs. */
  lemma ProductFoldStep(acc: TupleSet, n: nat, ys: seq<TupleSet>, ks: seq<nat>, t: Tuple)
    requires |ys| == |ks| > 0 && HasArity(acc, n) && forall i | 0 <= i < |ys| :: HasArity(ys[i], ks[i])
    requires t in FoldLeft(acc, ys, ProductSet)
    ensures HasArity(ProductSet(acc, ys[0]), n + ks[0])
    ensures forall i | 0 <= i < |ys[1..]| :: HasArity(ys[1..][i], ks[1..][i])
    ensures t in FoldLeft(ProductSet(acc, ys[0]), ys[1..], ProductSet)
  {
    ProductArity(acc, ys[0], n, ks[0]);
    TailArities(ys, ks);
  }

  /** ... followed by a tuple of the first operand ... */
  lemma ProductFoldFirstPart(acc: TupleSet, n: nat, ys: seq<TupleSet>, ks: seq<nat>, t: Tuple)
    requires |ys| == |ks| > 0 && HasArity(acc, n) && forall i | 0 <= i < |ys| :: HasArity(ys[i], ks[i])
    requires t in FoldLeft(acc, ys, ProductSet)
    ensures Slice(t, n, n + ks[0]) in ys[0]
  {
    ProductFoldStep(acc, n, ys, ks, t);
    ProductFoldPrefix(ProductSet(acc, ys[0]), n + ks[0], ys[1..], ks[1..], t);
    var h := t[..n + ks[0]];
    ProductSplits(acc, ys[0], n, h);
    assert Slice(t, n, n + ks[0]) == h[n..];
  }

  /** Operand j's atoms, counted from the second operand on. */
  lemma PartShift(t: Tuple, n: nat, ks: seq<nat>, ys: seq<TupleSet>, j: nat)
    requires 0 < j < |ks| == |ys|
    requires var lo := n + ks[0] + Offset(ks[1..], j - 1); Slice(t, lo, lo + ks[1..][j - 1]) in ys[1..][j - 1]
    ensures Slice(t, n + Offset(ks, j), n + Offset(ks, j) + ks[j]) in ys[j]
  {
    OffsetShift(ks, j - 1);
    assert ys[1..][j - 1] == ys[j];
  }

  /** ... and a tuple of each further operand, in order. */
  lemma {:induction false} ProductFoldPart(acc: TupleSet, n: nat, ys: seq<TupleSet>, ks: seq<nat>, t: Tuple, j: nat)
    requires |ys| == |ks| && HasArity(acc, n) && forall i | 0 <= i < |ys| :: HasArity(ys[i], ks[i])
    requires t in FoldLeft(acc, ys, ProductSet) && j < |ys|
    ensures Slice(t, n + Offset(ks, j), n + Offset(ks, j) + ks[j]) in ys[j]
    decreases |ys|, 1
  {
    if j == 0 {
      ProductFoldFirstPart(acc, n, ys, ks, t);
    } else {
      ProductFoldLaterPart(acc, n, ys, ks, t, j);
    }
  }

  lemma {:induction false} ProductFoldLaterPart(acc: TupleSet, n: nat, ys: seq<TupleSet>, ks: seq<nat>, t: Tuple, j: nat)
    requires |ys| == |ks| && HasArity(acc, n) && forall i | 0 <= i < |ys| :: HasArity(ys[i], ks[i])
    requires t in FoldLeft(acc, ys, ProductSet) && 0 < j < |ys|
    ensures Slice(t, n + Offset(ks, j), n + Offset(ks, j) + ks[j]) in ys[j]
    decreases |ys|, 0
  {
    ProductFoldStep(acc, n, ys, ks, t);
    ProductFoldPart(ProductSet(acc, ys[0]), n + ks[0], ys[1..], ks[1..], t, j - 1);
    PartShift(t, n, ks, ys, j);
  }

  /** The operands after the first keep their arities. */
  lemma TailArities(xs: seq<TupleSet>, ks: seq<nat>)
    requires |xs| == |ks| > 0 && forall j | 0 <= j < |xs| :: HasArity(xs[j], ks[j])
    ensures forall j | 0 <= j < |xs[1..]| :: HasArity(xs[1..][j], ks[1..][j])
  {
    forall j | 0 <= j < |xs[1..]|
      ensures HasArity(xs[1..][j], ks[1..][j])
    {
      assert xs[1..][j] == xs[j + 1] && ks[1..][j] == ks[j + 1];
    }
  }

  /** Each part of a tuple of an n-ary product is a tuple of its operand. */
  lemma NaryProductParts(xs: seq<TupleSet>, ks: seq<nat>, t: Tuple, i: nat)
    requires |xs| == |ks| && i < |xs| && forall j | 0 <= j < |xs| :: HasArity(xs[j], ks[j])
    requires t in ApplyNary(Product, xs)
    ensures Part(t, ks, i) in xs[i]
  {
    TailArities(xs, ks);
    if i == 0 {
      ProductFoldPrefix(xs[0], ks[0], xs[1..], ks[1..], t);
      assert Part(t, ks, 0) == t[..ks[0]];
    } else {
      NaryProductLaterPart(xs, ks, t, i);
    }
  }

  lemma NaryProductLaterPart(xs: seq<TupleSet>, ks: seq<nat>, t: Tuple, i: nat)
    requires |xs| == |ks| && 0 < i < |xs| && HasArity(xs[0], ks[0])
    requires forall j | 0 <= j < |xs[1..]| :: HasArity(xs[1..][j], ks[1..][j])
    requires t in FoldLeft(xs[0], xs[1..], ProductSet)
    ensures Part(t, ks, i) in xs[i]
  {
    ProductFoldPart(xs[0], ks[0], xs[1..], ks[1..], t, i - 1);
    OffsetShift(ks, i - 1);
    assert xs[1..][i - 1] == xs[i] && ks[1..][i - 1] == ks[i];
  }

  /** Each operand's lower narrowing keeps its value when the product of the values holds the parent's lower bound. */
  lemma ProductChildDownLowerSound(pL: TupleSet, xs: seq<TupleSet>, ks: seq<nat>, hiSplit: TupleSet, l: TupleSet, u: TupleSet, i: nat)
    requires |xs| == |ks| && i < |xs| && forall j | 0 <= j < |xs| :: HasArity(xs[j], ks[j])
    requires l <= xs[i] && pL <= ApplyNary(Product, xs)
    ensures ProductChildDown(Splits(pL, ks)[i], hiSplit, l, u).lower.value <= xs[i]
  {
    forall t | t in pL ensures Part(t, ks, i) in xs[i] {
      NaryProductParts(xs, ks, t, i);
    }
  }
}
