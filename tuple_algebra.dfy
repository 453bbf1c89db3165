/**
 * The tuple-set algebra behind BoundPropagator: atoms, tuples and tuple
 * sets over a universe whose atoms are numbered 0 .. size-1, and the
 * helpers (joins, overrides, transposes, folds) both propagators build
 * their bounds from.
 *
 * The algebra is total: where Kodkod would reject a tuple of the wrong
 * arity, these functions read only the atoms a tuple has.
 */
module TupleAlgebra {
  import opened Wrappers

  type Atom = nat
  type Tuple = seq<Atom>
  type TupleSet = set<Tuple>

  /** Every tuple of `ts` has `arity` atoms. */
  ghost predicate HasArity(ts: TupleSet, arity: nat) {
    forall t | t in ts :: |t| == arity
  }

  /** Every atom of `t` belongs to a universe of `size` atoms. */
  predicate InUniverse(size: nat, t: Tuple) {
    forall i | 0 <= i < |t| :: t[i] < size
  }

  /** TupleFactory.allOf: all tuples of `arity` atoms over a universe of `size` atoms. */
  function AllOf(size: nat, arity: nat): (r: TupleSet)
    ensures forall t | t in r :: |t| == arity && InUniverse(size, t)
  {
    if arity == 0 then {[]}
    else set a: nat, t | 0 <= a < size && t in AllOf(size, arity - 1) :: [a] + t
  }

  /** AllOf misses no tuple of the universe. */
  lemma {:induction false} AllOfComplete(size: nat, t: Tuple)
    requires InUniverse(size, t)
    ensures t in AllOf(size, |t|)
  {
    if |t| > 0 {
      assert InUniverse(size, t[1..]) by {
        forall i | 0 <= i < |t[1..]| ensures t[1..][i] < size {
          assert t[1..][i] == t[i + 1];
        }
      }
      AllOfComplete(size, t[1..]);
      assert t == [t[0]] + t[1..];
    }
  }

  /** The tuples of an arity over a universe are exactly the members of AllOf. */
  lemma AllOfMembers(size: nat, arity: nat, t: Tuple)
    ensures t in AllOf(size, arity) <==> |t| == arity && InUniverse(size, t)
  {
    if |t| == arity && InUniverse(size, t) {
      AllOfComplete(size, t);
    }
  }

  /** The identity relation over a set of atoms. */
  function Diagonal(atoms: set<Atom>): (r: TupleSet)
    ensures HasArity(r, 2)
  {
    set a | a in atoms :: [a, a]
  }

  /** The atoms 0 .. size-1 of a universe. */
  function Atoms(size: nat): (r: set<Atom>)
    ensures forall a: Atom :: a in r <==> a < size
  {
    if size == 0 then {} else Atoms(size - 1) + {size - 1}
  }

  /**
   * BoundPropagator.tupleStream: the atoms of `t` at positions lo .. hi-1.
   * Positions past the end of `t` are not read.
   */
  function Slice(t: Tuple, lo: nat, hi: nat): Tuple {
    var h := if hi <= |t| then hi else |t|;
    if lo <= h then t[lo..h] else []
  }

  /** BoundPropagator.firsts: the first atoms of the tuples of `ts`. */
  function Firsts(ts: TupleSet): set<Atom> {
    set t | t in ts && |t| > 0 :: t[0]
  }

  /**
   * Within the tuple, a slice holds the atoms lo .. hi-1 in order, and the
   * slices before and after any position put the tuple back together.
   */
  lemma SliceWithin(t: Tuple, lo: nat, hi: nat)
    requires lo <= hi <= |t|
    ensures |Slice(t, lo, hi)| == hi - lo
    ensures forall i | 0 <= i < hi - lo :: Slice(t, lo, hi)[i] == t[lo + i]
    ensures Slice(t, 0, lo) + Slice(t, lo, |t|) == t
  {
    assert t[..lo] + t[lo..] == t;
  }

  /** Every non-empty tuple contributes its first atom, and nothing else does. */
  lemma FirstsMembers(ts: TupleSet, a: Atom)
    ensures a in Firsts(ts) <==> exists t | t in ts :: |t| > 0 && t[0] == a
  {
    if exists t | t in ts :: |t| > 0 && t[0] == a {
      var t :| t in ts && |t| > 0 && t[0] == a;
      assert t[0] in Firsts(ts);
    }
  }

  /** The first atoms of a union are those of either side. */
  lemma FirstsUnion(a: TupleSet, b: TupleSet)
    ensures Firsts(a + b) == Firsts(a) + Firsts(b)
  {
    forall x | x in Firsts(a + b) ensures x in Firsts(a) + Firsts(b) {
      FirstsMembers(a + b, x);
      var t :| t in a + b && |t| > 0 && t[0] == x;
      FirstsMembers(if t in a then a else b, x);
    }
    forall x | x in Firsts(a) + Firsts(b) ensures x in Firsts(a + b) {
      var side := if x in Firsts(a) then a else b;
      FirstsMembers(side, x);
      var t :| t in side && |t| > 0 && t[0] == x;
      FirstsMembers(a + b, x);
    }
  }

  function UnionSet(a: TupleSet, b: TupleSet): TupleSet { a + b }

  function IntersectionSet(a: TupleSet, b: TupleSet): TupleSet { a * b }

  // ---------------------------------------------------------------- transpose

  /** The atoms of `t` in reverse order. */
  function Reverse(t: Tuple): Tuple {
    seq(|t|, i requires 0 <= i < |t| => t[|t| - 1 - i])
  }

  lemma ReverseReverse(t: Tuple)
    ensures Reverse(Reverse(t)) == t
  {
    assert forall i | 0 <= i < |t| :: Reverse(Reverse(t))[i] == t[i];
  }

  /** BoundPropagator.getTransposeSet: every tuple reversed. */
  function TransposeSet(ts: TupleSet): TupleSet {
    set t | t in ts :: Reverse(t)
  }

  /** Transposing twice gives back the original set. */
  lemma TransposeInvolutive(ts: TupleSet)
    ensures TransposeSet(TransposeSet(ts)) == ts
  {
    forall t | t in ts ensures t in TransposeSet(TransposeSet(ts)) {
      ReverseReverse(t);
      assert Reverse(t) in TransposeSet(ts);
    }
    forall t | t in TransposeSet(TransposeSet(ts)) ensures t in ts {
      var u :| u in TransposeSet(ts) && t == Reverse(u);
      var v :| v in ts && u == Reverse(v);
      ReverseReverse(v);
    }
  }

  /** On binary tuples, transpose swaps the two columns, and it keeps every tuple's arity. */
  lemma TransposeSwaps(ts: TupleSet, a: Atom, b: Atom, k: nat)
    ensures [a, b] in TransposeSet(ts) <==> [b, a] in ts
    ensures HasArity(ts, k) ==> HasArity(TransposeSet(ts), k)
  {
    assert Reverse([b, a]) == [a, b];
    if [a, b] in TransposeSet(ts) {
      var u :| u in ts && Reverse(u) == [a, b];
      ReverseReverse(u);
      assert Reverse([a, b]) == [b, a];
    }
  }

  // ---------------------------------------------------------------- product

  /** TupleSet.product: every tuple of `a` followed by every tuple of `b`. */
  function ProductSet(a: TupleSet, b: TupleSet): TupleSet {
    set x, y | x in a && y in b :: x + y
  }

  /** A tuple is in a product exactly when its first `n` atoms come from `a` and the rest from `b`. */
  lemma ProductSplits(a: TupleSet, b: TupleSet, n: nat, t: Tuple)
    requires HasArity(a, n)
    ensures t in ProductSet(a, b) <==> |t| >= n && t[..n] in a && t[n..] in b
  {
    if |t| >= n && t[..n] in a && t[n..] in b {
      assert t == t[..n] + t[n..];
    }
    if t in ProductSet(a, b) {
      var x, y :| x in a && y in b && t == x + y;
      assert t[..n] == x && t[n..] == y;
    }
  }

  /** Product adds arities. */
  lemma ProductArity(a: TupleSet, b: TupleSet, n: nat, m: nat)
    requires HasArity(a, n) && HasArity(b, m)
    ensures HasArity(ProductSet(a, b), n + m)
  {
  }

  // ---------------------------------------------------------------- override

  /**
   * BoundPropagator.getOverrideSet: the overrider's tuples, plus the
   * overridee's tuples whose first atom starts no tuple of `guaranteed`.
   */
  function OverrideSet(overridee: TupleSet, overrider: TupleSet, guaranteed: TupleSet): TupleSet {
    (overridee - set t | t in overridee && |t| > 0 && t[0] in Firsts(guaranteed)) + overrider
  }

  /** The override set, stated tuple by tuple: no guaranteed tuple shares the first atom of a surviving overridee tuple. */
  lemma OverrideSetMembers(overridee: TupleSet, overrider: TupleSet, guaranteed: TupleSet, t: Tuple)
    ensures t in OverrideSet(overridee, overrider, guaranteed)
        <==> t in overrider
             || (t in overridee && forall g | g in guaranteed && |g| > 0 && |t| > 0 :: g[0] != t[0])
  {
    if |t| > 0 && t[0] in Firsts(guaranteed) {
      var g :| g in guaranteed && |g| > 0 && g[0] == t[0];
    }
  }

  /** Overriding never drops a tuple of the overrider, and keeps everything when nothing is guaranteed. */
  lemma OverrideKeepsOverrider(overridee: TupleSet, overrider: TupleSet, guaranteed: TupleSet)
    ensures overrider <= OverrideSet(overridee, overrider, guaranteed)
    ensures guaranteed == {} ==> OverrideSet(overridee, overrider, guaranteed) == overridee + overrider
  {
  }

  // ---------------------------------------------------------------- join

  /** A tuple of the left operand meets a tuple of the right operand on its last atom. */
  predicate Meets(p: Tuple, s: Tuple) {
    |p| > 0 && |s| > 0 && p[|p| - 1] == s[0]
  }

  /** The tuple a join produces from two tuples: all of `p` but its last atom, then all of `s` but its first. */
  function Glue(p: Tuple, s: Tuple): Tuple {
    Slice(p, 0, if |p| > 0 then |p| - 1 else 0) + Slice(s, 1, |s|)
  }

  /** The relational join of `left` and `right`. */
  function JoinSet(left: TupleSet, right: TupleSet): TupleSet {
    set p, s | p in left && s in right && Meets(p, s) :: Glue(p, s)
  }

  /** A join of arities n and m has arity n + m - 2. */
  lemma JoinArity(left: TupleSet, right: TupleSet, n: nat, m: nat)
    requires HasArity(left, n) && HasArity(right, m) && n >= 1 && m >= 1
    ensures HasArity(JoinSet(left, right), n + m - 2)
  {
  }

  /** The glued tuple of two meeting tuples, spelled out. */
  lemma GlueMeets(p: Tuple, s: Tuple)
    requires Meets(p, s)
    ensures Glue(p, s) == p[..|p| - 1] + s[1..]
  {
  }

  /** The glue of two nonempty tuples, without slices. */
  lemma GlueIs(p: Tuple, s: Tuple)
    requires |p| >= 1 && |s| >= 1
    ensures Glue(p, s) == p[..|p| - 1] + s[1..]
  {
  }

  /** Gluing three tuples does not depend on the grouping, and both groupings meet on the same atoms. */
  lemma GlueAssociative(x: Tuple, y: Tuple, z: Tuple)
    requires |x| >= 1 && |y| >= 2 && |z| >= 1
    ensures Meets(x, y) && Meets(Glue(x, y), z) <==> Meets(y, z) && Meets(x, Glue(y, z))
    ensures Meets(x, y) && Meets(y, z) ==> Glue(Glue(x, y), z) == Glue(x, Glue(y, z))
  {
    var xy := x[..|x| - 1] + y[1..];
    var yz := y[..|y| - 1] + z[1..];
    GlueIs(x, y);
    GlueIs(y, z);
    assert xy[|xy| - 1] == y[|y| - 1];
    assert yz[0] == y[0];
    if Meets(x, y) && Meets(y, z) {
      var a, b, c := x[..|x| - 1], y[1..|y| - 1], z[1..];
      assert xy[..|xy| - 1] == a + b;
      assert yz[1..] == b + c;
      GlueIs(xy, z);
      GlueIs(x, yz);
      assert (a + b) + c == a + (b + c);
    }
  }

  /** Join is associative when the middle operand has at least two columns. */
  lemma JoinAssociative(a: TupleSet, b: TupleSet, c: TupleSet, na: nat, nb: nat, nc: nat)
    requires HasArity(a, na) && HasArity(b, nb) && HasArity(c, nc)
    requires na >= 1 && nb >= 2 && nc >= 1
    ensures JoinSet(JoinSet(a, b), c) == JoinSet(a, JoinSet(b, c))
  {
    forall t | t in JoinSet(JoinSet(a, b), c) ensures t in JoinSet(a, JoinSet(b, c)) {
      var ab, z :| ab in JoinSet(a, b) && z in c && Meets(ab, z) && t == Glue(ab, z);
      var x, y :| x in a && y in b && Meets(x, y) && ab == Glue(x, y);
      GlueAssociative(x, y, z);
      assert Glue(y, z) in JoinSet(b, c);
    }
    forall t | t in JoinSet(a, JoinSet(b, c)) ensures t in JoinSet(JoinSet(a, b), c) {
      var x, yz :| x in a && yz in JoinSet(b, c) && Meets(x, yz) && t == Glue(x, yz);
      var y, z :| y in b && z in c && Meets(y, z) && yz == Glue(y, z);
      GlueAssociative(x, y, z);
      assert Glue(x, y) in JoinSet(a, b);
    }
  }

  /** Collectors.groupingBy on the first atom: the tuples of `ts` keyed by the atom they start with. */
  function GroupByFirst(ts: TupleSet): (groups: map<Atom, TupleSet>)
    ensures groups.Keys == Firsts(ts)
    ensures forall a, t | a in groups :: t in groups[a] <==> t in ts && |t| > 0 && t[0] == a
  {
    map a | a in Firsts(ts) :: set t | t in ts && |t| > 0 && t[0] == a
  }

  /** The join of one more left tuple contributes that tuple's glued partners. */
  lemma JoinSetAddLeft(left: TupleSet, p: Tuple, right: TupleSet)
    ensures JoinSet(left + {p}, right) == JoinSet(left, right) + set s | s in right && Meets(p, s) :: Glue(p, s)
  {
  }

  /** BoundPropagator.getJoinSet, a loop over the left tuples and their partners grouped by first atom. */
  method GetJoinSet(left: TupleSet, right: TupleSet) returns (joined: TupleSet)
    ensures joined == JoinSet(left, right)
  {
    var firsts := GroupByFirst(right);
    joined := {};
    var todo := left;
    while todo != {}
      invariant todo <= left
      invariant joined == JoinSet(left - todo, right)
      decreases todo
    {
      var p :| p in todo;
      var partners: TupleSet := {};
      if |p| > 0 && p[|p| - 1] in firsts {
        partners := firsts[p[|p| - 1]];
      }
      assert partners == set s | s in right && Meets(p, s);
      var rest := partners;
      while rest != {}
        invariant rest <= partners
        invariant joined == JoinSet(left - todo, right) + set s | s in partners - rest :: Glue(p, s)
        decreases rest
      {
        var s :| s in rest;
        joined := joined + {Glue(p, s)};
        rest := rest - {s};
      }
      JoinSetAddLeft(left - todo, p, right);
      assert left - (todo - {p}) == (left - todo) + {p};
      todo := todo - {p};
    }
  }

  // ---------------------------------------------------------------- subsequence

  /** The nonempty runs of atoms lo .. hi-1 of the tuples of `ts`. */
  function Keys(ts: TupleSet, lo: nat, hi: nat): set<Tuple> {
    set t | t in ts && Slice(t, lo, hi) != [] :: Slice(t, lo, hi)
  }

  /**
   * BoundPropagator.subsequence: the tuples of `src` grouped by their atoms
   * at positions lo .. hi-1. Tuples with no atom in that range are left out.
   */
  method Subsequence(src: TupleSet, lo: nat, hi: nat) returns (groups: map<Tuple, TupleSet>)
    ensures groups.Keys == Keys(src, lo, hi)
    ensures forall k | k in groups :: k != [] && groups[k] != {}
    ensures forall k, t | k in groups && t in groups[k] :: t in src && Slice(t, lo, hi) == k
    ensures forall t | t in src && Slice(t, lo, hi) != [] :: Slice(t, lo, hi) in groups && t in groups[Slice(t, lo, hi)]
  {
    groups := map[];
    var todo := src;
    while todo != {}
      invariant todo <= src
      invariant forall k | k in groups :: k != [] && groups[k] != {}
      invariant forall k, t | k in groups && t in groups[k] :: t in src - todo && Slice(t, lo, hi) == k
      invariant forall t | t in src - todo && Slice(t, lo, hi) != [] :: Slice(t, lo, hi) in groups && t in groups[Slice(t, lo, hi)]
      decreases todo
    {
      var t :| t in todo;
      var key: Tuple := [];
      var i := lo;
      while i < hi && i < |t|
        invariant i == lo || (lo < i <= hi && i <= |t|)
        invariant key == if i == lo then [] else t[lo..i]
      {
        key := key + [t[i]];
        i := i + 1;
      }
      assert key == Slice(t, lo, hi);
      ghost var before := groups;
      if key != [] {
        groups := groups[key := (if key in groups then groups[key] else {}) + {t}];
      }
      forall k, u | k in groups && u in groups[k]
        ensures u in src - (todo - {t}) && Slice(u, lo, hi) == k
      {
        if k in before && u in before[k] {
          assert u in src - todo;
        } else {
          assert k == key && u == t;
          assert t in src;
        }
      }
      todo := todo - {t};
    }
    assert src - todo == src;
    forall k | k in Keys(src, lo, hi) ensures k in groups {
      var t :| t in src && Slice(t, lo, hi) != [] && Slice(t, lo, hi) == k;
    }
    forall k | k in groups ensures k in Keys(src, lo, hi) {
      var t :| t in groups[k];
      assert t in src && Slice(t, lo, hi) == k;
    }
  }

  // ---------------------------------------------------------------- folds

  /** Combining the operands one by one from the left, starting from `acc`. */
  function FoldLeft(acc: TupleSet, operands: seq<TupleSet>, combine: (TupleSet, TupleSet) -> TupleSet): TupleSet
    decreases |operands|
  {
    if operands == [] then acc else FoldLeft(combine(acc, operands[0]), operands[1..], combine)
  }

  /** The left fold of the operands from the first one, null when there are none. */
  function Reduced(operands: seq<TupleSet>, combine: (TupleSet, TupleSet) -> TupleSet): Nullable<TupleSet> {
    if operands == [] then Null else NonNull(FoldLeft(operands[0], operands[1..], combine))
  }

  /**
   * BoundPropagator.reduce1 and reduce2: the left fold of the operands, or
   * null when there are none. (The two differ only in how Java copies the
   * first operand, which a value cannot show.)
   */
  method Reduce(operands: seq<TupleSet>, combine: (TupleSet, TupleSet) -> TupleSet) returns (r: Nullable<TupleSet>)
    ensures r == Reduced(operands, combine)
  {
    if operands == [] {
      return Null;
    }
    var acc := operands[0];
    var i := 1;
    while i < |operands|
      invariant 1 <= i <= |operands|
      invariant FoldLeft(acc, operands[i..], combine) == FoldLeft(operands[0], operands[1..], combine)
    {
      assert operands[i..][1..] == operands[i + 1..];
      acc := combine(acc, operands[i]);
      i := i + 1;
    }
    return NonNull(acc);
  }

  /** A union fold holds exactly the tuples found in the start or in some operand. */
  lemma {:induction false} FoldUnionMembers(acc: TupleSet, operands: seq<TupleSet>, t: Tuple)
    ensures t in FoldLeft(acc, operands, UnionSet) <==> t in acc || exists i | 0 <= i < |operands| :: t in operands[i]
    decreases |operands|
  {
    if operands != [] {
      FoldUnionMembers(UnionSet(acc, operands[0]), operands[1..], t);
      if exists i | 0 <= i < |operands| :: t in operands[i] {
        var i :| 0 <= i < |operands| && t in operands[i];
        if i > 0 {
          assert t in operands[1..][i - 1];
        }
      }
      if exists i | 0 <= i < |operands[1..]| :: t in operands[1..][i] {
        var i :| 0 <= i < |operands[1..]| && t in operands[1..][i];
        assert t in operands[i + 1];
      }
    }
  }

  /** An intersection fold holds exactly the tuples found in the start and in every operand. */
  lemma {:induction false} FoldIntersectionMembers(acc: TupleSet, operands: seq<TupleSet>, t: Tuple)
    ensures t in FoldLeft(acc, operands, IntersectionSet) <==> t in acc && forall i | 0 <= i < |operands| :: t in operands[i]
    decreases |operands|
  {
    if operands != [] {
      FoldIntersectionMembers(IntersectionSet(acc, operands[0]), operands[1..], t);
      if t in acc && forall i | 0 <= i < |operands| :: t in operands[i] {
        forall i | 0 <= i < |operands[1..]| ensures t in operands[1..][i] {
          assert operands[1..][i] == operands[i + 1];
        }
      }
      if t in FoldLeft(acc, operands, IntersectionSet) {
        forall i | 0 <= i < |operands| ensures t in operands[i] {
          if i > 0 {
            assert operands[1..][i - 1] == operands[i];
          }
        }
      }
    }
  }

  /**
   * The n-ary override: each further operand overrides what came before it,
   * guarded by its own `guards` entry.
   */
  function OverrideFold(acc: TupleSet, overriders: seq<TupleSet>, guards: seq<TupleSet>): TupleSet
    requires |overriders| == |guards|
    decreases |overriders|
  {
    if overriders == [] then acc
    else OverrideFold(OverrideSet(acc, overriders[0], guards[0]), overriders[1..], guards[1..])
  }

  /** Overriding with one more operand at the end. */
  lemma {:induction false} OverrideFoldSnoc(acc: TupleSet, overriders: seq<TupleSet>, guards: seq<TupleSet>, r: TupleSet, g: TupleSet)
    requires |overriders| == |guards|
    ensures OverrideFold(acc, overriders + [r], guards + [g]) == OverrideSet(OverrideFold(acc, overriders, guards), r, g)
    decreases |overriders|
  {
    if overriders == [] {
      assert OverrideFold(OverrideSet(acc, r, g), [], []) == OverrideSet(acc, r, g);
    } else {
      assert (overriders + [r])[1..] == overriders[1..] + [r];
      assert (guards + [g])[1..] == guards[1..] + [g];
      OverrideFoldSnoc(OverrideSet(acc, overriders[0], guards[0]), overriders[1..], guards[1..], r, g);
    }
  }

  /** The last operand of an n-ary override survives whole, and nothing enters that is in no operand. */
  lemma {:induction false} OverrideFoldBounds(acc: TupleSet, overriders: seq<TupleSet>, guards: seq<TupleSet>, t: Tuple)
    requires |overriders| == |guards|
    ensures overriders != [] && t in overriders[|overriders| - 1] ==> t in OverrideFold(acc, overriders, guards)
    ensures t in OverrideFold(acc, overriders, guards) ==> t in acc || exists i | 0 <= i < |overriders| :: t in overriders[i]
    decreases |overriders|
  {
    if overriders != [] {
      var next := OverrideSet(acc, overriders[0], guards[0]);
      OverrideFoldBounds(next, overriders[1..], guards[1..], t);
      if |overriders| == 1 {
        assert OverrideFold(next, overriders[1..], guards[1..]) == next;
      }
      if t in OverrideFold(acc, overriders, guards) && t !in acc && t !in overriders[0] {
        var i :| 0 <= i < |overriders[1..]| && t in overriders[1..][i];
        assert t in overriders[i + 1];
      }
    }
  }
}
