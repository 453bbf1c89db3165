/**
 * The upward rules on the scenarios of Kodkod's upward propagation tests:
 * a universe of four atoms a, b, c, d (numbered 0 .. 3) and binary
 * relations with the tests' lower and upper bounds.
 */
module UpwardScenarios {
  import opened TupleAlgebra
  import opened TransitiveClosure
  import opened Ast
  import opened Semantics
  import opened Upward

  // ---------------------------------------------------------------- transpose

  lemma TransposeTwo(x: Tuple, y: Tuple)
    ensures TransposeSet({x, y}) == {Reverse(x), Reverse(y)}
  {
  }

  lemma TransposeThree(x: Tuple, y: Tuple, z: Tuple)
    ensures TransposeSet({x, y, z}) == {Reverse(x), Reverse(y), Reverse(z)}
  {
  }

  /** r = {ab, bc} .. {ab, bc, cd}: its transpose lies within {ba, cb} .. {ba, cb, dc}. */
  lemma TransposeScenario()
    ensures UnaryBounds(Transpose, {[0, 1], [1, 2]}, {[0, 1], [1, 2], [2, 3]})
         == ({[1, 0], [2, 1]}, {[1, 0], [2, 1], [3, 2]})
  {
    TransposeTwo([0, 1], [1, 2]);
    TransposeThree([0, 1], [1, 2], [2, 3]);
    assert Reverse([0, 1]) == [1, 0];
    assert Reverse([1, 2]) == [2, 1];
    assert Reverse([2, 3]) == [3, 2];
  }

  // ---------------------------------------------------------------- closure

  /** The edge from atom i to atom i + 1. */
  function Step(i: Atom): Tuple {
    [i, i + 1]
  }

  /** The line 0 -> 1 -> .. -> n. */
  function Line(n: nat): TupleSet {
    set i | 0 <= i < n :: Step(i)
  }

  /** Along a walk of the line the atoms climb, and never past n. */
  lemma {:induction false} LinePathClimbs(n: nat, p: seq<Atom>, k: nat)
    requires IsPath(Line(n), p) && 1 <= k < |p|
    ensures p[0] < p[k] <= n
    decreases k
  {
    assert [p[k - 1], p[k]] in Line(n);
    var i :| 0 <= i < n && [p[k - 1], p[k]] == Step(i);
    assert [p[k - 1], p[k]][1] == Step(i)[1];
    if k > 1 {
      LinePathClimbs(n, p, k - 1);
    } else {
      assert [p[k - 1], p[k]][0] == Step(i)[0];
    }
  }

  /** In the line, a reaches b exactly when a < b <= n. */
  lemma LineReaches(n: nat, a: Atom, b: Atom)
    ensures Reaches(Line(n), a, b) <==> a < b <= n
  {
    if Reaches(Line(n), a, b) {
      var p :| IsPath(Line(n), p) && p[0] == a && p[|p| - 1] == b;
      LinePathClimbs(n, p, |p| - 1);
    }
    if a < b <= n {
      var p := seq(b - a + 1, i requires 0 <= i <= b - a => a + i);
      forall i | 0 <= i < |p| - 1 ensures [p[i], p[i + 1]] in Line(n) {
        assert [p[i], p[i + 1]] == Step(a + i);
      }
      assert IsPath(Line(n), p);
    }
  }

  /** The atoms of a non-empty line are 0 .. n. */
  lemma LineAtoms(n: nat, a: Atom)
    requires n > 0
    ensures a in EdgeAtoms(Line(n)) <==> a <= n
  {
    var firsts := set t | t in Edges(Line(n)) :: t[0];
    var seconds := set t | t in Edges(Line(n)) :: t[1];
    assert EdgeAtoms(Line(n)) == firsts + seconds;
    if a in firsts {
      var t :| t in Edges(Line(n)) && t[0] == a;
      var i :| 0 <= i < n && t == Step(i);
    } else if a in seconds {
      var t :| t in Edges(Line(n)) && t[1] == a;
      var i :| 0 <= i < n && t == Step(i);
    }
    if a < n {
      assert Step(a) in Edges(Line(n));
      assert Step(a)[0] in firsts;
    } else if a == n {
      assert Step(n - 1) in Edges(Line(n));
      assert Step(n - 1)[1] in seconds;
    }
  }

  /** The closure of the line: every climbing pair up to n, and the loops on 0 .. n when reflexive. */
  lemma LineClosure(n: nat, reflexive: bool, t: Tuple)
    requires n > 0
    ensures t in ClosureOf(Line(n), reflexive) <==> Climbing(n, reflexive, t)
  {
    var atoms := EdgeAtoms(Line(n));
    if t in ClosureOf(Line(n), reflexive) {
      if t in Line(n) {
        var i :| 0 <= i < n && t == Step(i);
      } else if t in Connected(Line(n)) {
        var a, b :| a in atoms && b in atoms && Reaches(Line(n), a, b) && t == [a, b];
        LineReaches(n, a, b);
      } else {
        assert reflexive && t in Diagonal(atoms);
        var a :| a in atoms && t == [a, a];
        LineAtoms(n, a);
      }
    }
    if |t| == 2 && t[1] <= n && (t[0] < t[1] || (reflexive && t[0] == t[1])) {
      LineAtoms(n, t[0]);
      LineAtoms(n, t[1]);
      assert t == [t[0], t[1]];
      if t[0] < t[1] {
        LineReaches(n, t[0], t[1]);
        assert t in Connected(Line(n));
      } else {
        assert t in Diagonal(atoms);
      }
    }
  }

  lemma LineTwo()
    ensures Line(2) == {[0, 1], [1, 2]}
  {
    assert Step(0) == [0, 1] && Step(1) == [1, 2];
  }

  lemma LineThree()
    ensures Line(3) == {[0, 1], [1, 2], [2, 3]}
  {
    assert Step(0) == [0, 1] && Step(1) == [1, 2] && Step(2) == [2, 3];
  }

  /** The pairs a <= b <= n, the loops only when reflexive. */
  predicate Climbing(n: nat, reflexive: bool, t: Tuple) {
    |t| == 2 && t[1] <= n && (t[0] < t[1] || (reflexive && t[0] == t[1]))
  }

  /** The closure of the line is any set that holds exactly the climbing pairs. */
  lemma LineClosureIs(n: nat, reflexive: bool, e: TupleSet)
    requires n > 0
    requires forall t :: Climbing(n, reflexive, t) <==> t in e
    ensures ClosureOf(Line(n), reflexive) == e
  {
    forall t ensures t in ClosureOf(Line(n), reflexive) <==> t in e {
      LineClosure(n, reflexive, t);
    }
  }

  lemma LineTwoClosure()
    ensures ClosureOf(Line(2), false) == {[0, 1], [1, 2], [0, 2]}
  {
    forall t: Tuple ensures Climbing(2, false, t) <==> t in {[0, 1], [1, 2], [0, 2]} {
      if |t| == 2 {
        assert t == [t[0], t[1]];
      }
    }
    LineClosureIs(2, false, {[0, 1], [1, 2], [0, 2]});
  }

  lemma LineThreeClosure()
    ensures ClosureOf(Line(3), false) == {[0, 1], [1, 2], [2, 3], [0, 2], [0, 3], [1, 3]}
  {
    forall t: Tuple ensures Climbing(3, false, t) <==> t in {[0, 1], [1, 2], [2, 3], [0, 2], [0, 3], [1, 3]} {
      if |t| == 2 {
        assert t == [t[0], t[1]];
      }
    }
    LineClosureIs(3, false, {[0, 1], [1, 2], [2, 3], [0, 2], [0, 3], [1, 3]});
  }

  lemma LineTwoReflexiveClosure()
    ensures ClosureOf(Line(2), true) == {[0, 1], [1, 2], [0, 2], [0, 0], [1, 1], [2, 2]}
  {
    forall t: Tuple ensures Climbing(2, true, t) <==> t in {[0, 1], [1, 2], [0, 2], [0, 0], [1, 1], [2, 2]} {
      if |t| == 2 {
        assert t == [t[0], t[1]];
      }
    }
    LineClosureIs(2, true, {[0, 1], [1, 2], [0, 2], [0, 0], [1, 1], [2, 2]});
  }

  lemma LineThreeReflexiveClosure()
    ensures ClosureOf(Line(3), true) == {[0, 1], [1, 2], [2, 3], [0, 2], [0, 3], [1, 3], [0, 0], [1, 1], [2, 2], [3, 3]}
  {
    forall t: Tuple ensures Climbing(3, true, t) <==> t in {[0, 1], [1, 2], [2, 3], [0, 2], [0, 3], [1, 3], [0, 0], [1, 1], [2, 2], [3, 3]} {
      if |t| == 2 {
        assert t == [t[0], t[1]];
      }
    }
    LineClosureIs(3, true, {[0, 1], [1, 2], [2, 3], [0, 2], [0, 3], [1, 3], [0, 0], [1, 1], [2, 2], [3, 3]});
  }

  /** r = {ab, bc} .. {ab, bc, cd}: ^r lies within {ab, bc, ac} .. {ab, bc, cd, ac, ad, bd}. */
  lemma ClosureScenario()
    ensures UnaryBounds(Closure, {[0, 1], [1, 2]}, {[0, 1], [1, 2], [2, 3]}) == ({[0, 1], [1, 2], [0, 2]}, {[0, 1], [1, 2], [2, 3], [0, 2], [0, 3], [1, 3]})
  {
    LineTwo();
    LineThree();
    LineTwoClosure();
    LineThreeClosure();
  }

  /**
   * The same r: *r adds the loops on the atoms of each bound, and lies within
   * {ab, bc, ac, aa, bb, cc} .. {ab, bc, cd, ac, ad, bd, aa, bb, cc, dd}.
   */
  lemma ReflexiveClosureScenario()
    ensures UnaryBounds(ReflexiveClosure, {[0, 1], [1, 2]}, {[0, 1], [1, 2], [2, 3]}) == ({[0, 1], [1, 2], [0, 2], [0, 0], [1, 1], [2, 2]}, {[0, 1], [1, 2], [2, 3], [0, 2], [0, 3], [1, 3], [0, 0], [1, 1], [2, 2], [3, 3]})
  {
    LineTwo();
    LineThree();
    LineTwoReflexiveClosure();
    LineThreeReflexiveClosure();
  }

  // ---------------------------------------------------------------- union, intersection, difference

  /** r1 = {ab} .. {ab, bc} and r2 = {aa, ab} .. {aa, ab, bb, bc}: r1 + r2 lies within {aa, ab} .. {aa, ab, bb, bc}. */
  lemma UnionScenario()
    ensures BinaryBounds(Union, {[0, 1]}, {[0, 1], [1, 2]}, {[0, 0], [0, 1]}, {[0, 0], [0, 1], [1, 1], [1, 2]})
         == ({[0, 0], [0, 1]}, {[0, 0], [0, 1], [1, 1], [1, 2]})
  {
    assert {[0, 1]} + {[0, 0], [0, 1]} == {[0, 0], [0, 1]};
    assert {[0, 1], [1, 2]} + {[0, 0], [0, 1], [1, 1], [1, 2]} == {[0, 0], [0, 1], [1, 1], [1, 2]};
  }

  /** The same relations: r1 & r2 lies within {ab} .. {ab, bc}. */
  lemma IntersectionScenario()
    ensures BinaryBounds(Intersection, {[0, 1]}, {[0, 1], [1, 2]}, {[0, 0], [0, 1]}, {[0, 0], [0, 1], [1, 1], [1, 2]})
         == ({[0, 1]}, {[0, 1], [1, 2]})
  {
    assert {[0, 1]} * {[0, 0], [0, 1]} == {[0, 1]};
    assert {[0, 1], [1, 2]} * {[0, 0], [0, 1], [1, 1], [1, 2]} == {[0, 1], [1, 2]};
  }

  /** r1 = {ab} .. {ab, bc} and r2 = {aa, ab} .. {aa, ab, bb}: r1 - r2 lies within {} .. {bc}. */
  lemma DifferenceScenario()
    ensures BinaryBounds(Difference, {[0, 1]}, {[0, 1], [1, 2]}, {[0, 0], [0, 1]}, {[0, 0], [0, 1], [1, 1]})
         == ({}, {[1, 2]})
  {
    assert {[0, 1]} - {[0, 0], [0, 1], [1, 1]} == {};
    assert [1, 2] != [0, 0] && [1, 2] != [0, 1] && [1, 2] != [1, 1];
    assert {[0, 1], [1, 2]} - {[0, 0], [0, 1]} == {[1, 2]};
  }

  // ---------------------------------------------------------------- product

  lemma ProductOneTwo(x: Tuple, y: Tuple, z: Tuple)
    ensures ProductSet({x}, {y, z}) == {x + y, x + z}
  {
  }

  lemma ProductTwoFour(x: Tuple, x': Tuple, y: Tuple, y': Tuple, z: Tuple, z': Tuple)
    ensures ProductSet({x, x'}, {y, y', z, z'})
         == {x + y, x + y', x + z, x + z', x' + y, x' + y', x' + z, x' + z'}
  {
  }

  /** r1 = {ab} .. {ab, bc} and r2 = {aa, ab} .. {aa, ab, bb, bc}: r1 -> r2 lies within {abaa, abab} .. every r1 upper tuple followed by every r2 upper tuple. */
  lemma ProductScenario()
    ensures BinaryBounds(Product, {[0, 1]}, {[0, 1], [1, 2]}, {[0, 0], [0, 1]}, {[0, 0], [0, 1], [1, 1], [1, 2]})
         == ({[0, 1, 0, 0], [0, 1, 0, 1]},
             {[0, 1, 0, 0], [0, 1, 0, 1], [0, 1, 1, 1], [0, 1, 1, 2],
              [1, 2, 0, 0], [1, 2, 0, 1], [1, 2, 1, 1], [1, 2, 1, 2]})
  {
    ProductOneTwo([0, 1], [0, 0], [0, 1]);
    ProductTwoFour([0, 1], [1, 2], [0, 0], [0, 1], [1, 1], [1, 2]);
    assert [0, 1] + [0, 0] == [0, 1, 0, 0] && [0, 1] + [0, 1] == [0, 1, 0, 1];
    assert [0, 1] + [1, 1] == [0, 1, 1, 1] && [0, 1] + [1, 2] == [0, 1, 1, 2];
    assert [1, 2] + [0, 0] == [1, 2, 0, 0] && [1, 2] + [0, 1] == [1, 2, 0, 1];
    assert [1, 2] + [1, 1] == [1, 2, 1, 1] && [1, 2] + [1, 2] == [1, 2, 1, 2];
  }

  // ---------------------------------------------------------------- override

  /**
   * r1 = {ab, cc, bd} .. {ab, bc, bd, cc} and r2 = {ac} .. {ac, bb}: in
   * r1 ++ r2 the lower bound keeps only cc of r1's, since r2 may start
   * with a or b; the upper bound drops only ab, since r2 surely starts
   * with a. It lies within {ac, cc} .. {ac, bb, bc, bd, cc}.
   */
  lemma OverrideScenario()
    ensures BinaryBounds(Override, {[0, 1], [2, 2], [1, 3]}, {[0, 1], [1, 2], [1, 3], [2, 2]}, {[0, 2]}, {[0, 2], [1, 1]})
         == ({[0, 2], [2, 2]}, {[0, 2], [1, 1], [1, 2], [1, 3], [2, 2]})
  {
    var lL, uL := {[0, 1], [2, 2], [1, 3]}, {[0, 1], [1, 2], [1, 3], [2, 2]};
    var lR, uR := {[0, 2]}, {[0, 2], [1, 1]};
    forall t ensures t in OverrideSet(lL, lR, uR) <==> t in {[0, 2], [2, 2]} {
      OverrideSetMembers(lL, lR, uR, t);
    }
    forall t ensures t in OverrideSet(uL, uR, lR) <==> t in {[0, 2], [1, 1], [1, 2], [1, 3], [2, 2]} {
      OverrideSetMembers(uL, uR, lR, t);
    }
    assert OverrideSet(lL, lR, uR) == {[0, 2], [2, 2]};
    assert OverrideSet(uL, uR, lR) == {[0, 2], [1, 1], [1, 2], [1, 3], [2, 2]};
  }

  // ---------------------------------------------------------------- join

  /** A join of binary relations pairs the first atom of a left pair with the second of a right pair that meets it. */
  lemma BinaryJoinMembers(left: TupleSet, right: TupleSet, t: Tuple)
    requires HasArity(left, 2) && HasArity(right, 2)
    ensures t in JoinSet(left, right) <==> exists p, q | p in left && q in right :: p[1] == q[0] && t == [p[0], q[1]]
  {
    forall p, q | p in left && q in right ensures Glue(p, q) == [p[0], q[1]] {
      assert Slice(p, 0, 1) == [p[0]] && Slice(q, 1, 2) == [q[1]];
    }
  }

  /**
   * r1 = {aa, ab, cc, bd} .. {aa, ab, bc, bd, cb, cc} and r2 = {ac} ..
   * {ac, bb}: r1 . r2 lies within {ac} .. {ab, ac, cb}.
   */
  lemma JoinScenario()
    ensures BinaryBounds(Join, {[0, 0], [0, 1], [2, 2], [1, 3]}, {[0, 0], [0, 1], [1, 2], [1, 3], [2, 1], [2, 2]},
                         {[0, 2]}, {[0, 2], [1, 1]})
         == ({[0, 2]}, {[0, 1], [0, 2], [2, 1]})
  {
    var lL, uL := {[0, 0], [0, 1], [2, 2], [1, 3]}, {[0, 0], [0, 1], [1, 2], [1, 3], [2, 1], [2, 2]};
    var lR, uR := {[0, 2]}, {[0, 2], [1, 1]};
    forall t ensures t in JoinSet(lL, lR) <==> t == [0, 2] {
      BinaryJoinMembers(lL, lR, t);
      if t == [0, 2] {
        assert [0, 0] in lL && [0, 2] in lR;
      }
    }
    forall t ensures t in JoinSet(uL, uR) <==> t in {[0, 1], [0, 2], [2, 1]} {
      BinaryJoinMembers(uL, uR, t);
      if t == [0, 1] {
        assert [0, 1] in uL && [1, 1] in uR;
      } else if t == [0, 2] {
        assert [0, 0] in uL && [0, 2] in uR;
      } else if t == [2, 1] {
        assert [2, 1] in uL && [1, 1] in uR;
      }
    }
    assert JoinSet(lL, lR) == {[0, 2]};
    assert JoinSet(uL, uR) == {[0, 1], [0, 2], [2, 1]};
  }
}
