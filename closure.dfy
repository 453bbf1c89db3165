/**
 * BoundPropagator.getClosureSet: the transitive (optionally reflexive)
 * closure of a binary tuple set, specified by paths and computed by the
 * round-by-round loop of the Java helper.
 */
module TransitiveClosure {
  import opened Wrappers
  import opened TupleAlgebra

  /** The binary tuples of `ts`: the edges a closure walks along. */
  function Edges(ts: TupleSet): TupleSet {
    set t | t in ts && |t| == 2
  }

  /** The atoms at either end of an edge of `ts`. */
  function EdgeAtoms(ts: TupleSet): set<Atom> {
    (set t | t in Edges(ts) :: t[0]) + (set t | t in Edges(ts) :: t[1])
  }

  /** `p` walks along at least one edge of `ts`. */
  ghost predicate IsPath(ts: TupleSet, p: seq<Atom>) {
    |p| >= 2 && forall i | 0 <= i < |p| - 1 :: [p[i], p[i + 1]] in ts
  }

  /** There is a walk of at least one edge of `ts` from `a` to `b`. */
  ghost predicate Reaches(ts: TupleSet, a: Atom, b: Atom) {
    exists p :: IsPath(ts, p) && p[0] == a && p[|p| - 1] == b
  }

  /** The pairs joined by a walk of `ts`. */
  ghost function Connected(ts: TupleSet): TupleSet {
    set a, b | a in EdgeAtoms(ts) && b in EdgeAtoms(ts) && Reaches(ts, a, b) :: [a, b]
  }

  /**
   * What getClosureSet promises: the input, plus (a, a) for every atom of
   * an edge when `reflexive`, plus every pair joined by a walk.
   */
  ghost function ClosureOf(ts: TupleSet, reflexive: bool): TupleSet {
    ts + (if reflexive then Diagonal(EdgeAtoms(ts)) else {}) + Connected(ts)
  }

  lemma EdgeReaches(ts: TupleSet, a: Atom, b: Atom)
    requires [a, b] in ts
    ensures Reaches(ts, a, b) && a in EdgeAtoms(ts) && b in EdgeAtoms(ts)
  {
    assert IsPath(ts, [a, b]);
    assert [a, b] in Edges(ts);
  }

  lemma ReachesEnds(ts: TupleSet, a: Atom, b: Atom)
    requires Reaches(ts, a, b)
    ensures a in EdgeAtoms(ts) && b in EdgeAtoms(ts)
  {
    var p :| IsPath(ts, p) && p[0] == a && p[|p| - 1] == b;
    EdgeReaches(ts, p[0], p[1]);
    EdgeReaches(ts, p[|p| - 2], p[|p| - 1]);
  }

  /** Walks compose. */
  lemma ReachesTransitive(ts: TupleSet, a: Atom, b: Atom, c: Atom)
    requires Reaches(ts, a, b) && Reaches(ts, b, c)
    ensures Reaches(ts, a, c)
  {
    var p :| IsPath(ts, p) && p[0] == a && p[|p| - 1] == b;
    var q :| IsPath(ts, q) && q[0] == b && q[|q| - 1] == c;
    var pq := p + q[1..];
    forall i | 0 <= i < |pq| - 1 ensures [pq[i], pq[i + 1]] in ts {
      if i < |p| - 1 {
        assert pq[i] == p[i] && pq[i + 1] == p[i + 1];
      } else {
        assert pq[i] == q[i - |p| + 1] && pq[i + 1] == q[i - |p| + 2];
      }
    }
    assert IsPath(ts, pq);
  }

  /** A pair of the closure that is not an input tuple joins two atoms of edges by a walk, or is a loop added by reflexivity. */
  lemma ClosureOfPairs(ts: TupleSet, reflexive: bool, t: Tuple)
    requires t in ClosureOf(ts, reflexive) && t !in ts
    ensures |t| == 2 && t[0] in EdgeAtoms(ts) && t[1] in EdgeAtoms(ts)
    ensures Reaches(ts, t[0], t[1]) || (reflexive && t[0] == t[1])
  {
  }

  /** The closure is transitive: two of its pairs that meet compose to a pair of it. */
  lemma ClosureOfTransitive(ts: TupleSet, reflexive: bool, x: Tuple, y: Tuple)
    requires x in ClosureOf(ts, reflexive) && y in ClosureOf(ts, reflexive)
    requires |x| == 2 && |y| == 2 && x[1] == y[0]
    ensures [x[0], y[1]] in ClosureOf(ts, reflexive)
  {
    if x[0] == x[1] {
      assert [x[0], y[1]] == y;
    } else if y[0] == y[1] {
      assert [x[0], y[1]] == x;
    } else {
      assert Reaches(ts, x[0], x[1]) by {
        if x in ts { assert x == [x[0], x[1]]; EdgeReaches(ts, x[0], x[1]); }
      }
      assert Reaches(ts, y[0], y[1]) by {
        if y in ts { assert y == [y[0], y[1]]; EdgeReaches(ts, y[0], y[1]); }
      }
      ReachesTransitive(ts, x[0], x[1], y[1]);
      ReachesEnds(ts, x[0], y[1]);
    }
  }

  /** The reflexive closure holds (a, a) for every atom of an edge, and the closure grows the input. */
  lemma ClosureOfContains(ts: TupleSet, reflexive: bool, a: Atom)
    ensures ts <= ClosureOf(ts, reflexive)
    ensures reflexive && a in EdgeAtoms(ts) ==> [a, a] in ClosureOf(ts, reflexive)
  {
  }

  // ---------------------------------------------------------------- the Java loop

  /** Every entry of the `firsts` map is a pair starting with its key and joined by a walk. */
  ghost predicate FirstsSound(ts: TupleSet, firsts: map<Atom, TupleSet>) {
    forall a, r | a in firsts && r in firsts[a] :: |r| == 2 && r[0] == a && Reaches(ts, r[0], r[1])
  }

  /** Every edge of `ts` is filed in `firsts` under its first atom. */
  ghost predicate FirstsComplete(ts: TupleSet, firsts: map<Atom, TupleSet>) {
    forall e | e in Edges(ts) :: e[0] in firsts && e in firsts[e[0]]
  }

  /** `firsts` only gained entries since `before`. */
  ghost predicate Grown(before: map<Atom, TupleSet>, after: map<Atom, TupleSet>) {
    forall a | a in before :: a in after && before[a] <= after[a]
  }

  /** Composing any pair of `retval` with a filed pair that it meets gives a pair of `retval`. */
  ghost predicate Closed(retval: TupleSet, firsts: map<Atom, TupleSet>) {
    forall t, r | t in retval && |t| == 2 && t[1] in firsts && r in firsts[t[1]] && |r| == 2 :: [t[0], r[1]] in retval
  }

  /** `firsts` with pair `s` filed under its first atom. */
  function File(firsts: map<Atom, TupleSet>, s: Tuple): (r: map<Atom, TupleSet>)
    requires |s| > 0
    ensures r.Keys == firsts.Keys + {s[0]} && s in r[s[0]]
  {
    firsts[s[0] := (if s[0] in firsts then firsts[s[0]] else {}) + {s}]
  }

  /** Filing a pair joined by a walk keeps `firsts` sound and only grows it. */
  lemma FiledSound(ts: TupleSet, firsts0: map<Atom, TupleSet>, firsts: map<Atom, TupleSet>, s: Tuple)
    requires FirstsSound(ts, firsts) && Grown(firsts0, firsts)
    requires |s| == 2 && Reaches(ts, s[0], s[1])
    ensures FirstsSound(ts, File(firsts, s)) && Grown(firsts0, File(firsts, s))
  {
  }

  /** A pair of the closure composed with a filed pair stays in the closure and is itself joined by a walk. */
  lemma ComposeSound(ts: TupleSet, reflexive: bool, t: Tuple, r: Tuple)
    requires t in ClosureOf(ts, reflexive) && |t| == 2
    requires |r| == 2 && r[0] == t[1] && Reaches(ts, r[0], r[1])
    ensures Reaches(ts, t[0], r[1]) && [t[0], r[1]] in ClosureOf(ts, reflexive)
  {
    if t[0] != t[1] {
      assert Reaches(ts, t[0], t[1]) by {
        if t in ts { assert t == [t[0], t[1]]; EdgeReaches(ts, t[0], t[1]); }
      }
      ReachesTransitive(ts, t[0], t[1], r[1]);
    }
    ReachesEnds(ts, t[0], r[1]);
  }

  /** A closed set holding the edges holds every pair joined by a walk. */
  lemma {:induction false} ClosedHoldsWalks(ts: TupleSet, retval: TupleSet, firsts: map<Atom, TupleSet>, p: seq<Atom>, k: nat)
    requires ts <= retval && FirstsComplete(ts, firsts) && Closed(retval, firsts)
    requires IsPath(ts, p) && 2 <= k <= |p|
    ensures [p[0], p[k - 1]] in retval
  {
    if k > 2 {
      ClosedHoldsWalks(ts, retval, firsts, p, k - 1);
      var e := [p[k - 2], p[k - 1]];
      assert e in Edges(ts);
      var t := [p[0], p[k - 2]];
      assert t in retval && t[1] in firsts && e in firsts[t[1]];
    }
  }

  lemma ClosedHoldsConnected(ts: TupleSet, retval: TupleSet, firsts: map<Atom, TupleSet>)
    requires ts <= retval && FirstsComplete(ts, firsts) && Closed(retval, firsts)
    ensures Connected(ts) <= retval
  {
    forall t | t in Connected(ts) ensures t in retval {
      var a, b :| a in EdgeAtoms(ts) && b in EdgeAtoms(ts) && Reaches(ts, a, b) && t == [a, b];
      var p :| IsPath(ts, p) && p[0] == a && p[|p| - 1] == b;
      ClosedHoldsWalks(ts, retval, firsts, p, |p|);
    }
  }

  /**
   * The body of the inner loop: `t` composed with one partner `r`; a pair
   * not yet in `retval` goes to `temp` and is filed at once.
   */
  method ComposeWith(ghost ts: TupleSet, ghost reflexive: bool, retval: TupleSet, t: Tuple, r: Tuple,
                     temp0: TupleSet, ghost firsts00: map<Atom, TupleSet>, firsts0: map<Atom, TupleSet>, added0: bool)
    returns (temp: TupleSet, firsts: map<Atom, TupleSet>, added: bool)
    requires t in retval && |t| == 2 && retval <= ClosureOf(ts, reflexive)
    requires |r| == 2 && r[0] == t[1] && Reaches(ts, r[0], r[1])
    requires temp0 <= ClosureOf(ts, reflexive) && temp0 !! retval
    requires FirstsSound(ts, firsts0) && Grown(firsts00, firsts0)
    ensures temp0 <= temp <= ClosureOf(ts, reflexive) && temp !! retval
    ensures FirstsSound(ts, firsts) && Grown(firsts00, firsts)
    ensures [t[0], r[1]] in retval ==> temp == temp0 && firsts == firsts0 && added == added0
    ensures [t[0], r[1]] !in retval ==> added && temp == temp0 + {[t[0], r[1]]}
  {
    temp, firsts, added := temp0, firsts0, added0;
    var s := [t[0], r[1]];
    if s !in retval {
      ComposeSound(ts, reflexive, t, r);
      FiledSound(ts, firsts00, firsts0, s);
      temp := temp0 + {s};
      firsts := File(firsts0, s);
      added := true;
    }
  }

  /**
   * The inner loop of one pass, for one pair `t` of `retval`: `t` composed
   * with every pair filed under its second atom. New pairs go to `temp` and
   * are filed in `firsts` at once.
   */
  method ComposeWithPartners(ghost ts: TupleSet, ghost reflexive: bool, retval: TupleSet, t: Tuple,
                             temp0: TupleSet, firsts0: map<Atom, TupleSet>, added0: bool)
    returns (temp: TupleSet, firsts: map<Atom, TupleSet>, added: bool)
    requires t in retval && |t| == 2 && retval <= ClosureOf(ts, reflexive) && FirstsSound(ts, firsts0)
    requires temp0 <= ClosureOf(ts, reflexive) && temp0 !! retval && (added0 <==> temp0 != {})
    ensures temp0 <= temp <= ClosureOf(ts, reflexive) && temp !! retval
    ensures FirstsSound(ts, firsts) && Grown(firsts0, firsts)
    ensures added <==> temp != {}
    ensures !added ==> firsts == firsts0
    ensures !added && t[1] in firsts0 ==> forall r | r in firsts0[t[1]] :: [t[0], r[1]] in retval
  {
    temp, firsts, added := temp0, firsts0, added0;
    if t[1] !in firsts {
      return;
    }
    var partners := firsts[t[1]];
    var rest := partners;
    while rest != {}
      invariant rest <= partners
      invariant temp0 <= temp <= ClosureOf(ts, reflexive) && temp !! retval
      invariant FirstsSound(ts, firsts) && Grown(firsts0, firsts)
      invariant added <==> temp != {}
      invariant !added ==> firsts == firsts0
      invariant !added ==> forall r | r in partners - rest :: [t[0], r[1]] in retval
      decreases rest
    {
      var r :| r in rest;
      assert r in firsts0[t[1]];
      assert |r| == 2 && r[0] == t[1] && Reaches(ts, r[0], r[1]);
      temp, firsts, added := ComposeWith(ts, reflexive, retval, t, r, temp, firsts0, firsts, added);
      rest := rest - {r};
    }
  }

  /**
   * The `for` loop of one pass: every pair of `retval` composed with every
   * pair filed under its second atom. Reports whether the pass found a pair
   * not yet in `retval`.
   */
  method ComposeAll(ghost ts: TupleSet, ghost reflexive: bool, retval: TupleSet, firsts0: map<Atom, TupleSet>)
    returns (temp: TupleSet, firsts: map<Atom, TupleSet>, added: bool)
    requires retval <= ClosureOf(ts, reflexive) && FirstsSound(ts, firsts0)
    ensures temp <= ClosureOf(ts, reflexive) && temp !! retval
    ensures FirstsSound(ts, firsts) && Grown(firsts0, firsts)
    ensures added <==> temp != {}
    ensures !added ==> firsts == firsts0 && Closed(retval, firsts0)
  {
    temp, firsts, added := {}, firsts0, false;
    var todo := retval;
    while todo != {}
      invariant todo <= retval
      invariant temp <= ClosureOf(ts, reflexive) && temp !! retval
      invariant FirstsSound(ts, firsts) && Grown(firsts0, firsts)
      invariant added <==> temp != {}
      invariant !added ==> firsts == firsts0
      invariant !added ==> forall t, r | t in retval - todo && |t| == 2 && t[1] in firsts0 && r in firsts0[t[1]] :: [t[0], r[1]] in retval
      decreases todo
    {
      var t :| t in todo;
      if |t| == 2 {
        temp, firsts, added := ComposeWithPartners(ts, reflexive, retval, t, temp, firsts, added);
      }
      todo := todo - {t};
    }
  }

  /** One pass of the `while (added)` loop: the composed pairs, then retval.addAll(temp). */
  method ClosureRound(ghost inner: TupleSet, ghost reflexive: bool, retval0: TupleSet, firsts0: map<Atom, TupleSet>)
    returns (retval: TupleSet, firsts: map<Atom, TupleSet>, added: bool)
    requires retval0 <= ClosureOf(inner, reflexive)
    requires FirstsSound(inner, firsts0) && FirstsComplete(inner, firsts0)
    ensures retval0 <= retval <= ClosureOf(inner, reflexive)
    ensures FirstsSound(inner, firsts) && FirstsComplete(inner, firsts)
    ensures added ==> |ClosureOf(inner, reflexive) - retval| < |ClosureOf(inner, reflexive) - retval0|
    ensures !added ==> retval == retval0 && Closed(retval, firsts)
  {
    var temp;
    temp, firsts, added := ComposeAll(inner, reflexive, retval0, firsts0);
    retval := retval0;
    if added {
      ghost var spec := ClosureOf(inner, reflexive);
      assert spec - (retval0 + temp) < spec - retval0 by {
        var s :| s in temp;
        assert s in spec - retval0 && s !in spec - (retval0 + temp);
      }
      retval := retval0 + temp;
    }
  }

  /** The reflexive seed of getClosureSet: the input plus (a, a) for both atoms of every edge. */
  method WithLoops(inner: TupleSet) returns (retval: TupleSet)
    ensures retval == inner + Diagonal(EdgeAtoms(inner))
  {
    retval := inner;
    var todo := inner;
    while todo != {}
      invariant todo <= inner
      invariant retval == inner + Diagonal(EdgeAtoms(inner - todo))
      decreases todo
    {
      var t :| t in todo;
      if |t| == 2 {
        retval := retval + {[t[0], t[0]], [t[1], t[1]]};
      }
      assert EdgeAtoms(inner - (todo - {t})) == EdgeAtoms(inner - todo) + (if |t| == 2 then {t[0], t[1]} else {}) by {
        assert Edges(inner - (todo - {t})) == Edges(inner - todo) + (if |t| == 2 then {t} else {});
      }
      todo := todo - {t};
    }
    assert inner - todo == inner;
  }

  /** The `firsts` map of getClosureSet: every edge filed under its first atom. */
  method FileByFirst(inner: TupleSet) returns (firsts: map<Atom, TupleSet>)
    ensures FirstsSound(inner, firsts) && FirstsComplete(inner, firsts)
  {
    firsts := map[];
    var todo := inner;
    while todo != {}
      invariant todo <= inner
      invariant FirstsSound(inner, firsts)
      invariant FirstsComplete(inner - todo, firsts)
      decreases todo
    {
      var t :| t in todo;
      if |t| == 2 {
        assert t == [t[0], t[1]];
        EdgeReaches(inner, t[0], t[1]);
        FiledSound(inner, firsts, firsts, t);
        firsts := File(firsts, t);
      }
      todo := todo - {t};
    }
    assert inner - todo == inner;
  }

  /** BoundPropagator.getClosureSet: the closure, grown round by round until a round adds nothing. */
  method GetClosureSet(inner: TupleSet, reflexive: bool) returns (retval: TupleSet)
    ensures retval == ClosureOf(inner, reflexive)
  {
    retval := inner;
    if reflexive {
      retval := WithLoops(inner);
    }
    var firsts := FileByFirst(inner);
    var added := true;
    while added
      invariant inner <= retval <= ClosureOf(inner, reflexive)
      invariant reflexive ==> Diagonal(EdgeAtoms(inner)) <= retval
      invariant FirstsSound(inner, firsts) && FirstsComplete(inner, firsts)
      invariant !added ==> Closed(retval, firsts)
      decreases |ClosureOf(inner, reflexive) - retval| + (if added then 1 else 0)
    {
      retval, firsts, added := ClosureRound(inner, reflexive, retval, firsts);
    }
    ClosedHoldsConnected(inner, retval, firsts);
  }

  // ---------------------------------------------------------------- one round as written, on lists

  /** A binary tuple as the round as written handles it. */
  type Pair = (Atom, Atom)

  /** What a round of getClosureSet carries: temp, the firsts lists, and added. */
  datatype RoundState = RoundState(temp: set<Pair>, firsts: map<Atom, seq<Pair>>, added: bool)

  /** firsts.computeIfAbsent(s.0, ...).add(s): `s` appended to the list of its first atom. */
  function Append(firsts: map<Atom, seq<Pair>>, s: Pair): map<Atom, seq<Pair>> {
    firsts[s.0 := (if s.0 in firsts then firsts[s.0] else []) + [s]]
  }

  /** The `firsts` lists built by visiting `order` front to back, starting from `acc`. */
  function FileAll(acc: map<Atom, seq<Pair>>, order: seq<Pair>): (r: map<Atom, seq<Pair>>)
    ensures acc.Keys <= r.Keys
    ensures forall a | a in r :: a in acc || exists p | p in order :: p.0 == a
    decreases |order|
  {
    if order == [] then acc else FileAll(Append(acc, order[0]), order[1..])
  }

  /** Pairs ordered as Kodkod indexes them: by first atom, then by second. */
  predicate PairBefore(x: Pair, y: Pair) {
    x.0 < y.0 || (x.0 == y.0 && x.1 < y.1)
  }

  /** `order` lists the tuples of `ts` once each, in the order a TupleSet iterates them. */
  predicate Listing(order: seq<Pair>, ts: TupleSet) {
    && (set p | p in order :: [p.0, p.1]) == ts
    && forall i, j | 0 <= i < j < |order| :: PairBefore(order[i], order[j])
  }

  /**
   * The inner `for` loop as written, over the list filed under t.1. A
   * composed pair not in retval goes to temp and is appended to the list
   * of t.0. When t is a loop pair (t.0 == t.1) that list is the one being
   * iterated: it has grown past the iterator's cursor, so the iterator's
   * next step throws ConcurrentModificationException (Null).
   */
  function PartnersAsWritten(retval: set<Pair>, t: Pair, partners: seq<Pair>, acc: RoundState): (r: Nullable<RoundState>)
    ensures r.Null? ==> t.0 == t.1 && exists p | p in partners :: (t.0, p.1) !in retval
    ensures r.NonNull? ==> acc.temp <= r.value.temp && (r.value.temp - acc.temp) !! retval && (acc.added ==> r.value.added)
    decreases |partners|
  {
    if partners == [] then NonNull(acc)
    else
      var s := (t.0, partners[0].1);
      if s in retval then PartnersAsWritten(retval, t, partners[1..], acc)
      else if t.0 == t.1 then Null
      else PartnersAsWritten(retval, t, partners[1..], RoundState(acc.temp + {s}, Append(acc.firsts, s), true))
  }

  /**
   * The outer `for` loop of one round as written, visiting retval in the
   * order `order`. It throws only where retval holds a loop pair.
   */
  function RoundAsWritten(retval: set<Pair>, order: seq<Pair>, acc: RoundState): (r: Nullable<RoundState>)
    ensures r.Null? ==> exists t | t in order :: t.0 == t.1
    ensures r.NonNull? ==> acc.temp <= r.value.temp && (r.value.temp - acc.temp) !! retval && (acc.added ==> r.value.added)
    decreases |order|
  {
    if order == [] then NonNull(acc)
    else
      var t := order[0];
      var partners := if t.1 in acc.firsts then acc.firsts[t.1] else [];
      match PartnersAsWritten(retval, t, partners, acc)
      case Null => Null
      case NonNull(next) => RoundAsWritten(retval, order[1..], next)
  }

  // Atoms a, b, c are 0, 1, 2; the chain is {(b, a), (a, c)}.

  /** The pairs of the chain's reflexive seed. */
  const Seed: set<Pair> := {(0, 0), (0, 2), (1, 0), (1, 1), (2, 2)}

  /** The chain's reflexive seed: the chain plus a loop at each of a, b and c. */
  lemma ChainSeed()
    ensures {[1, 0], [0, 2]} + Diagonal(EdgeAtoms({[1, 0], [0, 2]})) == {[0, 0], [0, 2], [1, 0], [1, 1], [2, 2]}
  {
    assert Edges({[1, 0], [0, 2]}) == {[1, 0], [0, 2]};
    assert EdgeAtoms({[1, 0], [0, 2]}) == {0, 1, 2};
    assert Diagonal({0, 1, 2}) == {[0, 0], [1, 1], [2, 2]};
  }

  /** The chain in the order a TupleSet iterates it. */
  lemma ChainListing()
    ensures Listing([(0, 2), (1, 0)], {[1, 0], [0, 2]})
  {
  }

  /** The chain's reflexive seed in the order a TupleSet iterates it. */
  lemma SeedListing()
    ensures Listing([(0, 0), (0, 2), (1, 0), (1, 1), (2, 2)], {[0, 0], [0, 2], [1, 0], [1, 1], [2, 2]})
  {
    var order := [(0, 0), (0, 2), (1, 0), (1, 1), (2, 2)];
    assert forall i, j | 0 <= i < j < |order| :: PairBefore(order[i], order[j]);
    assert (set p | p in order :: [p.0, p.1]) == {[0, 0], [0, 2], [1, 0], [1, 1], [2, 2]};
  }

  /** The chain's firsts lists: (a, c) under a, (b, a) under b, nothing under c. */
  lemma ChainFirsts()
    ensures var m := FileAll(map[], [(0, 2), (1, 0)]);
      0 in m && m[0] == [(0, 2)] && 1 in m && m[1] == [(1, 0)] && 2 !in m
  {
    var m1 := Append(map[], (0, 2));
    assert FileAll(m1, [(1, 0)]) == FileAll(Append(m1, (1, 0)), []);
  }

  /** A partner whose composed pair is already in retval leaves the round as it is. */
  lemma SkipStep(rs: set<Pair>, t: Pair, p: Pair, acc: RoundState)
    requires (t.0, p.1) in rs
    ensures PartnersAsWritten(rs, t, [p], acc) == NonNull(acc)
  {
    assert [p][1..] == [];
  }

  /** A partner whose composed pair is new, for a pair that is not a loop, files that pair. */
  lemma ComposeStep(rs: set<Pair>, t: Pair, p: Pair, acc: RoundState)
    requires (t.0, p.1) !in rs && t.0 != t.1
    ensures PartnersAsWritten(rs, t, [p], acc)
         == NonNull(RoundState(acc.temp + {(t.0, p.1)}, Append(acc.firsts, (t.0, p.1)), true))
  {
    assert [p][1..] == [];
  }

  /** A loop pair that meets a new composed pair after a known one throws. */
  lemma ThrowStep(rs: set<Pair>, t: Pair, p: Pair, q: Pair, acc: RoundState)
    requires (t.0, p.1) in rs && (t.0, q.1) !in rs && t.0 == t.1
    ensures PartnersAsWritten(rs, t, [p, q], acc).Null?
  {
    assert [p, q][1..] == [q];
  }

  /** The outer loop moves to the next pair with what the inner loop left. */
  lemma RoundStep(rs: set<Pair>, order: seq<Pair>, partners: seq<Pair>, acc: RoundState, next: RoundState)
    requires |order| > 0 && partners == (if order[0].1 in acc.firsts then acc.firsts[order[0].1] else [])
    requires PartnersAsWritten(rs, order[0], partners, acc) == NonNull(next)
    ensures RoundAsWritten(rs, order, acc) == RoundAsWritten(rs, order[1..], next)
  {
  }

  /** The round on the chain's seed up to the loop pair (b, b): (b, c) is filed under b. */
  lemma ChainRoundPrefix(start: RoundState) returns (afterBA: RoundState)
    requires 0 in start.firsts && start.firsts[0] == [(0, 2)]
    requires 1 in start.firsts && start.firsts[1] == [(1, 0)] && 2 !in start.firsts
    ensures 1 in afterBA.firsts && afterBA.firsts[1] == [(1, 0), (1, 2)]
    ensures var retval := [(0, 0), (0, 2), (1, 0), (1, 1), (2, 2)];
      RoundAsWritten(Seed, retval, start) == RoundAsWritten(Seed, retval[3..], afterBA)
  {
    var retval := [(0, 0), (0, 2), (1, 0), (1, 1), (2, 2)];
    var rs := Seed;
    assert (0, 2) in rs && (1, 2) !in rs;
    SkipStep(rs, (0, 0), (0, 2), start);
    RoundStep(rs, retval, [(0, 2)], start, start);
    RoundStep(rs, retval[1..], [], start, start);
    ComposeStep(rs, (1, 0), (0, 2), start);
    afterBA := RoundState(start.temp + {(1, 2)}, Append(start.firsts, (1, 2)), true);
    assert retval[1..][1..] == retval[2..] && retval[2..][0] == (1, 0);
    RoundStep(rs, retval[2..], [(0, 2)], start, afterBA);
    assert retval[2..][1..] == retval[3..];
  }

  /**
   * The first round as written on the chain's reflexive seed, with the
   * chain's firsts lists (ChainFirsts), throws at the loop pair (b, b):
   * visiting (b, a) has just appended (b, c) to the list of b, which (b, b)
   * is iterating.
   */
  lemma ReflexiveChainThrows(firsts: map<Atom, seq<Pair>>)
    requires 0 in firsts && firsts[0] == [(0, 2)] && 1 in firsts && firsts[1] == [(1, 0)] && 2 !in firsts
    ensures RoundAsWritten(Seed, [(0, 0), (0, 2), (1, 0), (1, 1), (2, 2)], RoundState({}, firsts, false)).Null?
  {
    var retval := [(0, 0), (0, 2), (1, 0), (1, 1), (2, 2)];
    var afterBA := ChainRoundPrefix(RoundState({}, firsts, false));
    assert (1, 0) in Seed && (1, 2) !in Seed;
    ThrowStep(Seed, (1, 1), (1, 0), (1, 2), afterBA);
    assert retval[3..][0] == (1, 1);
  }
}
