# Bound propagation in Kodkod/Pardinus, modelled in Dafny

Kodkod solves a relational formula against `Bounds`. Each relation has a lower
bound, the tuples it must hold, and an upper bound, the tuples it may hold.
Pardinus adds a propagation pass, in the package `kodkod.engine.propagating`,
that makes these bounds tighter before solving. This project models the pass:

- **The tuple algebra of `BoundPropagator`.** This covers `firsts`, `getJoinSet`,
  `getOverrideSet`, `getTransposeSet`, `getClosureSet`, `reduce1`/`reduce2`,
  `tupleStream` and `subsequence`. Modules `TupleAlgebra` and
  `TransitiveClosure`.
- **The visited cache of a propagator.** Module `Traversal`, class
  `BoundPropagator`.
- **The bound store `ExpressionBounds`.** It sits over the canonical `Bounds` of
  the problem's relations. Module `Store`, classes `Bounds` and
  `ExpressionBounds`.
- **The upward propagator.** It computes each expression's bounds from its
  operands' bounds, after visiting the operands. Module `Upward`.
- **The downward propagator.** It narrows each expression's operands from the
  expression's own bounds, then visits the operands. The rules are in
  `DownwardRules`, the traversal in `Downward`.
- **The fixpoint loop** that the examples run before solving. Each round builds
  a fresh store, runs the upward pass and then the downward pass, and the loop
  repeats while some relation's bounds changed. Module `Driver`.
- **The scenarios of the upward propagation tests.** Each test bounds one or
  two binary relations over the atoms a, b, c, d and expects given bounds for
  one operator. Module `UpwardScenarios` states these expected bounds for the
  upward rules, with the atoms numbered 0 .. 3.

The model represents values as follows:

- Atoms are the naturals `0 .. size-1` of the universe. A tuple is a `seq<nat>`
  and a tuple set is a `set` of tuples.
- AST nodes are datatypes carrying a `NodeId`, which stands for Java object
  identity. The store and the visited cache are keyed by it.
- The store's state is the value `Store.State`. The function
  `Store.BoundSpec` says what `bound` does to that state.
- A propagation pass is specified by ghost traversal functions over a `Walk`,
  which pairs a store with a visited set: `Upward.UpFormula` and
  `Downward.DownFormula`.
- Each visitor method is proved to leave the propagator exactly where its
  traversal function says.
- Every rule is also a function with lemmas about it. For most upward rules:
  whatever values within their bounds the operands take, the new bounds hold
  the result. The reflexive closure and the declaration rule are exceptions,
  listed below. For each downward rule: when the narrowing keeps every value
  the operand may take, and when it does not.

The code does not do what its own comments and messages say in the places
below, and the model follows the code:

- **Loosening is checked by size, not by inclusion.** `bound` reports
  "attempting to shrink lower bound" (or "expand upper bound") and refuses
  the call only when the new lower bound has fewer tuples than the current
  one, or the new upper bound has more (`ExpressionBounds.java:52-59`). A
  same-size write of different tuples is accepted and sets `changed`
  (`Store.BoundAcceptsSameSizeSwap`).
- **Some downward narrowings are not ones that "can be" made.** The comments
  of the downward propagator say which tuples "can be added" to an operand's
  lower bound or "can be removed" from its upper bound
  (`DownwardExpressionBoundPropagator.java:55-62` and the like). These
  narrowings can exclude a value the formula allows:
  - the right lower bound of DIFFERENCE
    (`DownwardRules.DifferenceDownRightLowerOverreaches`);
  - LONE (`DownwardRules.LoneDownOverreaches`);
  - the branch of a conditional that is not taken
    (`DownwardRules.IfDownNarrowsUntaken`);
  - PRODUCT and JOIN when the other operand may be empty
    (`DownwardRules.ProductDownEmptiesBeside`,
    `DownwardRules.JoinDownDropsUnmatched`).

  The downward traversal adds three more cases, modelled as written in
  `Downward.DownExpr` and `Downward.DownFormula`:
  - the condition of a conditional expression is visited as if it held
    (`DownwardExpressionBoundPropagator.java:281-297` ends in the inherited
    visit of all three parts). In `(r = s) => a else b`, r and s are
    narrowed to each other's bounds although the else branch may be taken;
  - the body of a quantified formula is visited as if it held for every
    binding, whatever the quantifier (the propagator does not override the
    inherited visit). `all x: A | some r` holds when A and r are empty, yet
    visiting `some r` with a one-tuple upper bound puts that tuple in r's
    lower bound;
  - the upward declaration rule gives a quantified variable the whole lower
    bound of its expression (`UpwardExpressionBoundPropagator.java:95-98`),
    but the variable is bound to one tuple at a time
    (`Upward.DeclLowerExceedsBinding`).
- **The upward reflexive closure misses loops.** `*r` means `^r` plus the
  identity on every atom of the universe. `getClosureSet` with `reflexive`
  adds loops only on the atoms of the pairs it is given
  (`BoundPropagator.java:67-73`), and the upward rule applies it to the
  operand's upper bound (`UpwardExpressionBoundPropagator.java:164-168`). An
  atom in no pair of that bound gets no loop, so the upper bound of `*r` can
  miss a tuple `*r` always holds (`Upward.ReflexiveClosureUpperMissesLoops`).
  The lower bound is sound (`Upward.UnaryBoundsSound`).
- **Downward JOIN does not compare the join key.** Its comment adds a tuple
  that is "the only possible prefix" of a parent lower tuple
  (`DownwardExpressionBoundPropagator.java:103-108`). The code pairs every
  left upper tuple with every right upper tuple whose glued atoms give a
  parent lower tuple, without checking that they agree on the joined atom.
  Skipping the key only adds candidates, so the lower narrowing stays sound
  (`DownwardRules.JoinDownLowerSound`).

## Model

| member | source | states |
|---|---|---|
| TupleAlgebra.AllOf | src/main/java/kodkod/engine/propagating/ExpressionBounds.java:42 | every tuple of the full set of an arity has that many atoms, all in the universe |
| TupleAlgebra.AllOfMembers | src/main/java/kodkod/engine/propagating/ExpressionBounds.java:42 | a tuple is in the full set of an arity exactly when it has that arity and all its atoms lie in the universe |
| TupleAlgebra.SliceWithin | src/main/java/kodkod/engine/propagating/BoundPropagator.java:213-215 | the atoms streamed for positions lo .. hi-1 of a tuple are exactly t[lo] .. t[hi-1], hi - lo of them in order, and the runs before and after any position put the tuple back together |
| TupleAlgebra.FirstsMembers | src/main/java/kodkod/engine/propagating/BoundPropagator.java:54-56 | an atom is among the first atoms exactly when some nonempty tuple of the set starts with it |
| TupleAlgebra.FirstsUnion | src/main/java/kodkod/engine/propagating/BoundPropagator.java:54-56 | the first atoms of a union are the first atoms of either side |
| Semantics.FirstsMonotone | src/main/java/kodkod/engine/propagating/BoundPropagator.java:54-56 | a larger tuple set has at least the first atoms of a smaller one |
| TupleAlgebra.TransposeInvolutive | src/main/java/kodkod/engine/propagating/BoundPropagator.java:147-157 | transposing twice gives back the input set |
| TupleAlgebra.TransposeSwaps | src/main/java/kodkod/engine/propagating/BoundPropagator.java:147-157 | (a, b) is in the transpose exactly when (b, a) is in the input, and transposing keeps every tuple's arity |
| TupleAlgebra.ProductSplits | src/main/java/kodkod/engine/propagating/UpwardExpressionBoundPropagator.java:53-57 | a tuple is in a product exactly when its first n atoms are a left tuple and the rest a right tuple |
| TupleAlgebra.ProductArity | src/main/java/kodkod/engine/propagating/UpwardExpressionBoundPropagator.java:53-57 | the product of arities n and m has arity n + m |
| TupleAlgebra.OverrideSetMembers | src/main/java/kodkod/engine/propagating/BoundPropagator.java:132-138 | a tuple is in the override set exactly when it is an overrider tuple, or an overridee tuple whose first atom starts no guaranteed tuple |
| TupleAlgebra.OverrideKeepsOverrider | src/main/java/kodkod/engine/propagating/BoundPropagator.java:132-138 | the override set holds all of the overrider, and with no guaranteed overrides it is the union of both inputs |
| TupleAlgebra.JoinArity | src/main/java/kodkod/engine/propagating/BoundPropagator.java:106-120 | a join of arities n and m has arity n + m - 2 |
| TupleAlgebra.JoinAssociative | src/main/java/kodkod/engine/propagating/BoundPropagator.java:106-120 | join is associative when the middle operand has at least two columns |
| TupleAlgebra.GroupByFirst | src/main/java/kodkod/engine/propagating/BoundPropagator.java:107 | the groups are keyed by exactly the first atoms of the input, and each group holds exactly the input tuples starting with its key |
| TupleAlgebra.GetJoinSet | src/main/java/kodkod/engine/propagating/BoundPropagator.java:106-120 | the loop over left tuples and their partners grouped by first atom returns exactly the relational join of the two sets |
| TupleAlgebra.Subsequence | src/main/java/kodkod/engine/propagating/BoundPropagator.java:213-229 | the groups are keyed by exactly the nonempty atom runs [lo, hi) of the input, no group is empty, and every member of a group is an input tuple whose run is its key |
| TupleAlgebra.Reduce | src/main/java/kodkod/engine/propagating/BoundPropagator.java:169-203 | the loop returns null for no operands, and otherwise the left fold of the operands from the first one |
| TupleAlgebra.FoldUnionMembers | src/main/java/kodkod/engine/propagating/UpwardExpressionBoundPropagator.java:144-149 | a union fold holds exactly the tuples of the start value or of some operand |
| TupleAlgebra.FoldIntersectionMembers | src/main/java/kodkod/engine/propagating/UpwardExpressionBoundPropagator.java:115-119 | an intersection fold holds exactly the tuples of the start value and of every operand |
| TupleAlgebra.OverrideFoldBounds | src/main/java/kodkod/engine/propagating/UpwardExpressionBoundPropagator.java:120-138 | the last operand of an n-ary override survives whole, and no tuple enters that is in no operand |
| TransitiveClosure.ClosureOfTransitive | src/main/java/kodkod/engine/propagating/BoundPropagator.java:58-66 | the promised closure is transitive: two of its pairs that meet compose to a pair of it |
| TransitiveClosure.ClosureOfPairs | src/main/java/kodkod/engine/propagating/BoundPropagator.java:58-66 | every pair of the closure that is not an input tuple joins two atoms of edges by a walk, or is a loop added by reflexivity |
| TransitiveClosure.ClosureOfContains | src/main/java/kodkod/engine/propagating/BoundPropagator.java:67-73 | the closure holds the input, and the reflexive closure holds (a, a) for every atom of an edge, not for every atom of the universe |
| TransitiveClosure.ClosedHoldsConnected | src/main/java/kodkod/engine/propagating/BoundPropagator.java:78-95 | a set that holds the edges and is closed under composition with the filed pairs holds every pair joined by a walk |
| TransitiveClosure.WithLoops | src/main/java/kodkod/engine/propagating/BoundPropagator.java:67-73 | the reflexive seed is the input plus (a, a) for both atoms of every edge |
| TransitiveClosure.FileByFirst | src/main/java/kodkod/engine/propagating/BoundPropagator.java:74-77 | every edge is filed under its first atom, and everything filed is a pair joined by a walk starting at its key |
| TransitiveClosure.ComposeWithPartners | src/main/java/kodkod/engine/propagating/BoundPropagator.java:83-90 | the inner loop only adds pairs of the closure that are new to retval; when it adds nothing, t composed with each partner is already in retval |
| TransitiveClosure.ComposeAll | src/main/java/kodkod/engine/propagating/BoundPropagator.java:81-91 | a round's composed pairs are new pairs of the closure; a round that adds nothing leaves retval closed under composition |
| TransitiveClosure.ClosureRound | src/main/java/kodkod/engine/propagating/BoundPropagator.java:79-95 | one round keeps retval inside the closure and only grows it; a round that adds pairs strictly shrinks what is missing, one that adds none leaves retval closed |
| TransitiveClosure.GetClosureSet | src/main/java/kodkod/engine/propagating/BoundPropagator.java:66-97 | the loop terminates and returns exactly the input, the loops when reflexive, and every pair joined by a walk |
| TransitiveClosure.PartnersAsWritten | src/main/java/kodkod/engine/propagating/BoundPropagator.java:83-90 | the inner loop as written throws only for a loop pair t = (a, a) with some partner whose composition is new; otherwise it only adds new pairs to temp |
| TransitiveClosure.RoundAsWritten | src/main/java/kodkod/engine/propagating/BoundPropagator.java:82-91 | a round as written throws only when retval holds a loop pair; otherwise it only adds new pairs to temp |
| TransitiveClosure.ReflexiveChainThrows | src/main/java/kodkod/engine/propagating/BoundPropagator.java:66-97 | given the firsts lists of the chain {(1,0), (0,2)}, the first round as written over its reflexive seed, iterated in index order, throws ConcurrentModificationException |
| TransitiveClosure.ChainSeed | src/main/java/kodkod/engine/propagating/BoundPropagator.java:67-73 | the reflexive seed of the chain {(1,0), (0,2)} is {(0,0), (0,2), (1,0), (1,1), (2,2)} |
| TransitiveClosure.ChainFirsts | src/main/java/kodkod/engine/propagating/BoundPropagator.java:74-77 | the firsts lists of the chain file (0,2) under 0 and (1,0) under 1, and nothing under 2 |
| Traversal.BoundPropagator.Visited | src/main/java/kodkod/engine/propagating/BoundPropagator.java:26-36 | visited answers false the first time a node is offered and true on every later call, and records the node |
| Store.Bounds.Bound | src/main/java/kodkod/engine/propagating/ExpressionBounds.java:62 | Bounds.bound accepts exactly a lower bound within the upper bound and then records both; a refused call changes nothing |
| Store.ExpressionBounds.constructor | src/main/java/kodkod/engine/propagating/ExpressionBounds.java:15-23 | a new store holds no bounds of its own, is unchanged, and reads relations from the canonical Bounds |
| Store.ExpressionBounds.LowerBound | src/main/java/kodkod/engine/propagating/ExpressionBounds.java:25-33 | lowerBound returns the store's own entry if there is one, else for a relation its canonical lower bound, else the empty set |
| Store.ExpressionBounds.UpperBound | src/main/java/kodkod/engine/propagating/ExpressionBounds.java:35-43 | upperBound returns the store's own entry if there is one, else for a relation its canonical upper bound, else every tuple of the expression's arity |
| Store.LookupShadows | src/main/java/kodkod/engine/propagating/ExpressionBounds.java:25-43 | a new canonical bound is read through a relation without an entry of its own, and through nothing else: the store's entry shadows it, and non-relations never see it |
| Store.UnboundIsTrivial | src/main/java/kodkod/engine/propagating/ExpressionBounds.java:25-43 | an expression bound nowhere reads empty as its lower bound and the full set of its arity as its upper bound, which admit every value of that arity |
| Store.ExpressionBounds.Bound | src/main/java/kodkod/engine/propagating/ExpressionBounds.java:45-74 | bound leaves the store exactly as BoundSpec says: null sides kept, loosening and no-op calls ignored, relations written through to Bounds, other nodes stored locally |
| Store.ExpressionBounds.Reset | src/main/java/kodkod/engine/propagating/ExpressionBounds.java:76-78 | reset clears the changed flag and nothing else |
| Store.ExpressionBounds.Changed | src/main/java/kodkod/engine/propagating/ExpressionBounds.java:80-82 | changed reports the flag |
| Store.BoundNullKeeps | src/main/java/kodkod/engine/propagating/ExpressionBounds.java:48-51 | a null side of bound leaves that side's bound where it was |
| Store.BoundRefusesLoosening | src/main/java/kodkod/engine/propagating/ExpressionBounds.java:52-59 | a lower bound with fewer tuples or an upper bound with more tuples than the current ones leaves the whole store unchanged |
| Store.BoundSameIsNoop | src/main/java/kodkod/engine/propagating/ExpressionBounds.java:60 | bound with the current bounds changes nothing, the changed flag included |
| Store.BoundAcceptsSameSizeSwap | src/main/java/kodkod/engine/propagating/ExpressionBounds.java:52-68 | a relation's lower bound replaced by a different set of the same size is accepted and sets changed |
| Store.BoundWrites | src/main/java/kodkod/engine/propagating/ExpressionBounds.java:60-72 | an accepted write of a relation goes to the canonical bounds and sets changed, leaving the local maps; an inconsistent one fails; a non-relation's write stays local and leaves changed |
| Store.BoundChangesOnlyRelations | src/main/java/kodkod/engine/propagating/ExpressionBounds.java:61-72 | only a write of a relation's bounds can set changed or alter the canonical bounds |
| Store.BoundEvolves | src/main/java/kodkod/engine/propagating/ExpressionBounds.java:45-74 | every bound call keeps the store's invariant: canonical bounds only tighten by size, stay consistent, change only with the flag set, and a failure is final |
| Store.EvolvesTransitive | src/main/java/kodkod/engine/propagating/ExpressionBounds.java:45-74 | the store's invariant composes over a sequence of bound calls |
| Upward.BinaryBoundsSound | src/main/java/kodkod/engine/propagating/UpwardExpressionBoundPropagator.java:22-68 | for every operator, whatever values within their bounds the operands take, the binary rule's lower and upper bounds hold the result |
| Upward.ConstantBoundsExact | src/main/java/kodkod/engine/propagating/UpwardExpressionBoundPropagator.java:70-92 | NONE is empty, UNIV holds exactly the atoms of the universe, IDEN exactly the loops on them, and each is bound exactly |
| Upward.NaryBoundsSound | src/main/java/kodkod/engine/propagating/UpwardExpressionBoundPropagator.java:110-152 | for a nonempty operand list, whatever values within their bounds the operands take, the n-ary rule's bounds hold the folded result |
| Upward.IfBoundsSound | src/main/java/kodkod/engine/propagating/UpwardExpressionBoundPropagator.java:100-108 | whichever branch is taken, its value lies between the conditional's bounds |
| Upward.UpFormulaEvolves | src/main/java/kodkod/engine/propagating/UpwardExpressionBoundPropagator.java:22-178 | a whole upward pass keeps the store's invariant |
| Upward.NaryOverride | src/main/java/kodkod/engine/propagating/UpwardExpressionBoundPropagator.java:120-138 | the override loop gives the pairwise left-to-right override of the operands' bounds, null when there are none |
| Semantics.ClosureMonotone | src/main/java/kodkod/engine/propagating/BoundPropagator.java:66-96 | the closure of a larger tuple set, reflexive or not, holds the closure of a smaller one |
| Semantics.UnaryMonotone | src/main/java/kodkod/engine/propagating/UpwardExpressionBoundPropagator.java:155-173 | transpose, closure and reflexive closure (`^x` plus the identity on the universe) of a larger set hold those of a smaller one |
| Upward.UnaryBoundsSound | src/main/java/kodkod/engine/propagating/UpwardExpressionBoundPropagator.java:155-173 | for any operand value within its bounds, the new lower bound lies within the result; so does the result within the new upper bound, for the reflexive closure only when the operand's upper bound touches every atom |
| Upward.ReflexiveClosureUpperMissesLoops | src/main/java/kodkod/engine/propagating/UpwardExpressionBoundPropagator.java:164-168 | over three atoms with r within {} and {(0,1)}, `*r` holds the loop (2,2) while the rule's upper bound does not |
| Upward.DeclLowerExceedsBinding | src/main/java/kodkod/engine/propagating/UpwardExpressionBoundPropagator.java:95-98 | a variable declared over a relation fixed at two tuples gets both as its lower bound, which its one-tuple binding does not hold |
| Upward.UnaryRule | src/main/java/kodkod/engine/propagating/UpwardExpressionBoundPropagator.java:159-173 | closure, reflexive closure and transpose are applied to each side of the operand's bounds |
| Upward.BinaryRule | src/main/java/kodkod/engine/propagating/UpwardExpressionBoundPropagator.java:25-66 | each binary operator's bounds are computed from the operands' bounds, joins by the loop of getJoinSet |
| Upward.NaryRule | src/main/java/kodkod/engine/propagating/UpwardExpressionBoundPropagator.java:113-150 | the folds compute each n-ary operator's bounds, null for an operator with no rule |
| Upward.VisitConstant | src/main/java/kodkod/engine/propagating/UpwardExpressionBoundPropagator.java:70-92 | the visit leaves the store as the constant's rule prescribes |
| Upward.VisitUnary | src/main/java/kodkod/engine/propagating/UpwardExpressionBoundPropagator.java:154-178 | the visit runs the default traversal, then the unary rule, as the upward walk prescribes |
| Upward.VisitBinary | src/main/java/kodkod/engine/propagating/UpwardExpressionBoundPropagator.java:22-68 | the visit runs the default traversal, then the binary rule |
| Upward.VisitNary | src/main/java/kodkod/engine/propagating/UpwardExpressionBoundPropagator.java:110-152 | the visit runs the default traversal, then the n-ary rule |
| Upward.VisitIf | src/main/java/kodkod/engine/propagating/UpwardExpressionBoundPropagator.java:100-108 | the visit runs the default traversal, then the conditional's rule |
| Upward.VisitDecl | src/main/java/kodkod/engine/propagating/UpwardExpressionBoundPropagator.java:94-98 | the variable of a declaration takes the bounds of its expression after both are visited |
| Upward.AcceptFormula | src/main/java/kodkod/engine/propagating/UpwardExpressionBoundPropagator.java:22-178 | an upward pass over a formula leaves the propagator where the upward walk prescribes, children before parents |
| DownwardRules.DifferenceRule | src/main/java/kodkod/engine/propagating/DownwardExpressionBoundPropagator.java:53-87 | the loops compute the DIFFERENCE narrowings of both operands |
| DownwardRules.DifferenceDownSound | src/main/java/kodkod/engine/propagating/DownwardExpressionBoundPropagator.java:53-87 | the left narrowings and the right upper narrowing keep every pair of operand values whose difference the parent allows |
| DownwardRules.DifferenceDownRightLowerOverreaches | src/main/java/kodkod/engine/propagating/DownwardExpressionBoundPropagator.java:53-87 | the right lower narrowing can exclude a value the parent allows: a left tuple is forced into the right operand |
| DownwardRules.IntersectionDownSound | src/main/java/kodkod/engine/propagating/DownwardExpressionBoundPropagator.java:88-101 | adding the parent's lower bound to both operands keeps every pair of values whose intersection holds it |
| DownwardRules.JoinWitnesses | src/main/java/kodkod/engine/propagating/DownwardExpressionBoundPropagator.java:111-127 | the nested loops record, for exactly the parent lower tuples that have candidates, all their candidate pairs |
| DownwardRules.DropUnkeyed | src/main/java/kodkod/engine/propagating/DownwardExpressionBoundPropagator.java:135-148 | removing the groups whose key the parent's upper bound lacks keeps exactly the tuples with an empty or a present key |
| DownwardRules.JoinRule | src/main/java/kodkod/engine/propagating/DownwardExpressionBoundPropagator.java:102-153 | the loops compute the JOIN narrowings of both operands |
| DownwardRules.JoinDownLowerSound | src/main/java/kodkod/engine/propagating/DownwardExpressionBoundPropagator.java:102-129 | the only candidate prefix (suffix) of a parent lower tuple belongs to every left (right) value whose join holds the parent's lower bound |
| DownwardRules.JoinDownUpperKeepsMatched | src/main/java/kodkod/engine/propagating/DownwardExpressionBoundPropagator.java:130-148 | a tuple that meets a partner in the other operand survives the upper narrowing when the join lies within the parent's upper bound |
| DownwardRules.JoinDownDropsUnmatched | src/main/java/kodkod/engine/propagating/DownwardExpressionBoundPropagator.java:130-148 | a left tuple without a partner is cut although the parent allows the left value |
| DownwardRules.SplitAt | src/main/java/kodkod/engine/propagating/DownwardExpressionBoundPropagator.java:167-179 | the atom loop cuts a tuple into its first n atoms and the rest |
| DownwardRules.ProductRule | src/main/java/kodkod/engine/propagating/DownwardExpressionBoundPropagator.java:158-202 | the loops compute the PRODUCT narrowings of both operands |
| DownwardRules.ProductDownLowerSound | src/main/java/kodkod/engine/propagating/DownwardExpressionBoundPropagator.java:158-179 | the prefixes and suffixes of parent lower tuples belong to every pair of operand values whose product holds them |
| DownwardRules.ProductDownUpperSound | src/main/java/kodkod/engine/propagating/DownwardExpressionBoundPropagator.java:180-198 | the upper narrowing keeps an operand value whose product with a nonempty other value lies within the parent's upper bound |
| DownwardRules.ProductDownEmptiesBeside | src/main/java/kodkod/engine/propagating/DownwardExpressionBoundPropagator.java:180-198 | with an empty other operand the upper narrowing cuts a value the parent allows |
| DownwardRules.UnionRule | src/main/java/kodkod/engine/propagating/DownwardExpressionBoundPropagator.java:203-227 | the loops compute the UNION narrowings of both operands |
| DownwardRules.UnionDownSound | src/main/java/kodkod/engine/propagating/DownwardExpressionBoundPropagator.java:203-227 | both UNION narrowings keep every pair of operand values whose union lies within the parent's bounds |
| DownwardRules.TransposeDownSound | src/main/java/kodkod/engine/propagating/DownwardExpressionBoundPropagator.java:457-463 | the transposed parent bounds keep every operand value whose transpose lies within the parent's bounds |
| DownwardRules.IfDownKeepsTaken | src/main/java/kodkod/engine/propagating/DownwardExpressionBoundPropagator.java:280-297 | the narrowing of a branch keeps its value whenever that value holds the parent's lower bound, as the taken branch does |
| DownwardRules.IfDownNarrowsUntaken | src/main/java/kodkod/engine/propagating/DownwardExpressionBoundPropagator.java:280-297 | the branch not taken is narrowed all the same, and can lose a value it may take |
| DownwardRules.ComparisonDownSound | src/main/java/kodkod/engine/propagating/DownwardExpressionBoundPropagator.java:254-278 | EQUALS keeps both sides whenever they are equal, SUBSET keeps both sides whenever the left is within the right |
| DownwardRules.MultDownSound | src/main/java/kodkod/engine/propagating/DownwardExpressionBoundPropagator.java:299-346 | for NO, ONE and SOME the bound call keeps every value the multiplicity allows |
| DownwardRules.LoneDownOverreaches | src/main/java/kodkod/engine/propagating/DownwardExpressionBoundPropagator.java:310-329 | LONE promotes a one-tuple upper bound to the lower bound, excluding the empty value LONE allows |
| DownwardRules.UnionChildRule | src/main/java/kodkod/engine/propagating/DownwardExpressionBoundPropagator.java:403-413 | the loop over an operand's cut upper bound adds exactly the singletons in it to the lower bound |
| DownwardRules.UnionOfMembers | src/main/java/kodkod/engine/propagating/DownwardExpressionBoundPropagator.java:392-414 | the union of n operands holds exactly the tuples of some operand |
| DownwardRules.UnionChildDownSound | src/main/java/kodkod/engine/propagating/DownwardExpressionBoundPropagator.java:392-414 | each operand's n-ary UNION narrowing keeps its value whenever the union lies within the parent's bounds |
| Downward.IntersectionChildDownSound | src/main/java/kodkod/engine/propagating/DownwardExpressionBoundPropagator.java:353-364 | each operand's n-ary INTERSECTION narrowing, its lower bound plus the parent's, keeps its value whenever the intersection of the values holds the parent's lower bound |
| DownwardRules.Split | src/main/java/kodkod/engine/propagating/DownwardExpressionBoundPropagator.java:31-47 | split cuts every tuple into consecutive parts of the operands' arities |
| DownwardRules.NaryProductParts | src/main/java/kodkod/engine/propagating/DownwardExpressionBoundPropagator.java:31-47 | each part of a tuple of an n-ary product is a tuple of its operand |
| DownwardRules.ProductChildDownLowerSound | src/main/java/kodkod/engine/propagating/DownwardExpressionBoundPropagator.java:369-391 | each operand's lower split of the parent's lower bound belongs to its value whenever the product holds the parent's lower bound |
| Downward.DownFormulaEvolves | src/main/java/kodkod/engine/propagating/DownwardExpressionBoundPropagator.java:49-468 | a whole downward pass keeps the store's invariant |
| Downward.BinaryRule | src/main/java/kodkod/engine/propagating/DownwardExpressionBoundPropagator.java:51-231 | each binary operator's narrowings are computed by its loops; OVERRIDE has none |
| Downward.NaryChildRule | src/main/java/kodkod/engine/propagating/DownwardExpressionBoundPropagator.java:353-414 | one operand's n-ary narrowing by the operator's rule |
| Downward.NarrowOperands | src/main/java/kodkod/engine/propagating/DownwardExpressionBoundPropagator.java:349-417 | the operand loop narrows each operand in turn from the parent's bounds read once before it |
| Downward.VisitUnary | src/main/java/kodkod/engine/propagating/DownwardExpressionBoundPropagator.java:446-468 | a transpose gives its operand the transpose of its own bounds, then the traversal goes on |
| Downward.VisitBinary | src/main/java/kodkod/engine/propagating/DownwardExpressionBoundPropagator.java:49-233 | both operands' narrowings are computed, bound left first, then the traversal goes on |
| Downward.VisitNary | src/main/java/kodkod/engine/propagating/DownwardExpressionBoundPropagator.java:348-419 | INTERSECTION, PRODUCT and UNION narrow their operands, then the traversal goes on |
| Downward.VisitIf | src/main/java/kodkod/engine/propagating/DownwardExpressionBoundPropagator.java:280-297 | both branches gain the parent's lower bound, then the traversal goes on |
| Downward.VisitComparison | src/main/java/kodkod/engine/propagating/DownwardExpressionBoundPropagator.java:254-278 | EQUALS binds both sides to the same narrowing, SUBSET the right lower then the left upper |
| Downward.VisitMultiplicity | src/main/java/kodkod/engine/propagating/DownwardExpressionBoundPropagator.java:299-346 | the multiplicity's bound call, if any, then the traversal goes on |
| Downward.AcceptFormula | src/main/java/kodkod/engine/propagating/DownwardExpressionBoundPropagator.java:235-252 | conjunctions and quantifiers pass the traversal on, other connectives and negations stop it, as the downward walk prescribes |
| Driver.PropagateOnce | src/main/java/kodkod/examples/propagating/ListCheck.java:66-72 | one round leaves the canonical bounds as one upward then one downward pass over a fresh store prescribe, and reports changed and failure |
| Driver.Propagate | src/main/java/kodkod/examples/propagating/PropagationDemo.java:29-37 | the loop ends as the round-by-round run with the same budget does, with its bounds |
| Driver.PassTightens | src/main/java/kodkod/examples/propagating/ListCheck.java:66-72 | one round only tightens the canonical bounds by size, keeps consistent bounds consistent, and reports no change only when it left them as they were |
| Driver.RunTightens | src/main/java/kodkod/examples/propagating/ListCheck.java:65-73 | however the loop ends, its bounds are tighter than the ones it started from, and consistent bounds stay consistent |
| Driver.ConvergedIsFixpoint | src/main/java/kodkod/examples/propagating/ListCheck.java:65-73 | when the loop converges its bounds are a fixpoint: one more round neither changes nor fails |
| UpwardScenarios.TransposeScenario | src/test/java/kodkod/test/propagating/UpwardPropagationTests.java:18-35 | with r between {ab, bc} and {ab, bc, cd}, the transpose is bounded by {ba, cb} and {ba, cb, dc} |
| UpwardScenarios.LineClosure | src/test/java/kodkod/test/propagating/UpwardPropagationTests.java:38-81 | the closure of the line 0 -> 1 -> .. -> n holds exactly the pairs (a, b) with a < b <= n, and when reflexive also the loops on 0 .. n |
| UpwardScenarios.ClosureScenario | src/test/java/kodkod/test/propagating/UpwardPropagationTests.java:38-57 | with r between {ab, bc} and {ab, bc, cd}, ^r is bounded by {ab, bc, ac} and {ab, bc, cd, ac, ad, bd} |
| UpwardScenarios.ReflexiveClosureScenario | src/test/java/kodkod/test/propagating/UpwardPropagationTests.java:60-81 | with the same r, *r is bounded by {ab, bc, ac, aa, bb, cc} and {ab, bc, cd, ac, ad, bd, aa, bb, cc, dd} |
| UpwardScenarios.UnionScenario | src/test/java/kodkod/test/propagating/UpwardPropagationTests.java:84-109 | with r1 between {ab} and {ab, bc} and r2 between {aa, ab} and {aa, ab, bb, bc}, r1 + r2 is bounded by {aa, ab} and {aa, ab, bb, bc} |
| UpwardScenarios.IntersectionScenario | src/test/java/kodkod/test/propagating/UpwardPropagationTests.java:112-134 | with the same r1 and r2, r1 & r2 is bounded by {ab} and {ab, bc} |
| UpwardScenarios.DifferenceScenario | src/test/java/kodkod/test/propagating/UpwardPropagationTests.java:137-157 | with r1 as above and r2 between {aa, ab} and {aa, ab, bb}, r1 - r2 is bounded by the empty set and {bc} |
| UpwardScenarios.ProductScenario | src/test/java/kodkod/test/propagating/UpwardPropagationTests.java:160-189 | with r1 and r2 as in the union scenario, r1 -> r2 is bounded by {abaa, abab} and the eight upper tuples of r1 each followed by each upper tuple of r2 |
| UpwardScenarios.OverrideScenario | src/test/java/kodkod/test/propagating/UpwardPropagationTests.java:192-228 | with r1 between {ab, cc, bd} and {ab, bc, bd, cc} and r2 between {ac} and {ac, bb}, r1 ++ r2 is bounded by {ac, cc} and {ac, bb, bc, bd, cc} |
| UpwardScenarios.JoinScenario | src/test/java/kodkod/test/propagating/UpwardPropagationTests.java:231-267 | with r1 between {aa, ab, cc, bd} and {aa, ab, bc, bd, cb, cc} and r2 between {ac} and {ac, bb}, r1 . r2 is bounded by {ac} and {ab, ac, cb} |

## Left out

- **The solver call and everything around it in the examples.** This covers
  `solver.solve` after the loop, the formulas and bounds they build, and their
  printing. These are I/O and the SAT backend; only the loop is modelled.
- **The `System.err` diagnostics of `bound`.** They are logging only.
- **A `Bounds.bound` that throws.** Kodkod's `Bounds.bound` throws when a lower
  bound is not within its upper bound. The model sets a sticky `failed` flag
  instead: later calls change nothing, and the driver stops with `Failed`.
- **Arity and universe checks on tuples.** Tuple sets carry no arity, and the
  algebra is total on ill-typed tuples: it reads only the atoms a tuple has,
  where Kodkod would throw. The lemmas that need arities take them as
  hypotheses.
- **The list and collector types of `firsts`, `subsequence` and the JOIN
  prefix and suffix lists.** These are modelled as sets and maps. The JOIN
  lists become one map from a parent tuple to its candidate pairs; a list's
  size is the number of pairs.
- **Aliasing in n-ary OVERRIDE.** In the Java, `lowers` and `uppers` start as
  the first operand's stored set, not a copy, and are then changed in place,
  so the store's entry for that operand changes too. When the first operand
  is a relation with no entry of its own in the store, the set is the one
  `Bounds` hands out for that relation (UpwardExpressionBoundPropagator.java:120-135
  reading ExpressionBounds.java:28 and 38). `Bounds` is not part of this
  model: that set is changed in place, or the call throws if `Bounds` hands
  out a read-only view. The model folds values and leaves every stored set
  as it was.
- **The INTS constant's own case.** It is commented out in the source; INTS
  falls to the default case, which bounds it between empty and full.
- **Nodes other than those listed above.** This covers Kodkod's other
  expression and formula kinds (integer expressions, comprehensions, the
  temporal operators) and the `Decls` container's own node. They fall to the
  default traversal, which is not shown, and are not part of this model.
- **The traversal of `AbstractVoidVisitor` itself.** It is not shown; the model
  states the traversal it is documented to perform (visited check, then
  children in order).
- **Termination of the Java loop.** Nothing bounds the number of rounds:
  `bound` accepts a same-size swap of tuples. `Driver.Propagate` takes a round
  budget `fuel` and ends with `OutOfFuel` when it is spent.
- **The test scenarios' store and visit.** `UpwardScenarios` states each
  test's expected bounds on the upward rule (`Upward.UnaryBounds`,
  `Upward.BinaryBounds`). How the rule's result reaches the store in a pass
  is stated once for all inputs, by the visitor methods' contracts and
  `Store.BoundSpec`, rather than again for each scenario.
- **Soundness of propagation as a whole.** This is not claimed, because several
  rules, upward and downward, give bounds the semantics does not allow (see
  above).
- Upward.UnaryBoundsSound: the upper half is stated for the reflexive closure
  only when every atom of the universe occurs in a pair of the operand's upper
  bound, because otherwise it is refuted by
  `Upward.ReflexiveClosureUpperMissesLoops`.
- Upward.NaryBoundsSound: stated for a nonempty operand list and for the four
  operators that have a rule. With no operands the rule returns null and
  leaves the bounds as they were.
- DownwardRules.JoinDownUpperKeepsMatched: states only that tuples with a
  partner survive, because tuples without one may be cut wrongly
  (`DownwardRules.JoinDownDropsUnmatched`).
- DownwardRules.ProductDownUpperSound: holds only when the other operand is
  nonempty (`DownwardRules.ProductDownEmptiesBeside`).
- DownwardRules.ProductChildDownLowerSound: covers the lower narrowing of
  n-ary PRODUCT. The upper narrowing of n-ary PRODUCT fails in the same way as
  the binary one, and no lemma is stated for it.
- DownwardRules.DifferenceDownSound: covers the left narrowings and the right
  upper narrowing only; the right lower narrowing is refuted by
  `DownwardRules.DifferenceDownRightLowerOverreaches`.
- DownwardRules.MultDownSound: excludes LONE, which is refuted by
  `DownwardRules.LoneDownOverreaches`.
- TransitiveClosure.RoundAsWritten: models the code as written for one round,
  which is as far as the counterexample needs. The rest of the model uses the
  corrected `TransitiveClosure.GetClosureSet`.

## Findings

| source | as written | input that shows it | evidently intended | confidence | as-written member | corrected member |
|---|---|---|---|---|---|---|
| src/main/java/kodkod/engine/propagating/BoundPropagator.java:82-90 | each new pair `s = (t.0, r.1)` is appended to `firsts[t.0]` while that loop iterates `firsts[t.1]`. For a loop pair `t = (a, a)` the two lists are the same `ArrayList`, so the iterator's next step throws `ConcurrentModificationException` | REFLEXIVE_CLOSURE (`*r`, reached from `UpwardExpressionBoundPropagator.java:164-168`) over r = {(1,0), (0,2)}, tuples iterated in index order. The seed is {(0,0), (0,2), (1,0), (1,1), (2,2)}. At (1,0), (1,2) is filed under 1. At (1,1), (1,2) is met again in the list being iterated, is still not in retval, and is appended to that same list | the reflexive transitive closure, {(0,0), (0,2), (1,0), (1,1), (1,2), (2,2)} | not executed | TransitiveClosure.ReflexiveChainThrows | TransitiveClosure.GetClosureSet |
