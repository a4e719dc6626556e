# EUSolver core, modelled in Dafny

EUSolver is an enumerative solver for syntax-guided synthesis. It enumerates
terms and predicates by size. It keeps the terms whose *signature* (the set of
counterexample points at which a term meets the specification) adds something
new. It then unifies them under a decision tree over predicates. This project
models the parts of it that can be checked from their text:

- `bitset_engine.dfy` (`BitSetEngine`): the BitSet engine the C interface
  forwards to. The engine's own sources are not part of this model. A BitSet
  is stated abstractly as a universe size and a set of naturals below it, and
  each engine call yields either its value or the text of the exception it
  throws.
- `bitset_capi.dfy` (`BitSetCApi`): the C interface of libeusolver. It models
  the process-wide error slot, which every checked entry clears and an
  exception overwrites, and the shared output buffer of `to_string`. It
  models the handles of live objects and the sentinel (`nullptr`, `false`,
  `0`) of every entry whose engine call can throw: construction, the
  comparisons, the single-bit operations, the functional and two-operand
  in-place operations, the scans, `to_string` and `clone`.
- `synth_exprs.dfy` (`SynthExprs`): the expressions the solver builds through
  its synthesis context (`and`, `not`, `ite`, `is1`, `if0` over opaque atoms),
  with their truth and selection semantics under a valuation of the atoms.
- `solvers.dfy` (`Solvers`): solution assembly and bookkeeping:
  - decision tree to guarded-term list and to nested `ite`;
  - guarded-term list to nested `ite`;
  - the evaluation memo and the duplicate-free point store;
  - the term solver's covering loop;
  - the unifier's trivial unification and predicate filter.
- `enumerators.py`'s size-indexed generators (`enumerators.dfy`,
  `Enumerators`): leaf, functional and alternatives generators, the cartesian
  product, placeholders and the recursive generator factory.
- `sample_sufficiency.dfy` (`SampleSufficiency`): guard building and
  evaluation, the `if0` cascade over a predicate/term mapping, consistency of
  partial assignments, subset × assignment enumeration, and the list
  bookkeeping of the sampling loops.
- `exprs.dfy` (`Exprs`): the expression manager (variable interning,
  first-match function instantiation, constants) and rendering to text.

Evaluation of an expression at a point, the SMT checks, the decision-tree
learner and `utils.partitions` are parameters of the model: function-typed
inputs whose results the model does not fix.

## Model

| member | source | states |
|---|---|---|
| BitSetEngine.NextFrom | thirdparty/libeusolver/src/BitSetCAPI.cpp:283-297 | the result is -1 or a member at or after the position, and no member lies between the position and it |
| BitSetEngine.PrevFrom | thirdparty/libeusolver/src/BitSetCAPI.cpp:299-313 | the result is -1 or a member at or before the position, and no member lies between it and the position |
| BitSetEngine.ScanFrom | thirdparty/libeusolver/src/BitSetCAPI.cpp:283-313 | the four directional scans, or a range error for a position outside the universe; the contracts of `NextFrom` and `PrevFrom` state what each direction answers, and `CApi.Scan` states the interface over it |
| BitSetEngine.Render | thirdparty/libeusolver/src/BitSetCAPI.cpp:323-330 | one character per universe element, and character i is '1' exactly when i is a member |
| BitSetCApi.ScanSentinelIsAmbiguous | thirdparty/libeusolver/src/BitSetCAPI.cpp:283-313 | a scan's 0 is returned both by a scan that finds element 0 and by a scan that throws |
| BitSetCApi.NotEqualIsTrueOnFailure | thirdparty/libeusolver/src/BitSetCAPI.cpp:88-91 | when the engine throws on sets of different universes, `not_equal` answers true |
| BitSetCApi.CApi.constructor | thirdparty/libeusolver/src/BitSetCAPI.cpp:42-43 | both static strings start empty and no object is live |
| BitSetCApi.CApi.Construct | thirdparty/libeusolver/src/BitSetCAPI.cpp:65-71 | a fresh non-null handle to the engine's set, or nullptr with the exception text in the error slot |
| BitSetCApi.CApi.Destroy | thirdparty/libeusolver/src/BitSetCAPI.cpp:73-78 | the handle is no longer live, deleting nullptr changes nothing, and the error slot is cleared |
| BitSetCApi.CApi.Equal | thirdparty/libeusolver/src/BitSetCAPI.cpp:80-86 | the engine's equality, or false with the error reported; no object changes |
| BitSetCApi.CApi.NotEqual | thirdparty/libeusolver/src/BitSetCAPI.cpp:88-91 | the negation of `equal`'s checked answer, so true with the error flag set when the engine throws |
| BitSetCApi.CApi.Compare | thirdparty/libeusolver/src/BitSetCAPI.cpp:93-123 | the engine's `<`, `<=`, `>`, `>=` on (bitset1, bitset2), or false with the error reported |
| BitSetCApi.CApi.SetBit | thirdparty/libeusolver/src/BitSetCAPI.cpp:125-130 | the receiver gains the element, or it stays unchanged and the range error is reported |
| BitSetCApi.CApi.ClearBit | thirdparty/libeusolver/src/BitSetCAPI.cpp:132-137 | the receiver loses the element, or it stays unchanged and the range error is reported |
| BitSetCApi.CApi.FlipBit | thirdparty/libeusolver/src/BitSetCAPI.cpp:139-145 | the element is flipped and its new membership is returned, or false on a range error |
| BitSetCApi.CApi.TestBit | thirdparty/libeusolver/src/BitSetCAPI.cpp:147-153 | the element's membership, or false with the error reported |
| BitSetCApi.CApi.Bulk | thirdparty/libeusolver/src/BitSetCAPI.cpp:155-174 | `set_all` leaves the set full, `clear_all` empty, and `flip_all` gives its complement within the universe |
| BitSetCApi.CApi.GetSizeOfUniverse | thirdparty/libeusolver/src/BitSetCAPI.cpp:176-182 | the universe size, with the error slot clear |
| BitSetCApi.CApi.GetLength | thirdparty/libeusolver/src/BitSetCAPI.cpp:184-190 | the number of members, with the error slot clear |
| BitSetCApi.CApi.IsFull | thirdparty/libeusolver/src/BitSetCAPI.cpp:192-198 | true exactly when every element of the universe is a member |
| BitSetCApi.CApi.IsEmpty | thirdparty/libeusolver/src/BitSetCAPI.cpp:200-206 | true exactly when there is no member |
| BitSetCApi.CApi.Functional | thirdparty/libeusolver/src/BitSetCAPI.cpp:208-238 | a fresh handle to the intersection, union, symmetric difference or difference, or nullptr with the error reported and no object changed |
| BitSetCApi.CApi.NegateFunctional | thirdparty/libeusolver/src/BitSetCAPI.cpp:240-246 | a fresh handle to the complement, or nullptr with the error reported |
| BitSetCApi.CApi.InPlace | thirdparty/libeusolver/src/BitSetCAPI.cpp:248-274 | the first handle receives the operation's result with the second as argument, or nothing changes and the error is reported |
| BitSetCApi.CApi.InPlaceNegate | thirdparty/libeusolver/src/BitSetCAPI.cpp:276-281 | the receiver becomes its complement within the universe |
| BitSetCApi.CApi.Scan | thirdparty/libeusolver/src/BitSetCAPI.cpp:283-313 | the engine's scan answer, or 0 with the error reported |
| BitSetCApi.CApi.GetHash | thirdparty/libeusolver/src/BitSetCAPI.cpp:315-321 | the engine's hash of the set, with the error slot clear |
| BitSetCApi.CApi.ToString | thirdparty/libeusolver/src/BitSetCAPI.cpp:323-330 | the rendering is stored in the shared output buffer and a pointer to it is returned, or nullptr with the buffer unchanged |
| BitSetCApi.CApi.Clone | thirdparty/libeusolver/src/BitSetCAPI.cpp:332-338 | a fresh handle to an equal set, or nullptr with the error reported |
| BitSetCApi.CApi.CheckError | thirdparty/libeusolver/src/BitSetCAPI.cpp:340-343 | true exactly when the error slot is non-empty |
| BitSetCApi.CApi.GetLastErrorString | thirdparty/libeusolver/src/BitSetCAPI.cpp:345-352 | non-null exactly when an error is stored, and then it points to the stored text |
| BitSetCApi.SharedOutputBuffer | thirdparty/libeusolver/src/BitSetCAPI.cpp:323-330 | after two `to_string` calls, both pointers read the second set's rendering |
| BitSetCApi.ErrorFlagAfterTestBit | thirdparty/libeusolver/src/BitSetCAPI.cpp:45-53 | after an entry that returned, no error string is available; after one that threw, the error string is the exception's text |
| Solvers.DecisionTreeToExprSelects | src/solvers.py:111-120 | under every valuation, the `ite` built from the tree selects the term of the leaf that classification reaches |
| Solvers.DecisionTreeToExpr | src/solvers.py:111-120 | the nested `ite` of a decision tree, predicates at inner nodes and `term_list[label]` at leaves; `DecisionTreeToExprSelects` states what it selects and `GuardTermRouteAgrees` ties it to the guarded-term route |
| Solvers.GuardTermsShape | src/solvers.py:92-109 | one pair per leaf, positive subtree first, carrying `term_list[label]`; each guard is an `and` that starts with the stack's guards |
| Solvers.GuardTermsPartition | src/solvers.py:92-109 | the k-th guard holds exactly when the stack's guards hold and k is the leaf classification reaches |
| Solvers.GuardTerms | src/solvers.py:92-109 | the guarded-term pairs of a subtree under a guard stack; `GuardTermsShape` and `GuardTermsPartition` carry its contract |
| Solvers.GuardTermBuilder.constructor | src/solvers.py:122-126 | the walk starts with no pairs and an empty guard stack |
| Solvers.GuardTermBuilder.Walk | src/solvers.py:92-109 | appends the subtree's pairs to `retval` and restores `guard_stack` to its entry contents |
| Solvers.DecisionTreeToGuardTermList | src/solvers.py:122-126 | the guarded-term list of the whole tree from an empty stack |
| Solvers.FirstHolding | src/solvers.py:128-134 | the pair a nested `ite` picks: no earlier guard holds, and its own guard holds unless it is the last pair |
| Solvers.NestSelects | src/solvers.py:128-134 | the nested `ite` evaluates to the term of the first of pairs 0..n-2 whose guard holds, else to the last term |
| Solvers.Nest | src/solvers.py:128-134 | the right-nested `ite` over a non-empty guarded-term list; `NestSelects` and `LastGuardUnused` carry its contract |
| Solvers.LastGuardUnused | src/solvers.py:128-134 | replacing the last pair's guard does not change the expression |
| Solvers.GuardTermListToExpr | src/solvers.py:128-134 | an empty list raises; otherwise the result is the nested `ite` over guards 0..n-2 with the last term as the final else |
| Solvers.GuardTermRouteAgrees | src/solvers.py:136-144 | the commented-out route (guarded-term list, then `ite`) selects the same term as `decision_tree_to_expr` under every valuation |
| Solvers.Memo.constructor | src/solvers.py:60-61 | the evaluation dictionaries start empty |
| Solvers.Memo.CachedEvaluate | src/solvers.py:63-69 | a stored key answers from the table without calling the factory; a missing key calls it once and stores its result |
| Solvers.CachedTwice | src/solvers.py:63-69 | two lookups of one key return the same value and call a factory at most once |
| Solvers.Solver.constructor | src/solvers.py:408-411 | the point store starts empty and duplicate-free |
| Solvers.Solver.Reset | src/solvers.py:413-418 | forgets every point |
| Solvers.Solver.AddPoint | src/solvers.py:420-424 | a present point raises and changes nothing; a new one is appended to `points` and added to `point_set`, which stays the set of `points` |
| Solvers.SignatureMembers | src/solvers.py:183-208 | a signature holds exactly the indices of the points at which the term meets the specification |
| Solvers.ComputeSignature | src/solvers.py:204-208 | the loop over the points computes that signature |
| Solvers.CollectSnoc | src/solvers.py:229-237 | offering one more term records it under its signature unless that signature is skipped or already a key |
| Solvers.CollectFacts | src/solvers.py:229-237 | the dictionary only grows, every key is its term's non-skipped signature, keys are distinct, and every non-skipped signature offered is a key |
| Solvers.Collect | src/solvers.py:229-237 | the signature-keyed dictionary after offering a sequence of terms; `CollectSnoc`, `CollectFacts` and `CollectCovers` carry its contract |
| Solvers.CollectCovers | src/solvers.py:234-239 | the union of the recorded signatures is the union of all offered terms' signatures |
| Solvers.CoveredWithinFull | src/solvers.py:239-240 | the union of signatures never exceeds the full set of point indices |
| Solvers.TermSolver.constructor | src/solvers.py:157-163 | keeps the specification, the generator and the maximum size, with no points |
| Solvers.TermSolver.AddPoint | src/solvers.py:180-181 | appends the point without a duplicate check |
| Solvers.TermSolver.TrivialSolve | src/solvers.py:165-178 | `{None: first term}` for the smallest size that yields a term, or None when no size up to the maximum yields one |
| Solvers.TermSolver.Solve | src/solvers.py:213-246 | with no points the trivial answer; otherwise None exactly when all terms up to the maximum size leave a point uncovered, and else the dictionary of the shortest enumeration prefix whose signatures cover every point |
| Solvers.OfferStep | src/solvers.py:229-242 | one term's effect: the covered set grows by its signature, and it is recorded unless its signature is empty or seen |
| Solvers.OfferTerms | src/solvers.py:229-243 | the inner `for` loop over one size either leaves the points uncovered or stops at the first term that covers them all |
| Solvers.SolveReturnStep | src/solvers.py:240-242 | returning inside size s at term j returns the first covering prefix of the whole enumeration |
| Solvers.TryTrivialUnification | src/solvers.py:313-326 | None exactly when no entry is trivial (signature None or full); otherwise the verifier's verdict on the first trivial entry's term |
| Solvers.AdmitPredicates | src/solvers.py:367-381 | the unifier's inner loop records predicates by signature, skipping empty, full and seen signatures, and reports whether any was added |
| Solvers.AdmittedPredicatesSplit | src/solvers.py:376-381 | every recorded predicate signature is neither empty nor full, the keys are distinct, and every splitting predicate's signature is a key |
| Enumerators.SetSize | src/enumerators.py:179-183 | after `set_size(n)` every reached size is n, placeholders are instantiated exactly when n > 0, and the generator is ready to generate |
| Enumerators.SetSizes | src/enumerators.py:145-150 | sub-generator i is sized to `partition[i]` and is ready |
| Enumerators.FilterMembers | src/enumerators.py:110-114 | the validator keeps exactly the accepted objects |
| Enumerators.FilterAllAccepted | src/enumerators.py:62-67 | with the default validator, which accepts everything, the output is unfiltered |
| Enumerators.LeafOutputs | src/enumerators.py:105-114 | nothing unless the size is 1; then exactly the accepted leaf objects, and all of them in list order when all are accepted |
| Enumerators.ExtendLength | src/enumerators.py:57-60 | one step of the product has |first| × |rest| tuples |
| Enumerators.ExtendAt | src/enumerators.py:57-60 | tuple i·|first| + j is `first[j]` in front of `rest[i]` |
| Enumerators.ExtendMembers | src/enumerators.py:57-60 | a tuple is produced exactly when its head comes from the first generator and its tail from the rest |
| Enumerators.ProductMembers | src/enumerators.py:49-60 | the product's tuples are exactly those with one element per generator, element i drawn from generator i |
| Enumerators.Product | src/enumerators.py:49-60 | the recursive cartesian product of the generators' outputs; `ProductMembers`, `ProductCount` and `ProductOrder` carry its contract |
| Enumerators.ProductCount | src/enumerators.py:49-60 | the product has as many tuples as the generators' output counts multiplied |
| Enumerators.ProductOrder | src/enumerators.py:57-60 | the element of `generators[0]` varies fastest |
| Enumerators.ApplyMembers | src/enumerators.py:160 | each tuple becomes the descriptor applied to it |
| Enumerators.FunctionalOverMembers | src/enumerators.py:157-162 | the partition loop yields exactly the accepted applications of the descriptor to a product tuple of the sub-generators sized by some partition |
| Enumerators.FunctionalOver | src/enumerators.py:157-162 | the partition loop of a functional generator; `FunctionalOverMembers` carries its contract |
| Enumerators.ProductOfSized | src/enumerators.py:157-159 | under a partition, child i is an output of sub-generator i at size `partition[i]` |
| Enumerators.FunctionalOverNoSubs | src/enumerators.py:134 | with no sub-generators, which the constructor excludes, nothing is yielded |
| Enumerators.FunctionalOutputs | src/enumerators.py:152-162 | nothing when `size - 1 < arity`; otherwise exactly the accepted applications with arity children, child i from sub-generator i sized by a partition of `size - 1` |
| Enumerators.GenerateAllIsFlatten | src/enumerators.py:185-187 | a list of generators yields their outputs one after another |
| Enumerators.AlternativesOutputs | src/enumerators.py:179-187 | `set_size(n)` then `generate` is the in-order concatenation of the alternatives sized to n |
| Enumerators.PlaceholderOutputs | src/enumerators.py:208-219 | a placeholder sized to n ≤ 0 yields nothing; sized to n > 0 it yields what a fresh generator from its factory yields at n |
| Enumerators.Generate | src/enumerators.py:105-219 | every `generate` (leaf, functional, alternatives, placeholder); `LeafOutputs`, `FunctionalOutputs`, `AlternativesOutputs`, `PlaceholderOutputs` and `OutputsHaveSize` carry its contract |
| Enumerators.GenerateAllMembers | src/enumerators.py:185-187 | an object is yielded exactly when some alternative yields it |
| Enumerators.SizedOutputs | src/enumerators.py:152-162 | once a generator has been sized to n, every object it yields has size n |
| Enumerators.SizedFunctionalOutputs | src/enumerators.py:152-162 | a functional generator of size n yields only objects of size n |
| Enumerators.SizedAlternativesOutputs | src/enumerators.py:185-187 | alternatives sized to n yield only objects of size n |
| Enumerators.OutputsHaveSize | src/enumerators.py:142-162 | `set_size(n)` followed by `generate` yields only objects of size n |
| Enumerators.NewFunctional | src/enumerators.py:132-140 | an `AssertionError` exactly when there is no sub-generator |
| Enumerators.NewAlternatives | src/enumerators.py:174-177 | an `AssertionError` exactly when there is at most one alternative |
| Enumerators.CloneIdempotent | src/enumerators.py:119-120 | cloning a clone gives the same clone |
| Enumerators.CloneResolved | src/enumerators.py:221-222 | a clone's placeholders still name registered factories |
| Enumerators.ProductCongruent | src/enumerators.py:49-60 | the product depends only on what each generator yields |
| Enumerators.GenerateAllCongruent | src/enumerators.py:185-187 | concatenated outputs depend only on what each generator yields |
| Enumerators.FunctionalOverCongruent | src/enumerators.py:157-162 | the partition loop depends only on what the sub-generators yield at each size |
| Enumerators.CloneGenerates | src/enumerators.py:164-167 | at every size a clone yields exactly what the original yields |
| Enumerators.Clone | src/enumerators.py:119-222 | every `clone`; `CloneIdempotent`, `CloneResolved` and `CloneGenerates` carry its contract |
| Enumerators.GenerateFunctional | src/enumerators.py:152-157 | a functional generator yields the partition loop over `partitions(size - 1, arity)`, or nothing when the size is too small |
| Enumerators.FunctionalCongruent | src/enumerators.py:152-162 | functional generators whose sub-generators yield the same at every size yield the same |
| Enumerators.CloneAlternativesStep | src/enumerators.py:189-191 | cloning alternatives yields the same as the original when each alternative's clone does |
| Enumerators.NewFunctionalGenerates | src/enumerators.py:138 | cloning the sub-generators in the constructor does not change what is generated |
| Enumerators.NewAlternativesGenerates | src/enumerators.py:177 | cloning the alternatives in the constructor does not change what is generated |
| Enumerators.GeneratorFactory.constructor | src/enumerators.py:232-234 | no placeholder and no registered factory |
| Enumerators.GeneratorFactory.MakePlaceholder | src/enumerators.py:236-241 | an identifier already used raises `ArgumentError`; a new one is registered and its placeholder returned |
| Enumerators.GeneratorFactory.MakeGenerator | src/enumerators.py:243-246 | records the factory under the name and returns that name's placeholder, or raises `KeyError` when there is none |
| Enumerators.GeneratorFactory.Instantiate | src/enumerators.py:248-251 | what the factory registered for the identifier builds, or `KeyError` when none is registered |
| Enumerators.PlaceholderInstantiates | src/enumerators.py:208-213 | sizing a factory's placeholder to n > 0 instantiates it with its factory's generator sized to n; sizing it to n ≤ 0 drops it |
| Exprs.InternKeepsInterned | src/exprs.py:85-100 | interning keeps the ids distinct and in 1..next-1, with `next_var_id` one more than the number of names |
| Exprs.InternGrows | src/exprs.py:95-100 | the map only grows, no id changes, and a new name gets an id no other name has |
| Exprs.InternStable | src/exprs.py:95-101 | interning the same name again returns the same id and changes nothing |
| Exprs.Intern | src/exprs.py:95-101 | the variable interning step of `make_variable_expr`; `InternKeepsInterned`, `InternGrows`, `InternStable` and `InternDistinguishes` carry its contract |
| Exprs.InternDistinguishes | src/exprs.py:95-101 | two different names get different ids |
| Exprs.ExprManager.constructor | src/exprs.py:85-88 | keeps the instantiators, an empty variables map and next id 1 |
| Exprs.ExprManager.MakeVariableExpr | src/exprs.py:90-101 | the variable expression carries the interned id of the name, and the manager's invariant is kept |
| Exprs.ExprManager.MakeFunctionExpr | src/exprs.py:110-124 | the intended `ArgumentError` (the name is not imported) exactly when every instantiator returns None; otherwise the first instance, applied to the children unchanged |
| Exprs.ExprManager.MakeConstantExpr | src/exprs.py:103-108 | a constant with the given type and value unchanged |
| Exprs.ExprManager.MakeTrueExpr | src/exprs.py:126-129 | the Boolean constant that renders as `True` |
| Exprs.ExprManager.MakeFalseExprAsWritten | src/exprs.py:131-134 | the code as written builds the same constant `True` as `make_true_expr` |
| Exprs.ExprManager.MakeFalseExpr | src/exprs.py:131-134 | the Boolean constant `False` the docstring promises, different from `make_true_expr`'s |
| Exprs.FirstInstanceMeaning | src/exprs.py:112-116 | the first instance is None exactly when all instantiators return None, and otherwise is the answer of the first that does not |
| Exprs.ConstantToStringAgrees | src/exprs.py:136-148 | the written conversion raises exactly on bit-vector widths divisible by 4 and agrees with the intended one elsewhere |
| Exprs.ConstantToStringAsWritten | src/exprs.py:136-148 | the conversion as written, with the hex branch raising `TypeError`; `ConstantToStringAgrees` and `HexBranchRaises` carry its contract |
| Exprs.HexBranchRaises | src/exprs.py:142-144 | a 4-bit constant 10: the written conversion raises `TypeError`, the intended one gives `#xA` |
| Exprs.DigitsRoundTrip | src/exprs.py:146-148 | the digits of a number in a base read back as the number |
| Exprs.IntToStringRoundTrip | src/exprs.py:137-139 | `str` of an integer reads back as the same integer |
| Exprs.BitVectorConstantRoundTrip | src/exprs.py:141-148 | a bit-vector constant renders as `#b` (or `#x`) and zero-padded digits that read back as the value; a value that fits takes exactly the width |
| Exprs.ConstantToString | src/exprs.py:136-148 | the intended conversion; `IntToStringRoundTrip` and `BitVectorConstantRoundTrip` carry its contract |
| Exprs.ExpressionToString | src/exprs.py:151-164 | the loop builds `(`, the name, a space, each child's rendering followed by a space, and `)` |
| Exprs.RenderBalanced | src/exprs.py:158-164 | with parenthesis-free names every rendering has as many `(` as `)` |
| Exprs.Render | src/exprs.py:151-164 | the parenthesised prefix rendering; `ExpressionToString` is proved equal to it and `RenderBalanced` states its balance |
| SampleSufficiency.PredValuationListToPred | src/sample_sufficiency.py:55-69 | `true` for no pair, the literal for one, one `and` over the literals in order for more |
| SampleSufficiency.LiteralTruth | src/sample_sufficiency.py:60-64 | `is1(p)` holds when p is 1 and `not(is1(p))` when it is not |
| SampleSufficiency.GuardTruth | src/sample_sufficiency.py:55-69 | the guard holds exactly at the points that satisfy the valuation |
| SampleSufficiency.EvalPredList | src/sample_sufficiency.py:47-53 | true exactly when every predicate's being 1 agrees with its truth value, and exactly when the guard holds |
| SampleSufficiency.FilterButShrinks | src/sample_sufficiency.py:122-123 | `_filter_but` never grows a path, and shrinks one that mentions the predicate |
| SampleSufficiency.SplitShrinks | src/sample_sufficiency.py:129-130 | each branch's mapping is smaller, so the recursion ends |
| SampleSufficiency.FilterButAbsent | src/sample_sufficiency.py:122-123 | a path that does not mention the predicate is kept whole |
| SampleSufficiency.SplitAppend | src/sample_sufficiency.py:129-130 | splitting a concatenation splits each part |
| SampleSufficiency.SplitPrefix | src/sample_sufficiency.py:129-130 | splitting paths that all start with one literal keeps them all or drops them all |
| SampleSufficiency.RebuildsTree | src/sample_sufficiency.py:121-133 | on the paths of a decision that asks no predicate twice, the conversion rebuilds that decision's `if0` cascade |
| SampleSufficiency.ToIf0Selects | src/sample_sufficiency.py:133 | the `if0` cascade selects the term a point reaches |
| SampleSufficiency.PathsPartition | src/sample_sufficiency.py:128-130 | exactly one path of a decision matches a point: the one that leads to its term |
| SampleSufficiency.MappingSelectsMatchingEntry | src/sample_sufficiency.py:121-133 | the conversion succeeds and its cascade selects the term of the entry whose guard holds |
| SampleSufficiency.PredTermMappingToExpr | src/sample_sufficiency.py:121-133 | the `if0` cascade built from a predicate/term mapping; `RebuildsTree` and `MappingSelectsMatchingEntry` carry its contract |
| SampleSufficiency.Consistent | src/sample_sufficiency.py:205-209 | true exactly when every pair agrees with the full mapping; `KeyError` exactly when a key is missing before any disagreement |
| SampleSufficiency.DisagreementIsFinal | src/sample_sufficiency.py:206-208 | after the first disagreement the answer is false and no later key is looked up |
| SampleSufficiency.CombinationsCount | src/sample_sufficiency.py:226-228 | `combinations(s, r)` has binomial(|s|, r) entries |
| SampleSufficiency.CombinationsComplete | src/sample_sufficiency.py:226-228 | every order-keeping selection is among the combinations of its size |
| SampleSufficiency.CombinationsSound | src/sample_sufficiency.py:226-228 | every combination is an order-keeping selection of its size |
| SampleSufficiency.Combinations | src/sample_sufficiency.py:226-228 | `itertools.combinations`; `CombinationsCount`, `CombinationsComplete` and `CombinationsSound` carry its contract |
| SampleSufficiency.AssignmentsCount | src/sample_sufficiency.py:231 | there are 2^k assignments of k truth values |
| SampleSufficiency.AssignmentsComplete | src/sample_sufficiency.py:231 | the assignments are exactly the sequences of k truth values |
| SampleSufficiency.Assignments | src/sample_sufficiency.py:231 | `itertools.product([True, False], repeat = k)`; `AssignmentsCount` and `AssignmentsComplete` carry its contract |
| SampleSufficiency.SubsetsMembers | src/sample_sufficiency.py:226-228 | the chained subsets are exactly the combinations of every size |
| SampleSufficiency.SubsetsFromMembers | src/sample_sufficiency.py:226-228 | the subsets from size r on are the combinations of those sizes |
| SampleSufficiency.ValuationsOfMembers | src/sample_sufficiency.py:231-232 | a subset's valuations are it zipped with every assignment of its length |
| SampleSufficiency.FixedValuationsMembers | src/sample_sufficiency.py:226-233 | a fixed valuation is one of some subset's valuations |
| SampleSufficiency.FixedValuationsComplete | src/sample_sufficiency.py:225-233 | every subset of the other predicates with every assignment is enumerated |
| SampleSufficiency.FixedValuationsSound | src/sample_sufficiency.py:225-233 | every enumerated valuation pairs a subset of the other predicates with an assignment of its length |
| SampleSufficiency.FixedValuations | src/sample_sufficiency.py:225-233 | the subset-then-assignment enumeration of the predicate loop; `FixedValuationsMembers`, `FixedValuationsComplete` and `FixedValuationsSound` carry its contract |
| SampleSufficiency.OthersMembers | src/sample_sufficiency.py:225 | the other predicates are the atomic ones except the current one |
| SampleSufficiency.UnfixedMembers | src/sample_sufficiency.py:230 | a predicate is unfixed exactly when it is atomic, not fixed and not current |
| SampleSufficiency.NotInMembers | src/sample_sufficiency.py:91 | the filter keeps exactly the valuations not in the initial list |
| SampleSufficiency.NotInSelf | src/sample_sufficiency.py:290 | a list filtered against itself is empty |
| SampleSufficiency.ChainSnoc | src/sample_sufficiency.py:93-94 | appending a new counterexample extends the chain |
| SampleSufficiency.ChainAddsFresh | src/sample_sufficiency.py:91 | filtering the final list against the start gives exactly the added counterexamples |
| SampleSufficiency.ExtensionFilter | src/sample_sufficiency.py:296 | filtering an extended list against the original gives the new elements not already there |
| SampleSufficiency.ChainFromAccepted | src/sample_sufficiency.py:88-91 | when the checker accepts the start list nothing is added |
| SampleSufficiency.ChainUnique | src/sample_sufficiency.py:77-94 | the checker's answers fix the added points |
| SampleSufficiency.GetSufficientSamples | src/sample_sufficiency.py:72-94 | the result is the chain of counterexamples until the checker accepts; a repeated counterexample fails the `assert` |
| SampleSufficiency.GetGuardedTermSufficientSamplesAsWritten | src/sample_sufficiency.py:107-118 | with no relevant valuation the sampled seed point is not reported, even though it is new |
| SampleSufficiency.GetGuardedTermSufficientSamples | src/sample_sufficiency.py:107-118 | the seed point is reported first, followed by the chain from it |
| SampleSufficiency.RelevantMembers | src/sample_sufficiency.py:282-284 | the relevant valuations are exactly those whose point satisfies the predicate valuation |
| SampleSufficiency.RoundsExtend | src/sample_sufficiency.py:263 | the loops only extend the list |
| SampleSufficiency.GetTermSufficientSamples | src/sample_sufficiency.py:269-290 | with a copied list, the result is every point the rounds add beyond the caller's list |
| SampleSufficiency.GetTermSufficientSamplesAsWritten | src/sample_sufficiency.py:269-290 | the caller's list is extended in place by the rounds, and the result is always empty |
| SampleSufficiency.TermSamplesLostByAliasing | src/sample_sufficiency.py:272-290 | one entry whose guard region yields the point 7: the copying loop reports it, the aliased one reports nothing |
| SampleSufficiency.PredQueriesMembers | src/sample_sufficiency.py:221-233 | the predicate loop asks about each atomic predicate with every fixed valuation of the others |
| SampleSufficiency.GetPredSufficientSamples | src/sample_sufficiency.py:199-266 | the nested loops add the distinguishing points of every query in order, and the result is every point not in the initial list |
| SampleSufficiency.GetIcfpSufficientSamples | src/sample_sufficiency.py:293-302 | the three stages extend a copy of the caller's list, and the result is every point not in it |
| SampleSufficiency.IcfpTermStageAgrees | src/sample_sufficiency.py:295-296 | in the composition, the list the aliased term stage leaves has the same points as the caller's list plus the copying version's result |

## Left out

- The BitSet engine (`BitSet.hpp`) is not part of this model. Its operations are stated on an abstract set of naturals below the universe size. Word packing, padding, popcount, the scan algorithm and the hash function are not modelled; the hash is a parameter of `CApi`. Allocation failure is an input flag.
- Exception texts of the engine are stand-in strings; the interface only copies them.
- BitSetCApi.CApi: the engine is taken never to throw from `destroy`, `set_all`, `clear_all`, `flip_all`, `get_size_of_universe`, `get_length`, `is_full`, `is_empty`, `inplace_negate` and `get_hash`. None of its three error kinds applies to them: an index out of range, mismatched universes, a failed allocation. So `Destroy`, `Bulk`, `GetSizeOfUniverse`, `GetLength`, `IsFull`, `IsEmpty`, `InPlaceNegate` and `GetHash` always leave the error slot empty. The catch branches and sentinels of those entries (`BitSetCAPI.cpp:73-78`, `:155-206`, `:276-281` and `:315-321`) are not modelled.
- BitSetEngine.ScanFrom: the engine's source is not part of this model. A scan from a position at or beyond the universe size is modelled as an `IndexOutOfRange` error in all four directions. The engine may instead answer -1 for the upward scans, or clamp the downward scans to the last element of the universe. In that case the `0` sentinel of `CApi.Scan` under a range error, and `ScanSentinelIsAmbiguous`'s throwing witness, do not arise for those positions.
- BitSetCApi.CApi: 64-bit widths of positions, sizes and results (`u64`, `i64`) are unbounded naturals and integers.
- Concurrency and the lifetime of the two static C strings across threads are not modelled.
- SMT and Z3 calls are not modelled: `Unifier._verify_expr`, `model_to_point`, `exprs.check_equivalence_under_constraint` and `exprs.sample`. Their results are oracle inputs: `verify`, `cexFor`, `sample`, `distinguish` and `complete`.
- `evaluation.evaluate_expression_raw` is a parameter (`holdsAt`, `spec`, `holds`) from an atom and a point to a truth value.
- The decision-tree learner `eus_learn_decision_tree_for_ml_data` is foreign code. Its tree is an input to `DecisionTreeToExpr` and `GuardTerms`, so `Unifier.unify`'s learning step is not modelled beyond its predicate filter.
- `utils.partitions` is not part of this model. It is the `Partitioner` parameter, assumed to give partitions with the right number of parts and the right sum.
- `Solver.solve`'s CEGIS loop, the `__main__` blocks, `print` progress lines, timing, file logging and the `test_*` functions are drivers and I/O.
- Broken or dead code is not modelled:
  - `add_point_from_model` does nothing;
  - `expr.Value` in `model_to_point` is an undefined name;
  - `get_sufficient_samples` calls `solve` with an argument `Solver.solve` does not take, and unpacks a tuple it does not return; the model abstracts solving and checking as `cexFor`;
  - `exprs.py` does not parse as written. `ExpressionKinds` and `ExprManager` are written as functions, and the namedtuple assignments are split across lines. The model follows the evident intent;
  - `ArgumentError` (`exprs.py:119`) is never imported (`:45-49` import only `utils`, `sys`, `collections`, `enum` and `exprtypes`), so `make_function_expr` as written would raise `NameError`. `Exprs.ExprManager.MakeFunctionExpr` reports the intended `ArgumentError`;
  - the field list `'expr_type, const_value'` (`:69`) is one field name that is not an identifier, so `namedtuple` raises `ValueError` and the three-argument constructions at `:108`, `:128` and `:133` could never run. The model gives constants a type and a value;
  - the error message at `:121` reads `x.expr_type` from every child, but function-expression children have no such field. Error message strings are not modelled.
- `GeneratorBase`'s naming and instance counter do not affect generation.
- Enumerators: generators are values. Cloning in the source gives every generator its own sub-generators, so value semantics loses no sharing among generators. `set_size` returns the sized generator instead of updating fields in place.
- Enumerators.GeneratorFactory.MakeGenerator: in the source, `make_generator` returns the very placeholder object that `make_placeholder` registered, so the two names are aliases of one object (`enumerators.py:236-246`). The model returns an equal `Placeholder(name, Unset)` value. The aliasing is lost: sizing one of them does not size the other.
- Enumerators.SetSize: it requires `Resolved`, which excludes a placeholder whose identifier has no registered factory. In the source, `set_size(n)` with `n > 0` on such a placeholder raises `KeyError` (`enumerators.py:210` via `:250`), and with `n <= 0` it succeeds and drops the generator (`:212`). Neither case is modelled; the model promises nothing about unregistered identifiers.
- Enumerators.Generate: it requires `Ready`, which excludes a placeholder whose size was never set. In the source, `generate()` there raises `AttributeError`, because `__init__` (`enumerators.py:198-200`) never sets `actual_generator`, which `:215` reads. That error is not modelled.
- Enumerators.SetSize: placeholder recursion is modelled for registries in which every path from a template to a placeholder passes through a functional generator, the form every grammar takes. A registry that recurses without one loops forever in the source.
- Enumerators.GeneratorFactory: a registered factory is the generator it builds, not a constructor and an argument tuple. The placeholder's back-reference to its factory is the registry passed to `SetSize`.
- Solvers.TermSolver.Solve: the signature cache `prev_expr_id_to_sig` and the expression ids are not modelled. Each signature is computed afresh, which gives the same signature.
- Solvers.TermSolver: the returned dictionary is a sequence of (signature, term) pairs in insertion order.
- Solvers.TryTrivialUnification: the iteration order of `signature_to_term` is taken to be insertion order.
- SampleSufficiency.GetSufficientSamples: the source loops until the checker accepts. The model takes at most `fuel` counterexamples and reports `OutOfFuel` beyond that.
- SampleSufficiency.GetPredSufficientSamples: the set of atomic predicates is a sequence in iteration order. The subset and assignment loops are one loop over `FixedValuations`, which enumerates them in the same order.
- SampleSufficiency.GetPredSufficientSamples: `distinguish` stands for `get_distinguishing_points` followed by the re-evaluation at line 257. The relevant predicate/term mapping, the unfixed predicates and `_consistent`'s use there are inside that parameter.
- SampleSufficiency.GetGuardedTermSufficientSamples: a valuation is an opaque point-and-output pair. The sampled point and its evaluation are the `sample` input.
- Exprs: the error message strings are not modelled, only the exception kinds.
- Exprs: `FunctionInfo` is reduced to its name, and only the Boolean, integer and bit-vector types are distinguished.
- Exprs.ExpressionToString: the variable tuple has no `var_name` field. `nameOf` gives the name a variable id was interned under.

## Findings

| source | as written | input that shows it | evidently intended | confidence | as-written member | corrected member |
|---|---|---|---|---|---|---|
| src/exprs.py:131-134 | `make_false_expr` builds the constant `True` | any call | the Boolean constant `False` | not executed | Exprs.ExprManager.MakeFalseExprAsWritten | Exprs.ExprManager.MakeFalseExpr |
| src/exprs.py:143 | `'0%dX' % num_bits / 4` divides a string by 4 and raises `TypeError` | a 4-bit constant with value 10 | `#x` and `num_bits / 4` upper-case hexadecimal digits (`#xA`) | not executed | Exprs.HexBranchRaises | Exprs.ConstantToString |
| src/sample_sufficiency.py:272-290 | `valuations = initial_valuations` aliases the caller's list, so the final filter compares the list with itself and returns `[]` | one mapping entry whose guard region yields the point 7 | a copy of the list, returning the new points (`[7]`) | not executed | SampleSufficiency.TermSamplesLostByAliasing | SampleSufficiency.GetTermSufficientSamples |
| src/sample_sufficiency.py:107-118 | with no relevant valuation, the sampled point is appended to the start list and is therefore filtered out of the result | no relevant valuation, a sampled point p that the checker accepts at once | p reported as a new point of the guard region | not executed | SampleSufficiency.GetGuardedTermSufficientSamplesAsWritten | SampleSufficiency.GetGuardedTermSufficientSamples |
