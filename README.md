# pb2bv: pseudo-boolean constraints as bit-vector circuits

This project models z3's pseudo-boolean to bit-vector rewriter
(`src/ast/rewriter/pb2bv_rewriter.cpp`) in Dafny and proves properties of the
model. The rewriter replaces a constraint Σ cᵢ·[ℓᵢ] ≤ k, ≥ k or = k over
boolean literals by a circuit.

- **Dispatch.** An "at least 1" constraint becomes a plain disjunction.
  Cardinality shapes with a word-sized threshold go to a sorting network.
  Everything else goes to the weighted encoder.
- **Weighted encoder.** It prunes every literal whose coefficient exceeds k
  into the unit fact ¬ℓᵢ. It lifts the other literals to `ite(ℓᵢ, cᵢ, 0)` at
  the width of k. It then sums the lifted values with a binary tree of
  overflow-checked bit-vector additions. Each addition records that its carry
  bit is 0 and that its remainder is at most k.
- **Dualization.** "At least" constraints are dualized first: every literal
  is negated and k becomes Σ cᵢ − k.
- **Ledger.** The rewriter keeps the fresh auxiliary variables, a stack of
  scope checkpoints over them, and the side lemmas not yet flushed.

The modules follow the source's layers:

- `Formula` (formula.dfy): boolean and bit-vector terms and their meaning under
  an assignment. A bit-vector of width w is a natural number below 2^w, and
  addition wraps modulo 2^w.
- `CircuitBuilder` (circuit.dfy): `negate` and the simplifying `mk_ite`.
- `WeightedEncoder` (weighted.dfy): the checked add, the pruning loop, the
  reduction tree and the LE/EQ finalization of `mk_le_ge`.
- `Dispatch` (dispatch.dfy): `dualize`, `mk_bv`, `is_or` and `mk_pb`. The
  sorting network is a function parameter. It is given the first unused
  variable id and reports its circuit, the number of fresh variables it
  created and the clauses it asked for.
- `Rewriter` (rewriter.dfy): the rewriter state as a class. It holds the
  ledger operations and the per-node rule `mk_app_core` with its counter.
  The rule records the network's fresh variables and clauses in the ledger.

The main results:

- `LeEncodingCorrect` and `EqEncodingCorrect`: for positive coefficients, the
  weighted encoding holds under an assignment exactly when Σ cᵢ·[ℓᵢ] ≤ k,
  respectively = k.
- `MkBvCorrect`: the same for every constraint kind, dualization included.
- `MkPbCorrect`: the same for the whole dispatch, provided the sorting
  network is correct.

The imperative parts of the source are methods proved against these
functions: the pruning loop, the in-place tree loop, `dualize` and the
ledger.

## Model

| member | source | states |
|---|---|---|
| CircuitBuilder.Negate | src/ast/rewriter/pb2bv_rewriter.cpp:197-200 | the result evaluates to the complement of the argument under every assignment, and a top-level negation is removed rather than doubled (also the network callback `mk_not`, line 328) |
| CircuitBuilder.StripNots | src/ast/rewriter/pb2bv_rewriter.cpp:202-204 | the leading-negation loop leaves a condition with no outer `Not`, and it is equivalent to the original condition up to the reported flip |
| CircuitBuilder.MkIte | src/ast/rewriter/pb2bv_rewriter.cpp:201-213 | every simplification of `mk_ite` preserves meaning: the result evaluates to "if c then hi else lo" under every assignment |
| CircuitBuilder.MkIteSameBranches | src/ast/rewriter/pb2bv_rewriter.cpp:205 | `ite(c, x, x)` is built as `x` itself |
| CircuitBuilder.MkIteAbsorbsNegation | src/ast/rewriter/pb2bv_rewriter.cpp:202-204 | a negated condition is absorbed by swapping the branches, and a double negation disappears |
| CircuitBuilder.MkBvIte | src/ast/rewriter/pb2bv_rewriter.cpp:138 | `mk_ite` on bit-vector branches selects the value of the branch chosen by the condition, and it keeps the branches' sort |
| Formula.WeightedSumZero | src/ast/rewriter/pb2bv_rewriter.cpp:114-116 | with positive coefficients the weighted sum is 0 exactly when no literal holds, which justifies the `¬(ℓ₁ ∨ … ∨ ℓₙ)` shortcut for k = 0 |
| WeightedEncoder.NumBits | src/ast/rewriter/pb2bv_rewriter.cpp:125 | k fits in the chosen width, and the width is the least that fits for k > 0 |
| WeightedEncoder.CheckedAdd | src/ast/rewriter/pb2bv_rewriter.cpp:84-102 | one checked add appends exactly two facts |
| WeightedEncoder.CheckedAddShape | src/ast/rewriter/pb2bv_rewriter.cpp:86-91 | the remainder extracted from the widened sum has the operands' width |
| WeightedEncoder.CheckedAddCarry | src/ast/rewriter/pb2bv_rewriter.cpp:86-93 | the fact "carry = 0" on the widened sum holds exactly when a + b fits in the operands' width, and then the extracted remainder is a + b |
| WeightedEncoder.CheckedAddMeaning | src/ast/rewriter/pb2bv_rewriter.cpp:84-102 | for operands and bound below 2^nb, the facts "carry = 0" and "rem ≤ bound" both hold exactly when a + b ≤ bound, and then the remainder equals a + b |
| WeightedEncoder.PairRems | src/ast/rewriter/pb2bv_rewriter.cpp:142-144 | slot j of a round holds the remainder of the checked add of values 2j and 2j+1 |
| WeightedEncoder.PairFacts | src/ast/rewriter/pb2bv_rewriter.cpp:142-144 | the first m adds of a round record 2m facts |
| WeightedEncoder.NextLevel | src/ast/rewriter/pb2bv_rewriter.cpp:142-148 | a round turns s values into ⌈s/2⌉; slot j is the remainder of the checked add of pair j, and an odd last value moves unchanged to index s/2 |
| WeightedEncoder.Reduce | src/ast/rewriter/pb2bv_rewriter.cpp:141-149 | the tree ends with at most one value, and over n ≥ 1 values it records 2(n−1) facts, i.e. n−1 checked adds |
| WeightedEncoder.PairRemsSlots | src/ast/rewriter/pb2bv_rewriter.cpp:142-144 | the remainders of a round are well-sorted at the width of k |
| WeightedEncoder.PairsSound | src/ast/rewriter/pb2bv_rewriter.cpp:142-144 | when the values of the first m pairs sum to at most the bound, all their facts hold |
| WeightedEncoder.PairsComplete | src/ast/rewriter/pb2bv_rewriter.cpp:142-144 | when the facts of the first m pairs hold, their remainders carry the same sum as the pairs' values |
| WeightedEncoder.PairsWithinBound | src/ast/rewriter/pb2bv_rewriter.cpp:142-144 | when the facts of the first m pairs hold, every remainder stays within the bound |
| WeightedEncoder.LevelMeaning | src/ast/rewriter/pb2bv_rewriter.cpp:142-148 | one round keeps the meaning: its facts hold when the level's total is within the bound, and then the next level has the same total and every slot is within the bound |
| WeightedEncoder.ReduceMeaning | src/ast/rewriter/pb2bv_rewriter.cpp:141-149 | all facts of the tree hold exactly when the total of the lifted values is at most the bound, and then the value left is that total |
| WeightedEncoder.RoundsIsCeilLog2 | src/ast/rewriter/pb2bv_rewriter.cpp:141-149 | the tree over n ≥ 1 values has depth ⌈log₂ n⌉ |
| WeightedEncoder.PairUp | src/ast/rewriter/pb2bv_rewriter.cpp:142-148 | the in-place round (writes to `es[i/2]`, the odd move, the shrink) produces the next level and appends that round's facts |
| WeightedEncoder.ReduceTree | src/ast/rewriter/pb2bv_rewriter.cpp:141-149 | the while loop leaves the values and facts of the reduction tree, and its number of rounds is the tree depth |
| WeightedEncoder.PruneOrLift | src/ast/rewriter/pb2bv_rewriter.cpp:128-140 | the pruning loop is a stable filter: for every literal i, if cᵢ > k its unit fact ¬ℓᵢ sits in the pruned list at index Over(cs[..i], k), the number of pruned literals before it; otherwise ite(ℓᵢ, cᵢ, 0) sits in the lifted list at index i − Over(cs[..i], k); the lists have Over(cs, k) and n − Over(cs, k) entries, so every literal lands in exactly one of them, in argument order |
| WeightedEncoder.FilterLengths | src/ast/rewriter/pb2bv_rewriter.cpp:128-140 | `Pruned` has one unit fact per coefficient above k, and `Lifted` one value per other coefficient |
| WeightedEncoder.PrunedAt | src/ast/rewriter/pb2bv_rewriter.cpp:129-131 | `Pruned` holds ¬ℓᵢ for a literal with cᵢ > k right after the facts of the earlier pruned literals |
| WeightedEncoder.LiftedAt | src/ast/rewriter/pb2bv_rewriter.cpp:137-138 | `Lifted` holds ite(ℓᵢ, cᵢ, 0) at the width of k for a literal with cᵢ ≤ k right after the values of the earlier lifted literals |
| WeightedEncoder.LiftedSlots | src/ast/rewriter/pb2bv_rewriter.cpp:137-138 | every lifted value is well-sorted at the width of k and at most k |
| WeightedEncoder.LiftSum | src/ast/rewriter/pb2bv_rewriter.cpp:128-140 | when the unit facts hold, the lifted values sum to Σ cᵢ·[ℓᵢ]; when one fails, Σ cᵢ·[ℓᵢ] already exceeds k |
| WeightedEncoder.LiftMeaning | src/ast/rewriter/pb2bv_rewriter.cpp:128-140 | pruning and lifting keep "at most k": the unit facts plus "lifted sum ≤ k" hold exactly when Σ cᵢ·[ℓᵢ] ≤ k |
| WeightedEncoder.LeFactsMeaning | src/ast/rewriter/pb2bv_rewriter.cpp:128-152 | for k ≥ 1 the unit facts and tree facts hold exactly when Σ cᵢ·[ℓᵢ] ≤ k, and then the values left sum to Σ cᵢ·[ℓᵢ] |
| WeightedEncoder.LeEncodingCorrect | src/ast/rewriter/pb2bv_rewriter.cpp:113-152 | for positive coefficients the LE circuit (`EncodeLeGe` in the LE mode) holds exactly when Σ cᵢ·[ℓᵢ] ≤ k, including the k = 0 shortcut |
| WeightedEncoder.FinalValueMeaning | src/ast/rewriter/pb2bv_rewriter.cpp:156-158 | the value compared with the bound in the EQ mode is the total the tree computed, and zero when nothing was lifted |
| WeightedEncoder.EqEncodingCorrect | src/ast/rewriter/pb2bv_rewriter.cpp:150-159 | for positive coefficients the EQ circuit (`EncodeLeGe` in the EQ mode: the LE facts plus "bound = final value") holds exactly when Σ cᵢ·[ℓᵢ] = k; this is the corrected finalization of Finding 1 |
| WeightedEncoder.EncodeEqAsWritten | src/ast/rewriter/pb2bv_rewriter.cpp:156-158 | the EQ finalization as written has no final value to compare exactly when k > 0 and every literal was pruned; otherwise it agrees with the corrected encoding |
| WeightedEncoder.EqAllPrunedWitness | src/ast/rewriter/pb2bv_rewriter.cpp:128-158 | for 5·x = 3 the tree is empty, so the written code has no `es.back()`, while the corrected circuit is false like the constraint |
| WeightedEncoder.MkLeGe | src/ast/rewriter/pb2bv_rewriter.cpp:113-162 | the method (k = 0 shortcut, pruning loop, tree loop, finalization) builds exactly the LE or EQ circuit of `EncodeLeGe`; its EQ finalization compares the bound with zero when nothing was lifted, which is the correction of Finding 1 (line 157 reads `es.back()` unconditionally) |
| Dispatch.UnitSumIsCount | src/ast/rewriter/pb2bv_rewriter.cpp:306-316 | with unit coefficients the weighted sum is the number of true literals, which is what the sorting network compares |
| Dispatch.NegateAll | src/ast/rewriter/pb2bv_rewriter.cpp:189-195 | dualization negates each argument in place, position by position |
| Dispatch.Dualize | src/ast/rewriter/pb2bv_rewriter.cpp:189-195 | the loop leaves k' = Σ cᵢ − k, which may be negative, and every argument negated |
| Dispatch.DualSum | src/ast/rewriter/pb2bv_rewriter.cpp:189-195 | a literal and its negation split each coefficient: the two weighted sums add up to Σ cᵢ |
| Dispatch.DualizeCorrect | src/ast/rewriter/pb2bv_rewriter.cpp:170-176 | Σ cᵢ·[ℓᵢ] ≥ k exactly when Σ cᵢ·[¬ℓᵢ] ≤ Σ cᵢ − k |
| Dispatch.DualEncodingAsWritten | src/ast/rewriter/pb2bv_rewriter.cpp:170-176 | the at-least branch as written agrees with the guarded one whenever Σ cᵢ ≥ k |
| Dispatch.NotAll | src/ast/rewriter/pb2bv_rewriter.cpp:129-131 | the unit facts of a fully pruned argument list are ¬ℓᵢ, position by position |
| Dispatch.WitnessSums | src/ast/rewriter/pb2bv_rewriter.cpp:170-176 | for 2·a + 3·b ≥ 10 with both literals true, Σ cᵢ = 5 and the weighted sum is 5 |
| Dispatch.WitnessAsWritten | src/ast/rewriter/pb2bv_rewriter.cpp:170-176 | for 2·a + 3·b ≥ 10 the path as written yields the unit facts ¬¬a and ¬¬b |
| Dispatch.NegativeDualWitness | src/ast/rewriter/pb2bv_rewriter.cpp:170-176 | for 2·a + 3·b ≥ 10 dualization gives k' = −5; the written path accepts any assignment making both literals true (sum 5), while the guarded encoding is false |
| Dispatch.DualEncodingCorrect | src/ast/rewriter/pb2bv_rewriter.cpp:170-176 | for positive coefficients the guarded at-least encoding `DualEncoding` (false when Σ cᵢ < k, the correction of Finding 2) holds exactly when Σ cᵢ·[ℓᵢ] ≥ k |
| Dispatch.MkBvCorrect | src/ast/rewriter/pb2bv_rewriter.cpp:165-187 | for positive coefficients `mk_bv`'s circuit `BvEncoding` holds exactly when the constraint does, for all five kinds |
| Dispatch.MkDual | src/ast/rewriter/pb2bv_rewriter.cpp:170-176 | dualize, then the LE encoder on the negated literals and k'; false when k' < 0, which is the correction of Finding 2 (line 175 only asserts k' ≥ 0) |
| Dispatch.MkBv | src/ast/rewriter/pb2bv_rewriter.cpp:165-187 | the method builds exactly `BvEncoding`: at-least kinds dualized, at-most kinds in LE mode, equality in EQ mode; an at-least constraint with Σ cᵢ < k gives false through MkDual, the correction of Finding 2 |
| Dispatch.WordBits | src/ast/rewriter/pb2bv_rewriter.cpp:303 | a threshold is below 2^32 exactly when it is written with at most 32 bits |
| Dispatch.IsUnsigned | src/ast/rewriter/pb2bv_rewriter.cpp:303 | `is_unsigned` on k holds exactly when k has at most 32 bits |
| Dispatch.IsOr | src/ast/rewriter/pb2bv_rewriter.cpp:215-229 | when `is_or` holds and the coefficients are positive, the constraint holds under every assignment exactly when the disjunction `mk_pb` builds for it does (Dispatch.MkPbCorrect relies on this) |
| Dispatch.PbEncoding | src/ast/rewriter/pb2bv_rewriter.cpp:298-321 | `mk_pb` as a function of the first unused id: only the network route creates fresh variables or clauses; the disjunction and `mk_bv` routes create none |
| Dispatch.DispatchRoute | src/ast/rewriter/pb2bv_rewriter.cpp:298-321 | the six-branch chain is: `is_or` first, then the sorting network for unit coefficients and a word-sized k, then `mk_bv` |
| Dispatch.DisjunctionShortcut | src/ast/rewriter/pb2bv_rewriter.cpp:215-229 | with positive coefficients "at least 1" holds exactly when the disjunction does |
| Dispatch.DisjunctionExact | src/ast/rewriter/pb2bv_rewriter.cpp:215-229 | for an at-least request with threshold 1 and positive coefficients, the disjunction is equivalent to the constraint for every argument list and assignment |
| Dispatch.MkPbCorrect | src/ast/rewriter/pb2bv_rewriter.cpp:298-321 | given a correct sorting network and positive coefficients, the circuit of `mk_pb` (`PbEncoding`) holds exactly when the constraint does |
| Dispatch.MkPb | src/ast/rewriter/pb2bv_rewriter.cpp:298-321 | the method follows the dispatch chain, calls `mk_bv` last and returns exactly `PbEncoding`: circuit, number of fresh variables and clauses |
| Rewriter.Pb2BvRewriter.constructor | src/ast/rewriter/pb2bv_rewriter.cpp:368-373 | a new rewriter has no fresh variables, scopes or lemmas, and a zero counter |
| Rewriter.Pb2BvRewriter.Push | src/ast/rewriter/pb2bv_rewriter.cpp:381-383 | appends the number of fresh variables to the checkpoints; nothing else changes |
| Rewriter.Pb2BvRewriter.Pop | src/ast/rewriter/pb2bv_rewriter.cpp:384-394 | requires no pending lemmas and n ≤ number of scopes; pop(0) changes nothing, otherwise the fresh variables are truncated to checkpoint \|lim\|−n and the checkpoints to \|lim\|−n; checkpoints stay ordered and within range |
| Rewriter.Pb2BvRewriter.FlushSideConstraints | src/ast/rewriter/pb2bv_rewriter.cpp:396-399 | the caller's list gets the pending lemmas appended in order, and the ledger's list is emptied |
| Rewriter.Pb2BvRewriter.Fresh | src/ast/rewriter/pb2bv_rewriter.cpp:336-340 | appends exactly one variable, unused so far, to the fresh variables: the next id, and the supply advances by one |
| Rewriter.Pb2BvRewriter.MkClause | src/ast/rewriter/pb2bv_rewriter.cpp:342-344 | appends exactly one lemma, the disjunction of the literals |
| Rewriter.Pb2BvRewriter.RecordFresh | src/ast/rewriter/pb2bv_rewriter.cpp:336-340 | n calls of `fresh` append the next n ids, in order, to the fresh variables; nothing else but the id supply changes |
| Rewriter.Pb2BvRewriter.RecordClauses | src/ast/rewriter/pb2bv_rewriter.cpp:342-344 | one `mk_clause` per clause appends the disjunctions, in order, to the pending lemmas; nothing else changes |
| Rewriter.Pb2BvRewriter.MkAppCore | src/ast/rewriter/pb2bv_rewriter.cpp:244-257 | a pseudo-boolean node is rewritten by `mk_pb` with status done: the result is its circuit, the fresh variables it created are appended with the next ids, and its clauses are appended to the pending lemmas; any other node fails and changes nothing; the counter goes up exactly when the status is done |
| Rewriter.NestedScopes | src/ast/rewriter/pb2bv_rewriter.cpp:381-399 | push, push, a cardinality node translated by a network that creates three variables and two clauses, flush, pop(1): three variables were created and two lemmas flushed, and the count of fresh variables is back to what it was after the first push |

## Left out

- `mk_arith` (lines 259-296) is not modelled. Its author marks it as likely wrong, and its bit-width heuristic has no stated guarantee.
- Rewriter.Pb2BvRewriter.MkAppCore: the arithmetic branch (lines 250-252) is not modelled. A non-pseudo-boolean node is always reported as not handled.
- The `l_false` mode of both `mk_le_ge` overloads (lines 96-98, 118-120, 133-135, 153-155) is not modelled. `mk_bv` only uses the LE and EQ modes, so the mode type has just those two.
- The sorting network (`psort_nw`, `m_sort.le/ge/eq`, lines 75 and 303-316) is the function parameter `Network` and is not verified.
  - Dispatch.MkPbCorrect assumes the network's circuit is equivalent to the counting constraint. The real network is only equisatisfiable, through the fresh variables and clauses it creates.
  - The network's callbacks `mk_true`, `mk_false`, `mk_max` and `mk_min` (lines 324-327) are not modelled.
  - The network's calls to `fresh` and `mk_clause` (lines 336-344) are modelled by what they leave behind. The network reports how many fresh variables it created, named by consecutive ids from the first unused one, and the clauses it asked for. Rewriter.Pb2BvRewriter.MkAppCore then records all the variables and then all the clauses. The real network interleaves the two kinds of call while it builds; the two ledgers are separate lists, so their final contents are the same.
- `trail` and `m_trail` (lines 81, 332-335) are not modelled. They keep terms alive in the term manager and have no logical effect.
- Hash-consing of the term factory is not modelled. Terms are datatype values, and term identity (`hi == lo`) is structural equality.
- The helpers `mk_or`, `mk_and` and `::mk_not` of the term utilities are not modelled as separate code.
  - The n-ary `Or` and `And` have their meaning. The simplifications for zero or one arguments are not modelled.
  - `::mk_not` in `dualize` is modelled as `Negate`; folding of `true`/`false` is not modelled.
- The generic traversal engine is not modelled: `card2bv_rewriter_cfg`, `card_pb_rewriter`, `m_rw.reset()` in `pop`, `cleanup`, `get_num_steps` and `operator()`.
- Statistics, parameters, pretty-printing, the forwarding wrapper and the unused `argc_*` helper structs are not modelled.
- Zero coefficients are not covered. The correctness lemmas require every coefficient to be at least 1; with a zero coefficient the k = 0 shortcut and `is_or` would constrain a literal the constraint does not mention.
- Coefficients and k are restricted to non-negative integers, whereas the source's `rational`s also admit fractions. The one machine-width test, `get_k(f).is_unsigned()`, is modelled as k < 2^32.
- Rewriter.Pb2BvRewriter.Fresh: the name chosen by the term factory is modelled as the next number from a counter held by the rewriter.
- Equisatisfiability of a whole rewritten formula together with its flushed lemmas is not modelled, because it depends on the sorting network.

## Findings

| source | as written | input that shows it | evidently intended | confidence | as-written member | corrected member |
|---|---|---|---|---|---|---|
| src/ast/rewriter/pb2bv_rewriter.cpp:157 | the EQ mode compares the bound with `es.back()`, but `es` is empty when every literal's coefficient exceeds k | PB_EQ with coefficients [5], k = 3 (5·x = 3): the only literal is pruned | compare the bound with zero (or give false): the constraint cannot hold | high; not executed | WeightedEncoder.EqAllPrunedWitness | WeightedEncoder.EqEncodingCorrect |
| src/ast/rewriter/pb2bv_rewriter.cpp:172-176 | `mk_bv` dualizes an at-least constraint without checking Σ cᵢ ≥ k, so k' = Σ cᵢ − k can be negative and the assertion on line 175 fails; past it, every literal is pruned and the circuit requires every literal to be true | PB_GE with coefficients [2, 3], k = 10: k' = −5, and x = y = true satisfies the circuit although 2 + 3 < 10 | when Σ cᵢ < k, encode the constraint as false | medium (depends on what callers pass); not executed | Dispatch.NegativeDualWitness | Dispatch.DualEncodingCorrect |

`is_or` (lines 215-229) tests only that the threshold of an at-least constraint is 1, not that its coefficients are units. The model follows the code; with positive coefficients the disjunction is still exact (Dispatch.DisjunctionShortcut), so this is not listed as a finding.
