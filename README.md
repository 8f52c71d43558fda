# Bitwuzla quantifier solver and solver-instance contract, in Dafny

This project models two parts of the Bitwuzla SMT solver.

1. The counterexample-guided quantifier solver of `src/bzlaslvquantn.c`
   (live code only). The solver works on a clone of the user's instance.
   Its state (`QuantSolverState`) records:
   - the active quantifiers of the current model, with their phase;
   - the inactive quantifiers;
   - the backref forest from instances to their originals;
   - the universal variables each quantifier depends on;
   - the caches of skolems, instantiation constants, counterexample
     literals, skolemization lemmas and counterexample lemmas;
   - the lemma cache and the `added_lemma` flag.

   On this state it runs the refinement loop of `check_quantifiers`:
   - a ground check under the counterexample literals, which drops failed
     literals until the check is SAT or none failed;
   - then one instantiation round over the active quantifiers;
   - then SAT, UNSAT, UNKNOWN or another round.

   Terms are hash-consed DAG nodes. `substitute`, the cached, stack-driven
   rewrite behind every instantiation, is proved equal to a recursive
   specification, including the backref table it fills.
2. The documented contract of a solver instance in `src/api/c/bitwuzla.h`:
   - assertion levels with push and pop;
   - the transient assumption set and fixating or resetting it;
   - the last-result register that gates model and unsat queries;
   - option freezing and the termination callback;
   - the result codes;
   - the bit-vector value constructors (zero, one, ones, signed minimum
     and maximum, `uint64` truncation), with Boolean as width 1.

Files:

- `terms.dfy` (`Terms`): sorts, node kinds, nodes and signed edges.
- `substitute.dfy` (`Substitution`): the specification `Rewrite` of
  `substitute` and its iterative implementation `Substitute`.
- `quant_spec.dfy` (`QuantSpec`): the pure definitions the solver state is
  specified by:
  - the SAT engine as an oracle;
  - backref chains and binder chains;
  - free parameters and the top-level quantifiers of a formula;
  - the lemma filter, the check list and the ground check.
- `traversals.dfy` (`QuantTraversal`): the two depth-first searches,
  `get_active_quantifiers` and `compute_variable_dependencies_aux`.
- `quant_solver.dfy` (`QuantSolver`):
  - the clone (`Bzla`);
  - the solver state (`QuantSolverState`), a class whose methods update
    its tables in place;
  - the solver (`QuantSolver`).
- `bv_values.dfy` (`BvValues`): the value constructors on naturals below
  2^w, with their bit patterns.
- `api.dfy` (`BitwuzlaApi`): the instance class `Bitwuzla`, plus three
  sessions on a fresh instance.

The oracles:

- The ground solver of the clone is an oracle `Engine`. Its three queries
  are the check result, whether an assumption failed, and the bits the
  model gives a node. Each query is a function of the asserted
  constraints and the assumptions of the check it is about.
- The decision procedure behind the C interface is an oracle `Oracle` of
  the same shape.
- Fresh nodes get their identity from a serial counter in the clone,
  `nextSerial`. `bzla_node_create_var`, the skolem functions and the
  unique parameters all draw from it. The clone's first serial is above
  every node of the user's formulas and quantifiers, and the state keeps
  every node it holds below the counter. So a created node occurs in none
  of the asserted formulas and differs from every node the state holds.

The model follows the header where it is explicit:
- Incremental mode freezes at the first `bitwuzla_check_sat`
  (`bitwuzla.h:47-48`), not when the first term is created.
- Assert, push, pop and assume do not invalidate the last result: the
  header gates model and unsat queries only on what the last check
  returned.
- `bitwuzla_terminate` calls the configured callback and reports whether
  it returned a value above 0 (`bitwuzla.h:1500-1518`). There is no
  separate termination flag.
- `bitwuzla_assume` requires incremental solving, as the header says.

## Model

| member | source | states |
|---|---|---|
| QuantSpec.FindBackrefIsRoot | src/bzlaslvquantn.c:2803-2814 | on an acyclic backref table, following backrefs from any quantifier ends at a quantifier with no backref entry (a root) |
| QuantSpec.FollowEnds | src/bzlaslvquantn.c:2803-2814 | once the chain from q has ended within n steps, following it further changes nothing and the end has no entry |
| QuantSpec.AddBackrefKeepsAcyclic | src/bzlaslvquantn.c:2816-2851 | mapping a quantifier without an entry to the root of qto keeps the table acyclic, makes that root the root of the new instance, and leaves every other root unchanged except that chains ending at the new instance now continue to that root |
| QuantSpec.ExtendEnds | src/bzlaslvquantn.c:2816-2851 | after the new edge, every chain that ended within n steps still ends, within one more step |
| QuantSpec.BinderChain | src/bzlaslvquantn.c:3461-3470 | the binders iterated from q: q first, each a binder with a variable and a body, empty exactly when q is no binder |
| QuantSpec.BinderSubst | src/bzlaslvquantn.c:3518-3524 | the substitution built from a binder chain has exactly the chain's bound variables as keys |
| QuantSpec.InstanceIsBody | src/bzlaslvquantn.c:3104-3109 | a quantifier whose variable is replaced by a non-parameter is instantiated to its rewritten body |
| QuantSpec.RegionNeedsQuantifierBelow | src/bzlaslvquantn.c:2891-2892 | a node without a quantifier below has no quantifier in its region, so the search may skip it |
| QuantSpec.RegionStep | src/bzlaslvquantn.c:2915-2921 | the region of a node is closed under the children of its non-quantifier nodes |
| QuantSpec.NewLemmasAreTheUncached | src/bzlaslvquantn.c:3417-3437 | add_pending_lemmas asserts exactly the pending lemmas not in the cache, each once |
| QuantSpec.NewLemmasSnoc | src/bzlaslvquantn.c:3422-3433 | one more pending lemma is asserted exactly when it is neither cached nor earlier in the batch |
| QuantSpec.NewLemmasOfCached | src/bzlaslvquantn.c:3426-3429 | pending lemmas that are all cached assert nothing |
| QuantSpec.ToCheck | src/bzlaslvquantn.c:3671-3690 | the quantifiers to check are exactly the active ones with forall phase that are not inactive, without repeats |
| QuantSpec.ToCheckSnoc | src/bzlaslvquantn.c:3671-3690 | one more active quantifier adds itself to the check list exactly when universal and not inactive |
| QuantSpec.Unfailed | src/bzlaslvquantn.c:4004-4018 | the kept assumptions are exactly those the last check did not report failed |
| QuantSpec.UnfailedKeepsAll | src/bzlaslvquantn.c:4004-4051 | nothing is dropped exactly when no assumption failed |
| QuantSpec.GroundCheckEnds | src/bzlaslvquantn.c:3979-4076 | the ground check ends under assumptions drawn from the initial ones, with the result of that check, and after a non-SAT end none of them failed |
| QuantSpec.GroundCheckWithoutAssumptions | src/bzlaslvquantn.c:3979-4076 | without counterexample literals the ground check is the plain check of the constraints |
| Terms.NewIsUnreached | src/bzlaslvquantn.c:3264 | a node not created before a serial occurs in no node that was |
| Substitution.FreshParam | src/bzlaslvquantn.c:3056-3059 | the unique copy of a parameter is a parameter of the same sort and binder kind with no children; it was not created before the substitution's first serial, and for a parameter created before that serial it is a different node, created before twice that serial |
| Substitution.FreshParamInjective | src/bzlaslvquantn.c:3056-3059 | distinct parameters get distinct unique copies |
| Substitution.RewriteChildren | src/bzlaslvquantn.c:3046-3052 | the children of a rebuilt node are the rewrites of its children, negated like the original edges |
| Substitution.RewriteKeepsSort | src/bzlaslvquantn.c:3124 | a substitution whose values have the sorts of their keys keeps the sort of every node |
| Substitution.RebuildNode | src/bzlaslvquantn.c:3044-3136 | rebuilding a node whose children are done gives its specified rewrite, and records it in the backref table exactly when it is a universal parameter or a quantifier that stays a quantifier |
| Substitution.BackrefComplete | src/bzlaslvquantn.c:3026-3033 | when the loop ends the backref table holds exactly the specified entries |
| Substitution.RebuiltQuantifierIsNew | src/bzlaslvquantn.c:3110-3121 | the copy of every quantifier the substitution rebuilds was not created before its first serial |
| Substitution.BackrefSpecCreated | src/bzlaslvquantn.c:3026-3033 | every key of the specified backref table was created before the first serial, every copy before twice that serial, and the copy of a quantifier is new |
| Substitution.Substitute | src/bzlaslvquantn.c:2988-3150 | the iterative rewrite returns the specified rewrite of the root, with the root's negation, and fills exactly the specified backref table |
| QuantTraversal.CollectTopQuantifiers | src/bzlaslvquantn.c:2853-2929 | collects exactly the top-level quantifiers of the constraints that are not inactive, once each, each with the phase the model gives it |
| QuantTraversal.VariableDependencies | src/bzlaslvquantn.c:3736-3774 | the dependencies of q are distinct, non-negated universal parameters free in q, never q's own variable, and include every free universal parameter no quantifier below q binds; none when q has no free parameter |
| QuantSolver.ModelValue | src/bzlaslvquantn.c:3539-3560 | the model value of a node is a constant (not a parameter) of the node's sort |
| QuantSolver.ModelValues | src/bzlaslvquantn.c:3595-3605 | the model values of the instantiation constants, one per constant, in order |
| QuantSolver.CeLiteralsDistinct | src/bzlaslvquantn.c:3390-3415 | on consistent literal tables the literal of a quantifier is the literal of no other |
| QuantSolver.CeTablesAdd | src/bzlaslvquantn.c:3390-3415 | a fresh Boolean literal for a new quantifier keeps the literal tables consistent and differs from every existing literal |
| QuantSolver.LiveLiterals | src/bzlaslvquantn.c:3969-3976 | the literals of exactly the quantifiers that are not inactive |
| QuantSolver.Bzla.constructor | src/bzlaslvquantn.c:4089-4098 | the clone starts with the user's formulas, no lemmas and the given engine |
| QuantSolver.Bzla.Sat | src/bzlaslvquantn.c:3706-3711 | a check drops the previous assumptions, checks the constraints and lemmas under the new ones, and records both |
| QuantSolver.QuantSolverState.constructor | src/bzlaslvquantn.c:103-158 | a fresh state has every table empty |
| QuantSolver.QuantSolverState.SetInactive | src/bzlaslvquantn.c:3618-3624 | a quantifier that is not inactive is added, and the inactive set strictly grows |
| QuantSolver.QuantSolverState.AddBackref | src/bzlaslvquantn.c:2816-2851 | an existing entry is never overwritten; a new one points at the root of qto; when qfrom has no entry and is not that root, the table stays acyclic and qfrom leads to that root |
| QuantSolver.QuantSolverState.AddInstance | src/bzlaslvquantn.c:3152-3207 | a new instance gets the dependencies of its original with every substituted variable replaced; a copy equal to its original or already recorded changes nothing; other entries are kept |
| QuantSolver.QuantSolverState.RecordInstances | src/bzlaslvquantn.c:3226-3237 | the copy of every rebuilt quantifier is recorded; every new backref entry is the copy of a rebuilt quantifier k, points at the root of k in the old table and carries the dependencies of k with the substituted variables replaced; the tables only grow and the backref table stays acyclic |
| QuantSolver.QuantSolverState.RecordInstance | src/bzlaslvquantn.c:3229-3235 | one round of the loop: the copy of k gets a backref entry, and the recording invariant (acyclic table, entries only for recorded copies) is kept |
| QuantSolver.QuantSolverState.Instantiate | src/bzlaslvquantn.c:3209-3240 | the instance is the specified rewrite of q; the copy of every rebuilt quantifier is a new node, in no asserted formula and not in the old table, recorded as an instance of its original's root with the mapped dependencies; the state stays valid, so the backref table stays acyclic; the counter moves past every fresh parameter |
| QuantSolver.QuantSolverState.RecordAndAdvance | src/bzlaslvquantn.c:3226-3237 | records the copies of a substitution as RecordInstances does, keeping the state valid, and moves the counter past the fresh parameters |
| QuantSolver.QuantSolverState.CopiesAreNew | src/bzlaslvquantn.c:3224-3235 | the copy of every quantifier a substitution rebuilds is in no asserted formula and has no backref entry yet |
| QuantSolver.QuantSolverState.CreatedIsNew | src/bzlaslvquantn.c:3264 | a node not created before the counter occurs in no asserted formula |
| QuantSolver.SkolemFor | src/bzlaslvquantn.c:3278-3348 | the skolem mk_skolem makes has the sort of the variable and is never a parameter; the skolem table only grows and the counter moves by at most one |
| QuantSolver.QuantSolverState.GetInstConstant | src/bzlaslvquantn.c:3242-3276 | a repeat call returns the cached constant and changes nothing; a first call creates a constant of the variable's sort with the next serial, in no asserted formula and different from every other instantiation constant, and adds exactly that entry |
| QuantSolver.QuantSolverState.GetCeLiteral | src/bzlaslvquantn.c:3390-3415 | a repeat call returns the cached literal and changes nothing; a first call creates a Boolean constant with the next serial, in no asserted formula, and appends q to the creation order; the literal differs from every other quantifier's |
| QuantSolver.QuantSolverState.NewCeLiteral | src/bzlaslvquantn.c:3404-3412 | the new literal is the Boolean constant with the next serial, in no asserted formula and different from every existing literal, added for q alone |
| QuantSolver.QuantSolverState.MkSkolemAux | src/bzlaslvquantn.c:3278-3327 | without dependencies nothing and no change; otherwise exactly what SkolemFor gives: the skolem function of the root original, created with the dependency sorts when missing, applied to the dependencies; a function it creates is in no asserted formula |
| QuantSolver.QuantSolverState.NewSkolemFunction | src/bzlaslvquantn.c:3313-3319 | the skolem function is an uninterpreted function with the next serial, in no asserted formula, cached under the root original |
| QuantSolver.QuantSolverState.MkSkolem | src/bzlaslvquantn.c:3329-3348 | the skolem, table and counter are exactly those SkolemFor gives; without dependencies the skolem is a fresh constant in no asserted formula |
| QuantSolver.QuantSolverState.NewSkolemConstant | src/bzlaslvquantn.c:3343-3346 | the skolem constant has the given sort and the next serial, and is in no asserted formula |
| QuantSolver.QuantSolverState.GetSkolem | src/bzlaslvquantn.c:3350-3388 | a repeat call returns the cached skolem and changes nothing; a first call returns what mk_skolem makes for q, of the variable's sort and never a parameter, and caches it under q; other entries are kept |
| QuantSolver.QuantSolverState.AssertUncached | src/bzlaslvquantn.c:3565-3572 | an uncached lemma is asserted once and cached; a cached one changes nothing |
| QuantSolver.QuantSolverState.AddLemma | src/bzlaslvquantn.c:3562-3575 | a cached lemma changes nothing; otherwise it is asserted once, cached, and added_lemma is set |
| QuantSolver.QuantSolverState.AddPendingLemmas | src/bzlaslvquantn.c:3417-3437 | asserts exactly the uncached pending lemmas, once each and in order, caches all pending lemmas, empties the stack, and reports whether any was asserted |
| QuantSolver.QuantSolverState.SkolemsFor | src/bzlaslvquantn.c:3461-3470 | the skolems of every binder of the chain, in order, created where missing |
| QuantSolver.QuantSolverState.InstConstantsFor | src/bzlaslvquantn.c:3518-3524 | the instantiation constants of every binder of the chain, in order, created where missing |
| QuantSolver.QuantSolverState.GetSkolemizationLemma | src/bzlaslvquantn.c:3439-3485 | a repeat call returns the cached lemma and changes nothing; a first call caches "not q implies not q's instance by the skolems of its binders" |
| QuantSolver.QuantSolverState.MkCeLemma | src/bzlaslvquantn.c:3513-3536 | for the constants ics of the binders, the lemma is "q's literal implies that q's instance by ics is false", built after the instance, and is cached under q |
| QuantSolver.QuantSolverState.NewCeLemma | src/bzlaslvquantn.c:3513-3536 | a first call of get_ce_lemma: the instantiation constants and the literal exist afterwards, and the cached lemma is the counterexample lemma of q for them |
| QuantSolver.QuantSolverState.CacheCeLemma | src/bzlaslvquantn.c:3530-3535 | the lemma is the implication from q's literal to the negated instance, cached under q; the backref and dependency tables do not change |
| QuantSolver.QuantSolverState.NewSkolemizationLemma | src/bzlaslvquantn.c:3457-3483 | a first call of get_skolemization_lemma: every binder of q has a skolem afterwards, and the cached lemma is the skolemization lemma of q for them |
| QuantSolver.QuantSolverState.MkSkolemizationLemma | src/bzlaslvquantn.c:3473-3481 | for the skolems sks of the binders, the lemma is "not q implies not q's instance by sks", cached under q |
| QuantSolver.QuantSolverState.InstantiateChain | src/bzlaslvquantn.c:3473-3608 | instantiating q for the variables of its binder chain gives the specified rewrite of q, and the tables only grow |
| QuantSolver.QuantSolverState.GetCeLemma | src/bzlaslvquantn.c:3492-3537 | a repeat call returns the cached lemma and changes nothing; a first call caches the counterexample lemma of q |
| QuantSolver.QuantSolverState.MkValueLemma | src/bzlaslvquantn.c:3588-3613 | q implies its instance by the model values of the instantiation constants of its binders |
| QuantSolver.QuantSolverState.AddValueInstantiationLemma | src/bzlaslvquantn.c:3577-3616 | the value instantiation lemma of q is asserted unless cached, and added_lemma is set exactly when it is new |
| QuantSolver.QuantSolverState.BuildValueLemma | src/bzlaslvquantn.c:3608-3613 | for the values vals of the binders, the lemma is "q implies q's instance by vals" |
| QuantSolver.QuantSolverState.GetActiveQuantifiers | src/bzlaslvquantn.c:2853-2929 | the active quantifiers become exactly the top-level quantifiers of the constraints that are not inactive, each with its phase in the last model |
| QuantSolver.QuantSolverState.ComputeVariableDependencies | src/bzlaslvquantn.c:3776-3811 | every parameterized quantifier of the clone gets a dependency list, existing entries are kept, and each new entry is a dependency list of its quantifier |
| QuantSolver.QuantSolverState.ComputeDependenciesOf | src/bzlaslvquantn.c:3792-3809 | a parameterized quantifier without an entry gets its dependency list, and nothing else changes |
| QuantSolver.QuantSolverState.AddCeLemma | src/bzlaslvquantn.c:3680 | the counterexample lemma of q is cached and asserted, and added_lemma is set exactly when it was set or a lemma was asserted |
| QuantSolver.QuantSolverState.AddSkolemizationLemma | src/bzlaslvquantn.c:3688 | the skolemization lemma of q is cached and asserted, and added_lemma is set exactly when it was set or a lemma was asserted |
| QuantSolver.QuantSolverState.AddActiveLemma | src/bzlaslvquantn.c:3674-3689 | q is to be checked exactly when universal and not inactive, and then its counterexample lemma is asserted; an existential q gets its skolemization lemma asserted; added_lemma is set exactly when it was set or a lemma was asserted |
| QuantSolver.QuantSolverState.AddActiveLemmaAt | src/bzlaslvquantn.c:3672-3690 | one round of the first loop: the check list grows to that of one more active quantifier, and the lemmas of the quantifiers seen so far stay asserted |
| QuantSolver.QuantSolverState.AddActiveLemmas | src/bzlaslvquantn.c:3671-3690 | returns exactly the quantifiers to check, in order, with their counterexample lemmas asserted; every existential active quantifier has its skolemization lemma asserted; added_lemma is set exactly when it was set or a lemma was asserted |
| QuantSolver.QuantSolverState.Refine | src/bzlaslvquantn.c:3713-3728 | on SAT the asserted lemma is the value instantiation lemma of q for the model values of the instantiation constants of its binders, and it is cached; otherwise no lemma is asserted and q becomes inactive exactly when its literal failed; added_lemma is set exactly when it was set or a lemma was asserted |
| QuantSolver.QuantSolverState.CheckCounterexample | src/bzlaslvquantn.c:3703-3728 | checks under q's literal alone; q becomes inactive exactly when that check is not SAT and the literal failed; when it is SAT, the value instantiation lemma of q for the model values of that check is asserted and cached; added_lemma is set exactly when it was set or a lemma was asserted |
| QuantSolver.QuantSolverState.CheckCounterexampleAt | src/bzlaslvquantn.c:3701-3729 | one round of the second loop: only the quantifier checked may become inactive, and the count of inactive ones equals the number checked exactly when all of them are inactive |
| QuantSolver.QuantSolverState.CheckCounterexamples | src/bzlaslvquantn.c:3700-3730 | only quantifiers of the list become inactive, done holds exactly when all of them are inactive at the end, the asserted counterexample and skolemization lemmas stay asserted, and added_lemma is set exactly when it was set or a lemma was asserted |
| QuantSolver.QuantSolverState.CheckEachCounterexample | src/bzlaslvquantn.c:3700-3730 | the loop alone: only quantifiers of the list become inactive, done holds exactly when all of them are inactive, and the lemma cache only grows |
| QuantSolver.QuantSolverState.CheckActiveQuantifiers | src/bzlaslvquantn.c:3657-3734 | the counterexample lemma of every universal active quantifier that was not inactive and the skolemization lemma of every existential one are asserted; only universal active quantifiers become inactive; done holds exactly when every universal active quantifier is inactive; added_lemma is set exactly when it was set or a lemma was asserted |
| QuantSolver.QuantSolverState.CheckCeLiteral | src/bzlaslvquantn.c:3923-3937 | checks under q's literal alone; q becomes inactive exactly when that check is UNSAT and the literal failed |
| QuantSolver.QuantSolverState.CheckCeLiterals | src/bzlaslvquantn.c:3895-3942 | the inactive set only grows, and only by universal active quantifiers; the result holds exactly when every universal active quantifier is inactive at the end |
| QuantSolver.QuantSolverState.CheckCeLiteralAt | src/bzlaslvquantn.c:3908-3939 | one round of the loop: only a universal quantifier seen so far may become inactive, and the two counts agree exactly when every universal quantifier seen so far is inactive |
| QuantSolver.QuantSolverState.GroundAssumptions | src/bzlaslvquantn.c:3969-3976 | the counterexample literals of exactly the quantifiers that are not inactive |
| QuantSolver.QuantSolverState.CollectGroundAssumptions | src/bzlaslvquantn.c:3969-3976 | the loop collects the literals of the quantifiers that are not inactive, in creation order |
| QuantSolver.QuantSolverState.DropFailed | src/bzlaslvquantn.c:4004-4018 | keeps exactly the assumptions that did not fail, and reports whether any failed |
| QuantSolver.QuantSolverState.CheckGroundFormulas | src/bzlaslvquantn.c:3944-4080 | an inconsistent clone is UNSAT at once; otherwise the result and the final assumptions are those of the ground check from the live literals |
| QuantSolver.QuantSolverState.InstantiationRound | src/bzlaslvquantn.c:4112-4115 | the active quantifiers become exactly the top-level quantifiers of the constraints that are not inactive, each with its phase in the last model; their lemmas are asserted as CheckActiveQuantifiers states; added_lemma is set exactly when a lemma was asserted in the round; the inactive set only grows; done holds exactly when every universal active quantifier is inactive |
| QuantSolver.QuantSolverState.RefinementRound | src/bzlaslvquantn.c:4108-4130 | an inconsistent clone is UNSAT; otherwise the ground result is that of the ground check from the live literals; after a non-SAT one the round is not done, no lemma is asserted, and the inactive set and the literals are unchanged, so the ground check of the state after it is the same; the inactive set only grows; after a SAT one in which no lemma was asserted, the formulas are satisfiable under the final assumptions, the phases are that model's values, and every top-level quantifier is active or inactive; after a SAT one the active quantifiers, their phases in the ground model, the asserted lemmas, the meaning of added_lemma and done are those of InstantiationRound |
| QuantSolver.LemmaFlagTracksNone | src/bzlaslvquantn.c:4113-4128 | when added_lemma is clear before and after a round, the round asserted no lemma |
| QuantSolver.QuantSolver.constructor | src/bzlaslvquantn.c:4214-4238 | a new solver has no state yet |
| QuantSolver.QuantSolver.CheckQuantifiers | src/bzlaslvquantn.c:4082-4139 | the state is created on the first call; the lemmas and the inactive set only grow; UNSAT exactly after a non-SAT ground check, so the final state is inconsistent or its ground check from the live literals is not SAT; SAT only when done and no lemma was asserted in the last round: the formulas with every lemma are satisfiable under the ground model's assumptions, every top-level quantifier is active or inactive, every universal active one is inactive and every existential one has its skolemization lemma asserted; UNKNOWN without running out of fuel: the same ground model, no new lemma, and some universal active quantifier not inactive; the fuel runs out only after each round asserted a new lemma |
| QuantSolver.QuantSolver.CheckSat | src/bzlaslvquantn.c:4143-4158 | aborts exactly in incremental mode, and then leaves the state and the clone unchanged; otherwise the state exists, the lemmas only grow, UNSAT means the clone is inconsistent or its ground check fails, SAT means the formulas have a ground model in which every top-level quantifier is active or inactive, every universal active one is inactive, every existential one is skolemized and no lemma was added, and UNKNOWN means the fuel ran out after a new lemma in each round, or such a ground model with some universal active quantifier not inactive |
| BvValues.Zero | src/api/c/bitwuzla.h:1722-1731 | a value of width w with no bit set |
| BvValues.One | src/api/c/bitwuzla.h:1733-1742 | a value of width w with only the least significant bit set |
| BvValues.Ones | src/api/c/bitwuzla.h:1744-1754 | a value of width w with every bit set |
| BvValues.MinSigned | src/api/c/bitwuzla.h:1756-1767 | a value of width w with only the most significant bit set |
| BvValues.MaxSigned | src/api/c/bitwuzla.h:1769-1781 | a value of width w with every bit set but the most significant one |
| BvValues.Uint64 | src/api/c/bitwuzla.h:1876-1891 | a 64-bit value truncated to width w: the same low w bits, and unchanged when it fits |
| BvValues.True | src/api/c/bitwuzla.h:1701-1709 | true is the value one of the Boolean sort, which is the bit-vector sort of width 1 |
| BvValues.False | src/api/c/bitwuzla.h:1712-1720 | false is the value zero of the Boolean sort, which is the bit-vector sort of width 1 |
| BvValues.SignBit | src/api/c/bitwuzla.h:1756-1781 | the most significant bit is set exactly on the values read as negative in two's complement |
| BvValues.SignedRange | src/api/c/bitwuzla.h:1756-1781 | min_signed and max_signed read as -2^(w-1) and 2^(w-1)-1, and bound every value of width w |
| BvValues.OnesIsMinusOne | src/api/c/bitwuzla.h:1744-1754 | all ones reads as -1 and is min_signed plus max_signed |
| BvValues.OnesIsUint64OfAllOnes | src/api/c/bitwuzla.h:1876-1891 | the 64-bit all-ones value truncated to width w (up to 64) is all ones of width w |
| BitwuzlaApi.ResultOfCode | src/api/c/bitwuzla.h:1406-1412 | only the codes 0, 10 and 20 stand for a result |
| BitwuzlaApi.ResultCodesRoundTrip | src/api/c/bitwuzla.h:1406-1412 | every result decodes from its code, and from no other code |
| BitwuzlaApi.Flatten | src/api/c/bitwuzla.h:2185-2224 | the assertions of all levels are the members of some level |
| BitwuzlaApi.FlattenAppend | src/api/c/bitwuzla.h:2201-2216 | the assertions of two stacked groups of levels are those of the lower group followed by those of the upper one |
| BitwuzlaApi.Bitwuzla.constructor | src/api/c/bitwuzla.h:1450-1484 | a new instance is not incremental, at rewrite level 3, with one empty level, no assumptions, no result and no callback |
| BitwuzlaApi.Bitwuzla.SetOption | src/api/c/bitwuzla.h:38-157 | incremental solving takes 0 or 1 and cannot be changed after a check; the rewrite level takes 0 to 3 and cannot be changed once terms exist, which every asserted or assumed term implies; a refused call changes nothing |
| BitwuzlaApi.Bitwuzla.Intern | src/api/c/bitwuzla.h:155-156 | creating a term marks the instance as having terms |
| BitwuzlaApi.Bitwuzla.MkBvValueUint64 | src/api/c/bitwuzla.h:1876-1891 | the bit-vector constant of width w holding the truncated value |
| BitwuzlaApi.Bitwuzla.Push | src/api/c/bitwuzla.h:2185-2199 | n empty levels on top, refused without incremental solving; the assertions do not change |
| BitwuzlaApi.Bitwuzla.Pop | src/api/c/bitwuzla.h:2201-2216 | drops the top n levels and exactly their assertions; refused without incremental solving and when level 0 would go |
| BitwuzlaApi.Bitwuzla.Assert | src/api/c/bitwuzla.h:2218-2224 | the assertions grow by exactly t, on the top level, and the instance has terms |
| BitwuzlaApi.Bitwuzla.Assume | src/api/c/bitwuzla.h:2226-2242 | the assumptions grow by exactly t; refused without incremental solving; the instance has terms |
| BitwuzlaApi.Bitwuzla.FixateAssumptions | src/api/c/bitwuzla.h:2304-2312 | every assumption becomes an assertion, in order, and none is left assumed |
| BitwuzlaApi.Bitwuzla.ResetAssumptions | src/api/c/bitwuzla.h:2314-2322 | every assumption is dropped |
| BitwuzlaApi.Bitwuzla.SetTerminationCallback | src/api/c/bitwuzla.h:1510-1526 | the callback and its state are configured |
| BitwuzlaApi.Bitwuzla.Terminate | src/api/c/bitwuzla.h:1500-1508 | true exactly when a callback is configured and returns a value above 0 on its state |
| BitwuzlaApi.Bitwuzla.GetTerminationCallbackState | src/api/c/bitwuzla.h:1528-1542 | exactly the state the callback was configured with |
| BitwuzlaApi.Bitwuzla.CheckSat | src/api/c/bitwuzla.h:2339-2362 | decides the assertions together with the assumptions, UNKNOWN when terminated; drops the assumptions and records the result; a second check without incremental solving is refused and changes nothing |
| BitwuzlaApi.Bitwuzla.GetValue | src/api/c/bitwuzla.h:2364-2376 | the model value of the last check, refused unless that check was SAT |
| BitwuzlaApi.Bitwuzla.UnsatAssumptions | src/api/c/bitwuzla.h:2265-2285 | exactly the assumptions of the last check that failed |
| BitwuzlaApi.Bitwuzla.GetUnsatCore | src/api/c/bitwuzla.h:2287-2302 | exactly the assertions of the last check in its unsat core; refused unless that check was UNSAT |
| BitwuzlaApi.Bitwuzla.GetUnsatAssumptions | src/api/c/bitwuzla.h:2265-2285 | exactly the failed assumptions; refused without incremental solving or unless the last check was UNSAT |
| BitwuzlaApi.Bitwuzla.IsUnsatAssumption | src/api/c/bitwuzla.h:2244-2263 | whether t is a failed assumption of the last check; refused without incremental solving or unless that check was UNSAT |
| BitwuzlaApi.PushPopSession | src/api/c/bitwuzla.h:2185-2216 | asserting a, pushing, asserting b and popping leaves exactly a; a second pop underflows; push without incremental solving is refused |
| BitwuzlaApi.AssumptionSession | src/api/c/bitwuzla.h:2226-2242 | an assumption made on a pushed level survives the pop, takes part in the next check, and is gone after it |
| BitwuzlaApi.RewriteLevelSession | src/api/c/bitwuzla.h:150-157 | the rewrite level can be set on a fresh instance and is refused once a term was asserted, or assumed |
| BitwuzlaApi.SingleCheckSession | src/api/c/bitwuzla.h:2339-2362 | without incremental solving a second check is refused and incremental solving cannot be switched on; a terminated instance answers UNKNOWN and keeps its callback state |

## Left out

- Code under `#if 0` in `src/bzlaslvquantn.c` is not modelled. It is not
  part of the program.
- The ground solver, failed-assumption queries and model assignments are
  an oracle:
  - `bzla->slv->api.sat`, `bzla_failed_exp`, `bzla_model_get_bv_assignment`;
  - `bzla_reset_incremental_usage` appears only as the check's fresh
    assumptions;
  - `bzla_clone` and `bzla_new_fun_solver` appear as the clone's constant
    parts.
- The writes to `bzla->last_sat_result` marked as a hack are not modelled.
- The term and sort constructors (`bzla_exp_*`, `bzla_node_create_var`,
  `bzla_node_mk_param_with_unique_symbol`) are structural, hash-consed
  constructors:
  - `bzla_exp_create` is assumed to build the node it is asked for. The
    rewriting it may do at higher rewrite levels is not modelled.
  - Slices and floating-point conversions are rebuilt like any other node
    with their indices.
- The floating-point branch of `get_value` is not modelled (floating
  point).
- Timing, `log` output and `BZLA_MSG` are not modelled.
- Reference counting, `delete_quant_solver_state` and stack
  initialisation and release are left out (memory management).
- The empty stubs are not modelled: `add_instantiation_lemma`, and
  `get_model`, `generate_model` and the print functions.
- The `instances` and `instantiated` tables are never used by the live
  code, so they are not modelled.
- The `to_synth` stack only feeds the empty `get_model`, so it is not
  modelled.
- The constraints the clone checks and searches are its formulas plus the
  lemmas asserted so far. The source's split into synthesized and
  unsynthesized constraints is not modelled.
- Quantifier nodes are identified by value. Two structurally equal nodes
  are one node, as hash-consing makes them in the source.
- QuantSolver.QuantSolver.CheckQuantifiers: the refinement loop runs at
  most `fuel` rounds and answers UNKNOWN when the fuel runs out. The
  source loops until it decides.
- QuantSpec.FindBackref: follows at most as many edges as the table has
  entries. The source follows the chain with no bound and would not end on
  a cycle. The solver state keeps the table acyclic as an invariant:
  every entry `Instantiate` adds is for the copy of a rebuilt quantifier,
  a node created by that substitution, which is no root of the table.
- QuantSolver.Bzla.constructor: the clone's inconsistency flag and its
  list of quantifiers are fixed when the clone is made. Lemmas cannot make
  the clone inconsistent before its ground check is modelled.
  `compute_variable_dependencies` runs once per call of
  `check_quantifiers`, before the refinement loop
  (`src/bzlaslvquantn.c:4102`), so the quantifiers it visits are those of
  the clone at that point.
- QuantSolver.QuantSolverState.GetActiveQuantifiers: states the set of
  active quantifiers and their phases. It does not state the order in
  which the search meets them, which is iteration order over the source's
  hash tables.
- QuantSolver.QuantSolverState.ComputeVariableDependencies: states which
  variables a dependency list holds, not their order.
- QuantSolver.QuantSolverState.AddActiveLemmas: states which lemmas end up
  cached and asserted, not the order in which they are asserted.
- QuantSolver.QuantSolverState.CheckCounterexamples: states which
  quantifiers become inactive and when the round is done, not which value
  instantiation lemmas are asserted. `CheckCounterexample` states the
  lemma for each quantifier it checks.
- QuantSolver.QuantSolverState.CheckEachCounterexample: the loop of
  `CheckCounterexamples`; the same as CheckCounterexamples.
- QuantSolver.QuantSolverState.CheckActiveQuantifiers: the same as
  CheckCounterexamples.
- The abort of `check_sat_quant_solver` in incremental mode is a result
  value `Aborted`, not a process abort.
- The global abort callback of the C interface is not modelled.
- Parse, print and dump are not modelled (file I/O).
- Tuning options are not modelled: local search, propagation, and every
  option other than incremental solving and the rewrite level.
- Floating-point values from real or rational strings are not modelled
  (floating point).
- The semantics of each operator kind are not modelled.
- `bitwuzla_delete` and `bitwuzla_reset` are not modelled (lifetime of
  handles).
- `bitwuzla_mk_bv_value` from strings is not modelled (string parsing);
  the `uint64` constructor is.
- The unsat core is the oracle's choice, restricted to the assertions of
  the last check. Assertion tracking is not modelled.
- BitwuzlaApi.Bitwuzla.GetValue: the value is the oracle's. The model
  does not state that it satisfies the checked formula.
- `check_ce_literals` is static and never called in the live code. It is
  modelled all the same.
- `add_pending_lemmas` (`src/bzlaslvquantn.c:3417-3436`) has no live
  caller: its only use is commented out at line 3482, and nothing pushes
  onto the pending stack. It is modelled all the same, as
  `AddPendingLemmas`.
- AddInstance: the source asserts that the original q has a dependency
  entry (`src/bzlaslvquantn.c:3182-3183`) and reads it without a check.
  The model does not require the entry: an original without one passes
  no dependencies to its copy. `substitute` gives every parameter a
  unique copy, so a quantifier with no free universal parameter is
  rebuilt and recorded too, and such a quantifier has no entry.
- GetSkolem: when q has dependencies and is its own root original,
  `mk_skolem_aux` caches the skolem function under q and `get_skolem` then
  adds a second entry for q (`src/bzlaslvquantn.c:3318`, `3384`). The
  model lets the later entry, the application, replace the function. How
  the hash table treats a second entry for a key is not part of this
  model.
- QuantSolver.QuantSolver.CheckSat: an UNKNOWN outcome does not say
  whether the fuel ran out, because that is a ghost result of
  `CheckQuantifiers`. It states both possible meanings as a disjunction.
- ComputeDependenciesOf: the source asserts that the dependency list of a
  parameterized quantifier is not empty (`src/bzlaslvquantn.c:3808`). That
  fails for an inner quantifier whose only free parameters are bound
  existentially, such as the universal quantifier of `exists y. forall z.
  y <= z`. The model stores the empty list, which is what the source does
  when assertions are compiled out. `VariableDependencies` holds only free
  universal parameters of q, so the list is empty when q has none.
