# Constraint propagators and the Futoshiki encodings, in Dafny

This project models two parts of a small constraint-satisfaction solver.

- **The propagators** (`propagators.py`) are called by a backtracking search after each assignment:
  - plain backtracking (`prop_BT`) checks the constraints whose scope is fully assigned;
  - forward checking (`prop_FC`) prunes against the constraints that have one unassigned variable left;
  - generalized arc consistency (`prop_GAC`) runs a worklist of constraints until each one supports every current value of its scope.

  Each one changes domains in place through `prune_value` and returns `(ok, pruned)`. The search later undoes the prunes with that list.
- **The Futoshiki model builder** (`futoshiki_csp.py`) reads an n × (2n − 1) board of numbers and signs. It builds one variable per cell, the tables of satisfying tuples, and the constraints of two encodings:
  - model 1 puts a binary constraint on every pair of cells in a row or column: a column pair, and a row pair that is not adjacent or has no sign between its cells, gets not-equal; two adjacent row cells with a `<` or `>` between them get that inequality;
  - model 2 uses a binary constraint per inequality sign, plus one all-different constraint per row and per column. Its table is every ordering of 1..n.

Modules:

- `Csp` (csp.dfy): the abstract variables, constraints and CSP the propagators call into.
  - A constraint is a scope plus a set of tuples; `check` is membership in that set.
  - `has_support` is the existence of a satisfying tuple drawn from the current domains.
  - Variables live in a `Network` class with the current domains and assignments as fields.
  - Prune lists are modelled as trails, and restoring a trail is proved to be the inverse of applying it.
- `Propagators` (propagators.dfy): `PropBT`, `PropFC` and `PropGAC` as methods with loops. Each is proved against predicates that say:
  - which values may be pruned, and which must be;
  - that the returned list is exactly what was removed;
  - that no solution is cut off;
  - that a `False` verdict means a domain was emptied.
- `FutoshikiTuples` (futoshiki_tuples.dfy): the insertion recursion of `futoshiki_model_2_tuples`.
  - It is a function `Perms` plus lemmas: the table holds exactly the orderings of 1..k, each once, k! of them.
  - A pigeonhole lemma shows that k different values from 1..k form an ordering.
  - The recursive method `Model2Tuples` computes it.
- `FutoshikiCsp` (futoshiki_csp.dfy):
  - the board, the cells and the variable array (`GenVarArr`);
  - the CSP object (`CspBuilder`, a class whose `vars` and `cons` sequences grow);
  - the table loops;
  - the constraint loops of `get_ineq_contraints` and `get_col_constraints`, each proved to produce a list given by the functions `Model1Cons` and `Model2Cons`.
- `FutoshikiRules` (futoshiki_rules.dfy): what the two encodings promise.
  - The number and shape of their constraints: model 1 has n·n(n−1) binary constraints over two different cells, and model 2 has one per inequality sign plus 2n all-different constraints.
  - A grid within the variables' domains satisfies every constraint of either model exactly when it solves the puzzle: a Latin square over 1..n that keeps the given numbers and obeys every sign. So the two models accept the same grids.

## Model

| member | source | states |
|---|---|---|
| Csp.ConsWith | propagators.py:117 | every listed index is a constraint whose scope holds the variable |
| Csp.ConsWithComplete | propagators.py:117 | every constraint whose scope holds the variable is listed (with ConsWith: exactly those) |
| Csp.AllCons | propagators.py:115 | `get_all_cons` lists every constraint, in order |
| Csp.Unassigned | propagators.py:131-133 | `get_unasgn_vars` lists only unassigned variables of the scope, at most one per scope position |
| Csp.UnassignedComplete | propagators.py:131-133 | every unassigned scope variable is listed |
| Csp.TrailSnoc | propagators.py:156-159 | pruning a value still present extends a valid prune list by one record and removes exactly that value |
| Csp.ApplyPrunesAt | propagators.py:31-34 | after a prune list, each domain has lost exactly the values the list names for it |
| Csp.UnpruneAt | propagators.py:31-34 | restoring a list gives each domain back exactly the values it names for it |
| Csp.RemovedHas | propagators.py:31-34 | a (variable, value) record is in the list iff its value is among those removed from its variable |
| Csp.ValidTrailIff | propagators.py:36-37 | a prune list is valid (each value present when pruned) iff it has no duplicate record and every value was in the domain before the call |
| Csp.RemovedWithin | propagators.py:36-37 | a valid list removes only values of the domain it started from |
| Csp.RestoreRoundTrip | propagators.py:31-34 | restoring a valid prune list returns every domain to its state before the prunes |
| Csp.TotalSizeRemove | propagators.py:213 | one prune lowers the total domain size by exactly one |
| Csp.TrailShrinks | propagators.py:202-222 | a valid list's length plus the remaining total domain size is the starting total size (the termination measure of GAC) |
| Csp.NonemptySnoc | propagators.py:161-163 | a prune that leaves its domain non-empty keeps every domain named in the list non-empty |
| Csp.Pick | propagators.py:143 | the next value of a non-empty domain snapshot is one of its values |
| Csp.Network.constructor | propagators.py:12-14 | a network starts with every variable unassigned and its current domain equal to its original one |
| Csp.Network.PruneValue | propagators.py:159 | `prune_value` removes exactly one present value from one domain and changes nothing else |
| Csp.Network.UnpruneValue | propagators.py:31-34 | puts back exactly one pruned value of the original domain |
| Csp.Network.Assign | propagators.py:17-19 | records the assignment of one variable; domains unchanged |
| Csp.Network.Unassign | propagators.py:17-19 | clears one assignment; domains unchanged |
| Csp.Network.Restore | propagators.py:31-34 | undoing a propagator's prune list restores every domain to its state before the call |
| Propagators.Working | propagators.py:114-117 | the working constraints are constraint indices |
| Propagators.WorkingMembers | propagators.py:195-198 | the working set is all constraints without `newVar`, else exactly those whose scope holds it |
| Propagators.AssignedValues | propagators.py:72-75 | collects the assigned values of the scope, in scope order |
| Propagators.BtScan | propagators.py:70-77 | succeeds iff every listed constraint that is fully assigned is satisfied by its assigned tuple |
| Propagators.PropBT | propagators.py:64-78 | never prunes; `True` without `newVar`; otherwise `False` iff some constraint on `newVar` with no unassigned variable fails `check` on its assigned values |
| Propagators.SolutionPassesBt | propagators.py:65-66 | a solution extending the assignment passes every BT test, so a BT failure means no solution extends it |
| Propagators.FcTarget | propagators.py:131-133 | the single unassigned variable is in the scope and every other scope variable is assigned |
| Propagators.FcPairs | propagators.py:128-134 | every (constraint, target) pair lists a working constraint with exactly one unassigned variable, and that variable |
| Propagators.FcPairsComplete | propagators.py:128-134 | every working constraint with one unassigned variable is listed with it |
| Propagators.FcCollect | propagators.py:128-134 | the `single` list built by the collection loop is FcPairs of the working set |
| Propagators.SubstitutedValues | propagators.py:147-154 | the tuple holds the value at the target's positions and the assigned values elsewhere |
| Propagators.SolutionPassesFc | propagators.py:143-156 | a solution extending the assignment passes the FC check at the value it gives the target |
| Propagators.FcRejectionSound | propagators.py:156-159 | a value FC rejects is taken by no solution extending the assignment |
| Propagators.FcTrailRejects | propagators.py:156-159 | every pruned record is rejected by a working constraint |
| Propagators.FcTrailSound | propagators.py:156-159 | FC pruning keeps every solution that extends the assignment within the domains |
| Propagators.FcComplete | propagators.py:128-159 | once every pair is checked, FC has pruned exactly the previously current values that a working constraint rejects |
| Propagators.FcCheckValue | propagators.py:145-163 | prunes the value iff the substituted tuple fails `check`, and reports a wipe-out exactly when the prune empties the domain |
| Propagators.FcCheckPair | propagators.py:141-163 | goes over a snapshot of the target's domain and changes no other domain; unless wiped out, a value of the target stays exactly when its substituted tuple passes the check |
| Propagators.FcOutcome | propagators.py:137-166 | each pruned record is rejected by a working constraint; on success exactly the rejected values are pruned; no solution is lost |
| Propagators.FcDoneShrinks | propagators.py:137-163 | pairs already checked stay checked as later pairs shrink domains |
| Propagators.FcStep | propagators.py:139-163 | checks one popped pair and changes no domain but its target's; unless a domain is wiped out, exactly the target's values that fail the check are gone, and it and every pair after it are checked |
| Propagators.FcRun | propagators.py:137-166 | pops pairs from the end of `single`; on `False` the last prune emptied its domain, on `True` every pair is checked and no listed domain is empty |
| Propagators.PropFC | propagators.py:80-166 | the prune list is a valid trail whose application gives the new domains; it holds exactly the current values a working constraint with one unassigned variable rejects (all of them on `True`); no solution is lost; `False` iff the last prune emptied a domain; assignments unchanged |
| Propagators.SupportMonotone | propagators.py:211 | a support in smaller domains is a support in larger ones, so an unsupported value stays unsupported as domains shrink |
| Propagators.GacFrame | propagators.py:219-221 | arc consistency of a constraint depends only on its own scope's domains (why constraints not on the pruned variable need no revisit) |
| Propagators.SolutionSupports | propagators.py:211-213 | the value a solution takes is supported by every constraint on its variable, so GAC never prunes it |
| Propagators.PushPending | propagators.py:219-221 | appends exactly the constraints on the pruned variable that are not pending, keeps the old list as a prefix, and never duplicates |
| Propagators.GacSupports | propagators.py:206-211 | an arc consistent constraint supports every current value of its scope |
| Propagators.GacPruneStep | propagators.py:211-213 | pruning an unsupported value keeps the trail valid and justified and keeps every solution |
| Propagators.GacPushStep | propagators.py:219-221 | after the push, every constraint ever queued and not pending is arc consistent |
| Propagators.GacReviseValue | propagators.py:207-221 | prunes the value iff the popped constraint gives it no support; then either reports a wipeout, or keeps the old worklist as a prefix and appends to it exactly the constraints on the pruned variable that were not already pending |
| Propagators.GacReviseVar | propagators.py:206-221 | changes no domain but the revised variable's; unless wiped out, every current value of the variable is supported or the constraint is pending again |
| Propagators.GacReviseConstraint | propagators.py:204-221 | changes no domain outside the constraint's scope; revising every scope variable leaves the constraint arc consistent or pending again |
| Propagators.ReachedMembers | propagators.py:195-221 | a constraint has entered the worklist after some prunes iff it is a working constraint or has one of the pruned variables in its scope |
| Propagators.GacOutcome | propagators.py:202-222 | each pruned value had no support, in the domains at the moment of its prune and in the final ones, in a constraint on its variable that had entered the worklist before that prune (a working constraint, or one on a variable pruned earlier); on `True` every working constraint and every constraint on a pruned variable is arc consistent; nothing is pruned if they all were already |
| Propagators.GacRun | propagators.py:202-222 | the worklist loop terminates (total domain size, then list length); `False` iff the last prune emptied a domain |
| Propagators.PropGAC | propagators.py:169-222 | valid prune trail equal to the removed values; every pruned value unsupported, in the domains at the moment of its prune and in the final ones, by a constraint on its variable that was on the worklist before that prune: a working constraint, or one on a variable pruned earlier; no solution lost; `False` iff a domain emptied; on `True` all constraints ever queued are arc consistent; no prune when already arc consistent |
| Propagators.PropagateAndUndo | propagators.py:31-34 | propagating and then restoring the returned list leaves every domain as it was |
| FutoshikiTuples.OneToN | futoshiki_csp.py:157 | `range(1, n + 1)` holds 1..n in order |
| FutoshikiTuples.Insert | futoshiki_csp.py:286-287 | insertion lengthens the tuple by one and places the value at the index |
| FutoshikiTuples.Inserts | futoshiki_csp.py:285-288 | one new tuple per insertion position, front to back |
| FutoshikiTuples.InsertAllHas | futoshiki_csp.py:284-288 | every insertion of the level value into a shorter tuple is on the next level |
| FutoshikiTuples.InsertAllFrom | futoshiki_csp.py:284-288 | every tuple of the next level is such an insertion |
| FutoshikiTuples.InsertAllCount | futoshiki_csp.py:284-288 | a level has m + 1 tuples per tuple of length m below it |
| FutoshikiTuples.InsertInjective | futoshiki_csp.py:287 | inserting a value absent from both tuples determines the tuple and the position |
| FutoshikiTuples.InsertAllDistinct | futoshiki_csp.py:284-288 | a level built from distinct tuples lacking the new value has no duplicates |
| FutoshikiTuples.MultisetInsert | futoshiki_csp.py:287 | insertion adds exactly the value to the tuple's multiset |
| FutoshikiTuples.OneToNSnoc | futoshiki_csp.py:282 | 1..k is 1..k−1 plus k, and k is new |
| FutoshikiTuples.PermsSound | futoshiki_csp.py:273-289 | every tuple of the table orders 1..k and has length k |
| FutoshikiTuples.RemoveLargest | futoshiki_csp.py:282-288 | every ordering of 1..k is an ordering of 1..k−1 with k inserted |
| FutoshikiTuples.PermsComplete | futoshiki_csp.py:273-289 | every ordering of 1..k is in the table |
| FutoshikiTuples.PermsDistinct | futoshiki_csp.py:273-289 | the table has no duplicates |
| FutoshikiTuples.PermsCount | futoshiki_csp.py:273-289 | the table has k! tuples |
| FutoshikiTuples.PermsTable | futoshiki_csp.py:273-289 | the table is exactly the orderings of 1..k, each once, k! of them |
| FutoshikiTuples.OneToNCount | futoshiki_csp.py:157 | 1..k holds each of its values once and nothing else |
| FutoshikiTuples.PositionOf | futoshiki_csp.py:140-144 | each value of 1..k occurs in an ordering of 1..k |
| FutoshikiTuples.PermDistinct | futoshiki_csp.py:140-144 | an all-different tuple has n pairwise different values in 1..n |
| FutoshikiTuples.DropAt | futoshiki_csp.py:286-287 | removing an element inverts insertion and keeps the values different |
| FutoshikiTuples.LargestPresent | futoshiki_csp.py:140-144 | k different values from 1..k include k |
| FutoshikiTuples.DistinctRangeIsPerm | futoshiki_csp.py:140-144 | pigeonhole: k pairwise different values from 1..k are an ordering of 1..k |
| FutoshikiTuples.NextLevel | futoshiki_csp.py:282-288 | the nested loops build exactly the next level of insertions, in order |
| FutoshikiTuples.CopyTuples | futoshiki_csp.py:276-280 | the last level is returned unchanged |
| FutoshikiTuples.Model2Tuples | futoshiki_csp.py:273-289 | the recursion started from `[[1]]` returns the permutation table of 1..n |
| FutoshikiCsp.GenVarArr | futoshiki_csp.py:200-212 | an n×n grid whose cell (i, j) reads `board[i][2j]`, domain 1..n for 0 and the given number otherwise |
| FutoshikiCsp.VarDomains | futoshiki_csp.py:66-69 | a domain is exactly 1..n for an empty cell and the given number for a filled one; never empty |
| FutoshikiCsp.CspBuilder.constructor | futoshiki_csp.py:190 | a new CSP has no variables and no constraints |
| FutoshikiCsp.CspBuilder.AddVar | futoshiki_csp.py:194 | `add_var` appends one variable and leaves the constraints alone |
| FutoshikiCsp.CspBuilder.AddConstraint | futoshiki_csp.py:228 | `add_constraint` appends one constraint and leaves the variables alone |
| FutoshikiCsp.FlattenLength | futoshiki_csp.py:192-194 | the CSP holds n·n variables |
| FutoshikiCsp.FlattenAt | futoshiki_csp.py:192-194 | cell (i, j) is the CSP's variable number i·n + j |
| FutoshikiCsp.MakeCsp | futoshiki_csp.py:189-196 | `make_CSP` adds every variable of the grid row by row and no constraint |
| FutoshikiCsp.RelSetHas | futoshiki_csp.py:93-100 | a pair is in a relation table iff both values are in 1..n and the relation holds |
| FutoshikiCsp.RelTable | futoshiki_csp.py:93-100 | a list holding every related pair and nothing else is the table |
| FutoshikiCsp.ListsNextRow | futoshiki_csp.py:93-94 | finishing row x of the loops is starting row x + 1 |
| FutoshikiCsp.BinaryRow | futoshiki_csp.py:94-100 | the inner loop adds exactly the related pairs with first value x |
| FutoshikiCsp.BinaryTables | futoshiki_csp.py:93-100 | `wo_ineq`, `x_less_y`, `x_great_y` are exactly the pairs over 1..n with x ≠ y, x < y, x > y |
| FutoshikiCsp.MirrorTable | futoshiki_csp.py:173-177 | the position-by-position reversal of the `<` list is the `>` table |
| FutoshikiCsp.MirrorTables | futoshiki_csp.py:173-177 | model 2's tables equal model 1's `<` and `>` tables, and `x_great_y` reverses `x_less_y` pair by pair |
| FutoshikiCsp.Emit | futoshiki_csp.py:220-227 | a loop body adds at most one constraint |
| FutoshikiCsp.IsVarArrNames | futoshiki_csp.py:207 | the variable of cell (i, j) is named by (i, j) |
| FutoshikiCsp.RowPair1 | futoshiki_csp.py:220-228 | one model 1 row body: a binary constraint on (i, a), (i, b) with the `>`, `<` or not-equal table per the sign |
| FutoshikiCsp.RowIneq2 | futoshiki_csp.py:233-240 | one model 2 row body: a constraint only when the pair is adjacent and signed |
| FutoshikiCsp.ColPair1 | futoshiki_csp.py:250-253 | one model 1 column body: a not-equal constraint on (a, col), (b, col) |
| FutoshikiCsp.InnerLoop | futoshiki_csp.py:219-228 | the `attr_2` loop appends exactly its enumeration |
| FutoshikiCsp.MiddleLoop | futoshiki_csp.py:218-228 | the `attr_1` loop appends exactly its enumeration |
| FutoshikiCsp.PairLoops | futoshiki_csp.py:217-228 | the three nested loops append exactly the enumeration of all pairs a < b per line |
| FutoshikiCsp.IneqConstraints | futoshiki_csp.py:214-243 | `get_ineq_contraints` appends model 1's row pairs or model 2's signed pairs, and no variable |
| FutoshikiCsp.AllDiffOne | futoshiki_csp.py:255-261 | one all-different constraint whose scope is the row (or column) in order |
| FutoshikiCsp.ColConstraints | futoshiki_csp.py:245-271 | `get_col_constraints` appends model 1's column pairs, or n row then n column all-different constraints |
| FutoshikiCsp.Model1 | futoshiki_csp.py:78-108 | returns a fresh CSP holding the variable array row by row and exactly Model1Cons |
| FutoshikiCsp.Model2 | futoshiki_csp.py:150-185 | returns a fresh CSP holding the variable array row by row and exactly Model2Cons |
| FutoshikiRules.InnerHas | futoshiki_csp.py:219 | every pair the innermost loop visits is enumerated |
| FutoshikiRules.InnerFrom | futoshiki_csp.py:219 | the innermost loop enumerates nothing else |
| FutoshikiRules.MiddleHas | futoshiki_csp.py:218-219 | every pair the middle loop visits is enumerated |
| FutoshikiRules.MiddleFrom | futoshiki_csp.py:218-219 | the middle loop enumerates nothing else |
| FutoshikiRules.OuterHas | futoshiki_csp.py:217-219 | every (line, a < b) body is in the constraint list |
| FutoshikiRules.OuterFrom | futoshiki_csp.py:217-219 | every listed constraint comes from some (line, a < b) body |
| FutoshikiRules.InnerCount | futoshiki_csp.py:219 | the innermost loop adds one constraint per `attr_2` |
| FutoshikiRules.MiddleCount | futoshiki_csp.py:218-219 | the first a middle iterations add a(2n−a−1)/2 constraints |
| FutoshikiRules.OuterCount | futoshiki_csp.py:217-219 | m lines add m·n(n−1)/2 constraints |
| FutoshikiRules.Model1Shape | futoshiki_csp.py:71-75 | model 1 has n·n(n−1) constraints, each binary over two different cells of the board |
| FutoshikiRules.InnerSigns | futoshiki_csp.py:232-240 | model 2 adds a constraint for (a, b) only for b = a + 1 with a sign between |
| FutoshikiRules.MiddleSigns | futoshiki_csp.py:231-240 | the first a pairs of a row add one constraint per sign among its first 2a entries |
| FutoshikiRules.RowSigns | futoshiki_csp.py:231-240 | a row adds one constraint per sign in it |
| FutoshikiRules.OuterSigns | futoshiki_csp.py:230-240 | model 2's inequality constraints number the signs on the board |
| FutoshikiRules.Model2Shape | futoshiki_csp.py:140-148 | model 2 has one constraint per sign, then n row and n column all-different constraints in order, each over its line with the permutation table |
| FutoshikiRules.AllDiffIn | futoshiki_csp.py:254-269 | every row and every column has its all-different constraint in model 2 |
| FutoshikiRules.DomainsAreGivens | futoshiki_csp.py:66-69 | a grid lies within the domains iff its values are in 1..n and it keeps the given numbers |
| FutoshikiRules.Model1RowPair | futoshiki_csp.py:220-227 | a model 1 row constraint holds iff the two cells differ and an adjacent pair obeys its sign |
| FutoshikiRules.Model1ColPair | futoshiki_csp.py:250-252 | a model 1 column constraint holds iff the two cells differ |
| FutoshikiRules.Model1RowHolds | futoshiki_csp.py:220-228 | a grid satisfying model 1 gives two cells of a row different values and obeys the sign between adjacent ones |
| FutoshikiRules.Model1Rows | futoshiki_csp.py:216-228 | model 1's row constraints make every row Latin and every sign hold |
| FutoshikiRules.Model1Cols | futoshiki_csp.py:246-253 | model 1's column constraints make every column Latin |
| FutoshikiRules.Model1Sound | futoshiki_csp.py:66-75 | a grid within the domains that satisfies model 1 solves the puzzle |
| FutoshikiRules.Model1Complete | futoshiki_csp.py:66-75 | every solution of the puzzle satisfies model 1 |
| FutoshikiRules.Model1Exact | futoshiki_csp.py:66-75 | within the domains, satisfying model 1 iff solving the puzzle |
| FutoshikiRules.RowValues | futoshiki_csp.py:255-258 | a row all-different constraint sees the row's values in order |
| FutoshikiRules.ColValues | futoshiki_csp.py:263-266 | a column all-different constraint sees the column's values in order |
| FutoshikiRules.AllDiffLine | futoshiki_csp.py:140-144 | a line satisfies the permutation table iff its values are pairwise different and in 1..n |
| FutoshikiRules.Model2SignPair | futoshiki_csp.py:233-240 | a signed pair's constraint holds iff the sign holds |
| FutoshikiRules.Model2Lines | futoshiki_csp.py:254-269 | model 2's all-different constraints make every row and column Latin |
| FutoshikiRules.Model2Signs | futoshiki_csp.py:229-240 | model 2's signed pairs make every sign hold |
| FutoshikiRules.Model2Sound | futoshiki_csp.py:135-148 | a grid within the domains that satisfies model 2 solves the puzzle |
| FutoshikiRules.Model2Complete | futoshiki_csp.py:135-148 | every solution of the puzzle satisfies model 2 |
| FutoshikiRules.Model2Exact | futoshiki_csp.py:135-148 | within the domains, satisfying model 2 iff solving the puzzle |
| FutoshikiRules.ModelsAgree | futoshiki_csp.py:140-148 | the two encodings accept the same grids |

## Left out

- The `Variable`, `Constraint` and `CSP` classes are not part of this model. They are modelled abstractly:
  - a variable is an index into a `Network` with a current domain (a set) and an optional assigned value;
  - a constraint is a scope plus a set of tuples;
  - `check` is membership and `has_support` is the existence of a tuple drawn from the current domains.
  - A variable's current domain is whatever `prune_value`/`unprune_value` leave it, whatever its assignment.
- Csp.HasSupport, and so Propagators.PropGAC: a support is drawn from the current domains only, never from the assignment. `cspbase.py` is not part of this model. If its `has_support` restricts an assigned variable to its assigned value, the model can prune more than the source whenever that variable's current domain has not been cut to that value. Example: constraint x1 < x2, both domains 1..4, x2 assigned 2 but its domain untouched. The model prunes (x1,4) and (x2,1), not {2,3,4} from x1.
- The search driver (`bt_search`), its timing and its undo stack are left out. Only the undo of one prune list is modelled (`Network.Restore`, `PropagateAndUndo`).
- Names are left out: the variable names `'i,j'`, the constraint names and the CSP name `'futoshiki[n]'`. Variables of the Futoshiki model are named by their `Cell`.
- `add_constraint`'s own checks in the CSP class are left out; `CspBuilder` keeps only the variables and constraints in order.
- The commented-out debug prints in `prop_FC` are left out.
- `copy.deepcopy` of the rows is an object-identity detail; the model builds fresh values.
- Tuples are lists in one place and tuples in another; both are `seq<int>`. A constraint's tuples are kept as a set, the way `check` uses them.
- Propagators.PropFC, Propagators.PropGAC: the order in which values of a domain snapshot are visited is left open (`Pick`). So is the order of the returned list.
- Propagators.PropFC: on `True` the contracts fix the set of pruned values, not their order. After a wipe-out the set depends on the visiting order.
- Propagators.PropGAC: the contracts bound the pruned set but do not determine it. Each prune is justified at its moment, no solution is lost, and on `True` every queued constraint is arc consistent. That the result on `True` is the unique largest arc-consistent domain, and that `False` does not depend on the order, is not proved.
- Propagators.PropGAC: `get_all_cons` may return the CSP's own list, which `pop` would then drain. The worklist is modelled as a local copy.
- Propagators.PropBT, Propagators.PropFC, Propagators.PropGAC: `newVar` must be a variable of the network. The source cannot be called with anything else.
- FutoshikiTuples.Model2Tuples: the list argument is either absent or the level of orderings of 1..k that the recursion itself passes. Those are the only calls the program makes.
- FutoshikiTuples.Model2Tuples, FutoshikiCsp.Model2: require n ≥ 1. On an empty board `futoshiki_model_2_tuples(0)` keeps recursing on ever longer lists, never reaches length 0, and fails with RecursionError or MemoryError instead of returning.
- The comparisons `is 0` (futoshiki_csp.py:156) and `is n` (futoshiki_csp.py:276) are read as `==`.
- `futoshiki_csp_model_2` repeats the variable-array loops of `gen_var_arr` inline (futoshiki_csp.py:152-160). `Model2` calls `GenVarArr`, which does the same.
- The model 2 documentation says a filled cell's domain is `[n]`. The code uses the given number; the model follows the code.
- Board shape, numbers in 0..n at the cell positions, and the separators are not checked by the source. Shape and numeric cells are preconditions of the builders. Any other separator symbol is treated like `'.'`.
- Materialising the n! permutation tuples is kept symbolic: tables are sets, and n is arbitrary.
