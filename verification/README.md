# Futoshiki CSP propagators, modelled in Dafny

This project models the constraint-propagation core of a Futoshiki solver.

- **Propagators** (`propagators.py`). Each one is called by a backtracking search after a variable is assigned, or once before search starts. It answers whether the search may continue and lists the (variable, value) pairs it pruned, so the search can restore them:
  - plain backtracking (`prop_BT`);
  - forward checking (`FCCheck`, `prop_FC`);
  - generalized arc consistency (`GAC_Enforce`, `prop_GAC`).
- **Variable ordering**: the minimum-remaining-values heuristic (`ord_mrv`).
- **Grid encodings** (`futoshiki_csp.py`). Two builders turn an n-by-n Futoshiki grid into a constraint network:
  - model 1 uses binary not-equal constraints for rows and columns;
  - model 2 uses one all-different constraint per row and per column.

  Both add the same binary constraints for the `<`/`>` markers between horizontally adjacent cells.

The network is the one of `cspbase.py`, which is not part of this model. `csp.dfy` describes it by what the propagators rely on:

- variables, each with an original domain, a current domain and an optional assigned value;
- constraints, each with an ordered scope and a set of satisfying tuples;
- `check`, `has_support`, `get_cons_with_var` and `get_n_unasgn`.

Variables and constraints are identified by their index. The propagators are pure functions. Each returns an `Outcome` with:

- the verdict;
- the prune list, in the order the source appends to it;
- the network after pruning.

The source's module-level `pruned_list`, `GAC_Queue` and `prune_list` become local parameters and results. `FCCheck`'s one-at-a-time assignment and unassignment of the trial variable is modelled step by step. `TrialLeavesNoTrace` shows it leaves no trace but the prunes.

Files:

| file | module | contents |
|---|---|---|
| `seqs.dfy` | `Seqs` | `Distinct`, `Filter`, `Flatten` |
| `csp.dfy` | `Csp` | network, prune lists, restore, wipe-outs, solutions |
| `prop_bt.dfy` | `Backtracking` | `prop_BT` |
| `prop_fc.dfy` | `ForwardChecking` | `FCCheck`, `prop_FC` |
| `prop_gac.dfy` | `GeneralizedArcConsistency` | `GAC_Enforce`, `prop_GAC` |
| `ord_mrv.dfy` | `VariableOrdering` | `ord_mrv` |
| `tuples.dfy` | `Tuples` | `itertools.permutations(range(1, n+1), k)` |
| `futoshiki.dfy` | `Futoshiki` | the two builders |
| `futoshiki_solutions.dfy` | `FutoshikiSolutions` | what the two encodings mean |

Two conventions recur below:

- **A valid prune list**: every prune removed a value that was present at that moment (`PrunedWhilePresent`). From that, the model derives that no pair is pruned twice and that restoring in reverse gives back the network.
- **A wipe-out**: a variable whose current domain was non-empty before and is empty after.

Where the module docstring and the code differ, the model follows the code. The docstring at `propagators.py:45-48` says forward checking with no new variable looks only at unary constraints. The code at lines 127-135 checks every constraint with exactly one unassigned variable.

## Model

| member | source | states |
|---|---|---|
| Csp.RestoreUndoesPrunes | propagators.py:31-34 | Unpruning a valid prune list, last prune first, gives back exactly the network before the prunes. |
| Csp.PrunesAreDistinct | propagators.py:36-37 | A valid prune list never prunes the same (variable, value) pair twice. |
| Csp.PrunedPresentThenAbsent | propagators.py:31-32 | Every value in a valid prune list was in its variable's current domain before and is out of it after. |
| Csp.PrunesShrinkPresent | propagators.py:140-157 | Each prune removes exactly one present (variable, value) pair. This is the measure that makes `GAC_Enforce` terminate. |
| Csp.CurDomainEmpty | propagators.py:96-98 | The `cur_domain()` snapshot that `FCCheck` loops over is empty exactly when the current domain is, so the loop runs at least once on a non-empty domain. |
| Csp.ApplyPrunes | propagators.py:109 | Performing a prune list changes no domain list, assignment or constraint. Each variable's current domain loses exactly the values pruned from it. |
| Csp.StopsAtWipeAfter | propagators.py:113-114 | Prunes that wiped out nothing, followed by a run that stops at its first wipe-out, together stop at that wipe-out. |
| Csp.NoUnassignedMeansFullyAssigned | propagators.py:84-88 | `get_n_unasgn() == 0` holds exactly when every scope variable has an assigned value. |
| Csp.ConsWith | propagators.py:83 | `get_cons_with_var(x)` lists exactly the constraints whose scope contains `x`. |
| Csp.ScanList | propagators.py:127-130 | The constraints scanned are all of them when there is no new variable, and otherwise exactly those on the new variable. |
| Csp.SolutionMeansNoWipe | propagators.py:26-29 | A network that still has a solution has no wiped-out domain. |
| Backtracking.CheckFullyAssigned | propagators.py:83-91 | The loop answers True exactly when none of the listed constraints is fully assigned and rejects its assigned values. |
| Backtracking.PropBT | propagators.py:77-91 | With no new variable the answer is (True, []). Otherwise it is False exactly when a constraint on the new variable is fully assigned and fails `check`. It never prunes and never changes the network. |
| Backtracking.PropBTKeepsSolutions | propagators.py:77-91 | `prop_BT` never answers False when a solution extends the current assignment. |
| ForwardChecking.FCTry | propagators.py:98-111 | One trial prunes the value exactly when the constraint rejects the completed assignment, and changes nothing else. |
| ForwardChecking.TrialLeavesNoTrace | propagators.py:99-111 | Assigning and then unassigning the trial variable leaves the network as before, apart from the prune. |
| ForwardChecking.FCLoopSound | propagators.py:98-116 | The loop prunes only failed trials of the lone variable. Its domain keeps exactly the values outside the snapshot or passing the trial. It stops with False exactly when that domain runs empty. |
| ForwardChecking.FCCheck | propagators.py:94-116 | `FCCheck` makes a valid prune list, all on the lone unassigned variable. That variable's new domain is the set of old values whose trial passes. The answer is False exactly when the check emptied a non-empty domain. |
| ForwardChecking.FCLoop | propagators.py:98-116 | The loop of `FCCheck` returns a valid prune list that accounts for every change to the network. |
| ForwardChecking.FCLoopStops | propagators.py:111-114 | When the loop answers False, its last prune is the one that emptied the domain, and the prunes before it wiped nothing out. |
| ForwardChecking.FCLoopNoop | propagators.py:98-116 | When every value of the snapshot passes its trial, the loop prunes nothing and answers True. |
| ForwardChecking.FCCheckWipes | propagators.py:113-116 | `FCCheck` answers False exactly when it wipes out a domain. It returns at that prune. |
| ForwardChecking.FCFirstSound | propagators.py:132-135 | Checking one constraint prunes only failed trials of its lone unassigned variable, answers False exactly on a wipe-out and stops there, and on success leaves a constraint with one unassigned variable forward-consistent. |
| ForwardChecking.FCScanJustified | propagators.py:132-137 | Every prune of the scan is a failed trial of a scanned constraint that has exactly one unassigned variable. |
| ForwardChecking.FCScanConsistent | propagators.py:132-137 | On success, every scanned constraint with one unassigned variable is forward-consistent: each value left for that variable passes the trial. |
| ForwardChecking.FCScan | propagators.py:132-137 | The loop of `prop_FC` over the scanned constraints returns a valid prune list that accounts for every change to the network. |
| ForwardChecking.FCScanWipes | propagators.py:132-137 | The scan answers False exactly when some variable's domain was wiped out. It returns at the prune that did it. |
| ForwardChecking.FCScanNoop | propagators.py:132-137 | A scan over constraints that are forward-consistent, or do not have exactly one unassigned variable, prunes nothing and answers True. |
| ForwardChecking.PropFC | propagators.py:119-137 | `prop_FC` returns a valid prune list that accounts for every change to the network, also when it stops early with False. Every prune is a failed trial of a scanned constraint, success leaves every scanned one-unassigned constraint forward-consistent, and False means a wipe-out caused by the last prune. The network stays well formed and keeps its assignments. |
| ForwardChecking.PropFCIdempotent | propagators.py:119-137 | After a successful `prop_FC`, calling it again with the same new variable prunes nothing and answers True. |
| ForwardChecking.PropFCRestorable | propagators.py:31-37 | The prune list of `prop_FC` has no duplicate, and restoring it gives back the original network. |
| ForwardChecking.PropFCKeepsSolutions | propagators.py:119-137 | `prop_FC` keeps every solution that extends the current assignment, and cannot answer False while one exists. |
| GeneralizedArcConsistency.Requeue | propagators.py:153-156 | After a prune of `y` while revising `k`, the enqueued constraints are exactly the other constraints on `y`. |
| GeneralizedArcConsistency.ReviseValues | propagators.py:144-156 | The inner loop returns a valid prune list that accounts for every change. On success it enqueues exactly the requeues of its prunes. |
| GeneralizedArcConsistency.ReviseValuesUnsupported | propagators.py:144-147 | The inner loop prunes only values of `x` that have no support in the constraint being revised, at the moment they are pruned. |
| GeneralizedArcConsistency.ReviseValuesStops | propagators.py:146-151 | When the inner loop answers False, its last prune emptied the domain and the prunes before it wiped nothing out. |
| GeneralizedArcConsistency.ReviseValuesExact | propagators.py:144-147 | On success, the variable keeps exactly the values outside the snapshot or with a support. |
| GeneralizedArcConsistency.ReviseValuesWipes | propagators.py:149-151 | The inner loop answers False exactly when its prune empties the domain. |
| GeneralizedArcConsistency.ReviseScope | propagators.py:143-156 | Revising a constraint over its scope returns a valid prune list that accounts for every change. On success it enqueues exactly the requeues of its prunes. |
| GeneralizedArcConsistency.ReviseScopeUnsupported | propagators.py:143-147 | Revising a constraint prunes only values of its scope variables that had no support in that constraint when pruned. |
| GeneralizedArcConsistency.ReviseScopeStops | propagators.py:143-151 | A revision that answers False stops at the prune that wiped out a domain. |
| GeneralizedArcConsistency.ReviseScopeSupports | propagators.py:143-147 | After revising a constraint successfully, every current value of every scope variable has a support in it. |
| GeneralizedArcConsistency.Round | propagators.py:142-156 | One round makes a valid prune list. On success it enqueues exactly the requeues of its prunes, so nothing is enqueued without a prune, and it removes one present pair per prune. |
| GeneralizedArcConsistency.RoundUnsupported | propagators.py:142-147 | Every prune of a round removed a value that the popped constraint itself left without a support. |
| GeneralizedArcConsistency.GACEnforce | propagators.py:140-157 | `GAC_Enforce` returns a valid prune list that accounts for every change to the network. Its termination measure is the number of present pairs, then the queue length. |
| GeneralizedArcConsistency.GACEnforceStep | propagators.py:141-157 | A successful round either removes present pairs or leaves them and shortens the queue. The rest of `GAC_Enforce` runs on the new queue. |
| GeneralizedArcConsistency.RoundKeepsInvariant | propagators.py:142-156 | Each round keeps the loop invariant: every constraint is on the queue or arc consistent. |
| GeneralizedArcConsistency.GACEnforceUnsupported | propagators.py:140-157 | Every prune of `GAC_Enforce` removed a value without a support at that moment. |
| GeneralizedArcConsistency.GACEnforceWipes | propagators.py:140-157 | `GAC_Enforce` answers False exactly when it wipes out a domain. |
| GeneralizedArcConsistency.GACEnforceStops | propagators.py:149-151 | When `GAC_Enforce` answers False, its last prune is the one that wiped out a domain, and the prunes before it wiped nothing out. |
| GeneralizedArcConsistency.GACEnforceConsistent | propagators.py:140-157 | On success, every constraint that was on the queue or already arc consistent is arc consistent. |
| GeneralizedArcConsistency.GACEnforceQueueNoop | propagators.py:140-157 | When every queued constraint is arc consistent, `GAC_Enforce` prunes nothing and answers True. |
| GeneralizedArcConsistency.GACEnforceNoop | propagators.py:140-157 | On an arc-consistent network, `GAC_Enforce` prunes nothing and answers True, whatever the queue. |
| GeneralizedArcConsistency.GACEnforceKeepsSolutions | propagators.py:140-157 | `GAC_Enforce` removes no value of any solution, and cannot fail while a solution exists. |
| GeneralizedArcConsistency.PropGAC | propagators.py:160-182 | `prop_GAC` returns a valid prune list. The network stays well formed and keeps its assignments. |
| GeneralizedArcConsistency.PropGACPrunesUnsupported | propagators.py:160-182 | `prop_GAC` prunes each pair at most once, and only values without a support. |
| GeneralizedArcConsistency.PropGACWipes | propagators.py:179-182 | `prop_GAC` answers False exactly when some domain was wiped out, and then the wipe-out is its last prune. |
| GeneralizedArcConsistency.PropGACConsistent | propagators.py:169-182 | On success, every scanned constraint, and every constraint that already was, is arc consistent. |
| GeneralizedArcConsistency.PropGACAllConsistent | propagators.py:174-182 | With no new variable, success leaves the whole network arc consistent. |
| GeneralizedArcConsistency.PropGACKeepsSolutions | propagators.py:160-182 | `prop_GAC` keeps every solution, and cannot answer False while one exists. |
| GeneralizedArcConsistency.PropGACIdempotent | propagators.py:160-182 | On an arc-consistent network `prop_GAC` returns (True, []) and changes nothing. After a successful call, the same call again returns (True, []). After a successful initial call with no new variable, any further call does the same. |
| GeneralizedArcConsistency.PropGACRestorable | propagators.py:165-182 | Restoring the prune list of `prop_GAC` gives back the original network. |
| VariableOrdering.OrdMRV | propagators.py:185-196 | Returns None exactly when no variable is unassigned. Otherwise it returns an unassigned variable with a smallest current domain, the earliest such one on ties. |
| Tuples.RangeMembership | futoshiki_csp.py:31-32 | The domain list `1..n` contains exactly the integers from 1 to n. |
| Tuples.ArrangementsMembership | futoshiki_csp.py:33 | `permutations(vals, k)` yields exactly the length-k tuples of distinct entries drawn from `vals`. |
| Tuples.Pairs | futoshiki_csp.py:33 | The binary tuples are exactly the pairs of distinct values in 1..n. |
| Tuples.Perms | futoshiki_csp.py:117 | The n-ary tuples are exactly the length-n tuples of distinct values in 1..n. |
| Futoshiki.CellVariable | futoshiki_csp.py:46-54 | An empty cell (0) gets domain 1..n and stays unassigned. A given value k gets domain [k] and is assigned k. |
| Futoshiki.Variables | futoshiki_csp.py:42-54 | The network has n·n variables, and cell (i, j), read at grid position 2j, is variable i·n + j. |
| Futoshiki.CellOf | futoshiki_csp.py:103-105 | Every variable index below n·n is the index of exactly the cell (x / n, x % n). |
| Futoshiki.CellInjective | futoshiki_csp.py:103-105 | Distinct cells get distinct variables. |
| Futoshiki.RelationTuples | futoshiki_csp.py:64-74 | A `>` marker allows exactly the pairs in 1..n with the left value greater; a `<` marker the pairs with it smaller. |
| Futoshiki.RowMarkers | futoshiki_csp.py:56-76 | A row's marker constraints are exactly one per marker position other than `.`, on the two cells beside it. |
| Futoshiki.MarkersMembership | futoshiki_csp.py:46-76 | A constraint is a marker constraint exactly when some marker other than `.` produces it. `>` means greater, and anything else means less. |
| Futoshiki.LinePairs | futoshiki_csp.py:81-89 | A line of m cells gets m(m−1)/2 pair constraints. |
| Futoshiki.LinePairsMembership | futoshiki_csp.py:81-89 | The pair constraints of a line are exactly one per pair of positions j1 < j2. |
| Futoshiki.PairsOfLinesMembership | futoshiki_csp.py:79-101 | Model 1's row or column constraints are exactly the pair constraints of each line. |
| Futoshiki.PairsOfLinesCount | futoshiki_csp.py:79-101 | n lines of n cells give n·(n(n−1)/2) pair constraints. |
| Futoshiki.WholeLines | futoshiki_csp.py:164-186 | Model 2 has one constraint per line, on that line's cells in order, with the permutation tuples. |
| Futoshiki.BinaryConstraints | futoshiki_csp.py:76-108 | Model 1's constraint list starts with the marker constraints. |
| Futoshiki.BinaryCount | futoshiki_csp.py:79-101 | After the markers, model 1 has n(n−1)/2 constraints per row and as many per column. |
| Futoshiki.NaryConstraints | futoshiki_csp.py:159-193 | Model 2's constraint list is the markers followed by 2n line constraints. |
| Futoshiki.NaryLayout | futoshiki_csp.py:164-186 | After the markers, model 2 has row i's all-different constraint at offset i and column i's at offset n + i. |
| Futoshiki.ConstraintsWellFormed | futoshiki_csp.py:103-108 | Every scope is among the n·n variables, and every tuple has the arity of its scope. |
| Futoshiki.Model1 | futoshiki_csp.py:29-110 | `futoshiki_csp_model_1` builds a well-formed network, and returns the board of variables row by row. |
| Futoshiki.Model2 | futoshiki_csp.py:113-195 | `futoshiki_csp_model_2` builds a well-formed network, and returns the board of variables row by row. |
| Futoshiki.BoardLayout | futoshiki_csp.py:103-110 | Both models have the same n·n variables. Board entry (i, j) is variable i·n + j, and holds the cell's variable. |
| FutoshikiSolutions.WithinMeansGivens | futoshiki_csp.py:46-54 | Choosing values from the domains means keeping every given value and filling empty cells from 1..n. |
| FutoshikiSolutions.MarkersSatisfied | futoshiki_csp.py:56-76 | The marker constraints hold exactly when every marker relation holds between its two cells. For the converse, the values must lie in 1..n. |
| FutoshikiSolutions.LinePairsSatisfied | futoshiki_csp.py:81-89 | A line's pair constraints hold exactly when its values differ, and lie in 1..n once the line has two cells. |
| FutoshikiSolutions.WholeLineSatisfied | futoshiki_csp.py:164-173 | A line's all-different constraint holds exactly when the line holds a permutation of 1..n. |
| FutoshikiSolutions.RowPairsMeaning | futoshiki_csp.py:81-89 | Model 1's row constraints hold exactly when no row repeats a value. For n ≥ 2, they also require every value to lie in 1..n. |
| FutoshikiSolutions.ColumnPairsMeaning | futoshiki_csp.py:93-101 | Model 1's column constraints hold exactly when no column repeats a value. For n ≥ 2, they also require every value to lie in 1..n. |
| FutoshikiSolutions.WholeRowsMeaning | futoshiki_csp.py:164-173 | Model 2's row constraints hold exactly when every row is a permutation of 1..n. |
| FutoshikiSolutions.WholeColumnsMeaning | futoshiki_csp.py:177-186 | Model 2's column constraints hold exactly when every column is a permutation of 1..n. |
| FutoshikiSolutions.Model2Solutions | futoshiki_csp.py:113-195 | Model 2's solutions are exactly the Futoshiki solutions of the grid: givens kept, values in 1..n, no repeat in a row or column, every marker respected. |
| FutoshikiSolutions.Model1Solutions | futoshiki_csp.py:29-110 | Model 1's solutions are exactly the Futoshiki solutions, for grids of two rows or more, or with given values in 0..n. |
| FutoshikiSolutions.ModelsAgree | futoshiki_csp.py:16-22 | Under the same condition, the binary and the n-ary encodings have the same solutions. |
| FutoshikiSolutions.OneCellGridsDiffer | futoshiki_csp.py:79-101 | Without that condition the encodings differ. On a one-cell grid with a given value g outside 0..1, filling in g solves model 1 but not model 2, because model 1 has no line constraint to bound it. |

## Left out

- `cspbase.py` is not part of this model. `Variable`, `Constraint` and `CSP` are modelled by the behaviour listed above.
  - **Domains.** A variable's original domain is assumed free of duplicates (`Csp.ValidVariable`). Both Futoshiki builders meet this. A duplicate-carrying domain would make `cur_domain()` list a value twice, and the loops would visit it twice.
  - **Current domains.** Assigning a variable does not change its current domain; pruning and assignment are tracked independently. If the real `cur_domain()` and `in_cur_domain()` answer with the assigned value alone, `has_support` there sees assigned variables as singletons, and the GAC results would differ on assigned variables.
  - **Support.** `has_support(x, v)` is modelled as: some satisfying tuple has `v` at a position of `x` and every entry in the current domain of its position's variable.
- The search driver (`bt_search`), the restore loop and the printing helpers are left out. The restore the search performs is modelled by `Csp.Restore`.
- Variable and constraint names, and name-based identity, are left out. Identity is an index into the network.
- `prop_BT`'s `if not newVar` relies on Python truthiness, because variable objects are always truthy. It is modelled as the `None` case of an `Option`.
- `GAC_Queue.clear()` on a wipe-out is not modelled. The queue is local to one call, so clearing it has no visible effect.
- Grids whose cell positions (even columns) hold something other than a number are excluded by `Futoshiki.Grid`. The source would put that entry in the domain and assign it.
- The order of satisfying tuples is not modelled: `itertools.permutations` lists are sets here. `check` and `has_support` only test membership. `Tuples.Arrangements` does generate the itertools order.
