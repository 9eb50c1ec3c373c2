# Tenner Grid CSP: propagators and model builders

This project models two Python files of a small constraint-satisfaction
solver:

- `propagators.py`: the propagators that backtracking search calls after
  each assignment.
  - `prop_BT` checks the fully assigned constraints.
  - `FCCheck` and `prop_FC` do forward checking.
  - `GAC_Enforce` and `prop_GAC` run the generalised-arc-consistency queue.
- `tenner_csp.py`: the two Tenner Grid model builders,
  `tenner_csp_model_1` and `tenner_csp_model_2`, and their helpers.
  - `process_board` and `make_var_array` build the variables.
  - `NE_sat_tuples`, `make_sum_cons` and `make_row_cons` build the
    satisfying tuples.
  - `make_adj_cons` and `make_adj_cons_m2` build the neighbour constraints.

The model has three modules.

- `Csp` (`csp.dfy`): the problem state the propagators read and change.
  - The class `Store` holds the fixed domains, the current domains, the
    assignments and the constraints. Its methods are `Assign`, `Unassign`
    and `PruneValue`.
  - Variables and constraints are named by their index.
  - A constraint is an ordered scope with a set of satisfying tuples.
  - The module also defines what the propagators promise:
    - a prune list is an exact *trail* (`Trail`): each value is removed
      once, so restoring it undoes the propagation;
    - no solution of the old domains is lost (`NoLostSolutions`);
    - an empty domain leaves no solution;
    - `Supported` is generalised arc consistency.
- `Propagators` (`propagators.dfy`): the five propagators as methods on a
  `Store`.
  - `PropBT` returns true exactly when every fully assigned constraint on
    the new variable holds.
  - `FCCheck` prunes exactly the values whose trial assignment fails a fully
    assigned constraint.
  - `PropFC` and `PropGAC` return a trail that loses no solution. When they
    return false, a domain is empty and no solution remains. When they return
    true, no domain that was non-empty has been emptied.
  - Each record of `PropGAC` names the popped constraint in which the value
    lacked support (a ghost list `via`).
  - Each record's constraint was a seed or had a variable pruned by an
    earlier record, and `PropGAC` returns false only at the first wipeout.
  - When `PropGAC` returns true, every constraint it popped supports every
    current value of its scope. The popped constraints are exactly the seeds
    and the constraints on a pruned variable.
  - The re-enqueue step is specified by `Enqueued`. It appends a constraint
    only when the constraint is not already pending.
- `Tenner` (`tenner.dfy`): the model builders.
  - The satisfying tuples are the tuples of the product of the domains that
    pass a filter (`Product`, `Kept`). Each filter is characterised by a
    membership lemma.
  - Every posted constraint is described by its *kind*:
    - the sum constraint of column j with the column total;
    - the constraint of row r;
    - the not-equal constraint from neighbour `nb` to cell `self`.
  - `Canon` gives a kind's scope and tuples. The builders are proved to
    post `Descs(vs, Model1Kinds(...))` or `Descs(vs, Model2Kinds(...))`:
    the canonical constraints of a sequence of kinds, in the order the
    loops append them.
  - The counting lemmas then state what each model contains.
    - Model 1 has each column sum once. It has one not-equal constraint
      from every cell to each cell above it (diagonally or directly) and to
      every cell to its left. It has no row constraints.
    - Model 2 has each column sum once and each row constraint once. It has
      exactly two not-equal constraints from every cell to each cell above
      it: one from the column loop and one from the row loop.

## Model

| member | source | states |
|---|---|---|
| Csp.ConsWithVar | propagators.py:71 | `get_cons_with_var`: lists exactly the constraints whose scope holds the variable |
| Csp.ConsWithVarDistinct | propagators.py:71 | the constraints on a variable are listed once each |
| Csp.UnasgnVars | propagators.py:109-111 | lists exactly the unassigned scope variables: each entry is an unassigned scope variable and every unassigned scope variable is listed; the list is empty exactly when the scope is fully assigned |
| Csp.FullOkChecked | propagators.py:72-77 | a constraint with an unassigned variable is never checked; a fully assigned one holds exactly when the tuple of its assigned values is a satisfying tuple |
| Csp.AssignedTuple | propagators.py:73-76 | the tuple of assigned values lists the value of each scope variable in scope order |
| Csp.Allowed | propagators.py:129 | the values a slot may take in a support lie within the current domain; for an unassigned variable they are the whole current domain; for an assigned variable they are just the assigned value when it is still current, and nothing otherwise |
| Csp.InOrder | propagators.py:84 | `cur_domain` lists exactly the current values, each once |
| Csp.Store.CurDomain | propagators.py:84 | the current domain is listed without repeats, holding exactly the current values |
| Csp.Store.Assign | propagators.py:85 | `assign` records the value and leaves the current domains alone |
| Csp.Store.Unassign | propagators.py:89 | `unassign` clears the assignment and leaves the current domains alone |
| Csp.Store.PruneValue | propagators.py:87 | `prune_value` removes exactly that value from that variable's current domain |
| Csp.Restore | propagators.py:31-34 | undoing a prune list keeps the number of variables |
| Csp.RestoreUndoesTrail | propagators.py:31-34 | putting back the values of an exact trail restores the domains before propagation |
| Csp.RestorePointwise | propagators.py:31-34 | restoring adds back to each variable exactly the values recorded for it |
| Csp.TrailAppend | propagators.py:115 | two exact trails in a row concatenate to an exact trail (`pruned += ...`) |
| Csp.TotalDrops | propagators.py:125-141 | every prune lowers the total domain size, which bounds the GAC loop |
| Csp.NoSupportWhen | propagators.py:129 | `has_support` fails when the constraint has no satisfying tuple, and when another scope variable has no value left |
| Csp.SolutionSupports | propagators.py:129 | the values of a solution support each of its own values |
| Csp.PruneUnsupportedKeepsSolutions | propagators.py:129-133 | pruning a value without support loses no solution |
| Csp.SolutionPassesTrial | propagators.py:84-88 | a solution's value passes the forward-checking trial |
| Csp.FcPruneKeepsSolutions | propagators.py:84-88 | pruning values that fail the trial loses no solution |
| Csp.NoLostTrans | propagators.py:115 | two solution-preserving steps in a row preserve solutions |
| Csp.WipeoutNoSolution | propagators.py:91-92 | an empty current domain leaves no solution |
| Propagators.Candidates | propagators.py:103-106 | the check list is every constraint, or exactly the constraints on the new variable, each once |
| Propagators.AssignedValues | propagators.py:73-76 | the loop collects the assigned value of each scope variable in order |
| Propagators.CheckFullyAssigned | propagators.py:71-78 | the loop answers true exactly when every listed fully assigned constraint holds |
| Propagators.ConsWithVarHolds | propagators.py:71-72 | checking the listed constraints on x is the same as checking every constraint on x |
| Propagators.PropBT | propagators.py:65-79 | prunes nothing; true when there is no new variable, otherwise exactly when every fully assigned constraint on it holds |
| Propagators.FcPrunesExact | propagators.py:84-88 | the records name x, each once, and are exactly the current values that fail the trial |
| Propagators.FcCheckOutcome | propagators.py:84-94 | the resulting domain change is an exact trail of those records and loses no solution |
| Propagators.TryValue | propagators.py:85-89 | one trial: the value is pruned exactly when `prop_BT` fails with it assigned; the assignment is cleared again and nothing else changes |
| Propagators.FCCheck | propagators.py:81-94 | removes exactly the values of x that fail the trial, records them in domain order, changes no other variable and returns false exactly on a wipeout |
| Propagators.ForwardCheckedShrinks | propagators.py:108-117 | a forward-checked constraint stays forward-checked while domains only shrink |
| Propagators.FcConstraint | propagators.py:109-116 | one check-list step: a constraint without exactly one unassigned variable is skipped with true, no records and no change; otherwise it is forward-checked and the answer is true exactly when the unassigned variable keeps a value; on true no domain was emptied; the trail loses no solution; false means a wipeout and no solution |
| Propagators.FcRound | propagators.py:108-117 | the loop invariant of `prop_FC` survives one step |
| Propagators.FcTargetsSnoc | propagators.py:108-111 | one more check-list constraint adds its single unassigned variable to the variables forward checking may prune, if it has exactly one |
| Propagators.FcTargetsHas | propagators.py:108-111 | every check-list constraint's single unassigned variable is among those forward checking may prune |
| Propagators.FcTargetsOnly | propagators.py:108-111 | only such a variable of some check-list constraint is among them |
| Propagators.FcTargetsPrefix | propagators.py:108-111 | the variables for a prefix of the check list are among those for the whole list |
| Propagators.FcSoFarStep | propagators.py:108-117 | after one more constraint, either every variable so far keeps a value, or this constraint emptied its variable while every earlier constraint stays forward-checked and its variable keeps a value, and every record so far is about the variables up to it |
| Propagators.FcEarlierKept | propagators.py:108-117 | forward checking one more constraint empties no variable of the earlier constraints, since those are forward-checked and only failing values are pruned |
| Propagators.FcPassingKept | propagators.py:84-88 | a domain whose every value passes its trial loses nothing to a list of trial failures |
| Propagators.FcStopped | propagators.py:114-117 | a wipeout at one check-list constraint empties a variable of the whole check list |
| Propagators.FcFinished | propagators.py:108-118 | having gone through the whole check list without a wipeout, every variable of the check list keeps a value |
| Propagators.FcNext | propagators.py:109-117 | one loop step of `prop_FC`: keeps the loop invariant, or stops at a wipeout with the failure state |
| Propagators.FcRun | propagators.py:108-118 | the loop of `prop_FC` over a check list: returns an exact trail of values that failed their trial, each a value of a variable of the list; loses no solution; returns true exactly when every such variable keeps a value; on false it stopped at the first constraint whose variable it emptied: every earlier constraint is forward-checked and its variable keeps a value, and every record is about the variables of the constraints up to the failing one |
| Propagators.PropFC | propagators.py:97-118 | returns an exact trail of values that failed their trial, each a value of the single unassigned variable of a check-list constraint; loses no solution; returns true exactly when every such variable keeps a value, and then every check-list constraint is forward-checked and no domain was emptied; on false it stopped at the first check-list constraint whose variable it emptied: every earlier constraint is forward-checked and its variable keeps a value, every record is about the variables of the constraints up to the failing one, and no solution exists |
| Propagators.GacTrailAt | propagators.py:127-134 | each record of a GAC trail names a variable in the scope of a popped constraint, and its value had no support in that constraint in the domains left just before its prune |
| Propagators.GacTrailKeepsSolutions | propagators.py:127-133 | a trail of unsupported values loses no solution |
| Propagators.RevisionRecords | propagators.py:128-133 | every record of a revision of x names x and a listed value without support |
| Propagators.RevisionComplete | propagators.py:128-133 | every listed value of x without support is recorded |
| Propagators.RevisionSound | propagators.py:128-133 | a scope variable's revision records exactly its values without support |
| Propagators.RevisedTrailAt | propagators.py:128-133 | revising one more value of x keeps the trail exact and made of values unsupported in the popped constraint |
| Propagators.RevisionDistinct | propagators.py:128-133 | a revision records no value twice |
| Propagators.EnqueuedSound | propagators.py:138-141 | re-enqueueing keeps the queue as a prefix, adds exactly the missing constraints and creates no duplicate |
| Propagators.EnqueuedPresent | propagators.py:138-141 | re-enqueueing constraints that are all pending leaves the queue unchanged |
| Propagators.EnqueuedIdempotent | propagators.py:138-141 | re-enqueueing the same constraints twice is the same as once |
| Propagators.EnqueueNew | propagators.py:138-141 | the loop's queue is `Enqueued(queue, cs)` |
| Propagators.ReviseValue | propagators.py:129-141 | prunes v exactly when it has no support; reports a wipeout; clears the queue or re-enqueues the constraints on x |
| Propagators.ReviseVar | propagators.py:128-141 | removes exactly the unsupported current values of x and returns their records; wipes out exactly when a prune empties x |
| Propagators.GacFixpoint | propagators.py:125-142 | at an empty queue with no wipeout, every seed and every constraint on a pruned variable was popped, and each popped constraint is arc consistent |
| Propagators.WipedLast | propagators.py:132-136 | when only the last record of a trail emptied a domain, every record was made while no domain was empty |
| Propagators.QueueSourcedGrow | propagators.py:137-141 | the constraints enqueued after a prune are those on the pruned variable, so every pending constraint is a seed or has a pruned scope variable |
| Propagators.ViaSourcedGrow | propagators.py:126-133 | the records of a revision are caused by the popped constraint, which is a seed or has a variable pruned by an earlier record |
| Propagators.GacDone | propagators.py:124-142 | at loop exit the prune list is an exact trail of values unsupported in the constraint being revised, and loses no solution; without a wipeout no domain was emptied; a wipeout happened only at the last record and shows there is none; each record's constraint is a seed or has a variable pruned by an earlier record, and each popped constraint is a seed or has a pruned variable |
| Propagators.ReviseScope | propagators.py:127-141 | one pass over the popped constraint's scope keeps the GAC invariant, stopping at a wipeout |
| Propagators.GacRound | propagators.py:125-141 | one round of the outer loop keeps the loop state, and either shrinks the domains or only shortens the queue |
| Propagators.GacLoop | propagators.py:123-141 | the outer loop runs until the queue is empty, keeping the loop state |
| Propagators.GACEnforce | propagators.py:122-142 | exact trail in which each record lacked support in the popped constraint then being revised; loses no solution; false only at the first wipeout: the last record emptied a domain and no earlier one did, and no solution is left; the constraint behind each record is a seed or has a variable pruned by an earlier record, and each popped constraint is a seed or has a pruned variable; on true no domain was emptied, and the popped constraints are exactly the seeds and the constraints on a pruned variable, all arc consistent |
| Propagators.PropGAC | propagators.py:145-156 | `GAC_Enforce` seeded with all constraints, or with those on the new variable: each record lacked support in a popped constraint that is a seed or has a variable pruned by an earlier record; false only at the first wipeout; on true no domain was emptied, and the popped constraints are exactly the seeds and the constraints on a pruned variable, all arc consistent |
| Tenner.SpreadMembers | tenner_csp.py:179 | one block of the product per first component: its members are the tuples with that head |
| Tenner.ProductMembers | tenner_csp.py:191 | `itertools.product` yields exactly the tuples drawing each component from its domain |
| Tenner.KeptMembers | tenner_csp.py:191-193 | the filter keeps exactly the product tuples that pass the test |
| Tenner.NePairsMembers | tenner_csp.py:178-181 | the not-equal tuples are exactly the pairs from the two domains with different components |
| Tenner.SumTuplesMembers | tenner_csp.py:189-193 | the column tuples are exactly the product tuples summing to the column total |
| Tenner.RowTuplesMembers | tenner_csp.py:312-322 | the row tuples are exactly the product tuples summing to 45 with no repeated value |
| Tenner.NeSatTuples | tenner_csp.py:178-181 | appends the not-equal pairs of the product in product order |
| Tenner.NoRepeat | tenner_csp.py:316-322 | the counts loop runs to its end without `break` exactly when the tuple has no repeated value |
| Tenner.ProcessBoard | tenner_csp.py:133-150 | copies the grid cell by cell and passes the sums through |
| Tenner.MakeVarArray | tenner_csp.py:111-130 | one variable per cell at its position; domain 0..9 for -1, otherwise the given value |
| Tenner.MakeSumCons | tenner_csp.py:184-195 | appends one constraint over the column cells whose tuples are the product tuples summing to the total |
| Tenner.MakeRowCons | tenner_csp.py:309-324 | appends one constraint over the row cells whose tuples are the product tuples summing to 45 with distinct values |
| Tenner.AddNeighbours | tenner_csp.py:163-176 | appends one not-equal constraint per in-bounds offset, in offset order |
| Tenner.MakeAdjCons | tenner_csp.py:154-176 | appends the not-equal constraints for model 1's offsets from cell (x, y) |
| Tenner.MakeAdjConsM2 | tenner_csp.py:327-342 | appends the not-equal constraints for the three upper offsets |
| Tenner.LeftRunCount | tenner_csp.py:159-162 | the while loop adds each offset (0, -m) with 1 < m <= y once |
| Tenner.AdjOffsetsCount | tenner_csp.py:158-162 | model 1's offsets hold each upper offset and each left offset of the row exactly once |
| Tenner.M2OffsetsCount | tenner_csp.py:331 | model 2's offsets hold each upper offset exactly once |
| Tenner.AdjKindsCount | tenner_csp.py:163-167 | a not-equal constraint into (x, y) is posted as often as its offset occurs, if it is in bounds, and no other constraint is posted |
| Tenner.AdjConsCount | tenner_csp.py:154-176 | `make_adj_cons` links (x, y) exactly once to each cell above it and each cell to its left |
| Tenner.AdjConsM2Count | tenner_csp.py:327-342 | `make_adj_cons_m2` links (x, y) exactly once to each cell above it |
| Tenner.BlockCount | tenner_csp.py:94 | the generator for one cell posts exactly its own not-equal constraints, once each |
| Tenner.DescsCount | tenner_csp.py:105-106 | each kind occurs among the posted constraints as often as in the kind sequence |
| Tenner.ColumnPassCount | tenner_csp.py:93-94 | the inner column loop links each cell of the column above row x once to each of its neighbours |
| Tenner.ColumnsCount | tenner_csp.py:84-95 | the column loop posts each column sum once, with that column's total; links every cell once to each neighbour; posts no row constraint |
| Tenner.RowPassCount | tenner_csp.py:289-291 | the inner row loop links each cell of the row once to each cell above it |
| Tenner.RowsCount | tenner_csp.py:287-292 | the row loop posts each row constraint once and links every cell once more to each cell above it |
| Tenner.Model1Count | tenner_csp.py:84-95 | model 1: each column sum once, one not-equal constraint per upper or left neighbour, no row constraint |
| Tenner.Model2Count | tenner_csp.py:275-292 | model 2: each column sum once, each row constraint once, two not-equal constraints per upper neighbour |
| Tenner.CollectVars | tenner_csp.py:99-102 | the CSP lists the variables row by row |
| Tenner.FlattenIndex | tenner_csp.py:99-102 | variable (i, j) sits at position 10 i + j of the CSP's variables |
| Tenner.PostColumnBlocks | tenner_csp.py:93-94 | the inner column loop appends the blocks of the column's cells in row order |
| Tenner.PostColumn | tenner_csp.py:85-94 | one column pass appends the column sum, then the column's blocks |
| Tenner.PostColumns | tenner_csp.py:84-95 | the column loop appends the canonical constraints of the column kinds |
| Tenner.PostRowBlocks | tenner_csp.py:288-291 | the inner row loop gathers the row's cells in order and appends their model 2 blocks |
| Tenner.PostRow | tenner_csp.py:288-292 | one row pass appends the row's blocks, then its row constraint |
| Tenner.PostRows | tenner_csp.py:287-292 | the row loop appends the canonical constraints of the row kinds |
| Tenner.TennerModel1 | tenner_csp.py:12-107 | returns the variable array built from the board, the variables row by row, and exactly the constraints of `Model1Kinds` in posting order |
| Tenner.TennerModel2 | tenner_csp.py:219-304 | returns the same variables and exactly the constraints of `Model2Kinds` in posting order |

## Left out

- The library that defines the CSP, `Variable` and `Constraint` classes
  (`cspbase`) is not part of this model. `Store` stands in for the parts the
  propagators use. Names, the name strings of variables and constraints
  (`"V{},{}"`, `"COL{}"`, `"R{}"`, `"C(...)"`) and object identity are not
  modelled. Variables and constraints are indices, and a Tenner constraint is
  identified by its kind.
- The backtracking search (`bt_search`) and its undo step are not part of
  this model. `Restore` and its lemmas state what the undo relies on.
- I/O and diagnostics are not modelled: the commented-out `print` calls and
  the module-level test board with its calls (tenner_csp.py:199-207). The
  `numpy` import is never used.
- `int(row[ind])` in `process_board` is modelled as the identity, because
  the board's cells are already integers.
- The cost of enumerating `itertools.product` is not modelled. Only the
  tuples it yields, and their order, are.
- The `deque` of `GAC_Enforce` is a sequence. `queue.clear()` on a wipeout is
  the method returning.
- Propagators.ReviseVar: returns the records it pruned, and the caller
  appends them to `pruned`. The source appends to `pruned` in place; the
  final list is the same.
- Csp.Store.CurDomain: an assigned variable's `cur_domain` is its current
  set in domain order. In `cspbase`, which is not part of this model,
  `cur_domain` of an assigned variable is only its assigned value. The
  consequence: after an assignment, `PropGAC` may revise and prune other
  values of the assigned variable, which the source never offers to
  `has_support`, so its prune list can be longer than the source's. For
  example, take A + B + C = 6 with distinct values, every domain {1, 2, 3},
  and A := 1. The model's `PropGAC(Some(A))` returns
  [(B, 1), (C, 1), (A, 2), (A, 3)]; the source returns [(B, 1), (C, 1)].
  Supports for an assigned variable's slot in another variable's support
  still use only the assigned value (`Allowed`), as in the source.
- Propagators.PropGAC: on true, arc consistency is stated for the
  constraints the queue popped. These are exactly the seeds and the
  constraints on a pruned variable. Arc consistency of constraints never
  queued is not claimed, and the source does not establish it.
- Tenner.TennerModel1, Tenner.TennerModel2: require a board of at least one
  row, ten cells per row and at least ten column sums (`WellFormed`). This
  is the input shape the source's docstring documents: a list of n
  length-10 lists together with the row of sums (tenner_csp.py:34-36).
  Boards of other shapes are not modelled.
- Tenner.MakeAdjCons, Tenner.MakeAdjConsM2: the bound `row <= n_rows` is
  modelled as written. It can never admit row `n_rows`, because no offset
  moves down. `AdjConsCount` states the resulting constraints for every
  cell on the board.
