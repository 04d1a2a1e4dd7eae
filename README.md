# Affine constraints, sparse matrices and multigrid copies of deal.II

This project models, in Dafny, the constraint engine `AffineConstraints` of
deal.II, the objects it writes into, and the programs around it:

- **The constraint engine.** A constraint object stores lines
  `x[d] = Σ wᵢ·x[mᵢ] + c`, one per constrained degree of freedom (dof):
  - a line is built with `add_line`, `add_entry`, `set_inhomogeneity` and
    `constrain_dof_to_zero`;
  - `close()` drops zero weights, resolves chains of constraints, sorts
    every line and adds up the weights of a master named twice (a cycle is
    an error);
  - `merge` adds a second set under the policies `no_conflicts_allowed`,
    `left_object_wins` and `right_object_wins`;
  - the closed set is applied by `condense` (on a sparsity pattern, a matrix
    or a vector), `distribute_local_to_global` and `distribute`.

  Lines are values, a map from dof to `Line` (`ConstraintLines`). The
  resolution, merging and expansion steps are pure functions with lemmas
  (`Closure`, `Merge`, `Expansion`, `Condensation`, `VectorExpansion`). The
  object itself is the class `Constraints.AffineConstraints`: its methods
  update its lines and its closed flag in place, and are proved against
  those functions.
- **The objects the engine writes into** (`Sparse`):
  - `SparsityPattern`, whose entries are added one by one until
    `compress()` fixes the layout;
  - `SparseMatrix`, whose values live in an array indexed by the layout.
    Adding a nonzero outside the pattern is an error, a zero outside it is
    skipped, and `el` reads 0 off the pattern.

  `IndexSets.IndexSet` is the index set with `add_index`,
  `nth_index_in_set`, `subtract_set` and `is_subset_of`.
- **The copy loops of `MGTransferSelect`** (`MgTransfer`):
  - `do_copy_from_mg` assigns level values into a global vector through the
    (global, level) index pairs of each active cell's level;
  - `do_copy_from_mg_add` zeroes the vector and then adds them;
  - `copy_from_mg` zeroes, copies and condenses, in a block vector or
    through a temporary block vector;
  - `copy_to_mg` selects the target block;
  - `memory_consumption`.
- **The driver programs**:
  - the two merge tests (`MergeScenarios`);
  - the boundary constraints of the curved-cells output test
    (`BoundaryConstraints`);
  - the hp Laplace program: clear, fill, close, condense the pattern,
    scatter, condense, solve, distribute (`HpLaplace`);
  - the minimal-surface program of the nonlinear solver selector test
    (`MinimalSurface`);
  - the two sparse matrix tests (`SparseScenarios`);
  - the index set test (`IndexSets.SubsetTest`).

  The pieces the two finite element drivers share are in `Assembly`.

Values are `real` (all weights in these programs are dyadic, so exact
arithmetic is faithful). Each driver is a sequence of methods over explicit
objects: the constraint object, the pattern, the matrix and the vectors.
The element integrals are inputs: one local matrix and one local vector per
cell.

The file `source/lac/affine_constraints.cc` holds only explicit template
instantiations; `affine_constraints.templates.h`, which holds the algorithms
of `close`, `merge`, `condense` and `distribute`, is not part of this model.
Their model follows what the driver programs rely on, which is why the rows
below cite the driver lines where each operation is used.

## Model

| member | source | states |
|---|---|---|
| Closure.Close | tests/lac/constraints_merge.cc:63-67 | close() keeps the constrained dofs and yields lines in closed form (no line names a constrained dof, entries strictly sorted by master), or reports a nonempty set of dofs |
| Closure.CloseSound | tests/lac/constraints_merge.cc:63-67 | every vector that satisfies the lines before close() satisfies the closed lines |
| Closure.CloseUnchanged | tests/lac/constraints_merge.cc:63-67 | closing lines whose masters are unconstrained, sorted and nonzero leaves them unchanged |
| Closure.CloseMastersWithin | tests/hp/step-3a_mapping_collection.cc:137-143 | close() introduces no master that the input lines did not name |
| Closure.CloseShallowChains | tests/numerics/nonlinear_solver_selector_01.cc:150-153 | lines whose chains are one link deep always close |
| Closure.CloseRejectsTrapped | tests/hp/step-3a_mapping_collection.cc:143 | lines that only lead into constrained dofs (a cycle) make close() fail |
| Closure.CloseRejectsTwoCycle | tests/hp/step-3a_mapping_collection.cc:143 | two dofs constrained to each other make close() fail |
| Closure.CloseRejectsCycle | tests/hp/step-3a_mapping_collection.cc:143 | a cycle of constrained dofs, each naming the next with a nonzero weight, makes close() fail, and every dof on it is reported |
| Closure.CloseErrCycle | tests/lac/constraints_merge.cc:63-67 | when close() fails, the dofs it reports contain a whole cycle |
| Closure.CloseOkIffAcyclic | tests/lac/constraints_merge.cc:63-67 | close() succeeds exactly when no chain of constrained dofs (zero weights dropped) comes back to its start |
| Closure.CloseRanked | tests/hp/step-3a_mapping_collection.cc:137-143 | lines whose dofs can be ranked so that each line names only lower-ranked constrained dofs close, however deep their chains |
| Merge.MergeLines | tests/lac/constraints_merge.cc:71 | merge fails exactly under no_conflicts_allowed with a conflict, naming the conflicts; otherwise the result constrains the union of both sets |
| Merge.MergeRightObjectWins | tests/lac/constraints_merge_05.cc:63-70 | under right_object_wins a dof of the argument gets the argument's line |
| Merge.MergeKeepsUntouched | tests/lac/constraints_merge.cc:43-71 | a receiver line that the argument neither constrains nor feeds stays as it was |
| Merge.MergeSound | tests/lac/constraints_merge.cc:71 | a vector satisfying both sets satisfies the merged lines |
| Merge.MergeChainFree | tests/lac/constraints_merge.cc:71 | two chain-free sets, where the argument names no dof the receiver constrains, merge into chain-free lines |
| Merge.MergeAssociative | tests/lac/constraints_merge.cc:71 | under left_object_wins, merging A with B and then with C gives what merging A with the merge of B and C gives, when A and C constrain no common dof |
| Merge.MergeOverlapNotAssociative | tests/lac/constraints_merge.cc:71 | when A and C constrain a common dof, the two groupings can give different lines |
| ConstraintLines.SubstituteLineTwice | tests/lac/constraints_merge.cc:63-71 | substituting a line through one set and then another is substituting it once through their composition |
| Expansion.ScatterCondenseEquivalence | tests/numerics/nonlinear_solver_selector_01.cc:226-229 | adding expanded contributions equals adding the raw ones and then condensing, at every stored position |
| Expansion.PredictionExact | tests/hp/step-3a_mapping_collection.cc:144 | the positions that expansion writes are exactly the predicted positions of the original ones |
| Expansion.ExpandAvoidsConstrained | tests/numerics/nonlinear_solver_selector_01.cc:226-229 | with chain-free lines, no expanded contribution lands in a constrained row or column |
| Condensation.FirstOutside | tests/hp/step-3a_mapping_collection.cc:208 | finds a nonzero contribution outside the pattern exactly when one exists |
| Condensation.CondensedValuesMeaning | tests/hp/step-3a_mapping_collection.cc:208 | condensed matrix: constrained diagonal 1, other constrained rows and columns 0, every other value the expanded sum |
| Condensation.CondensedPatternCovers | tests/hp/step-3a_mapping_collection.cc:144-147 | every position that expanding a stored entry reaches is in the condensed pattern |
| Condensation.CondensedPatternExact | tests/hp/step-3a_mapping_collection.cc:144-147 | every position condense adds to the pattern is reached by expanding a stored entry |
| VectorExpansion.CloseFits | tests/hp/step-3a_mapping_collection.cc:125-143 | closing lines whose dofs fit a vector gives lines that still fit it |
| VectorExpansion.CondensedZeroAtConstrained | tests/hp/step-3a_mapping_collection.cc:209 | condense(vector) leaves 0 at every constrained dof |
| VectorExpansion.DistributedSatisfies | tests/hp/step-3a_mapping_collection.cc:238 | after distribute, the vector satisfies every line |
| VectorExpansion.DistributedIdempotent | tests/numerics/nonlinear_solver_selector_01.cc:329-345 | distributing twice gives what distributing once gives |
| VectorExpansion.DistributedFixesSolutions | tests/numerics/nonlinear_solver_selector_01.cc:329-345 | a vector that already satisfies the lines is left unchanged by distribute |
| VectorExpansion.AddContributions | tests/hp/step-3a_mapping_collection.cc:203-204 | `v(g) += c` for each contribution in place gives exactly the old vector plus all contributions |
| VectorExpansion.AddedToConcat | tests/numerics/nonlinear_solver_selector_01.cc:277-303 | adding two batches in turn equals adding their concatenation |
| Sparse.Layout | tests/bits/sparse_matrix_iterator_08.cc:41-43 | the compressed layout, which the iterator visits, lists each stored position inside the matrix exactly once, nothing else, rows in increasing order |
| Sparse.IndexOf | tests/bits/sparse_matrix_add_entries_01.cc:65 | finds the slot of a stored position, and reports absence exactly for unstored ones |
| Sparse.ApplyAddsInPattern | tests/bits/sparse_matrix_add_entries_01.cc:48-58 | adds that stay in the pattern succeed, and every slot grows by the sum of the values given for its position |
| Sparse.ApplyAddsFails | tests/bits/sparse_matrix_add_entries_01.cc:18-93 | a batch of adds fails exactly when some nonzero value lies outside the pattern |
| Sparse.ApplyAddsFirstFailure | tests/bits/sparse_matrix_add_entries_01.cc:72-93 | the error names the first nonzero value outside the pattern |
| Sparse.RowContributions | tests/bits/sparse_matrix_add_entries_01.cc:57 | add(row, n, cols, values) contributes values[k] at (row, cols[k]) |
| Sparse.SparsityPattern.constructor | tests/bits/sparse_matrix_add_entries_01.cc:33 | a new pattern is open; a square one stores its diagonal |
| Sparse.SparsityPattern.Add | tests/bits/sparse_matrix_add_entries_01.cc:34-37 | add(i, j) stores (i, j) on an open pattern; out of range or after compress it is an error that changes nothing |
| Sparse.SparsityPattern.Compress | tests/bits/sparse_matrix_add_entries_01.cc:38 | compress fixes a layout listing each entry once; the entries stay |
| Sparse.SparseMatrix.constructor | tests/bits/sparse_matrix_add_entries_01.cc:40 | a matrix on a pattern has the pattern's layout and all values 0 |
| Sparse.SparseMatrix.El | tests/bits/sparse_matrix_add_entries_01.cc:67-70 | el(i, j) is 0 at an unstored position |
| Sparse.SparseMatrix.Get | tests/bits/sparse_matrix_add_entries_01.cc:63-66 | operator()(i, j) fails exactly at unstored positions and otherwise equals el(i, j) |
| Sparse.SparseMatrix.ElAtSlot | tests/bits/sparse_matrix_iterator_08.cc:45-52 | el at a slot's position reads that slot's value |
| Sparse.SparseMatrix.Add | tests/hp/step-3a_mapping_collection.cc:197-201 | add(i, j, v): zero is a no-op, a nonzero outside the pattern fails and changes nothing, otherwise only (i, j) grows by v |
| Sparse.SparseMatrix.AddAll | tests/numerics/nonlinear_solver_selector_01.cc:227-229 | adding a batch of contributions in place leaves the values and outcome of ApplyAdds |
| Sparse.SparseMatrix.AddRow | tests/bits/sparse_matrix_add_entries_01.cc:57-88 | row-wise add in place leaves the values and outcome of ApplyAdds on the row's contributions |
| Sparse.SparseMatrix.Set | tests/bits/sparse_matrix_iterator_08.cc:36-39 | set(i, j, v) overwrites only (i, j); off the pattern a zero passes and a nonzero fails, changing nothing |
| Sparse.SparseMatrix.HalveEntries | tests/bits/sparse_matrix_iterator_08.cc:41-43 | the iterator loop halves every stored value once |
| Constraints.AffineConstraints.constructor | tests/lac/constraints_merge.cc:40 | a new object is empty and open |
| Constraints.AffineConstraints.Clear | tests/hp/step-3a_mapping_collection.cc:137 | clear() empties and reopens the object |
| Constraints.AffineConstraints.IsConstrained | tests/data_out/data_out_curved_cells.cc:161 | is_constrained(d) holds exactly when d has a line; on a closed object such a d is the master of no line |
| Constraints.AffineConstraints.IsClosed | tests/lac/constraints_merge.cc:62-66 | once the object is closed, every line is strictly sorted and names no constrained dof |
| Constraints.AffineConstraints.ConstraintEntries | tests/data_out/data_out_curved_cells.cc:161 | the result is Some exactly for constrained dofs |
| Constraints.AffineConstraints.AddLine | tests/lac/constraints_merge.cc:43-46 | add_line(d) registers d with an empty line, keeps an existing line, and fails on a closed object |
| Constraints.AffineConstraints.AddEntry | tests/lac/constraints_merge.cc:44-48 | add_entry appends (m, w) to d's line; it fails without changes on a closed object, a missing line or m == d |
| Constraints.AffineConstraints.SetInhomogeneity | tests/lac/constraints_merge_05.cc:46-52 | set_inhomogeneity replaces only the offset of an existing line |
| Constraints.AffineConstraints.ConstrainDofToZero | tests/data_out/data_out_curved_cells.cc:163-187 | constrain_dof_to_zero(d) gives an unconstrained d the line x[d] = 0; a line d already has is kept, and a closed object fails unchanged |
| Constraints.AffineConstraints.Close | tests/lac/constraints_merge.cc:65-66 | an open object takes the closed lines; a cycle leaves it open and unchanged; closing twice changes nothing |
| Constraints.AffineConstraints.Merge | tests/lac/constraints_merge.cc:71 | merge takes the merged lines, or fails without changes on a conflict; a closed receiver is closed again |
| Constraints.AffineConstraints.Distribute | tests/data_out/data_out_curved_cells.cc:77 | distribute writes every constrained entry from its line, and the result satisfies every line |
| Constraints.AffineConstraints.CondenseVector | tests/hp/step-3a_mapping_collection.cc:209 | condense(vector) gives the condensed vector: constrained entries moved onto their masters |
| Constraints.AffineConstraints.CondensePattern | tests/hp/step-3a_mapping_collection.cc:144 | condense(pattern) adds every predicted position before compress, and fails on a compressed pattern |
| Constraints.AffineConstraints.CondenseMatrix | tests/hp/step-3a_mapping_collection.cc:208 | condense(matrix) gives the condensed values, or reports a missing position and changes nothing |
| Constraints.AffineConstraints.DistributeLocalToGlobal | tests/numerics/nonlinear_solver_selector_01.cc:226-229 | the cell matrix is added with rows and columns expanded through the lines |
| Constraints.EvalLine | tests/data_out/data_out_curved_cells.cc:77 | the loop computes Σ w·v[m] over a line |
| Constraints.AddScaledLine | tests/hp/step-3a_mapping_collection.cc:209 | the loop adds x·w at every master m of a line and nothing elsewhere |
| MergeScenarios.BuildChainReceiver | tests/lac/constraints_merge.cc:43-48 | c1 built by add_line/add_entry holds x0 = x11 and x1 = w1·x3 + w2·x4 |
| MergeScenarios.BuildChainArgument | tests/lac/constraints_merge.cc:55-59 | c2 holds x10 = x11 and x3 = u1·x12 + u2·x13 |
| MergeScenarios.ChainInputsClosed | tests/lac/constraints_merge.cc:63-67 | closing c1 and c2 leaves them unchanged |
| MergeScenarios.CloseBoth | tests/lac/constraints_merge.cc:63-67 | after close() both objects are closed with unchanged lines |
| MergeScenarios.ChainMerge | tests/lac/constraints_merge.cc:71 | merge under no_conflicts_allowed succeeds (shared master 11 is no conflict) and folds x3's line into line 1 |
| MergeScenarios.ChainFoldedFree | tests/lac/constraints_merge.cc:71 | the merged lines are chain-free with nonzero weights |
| MergeScenarios.ChainFoldedSorts | tests/lac/constraints_merge.cc:71 | sorting the merged lines orders line 1 by master |
| MergeScenarios.ChainMergeClosed | tests/lac/constraints_merge.cc:65-71 | re-closing the merged set of closed inputs only sorts line 1 |
| MergeScenarios.ChainMergeRun | tests/lac/constraints_merge.cc:40-71 | for any nonzero weights, both runs merge successfully into the folded lines, sorted in the closed run |
| MergeScenarios.ChainMergeTest | tests/lac/constraints_merge.cc:33-73 | with the test's weights: lines {0, 1, 3, 10}; line 1 is (12, 0.125), (13, 0.375), (4, 0.5); line 3 keeps its weights |
| MergeScenarios.OneLineClosed | tests/lac/constraints_merge_05.cc:55-59 | a single sorted line naming other dofs is already closed |
| MergeScenarios.ConflictMerge | tests/lac/constraints_merge_05.cc:65 | right_object_wins takes the argument's line for a conflicting dof; no_conflicts_allowed fails naming it |
| MergeScenarios.ConflictMergeRun | tests/lac/constraints_merge_05.cc:34-73 | in both runs merge passes and leaves only x0 = 2·x13 + 142; 11 and 13 stay unconstrained |
| BoundaryConstraints.ClassifyExact | tests/data_out/data_out_curved_cells.cc:175-189 | with circles apart, a face is inner exactly near the inner radius, outer exactly near the outer one, otherwise an internal error |
| BoundaryConstraints.ZeroLines | tests/data_out/data_out_curved_cells.cc:160-163 | guarded zeroing constrains exactly the old dofs plus the new ones |
| BoundaryConstraints.AfterFacesKeys | tests/data_out/data_out_curved_cells.cc:167-191 | the face loop constrains exactly the boundary midpoints in addition, adds no entries, and leaves other lines alone |
| BoundaryConstraints.AfterFacesLines | tests/data_out/data_out_curved_cells.cc:176-189 | each boundary midpoint gets exactly its treatment's line: zero plus offset, or zero |
| BoundaryConstraints.AfterCellsLines | tests/data_out/data_out_curved_cells.cc:155-192 | after all cells, the vertex and midpoint dofs are constrained, vertices to 0, midpoints by their face |
| BoundaryConstraints.FixVertex | tests/data_out/data_out_curved_cells.cc:160-163 | constrain_dof_to_zero is called on d only if d is not yet constrained, once per set |
| BoundaryConstraints.FixVertices | tests/data_out/data_out_curved_cells.cc:158-164 | the vertex loop zeroes the cell's vertices; the new lines are made by distinct calls |
| BoundaryConstraints.TreatFace | tests/data_out/data_out_curved_cells.cc:173-190 | one boundary face is zeroed plus an offset (inner), zeroed (outer), or an internal error |
| BoundaryConstraints.TreatFaces | tests/data_out/data_out_curved_cells.cc:166-191 | the face loop fails exactly when a face is on neither circle |
| BoundaryConstraints.EntryFreeClosed | tests/data_out/data_out_curved_cells.cc:193-194 | lines without entries are closed already |
| BoundaryConstraints.BuildBoundaryConstraints | tests/data_out/data_out_curved_cells.cc:150-194 | both sets are built by the loops and closed, or an internal error is reported |
| BoundaryConstraints.DistributedEntryFree | tests/data_out/data_out_curved_cells.cc:77-183 | through entry-free lines, distribute writes each constrained entry's offset and keeps the rest |
| BoundaryConstraints.LaplaceSolveDistribute | tests/data_out/data_out_curved_cells.cc:61-78 | the end of laplace_solve sets each constrained entry to its offset |
| BoundaryConstraints.CurvedCellsDisplacements | tests/data_out/data_out_curved_cells.cc:150-209 | on a well-formed ring mesh: vertices 0 in both displacements, inner midpoints their offsets, outer midpoints 0 |
| Assembly.ZeroVector | tests/hp/step-3a_mapping_collection.cc:125-126 | reinit(n) gives a fresh zero vector |
| Assembly.AddCellCouplings | tests/hp/step-3a_mapping_collection.cc:132 | the pattern gains every (g[i], g[j]) of one cell |
| Assembly.AddRowCouplings | tests/hp/step-3a_mapping_collection.cc:132 | the pattern gains every (g[i], g[j]) of one row of a cell, and keeps its other entries |
| Assembly.MakeSparsityPattern | tests/hp/step-3a_mapping_collection.cc:132 | the pattern gains every coupling of every cell |
| Assembly.EnterLines | tests/hp/step-3a_mapping_collection.cc:138-139 | entering lines gives the old lines overridden by the given ones |
| Assembly.ScatterCellMatrix | tests/hp/step-3a_mapping_collection.cc:197-201 | `M(g[i], g[j]) += C(i, j)` grows every stored value by the cell's contributions there |
| Assembly.ScatterCellRow | tests/hp/step-3a_mapping_collection.cc:197-201 | `M(g[i], g[j]) += C(i, j)` over one row grows every stored value by that row's contributions there |
| Assembly.MeshContributionsInPattern | tests/hp/step-3a_mapping_collection.cc:132-201 | a pattern holding every coupling holds every contribution of the mesh |
| Assembly.CondensedPatternClosed | tests/hp/step-3a_mapping_collection.cc:144 | the condensed pattern is closed under expansion |
| Assembly.CondenseFitsClosedPattern | tests/hp/step-3a_mapping_collection.cc:144-208 | on a pattern closed under expansion, condense(matrix) finds no missing position |
| Assembly.CondenseMatchesScatter | tests/numerics/nonlinear_solver_selector_01.cc:226-229 | condensing after a plain scatter equals the expanded scatter of distribute_local_to_global at unconstrained positions |
| Assembly.ExpandFitsClosedPattern | tests/numerics/nonlinear_solver_selector_01.cc:159-229 | contributions inside a closed pattern expand inside it |
| HpLaplace.CouplingPattern | tests/hp/step-3a_mapping_collection.cc:129-132 | a fresh open n × n pattern holding the diagonal and every coupling |
| HpLaplace.FillConstraints | tests/hp/step-3a_mapping_collection.cc:137-143 | clear, enter the hanging node lines, close: the object holds their closure, or is open on a cycle |
| HpLaplace.CondenseAndCompress | tests/hp/step-3a_mapping_collection.cc:144-146 | the pattern gains the predicted positions, is compressed, and is closed under expansion |
| HpLaplace.MakeGridAndDofs | tests/hp/step-3a_mapping_collection.cc:98-148 | zero vectors, closed constraints and a condensed compressed pattern with a zero matrix; fails exactly when close fails |
| HpLaplace.ScatterCells | tests/hp/step-3a_mapping_collection.cc:171-205 | the cell loop adds every cell matrix and vector, unconstrained |
| HpLaplace.AssembleSystem | tests/hp/step-3a_mapping_collection.cc:153-209 | the matrix holds the condensed scatter and the right hand side the condensed scattered vector |
| HpLaplace.Solve | tests/hp/step-3a_mapping_collection.cc:229-238 | the solution is the solver's output distributed, and satisfies every line |
| HpLaplace.CondensedAssemblyIsScatter | tests/hp/step-3a_mapping_collection.cc:197-209 | the condensed assembly equals scattering the expanded cell matrices, at every unconstrained stored position |
| MinimalSurface.SetupSystem | tests/numerics/nonlinear_solver_selector_01.cc:143-164 | only the initial step resizes the solution and rebuilds and closes the constraints; the pattern is condensed before it is fixed |
| MinimalSurface.DistributeCells | tests/numerics/nonlinear_solver_selector_01.cc:193-230 | every cell matrix enters through distribute_local_to_global and never fails |
| MinimalSurface.ComputeJacobian | tests/numerics/nonlinear_solver_selector_01.cc:169-243 | the zeroed Jacobian receives the expanded scatter of every cell matrix |
| MinimalSurface.ZeroEntries | tests/numerics/nonlinear_solver_selector_01.cc:307-313 | `residual(i) = 0` for every listed index |
| MinimalSurface.ScatterResidual | tests/numerics/nonlinear_solver_selector_01.cc:277-303 | `r(g[i]) += c(i)` for every cell, unconstrained |
| MinimalSurface.ComputeResidual | tests/numerics/nonlinear_solver_selector_01.cc:256-316 | the residual is the scattered cell vectors, condensed, then zeroed at boundary and hanging node dofs |
| MinimalSurface.HangingZeroingRedundant | tests/numerics/nonlinear_solver_selector_01.cc:305-313 | zeroing constrained dofs after condense changes nothing |
| MinimalSurface.Solve | tests/numerics/nonlinear_solver_selector_01.cc:321-330 | the solver's output is distributed and the solution satisfies every line |
| MinimalSurface.SetBoundaryValues | tests/numerics/nonlinear_solver_selector_01.cc:335-346 | the boundary values are written, then distributed; the result satisfies every line |
| MinimalSurface.BoundaryValuesKept | tests/numerics/nonlinear_solver_selector_01.cc:342-345 | a boundary value at an unconstrained dof survives distribute; a constrained one is overwritten by its line |
| MgTransfer.AssignedAt | include/deal.II/multigrid/mg_transfer_component.templates.h:180-183 | an index no pair writes keeps its value; a written index does not depend on the earlier vector |
| MgTransfer.AssignedIdempotent | include/deal.II/multigrid/mg_transfer_component.templates.h:180-183 | running a level's assignments twice equals running them once |
| MgTransfer.CopiedFromMgRepeat | include/deal.II/multigrid/mg_transfer_component.templates.h:175-184 | another active cell on the same level changes nothing |
| MgTransfer.CopiedFromMgUnlisted | include/deal.II/multigrid/mg_transfer_component.templates.h:174-184 | an index that no visited level writes keeps its value (0 after the zeroing) |
| MgTransfer.AssignedIsAddedWhenDistinct | include/deal.II/multigrid/mg_transfer_component.templates.h:180-215 | with distinct global indices, assigning into zeros equals adding into zeros |
| MgTransfer.AddedSingleLevel | include/deal.II/multigrid/mg_transfer_component.templates.h:206-216 | when all active cells are on one level, the add variant accumulates that level's list once per cell |
| MgTransfer.MgTransferSelect.constructor | include/deal.II/multigrid/mg_transfer_component.templates.h:57-87 | the transfer keeps its target components, selected component, index lists and constraints |
| MgTransfer.MgTransferSelect.TargetBlock | include/deal.II/multigrid/mg_transfer_component.templates.h:57-85 | the block target_component[selected_component] is one of the target components, below the block count max + 1 that copy_from_mg relies on |
| MgTransfer.MgTransferSelect.AssignLevel | include/deal.II/multigrid/mg_transfer_component.templates.h:180-183 | the loop over one cell's level list gives the block the assignment result from its old entries and leaves the rest of dst |
| MgTransfer.MgTransferSelect.DoCopyFromMg | include/deal.II/multigrid/mg_transfer_component.templates.h:156-185 | do_copy_from_mg writes the assignment result from zero into its block and leaves the rest of dst |
| MgTransfer.MgTransferSelect.AddLevel | include/deal.II/multigrid/mg_transfer_component.templates.h:212-215 | one level list adds v(l) at g for each pair, and nothing elsewhere |
| MgTransfer.MgTransferSelect.DoCopyFromMgAdd | include/deal.II/multigrid/mg_transfer_component.templates.h:188-217 | do_copy_from_mg_add gives zero plus every active cell's level list added |
| MgTransfer.MgTransferSelect.CopyFromMgBlock | include/deal.II/multigrid/mg_transfer_component.templates.h:74-89 | the block vector is zero outside the target block and holds the copy there; it is condensed when constraints are present |
| MgTransfer.MgTransferSelect.CopyFromMg | include/deal.II/multigrid/mg_transfer_component.templates.h:93-126 | vector overload: the copy; with constraints, the target block of the condensed temporary block vector |
| MgTransfer.MgTransferSelect.CopyFromMgAdd | include/deal.II/multigrid/mg_transfer_component.templates.h:130-152 | both overloads give the add variant's result, with no constraints applied |
| MgTransfer.MgTransferSelect.CopyToMgSource | include/deal.II/multigrid/mg_transfer_component.templates.h:47-58 | copy_to_mg on a block vector hands on exactly the target block |
| MgTransfer.CondenseInBlock | include/deal.II/multigrid/mg_transfer_component.templates.h:113-124 | dst becomes the condensed temporary block vector that holds dst in block b and zeros elsewhere |
| MgTransfer.Embedded | include/deal.II/multigrid/mg_transfer_component.templates.h:117-122 | a fresh zero block vector with dst copied into one block |
| MgTransfer.CopyBack | include/deal.II/multigrid/mg_transfer_component.templates.h:124 | dst becomes the target block of the temporary |
| MgTransfer.CopyToMgReadsTargetBlock | include/deal.II/multigrid/mg_transfer_component.templates.h:55-57 | block vectors that agree on the target block hand on the same vector |
| IndexSets.RemoveMember | tests/base/index_set_34.cc:49-52 | removing a member leaves a strict subset with one element fewer |
| IndexSets.IndexSet.constructor | tests/base/index_set_34.cc:29-44 | IndexSet(n) is empty, of size n |
| IndexSets.IndexSet.Copy | tests/base/index_set_34.cc:41 | the copy is a new object with the same contents |
| IndexSets.IndexSet.AddIndex | tests/base/index_set_34.cc:31-45 | add_index(i) makes i a member |
| IndexSets.IndexSet.Compress | tests/base/index_set_34.cc:32-47 | compress keeps the contents |
| IndexSets.NElementsAtMostSize | tests/base/index_set_34.cc:46 | n_elements() never exceeds size() |
| IndexSets.IndexSet.IsEmpty | tests/base/index_set_34.cc:42 | is_empty holds exactly when there are no members |
| IndexSets.IndexSet.NthIndexInSet | tests/base/index_set_34.cc:45-46 | for k < n_elements, the member with exactly k members below it |
| IndexSets.IndexSet.SubtractSet | tests/base/index_set_34.cc:49 | subtract_set removes the other set's members |
| IndexSets.IndexSet.IsSubsetOf | tests/base/index_set_34.cc:35-52 | for sets of the same size, a subset has at most as many elements, and a subset with as many is the same set |
| IndexSets.SubsetTest | tests/base/index_set_34.cc:27-56 | the loop ends with an empty set after one step per member; the copy keeps the original members; the loop asserts after each step that the set is a subset of the copy and the copy is not a subset of it |
| SparseScenarios.RowSumAll | tests/bits/sparse_matrix_add_entries_01.cc:57 | a row add over columns 0..n-1 puts values[j] at (row, j) and nothing elsewhere |
| SparseScenarios.MakePattern | tests/bits/sparse_matrix_add_entries_01.cc:33-38 | the compressed 5 × 5 pattern stores (i, j) exactly when (i + 2j + 1) % 3 == 0 or i == j |
| SparseScenarios.AddTestRows | tests/bits/sparse_matrix_add_entries_01.cc:50-58 | after the row loop every stored value is i·j/2 + 1/2 where coupled, 0 on the extra diagonal |
| SparseScenarios.TestRowsReadBack | tests/bits/sparse_matrix_add_entries_01.cc:60-70 | operator() gives i·j/2 + 1/2 at coupled positions, el gives 0 elsewhere |
| SparseScenarios.ShiftedRowFails | tests/bits/sparse_matrix_add_entries_01.cc:75-93 | adding 0.5·i − 1.5 to row 0 fails at (0, 2) and to row 4 at (4, 0) |
| SparseScenarios.FillTestRows | tests/bits/sparse_matrix_add_entries_01.cc:32-70 | the filled matrix reads back as the test asserts |
| SparseScenarios.AddEntriesTest | tests/bits/sparse_matrix_add_entries_01.cc:29-96 | both invalid row adds fail with the first position outside the pattern |
| SparseScenarios.SetProductRow | tests/bits/sparse_matrix_iterator_08.cc:37-39 | one row of the set loop writes i·j at its stored positions and nothing else |
| SparseScenarios.SetProducts | tests/bits/sparse_matrix_iterator_08.cc:36-39 | every stored value becomes i·j |
| SparseScenarios.HalvedProducts | tests/bits/sparse_matrix_iterator_08.cc:45-52 | once every slot holds half its product, el(i, j) reads i·j/2 at every stored (i, j) |
| SparseScenarios.IteratorTest | tests/bits/sparse_matrix_iterator_08.cc:26-55 | after the halving loop, el(i, j) = i·j/2 at every stored position, diagonal included; the layout is the pattern's |

## Left out

- `affine_constraints.templates.h`, the implementation of `AffineConstraints`, is not part of this model. `close`, `merge`, `condense` and `distribute` follow what the driver programs rely on:
  - close() drops the zero weights of its input, substitutes lines into each other for at most as many rounds as there are lines, then sorts each line and adds up the weights of a master named twice; a sum that comes to 0 is kept;
  - a line with no entries is kept (constrain_dof_to_zero relies on it);
  - the renormalisation of weights that sum almost to one is floating point and is left out.
- Constraints.AffineConstraints.CondenseMatrix: writes 1 on the diagonal of a constrained row. The value deal.II writes there is in `affine_constraints.templates.h`, which is not part of this model.
- Constraints.AffineConstraints.DistributeLocalToGlobal: adds the expanded contributions only. The diagonal entries that deal.II writes for constrained rows are left out for the same reason.
- Constraints.AffineConstraints.ConstrainDofToZero: does not overwrite a line d already has (it keeps it, as add_line does). Every call in data_out_curved_cells.cc passes an unconstrained dof: the vertex call at line 163 is guarded by is_constrained, and the face calls at lines 179 and 187 pass a boundary midpoint that only its own cell visits.
- The vector overload of `distribute_local_to_global` is not part of this model: none of the driver programs calls it.
- Merge.MergeLines: associativity under left_object_wins is proved (MergeAssociative) only when no dof is constrained in both A and C; MergeOverlapNotAssociative shows that the two groupings differ otherwise.
- The row capacity of `SparsityPattern` (the third constructor argument, the most entries a row may hold) is not modelled: a pattern accepts any number of entries per row.
- Locally owned and relevant index ranges, MPI exchange, `print` and the logging of every program are left out: they are I/O or distribution.
- The finite element numerics are inputs, one local matrix and vector per cell:
  - shape gradients and quadrature;
  - the Jacobian and residual formulas;
  - the ring geometry (a face is given by its vertex radius and centre).
- The conjugate-gradient and UMFPACK solves are left out; the solver's output is an input of Solve.
- `interpolate_boundary_values` and `apply_boundary_values` are left out. The boundary values are a given map.
- `make_hanging_node_constraints`, `extract_boundary_dofs` and `extract_hanging_node_dofs` are left out; the lines and dof lists they produce are inputs.
- The DoF handler and mesh are given as per-cell dof lists. Refinement and fe-index assignment are left out.
- `DynamicSparsityPattern` and `copy_from` are modelled as condensing an open `SparsityPattern` that is then compressed.
- `constrained_linear_operator` / `constrained_right_hand_side` and the threads that run the two solves are left out. Each solve is modelled by its final `distribute`.
- `run()` and `output_results()` of both programs are left out (iteration control, output).
- The factorization and `vmult` of MinimalSurfaceProblem::solve are left out; their output is an input of MinimalSurface.Solve.
- LaplaceProblem and MinimalSurfaceProblem are not classes. Their steps are module-level methods over the objects they share (constraints, pattern, matrix, vectors), which keeps each step's proof small.
- `do_copy_to_mg` is not part of this model. copy_to_mg is modelled as the choice of the vector it hands on.
- `count_dofs_per_fe_block` is an input: the block sizes.
- The level of each active cell is an input (a sequence of levels).
- MgTransfer.MgTransferSelect.MemoryConsumption: a byte count of the implementation, with no property to state; `MGTransferComponentBase::memory_consumption` is its input and `sizeof(int)` is 4.
- The random numbers of the index set test are inputs. `picks` gives the rank chosen at each step.
- The size assertions of `IndexSet` (`add_index` below the size, `subtract_set` and `is_subset_of` on sets of the same size) are preconditions.
- The storage layout of `IndexSet` (ranges, compression) is not modelled; the contents are a set.
- The chunk sparse matrix, PETSc, Trilinos, multigrid global-coarsening, mesh and floating-point element tests are left out. They are foreign library calls, floating-point numerics or concurrency.
