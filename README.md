# fvm: immersed-boundary classification and the multi-field block matrix

This project is a Dafny model of two parts of the fvm finite-volume framework.

**Immersed-boundary bookkeeping (`IBManager`).** Before a flow solve, the cells of each fluid mesh are classified against an immersed solid.
- `markIntersections` resets every cell to UNKNOWN. It marks the cells the solid surface cuts as BOUNDARY, then walks the boundary face groups.
- `markFluid` floods FLUID from every FLUID cell through UNKNOWN neighbours, using a stack. `update` repeats it until a pass finds nothing new.
- `markSolid` turns every remaining UNKNOWN cell SOLID.
- `createIBFaces` lists the faces between a FLUID and a BOUNDARY cell. It refuses a face between FLUID and SOLID.
- The interpolation stencils grow a set of FLUID cells around a seed cell layer by layer (`addFluidNeighbors`), capped at 10 layers. The IB face version throws when the cap is reached.

**The block matrix of coupled fields (`MultiFieldMatrix`).** A `MultiFieldMatrix` holds one block per pair of (field, storage site) indices. It provides:
- the products, the Gauss-Seidel sweeps (forward, reverse, boundary solve) and the residual, all over `MultiField`s;
- the removal of blocks and the size count;
- the set-up of algebraic multigrid:
  - coarsening of every diagonal block;
  - numbering of coarse ghost rows and construction of the coarse ghost mappers;
  - the coarse-to-fine mappings in compressed-row form;
  - the coarse connectivities and coarse matrices of every block;
  - the injection of residuals and the correction of solutions.

## How the model is built

- The cell types of a mesh are an `array<IBType>`. The passes over it (`markIntersections`, `markFluid`, `markSolid`, the face counting and filling, the stencil growth) are methods with loops.
- Each method is proved against specification functions:
  - `TagFaces`, `SolidFill`, `IBFaceIndices` and `GrowUntil`;
  - for the flood fill, the reachability predicate `FillPath`.
- `MultiFieldMatrix` is a class. Its maps (`_matrices`, `_coarseSizes`, `_coarseGhostSizes`, `_coarseMappers`, `_coarseSites`, `_coarseToFineMappings`, `_coarseConnectivities`, `_coarseMatrices`) are `map` fields, and the `keys` field holds the order of the blocks.
- The coarse index field is a `MultiField<array<int>>`, updated in place by `createCoarsening` and `syncGhostCoarsening`.
- The numeric fields (`x`, `b`, `y`, residuals) are `MultiField<seq<real>>` values. A method returns the updated field.
- Every per-block numeric operation is a function field of `Kernels` and is left abstract:
  - `multiplyAndAdd`, the block relaxations, `initAssembly`;
  - the block's `createCoarsening`, `createCoarseConnectivity` and `createCoarseMatrix`;
  - `inject`, `correct` and `syncLocal`.
  The matrix code is proved to call these kernels on the right arrays, in the right order, and to store the right results, and nothing else.
- Each loop over rows is specified by a fold over the row list (`ProductRows`, `Sweep`, `ResidualRows`, `CoarsenRows`, `SyncRows`, `InjectRows`, `CorrectRows`). A companion lemma then says what the fold leaves in each row.
- The coarse ghost numbering is proved from the definition of one neighbour's pass (`GhostPass`):
  - the ids it hands out are one-to-one;
  - every ghost row gets one;
  - neighbours get disjoint consecutive blocks;
  - ids are handed out in first-encounter order;
  - the new coarse mapper lists every pair once by ascending key.
- The coarse-to-fine mapping is built as a real compressed-row structure. Its rows are proved to list exactly the fine rows aggregated into each coarse row, in ascending order.

## Model
| member | source | states |
|---|---|---|
| IBMarking.ClassifyCells | src/fvm/src/modules/fvmbase/IBManager.cpp:25-82 | the classification of update for one isolated mesh ends with no UNKNOWN cell, no FLUID cell beside a SOLID cell, and BOUNDARY cells exactly where markIntersections put them; for one isolated mesh the fluid loop runs one or two passes |
| IBMarking.MarkFluidUntilStable | src/fvm/src/modules/fvmbase/IBManager.cpp:49-74 | for one isolated mesh the do-while driver runs one or two markFluid passes; afterwards no FLUID cell has an UNKNOWN neighbour, and a cell changed exactly when it was UNKNOWN and a walk through UNKNOWN cells reaches it from a FLUID cell |
| IBMarking.SolidFillSeparates | src/fvm/src/modules/fvmbase/IBManager.cpp:76-82 | filling a closed state without SOLID cells leaves no FLUID cell beside a SOLID cell |
| IBMarking.InitialTypes | src/fvm/src/modules/fvmbase/IBManager.cpp:172-242 | after the reset and the intersection loop a cell is BOUNDARY exactly when the geometry found it intersected, and UNKNOWN otherwise |
| IBMarking.MarkIntersections | src/fvm/src/modules/fvmbase/IBManager.cpp:172-271 | with the geometric hits given: all cells reset to UNKNOWN, intersected cells BOUNDARY, then the face-group pass; the array ends equal to TagFaces of the initial types |
| IBMarking.TagFacesOnlyFluidOrBoundary | src/fvm/src/modules/fvmbase/IBManager.cpp:248-271 | the face-group pass never turns a known cell back into UNKNOWN; each cell ends with its old type, FLUID or BOUNDARY |
| IBMarking.TagFacesFrame | src/fvm/src/modules/fvmbase/IBManager.cpp:248-271 | a cell on no boundary face keeps its type |
| IBMarking.TagFacesSecondCellKnown | src/fvm/src/modules/fvmbase/IBManager.cpp:248-271 | after the pass the second cell c1 of every boundary face is FLUID or BOUNDARY |
| IBMarking.TagFacesNoSolid | src/fvm/src/modules/fvmbase/IBManager.cpp:248-271 | the face-group pass never produces a SOLID cell |
| IBMarking.TagFace | src/fvm/src/modules/fvmbase/IBManager.cpp:257-268 | two UNKNOWN cells both become FLUID; otherwise c1 becomes BOUNDARY and c0 keeps its type; no other cell changes |
| IBMarking.MarkFluid | src/fvm/src/modules/fvmbase/IBManager.cpp:277-326 | only UNKNOWN cells change, and only to FLUID; the result counts them; afterwards no FLUID cell has an UNKNOWN neighbour; a cell changes exactly when a fill path reaches it |
| IBMarking.FillCharacterization | src/fvm/src/modules/fvmbase/IBManager.cpp:297-323 | the completed fill turns a cell FLUID exactly when it was UNKNOWN and a walk through UNKNOWN cells reaches it from a FLUID cell |
| IBMarking.CoveredDoneIsClosed | src/fvm/src/modules/fvmbase/IBManager.cpp:297-323 | when the stack is empty and every cell was passed, no FLUID cell has an UNKNOWN neighbour |
| IBMarking.ClosedPassIsStable | src/fvm/src/modules/fvmbase/IBManager.cpp:297-326 | a markFluid pass over a closed state changes nothing |
| IBMarking.FinishFill | src/fvm/src/modules/fvmbase/IBManager.cpp:297-326 | a pass that has visited every cell leaves a closed fill whose count is the number of UNKNOWN cells it filled |
| IBMarking.FillFrom | src/fvm/src/modules/fvmbase/IBManager.cpp:299-324 | the stack loop from one FLUID cell keeps the fill state: only UNKNOWN cells become FLUID, the counter matches, every filled cell has a discovery path |
| IBMarking.CheckNeighbors | src/fvm/src/modules/fvmbase/IBManager.cpp:309-322 | the neighbour scan of a popped cell fills exactly its UNKNOWN neighbours and counts them |
| IBMarking.VisitNeighbor | src/fvm/src/modules/fvmbase/IBManager.cpp:314-321 | one neighbour: an UNKNOWN neighbour becomes FLUID, is counted and pushed; a known one is left alone |
| IBMarking.MarkSolid | src/fvm/src/modules/fvmbase/IBManager.cpp:330-353 | every UNKNOWN cell becomes SOLID, nothing else changes, and the result is the number of UNKNOWN cells before |
| IBMarking.SolidFillSpec | src/fvm/src/modules/fvmbase/IBManager.cpp:343-350 | after markSolid no cell is UNKNOWN and every other cell keeps its type |
| IBCells.OccurrencesZero | src/fvm/src/modules/fvmbase/IBManager.cpp:343-350 | no cell holds a type exactly when its count is 0 |
| IBCells.OccurrencesUpdate | src/fvm/src/modules/fvmbase/IBManager.cpp:344-348 | writing one cell changes the count of a type by exactly the cells that left or joined it (the nFound bookkeeping of markFluid and markSolid) |
| IBFaces.CreateIBFaces | src/fvm/src/modules/fvmbase/IBManager.cpp:385-448 | fails exactly when a FLUID/SOLID face exists; otherwise the list is exactly the IB faces in ascending order and the site count equals its length |
| IBFaces.CountIBFaces | src/fvm/src/modules/fvmbase/IBManager.cpp:397-418 | the counting pass returns the number of IB faces, or fails exactly when some face joins a FLUID and a SOLID cell |
| IBFaces.IBFaceIndicesMembership | src/fvm/src/modules/fvmbase/IBManager.cpp:406-410 | a face index is listed exactly when its cells are FLUID and BOUNDARY in either order |
| IBFaces.SeparatedMeansNoFluidSolidFace | src/fvm/src/modules/fvmbase/IBManager.cpp:413-417 | after the classification, a mesh whose faces join neighbouring cells has no FLUID/SOLID face, so createIBFaces cannot fail |
| IBFaces.FillIBFaces | src/fvm/src/modules/fvmbase/IBManager.cpp:425-441 | the filling pass writes the IB face indices in face order |
| IBFaces.IBFaceIndicesAscending | src/fvm/src/modules/fvmbase/IBManager.cpp:429-441 | the IB face list is strictly ascending and holds face indices only |
| IBFaces.IBFaceIndicesPrefix | src/fvm/src/modules/fvmbase/IBManager.cpp:429-441 | considering more faces never shortens the IB face list |
| IBStencil.GrowMembership | src/fvm/src/modules/fvmbase/IBManager.cpp:456-472 | one layer adds exactly the FLUID neighbours of the set |
| IBStencil.AddFluidNeighbors | src/fvm/src/modules/fvmbase/IBManager.cpp:456-472 | the result is the input set plus exactly the FLUID neighbours of its cells, a superset of the input |
| IBStencil.FluidNeighborsOfMembership | src/fvm/src/modules/fvmbase/IBManager.cpp:462-469 | a cell is collected from c exactly when it is a cellCells neighbour of c and FLUID |
| IBStencil.AddCellFluidNeighbors | src/fvm/src/modules/fvmbase/IBManager.cpp:462-469 | the inner loop collects the FLUID neighbours of one cell |
| IBStencil.SubsetCard | src/fvm/src/modules/fvmbase/IBManager.cpp:471 | a superset is at least as large, and one of equal size is the same set |
| IBStencil.IBInterpolationStencils | src/fvm/src/modules/fvmbase/IBManager.cpp:511-540 | the pass fails exactly when some IB face stencil is short; otherwise every face gets its grown stencil of at least 8 cells |
| IBStencil.GrowUntilStops | src/fvm/src/modules/fvmbase/IBManager.cpp:528-536 | the loop stops before the cap only because the set is large enough |
| IBStencil.GrowStencil | src/fvm/src/modules/fvmbase/IBManager.cpp:528-536 | the while loop returns the set and the layer count of the capped growth from the seed |
| IBStencil.CapMeansShort | src/fvm/src/modules/fvmbase/IBManager.cpp:528-538 | from one seed with at most 10 cells required, the loop reaches 10 layers exactly when the stencil stays short |
| IBStencil.IBFaceStencil | src/fvm/src/modules/fvmbase/IBManager.cpp:528-538 | throws exactly when the grown stencil has fewer than 8 cells; otherwise returns it |
| IBStencil.StallIsFinal | src/fvm/src/modules/fvmbase/IBManager.cpp:531-536 | a set one layer does not change is the answer whatever the budget |
| IBStencil.CapReached | src/fvm/src/modules/fvmbase/IBManager.cpp:531-536 | using the whole budget means the final set is short or the start set was too small to fill in one layer fewer |
| IBStencil.GrowUntil | src/fvm/src/modules/fvmbase/IBManager.cpp:531-536 | the capped growth never uses more layers than the budget and never loses a cell |
| IBStencil.GrowUntilStep | src/fvm/src/modules/fvmbase/IBManager.cpp:531-536 | a short set with budget left grows one layer and spends one layer of the budget |
| IBStencil.SolidInterpolationStencils | src/fvm/src/modules/fvmbase/IBManager.cpp:624-646 | a solid face whose nearest cell is in this mesh gets the stencil grown from that cell, any other face none |
| IBStencil.SolidFaceStencil | src/fvm/src/modules/fvmbase/IBManager.cpp:633-645 | no error; the layer count reaches 10 exactly when the stencil has fewer than 10 cells |
| MFMatrix.MultiFieldMatrix.constructor | src/fvm/src/modules/fvmbase/MultiFieldMatrix.cpp:9-20 | a matrix with no blocks and empty coarse data |
| MFMatrix.MultiFieldMatrix.HasMatrix | src/fvm/src/modules/fvmbase/MultiFieldMatrix.cpp:27-33 | true exactly when a block is stored at (row, col); in a valid matrix, exactly when (row, col) is a recorded key |
| MFMatrix.MultiFieldMatrix.GetMatrix | src/fvm/src/modules/fvmbase/MultiFieldMatrix.cpp:35-49 | the block stored at (row, col), for a key that is present |
| MFMatrix.MultiFieldMatrix.InitAssembly | src/fvm/src/modules/fvmbase/MultiFieldMatrix.cpp:51-56 | every block becomes its own initAssembly and the key set is kept |
| MFMatrix.MultiFieldMatrix.Multiply | src/fvm/src/modules/fvmbase/MultiFieldMatrix.cpp:58-84 | each row of y is zeroed and then accumulates every coupling of x |
| MFMatrix.MultiFieldMatrix.Product | src/fvm/src/modules/fvmbase/MultiFieldMatrix.cpp:58-110 | y keeps its indices and its arrays become the row-by-row products, zeroed first or not |
| MFOperators.ProductRowsAt | src/fvm/src/modules/fvmbase/MultiFieldMatrix.cpp:58-110 | a listed row holds its own accumulation over every column with a block, from zero or from its old value; all other arrays are unchanged |
| MFOperators.MultiplyIsZeroThenAdd | src/fvm/src/modules/fvmbase/MultiFieldMatrix.cpp:58-110 | multiply equals multiplyAndAdd applied after zeroing the listed rows |
| MFMatrix.MultiFieldMatrix.Accumulate | src/fvm/src/modules/fvmbase/MultiFieldMatrix.cpp:70-81 | the column loop adds M(row, col) x[col] for every column with a block, first column first |
| MFOperators.RowFoldUncoupled | src/fvm/src/modules/fvmbase/MultiFieldMatrix.cpp:70-81 | a row with no block in the columns accumulates nothing |
| MFTypes.Zero | src/fvm/src/modules/fvmbase/MultiFieldMatrix.cpp:72 | zeroing keeps the length and makes every entry 0 |
| MFMatrix.MultiFieldMatrix.MultiplyAndAdd | src/fvm/src/modules/fvmbase/MultiFieldMatrix.cpp:86-110 | each row of y accumulates every coupling of x onto its old value |
| MFMatrix.MultiFieldMatrix.ForwardGS | src/fvm/src/modules/fvmbase/MultiFieldMatrix.cpp:112-148 | forward Gauss-Seidel equals the sweep over the rows in ascending order |
| MFMatrix.MultiFieldMatrix.SweepUp | src/fvm/src/modules/fvmbase/MultiFieldMatrix.cpp:112-183 | the ascending loop relaxes every row of x in index order |
| MFOperators.SweepAppend | src/fvm/src/modules/fvmbase/MultiFieldMatrix.cpp:118-147 | a sweep over o1 then o2 is the sweep over o1 + o2: each row sees the rows relaxed before it |
| MFOperators.SweepFrame | src/fvm/src/modules/fvmbase/MultiFieldMatrix.cpp:118-147 | a sweep writes only visited rows that have a diagonal block and adds or removes no array |
| MFMatrix.MultiFieldMatrix.RelaxStep | src/fvm/src/modules/fvmbase/MultiFieldMatrix.cpp:119-147 | one row of a sweep: without a diagonal block nothing changes; otherwise temp is seeded from b, off-diagonal couplings are added, x is synchronised and the diagonal kernel writes x and temp |
| MFTypes.CopyPartial | src/fvm/src/modules/fvmbase/MultiFieldMatrix.cpp:131 | entries lo..hi are taken from b, the others kept |
| MFOperators.RowFoldIgnoresOwnRow | src/fvm/src/modules/fvmbase/MultiFieldMatrix.cpp:133-141 | with the diagonal skipped, a row's sum does not depend on x at that row |
| MFOperators.RowFoldWithoutDiagonal | src/fvm/src/modules/fvmbase/MultiFieldMatrix.cpp:133-141 | without a diagonal block, skipping the diagonal changes nothing |
| MFMatrix.MultiFieldMatrix.SolveBoundary | src/fvm/src/modules/fvmbase/MultiFieldMatrix.cpp:150-183 | the boundary solve equals the sweep seeded from all of b, without synchronisation |
| MFMatrix.MultiFieldMatrix.ReverseGS | src/fvm/src/modules/fvmbase/MultiFieldMatrix.cpp:187-221 | reverse Gauss-Seidel equals the sweep over the rows in descending order |
| MFOperators.BackwardsMembership | src/fvm/src/modules/fvmbase/MultiFieldMatrix.cpp:196 | the reversed order visits the same rows |
| MFOperators.SweepDownIsReverseOrder | src/fvm/src/modules/fvmbase/MultiFieldMatrix.cpp:196-220 | the descending loop is the sweep over the reversed row order |
| MFMatrix.MultiFieldMatrix.ComputeResidual | src/fvm/src/modules/fvmbase/MultiFieldMatrix.cpp:223-256 | r keeps its indices and becomes the row-by-row residual |
| MFOperators.ResidualRowsAt | src/fvm/src/modules/fvmbase/MultiFieldMatrix.cpp:232-255 | a row with a diagonal block holds its seed plus every coupling, the diagonal included; every other array is unchanged |
| MFOperators.ResidualSeed | src/fvm/src/modules/fvmbase/MultiFieldMatrix.cpp:239-243 | the seed of r is b on the site's own rows and zero on its ghost rows |
| MFTypes.ZeroPartial | src/fvm/src/modules/fvmbase/MultiFieldMatrix.cpp:243 | entries lo..hi become 0, the others are kept |
| MFMatrix.MultiFieldMatrix.RemoveMatrix | src/fvm/src/modules/fvmbase/MultiFieldMatrix.cpp:258-264 | afterwards (row, col) has no block, every other block is kept with its value, and the key order drops only that key |
| MFMatrix.SizeAfterRemove | src/fvm/src/modules/fvmbase/MultiFieldMatrix.cpp:258-264 | removing a diagonal block lowers the size by its row site count; removing any other key leaves the size alone |
| MFMatrix.Without | src/fvm/src/modules/fvmbase/MultiFieldMatrix.cpp:263 | the key list without e holds every other key and stays free of duplicates |
| MFMatrix.MultiFieldMatrix.CreateCoarsening | src/fvm/src/modules/fvmbase/MultiFieldMatrix.cpp:267-288 | the coarse index field and the coarse sizes become the row-by-row result of each diagonal block's aggregation; blocks and other coarse data are kept |
| MFMultigrid.CoarsenRowsAt | src/fvm/src/modules/fvmbase/MultiFieldMatrix.cpp:276-286 | a row with a diagonal block gets the coarse size and coarse index its block computes; every other row keeps its contents and its recorded size |
| MFMatrix.MultiFieldMatrix.CoarsenAt | src/fvm/src/modules/fvmbase/MultiFieldMatrix.cpp:279-286 | one row of createCoarsening: the coarse size and coarse index of that row follow CoarsenRow, all other data are kept |
| MFMatrix.MultiFieldMatrix.SyncGhostCoarsening | src/fvm/src/modules/fvmbase/MultiFieldMatrix.cpp:292-362 | ghost sizes, coarse mappers and the coarse index field become the row-by-row result of SyncRow; other data are kept |
| MFMultigrid.SyncRowsAt | src/fvm/src/modules/fvmbase/MultiFieldMatrix.cpp:292-362 | each row ends with the coarse index and ghost size its own SyncRow computes; rows not listed are kept |
| MFGhostCoarsening.SyncGhostRow | src/fvm/src/modules/fvmbase/MultiFieldMatrix.cpp:296-361 | one row: the coarse index, coarseGhostSize and coarse mappers equal SyncRow over the site's mappers in order |
| MFMatrix.MultiFieldMatrix.SyncGhostAt | src/fvm/src/modules/fvmbase/MultiFieldMatrix.cpp:300-360 | one row of syncGhostCoarsening: the coarse index, ghost size and coarse mappers follow SyncFrom, all other data are kept |
| MFMultigrid.SyncFieldAt | src/fvm/src/modules/fvmbase/MultiFieldMatrix.cpp:300-360 | one row: the ghost size, mappers and coarse index field become SyncFrom of the old ones |
| MFMultigrid.SyncFieldRow | src/fvm/src/modules/fvmbase/MultiFieldMatrix.cpp:302-360 | one row over the coarse index field: only that row's array changes, to the coarse index SyncRow computes |
| MFGhostCoarsening.SyncRowCount | src/fvm/src/modules/fvmbase/MultiFieldMatrix.cpp:304-360 | coarseGhostSize is the total number of pairs over all neighbours' coarse mappers |
| MFGhostCoarsening.SyncRowBlocks | src/fvm/src/modules/fvmbase/MultiFieldMatrix.cpp:304-360 | the ids of neighbour jn lie in its own block after coarseSize and after the blocks of the neighbours before it, so no id is shared between neighbours |
| MFGhostCoarsening.NoMappersNoGhosts | src/fvm/src/modules/fvmbase/MultiFieldMatrix.cpp:304-360 | with no neighbours the ghost size is 0 and the coarse index is unchanged |
| MFGhostCoarsening.SyncRowFrame | src/fvm/src/modules/fvmbase/MultiFieldMatrix.cpp:311-359 | rows that are no neighbour's ghost rows keep their coarse index |
| MFGhostCoarsening.SyncRowVisited | src/fvm/src/modules/fvmbase/MultiFieldMatrix.cpp:311-359 | every ghost row of every neighbour ends with an id in [coarseSize, coarseSize + coarseGhostSize) |
| MFGhostCoarsening.SyncRow | src/fvm/src/modules/fvmbase/MultiFieldMatrix.cpp:311-359 | the mappers loop keeps the coarse index length and produces one coarse mapper per neighbour |
| MFGhostCoarsening.SyncMapper | src/fvm/src/modules/fvmbase/MultiFieldMatrix.cpp:313-358 | one neighbour: its pass and its coarse mapper |
| MFGhostCoarsening.GhostPassKeys | src/fvm/src/modules/fvmbase/MultiFieldMatrix.cpp:318-338 | the keys of otherToMyMapping are exactly the neighbour coarse ids found in the visited ghost rows |
| MFGhostCoarsening.GhostPassShared | src/fvm/src/modules/fvmbase/MultiFieldMatrix.cpp:318-338 | ghost rows holding the same neighbour coarse id get the same new id |
| MFGhostCoarsening.GhostPassInv | src/fvm/src/modules/fvmbase/MultiFieldMatrix.cpp:321-338 | one neighbour's pass keeps otherToMyMapping one-to-one, its keys sorted and its ids within the ones handed out after coarseSize, and never changes an existing entry |
| MFGhostCoarsening.GhostPassFrame | src/fvm/src/modules/fvmbase/MultiFieldMatrix.cpp:321-338 | rows a neighbour does not name keep their coarse index |
| MFGhostCoarsening.GhostPassVisited | src/fvm/src/modules/fvmbase/MultiFieldMatrix.cpp:321-338 | every ghost row the pass visits ends with an id below coarseSize + coarseGhostSize and at or above the ids already in use |
| MFGhostCoarsening.GhostPassOrder | src/fvm/src/modules/fvmbase/MultiFieldMatrix.cpp:321-338 | new ids increase in the order their neighbour coarse ids are first met |
| MFGhostCoarsening.SyncGhostRows | src/fvm/src/modules/fvmbase/MultiFieldMatrix.cpp:321-338 | the ghost-row loop of one neighbour equals MapperPass over its toIndices |
| MFGhostCoarsening.GhostPass | src/fvm/src/modules/fvmbase/MultiFieldMatrix.cpp:321-338 | the ghost-row loop of one neighbour keeps the coarse index length |
| MFGhostCoarsening.GhostRow | src/fvm/src/modules/fvmbase/MultiFieldMatrix.cpp:323-337 | one ghost row: reuse the id of its neighbour coarse id or hand out the next |
| MFMultigrid.StoreRow | src/fvm/src/modules/fvmbase/MultiFieldMatrix.cpp:283-285 | the in-place rewrite of one coarse index array by createCoarsening: that array takes the new contents and every other array of the field keeps its own |
| MFGhostCoarsening.FirstMetGetsNextId | src/fvm/src/modules/fvmbase/MultiFieldMatrix.cpp:330-336 | the row where a neighbour coarse id is met first gets an id above every id given so far |
| MFGhostCoarsening.PairsOfBijection | src/fvm/src/modules/fvmbase/MultiFieldMatrix.cpp:340-351 | a coarse mapper lists every key once in ascending order beside its new id; the ids are distinct and are the ones handed out |
| MFGhostCoarsening.MapperPairs | src/fvm/src/modules/fvmbase/MultiFieldMatrix.cpp:340-351 | the pairs loop produces the coarse mapper of the map in ascending key order |
| MFGhostCoarsening.InsertSortedSpec | src/fvm/src/modules/fvmbase/MultiFieldMatrix.cpp:345-351 | the keys of otherToMyMapping in ascending order: inserting a key keeps them sorted and adds it once |
| MFMultigrid.SyncRowsMapperAt | src/fvm/src/modules/fvmbase/MultiFieldMatrix.cpp:353-358 | each neighbour's coarse mapper is stored under (row, (field, neighbour site)) |
| MFMultigrid.StoreMappersOwn | src/fvm/src/modules/fvmbase/MultiFieldMatrix.cpp:353-358 | after storing a row's mappers, each neighbour's key holds its own mapper |
| MFMultigrid.StoreAll | src/fvm/src/modules/fvmbase/MultiFieldMatrix.cpp:353-358 | storing the coarse mappers one neighbour at a time equals StoreMappers |
| MFMultigrid.StoreMappersAt | src/fvm/src/modules/fvmbase/MultiFieldMatrix.cpp:353-358 | storing a row's mappers leaves the mappers of every other row as they were |
| MFMatrix.MultiFieldMatrix.CreateCoarseToFineMapping | src/fvm/src/modules/fvmbase/MultiFieldMatrix.cpp:364-400 | every row of the field gets the inverse of its coarse index; mappings of rows not in the field are kept |
| MFCoarseToFine.BuildCoarseToFine | src/fvm/src/modules/fvmbase/MultiFieldMatrix.cpp:379-397 | the result is the compressed-row inverse of coarseIndex over the fine rows |
| MFCoarseToFine.InverseMembership | src/fvm/src/modules/fvmbase/MultiFieldMatrix.cpp:379-397 | fine row nr is listed under coarse row c exactly when coarseIndex[nr] == c |
| MFCoarseToFine.InverseRowsAscending | src/fvm/src/modules/fvmbase/MultiFieldMatrix.cpp:379-397 | each coarse row lists its fine rows once each, ascending, as many as were counted |
| MFCoarseToFine.CountRows | src/fvm/src/modules/fvmbase/MultiFieldMatrix.cpp:383-391 | initCount and addCount produce, for each coarse row, the number of fine rows mapped to it |
| MFCoarseToFine.CountOfMonotone | src/fvm/src/modules/fvmbase/MultiFieldMatrix.cpp:387-389 | looking at more fine rows never lowers a coarse row's count |
| MFCoarseToFine.FinishCount | src/fvm/src/modules/fvmbase/MultiFieldMatrix.cpp:391 | the offsets start at 0 and each coarse row starts where the previous one ends |
| MFCoarseToFine.FineRowsMembership | src/fvm/src/modules/fvmbase/MultiFieldMatrix.cpp:393-397 | a coarse row c lists fine row nr exactly when nr is a fine row and coarseIndex[nr] == c |
| MFCoarseToFine.FineRowsAscending | src/fvm/src/modules/fvmbase/MultiFieldMatrix.cpp:393-397 | each list is strictly ascending and holds fine rows only |
| MFCoarseToFine.FillRows | src/fvm/src/modules/fvmbase/MultiFieldMatrix.cpp:393-397 | the add loop files every fine row under its coarse row, in ascending order |
| MFCoarseToFine.FileOne | src/fvm/src/modules/fvmbase/MultiFieldMatrix.cpp:394-395 | one add call files fine row nr under its coarse row and advances that row's cursor |
| MFMatrix.MultiFieldMatrix.CreateCoarseConnectivity | src/fvm/src/modules/fvmbase/MultiFieldMatrix.cpp:402-435 | the coarse connectivities gain exactly one entry per fine block among the field's rows |
| MFMultigrid.ConnectionsRowStep | src/fvm/src/modules/fvmbase/MultiFieldMatrix.cpp:409-434 | the coarse connectivities of one more row are added to those of the rows before it |
| MFMultigrid.ConnectRow | src/fvm/src/modules/fvmbase/MultiFieldMatrix.cpp:417-433 | the column loop stores one coarse connectivity per block of the row |
| MFMultigrid.CoarseKeys | src/fvm/src/modules/fvmbase/MultiFieldMatrix.cpp:417-464 | the coarse connectivity keys are exactly the fine block keys among the rows, and so are the coarse matrix keys: the coarse key set is within the fine one |
| MFMatrix.MultiFieldMatrix.CreateCoarseMatrices | src/fvm/src/modules/fvmbase/MultiFieldMatrix.cpp:437-466 | the coarse matrices gain exactly one entry per fine block among the field's rows, built over its coarse connectivity |
| MFMultigrid.BlocksRowStep | src/fvm/src/modules/fvmbase/MultiFieldMatrix.cpp:442-465 | the coarse matrices of one more row are added to those of the rows before it |
| MFMultigrid.CoarsenBlocksOfRow | src/fvm/src/modules/fvmbase/MultiFieldMatrix.cpp:448-464 | the column loop stores one coarse matrix per block of the row |
| MFMatrix.MultiFieldMatrix.InjectResidual | src/fvm/src/modules/fvmbase/MultiFieldMatrix.cpp:469-495 | the coarse right-hand side becomes the row-by-row injection of the fine residual over each site's own rows |
| MFMultigrid.InjectRowsAt | src/fvm/src/modules/fvmbase/MultiFieldMatrix.cpp:477-494 | each coarse array of a listed row is its fine residual injected into it; coarse arrays of no listed row are kept |
| MFMultigrid.InjectRows | src/fvm/src/modules/fvmbase/MultiFieldMatrix.cpp:477-494 | the injection pass keeps the set of coarse arrays |
| MFMatrix.MultiFieldMatrix.CorrectSolution | src/fvm/src/modules/fvmbase/MultiFieldMatrix.cpp:497-518 | the fine solution becomes the row-by-row correction from the coarse solution over each site's own rows |
| MFMultigrid.CorrectRowsAt | src/fvm/src/modules/fvmbase/MultiFieldMatrix.cpp:505-517 | each listed fine array is corrected from its own coarse array; fine arrays not listed are kept |
| MFMultigrid.CorrectRows | src/fvm/src/modules/fvmbase/MultiFieldMatrix.cpp:505-517 | the correction pass keeps the set of fine arrays |
| MFMatrix.MultiFieldMatrix.GetSize | src/fvm/src/modules/fvmbase/MultiFieldMatrix.cpp:521-535 | the sum over diagonal keys of the row site count (ghosts included); off-diagonal blocks add nothing |
| MFMatrix.DiagonalSizeWithout | src/fvm/src/modules/fvmbase/MultiFieldMatrix.cpp:521-535 | the size over the keys without e is the size less e's contribution |

## Left out

- Geometry is given as parameters:
  - the AABB intersection tests of `markIntersections` are the `intersected` set;
  - the k-d tree searches give the seed cell of each IB face and the nearest cell of each solid face;
  - face centroids and coordinates are not modelled.
- The boundary face groups of a mesh are flattened into one face list, in the order of the nested loops.
- `markIBTypePlus`, the interpolation weights, and the CRConnectivity objects built from the stencils are not modelled. Only the stencil cell sets, the throw, and the layer cap are. `GradientModelBase::clearGradientMatrix` is not modelled either.
- `update` runs its passes over every fluid mesh. `ClassifyCells` models one isolated mesh; in the source the meshes interact through the left-out `ibType` exchange (`syncLocal` at IBManager.cpp:54, with `nFound` summed over all meshes at lines 55-60), so there the number of fluid passes is not bounded by 2.
- IBMarking.MarkFluidUntilStable: the bound of one or two passes holds for one isolated mesh only; across meshes an exchanged `ibType` can make a further pass find new cells.
- The MPI reductions, the `syncLocal` halo exchange of `ibType`, and the console output are left out (`syncLocal` of `x` in the sweeps is the kernel `syncLocal`).
- Kernels.syncLocal: the ghost exchange of one row of `x` is given only that row's own array, not the other arrays of `x` (relaxed earlier in the same sweep) that the source's exchange may read.
- `createIBFaces` returns the face list and its count instead of setting them on the mesh.
- `addFluidNeighbors` returns the grown set instead of updating it through a reference. A `std::set` is a Dafny `set`, scanned in ascending order by the method.
- Every per-block and per-array numeric kernel is abstract, as described above, including the floating-point arithmetic. The sign of the residual is whatever the block kernel `multiplyAndAdd` computes: `computeResidual` seeds `r` with `b` and adds each block product onto it.
- Storage sites, fields and the coarse sites `_coarseSites` are given data. How `_coarseSites` is filled, and the `getMappers` of the coarse sites, belong to the callers.
- `MultiFieldMatrix.h`, where blocks are added, is not part of this model. `AddMatrix` stands in for it: it stores a block under (row, col) and keeps the key order.
- MultiFieldMatrix.GetMatrix: requires the block to exist. The source dereferences `find(...)->second` even for a missing key, so only callers that checked `hasMatrix` are modelled.
- MultiFieldMatrix.GetSize: does not model the overflow of the C++ `int` sum.
- The source reads map entries it never checks; for a missing entry this is undefined behaviour. These reads become preconditions:
  - `_coarseSizes` in `syncGhostCoarsening` (`Syncable`);
  - `_coarseSites`, the coarse index length and every coarse index below the coarse site count in `createCoarseToFineMapping` (`Mappable`; `addCount` would write out of range otherwise);
  - `_coarseToFineMappings` and `_coarseSites` in `createCoarseConnectivity` (`Prepared`);
  - `_coarseToFineMappings` and `_coarseConnectivities` in `createCoarseMatrices` (`MappedRows`);
  - the coarse arrays in `injectResidual` and `correctSolution` (`Transferable`).
- MultiFieldMatrix.CreateCoarsening: requires that a block's `createCoarsening` keeps the length of the coarse index array it writes. The kernel writes into that array in place.
- MFGhostCoarsening.GhostPassKeys: the first-encounter lemmas also need a neighbour's `toIndices` to be free of duplicates. For duplicates the code hands out ids as modelled, but those lemmas say nothing.
- MFMultigrid.SyncRowsMapperAt: assumes the neighbour sites of a row are distinct (`KeyedByNeighbour`), as the `std::map` of mappers keyed by site guarantees.
- MFMultigrid.InjectRowsAt: assumes the rows map to distinct coarse rows (`CoarseRowsApart`). A later row injecting into the same coarse array is covered only by the fold `InjectRows`.
- The arrays of the coarse index field are assumed to be distinct objects (`Separate`); aliasing between them is not modelled.
- The numeric `MultiField`s are values, so aliasing between `x`, `b` and `temp` (the same object passed twice) is not modelled.
- `copyPartial` is modelled as clipping to the length of the source array.
- The OpenMP pragmas are commented out in the source; every loop is sequential. The `dynamic_cast`s are type assertions that the types here make hold.
- KineticBoundaryConditions.h, SourceDiscretizationdissi.h and Kspace.h are not part of this model.
