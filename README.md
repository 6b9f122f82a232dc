# sycl-blas Level 1 and Level 2 core in Dafny

This project models the Level-1 and Level-2 BLAS interface of sycl-blas. The
routines follow the reference (Netlib) BLAS semantics, except where "## Findings"
says otherwise, and are written as
expression trees that a SYCL executor evaluates on a device:

- **Level-1, point-wise updates:** `_axpy`, `_copy`, `_scal`, `_swap` and `_rot`, plus
  the tiled copy `_copy_tiled` and its two scratch-staging helpers.
- **Level-1, reductions:** `_dot`, `_asum`, `_nrm2`, `_iamax` and `_iamin`, each in a
  result-buffer form and a host-scalar form.
- **Level-2:** `_gemv` (transpose-flag decoding, choice of kernel strategy from the
  compile-time variant `OPT`, partial-result matrices combined by `addSetColumns`)
  and the rank-one update `_ger`.

Elements are mathematical integers (`int`), which stand for the ring of scalars.
The point-wise launches (`_axpy`, `_copy`, `_scal`, `_swap`, `_rot`, the combine step
of `_gemv`, `_ger`) and the per-output kernels of `_gemv` compute each output element
independently of the others. The model replaces each of these launches by a
sequential loop over the output elements. The reduction launches of `_dot`, `_asum`,
`_nrm2`, `_iamax` and `_iamin` are different: their work-groups combine partial
results through `ex.reduce`. The model renders them by the two-phase engine of
`Reduction` (per-group partials, then a fold of the partials), not by a loop.

Vectors and matrices are buffers (`array<int>`) seen through views:

- **Vector view** `(off, inc, n)`: logical element `i` lives at `off + i*inc`.
  `Views.Gather` reads a view. `Views.Scatter` writes a sequence of values through a
  view, element 0 first.
- **Matrix view** `Mat(off, ld, rows, cols)`: column-major, so entry `(r, c)` lives at
  `off + r + c*ld`.

The methods that write through a vector view (`Axpy`, `Copy`, `Swap`, `Scal`,
`Rot`, the tiled copies and the final step of `Gemv`) state the new buffer as
`Scatter(old buffer, view, values)`: exactly the view positions receive the values
and every other position keeps its value. The other in-place methods state their
new state directly:
- the scratch copies, as slices of the buffers;
- the reductions, as the value of `rs[0]` with the rest of `rs` unchanged;
- `Ger`, as the reference xGER function of the old matrix buffer.

The values themselves are defined by reference functions (`Ops`, `GemvSpec`), and
the lemmas about those functions state what the routines promise.

Modules:

- **`Views`:** index arithmetic, `Gather`/`Scatter` and their algebra.
- **`Reduction`:** a generic two-phase reduction engine (partials over groups of `g`
  consecutive elements, then a fold of the partials), proved equal to the flat fold
  for any associative operator. It also holds the sum and the index-value reductions.
- **`Ops`:** the element-wise operations and the reference reductions.
- **`Blas1`:** the point-wise methods, the scratch copies and `_copy_tiled`.
- **`Blas1Reductions`:** the buffer forms and host-scalar forms of the reductions.
- **`GemvSpec`:** flag decoding, strategy dispatch, the xGEMV loops, reference
  xGEMV with its quick return, reference xGER and the
  partial-result matrices.
- **`Blas2`:** the imperative `_gemv` and `_ger`.

## Model

| member | source | states |
|---|---|---|
| Views.GatherScatter | include/interface/blas1_interface.hpp:113-114 | reading a view after writing values through it yields exactly those values |
| Views.ScatterGather | include/interface/blas1_interface.hpp:113-114 | writing back what a view holds leaves the buffer unchanged |
| Views.ScatterTwice | include/interface/blas1_interface.hpp:113-114 | a second write through the same view overrides the first completely |
| Views.ScatterFrame | include/interface/blas1_interface.hpp:113-114 | positions that are not on the view keep their value after a write through it |
| Blas1.Axpy | include/interface/blas1_interface.hpp:108-121 | y's view becomes old y(i) + alpha*x(i) for i < N; positions of y off the view are unchanged; x is only read |
| Blas1.AxpyZero | include/interface/blas1_interface.hpp:116-118 | with alpha = 0 the buffer of y is unchanged |
| Blas1.Copy | include/interface/blas1_interface.hpp:132-142 | y's view receives x's view element by element; positions of y off the view are unchanged |
| Blas1.CopyRoundTrip | include/interface/blas1_interface.hpp:132-142 | copying x into y and then y into z hands z exactly x's contents |
| Blas1.CopyIntoScratch | include/interface/blas1_interface.hpp:55-67 | tile[0..size) := source[base..base+size); the rest of the tile is unchanged |
| Blas1.CopyFromScratch | include/interface/blas1_interface.hpp:82-93 | dest[base..base+size) := tile[0..size); the rest of dest is unchanged |
| Blas1.TileStaging | include/interface/blas1_interface.hpp:199-203 | staging y into the tile when incy != 1 makes the tile assignment equal to a write over y's own slice, gap elements included; with incy = 1 the staging is unnecessary |
| Blas1.TileIteration | include/interface/blas1_interface.hpp:195-211 | one iteration of the tile loop extends the prefix copy of the first i elements to the first i + tile elements |
| Blas1.CopyTile | include/interface/blas1_interface.hpp:195-211 | the loop body (stage x, stage y when incy != 1, assign, drain) moves y from the copy of i elements to the copy of i + tile elements |
| Blas1.CopyTiledLoop | include/interface/blas1_interface.hpp:195-211 | the tile loop over views starting at positions xb and yb leaves y exactly as the plain copy between those views would |
| Blas1.CopyTiled | include/interface/blas1_interface.hpp:154-214 | as written: when N % tile != 0 the result is _copy over the containers' views; otherwise it is the copy between the raw buffers from position 0; so with zero offsets the result is _copy in both cases and y off the view is unchanged |
| Blas1.CopyTiledIgnoresOffset | include/interface/blas1_interface.hpp:169-173 | for x = [5, 7] seen from offset 1, the fallback copies 7 but the raw-buffer tiled path copies 5 |
| Blas1.CopyTiledAtOffsets | include/interface/blas1_interface.hpp:154-214 | with the tile loop addressed from the containers' offsets, the result is exactly _copy for every tile size, and y off the view is unchanged |
| Blas1.Swap | include/interface/blas1_interface.hpp:321-332 | x's view receives old y's view and y's view receives old x's view, both from the old values; positions off the views are unchanged |
| Blas1.SwapTwice | include/interface/blas1_interface.hpp:327-328 | swapping twice restores both buffers |
| Blas1.Scal | include/interface/blas1_interface.hpp:340-349 | x's view becomes alpha*x(i); positions off the view are unchanged |
| Blas1.ScalOne | include/interface/blas1_interface.hpp:344-346 | scaling by 1 leaves the buffer unchanged |
| Blas1.Rot | include/interface/blas1_interface.hpp:420-436 | x(i) := c*x(i) + s*y(i) and y(i) := -s*x(i) + c*y(i), both computed from the old values |
| Blas1.RotIdentity | include/interface/blas1_interface.hpp:426-433 | the rotation with c = 1, s = 0 leaves both buffers unchanged |
| Reduction.ReduceIsFold | include/interface/blas1_interface.hpp:235-239 | the two-phase reduction (fold each group of g elements, then fold the partials) equals the flat fold, for every associative operator and every group size g >= 2 |
| Reduction.ReduceSumIsSum | include/interface/blas1_interface.hpp:235-239 | the two-phase add-reduction of a vector is its sum |
| Reduction.ReduceIndexIsFirstExtremum | include/interface/blas1_interface.hpp:279-285 | the two-phase index-value reduction returns an index in range, its value, and the first position of the maximum (minimum) |
| Reduction.FirstExtremumUnique | include/interface/blas1_interface.hpp:268-287 | there is only one first position of the extremum, so the index result is determined |
| Reduction.PickAssociative | include/interface/blas1_interface.hpp:279-285 | combining index-value tuples (keep the better value, the smaller index on ties) is associative |
| Reduction.SumZeroIff | include/interface/blas1_interface.hpp:359-371 | a sum of non-negative terms is 0 iff every term is 0 |
| Ops.DotSymmetric | include/interface/blas1_interface.hpp:225-242 | the inner product does not depend on the order of its two vectors |
| Ops.SumOfSquaresIsSelfDot | include/interface/blas1_interface.hpp:357-371 | the sum of squares is the inner product of the vector with itself |
| Ops.AbsSumProperties | include/interface/blas1_interface.hpp:250-265 | the sum of absolute values is non-negative and is 0 iff the vector is all zero |
| Ops.SumOfSquaresProperties | include/interface/blas1_interface.hpp:357-371 | the sum of squares is non-negative and is 0 iff the vector is all zero |
| Blas1Reductions.DotValue | include/interface/blas1_interface.hpp:234-240 | the reduction of the element-wise products is the inner product |
| Blas1Reductions.AsumValue | include/interface/blas1_interface.hpp:258-263 | the absolute-sum reduction is the sum of absolute values, is >= 0, and is 0 iff x is all zero |
| Blas1Reductions.SquaresValue | include/interface/blas1_interface.hpp:365-370 | the squares reduction of nrm2 is the sum of squares, is >= 0, and is 0 iff x is all zero |
| Blas1Reductions.IndexReduction | include/interface/blas1_interface.hpp:279-285 | the index reduction of a non-empty vector returns an in-range index, its value, and the first extremal position |
| Blas1Reductions.Dot | include/interface/blas1_interface.hpp:225-242 | rs[0] := the inner product of the two views; the rest of rs is unchanged |
| Blas1Reductions.Asum | include/interface/blas1_interface.hpp:250-265 | rs[0] := the sum of absolute values of the view; the rest of rs is unchanged |
| Blas1Reductions.Iamax | include/interface/blas1_interface.hpp:272-287 | rs[0] := the tuple of the first maximal element (index < N and its value); the rest of rs is unchanged |
| Blas1Reductions.Iamin | include/interface/blas1_interface.hpp:294-310 | rs[0] := the tuple of the first minimal element; the rest of rs is unchanged |
| Blas1Reductions.Nrm2 | include/interface/blas1_interface.hpp:357-376 | rs[0] := root(sum of squares of the view), the root being a parameter |
| Blas1Reductions.DotHost | include/interface/blas1_interface.hpp:580-594 | the host scalar is the value the buffer form writes: the inner product |
| Blas1Reductions.IamaxHost | include/interface/blas1_interface.hpp:601-613 | the host index is the index of the first maximal element |
| Blas1Reductions.IaminHost | include/interface/blas1_interface.hpp:620-632 | the host index is the index of the first minimal element |
| Blas1Reductions.AsumHost | include/interface/blas1_interface.hpp:641-653 | the host scalar is the sum of absolute values |
| Blas1Reductions.Nrm2Host | include/interface/blas1_interface.hpp:662-674 | the host scalar is root(sum of squares) |
| Blas1Reductions.DotHostSymmetric | include/interface/blas1_interface.hpp:225-242 | dot(x, y) == dot(y, x) |
| Blas1Reductions.SquaresIsSelfDot | include/interface/blas1_interface.hpp:357-371 | the squares reduction of nrm2 equals dot(x, x) |
| Blas1Reductions.ReductionsIndependentOfWorkGroup | include/interface/blas1_interface.hpp:235-239 | dot, iamax and iamin give the same result for every work-group size |
| GemvSpec.DecodeTrans | include/interface/blas2_interface_sycl.hpp:51-54 | row access iff the first character is 'n' or 'N'; a message iff the first character is outside nNtTcC (and such a flag means transposed access) |
| GemvSpec.DecodeFirstCharOnly | include/interface/blas2_interface_sycl.hpp:51-54 | only the first character of the flag matters |
| GemvSpec.Dispatch | include/interface/blas2_interface_sycl.hpp:66-272 | a row strategy iff row access; the OPT == -1 branch only for OPT = 4294967295; the repeated column tests at 225 and 239 are unreachable; with column access and OPT outside {1,2,3} no branch runs |
| GemvSpec.PartialColumns | include/interface/blas2_interface_sycl.hpp:78-143 | the partial-result matrix has at least one column whenever M >= 1, and exactly one in the OPT == -1 branch |
| GemvSpec.GemvLoopsAreCombined | include/interface/blas2_interface_sycl.hpp:87-91 | the loops of reference xGEMV (column accumulation for 'n', dot products for 't'), run at every size, equal beta*y + alpha*(A x) for row access and beta*y + alpha*(A^T x) otherwise |
| GemvSpec.GemvLoopsMatchNetlib | include/interface/blas2_interface_sycl.hpp:87-91 | for M, N >= 1 the loops equal reference xGEMV with its quick return; for M = 0 or N = 0 the loops give beta*y while reference xGEMV leaves y unchanged |
| GemvSpec.GemvEmptyProductScales | include/interface/blas2_interface_sycl.hpp:87-91 | with N = 0, 'n', beta = 2 and y = [5], the combine step gives y = [10] where reference xGEMV gives y = [5] |
| GemvSpec.GemvAlphaZero | include/interface/blas2_interface_sycl.hpp:87-91 | with alpha = 0 the result is beta*y |
| GemvSpec.GemvBetaZero | test/unittest/blas2/blas2_gemv_test.cpp:99 | with beta = 0 the result does not depend on the old y |
| GemvSpec.PartialMatrixAt | include/interface/blas2_interface_sycl.hpp:131-135 | entry (i, k) of the partial-result matrix is row i of A times x over column block k |
| GemvSpec.ColumnSumPartials | include/interface/blas2_interface_sycl.hpp:139 | summing the first k columns of row i of the partial matrix gives row i times x over the first k blocks |
| GemvSpec.PartialsSumToMatVec | include/interface/blas2_interface_sycl.hpp:131-143 | when the w blocks cover all N columns, addSetColumns of the partial matrix is A x |
| GemvSpec.OneColumnIsMatVec | include/interface/blas2_interface_sycl.hpp:78-89 | a one-column partial matrix whose block covers all columns is A x itself |
| GemvSpec.RowStrategiesAgree | include/interface/blas2_interface_sycl.hpp:78-184 | the single-column strategy and the summed multi-column strategies give the same vector |
| GemvSpec.BlockSize | include/interface/blas2_interface_sycl.hpp:129-135 | w blocks of ceil(N/w) columns cover all N columns |
| GemvSpec.GerAt | include/interface/blas2_interface_sycl.hpp:298-302 | entry (i, j) of the view gains alpha*x(i)*y(j) |
| GemvSpec.GerPadding | include/interface/blas2_interface_sycl.hpp:288-289 | the padding rows M..lda-1 of every column are unchanged |
| GemvSpec.GerAlphaZero | include/interface/blas2_interface_sycl.hpp:298-302 | with alpha = 0 the matrix buffer is unchanged |
| GemvSpec.GerPrefixOff | include/interface/blas2_interface_sycl.hpp:298-302 | positions on none of the view's columns are unchanged |
| Blas2.RowBlockDot | include/interface/blas2_interface_sycl.hpp:134-135 | the kernel work of one row and one column block is the inner product of that slice of the row with that slice of x |
| Blas2.ColumnDot | include/interface/blas2_interface_sycl.hpp:192-193 | the kernel work for one output of the transposed product is column j of A times x |
| Blas2.FillPartials | include/interface/blas2_interface_sycl.hpp:131-135 | the scratch valT1 receives the partial-result matrix: column k holds every row's product over block k |
| Blas2.SumColumns | include/interface/blas2_interface_sycl.hpp:139 | addSetColumns: row i of the result is the sum of row i of the partial matrix |
| Blas2.RowDots | include/interface/blas2_interface_sycl.hpp:177-178 | the row-reduction operator of the default branch computes A x |
| Blas2.ColumnDots | include/interface/blas2_interface_sycl.hpp:186-212 | the column kernels compute A^T x |
| Blas2.CombineInto | include/interface/blas2_interface_sycl.hpp:85-90 | y's view becomes beta*y(i) + alpha*p(i); positions off the view are unchanged |
| Blas2.StrategyProduct | include/interface/blas2_interface_sycl.hpp:66-224 | every reachable strategy, with or without a fresh partial matrix, computes A x (row access) or A^T x (column access) |
| Blas2.Gemv | include/interface/blas2_interface_sycl.hpp:46-276 | y's view becomes beta*y + alpha*op(A)x (the xGEMV loops, with no quick return) for every reachable strategy, and y is unchanged when no branch runs; A and x are only read |
| Blas2.GemvQuickReturn | include/interface/blas2_interface_sycl.hpp:46-276 | with a quick return for M = 0 or N = 0 in front, y's view becomes reference xGEMV of the old y at every size |
| Blas2.GerUpdateColumn | include/interface/blas2_interface_sycl.hpp:298-302 | updating column j extends the update of the first j columns to the first j + 1 |
| Blas2.Ger | include/interface/blas2_interface_sycl.hpp:280-306 | A becomes reference xGER: each entry (i, j) of the view gains alpha*x(i)*y(j) and every other position keeps its value; x and y are only read |

## Left out

- `_rotg` (include/interface/blas1_interface.hpp:384-413): floating-point scalar work on the host (square root and division). It has no array logic.
- `_rotmg` (include/interface/blas1_interface.hpp:439-567): experimental code, built only with `BLAS_EXPERIMENTAL`, that depends on floating-point constants.
- Floating-point rounding: elements are unbounded integers, so the order in which a reduction adds its terms cannot change its value.
- Blas1Reductions.Nrm2: the final square root is a parameter `root: int -> int`. Only the sum-of-squares phase is defined by the model.
- SYCL machinery is not modelled: queues, `submit`, accessors and access modes, `cgh.copy`, events, returned handles, the on-chip-memory property and asynchrony between submissions. Launch geometry (`localSize`, grid sizes) is not modelled either, except that the work-group size is kept as a parameter of the reductions.
- The bodies of `make_op`, `ex.execute`, `ex.reduce`, the `make_*Reduction` operators, the `make_GemvR_*` and `make_GemvC_*` kernels, `make_redRowMatVct` and `make_addSetColumns` are not part of this model. Their call sites fix only what they compute, not how they partition the work, so the partitions below are the model's own choices:
  - Reductions: the call sites pass `localSize` and `localSize * nWG`, where `nWG = 2*localSize` is a number of work-groups. The model folds contiguous groups of `2*localSize` elements and then folds the partial results. `Reduction.ReduceIsFold` proves the result is the same for every group length >= 2, so this choice does not show in any result.
  - Row kernels: the model cuts the N columns into as many contiguous blocks of `ceil(N/w)` columns as the partial matrix has columns. That is `nWG_col` for OPT 1 and 3 and for the -1 branch. For OPT 2 it is `nWG_col*localSize = min(M, 256)` (include/interface/blas2_interface_sycl.hpp:103-105). `GemvSpec.PartialsSumToMatVec` proves the sum is A x for every such block partition.
- The message printed for an invalid transpose flag is a boolean `warning` in `TransFlag`. The warning printed by the `_copy_tiled` fallback is not modelled.
- `VERBOSE` printing and the `BLAS_EXPERIMENTAL` double executions are not modelled.
- Blas1Reductions.Iamax, Blas1Reductions.Iamin, Blas1Reductions.IamaxHost and Blas1Reductions.IaminHost require N >= 1. The value written for an empty vector comes from the reduction operator's identity element, which is not part of this model.
- Blas1Reductions.Iamax and Blas1Reductions.Iamin compare the elements' values. The tuple operator is not part of this model, so whether it compares absolute values, as reference IxAMAX does, is not visible.
- Blas2.Gemv takes the view lengths from reference BLAS: x has N elements and y has M for 'n', and the other way round otherwise. The test checks against those lengths (test/unittest/blas2/blas2_gemv_test.cpp:46-47). The views at include/interface/blas2_interface_sycl.hpp:59-60 are built with N and M whichever flag is given, and the kernels are not visible to tell which length they walk.
- Blas1.CopyTiled: the tiled path addresses the raw buffers from position 0, as at include/interface/blas1_interface.hpp:172-173. It therefore matches `_copy` only for containers with offset 0 (see Findings). It needs N*incx and N*incy elements there, because the scratch copies move whole tiles of `tile*inc` elements.
- Aliasing of input and output buffers is excluded by preconditions (`x != y`, `a != y`). In-place behaviour with overlapping views is not modelled.
- Blas2.Gemv models the scratch matrix `valT1` as a freshly allocated array. Its ensures do not mention `valT1`, because it is discarded.
- The strategies at include/interface/blas2_interface_sycl.hpp:201-224 (shared-memory column kernels) are modelled by the same column dot products as the one at 186-200. How they share memory between work-items is not modelled.

## Findings

| source | as written | input that shows it | evidently intended | confidence | as-written member | corrected member |
|---|---|---|---|---|---|---|
| include/interface/blas2_interface_sycl.hpp:87-91 | `_gemv` has no quick return: the final `beta*y + alpha*mat1` assignment (likewise at 113-116, 138-141 and in the column branches) runs even when M = 0 or N = 0, so y becomes beta*y | N = 0, 'n', M = 1, beta = 2, y = [5]: `_gemv` gives y = [10], reference xGEMV returns at once with y = [5] | y unchanged when M = 0 or N = 0, as in reference xGEMV | low, not executed (reference BLAS's behaviour at empty sizes may not have been a goal) | Blas2.Gemv, GemvSpec.GemvEmptyProductScales | Blas2.GemvQuickReturn |
| include/interface/blas1_interface.hpp:169-173 | the fallback copies through the containers' views, but the tiled path takes the raw buffers and addresses them from position 0, ignoring a container's offset | N = 1, tile = 1, incx = incy = 1, x = [5, 7] as a container with offset 1, y = [0, 0] with offset 0: the fallback's view gives y = [7, 0], the tiled path gives y = [5, 0] | the tiled path copies the same view as `_copy`, starting each tile at the container's offset | medium, not executed (the offset handling of the buffer iterator's `get_buffer` is inferred from its use here) | Blas1.CopyTiled, Blas1.CopyTiledIgnoresOffset | Blas1.CopyTiledAtOffsets |
