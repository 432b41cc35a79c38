# Sweeping jet solver, Hermite patches and shadow cut surface

A Dafny model of three pieces of the `jmm` repository, with proofs about them.

- **The sweeping jet solver's bookkeeping** (`main.c`). This covers the padded node grid and its linear indexing (`sjs_lindex`, `sjs_vindex`) and the tables of neighbour and cell-corner offsets. It also covers the indexed binary min-heap that orders nodes by their value (`left`/`right`/`parent`, `heap_*`). Finally, it covers the node states FAR, TRIAL, VALID and BOUNDARY, and how `sjs_init`, `sjs_step` and `sjs_valid_cell` use them. The value guard that `sjs_tri` and `sjs_line` share is also modelled.
  - Modules `CInt` (C's truncating `/` and `%`), `Grid`, `Heap` (class `MinHeap`) and `Sjs` (class `Solver`).
- **Cubic and bicubic Hermite patches** (`hermite.c`). This covers evaluating a cubic and its derivative, and building the coefficients of a bicubic from its corner data (`bicubic_set_A`). It also covers restricting a bicubic to one edge of its cell (`bicubic_restrict`).
  - Module `Hermite` (class `Bicubic`).
- **The shadow cut surface** (`examples/viz_shadow_cutset_and_boundary.py`). Each tetrahedron with both a VALID and a SHADOW vertex is cut where the shadow boundary crosses its edges. The pieces are concatenated into one vertex buffer `V` and one triangle list `F`.
  - Module `ShadowCut`.
  - The solver's output (`points`, `eik.state` and the cut set) is a read-only `Snapshot` parameter.
  - Python's exceptions (`assert`, `KeyError`, `ValueError` when unpacking, `StopIteration`) become the constructors of `Error` in a `Result`.

What is proved, in short:
- **Heap:** `Insert` and `Pop` keep the back-map `positions[inds[p]] == p` and the heap order, and change the multiset of ids exactly as promised. `Swim` and `Sink` restore the order from a single defect. `Set` and `Swap` are the raw slot writes. The front id of an ordered heap has the smallest value. `Insert`, `Pop`, `Swim` and `Sink` leave the recorded slot of every other id outside the heap unchanged.
- **Solver:** a step makes its front node VALID and each FAR neighbour TRIAL. A node's state only moves forward (FAR, then TRIAL, then VALID).
- **Grid:** `sjs_lindex` is a bijection from the padded grid onto `[0, (m+2)(n+2))`.
- **Hermite:** the coefficients reproduce the Hermite data, and the restriction is the bicubic traced along the chosen edge.
- **Shadow cut:** the accumulated face list only ever indexes vertices in the buffer, and the result equals a left fold over the straddling cells.

## Model

| member | source | states |
|---|---|---|
| CInt.Div | main.c:162-164 | C's `/` for a positive divisor: truncation toward zero, bounds for either sign of the dividend |
| CInt.Rem | main.c:240-244 | C's `%`: `a == b*Div(a,b) + r`, with `r` taking the sign of `a` |
| Grid.LIndex | main.c:236-238 | `sjs_lindex`, the row-major index with i varying fastest; what it promises is stated by the lemmas below |
| Grid.VIndex | main.c:240-244 | `sjs_vindex` as written: i from the quotient, j from the remainder; for `l >= 0` it returns the node whose coordinates, swapped, have index `l` |
| Grid.LIndexInRange | main.c:236-238 | every node of the padded grid (`-1..m` by `-1..n`) gets an index in `[0, (m+2)(n+2))`, the node count of `sjs_init` (line 310) |
| Grid.LIndexInjective | main.c:236-238 | distinct nodes of the padded grid get distinct indices |
| Grid.VIndexSwapsCoordinates | main.c:240-244 | as written, `sjs_vindex(sjs_lindex(i, j))` returns `(j, i)` for every node |
| Grid.VIndexCounterexample | main.c:236-244 | on a 1×1 grid, node (0, 1) has index 7, and index 7 decodes to (1, 0) |
| Grid.VIndexInverse | main.c:240-244 | the corrected decoding (i from the remainder, j from the quotient) maps every index `l >= 0` to a node whose `sjs_lindex` is `l` |
| Grid.VIndexInverseRoundTrip | main.c:236-244 | the corrected decoding undoes `sjs_lindex` on the whole padded grid |
| Grid.VIndexInverseInPadded | main.c:236-244 | every index below `(m+2)(n+2)` decodes to a node of the padded grid whose `sjs_lindex` is that index, so `sjs_lindex` is onto `[0, (m+2)(n+2))` (the node count of main.c:310) as well as injective |
| Grid.OffsetAsWrittenShifts | main.c:258-262 | adding an offset table entry built by `sjs_lindex` moves a node by the coordinate offset plus (1, 1) |
| Grid.FirstNeighbourIsSelf | main.c:246-262 | as written, `nb_ind_offsets[0]` is 0, so the first "neighbour" is the node itself |
| Grid.OffsetMoves | main.c:258-262 | the corrected offset `(m+2)*dj + di` moves a node by exactly `(di, dj)` |
| Grid.NbIndOffsets | main.c:246-262 | the corrected `nb_ind_offsets`: one entry per coordinate offset, each its `Offset` |
| Grid.CellVertIndOffsets | main.c:281-292 | the corrected `cell_vert_ind_offsets`: one entry per cell corner, each its `Offset` |
| Grid.CellCorners | main.c:281-292 | the four corrected corner offsets reach nodes (i, j), (i+1, j), (i, j+1) and (i+1, j+1) |
| Grid.NeighboursInRange | main.c:642-646 | from any node of the unpadded grid, the eight neighbours the step visits are nodes of the padded grid |
| Grid.CellCornersInRange | main.c:518-525 | the corners of every cell `-1..m-1` by `-1..n-1` are nodes |
| Heap.Left | main.c:154-156 | `left`: `2*pos + 1`, related to `parent` by the lemmas below |
| Heap.Right | main.c:158-160 | `right`: `2*pos + 2`, related to `parent` by the lemmas below |
| Heap.Parent | main.c:162-164 | `parent`: `(pos - 1)/2` with C's truncating division |
| Heap.ParentOfChildren | main.c:154-164 | `parent(left(p)) == parent(right(p)) == p`, and `right(p) == left(p) + 1` |
| Heap.ParentBefore | main.c:154-164 | every slot but the root has its parent before it, and is its parent's left or right child |
| Heap.ParentOfRoot | main.c:162-164 | with C division, `parent(0) == 0` |
| Heap.RootIsMinimum | main.c:204-206 | in heap order the key at slot 0 is at most every key in the heap |
| Heap.AppendLeaf | main.c:195-201 | a new last key breaks heap order at most above its slot |
| Heap.SwimStep | main.c:188-192 | one swap of `heap_swim` moves the order defect from `pos` up to its parent |
| Heap.SwimDone | main.c:188-193 | when the loop stops (at the root, or with a parent no larger), the heap is ordered |
| Heap.SinkStep | main.c:211-226 | one pass of `heap_sink` with the smaller child moves the order defect down to that child, whether or not it swaps |
| Heap.SinkSwap | main.c:220-222 | the swapping pass of `heap_sink` keeps every other parent no larger than its children |
| Heap.SinkDone | main.c:208-227 | when `pos` has no child left, the heap is ordered |
| Heap.SameOutsideTrans | main.c:229-234 | frame helper for `heap_pop` (and `heap_insert`): two steps that each keep the recorded slots of ids outside their own set keep those of ids outside the larger set |
| Heap.RemoveFront | main.c:229-234 | moving the last id to the root and dropping the old root removes exactly that id, and heap order is broken at most below the root |
| Heap.MinHeap.DistinctIds | main.c:170-182 | the back-map makes the ids in the heap pairwise distinct |
| Heap.MinHeap.Init | main.c:143-147 | `heap_init`: the given capacity, size 0, an empty and ordered heap |
| Heap.MinHeap.Grow | main.c:149-152 | `heap_grow`: capacity doubled, ids in the heap kept |
| Heap.MinHeap.Set | main.c:170-173 | `heap_set`: slot `pos` holds `ind`, `positions[ind] == pos`, and nothing else changes |
| Heap.MinHeap.Swap | main.c:175-182 | `heap_swap`: the two slots exchanged, the back-map kept, and only the two ids' recorded slots change |
| Heap.MinHeap.Swim | main.c:184-193 | `heap_swim`: from an order defect at `pos`, the heap ends ordered with the same multiset of ids, and every id outside the heap keeps its recorded slot |
| Heap.MinHeap.Insert | main.c:195-202 | `heap_insert`: the size grows by one, the capacity doubles when full, the multiset gains `ind`, the heap stays ordered, and every other id outside the heap keeps its recorded slot; the buffer is the same one unless it grew, and a new one when it did |
| Heap.MinHeap.Front | main.c:204-206 | `heap_front`: slot 0, whose key is at most every key in the heap |
| Heap.MinHeap.SmallerChild | main.c:209-219 | the child `heap_sink` compares against: the right one exactly when it exists and its key is strictly smaller, otherwise the left; its key is at most that of every child of `pos` |
| Heap.MinHeap.SinkOnce | main.c:211-226 | one pass of the `heap_sink` loop: picks the child with the smaller key (the left one on a tie), swaps it with `pos` exactly when the key at `pos` is larger and otherwise leaves `inds` unchanged, and moves the order defect to it, and every id outside the heap keeps its recorded slot |
| Heap.MinHeap.SwapIfLarger | main.c:220-222 | the guarded swap of `heap_sink`: `pos` and `ch` are exchanged exactly when the key at `pos` is larger, with the same ids, and every id outside the heap keeps its recorded slot |
| Heap.MinHeap.Sink | main.c:208-227 | `heap_sink`: from an order defect below `pos`, the heap ends ordered with the same multiset of ids, and every id outside the heap keeps its recorded slot |
| Heap.MinHeap.DropFront | main.c:229-231 | the first half of `heap_pop`: the size shrinks by one and the last id takes the root's slot, and every id outside the heap keeps its recorded slot |
| Heap.MinHeap.FrontRemoval | main.c:229-234 | dropping the front of an ordered heap leaves the other ids without the front one, ordered except below the new root |
| Heap.MinHeap.SinkRoot | main.c:230-233 | the second half of `heap_pop`: the new root sinks unless the heap is empty, and the heap ends ordered with the same ids, and every id outside the heap keeps its recorded slot |
| Heap.MinHeap.Pop | main.c:229-234 | `heap_pop`: the size shrinks by one, exactly the front id leaves, the heap stays ordered, and every id outside the heap keeps its recorded slot |
| Sjs.Sgn | main.c:408-416 | `sgn`: 1 exactly for positive `x`, -1 exactly for negative `x`, 0 otherwise |
| Sjs.AdvancesTransitive | main.c:637-647 | states only move forward: FAR, then TRIAL, then VALID; chaining steps keeps this |
| Sjs.AdvancesIsMonotone | main.c:637-647 | a VALID node stays VALID, and no node returns to FAR |
| Sjs.Solver.Init | main.c:307-329 | `sjs_init`: node arrays of `(m+2)(n+2)` entries and every node FAR, the arrays and the heap newly allocated; the offset tables are the corrected ones (see Findings) |
| Sjs.Solver.Relax | main.c:486-499 | the guard `T < J->f`: the value changes exactly when the candidate is smaller, it never grows, and no other node changes |
| Sjs.Solver.Line | main.c:502-516 | `sjs_line`: the candidate is the neighbour's value plus the segment cost, under the same guard |
| Sjs.Solver.ValidCell | main.c:518-525 | `sjs_valid_cell`: true exactly when all four corners of the cell are VALID |
| Sjs.Solver.WakeNeighbours | main.c:642-647 | the neighbour loop of `sjs_step`: each FAR neighbour becomes TRIAL, and every other node keeps its state |
| Sjs.Solver.Step | main.c:637-647 | `sjs_step`'s state transitions: the front node (a minimum of the heap) leaves the heap and becomes VALID, its FAR neighbours under the corrected offset table become TRIAL, and every state only moves forward; the heap keeps its buffer and capacity, and every id outside the heap keeps its recorded slot |
| Hermite.CubicF | hermite.c:3-6 | `cubic_f`: Horner's rule equals the power form `a0 + a1 λ + a2 λ² + a3 λ³` |
| Hermite.CubicDf | hermite.c:8-11 | `cubic_df`: the derivative `a1 + 2 a2 λ + 3 a3 λ²` |
| Hermite.CubicTaylor | hermite.c:3-11 | `cubic_df` is the derivative of `cubic_f`: the change over a step h is h·df plus terms in h² and h³ |
| Hermite.HermiteConditions | hermite.c:13-18 | the rows of V, whose inverse is `V_inv`, are the value at 0 and 1 and the derivative at 0 and 1 |
| Hermite.VInvIsInverse | hermite.c:13-18 | `V_inv` is the inverse of V on both sides |
| Hermite.HermiteCubic | hermite.c:13-18 | `V_inv`·(f0, f1, d0, d1) is the cubic with those values and derivatives at 0 and 1 |
| Hermite.Restriction | hermite.c:41-70 | the cubic `bicubic_restrict` builds: column 0 or the row sums for LAMBDA, row 0 or the column sums for MU, by edge; its meaning is the next lemma |
| Hermite.RestrictionIsEdgeTrace | hermite.c:41-70 | the restriction is the bicubic traced along the edge: μ = 0 or 1 for LAMBDA, λ = 0 or 1 for MU |
| Hermite.SetAAsWritten | hermite.c:20-39 | `bicubic_set_A` as written: the first stage `V_inv·data`, then the second stage summing `tmp[i][k]*V_inv[i][k]`; its consequences are the two lemmas below |
| Hermite.AsWrittenRowsConstant | hermite.c:31-38 | as written, the second stage of `bicubic_set_A` ignores `j`, so every row of `A` is constant |
| Hermite.SetAAsWrittenCounterexample | hermite.c:20-39 | with only the μ-slope at the first corner set to 1, the as-written coefficients reproduce slope 0; the intended ones reproduce 1 |
| Hermite.MatMulAssociative | hermite.c:20-39 | the two stages compose: 4×4 products associate |
| Hermite.HermiteInterpolates | hermite.c:20-39 | the coefficients `V_inv`·D·`V_inv`ᵀ reproduce the data: V·A·Vᵀ == D |
| Hermite.Bicubic.Init | main.c:35-37 | the `bicubic` struct: a fresh 4×4 coefficient array |
| Hermite.Bicubic.FirstStage | hermite.c:22-29 | the first stage of `bicubic_set_A`: `tmp = V_inv·data`, entry by entry |
| Hermite.Bicubic.SetA | hermite.c:20-39 | `bicubic_set_A`, with the second stage corrected: `A` ends holding `V_inv·data·V_invᵀ` |
| Hermite.Bicubic.Restrict | hermite.c:41-70 | `bicubic_restrict`: column 0, the row sums, row 0 or the column sums by variable and edge; the result is the bicubic traced along that edge |
| ShadowCut.Lerp | examples/viz_shadow_cutset_and_boundary.py:69-72 | the point `(1 - t)*x0 + t*x1` is `x0` at t = 0 and `x1` at t = 1 |
| ShadowCut.LerpReverse | examples/viz_shadow_cutset_and_boundary.py:69-72 | walking the segment backwards with `1 - t` reaches the same point |
| ShadowCut.MakeEdge | examples/viz_shadow_cutset_and_boundary.py:56-58 | `make_edge`: fails exactly when both ends are equal; otherwise an increasing pair with the same two ends |
| ShadowCut.MakeEdgeSymmetric | examples/viz_shadow_cutset_and_boundary.py:56-58 | both directions of an edge give the same result |
| ShadowCut.CutCoef | examples/viz_shadow_cutset_and_boundary.py:61-66 | `get_cut_coef`: fails for equal ends or an edge missing from the cut set; otherwise the stored t read from `l0`'s side, `1 - t` from the larger end |
| ShadowCut.CutCoefReverse | examples/viz_shadow_cutset_and_boundary.py:61-66 | the coefficients read from the two ends of an edge sum to 1 |
| ShadowCut.CutPoint | examples/viz_shadow_cutset_and_boundary.py:69-72 | `get_cut_point`: fails exactly when the coefficient does; otherwise the point at the stored t on the canonical edge |
| ShadowCut.CutPointReverse | examples/viz_shadow_cutset_and_boundary.py:69-72 | the cut point does not depend on the direction asked |
| ShadowCut.CutPointFrom | examples/viz_shadow_cutset_and_boundary.py:61-72 | the cut point read from `l0` is at `l0`'s coefficient on the segment from `l0` |
| ShadowCut.Select | examples/viz_shadow_cutset_and_boundary.py:78-79 | the list comprehension `[l for l in c if ...]`: no longer than `c`; which vertices it keeps, how often and in what order are the lemmas below |
| ShadowCut.SelectMembers | examples/viz_shadow_cutset_and_boundary.py:78-79 | a vertex is selected exactly when it is a vertex of `c` in the given state |
| ShadowCut.SelectCounts | examples/viz_shadow_cutset_and_boundary.py:78-79 | a vertex in the given state is kept as many times as it occurs in `c`; every other vertex is dropped |
| ShadowCut.SelectAppend | examples/viz_shadow_cutset_and_boundary.py:78-79 | selecting from `a + b` gives the selection from `a` followed by the selection from `b`, so the kept vertices stay in the order of `c` |
| ShadowCut.SelectSingle | examples/viz_shadow_cutset_and_boundary.py:78-79 | a single vertex is kept exactly when it is in the given state; with `SelectAppend` this fixes the whole result |
| ShadowCut.SelectDisjoint | examples/viz_shadow_cutset_and_boundary.py:76-79 | vertices in two different states are counted apart |
| ShadowCut.Centroid | examples/viz_shadow_cutset_and_boundary.py:124 | `sum(v)/4`: the componentwise mean of the four cut points, appended as the fifth vertex of the fan |
| ShadowCut.OneShadowPiece | examples/viz_shadow_cutset_and_boundary.py:77-99 | one SHADOW vertex: an empty piece or one triangle, never the final `assert False` |
| ShadowCut.TwoShadowPiece | examples/viz_shadow_cutset_and_boundary.py:100-129 | two SHADOW vertices: an empty piece, one triangle, or five vertices with the four-triangle fan |
| ShadowCut.ThreeShadowPiece | examples/viz_shadow_cutset_and_boundary.py:130-152 | three SHADOW vertices: an empty piece or one triangle |
| ShadowCut.VertsAndFaces | examples/viz_shadow_cutset_and_boundary.py:75-154 | `get_verts_and_faces`: every face indexes the piece's own vertices counted from `f_offset`; a piece has 0, 3 or 5 vertices with 0, 1 or 4 faces; `assert False` is reached exactly when the SHADOW count is not 1, 2 or 3 |
| ShadowCut.OneShadow | examples/viz_shadow_cutset_and_boundary.py:81-99 | exactly two zero coefficients fail the assertion, three give nothing, otherwise the triangle of the cut points from `l0` in the order `l1, l2, l3` |
| ShadowCut.TwoShadow | examples/viz_shadow_cutset_and_boundary.py:103-129 | four ones give nothing; `t02 == t12 == 1` (tested first) or `t03 == t13 == 1` gives the triangle through that VALID vertex; otherwise the four cut points, their centroid, and four triangles meeting at it |
| ShadowCut.ThreeShadow | examples/viz_shadow_cutset_and_boundary.py:134-152 | exactly two coefficients equal to 1 fail the assertion, three give nothing, otherwise the triangle of the cut points towards `l3` |
| ShadowCut.HalfCutTriangle | examples/viz_shadow_cutset_and_boundary.py:75-99 | a tetrahedron whose one SHADOW vertex has every edge cut halfway gives the triangle of the three edge midpoints |
| ShadowCut.StraddlingShadowCount | examples/viz_shadow_cutset_and_boundary.py:197-200 | a cell selected into `Lc` has one to three SHADOW vertices, so it never reaches `assert False` |
| ShadowCut.BoundaryCells | examples/viz_shadow_cutset_and_boundary.py:197-200 | `Lc`: exactly the cells with a VALID and a SHADOW vertex, in increasing order |
| ShadowCut.Surface | examples/viz_shadow_cutset_and_boundary.py:204-210 | the left fold the loop computes: each cell's piece numbered from the vertices gathered so far, or the first error; the loop is proved equal to it |
| ShadowCut.SurfaceExtends | examples/viz_shadow_cutset_and_boundary.py:205-210 | one more cell extends the surface by its piece, numbered from `len(V)`, or fails with the piece's error |
| ShadowCut.Appended | examples/viz_shadow_cutset_and_boundary.py:208-210 | appending a piece numbered from `len(V)` keeps every face index inside `V` |
| ShadowCut.SurfaceFacesInRange | examples/viz_shadow_cutset_and_boundary.py:204-210 | every face of the accumulated surface indexes a vertex of `V` |
| ShadowCut.SurfaceErrPersists | examples/viz_shadow_cutset_and_boundary.py:204-210 | once a piece raises, the whole loop ends with that error |
| ShadowCut.Pick | examples/viz_shadow_cutset_and_boundary.py:205 | `cells[Lc]`: one cell per index, in the order of `Lc` |
| ShadowCut.Accumulate | examples/viz_shadow_cutset_and_boundary.py:204-210 | the loop: its result is the surface of the cells in order, and every face indexes `V` |
| ShadowCut.ExtractSurface | examples/viz_shadow_cutset_and_boundary.py:197-210 | select `Lc` and then run the loop: the surface of the straddling cells, in order, with every face indexing `V` |

## Left out

- The rest of the Python script's `__main__` block is not modelled: mesh loading, the solver calls and the `if V:` plotting branch with its PyVista scene. The solver's output is the `Snapshot` parameter. Its `Lc` filter and `V`/`F` loop are modelled by `ShadowCut.ExtractSurface` and `ShadowCut.Accumulate`.
- The `verbose` printing in `get_verts_and_faces` and in the driver loop is not modelled. It only prints, and the driver sets `verbose = False` (examples/viz_shadow_cutset_and_boundary.py:202), so it never runs.
- `ShadowCut.Snapshot` reduces each cut-set entry to its coefficient `t`. The other fields of a cut-set entry are never read by the modelled functions.
- `ShadowCut.VertsAndFaces` requires every vertex id of the cell to index `points` and `state`. In Python an out-of-range id raises `IndexError`, which is not modelled as an error.
- `ShadowCut.HalfCutTriangle` keeps the points symbolic. A literal instance (the unit tetrahedron) is not stated.
- `ShadowCut.Lerp` and `ShadowCut.Centroid` use exact real arithmetic, so floating-point rounding is not modelled. The `== 0` and `== 1` tests on coefficients are exact comparisons, as in the source.
- Throughout `main.c` and `hermite.c`, `dbl` is modelled as `real`, without IEEE rounding, NaN or infinities.
- Integer overflow of C `int` is not modelled.
- The root finder of `sjs_tri`, `F` and `dF_dlam`, the formula of `sjs_line`, and `sjs_est_fxy`, `sjs_update_adj_cells`, `sjs_add_fac_pt_src`, `sjs_xy`, `f`, `df`, `main` and `sjs_update` are not part of this model. `Sjs.Solver.Relax` takes the root finder's value as its candidate `T`.
- `Sjs.Solver.Line` takes the segment cost `h*(s + s0)/2` as a parameter, because the slowness function `s` is a call into code not modelled.
- The jets' derivative fields `fx`, `fy` and `fxy` are not modelled. Only `f` is kept.
- The second loop of `sjs_step` (main.c:649-655) is not modelled, because it updates and re-sorts TRIAL neighbours through `sjs_update` and `sjs_adjust`.
- `Sjs.Solver.Init` initialises the heap with a capacity parameter of at least 1. `sjs_init` itself never calls `heap_init`, so the source's heap starts with whatever the caller left in it.
- `Heap.MinHeap.Init` takes `positions` and `jets` as the heap's link to the solver. In the source that link is the pointer `heap->sjs`, which `heap_init` (main.c:143-147) and `sjs_init` (main.c:307-329) never assign. So `value` (main.c:166-168) and `heap_set` (main.c:170-173) dereference an unset pointer as written.
- `Heap.MinHeap.Init` requires a capacity of at least 1. `heap_init(0)` would build a heap whose `heap_grow` doubles 0 to 0 and never grows.
- `Heap.MinHeap.Grow` reallocates `2*capacity` ints. The source's `realloc(heap->inds, heap->capacity)` passes a count of bytes rather than a count of ints, which leaves the buffer too small; the model uses the intended size.
- `Heap.MinHeap.Insert` requires `ind` not to be in the heap already. `heap_insert` does not check this. Its only caller, `sjs_add_fac_pt_src` (main.c:347-348), is called once, from `main` (main.c:686), and inserts only the source node, so the call meets the requirement.
- `Heap.MinHeap.Pop` requires a non-empty heap. On an empty heap `heap_pop` would set `size` to -1.
- `Heap.MinHeap.DropFront` swaps slots 0 and `size - 1` before decrementing `size`, where the source decrements first and then swaps slots 0 and the new `size`. These are the same two slots, so the resulting state is the same.
- `Sjs.Solver.Step` requires the heap to be ordered and non-empty. In the source only `sjs_add_fac_pt_src` (main.c:347-348, not modelled) inserts into the heap, and only the source node. `sjs_step` never inserts the neighbours it makes TRIAL, so the step describes whatever heap that code and the caller filled.
- `Sjs.Solver` uses the corrected offset tables `Grid.NbIndOffsets` and `Grid.CellVertIndOffsets`, not the source's tables built with `sjs_lindex` (see Findings). So the nodes `Step` and `WakeNeighbours` visit and the corners `ValidCell` reads are the true neighbours and corners. In the source, `sjs_step` walks `nb_ind_offsets[0..7]`, the eight-neighbour ring shifted by (+1, +1). For node (i, j) that is the 3×3 block around (i+1, j+1) without its centre, and it contains (i, j) itself. `sjs_valid_cell` likewise reads the corners shifted by (+1, +1).
- `eik.is_shadow(l)` and `eik.is_valid(l)` are modelled as `state[l] == Shadow` and `state[l] == Valid` on the snapshot's states; the solver object itself is not modelled.
- `Hermite.Bicubic.FirstStage` and `Hermite.Bicubic.SetA` accumulate each entry in a local and store it once. The source adds into the array entry directly. Since nothing else reads the entry meanwhile, the stored values are the same.
- `Hermite.Bicubic.Restrict` returns the cubic as a value `Vec4`, as C returns the `cubic` struct by value.
- `Hermite.Bicubic.SetA` implements the evidently intended second stage (see Findings). The as-written stage is `Hermite.SetAAsWritten`.

## Findings

| source | as written | input that shows it | evidently intended | confidence | as-written member | corrected member |
|---|---|---|---|---|---|---|
| main.c:240-244 | `sjs_vindex` sets `i = l/mpad - 1` and `j = l%mpad - 1`, but `sjs_lindex` stores j in the quotient and i in the remainder | m = 1, node (0, 1): `sjs_lindex` gives 7, and `sjs_vindex(7)` gives (1, 0) | `i = l%mpad - 1`, `j = l/mpad - 1`, the inverse of `sjs_lindex` | not executed | Grid.VIndexCounterexample | Grid.VIndexInverseRoundTrip |
| main.c:258-262 | the offset tables are built with `sjs_lindex(offset)`, which adds the padding shift `(m+2) + 1` to every entry | any node: `nb_ind_offsets[0]` for offset (-1, -1) is 0, the node itself, and every entry lands one step right and up of the intended node | the offset `(m+2)*dj + di` without the padding shift | not executed | Grid.FirstNeighbourIsSelf | Grid.OffsetMoves |
| hermite.c:31-38 | the second stage sums `tmp[i][k]*V_inv[i][k]`, so it ignores `j` | data whose only non-zero entry is the μ-slope 1 at the first corner: the coefficients reproduce slope 0 there | `tmp[i][k]*V_inv[j][k]`, giving `A = V_inv·data·V_invᵀ` | not executed | Hermite.SetAAsWrittenCounterexample | Hermite.HermiteInterpolates |
