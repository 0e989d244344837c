# go-qi in Dafny

go-qi places `num_go` stones on an `R x C` grid. It asks a mixed-integer
solver for the smallest set of marked cells that surrounds them. Each cell
has two binary variables: `x` (stone) and `y` (marked). The objective
minimises the number of marked cells. Four constraint families apply:

- exclusivity: `x + y <= 1` on every cell;
- neighbour closure: every neighbour of a stone is a stone or marked;
- no stone on the boundary ring;
- exactly `num_go` stones.

The solver's answer is decoded into two coordinate lists. The renderer turns
each cell into a closed unit square and sorts the marked squares with a
comparator before numbering them.

This project models the logic around the solver, which is exact integer
logic:

- `topology.dfy` (module `Topology`) models the grid helpers of
  `model/go_qi.py`: the row-major cell list, `_generate_neighbors`, the
  neighbour map and the boundary.
- `go_qi.dfy` (module `GoQiModel`) models the `GoQi` class. It is a Dafny
  class whose methods fill the same fields the Python object fills. The LP
  problem `self.m` is two fields: `objective` (the cells whose marked
  variable is summed) and `constraints` (a `Constraint` datatype, one
  constructor per family). Beside the class stand the four families as
  predicates (`Feasible`), the decoding function `Decode` and the lemmas
  about what a feasible assignment decodes to.
- `drawer.dfy` (module `Drawer`) models the integer part of
  `output_handler/drawer.py`: `compare`, the unit-square comprehensions, and
  `sorted(..., key=cmp_to_key(compare))`.

The solver is an oracle. Its answer enters as two valuations
`x, y : Cell -> int`. `Binary` states that they are 0/1 on the cells, as the
variables' binary category promises. On integers the decoding test
`value > 0.9` is exactly `value >= 1`, and `Decode` uses that test.

Two consequences of the code are worth stating:

- `num_go = 1` on a 3x3 grid is feasible: a stone on the centre with its
  four neighbours marked meets all four families. `SingleStoneFeasible` and
  `SingleStoneObjective` prove this for every cell off the boundary of any
  grid, with objective 4.
- `compare` returns `max_row1 - max_row2` when the maximum columns agree, so
  squares with equal columns come in ascending row order (`CompareByRow`),
  after larger columns first (`CompareByColumn`).

## Model

| member | source | states |
|---|---|---|
| Topology.GenerateNeighbors | model/go_qi.py:72-82 | at most four neighbours, each differing from the cell by one in exactly one coordinate |
| Topology.NeighborsAreInBoundsCandidates | model/go_qi.py:72-82 | for an in-bounds cell the list is the in-bounds subsequence of up, down, left, right, in that order |
| Topology.NeighborsInBounds | model/go_qi.py:72-82 | every neighbour of an in-bounds cell is in bounds and axis-adjacent |
| Topology.NeighborsExactlyOnce | model/go_qi.py:72-82 | every in-bounds axis-adjacent cell occurs exactly once; no other cell occurs |
| Topology.NeighborsComplete | model/go_qi.py:72-82 | a cell is a neighbour iff it is in bounds and axis-adjacent |
| Topology.NeighborsSymmetric | model/go_qi.py:72-82 | on the grid, b is a neighbour of a iff a is a neighbour of b |
| Topology.CornerHasTwoNeighbors | model/go_qi.py:72-82 | a corner of a grid with R, C >= 2 has exactly two neighbours |
| Topology.InteriorHasFourNeighbors | model/go_qi.py:72-82 | an in-bounds cell off the boundary has all four candidates, in order |
| Topology.NeighborsOnFourByFour | model/go_qi.py:72-82 | on a 4x4 grid, (0,0) gets [(1,0),(0,1)] and (1,1) gets [(0,1),(2,1),(1,0),(1,2)] |
| Topology.Cells | model/go_qi.py:17-18 | the comprehension over `range(R)` then `range(C)`; specified by `CellsLength`, `CellsAt`, `CellsMember`, `CellsRowMajor` and `CellsCountOnce` |
| Topology.CellsLength | model/go_qi.py:17-18 | `cells` has R*C elements |
| Topology.CellsAt | model/go_qi.py:17-18 | cell (i, j) is at index i*C + j (row-major, i outer, j inner) |
| Topology.CellsMember | model/go_qi.py:17-18 | `cells` contains exactly the pairs with 0 <= i < R and 0 <= j < C |
| Topology.CellsRowMajor | model/go_qi.py:17-18 | `cells` is strictly increasing in row-major order |
| Topology.RowMajorCountsOnce | model/go_qi.py:17-18 | a strictly row-major list holds each cell at most once |
| Topology.CellsCountOnce | model/go_qi.py:17-18 | every in-bounds pair occurs exactly once in `cells` (no duplicates) |
| Topology.NeighborMap | model/go_qi.py:19-20 | the dict comprehension over `cells`; specified by `NeighborMapKeys` |
| Topology.NeighborMapKeys | model/go_qi.py:19-20 | the neighbour map is keyed by exactly the in-bounds cells, each mapped to its `_generate_neighbors` list |
| Topology.Boundary | model/go_qi.py:21-25 | the filter of `cells` by the four edge tests; specified by `BoundaryMember` and `BoundaryRowMajor` |
| Topology.BoundaryMember | model/go_qi.py:21-25 | `boundary` holds exactly the grid cells with i in {0, R-1} or j in {0, C-1} |
| Topology.BoundaryRowMajor | model/go_qi.py:21-25 | `boundary` keeps the row-major order of `cells` |
| Topology.OffBoundaryHasFourNeighbors | model/go_qi.py:72-82 | every cell of `cells` not in `boundary` has exactly four neighbours |
| GoQiModel.Decode | model/go_qi.py:61-69 | the decoded list holds exactly the cells whose value passes the threshold, and is no longer than the input |
| GoQiModel.Sum | model/go_qi.py:46 | `lpSum` of a valuation over a cell list; specified by `SumOfBinaryIsCount` and `SumOfStoneAt` |
| GoQiModel.ObjectiveValue | model/go_qi.py:34 | `lpSum` of the marked variables over the objective's cells; specified by `ObjectiveIsMarkedCount` and `SingleStoneObjective` |
| GoQiModel.Exclusive | model/go_qi.py:38-39 | `x + y <= 1` on every cell; tied to the constraint list by `AssignFamilyHolds` |
| GoQiModel.CellCovered | model/go_qi.py:41-43 | every neighbour `n` of `c` has `x[n] + y[n] >= x[c]`; tied to the constraint list by `CoverFamilyHolds` |
| GoQiModel.NeighborClosed | model/go_qi.py:40-43 | every cell is covered; tied to the constraint list by `CoverFamilyHolds` |
| GoQiModel.BoundaryFree | model/go_qi.py:44-45 | `x == 0` on every boundary cell; tied to the constraint list by `BoundaryFamilyHolds` |
| GoQiModel.StoneCount | model/go_qi.py:46 | `lpSum` of `x` over `cells` equals `num_go`; specified by `DecodedStoneCount` |
| GoQiModel.Feasible | model/go_qi.py:37-47 | the four families together; `FamiliesMeanFeasible` shows it is exactly what the constraint list demands |
| GoQiModel.Families | model/go_qi.py:37-47 | the constraints `_set_constraints` adds, in order; `SetConstraints` appends exactly these and `FamiliesMeanFeasible` gives their meaning |
| GoQiModel.GoQi.constructor | model/go_qi.py:10-14 | records grid and num_go and starts with an empty problem |
| GoQiModel.GoQi.SetIterables | model/go_qi.py:16-26 | fills `cells`, `neighbors` and `boundary` with the topology functions |
| GoQiModel.GoQi.SetObjective | model/go_qi.py:33-35 | the objective sums the marked variables over `cells` |
| GoQiModel.GoQi.SetConstraints | model/go_qi.py:37-47 | appends exactly the four families, in the source's order, to the problem |
| GoQiModel.GoQi.AddAssignConstraints | model/go_qi.py:38-39 | appends one exclusivity constraint per cell, in cell order |
| GoQiModel.GoQi.AddCoverConstraints | model/go_qi.py:40-43 | appends one closure constraint per (cell, neighbour), in cell then neighbour order |
| GoQiModel.GoQi.AddCoverPairs | model/go_qi.py:41-43 | the inner loop appends one closure constraint per neighbour of the cell, in the neighbour list's order |
| GoQiModel.CoverFamilyStep | model/go_qi.py:40-43 | one round of the outer loop turns the constraints of `cells[..k]` into those of `cells[..k + 1]` |
| GoQiModel.GoQi.AddBoundaryConstraints | model/go_qi.py:44-45 | appends one no-stone constraint per boundary cell |
| GoQiModel.GoQi.ProcessInfeasibleCase | model/go_qi.py:58-59 | the infeasible path returns two empty lists |
| GoQiModel.GoQi.PostProcess | model/go_qi.py:61-69 | the loop returns the decoded stone list and the decoded marked list of `cells` |
| GoQiModel.AssignFamilyHolds | model/go_qi.py:38-39 | the exclusivity constraints hold iff x + y <= 1 on every listed cell |
| GoQiModel.CoverFamilyHolds | model/go_qi.py:40-43 | the closure constraints hold iff every listed cell is covered by its neighbours |
| GoQiModel.BoundaryFamilyHolds | model/go_qi.py:44-45 | the boundary constraints hold iff x == 0 on every listed cell |
| GoQiModel.FamiliesMeanFeasible | model/go_qi.py:37-47 | an assignment meets every constraint `_set_constraints` adds iff it meets the four families |
| GoQiModel.SumOfBinaryIsCount | model/go_qi.py:46 | on 0/1 values, `lpSum` over the cells equals the number of cells that decode |
| GoQiModel.DecodeRowMajor | model/go_qi.py:64-68 | decoding a row-major list gives a row-major list |
| GoQiModel.DecodedFollowCells | model/go_qi.py:61-69 | both decoded lists follow the order of `cells` (strictly row-major) |
| GoQiModel.DecodedDisjoint | model/go_qi.py:39 | under exclusivity no cell is both a stone and marked |
| GoQiModel.DecodedStoneCount | model/go_qi.py:46 | binary values and the count constraint give exactly num_go stones |
| GoQiModel.DecodedStonesOffBoundary | model/go_qi.py:44-45 | under the boundary constraint every stone is in bounds and off the ring |
| GoQiModel.DecodedStonesCovered | model/go_qi.py:40-43 | under closure every neighbour of a stone is a stone or marked |
| GoQiModel.DecodedHaloFromEitherSide | model/go_qi.py:40-43 | under closure every grid cell next to a stone is a stone or marked |
| GoQiModel.ObjectiveIsMarkedCount | model/go_qi.py:33-35 | on binary marked values the objective equals the length of the marked list |
| GoQiModel.FeasibleSolutionDecodes | model/go_qi.py:61-69 | a feasible binary assignment decodes to disjoint, ordered lists with num_go stones off the boundary, covered stones, and objective = marked count |
| GoQiModel.SingleStoneFeasible | model/go_qi.py:37-47 | a lone stone on any cell off the boundary, with its neighbours marked, meets all four families and decodes to that stone |
| GoQiModel.SingleStoneObjective | model/go_qi.py:33-35 | that assignment marks exactly the four neighbours: objective 4 |
| GoQiModel.FeasibleWithinCapacity | model/go_qi.py:44-46 | a feasible binary assignment has 0 <= num_go <= (R-2)(C-2) (0 when R or C < 2) |
| Drawer.MaxCoord | output_handler/drawer.py:78-79 | the result is the largest coordinate of the block and is attained by a vertex |
| Drawer.Compare | output_handler/drawer.py:77-84 | `compare`; specified by `CompareSelf`, `CompareAntisymmetric`, `CompareByColumn`, `CompareByRow`, `CompareMatchesKey` and `CompareTransitive` |
| Drawer.CompareSelf | output_handler/drawer.py:77-84 | compare(a, a) == 0 |
| Drawer.CompareAntisymmetric | output_handler/drawer.py:77-84 | compare(a, b) == -compare(b, a) |
| Drawer.CompareByColumn | output_handler/drawer.py:78-81 | a larger maximum column gives a negative result (sorts first) |
| Drawer.CompareByRow | output_handler/drawer.py:82-84 | on equal maximum columns the sign is that of maxrow(a) - maxrow(b) (ascending rows) |
| Drawer.CompareMatchesKey | output_handler/drawer.py:77-84 | the sign of compare is the lexicographic order of (-max column, max row) |
| Drawer.CompareTransitive | output_handler/drawer.py:77-84 | compare is transitive, strictly when one step is strict |
| Drawer.UnitSquare | output_handler/drawer.py:19-22 | the five-vertex closed square of a cell; specified by `UnitSquareShape` and `CompareUnitSquares` |
| Drawer.UnitSquareShape | output_handler/drawer.py:19-22 | the square of (i, j) has five vertices, is closed, has max row i+1 and max column j+1, and gives back (i, j) |
| Drawer.CompareUnitSquares | output_handler/drawer.py:77-84 | on unit squares compare < 0 iff the cells are in (-j, i) order, and == 0 iff the cells are equal |
| Drawer.Squares | output_handler/drawer.py:19-22 | the square comprehension over a cell list, one square per cell in order; specified by `SquaresKeysDistinct` and `SortedSquaresDisplayOrder` |
| Drawer.GridNodes | output_handler/drawer.py:17-18 | the squares of every grid cell; specified by `GridNodesRowMajor` |
| Drawer.GridNodesRowMajor | output_handler/drawer.py:17-18 | `grid_nodes` has R*C squares, the square of (i, j) at index i*C + j |
| Drawer.Insert | output_handler/drawer.py:23 | insertion adds exactly the one block to the multiset |
| Drawer.InsertSorted | output_handler/drawer.py:23 | inserting into a sorted list keeps it sorted under compare |
| Drawer.SortBlocks | output_handler/drawer.py:23 | the sort result is a permutation of its input, non-decreasing under compare |
| Drawer.SortedPermutationUnique | output_handler/drawer.py:23 | when distinct members never compare equal, there is only one sorted permutation |
| Drawer.SquaresKeysDistinct | output_handler/drawer.py:21-22 | distinct unit squares never compare equal |
| Drawer.SortedSquaresDisplayOrder | output_handler/drawer.py:21-23 | every sorted permutation of the marked squares is the modelled one; its squares come from the marked cells, ordered by descending j then ascending i |
| Drawer.DrawSolutionBlocks | output_handler/drawer.py:17-23 | the three block lists `draw_solution` draws; specified by `DrawSolutionBlocksSpec` |
| Drawer.DrawSolutionBlocksSpec | output_handler/drawer.py:17-23 | grid_nodes has R*C squares, blocks1 is one square per stone in order, and blocks2 is the sorted permutation of the marked squares |

## Left out

- The solver call `_optimize` (CBC with a 600-second limit and a 1% gap) is not modelled. Its answer is an arbitrary pair of valuations, so optimality of the marked count is not modelled.
- `_set_variables` and the PuLP problem and variable objects are not modelled. Variables become the valuation parameters, and their binary category becomes the `Binary` predicate.
- The `0.9` decoding threshold absorbs floating-point slack. The model's valuations are integers, where the test is `>= 1`. Fractional or missing (`None`) values are not modelled.
- Constraint names such as `assign-{i}-{j}` are debugging labels and are not modelled.
- `_is_feasible` (always true) and the `solve()` driver of `model/abstract_model.py` are not part of this model. `PostProcess` and `ProcessInfeasibleCase` stand as separate operations.
- `_draw_blocks`, `_draw_block_numbers`, the axis settings and `plt.savefig` are plotting and file output. `main.py` is the driver loop, and its grid-size heuristic uses floating-point `sqrt` and `ceil`. None of these is modelled.
- Grid dimensions are natural numbers. A negative dimension is not modelled; Python would treat it as an empty range.
- `cells`, `neighbors` and `boundary` start as empty values in the constructor. Python creates these three attributes only when `_set_iterables` runs. The empty `objective` and `constraints` stand for the empty problem that `pulp.LpProblem` builds in `__init__`. That problem has no objective and no constraints until `_set_objective` and `_set_constraints` add them.
- `GoQiModel.GoQi.SetConstraints` runs its three loops as helper methods: one per loop, plus `AddCoverPairs` for the inner loop over a cell's neighbours. It then adds the count constraint. The constraints are the same and in the same order.
- `Drawer.Compare` takes non-empty blocks. Python's `max` raises on an empty block, and `draw_solution` never builds one.
- `Drawer.SortBlocks`: Python's `sorted` (Timsort) is modelled by a stable insertion sort. For the unit squares `draw_solution` builds, `SortedSquaresDisplayOrder` shows that every sorted permutation equals this one. For arbitrary blocks whose keys tie, stability is not proved.
