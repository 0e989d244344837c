/** Grid topology of the go-qi model: the row-major cell list, the
    4-neighbourhood of a cell (clipped at the edges) and the boundary ring. */
module Topology {

  /** A grid coordinate: `row` is the first tuple component `i`, `col` the second `j`. */
  datatype Cell = Cell(row: int, col: int)

  /** Grid dimensions `(R, C)`. */
  datatype Grid = Grid(rows: nat, cols: nat)

  predicate InBounds(c: Cell, g: Grid) {
    0 <= c.row < g.rows && 0 <= c.col < g.cols
  }

  /** The two cells differ by exactly one in exactly one coordinate. */
  predicate Adjacent(a: Cell, b: Cell) {
    || (a.row == b.row && (a.col - b.col == 1 || b.col - a.col == 1))
    || (a.col == b.col && (a.row - b.row == 1 || b.row - a.row == 1))
  }

  /** A cell on the outer ring of the grid. */
  predicate IsBoundary(c: Cell, g: Grid) {
    c.row == 0 || c.row == g.rows - 1 || c.col == 0 || c.col == g.cols - 1
  }

  /** Strict row-major order: row first, then column. */
  predicate RowMajorBefore(a: Cell, b: Cell) {
    a.row < b.row || (a.row == b.row && a.col < b.col)
  }

  predicate StrictlyRowMajor(s: seq<Cell>) {
    forall p, q :: 0 <= p < q < |s| ==> RowMajorBefore(s[p], s[q])
  }

  // ---------------------------------------------------------------------
  // Neighbours
  // ---------------------------------------------------------------------

  /** A one-element list when `b` holds, the empty list otherwise. */
  function Opt(b: bool, x: Cell): seq<Cell> {
    if b then [x] else []
  }

  /** `_generate_neighbors`: up, down, left, right, each appended only when
      the cell is not on the corresponding edge. */
  function GenerateNeighbors(c: Cell, g: Grid): (r: seq<Cell>)
    ensures |r| <= 4
    ensures forall k :: 0 <= k < |r| ==> Adjacent(c, r[k])
  {
    Opt(c.row != 0, Cell(c.row - 1, c.col))
    + Opt(c.row != g.rows - 1, Cell(c.row + 1, c.col))
    + Opt(c.col != 0, Cell(c.row, c.col - 1))
    + Opt(c.col != g.cols - 1, Cell(c.row, c.col + 1))
  }

  /** The four axis-adjacent candidates in the order up, down, left, right. */
  function Candidates(c: Cell): seq<Cell> {
    [Cell(c.row - 1, c.col), Cell(c.row + 1, c.col), Cell(c.row, c.col - 1), Cell(c.row, c.col + 1)]
  }

  /** Reference definition: the in-bounds cells of `s`, in their order. */
  function KeepInBounds(s: seq<Cell>, g: Grid): (r: seq<Cell>)
    ensures |r| <= |s|
    ensures forall k :: 0 <= k < |r| ==> InBounds(r[k], g)
  {
    if s == [] then []
    else (if InBounds(s[0], g) then [s[0]] else []) + KeepInBounds(s[1..], g)
  }

  /** For an in-bounds cell the edge tests of `_generate_neighbors` select
      exactly the in-bounds candidates, in up/down/left/right order. */
  lemma NeighborsAreInBoundsCandidates(c: Cell, g: Grid)
    requires InBounds(c, g)
    ensures GenerateNeighbors(c, g) == KeepInBounds(Candidates(c), g)
  {
    var cs := Candidates(c);
    assert cs[1..][1..][1..][1..] == [];
    assert KeepInBounds(cs[1..][1..][1..], g)
      == if InBounds(cs[3], g) then [cs[3]] else [];
    assert KeepInBounds(cs[1..][1..], g)
      == (if InBounds(cs[2], g) then [cs[2]] else []) + KeepInBounds(cs[1..][1..][1..], g);
    assert KeepInBounds(cs[1..], g)
      == (if InBounds(cs[1], g) then [cs[1]] else []) + KeepInBounds(cs[1..][1..], g);
  }

  /** Every neighbour of an in-bounds cell is in bounds. */
  lemma NeighborsInBounds(c: Cell, g: Grid)
    requires InBounds(c, g)
    ensures forall n :: n in GenerateNeighbors(c, g) ==> InBounds(n, g) && Adjacent(c, n)
  {
    NeighborsAreInBoundsCandidates(c, g);
  }

  lemma OptCount(b: bool, x: Cell, n: Cell)
    ensures multiset(Opt(b, x))[n] == if b && n == x then 1 else 0
  {
  }

  /** The cells adjacent to `c` are exactly its four candidates. */
  lemma AdjacentIsCandidate(c: Cell, n: Cell)
    ensures Adjacent(c, n) <==>
      || n == Cell(c.row - 1, c.col) || n == Cell(c.row + 1, c.col)
      || n == Cell(c.row, c.col - 1) || n == Cell(c.row, c.col + 1)
  {
  }

  /** Completeness and uniqueness: every in-bounds axis-adjacent cell occurs
      exactly once, and nothing else occurs. */
  lemma NeighborsExactlyOnce(c: Cell, g: Grid, n: Cell)
    requires InBounds(c, g)
    ensures multiset(GenerateNeighbors(c, g))[n] == if InBounds(n, g) && Adjacent(c, n) then 1 else 0
  {
    var u, d, l, r := Cell(c.row - 1, c.col), Cell(c.row + 1, c.col), Cell(c.row, c.col - 1), Cell(c.row, c.col + 1);
    OptCount(c.row != 0, u, n);
    OptCount(c.row != g.rows - 1, d, n);
    OptCount(c.col != 0, l, n);
    OptCount(c.col != g.cols - 1, r, n);
    AdjacentIsCandidate(c, n);
    assert (c.row != 0 <==> InBounds(u, g)) && (c.row != g.rows - 1 <==> InBounds(d, g))
        && (c.col != 0 <==> InBounds(l, g)) && (c.col != g.cols - 1 <==> InBounds(r, g));
  }

  /** Membership form of completeness. */
  lemma NeighborsComplete(c: Cell, g: Grid, n: Cell)
    requires InBounds(c, g)
    ensures n in GenerateNeighbors(c, g) <==> InBounds(n, g) && Adjacent(c, n)
  {
    NeighborsExactlyOnce(c, g, n);
    assert n in GenerateNeighbors(c, g) <==> multiset(GenerateNeighbors(c, g))[n] > 0;
  }

  /** Adjacency as computed by `_generate_neighbors` is symmetric on the grid. */
  lemma NeighborsSymmetric(a: Cell, b: Cell, g: Grid)
    requires InBounds(a, g) && InBounds(b, g)
    ensures b in GenerateNeighbors(a, g) <==> a in GenerateNeighbors(b, g)
  {
    NeighborsComplete(a, g, b);
    NeighborsComplete(b, g, a);
  }

  /** A corner of a grid with at least two rows and two columns has exactly
      two neighbours. */
  lemma CornerHasTwoNeighbors(c: Cell, g: Grid)
    requires g.rows >= 2 && g.cols >= 2
    requires c.row == 0 || c.row == g.rows - 1
    requires c.col == 0 || c.col == g.cols - 1
    ensures |GenerateNeighbors(c, g)| == 2
  {
  }

  /** A cell that is in bounds and off the boundary has all four neighbours. */
  lemma InteriorHasFourNeighbors(c: Cell, g: Grid)
    requires InBounds(c, g) && !IsBoundary(c, g)
    ensures GenerateNeighbors(c, g) == Candidates(c)
    ensures |GenerateNeighbors(c, g)| == 4
  {
  }

  /** The two worked examples on a 4x4 grid: a corner and an interior cell. */
  lemma NeighborsOnFourByFour()
    ensures GenerateNeighbors(Cell(0, 0), Grid(4, 4)) == [Cell(1, 0), Cell(0, 1)]
    ensures GenerateNeighbors(Cell(1, 1), Grid(4, 4)) == [Cell(0, 1), Cell(2, 1), Cell(1, 0), Cell(1, 2)]
  {
  }

  // ---------------------------------------------------------------------
  // Cells
  // ---------------------------------------------------------------------

  /** Row `i` of the grid: `(i, 0), …, (i, cols - 1)`. */
  function Row(i: int, cols: nat): seq<Cell> {
    seq(cols, j => Cell(i, j))
  }

  /** `cells`: `[(i, j) for i in range(R) for j in range(C)]`. */
  function Cells(g: Grid): seq<Cell>
    decreases g.rows
  {
    if g.rows == 0 then [] else Cells(Grid(g.rows - 1, g.cols)) + Row(g.rows - 1, g.cols)
  }

  lemma {:induction false} CellsLength(g: Grid)
    ensures |Cells(g)| == g.rows * g.cols
    decreases g.rows
  {
    if g.rows > 0 {
      CellsLength(Grid(g.rows - 1, g.cols));
      assert g.rows * g.cols == (g.rows - 1) * g.cols + g.cols;
    }
  }

  /** Cell `(i, j)` sits at index `i * C + j`: the list is row-major. */
  lemma {:induction false} CellsAt(g: Grid, i: int, j: int)
    requires 0 <= i < g.rows && 0 <= j < g.cols
    ensures |Cells(g)| == g.rows * g.cols
    ensures 0 <= i * g.cols + j < |Cells(g)| && Cells(g)[i * g.cols + j] == Cell(i, j)
    decreases g.rows
  {
    var pre := Grid(g.rows - 1, g.cols);
    CellsLength(g);
    CellsLength(pre);
    if i < g.rows - 1 {
      CellsAt(pre, i, j);
    } else {
      assert i * g.cols == (g.rows - 1) * g.cols;
      assert Row(g.rows - 1, g.cols)[j] == Cell(i, j);
    }
  }

  /** The cells are exactly the in-bounds pairs. */
  lemma {:induction false} CellsMember(g: Grid, c: Cell)
    ensures c in Cells(g) <==> InBounds(c, g)
    decreases g.rows
  {
    if g.rows > 0 {
      var pre := Grid(g.rows - 1, g.cols);
      CellsMember(pre, c);
      if c.row == g.rows - 1 && 0 <= c.col < g.cols {
        assert Row(g.rows - 1, g.cols)[c.col] == c;
      }
    }
  }

  /** The cells are listed strictly in row-major order; in particular no cell
      is listed twice. */
  lemma {:induction false} CellsRowMajor(g: Grid)
    ensures StrictlyRowMajor(Cells(g))
    decreases g.rows
  {
    if g.rows > 0 {
      var pre := Grid(g.rows - 1, g.cols);
      CellsRowMajor(pre);
      var s, row := Cells(pre), Row(g.rows - 1, g.cols);
      forall p | 0 <= p < |s|
        ensures s[p].row < g.rows - 1
      {
        CellsMember(pre, s[p]);
      }
      assert Cells(g) == s + row;
    }
  }

  /** In a strictly row-major list every cell occurs at most once. */
  lemma {:induction false} RowMajorCountsOnce(s: seq<Cell>, c: Cell)
    requires StrictlyRowMajor(s)
    ensures multiset(s)[c] == if c in s then 1 else 0
  {
    if s != [] {
      var pre, last := s[..|s| - 1], s[|s| - 1];
      assert s == pre + [last];
      assert StrictlyRowMajor(pre);
      RowMajorCountsOnce(pre, c);
      forall p | 0 <= p < |pre|
        ensures pre[p] != last
      {
        assert RowMajorBefore(s[p], s[|s| - 1]);
      }
    }
  }

  /** Every in-bounds pair occurs exactly once in `cells`, nothing else occurs. */
  lemma CellsCountOnce(g: Grid, c: Cell)
    ensures multiset(Cells(g))[c] == if InBounds(c, g) then 1 else 0
  {
    CellsRowMajor(g);
    RowMajorCountsOnce(Cells(g), c);
    CellsMember(g, c);
  }

  // ---------------------------------------------------------------------
  // Neighbour map and boundary
  // ---------------------------------------------------------------------

  /** `neighbors`: every cell mapped to its neighbour list. */
  function NeighborMap(g: Grid): map<Cell, seq<Cell>> {
    map c | c in Cells(g) :: GenerateNeighbors(c, g)
  }

  /** The neighbour map is keyed by exactly the in-bounds cells, and maps
      each of them to its `_generate_neighbors` list. */
  lemma NeighborMapKeys(g: Grid, c: Cell)
    ensures c in NeighborMap(g) <==> InBounds(c, g)
    ensures c in NeighborMap(g) ==> NeighborMap(g)[c] == GenerateNeighbors(c, g)
  {
    CellsMember(g, c);
  }

  /** The cells of `s` that lie on the boundary, in their order. */
  function KeepBoundary(s: seq<Cell>, g: Grid): seq<Cell> {
    if s == [] then []
    else (if IsBoundary(s[0], g) then [s[0]] else []) + KeepBoundary(s[1..], g)
  }

  /** `boundary`: the cells with `i` in `{0, R-1}` or `j` in `{0, C-1}`. */
  function Boundary(g: Grid): seq<Cell> {
    KeepBoundary(Cells(g), g)
  }

  lemma {:induction false} KeepBoundaryMember(s: seq<Cell>, g: Grid, c: Cell)
    ensures c in KeepBoundary(s, g) <==> c in s && IsBoundary(c, g)
  {
    if s != [] {
      KeepBoundaryMember(s[1..], g, c);
      assert s == [s[0]] + s[1..];
    }
  }

  lemma {:induction false} KeepBoundaryRowMajor(s: seq<Cell>, g: Grid)
    requires StrictlyRowMajor(s)
    ensures StrictlyRowMajor(KeepBoundary(s, g))
  {
    if s != [] {
      KeepBoundaryRowMajor(s[1..], g);
      var t := KeepBoundary(s[1..], g);
      forall q | 0 <= q < |t|
        ensures RowMajorBefore(s[0], t[q])
      {
        KeepBoundaryMember(s[1..], g, t[q]);
        var k :| 0 <= k < |s[1..]| && s[1..][k] == t[q];
        assert s[k + 1] == t[q];
      }
    }
  }

  /** The boundary holds exactly the grid cells on the outer ring... */
  lemma BoundaryMember(g: Grid, c: Cell)
    ensures c in Boundary(g) <==> InBounds(c, g) && IsBoundary(c, g)
  {
    KeepBoundaryMember(Cells(g), g, c);
    CellsMember(g, c);
  }

  /** ...in the order they have in `cells`. */
  lemma BoundaryRowMajor(g: Grid)
    ensures StrictlyRowMajor(Boundary(g))
  {
    CellsRowMajor(g);
    KeepBoundaryRowMajor(Cells(g), g);
  }

  /** Every grid cell off the boundary has exactly four neighbours. */
  lemma OffBoundaryHasFourNeighbors(g: Grid, c: Cell)
    requires c in Cells(g) && c !in Boundary(g)
    ensures |GenerateNeighbors(c, g)| == 4
  {
    CellsMember(g, c);
    BoundaryMember(g, c);
    InteriorHasFourNeighbors(c, g);
  }
}
