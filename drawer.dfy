/** The renderer's integer logic: the closed unit square drawn for a cell,
    the comparator that orders the marked squares for numbering, and the
    sorted order it produces. */
module Drawer {
  import opened Topology

  /** A polygon vertex `[i, j]`. */
  datatype Point = Point(i: int, j: int)

  /** `item[axis]` of a vertex. */
  function Coord(p: Point, axis: int): int
    requires axis == 0 || axis == 1
  {
    if axis == 0 then p.i else p.j
  }

  /** A polygon as a list of vertices; `max` over it needs at least one. */
  type Block = b: seq<Point> | |b| > 0 witness [Point(0, 0)]

  /** `max(item[axis] for item in block)`. */
  function MaxCoord(b: Block, axis: int): (r: int)
    requires axis == 0 || axis == 1
    ensures forall k :: 0 <= k < |b| ==> Coord(b[k], axis) <= r
    ensures exists k :: 0 <= k < |b| && Coord(b[k], axis) == r
    decreases |b|
  {
    if |b| == 1 then Coord(b[0], axis)
    else
      var rest := MaxCoord(b[1..], axis);
      if Coord(b[0], axis) >= rest then Coord(b[0], axis) else rest
  }

  function MaxRow(b: Block): int { MaxCoord(b, 0) }

  function MaxCol(b: Block): int { MaxCoord(b, 1) }

  /** `compare`: a negative result puts `b1` first. */
  function Compare(b1: Block, b2: Block): int {
    var maxCol1, maxCol2 := MaxCol(b1), MaxCol(b2);
    if maxCol1 != maxCol2 then -maxCol1 + maxCol2
    else MaxRow(b1) - MaxRow(b2)
  }

  /** The lexicographic key `(-max column, max row)`, strictly smaller. */
  predicate KeyBefore(a: Block, b: Block) {
    MaxCol(a) > MaxCol(b) || (MaxCol(a) == MaxCol(b) && MaxRow(a) < MaxRow(b))
  }

  predicate SameKey(a: Block, b: Block) {
    MaxCol(a) == MaxCol(b) && MaxRow(a) == MaxRow(b)
  }

  // ---------------------------------------------------------------------
  // The comparator is a total preorder
  // ---------------------------------------------------------------------

  lemma CompareSelf(a: Block)
    ensures Compare(a, a) == 0
  {
  }

  lemma CompareAntisymmetric(a: Block, b: Block)
    ensures Compare(a, b) == -Compare(b, a)
  {
  }

  /** A larger maximum column sorts first. */
  lemma CompareByColumn(a: Block, b: Block)
    requires MaxCol(a) > MaxCol(b)
    ensures Compare(a, b) < 0
  {
  }

  /** On equal maximum columns the sign is that of the row difference. */
  lemma CompareByRow(a: Block, b: Block)
    requires MaxCol(a) == MaxCol(b)
    ensures Compare(a, b) < 0 <==> MaxRow(a) < MaxRow(b)
    ensures Compare(a, b) == 0 <==> MaxRow(a) == MaxRow(b)
    ensures Compare(a, b) > 0 <==> MaxRow(a) > MaxRow(b)
  {
  }

  /** The sign of `compare` is the lexicographic order of the key. */
  lemma CompareMatchesKey(a: Block, b: Block)
    ensures Compare(a, b) < 0 <==> KeyBefore(a, b)
    ensures Compare(a, b) == 0 <==> SameKey(a, b)
    ensures Compare(a, b) > 0 <==> KeyBefore(b, a)
  {
  }

  lemma CompareTransitive(a: Block, b: Block, c: Block)
    requires Compare(a, b) <= 0 && Compare(b, c) <= 0
    ensures Compare(a, c) <= 0
    ensures Compare(a, b) < 0 || Compare(b, c) < 0 ==> Compare(a, c) < 0
  {
    CompareMatchesKey(a, b);
    CompareMatchesKey(b, c);
    CompareMatchesKey(a, c);
  }

  // ---------------------------------------------------------------------
  // Unit squares
  // ---------------------------------------------------------------------

  /** `[[i, j], [i + 1, j], [i + 1, j + 1], [i, j + 1], [i, j]]`. */
  function UnitSquare(c: Cell): Block {
    [Point(c.row, c.col), Point(c.row + 1, c.col), Point(c.row + 1, c.col + 1),
     Point(c.row, c.col + 1), Point(c.row, c.col)]
  }

  /** The cell a square was built from: its first vertex. */
  function CellOf(b: Block): Cell {
    Cell(b[0].i, b[0].j)
  }

  /** The square has five vertices, is closed, reaches row `i + 1` and
      column `j + 1`, and gives back its cell. */
  lemma UnitSquareShape(c: Cell)
    ensures |UnitSquare(c)| == 5 && UnitSquare(c)[0] == UnitSquare(c)[4]
    ensures MaxRow(UnitSquare(c)) == c.row + 1 && MaxCol(UnitSquare(c)) == c.col + 1
    ensures CellOf(UnitSquare(c)) == c
  {
    var sq := UnitSquare(c);
    assert Coord(sq[1], 0) == c.row + 1 && Coord(sq[2], 1) == c.col + 1;
  }

  /** Display order on cells: larger column first, then smaller row. */
  predicate DisplayBefore(a: Cell, b: Cell) {
    a.col > b.col || (a.col == b.col && a.row < b.row)
  }

  /** On unit squares `compare` orders the cells by `(-j, i)`. */
  lemma CompareUnitSquares(a: Cell, b: Cell)
    ensures Compare(UnitSquare(a), UnitSquare(b)) < 0 <==> DisplayBefore(a, b)
    ensures Compare(UnitSquare(a), UnitSquare(b)) == 0 <==> a == b
  {
    UnitSquareShape(a);
    UnitSquareShape(b);
  }

  /** One square per cell, in the order of the cells. */
  function Squares(cs: seq<Cell>): seq<Block> {
    seq(|cs|, k requires 0 <= k < |cs| => UnitSquare(cs[k]))
  }

  /** `grid_nodes`: the squares of all cells, row by row. */
  function GridNodes(g: Grid): seq<Block> {
    Squares(Cells(g))
  }

  lemma GridNodesRowMajor(g: Grid, i: int, j: int)
    requires 0 <= i < g.rows && 0 <= j < g.cols
    ensures |GridNodes(g)| == g.rows * g.cols
    ensures GridNodes(g)[i * g.cols + j] == UnitSquare(Cell(i, j))
  {
    CellsAt(g, i, j);
  }

  // ---------------------------------------------------------------------
  // sorted(blocks2, key=cmp_to_key(compare))
  // ---------------------------------------------------------------------

  predicate SortedByCompare(s: seq<Block>) {
    forall p, q :: 0 <= p < q < |s| ==> Compare(s[p], s[q]) <= 0
  }

  /** Insert `b` before the first element it does not sort after. */
  function Insert(b: Block, s: seq<Block>): (r: seq<Block>)
    ensures multiset(r) == multiset(s) + multiset{b}
  {
    if s == [] then [b]
    else if Compare(b, s[0]) <= 0 then [b] + s
    else
      assert s == [s[0]] + s[1..];
      [s[0]] + Insert(b, s[1..])
  }

  lemma {:induction false} InsertSorted(b: Block, s: seq<Block>)
    requires SortedByCompare(s)
    ensures SortedByCompare(Insert(b, s))
  {
    if s == [] {
    } else if Compare(b, s[0]) <= 0 {
      forall q | 0 < q < |s|
        ensures Compare(b, s[q]) <= 0
      {
        CompareTransitive(b, s[0], s[q]);
      }
    } else {
      var t := Insert(b, s[1..]);
      InsertSorted(b, s[1..]);
      forall q | 0 <= q < |t|
        ensures Compare(s[0], t[q]) <= 0
      {
        assert t[q] in multiset(t);
        if t[q] != b {
          assert t[q] in multiset(s[1..]);
          var k :| 0 <= k < |s[1..]| && s[1..][k] == t[q];
          assert s[k + 1] == t[q];
        }
      }
    }
  }

  /** A stable insertion sort under `compare`: the sorted permutation. */
  function SortBlocks(s: seq<Block>): (r: seq<Block>)
    ensures multiset(r) == multiset(s)
    ensures SortedByCompare(r)
  {
    if s == [] then []
    else
      var rest := SortBlocks(s[1..]);
      InsertSorted(s[0], rest);
      assert s == [s[0]] + s[1..];
      Insert(s[0], rest)
  }

  /** Distinct blocks of the multiset never compare equal. */
  predicate KeysDistinct(m: multiset<Block>) {
    forall x, y :: x in m && y in m && x != y ==> Compare(x, y) != 0
  }

  lemma KeysDistinctSub(m1: multiset<Block>, m2: multiset<Block>)
    requires m1 <= m2 && KeysDistinct(m2)
    ensures KeysDistinct(m1)
  {
  }

  /** Two sorted permutations of such a multiset start with the same block. */
  lemma SortedPermutationsShareHead(a: seq<Block>, b: seq<Block>)
    requires multiset(a) == multiset(b) && KeysDistinct(multiset(a))
    requires SortedByCompare(a) && SortedByCompare(b)
    requires a != []
    ensures b != [] && a[0] == b[0]
  {
    assert a[0] in multiset(b);
    var k :| 0 <= k < |b| && b[k] == a[0];
    assert b[0] in multiset(a);
    var m :| 0 <= m < |a| && a[m] == b[0];
    assert Compare(a[0], b[0]) <= 0 by {
      if m > 0 { assert Compare(a[0], a[m]) <= 0; } else { CompareSelf(a[0]); }
    }
    assert Compare(b[0], a[0]) <= 0 by {
      if k > 0 { assert Compare(b[0], b[k]) <= 0; } else { CompareSelf(b[0]); }
    }
    CompareAntisymmetric(a[0], b[0]);
  }

  lemma TailsPermutation(a: seq<Block>, b: seq<Block>)
    requires multiset(a) == multiset(b) && a != [] && b != [] && a[0] == b[0]
    ensures multiset(a[1..]) == multiset(b[1..]) && multiset(a[1..]) <= multiset(a)
  {
    assert a == [a[0]] + a[1..] && b == [b[0]] + b[1..];
    assert multiset(a) == multiset{a[0]} + multiset(a[1..]);
    assert multiset(b) == multiset{b[0]} + multiset(b[1..]);
    assert multiset(a[1..]) == multiset(a) - multiset{a[0]};
    assert multiset(b[1..]) == multiset(b) - multiset{b[0]};
  }

  lemma SortedTail(s: seq<Block>)
    requires SortedByCompare(s) && s != []
    ensures SortedByCompare(s[1..])
  {
    forall p, q | 0 <= p < q < |s[1..]|
      ensures Compare(s[1..][p], s[1..][q]) <= 0
    {
      assert s[1..][p] == s[p + 1] && s[1..][q] == s[q + 1];
    }
  }

  lemma SameHeadSameTail(a: seq<Block>, b: seq<Block>)
    requires a != [] && b != [] && a[0] == b[0] && a[1..] == b[1..]
    ensures a == b
  {
    assert a == [a[0]] + a[1..] && b == [b[0]] + b[1..];
  }

  /** Two sorted permutations of a multiset whose distinct members never
      compare equal are the same list: the sorted order does not depend on
      the sorting algorithm. */
  lemma {:induction false} SortedPermutationUnique(a: seq<Block>, b: seq<Block>)
    requires multiset(a) == multiset(b) && KeysDistinct(multiset(a))
    requires SortedByCompare(a) && SortedByCompare(b)
    ensures a == b
  {
    if a == [] {
      assert |b| == |multiset(b)| == 0;
    } else {
      assert b != [] && a[0] == b[0] by {
        SortedPermutationsShareHead(a, b);
      }
      assert multiset(a[1..]) == multiset(b[1..]) && KeysDistinct(multiset(a[1..])) by {
        TailsPermutation(a, b);
        KeysDistinctSub(multiset(a[1..]), multiset(a));
      }
      assert SortedByCompare(a[1..]) && SortedByCompare(b[1..]) by {
        SortedTail(a);
        SortedTail(b);
      }
      SortedPermutationUnique(a[1..], b[1..]);
      SameHeadSameTail(a, b);
    }
  }

  /** Distinct unit squares never compare equal. */
  lemma SquaresKeysDistinct(cs: seq<Cell>)
    ensures KeysDistinct(multiset(Squares(cs)))
  {
    forall x, y | x in multiset(Squares(cs)) && y in multiset(Squares(cs)) && x != y
      ensures Compare(x, y) != 0
    {
      var p :| 0 <= p < |cs| && Squares(cs)[p] == x;
      var q :| 0 <= q < |cs| && Squares(cs)[q] == y;
      CompareUnitSquares(cs[p], cs[q]);
    }
  }

  /** Every sorted permutation of the marked squares is the one `SortBlocks`
      gives, and it numbers the marked cells by larger column first, then
      smaller row. */
  lemma SortedSquaresDisplayOrder(cs: seq<Cell>)
    ensures forall other :: multiset(other) == multiset(Squares(cs)) && SortedByCompare(other)
                         ==> other == SortBlocks(Squares(cs))
    ensures var r := SortBlocks(Squares(cs));
      && |r| == |cs|
      && (forall k :: 0 <= k < |r| ==> CellOf(r[k]) in cs && r[k] == UnitSquare(CellOf(r[k])))
      && (forall p, q :: 0 <= p < q < |r| ==> CellOf(r[p]) == CellOf(r[q]) || DisplayBefore(CellOf(r[p]), CellOf(r[q])))
  {
    var sq := Squares(cs);
    var r := SortBlocks(sq);
    SquaresKeysDistinct(cs);
    forall other | multiset(other) == multiset(sq) && SortedByCompare(other)
      ensures other == r
    {
      SortedPermutationUnique(r, other);
    }
    assert |r| == |multiset(r)| == |multiset(sq)| == |cs|;
    forall k | 0 <= k < |r|
      ensures CellOf(r[k]) in cs && r[k] == UnitSquare(CellOf(r[k]))
    {
      assert r[k] in multiset(sq);
      var p :| 0 <= p < |cs| && sq[p] == r[k];
      UnitSquareShape(cs[p]);
    }
    forall p, q | 0 <= p < q < |r|
      ensures CellOf(r[p]) == CellOf(r[q]) || DisplayBefore(CellOf(r[p]), CellOf(r[q]))
    {
      CompareUnitSquares(CellOf(r[p]), CellOf(r[q]));
    }
  }

  // ---------------------------------------------------------------------
  // The blocks `draw_solution` hands to the plotting helpers
  // ---------------------------------------------------------------------

  datatype Layout = Layout(gridNodes: seq<Block>, stoneBlocks: seq<Block>, markedBlocks: seq<Block>)

  /** `draw_solution` up to the first plotting call. */
  function DrawSolutionBlocks(g: Grid, stones: seq<Cell>, marked: seq<Cell>): Layout {
    Layout(GridNodes(g), Squares(stones), SortBlocks(Squares(marked)))
  }

  lemma DrawSolutionBlocksSpec(g: Grid, stones: seq<Cell>, marked: seq<Cell>)
    ensures var l := DrawSolutionBlocks(g, stones, marked);
      && |l.gridNodes| == g.rows * g.cols
      && |l.stoneBlocks| == |stones|
      && (forall k :: 0 <= k < |stones| ==> l.stoneBlocks[k] == UnitSquare(stones[k]))
      && multiset(l.markedBlocks) == multiset(Squares(marked))
      && SortedByCompare(l.markedBlocks)
  {
    CellsLength(g);
  }
}
