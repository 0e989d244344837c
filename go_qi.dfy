/** The go-qi constraint model: the binary program over a stone flag `x` and
    a marked flag `y` per cell, its four constraint families, its objective
    and the decoding of a solver assignment into two coordinate lists. The
    solver is not modelled: its answer enters as the valuations `x`, `y`. */
module GoQiModel {
  import opened Topology

  /** The solved value of one family of binary variables, cell by cell. */
  type Valuation = Cell -> int

  /** The solver's values are 0/1 on the cells (the variables are binary). */
  predicate Binary(cs: seq<Cell>, v: Valuation) {
    forall c :: c in cs ==> v(c) == 0 || v(c) == 1
  }

  /** `lpSum(v[c] for c in cs)`. */
  function Sum(cs: seq<Cell>, v: Valuation): int {
    if cs == [] then 0 else Sum(cs[..|cs| - 1], v) + v(cs[|cs| - 1])
  }

  /** The cells of `cs` whose value passes the decoding threshold, in the
      order of `cs`. On integers, `value > 0.9` is `value >= 1`. */
  function Decode(cs: seq<Cell>, v: Valuation): (r: seq<Cell>)
    ensures |r| <= |cs|
    ensures forall c :: c in r <==> c in cs && v(c) >= 1
  {
    if cs == [] then []
    else Decode(cs[..|cs| - 1], v) + (if v(cs[|cs| - 1]) >= 1 then [cs[|cs| - 1]] else [])
  }

  // ---------------------------------------------------------------------
  // The four constraint families as predicates on an assignment
  // ---------------------------------------------------------------------

  /** `x[c] + y[c] <= 1` for every cell. */
  predicate Exclusive(g: Grid, x: Valuation, y: Valuation) {
    forall c :: c in Cells(g) ==> x(c) + y(c) <= 1
  }

  /** `x[n] + y[n] >= x[c]` for every neighbour `n` of `c`. */
  predicate CellCovered(c: Cell, g: Grid, x: Valuation, y: Valuation) {
    forall n :: n in GenerateNeighbors(c, g) ==> x(n) + y(n) >= x(c)
  }

  /** The closure family: every cell is covered. */
  predicate NeighborClosed(g: Grid, x: Valuation, y: Valuation) {
    forall c :: c in Cells(g) ==> CellCovered(c, g, x, y)
  }

  /** `x[c] == 0` for every boundary cell. */
  predicate BoundaryFree(g: Grid, x: Valuation) {
    forall c :: c in Boundary(g) ==> x(c) == 0
  }

  /** `lpSum(x[c] for c in cells) == num_go`. */
  predicate StoneCount(g: Grid, x: Valuation, numGo: int) {
    Sum(Cells(g), x) == numGo
  }

  predicate Feasible(g: Grid, numGo: int, x: Valuation, y: Valuation) {
    Exclusive(g, x, y) && NeighborClosed(g, x, y) && BoundaryFree(g, x) && StoneCount(g, x, numGo)
  }

  // ---------------------------------------------------------------------
  // The constraints as the model object holds them
  // ---------------------------------------------------------------------

  datatype Constraint =
    | Assign(cell: Cell)                    // x[cell] + y[cell] <= 1
    | Cover(cell: Cell, neighbor: Cell)     // x[neighbor] + y[neighbor] >= x[cell]
    | NoStone(cell: Cell)                   // x[cell] == 0
    | NumGo(over: seq<Cell>, target: int)   // lpSum(x[c] for c in over) == target

  predicate Holds(k: Constraint, x: Valuation, y: Valuation) {
    match k
    case Assign(c) => x(c) + y(c) <= 1
    case Cover(c, n) => x(n) + y(n) >= x(c)
    case NoStone(c) => x(c) == 0
    case NumGo(over, target) => Sum(over, x) == target
  }

  predicate AllHold(ks: seq<Constraint>, x: Valuation, y: Valuation) {
    forall k :: k in ks ==> Holds(k, x, y)
  }

  lemma AllHoldAppend(a: seq<Constraint>, b: seq<Constraint>, x: Valuation, y: Valuation)
    ensures AllHold(a + b, x, y) <==> AllHold(a, x, y) && AllHold(b, x, y)
  {
    assert forall k :: k in a + b <==> k in a || k in b;
  }

  lemma AppendAssoc(a: seq<Constraint>, b: seq<Constraint>, c: seq<Constraint>)
    ensures a + b + c == a + (b + c)
  {
  }

  lemma AllHoldSingle(k: Constraint, x: Valuation, y: Valuation)
    ensures AllHold([k], x, y) <==> Holds(k, x, y)
  {
    assert k in [k];
  }

  function AssignFamily(cs: seq<Cell>): seq<Constraint> {
    if cs == [] then [] else AssignFamily(cs[..|cs| - 1]) + [Assign(cs[|cs| - 1])]
  }

  /** The closure constraints of one cell, one per neighbour. */
  function CoverPairs(c: Cell, ns: seq<Cell>): seq<Constraint> {
    if ns == [] then [] else CoverPairs(c, ns[..|ns| - 1]) + [Cover(c, ns[|ns| - 1])]
  }

  function CoverFamily(cs: seq<Cell>, g: Grid): seq<Constraint> {
    if cs == [] then []
    else CoverFamily(cs[..|cs| - 1], g) + CoverPairs(cs[|cs| - 1], GenerateNeighbors(cs[|cs| - 1], g))
  }

  /** One round of the second loop of `_set_constraints`: appending the
      closure constraints of `cs[k]` to the constraints of `cs[..k]` gives
      the constraints of `cs[..k + 1]`. */
  lemma CoverFamilyStep(before: seq<Constraint>, done: seq<Constraint>, after: seq<Constraint>,
                        cs: seq<Cell>, k: nat, g: Grid, ns: seq<Cell>)
    requires k < |cs| && ns == GenerateNeighbors(cs[k], g)
    requires done == before + CoverFamily(cs[..k], g)
    requires after == done + CoverPairs(cs[k], ns)
    ensures after == before + CoverFamily(cs[..k + 1], g)
  {
    assert cs[..k + 1][..k] == cs[..k];
    AppendAssoc(before, CoverFamily(cs[..k], g), CoverPairs(cs[k], ns));
  }

  function BoundaryFamily(bs: seq<Cell>): seq<Constraint> {
    if bs == [] then [] else BoundaryFamily(bs[..|bs| - 1]) + [NoStone(bs[|bs| - 1])]
  }

  /** Every constraint `_set_constraints` adds, in the order it adds them. */
  function Families(g: Grid, numGo: int): seq<Constraint> {
    AssignFamily(Cells(g)) + CoverFamily(Cells(g), g) + BoundaryFamily(Boundary(g))
    + [NumGo(Cells(g), numGo)]
  }

  lemma {:induction false} AssignFamilyHolds(cs: seq<Cell>, x: Valuation, y: Valuation)
    ensures AllHold(AssignFamily(cs), x, y) <==> forall c :: c in cs ==> x(c) + y(c) <= 1
  {
    if cs != [] {
      var pre := cs[..|cs| - 1];
      AssignFamilyHolds(pre, x, y);
      AllHoldAppend(AssignFamily(pre), [Assign(cs[|cs| - 1])], x, y);
      AllHoldSingle(Assign(cs[|cs| - 1]), x, y);
      assert cs == pre + [cs[|cs| - 1]];
      assert forall c :: c in cs <==> c in pre || c == cs[|cs| - 1];
    }
  }

  lemma {:induction false} CoverPairsHold(c: Cell, ns: seq<Cell>, x: Valuation, y: Valuation)
    ensures AllHold(CoverPairs(c, ns), x, y) <==> forall n :: n in ns ==> x(n) + y(n) >= x(c)
  {
    if ns != [] {
      var pre := ns[..|ns| - 1];
      CoverPairsHold(c, pre, x, y);
      AllHoldAppend(CoverPairs(c, pre), [Cover(c, ns[|ns| - 1])], x, y);
      AllHoldSingle(Cover(c, ns[|ns| - 1]), x, y);
      assert ns == pre + [ns[|ns| - 1]];
      assert forall n :: n in ns <==> n in pre || n == ns[|ns| - 1];
    }
  }

  lemma CoveredSplit(pre: seq<Cell>, last: Cell, g: Grid, x: Valuation, y: Valuation)
    ensures (forall c :: c in pre + [last] ==> CellCovered(c, g, x, y))
        <==> (forall c :: c in pre ==> CellCovered(c, g, x, y)) && CellCovered(last, g, x, y)
  {
    assert forall c :: c in pre + [last] <==> c in pre || c == last;
  }

  /** Every cell of `cs` is covered, taken one cell at a time from the end.
      A proof helper: `AllCoveredMeans` shows it is the quantified statement. */
  predicate AllCovered(cs: seq<Cell>, g: Grid, x: Valuation, y: Valuation) {
    cs == [] || (AllCovered(cs[..|cs| - 1], g, x, y) && CellCovered(cs[|cs| - 1], g, x, y))
  }

  lemma {:induction false} AllCoveredMeans(cs: seq<Cell>, g: Grid, x: Valuation, y: Valuation)
    ensures AllCovered(cs, g, x, y) <==> forall c :: c in cs ==> CellCovered(c, g, x, y)
  {
    if cs != [] {
      var pre, last := cs[..|cs| - 1], cs[|cs| - 1];
      AllCoveredMeans(pre, g, x, y);
      assert cs == pre + [last];
      CoveredSplit(pre, last, g, x, y);
    }
  }

  lemma {:induction false} CoverFamilyAllCovered(cs: seq<Cell>, g: Grid, x: Valuation, y: Valuation)
    ensures AllHold(CoverFamily(cs, g), x, y) <==> AllCovered(cs, g, x, y)
  {
    if cs != [] {
      var pre, last := cs[..|cs| - 1], cs[|cs| - 1];
      var earlier, own := CoverFamily(pre, g), CoverPairs(last, GenerateNeighbors(last, g));
      assert AllHold(CoverFamily(cs, g), x, y) <==> AllHold(earlier, x, y) && AllHold(own, x, y) by {
        AllHoldAppend(earlier, own, x, y);
      }
      CoverFamilyAllCovered(pre, g, x, y);
      CoverPairsHold(last, GenerateNeighbors(last, g), x, y);
    }
  }

  /** The closure constraints of `cs` hold iff every cell of `cs` is covered. */
  lemma CoverFamilyHolds(cs: seq<Cell>, g: Grid, x: Valuation, y: Valuation)
    ensures AllHold(CoverFamily(cs, g), x, y) <==> forall c :: c in cs ==> CellCovered(c, g, x, y)
  {
    CoverFamilyAllCovered(cs, g, x, y);
    AllCoveredMeans(cs, g, x, y);
  }

  lemma {:induction false} BoundaryFamilyHolds(bs: seq<Cell>, x: Valuation, y: Valuation)
    ensures AllHold(BoundaryFamily(bs), x, y) <==> forall c :: c in bs ==> x(c) == 0
  {
    if bs != [] {
      var pre := bs[..|bs| - 1];
      BoundaryFamilyHolds(pre, x, y);
      AllHoldAppend(BoundaryFamily(pre), [NoStone(bs[|bs| - 1])], x, y);
      AllHoldSingle(NoStone(bs[|bs| - 1]), x, y);
      assert bs == pre + [bs[|bs| - 1]];
      assert forall c :: c in bs <==> c in pre || c == bs[|bs| - 1];
    }
  }

  /** An assignment satisfies every constraint the model holds exactly when it
      satisfies the four families. */
  lemma FamiliesMeanFeasible(g: Grid, numGo: int, x: Valuation, y: Valuation)
    ensures AllHold(Families(g, numGo), x, y) <==> Feasible(g, numGo, x, y)
  {
    var a, b, c := AssignFamily(Cells(g)), CoverFamily(Cells(g), g), BoundaryFamily(Boundary(g));
    var d := [NumGo(Cells(g), numGo)];
    AssignFamilyHolds(Cells(g), x, y);
    CoverFamilyHolds(Cells(g), g, x, y);
    BoundaryFamilyHolds(Boundary(g), x, y);
    AllHoldAppend(a, b, x, y);
    AllHoldAppend(a + b, c, x, y);
    AllHoldAppend(a + b + c, d, x, y);
    AllHoldSingle(NumGo(Cells(g), numGo), x, y);
  }

  // ---------------------------------------------------------------------
  // The model object
  // ---------------------------------------------------------------------

  /** `GoQi`: the model object. `objective` lists the cells whose marked
      variable the minimised sum ranges over; `constraints` the constraints
      added to the problem so far. */
  class GoQi {
    var grid: Grid
    var numGo: int
    var cells: seq<Cell>
    var neighbors: map<Cell, seq<Cell>>
    var boundary: seq<Cell>
    var objective: seq<Cell>
    var constraints: seq<Constraint>

    /** `__init__`: an empty minimisation problem. */
    constructor (grid: Grid, numGo: int)
      ensures this.grid == grid && this.numGo == numGo
      ensures cells == [] && neighbors == map[] && boundary == []
      ensures objective == [] && constraints == []
    {
      this.grid := grid;
      this.numGo := numGo;
      cells, neighbors, boundary := [], map[], [];
      objective, constraints := [], [];
    }

    /** The topology fields hold what `_set_iterables` computes. */
    predicate IterablesSet()
      reads this
    {
      cells == Cells(grid) && neighbors == NeighborMap(grid) && boundary == Boundary(grid)
    }

    /** Every cell of `cells` is a key of `neighbors`, mapped to its
        neighbour list. */
    predicate NeighborsListed()
      reads this
    {
      forall c :: c in cells ==> c in neighbors && neighbors[c] == GenerateNeighbors(c, grid)
    }

    /** `_set_iterables`. */
    method SetIterables()
      modifies this`cells, this`neighbors, this`boundary
      ensures IterablesSet()
    {
      cells := Cells(grid);
      neighbors := NeighborMap(grid);
      boundary := Boundary(grid);
    }

    /** `_set_objective`: minimise the sum of the marked variables over `cells`. */
    method SetObjective()
      modifies this`objective
      ensures objective == cells
    {
      objective := cells;
    }

    /** `_set_constraints`: exclusivity per cell, closure per (cell, neighbour),
        no stone per boundary cell, then the stone count. */
    method SetConstraints()
      requires IterablesSet()
      modifies this`constraints
      ensures constraints == old(constraints) + Families(grid, numGo)
    {
      ghost var before := constraints;
      AddAssignConstraints();
      assert NeighborsListed() by {
        forall c | c in cells
          ensures c in neighbors && neighbors[c] == GenerateNeighbors(c, grid)
        {
          NeighborMapKeys(grid, c);
          CellsMember(grid, c);
        }
      }
      AddCoverConstraints();
      AddBoundaryConstraints();
      constraints := constraints + [NumGo(cells, numGo)];
      ghost var a, b, c := AssignFamily(cells), CoverFamily(cells, grid), BoundaryFamily(boundary);
      AppendAssoc(before, a, b);
      AppendAssoc(before, a + b, c);
      AppendAssoc(before, a + b + c, [NumGo(cells, numGo)]);
    }

    /** The first loop of `_set_constraints`: `x[c] + y[c] <= 1` per cell. */
    method AddAssignConstraints()
      modifies this`constraints
      ensures constraints == old(constraints) + AssignFamily(cells)
    {
      ghost var before := constraints;
      var k := 0;
      while k < |cells|
        invariant 0 <= k <= |cells|
        invariant constraints == before + AssignFamily(cells[..k])
      {
        assert cells[..k + 1][..k] == cells[..k];
        AppendAssoc(before, AssignFamily(cells[..k]), [Assign(cells[k])]);
        constraints := constraints + [Assign(cells[k])];
        k := k + 1;
      }
      assert cells[..|cells|] == cells;
    }

    /** The second loop of `_set_constraints`: `x[n] + y[n] >= x[c]` per cell
        `c` and neighbour `n`, in the order of `cells` and of each neighbour list. */
    method AddCoverConstraints()
      requires NeighborsListed()
      modifies this`constraints
      ensures constraints == old(constraints) + CoverFamily(cells, grid)
    {
      ghost var before := constraints;
      var k := 0;
      while k < |cells|
        invariant 0 <= k <= |cells|
        invariant constraints == before + CoverFamily(cells[..k], grid)
      {
        var c := cells[k];
        var ns := neighbors[c];
        ghost var done := constraints;
        AddCoverPairs(c, ns);
        CoverFamilyStep(before, done, constraints, cells, k, grid, ns);
        k := k + 1;
      }
      assert cells[..|cells|] == cells;
    }

    /** The inner loop of the second family: one closure constraint per
        neighbour `n` of `c`. */
    method AddCoverPairs(c: Cell, ns: seq<Cell>)
      modifies this`constraints
      ensures constraints == old(constraints) + CoverPairs(c, ns)
    {
      ghost var before := constraints;
      var t := 0;
      while t < |ns|
        invariant 0 <= t <= |ns|
        invariant constraints == before + CoverPairs(c, ns[..t])
      {
        assert ns[..t + 1][..t] == ns[..t];
        AppendAssoc(before, CoverPairs(c, ns[..t]), [Cover(c, ns[t])]);
        constraints := constraints + [Cover(c, ns[t])];
        t := t + 1;
      }
      assert ns[..|ns|] == ns;
    }

    /** The third loop of `_set_constraints`: `x[c] == 0` per boundary cell. */
    method AddBoundaryConstraints()
      modifies this`constraints
      ensures constraints == old(constraints) + BoundaryFamily(boundary)
    {
      ghost var before := constraints;
      var k := 0;
      while k < |boundary|
        invariant 0 <= k <= |boundary|
        invariant constraints == before + BoundaryFamily(boundary[..k])
      {
        assert boundary[..k + 1][..k] == boundary[..k];
        AppendAssoc(before, BoundaryFamily(boundary[..k]), [NoStone(boundary[k])]);
        constraints := constraints + [NoStone(boundary[k])];
        k := k + 1;
      }
      assert boundary[..|boundary|] == boundary;
    }

    /** `_process_infeasible_case`: no incumbent gives two empty lists. */
    method ProcessInfeasibleCase() returns (xs: seq<Cell>, ys: seq<Cell>)
      ensures xs == [] && ys == []
    {
      xs, ys := [], [];
    }

    /** `_post_process`: one pass over `cells`, collecting the stones and the
        marked cells in cell order. */
    method PostProcess(x: Valuation, y: Valuation) returns (xs: seq<Cell>, ys: seq<Cell>)
      ensures xs == Decode(cells, x) && ys == Decode(cells, y)
    {
      xs, ys := [], [];
      var k := 0;
      while k < |cells|
        invariant 0 <= k <= |cells|
        invariant xs == Decode(cells[..k], x) && ys == Decode(cells[..k], y)
      {
        assert cells[..k + 1][..k] == cells[..k];
        if x(cells[k]) >= 1 {
          xs := xs + [cells[k]];
        }
        if y(cells[k]) >= 1 {
          ys := ys + [cells[k]];
        }
        k := k + 1;
      }
      assert cells[..|cells|] == cells;
    }
  }

  /** `lpSum` over the objective's cells: a name for the objective's value,
      which is `Sum` over the `objective` field. */
  function ObjectiveValue(objective: seq<Cell>, y: Valuation): int {
    Sum(objective, y)
  }

  // ---------------------------------------------------------------------
  // What a feasible assignment decodes to
  // ---------------------------------------------------------------------

  /** On 0/1 values the sum counts the cells that decode. */
  lemma {:induction false} SumOfBinaryIsCount(cs: seq<Cell>, v: Valuation)
    requires Binary(cs, v)
    ensures Sum(cs, v) == |Decode(cs, v)|
  {
    if cs != [] {
      var pre := cs[..|cs| - 1];
      assert forall c :: c in pre ==> c in cs;
      SumOfBinaryIsCount(pre, v);
    }
  }

  /** Decoding keeps a row-major list row-major: it picks a subsequence. */
  lemma {:induction false} DecodeRowMajor(cs: seq<Cell>, v: Valuation)
    requires StrictlyRowMajor(cs)
    ensures StrictlyRowMajor(Decode(cs, v))
  {
    if cs != [] {
      var pre, last := cs[..|cs| - 1], cs[|cs| - 1];
      DecodeRowMajor(pre, v);
      var d := Decode(pre, v);
      forall p | 0 <= p < |d|
        ensures RowMajorBefore(d[p], last)
      {
        assert d[p] in pre;
        var k :| 0 <= k < |pre| && pre[k] == d[p];
        assert cs[k] == d[p];
      }
    }
  }

  /** Both decoded lists follow the order of `cells`. */
  lemma DecodedFollowCells(g: Grid, v: Valuation)
    ensures StrictlyRowMajor(Decode(Cells(g), v))
  {
    CellsRowMajor(g);
    DecodeRowMajor(Cells(g), v);
  }

  /** Exclusivity makes the stone and marked lists disjoint. */
  lemma DecodedDisjoint(g: Grid, x: Valuation, y: Valuation)
    requires Exclusive(g, x, y)
    ensures forall c :: c in Decode(Cells(g), x) ==> c !in Decode(Cells(g), y)
  {
  }

  /** Binary stone values and the count constraint give `num_go` stones. */
  lemma DecodedStoneCount(g: Grid, numGo: int, x: Valuation)
    requires Binary(Cells(g), x) && StoneCount(g, x, numGo)
    ensures |Decode(Cells(g), x)| == numGo
  {
    SumOfBinaryIsCount(Cells(g), x);
  }

  /** The boundary constraint keeps every decoded stone off the outer ring. */
  lemma DecodedStonesOffBoundary(g: Grid, x: Valuation)
    requires BoundaryFree(g, x)
    ensures forall c :: c in Decode(Cells(g), x) ==> InBounds(c, g) && !IsBoundary(c, g)
  {
    forall c | c in Decode(Cells(g), x)
      ensures InBounds(c, g) && !IsBoundary(c, g)
    {
      CellsMember(g, c);
      BoundaryMember(g, c);
    }
  }

  /** The closure constraint puts every neighbour of a stone among the stones
      or the marked cells. */
  lemma DecodedStonesCovered(g: Grid, x: Valuation, y: Valuation)
    requires NeighborClosed(g, x, y)
    ensures forall s, n :: s in Decode(Cells(g), x) && n in GenerateNeighbors(s, g)
                       ==> n in Decode(Cells(g), x) || n in Decode(Cells(g), y)
  {
    forall s, n | s in Decode(Cells(g), x) && n in GenerateNeighbors(s, g)
      ensures n in Decode(Cells(g), x) || n in Decode(Cells(g), y)
    {
      CellsMember(g, s);
      NeighborsInBounds(s, g);
      CellsMember(g, n);
    }
  }

  /** The closure family also covers a stone from the other side: every grid
      cell that has a stone among its neighbours is itself a stone or marked. */
  lemma DecodedHaloFromEitherSide(g: Grid, x: Valuation, y: Valuation)
    requires NeighborClosed(g, x, y)
    ensures forall c, s :: c in Cells(g) && s in GenerateNeighbors(c, g) && s in Decode(Cells(g), x)
                       ==> c in Decode(Cells(g), x) || c in Decode(Cells(g), y)
  {
    forall c, s | c in Cells(g) && s in GenerateNeighbors(c, g) && s in Decode(Cells(g), x)
      ensures c in Decode(Cells(g), x) || c in Decode(Cells(g), y)
    {
      CellsMember(g, c);
      CellsMember(g, s);
      NeighborsSymmetric(c, s, g);
      DecodedStonesCovered(g, x, y);
    }
  }

  /** With the objective set over `cells`, its value is the number of marked cells. */
  lemma ObjectiveIsMarkedCount(g: Grid, y: Valuation)
    requires Binary(Cells(g), y)
    ensures ObjectiveValue(Cells(g), y) == |Decode(Cells(g), y)|
  {
    SumOfBinaryIsCount(Cells(g), y);
  }

  /** Everything a feasible binary assignment promises the renderer. */
  lemma FeasibleSolutionDecodes(g: Grid, numGo: int, x: Valuation, y: Valuation)
    requires Binary(Cells(g), x) && Binary(Cells(g), y) && Feasible(g, numGo, x, y)
    ensures var xs, ys := Decode(Cells(g), x), Decode(Cells(g), y);
      && (forall c :: c in xs ==> c !in ys)
      && |xs| == numGo
      && (forall c :: c in xs ==> InBounds(c, g) && !IsBoundary(c, g))
      && (forall s, n :: s in xs && n in GenerateNeighbors(s, g) ==> n in xs || n in ys)
      && StrictlyRowMajor(xs) && StrictlyRowMajor(ys)
      && ObjectiveValue(Cells(g), y) == |ys|
  {
    DecodedDisjoint(g, x, y);
    DecodedStoneCount(g, numGo, x);
    DecodedStonesOffBoundary(g, x);
    DecodedStonesCovered(g, x, y);
    DecodedFollowCells(g, x);
    DecodedFollowCells(g, y);
    ObjectiveIsMarkedCount(g, y);
  }

  // ---------------------------------------------------------------------
  // When the families can and cannot be met
  // ---------------------------------------------------------------------

  /** A single stone on `s` and nothing else. */
  function StoneAt(s: Cell): Valuation {
    c => if c == s then 1 else 0
  }

  /** The neighbours of `s` marked and nothing else. */
  function HaloOf(s: Cell, g: Grid): Valuation {
    c => if c in GenerateNeighbors(s, g) then 1 else 0
  }

  lemma {:induction false} SumOfStoneAt(cs: seq<Cell>, s: Cell)
    ensures Sum(cs, StoneAt(s)) == multiset(cs)[s]
  {
    if cs != [] {
      var pre := cs[..|cs| - 1];
      assert cs == pre + [cs[|cs| - 1]];
      SumOfStoneAt(pre, s);
    }
  }

  /** Any cell off the boundary can hold a lone stone: with its four
      neighbours marked the four families hold, and the assignment decodes to
      that one stone. On a 3x3 grid this is the centre. */
  lemma SingleStoneFeasible(g: Grid, s: Cell)
    requires InBounds(s, g) && !IsBoundary(s, g)
    ensures Feasible(g, 1, StoneAt(s), HaloOf(s, g))
    ensures Decode(Cells(g), StoneAt(s)) == [s]
  {
    var x, y := StoneAt(s), HaloOf(s, g);
    var cs := Cells(g);
    assert Sum(cs, x) == 1 by {
      CellsCountOnce(g, s);
      SumOfStoneAt(cs, s);
    }
    assert Decode(cs, x) == [s] by {
      assert Binary(cs, x);
      SumOfBinaryIsCount(cs, x);
      var d := Decode(cs, x);
      assert d[0] in d;
    }
    assert Exclusive(g, x, y) by {
      InteriorHasFourNeighbors(s, g);
      assert s !in GenerateNeighbors(s, g);
    }
    assert BoundaryFree(g, x) by {
      forall c | c in Boundary(g)
        ensures x(c) == 0
      {
        BoundaryMember(g, c);
      }
    }
    assert NeighborClosed(g, x, y);
  }

  /** The lone stone's halo marks exactly its four neighbours: objective 4. */
  lemma SingleStoneObjective(g: Grid, s: Cell)
    requires InBounds(s, g) && !IsBoundary(s, g)
    ensures multiset(Decode(Cells(g), HaloOf(s, g))) == multiset(GenerateNeighbors(s, g))
    ensures ObjectiveValue(Cells(g), HaloOf(s, g)) == 4
  {
    var y, cs := HaloOf(s, g), Cells(g);
    var h, ns := Decode(cs, y), GenerateNeighbors(s, g);
    assert multiset(h) == multiset(ns) by {
      DecodedFollowCells(g, y);
      forall c
        ensures multiset(h)[c] == multiset(ns)[c]
      {
        RowMajorCountsOnce(h, c);
        NeighborsExactlyOnce(s, g, c);
        NeighborsComplete(s, g, c);
        CellsMember(g, c);
      }
    }
    assert ObjectiveValue(cs, y) == |h| by {
      assert Binary(cs, y);
      SumOfBinaryIsCount(cs, y);
    }
    assert |ns| == 4 by {
      InteriorHasFourNeighbors(s, g);
    }
    assert |h| == |multiset(h)| == |multiset(ns)| == 4;
  }

  function InteriorCount(cs: seq<Cell>, g: Grid): nat {
    if cs == [] then 0
    else InteriorCount(cs[..|cs| - 1], g) + (if IsBoundary(cs[|cs| - 1], g) then 0 else 1)
  }

  /** The number of cells off the boundary: `(R - 2) * (C - 2)` when both
      dimensions reach 2, none otherwise. */
  function InteriorCapacity(g: Grid): nat {
    if g.rows >= 2 && g.cols >= 2 then (g.rows - 2) * (g.cols - 2) else 0
  }

  lemma {:induction false} InteriorCountAppend(a: seq<Cell>, b: seq<Cell>, g: Grid)
    ensures InteriorCount(a + b, g) == InteriorCount(a, g) + InteriorCount(b, g)
  {
    if b == [] {
      assert a + b == a;
    } else {
      var pre := b[..|b| - 1];
      var ab := a + b;
      assert ab[..|ab| - 1] == a + pre;
      assert ab[|ab| - 1] == b[|b| - 1];
      InteriorCountAppend(a, pre, g);
      assert InteriorCount(ab, g) == InteriorCount(a + pre, g) + (if IsBoundary(b[|b| - 1], g) then 0 else 1);
    }
  }

  lemma {:induction false} InteriorCountRow(g: Grid, i: int, n: nat)
    requires 0 <= i < g.rows && n <= g.cols
    ensures InteriorCount(Row(i, n), g)
         == if i == 0 || i == g.rows - 1 || n <= 1 then 0 else if n < g.cols then n - 1 else g.cols - 2
  {
    if n > 0 {
      assert Row(i, n)[..n - 1] == Row(i, n - 1);
      InteriorCountRow(g, i, n - 1);
    }
  }

  lemma {:induction false} InteriorCountRows(g: Grid, r: nat)
    requires r <= g.rows
    ensures InteriorCount(Cells(Grid(r, g.cols)), g)
         == if r <= 1 || g.cols < 2 then 0 else if r < g.rows then (r - 1) * (g.cols - 2) else InteriorCapacity(g)
  {
    if r > 0 {
      var cols := g.cols;
      InteriorCountRows(g, r - 1);
      InteriorCountAppend(Cells(Grid(r - 1, cols)), Row(r - 1, cols), g);
      InteriorCountRow(g, r - 1, cols);
      var prev := InteriorCount(Cells(Grid(r - 1, cols)), g);
      var last := InteriorCount(Row(r - 1, cols), g);
      assert InteriorCount(Cells(Grid(r, cols)), g) == prev + last;
      if r >= 2 && cols >= 2 {
        assert prev == (r - 2) * (cols - 2) by {
          if r == 2 { assert prev == 0; }
        }
        if r < g.rows {
          assert last == cols - 2;
          MulStep(r - 2, cols - 2);
        } else {
          assert last == 0;
        }
      }
    }
  }

  lemma MulStep(a: int, b: int)
    ensures (a + 1) * b == a * b + b
  {
  }

  lemma {:induction false} SumAtMostInteriorCount(cs: seq<Cell>, g: Grid, x: Valuation)
    requires Binary(cs, x)
    requires forall c :: c in cs && IsBoundary(c, g) ==> x(c) == 0
    ensures 0 <= Sum(cs, x) <= InteriorCount(cs, g)
  {
    if cs != [] {
      var pre := cs[..|cs| - 1];
      assert forall c :: c in pre ==> c in cs;
      SumAtMostInteriorCount(pre, g, x);
    }
  }

  /** A feasible binary assignment places between 0 and `(R - 2) * (C - 2)`
      stones: for any other `num_go` the families cannot be met and the
      solver has no incumbent to decode. */
  lemma FeasibleWithinCapacity(g: Grid, numGo: int, x: Valuation, y: Valuation)
    requires Binary(Cells(g), x) && Feasible(g, numGo, x, y)
    ensures 0 <= numGo <= InteriorCapacity(g)
  {
    forall c | c in Cells(g) && IsBoundary(c, g)
      ensures x(c) == 0
    {
      CellsMember(g, c);
      BoundaryMember(g, c);
    }
    SumAtMostInteriorCount(Cells(g), g, x);
    InteriorCountRows(g, g.rows);
  }
}
