/**
 * What the two solvers share.  Phase one relaxes costs in a grid of ints
 * (`tempGrid`) until every reached cell is settled; the invariant that
 * relaxation keeps is stated here once.  Phase two is the greedy descent
 * with backtracking of `searchPath`: starting from the end it repeatedly
 * steps to the cheapest suitable neighbour (`selectMinCellCoordinate`),
 * marks dead ends as restricted, and reverses the list once it reaches the
 * start.
 */
module Solving {
  import opened Grid
  import opened BaseGen

  // ---------------------------------------------------------------------
  // The cost grid as a value

  /** The cost of every cell, as a value (the counterpart of `KindsOf`). */
  ghost function CostsOf(a: array2<int>): (m: map<Coordinate, int>)
    reads a
    ensures forall z :: z in m <==> 0 <= z.row < a.Length0 && 0 <= z.col < a.Length1
  {
    map z | z in Coords(a.Length0, a.Length1) :: a[z.row, z.col]
  }

  /** What `fill` leaves in a cell other than the start: MAX_VALUE inside, Java's default 0 on the border. */
  function FillCost(z: Coordinate, h: int, w: int): int
  {
    if 1 <= z.row < h - 1 && 1 <= z.col < w - 1 then INT_MAX else 0
  }

  /** The highest cost a reached cell can carry once n cells are reached: five, the heaviest passable weight, per cell. */
  function CostBound(n: int): int
  {
    1 + 5 * n
  }

  /** No passable cell is adjacent to S without being in S. */
  ghost predicate ClosedIn(K: map<Coordinate, CellType>, S: set<Coordinate>)
  {
    forall c, n :: c in S && n in K && Adjacent(c, n) && IsPassable(K[n]) ==> n in S
  }

  /**
   * The invariant of cost relaxation over an h x w grid with kinds K, costs C
   * and reached (`visited`) cells V: the border is BEDROCK; the start is
   * reached with cost 1; every reached cell is passable, costs between 1 and
   * CostBound(|V|), and lies in every closed region around the start; every
   * other cell keeps the cost `fill` gave it.
   */
  ghost predicate Labelled(K: map<Coordinate, CellType>, C: map<Coordinate, int>, V: set<Coordinate>,
                           start: Coordinate, h: int, w: int)
  {
    Walled(K, h, w) && (forall z :: z in C <==> z in K) &&
    ReachedCosts(K, C, V) && start in V && C[start] == 1 &&
    UnreachedCosts(C, V, h, w) && Confined(K, V, start) && Attained(K, C, V, start)
  }

  /** K is an h x w grid, at most 35 x 35, whose border is BEDROCK. */
  ghost predicate Walled(K: map<Coordinate, CellType>, h: int, w: int)
  {
    0 <= h <= MAX_HEIGHT && 0 <= w <= MAX_WIDTH &&
    (forall z :: z in K <==> 0 <= z.row < h && 0 <= z.col < w) &&
    (forall z :: z in K && (z.row == 0 || z.col == 0 || z.row == h - 1 || z.col == w - 1) ==> K[z] == Bedrock)
  }

  /** Every reached cell is passable and costs between 1 and CostBound(|V|). */
  ghost predicate ReachedCosts(K: map<Coordinate, CellType>, C: map<Coordinate, int>, V: set<Coordinate>)
  {
    forall v :: v in V ==> v in K && IsPassable(K[v]) && v in C && 1 <= C[v] <= CostBound(|V|)
  }

  /** Every cell not reached keeps the cost `fill` gave it. */
  ghost predicate UnreachedCosts(C: map<Coordinate, int>, V: set<Coordinate>, h: int, w: int)
  {
    forall z :: z in C && z !in V ==> C[z] == FillCost(z, h, w)
  }

  /** v's cost is what some walk from the start to v costs. */
  ghost predicate AttainedAt(K: map<Coordinate, CellType>, C: map<Coordinate, int>, start: Coordinate, v: Coordinate)
  {
    v in C && exists q :: Walk(K, q) && q[0] == start && q[|q| - 1] == v && WalkCost(K, q) == C[v]
  }

  /** Every reached cell's cost is what some walk from the start to it costs. */
  ghost predicate Attained(K: map<Coordinate, CellType>, C: map<Coordinate, int>, V: set<Coordinate>, start: Coordinate)
  {
    forall v {:trigger AttainedAt(K, C, start, v)} :: v in V ==> AttainedAt(K, C, start, v)
  }

  /**
   * Relaxing n out of a reached cell u to u's cost plus n's weight keeps
   * every label attained: the walk that attains u's cost, extended by n,
   * attains n's.
   */
  lemma RelaxAttained(K: map<Coordinate, CellType>, C: map<Coordinate, int>, V: set<Coordinate>, start: Coordinate,
                      u: Coordinate, n: Coordinate)
    requires Attained(K, C, V, start) && u in V && u in C
    requires n in K && n in C && Adjacent(u, n) && IsPassable(K[n])
    ensures Attained(K, C[n := C[u] + Weight(K[n])], V + {n}, start)
  {
    var C2 := C[n := C[u] + Weight(K[n])];
    assert AttainedAt(K, C, start, u);
    var qu :| Walk(K, qu) && qu[0] == start && qu[|qu| - 1] == u && WalkCost(K, qu) == C[u];
    var qn := qu + [n];
    assert qn[..|qn| - 1] == qu;
    assert Walk(K, qn) && qn[0] == start && qn[|qn| - 1] == n && WalkCost(K, qn) == C2[n];
    forall v | v in V + {n} ensures AttainedAt(K, C2, start, v) {
      if v != n {
        assert AttainedAt(K, C, start, v);
        var q :| Walk(K, q) && q[0] == start && q[|q| - 1] == v && WalkCost(K, q) == C[v];
        assert WalkCost(K, q) == C2[v];
      }
    }
  }

  /** Every reached cell lies in every closed region around the start. */
  ghost predicate Confined(K: map<Coordinate, CellType>, V: set<Coordinate>, start: Coordinate)
  {
    forall S :: ClosedIn(K, S) && start in S ==> V <= S
  }

  /**
   * Direction d out of u is settled: a passable neighbour there is reached
   * and costs at most u's cost plus its own weight.
   */
  ghost predicate SettledDir(K: map<Coordinate, CellType>, C: map<Coordinate, int>, V: set<Coordinate>,
                             u: Coordinate, d: Direction)
  {
    var n := Step(u, d, 1);
    n in K && IsPassable(K[n]) ==> n in V && n in C && u in C && C[n] <= C[u] + Weight(K[n])
  }

  ghost predicate Settled(K: map<Coordinate, CellType>, C: map<Coordinate, int>, V: set<Coordinate>, u: Coordinate)
  {
    forall d: Direction :: SettledDir(K, C, V, u, d)
  }

  /** A cell settled in the four directions of `Direction.values()` is settled. */
  lemma SettledAllFour(K: map<Coordinate, CellType>, C: map<Coordinate, int>, V: set<Coordinate>, u: Coordinate)
    requires forall j :: 0 <= j < 4 ==> SettledDir(K, C, V, u, Directions[j])
    ensures Settled(K, C, V, u)
  {
    forall d: Direction ensures SettledDir(K, C, V, u, d) {
      assert d == Directions[DirectionIndex(d)];
    }
  }

  /** C2 is nowhere above C, over the same cells. */
  ghost predicate NoHigher(C2: map<Coordinate, int>, C: map<Coordinate, int>)
  {
    (forall z :: z in C2 <==> z in C) && forall z :: z in C2 ==> C2[z] <= C[z]
  }

  lemma SettledStable(K: map<Coordinate, CellType>, C: map<Coordinate, int>, V: set<Coordinate>,
                      C2: map<Coordinate, int>, V2: set<Coordinate>, u: Coordinate, d: Direction)
    requires NoHigher(C2, C) && V <= V2 && u in C && C2[u] == C[u]
    requires SettledDir(K, C, V, u, d)
    ensures SettledDir(K, C2, V2, u, d)
  {
  }

  /** The termination measure of relaxation: every pair (z, v) with v a non-negative number below z's cost. */
  ghost function Below(C: map<Coordinate, int>): set<(Coordinate, int)>
  {
    set z, v | z in C && 0 <= v < C[z] :: (z, v)
  }

  lemma BelowNoHigher(C: map<Coordinate, int>, C2: map<Coordinate, int>)
    requires NoHigher(C2, C)
    ensures Below(C2) <= Below(C)
  {
    forall p | p in Below(C2) ensures p in Below(C) {
      var (z, v) := p;
      assert z in C2 && 0 <= v < C2[z];
    }
  }

  /** Lowering one cost, and raising none, shrinks the measure. */
  lemma BelowShrinks(C: map<Coordinate, int>, C2: map<Coordinate, int>, z: Coordinate)
    requires NoHigher(C2, C) && z in C && 0 <= C2[z] < C[z]
    ensures Below(C2) < Below(C)
  {
    BelowNoHigher(C, C2);
    assert (z, C2[z]) in Below(C);
    assert (z, C2[z]) !in Below(C2);
  }

  /** At most 35 x 35 cells are ever reached, so no reached cost comes near MAX_VALUE. */
  lemma ReachedFew(K: map<Coordinate, CellType>, V: set<Coordinate>, h: int, w: int)
    requires 0 <= h <= MAX_HEIGHT && 0 <= w <= MAX_WIDTH
    requires forall z :: z in K <==> 0 <= z.row < h && 0 <= z.col < w
    requires forall v :: v in V ==> v in K
    ensures |V| <= MAX_HEIGHT * MAX_WIDTH
  {
    var all := Coords(h, w);
    assert V <= all;
    SubsetSize(V, all);
    CoordsSize(h, w);
    MulBound(h, w);
  }

  lemma SubsetSize(a: set<Coordinate>, b: set<Coordinate>)
    requires a <= b
    ensures |a| <= |b|
  {
    assert b == a + (b - a);
  }

  lemma MulBound(h: int, w: int)
    requires 0 <= h <= MAX_HEIGHT && 0 <= w <= MAX_WIDTH
    ensures h * w <= MAX_HEIGHT * MAX_WIDTH
  {
    assert h * w <= MAX_HEIGHT * w;
  }

  /** A reached cell's cost is a small positive number. */
  lemma ReachedCost(K: map<Coordinate, CellType>, C: map<Coordinate, int>, V: set<Coordinate>,
                    start: Coordinate, h: int, w: int, u: Coordinate)
    requires Labelled(K, C, V, start, h, w) && u in V
    ensures 1 <= C[u] && C[u] + 5 <= CostBound(|V| + 1) <= CostBound(MAX_HEIGHT * MAX_WIDTH + 1) < INT_MAX
  {
    ReachedFew(K, V, h, w);
  }

  /** After `fill`, relaxation starts from its invariant with only the start reached. */
  lemma Initially(K: map<Coordinate, CellType>, C: map<Coordinate, int>, start: Coordinate, h: int, w: int)
    requires 0 <= h <= MAX_HEIGHT && 0 <= w <= MAX_WIDTH
    requires forall z :: z in K <==> 0 <= z.row < h && 0 <= z.col < w
    requires forall z :: z in C <==> z in K
    requires forall z :: z in K && (z.row == 0 || z.col == 0 || z.row == h - 1 || z.col == w - 1) ==> K[z] == Bedrock
    requires start in K && IsPassable(K[start])
    requires forall z :: z in C ==> C[z] == if z == start then 1 else FillCost(z, h, w)
    ensures Labelled(K, C, {start}, start, h, w)
  {
    assert Walk(K, [start]) && WalkCost(K, [start]) == C[start];
  }

  /**
   * The two grids right after `init` and `fill`: a walled grid of at most
   * 35 x 35 cells whose entries carry their own positions, a passable start,
   * and the costs `fill` leaves.
   */
  ghost predicate Filled(grid: array2<Cell>, tempGrid: array2<int>, start: Coordinate)
    reads grid, tempGrid
  {
    tempGrid.Length0 == grid.Length0 && tempGrid.Length1 == grid.Length1 &&
    grid.Length0 <= MAX_HEIGHT && grid.Length1 <= MAX_WIDTH &&
    CoordinatesConsistent(grid) && BorderIsBedrock(grid) &&
    InGrid(grid, start) && IsPassable(At(grid, start)) &&
    forall y, x :: 0 <= y < grid.Length0 && 0 <= x < grid.Length1 ==>
      tempGrid[y, x] == if Coordinate(y, x) == start then 1 else FillCost(Coordinate(y, x), grid.Length0, grid.Length1)
  }

  /** Relaxation starts from its invariant, with only the start reached. */
  lemma FilledLabelled(grid: array2<Cell>, tempGrid: array2<int>, start: Coordinate)
    requires Filled(grid, tempGrid, start)
    ensures Relaxing(grid, tempGrid, {start}, start)
  {
    var K, C := KindsOf(grid), CostsOf(tempGrid);
    forall z | z in K && (z.row == 0 || z.col == 0 || z.row == grid.Length0 - 1 || z.col == grid.Length1 - 1)
      ensures K[z] == Bedrock
    {
      assert K[z] == grid[z.row, z.col].kind;
    }
    forall z | z in C ensures C[z] == if z == start then 1 else FillCost(z, grid.Length0, grid.Length1) {
      assert C[z] == tempGrid[z.row, z.col];
    }
    Initially(K, C, start, grid.Length0, grid.Length1);
  }

  /**
   * One relaxation step of `bfs` or `dfs`: n, the neighbour of a reached
   * cell u in direction d, passes `checkCellDirection`; its cost becomes
   * min(old, cost(u) + weight(n)) and it is marked reached.  The sum does not
   * overflow, the invariant is kept, n's cost strictly drops (to a
   * non-negative value), no cost rises, and direction d out of u is settled.
   */
  lemma RelaxStep(K: map<Coordinate, CellType>, C: map<Coordinate, int>, V: set<Coordinate>,
                  start: Coordinate, h: int, w: int, u: Coordinate, d: Direction)
    requires Labelled(K, C, V, start, h, w) && u in V
    requires Step(u, d, 1) in K && IsPassable(K[Step(u, d, 1)])
    requires Step(u, d, 1) !in V || C[Step(u, d, 1)] > C[u] + Weight(K[Step(u, d, 1)])
    ensures
      var n := Step(u, d, 1);
      var C2 := C[n := MinInt(C[n], C[u] + Weight(K[n]))];
      var V2 := V + {n};
      Labelled(K, C2, V2, start, h, w) && NoHigher(C2, C) && 0 <= C2[n] < C[n] &&
      SettledDir(K, C2, V2, u, d)
  {
    var n := Step(u, d, 1);
    StepIsAdjacent(u, d);
    RelaxAt(K, C, V, start, h, w, u, n);
  }

  /** `RelaxStep` for any passable neighbour n of u. */
  lemma RelaxAt(K: map<Coordinate, CellType>, C: map<Coordinate, int>, V: set<Coordinate>,
                start: Coordinate, h: int, w: int, u: Coordinate, n: Coordinate)
    requires Labelled(K, C, V, start, h, w) && u in V
    requires n in K && Adjacent(u, n) && IsPassable(K[n])
    requires n !in V || C[n] > C[u] + Weight(K[n])
    ensures
      var C2 := C[n := MinInt(C[n], C[u] + Weight(K[n]))];
      Labelled(K, C2, V + {n}, start, h, w) && NoHigher(C2, C) && 0 <= C2[n] < C[n] &&
      u in C2 && C2[n] <= C2[u] + Weight(K[n])
  {
    var C2 := C[n := MinInt(C[n], C[u] + Weight(K[n]))];
    var V2 := V + {n};
    assert u != n;
    RelaxReach(K, V, start, u, n);
    RelaxBounds(K, C, V, start, h, w, u, n);
    RelaxAttained(K, C, V, start, u, n);
    assert C2 == C[n := C[u] + Weight(K[n])];
    assert UnreachedCosts(C2, V2, h, w);
  }

  /** Reached cells stay inside every closed region around the start when a neighbour of one is reached. */
  lemma RelaxReach(K: map<Coordinate, CellType>, V: set<Coordinate>, start: Coordinate, u: Coordinate, n: Coordinate)
    requires Confined(K, V, start)
    requires u in V && n in K && Adjacent(u, n) && IsPassable(K[n])
    ensures Confined(K, V + {n}, start)
  {
    forall S | ClosedIn(K, S) && start in S ensures V + {n} <= S {
      assert u in S;
    }
  }

  /** The cost bounds of reached cells survive one relaxation. */
  lemma RelaxBounds(K: map<Coordinate, CellType>, C: map<Coordinate, int>, V: set<Coordinate>,
                    start: Coordinate, h: int, w: int, u: Coordinate, n: Coordinate)
    requires Labelled(K, C, V, start, h, w) && u in V
    requires n in K && IsPassable(K[n])
    requires n !in V || C[n] > C[u] + Weight(K[n])
    ensures
      var C2 := C[n := MinInt(C[n], C[u] + Weight(K[n]))];
      var V2 := V + {n};
      ReachedCosts(K, C2, V2) &&
      0 <= C2[n] < C[n] && C2[n] <= C[u] + Weight(K[n])
  {
    var C2 := C[n := MinInt(C[n], C[u] + Weight(K[n]))];
    var V2 := V + {n};
    ReachedCost(K, C, V, start, h, w, u);
    if n in V {
      assert V2 == V;
    } else {
      assert |V2| == |V| + 1;
      assert C[n] == FillCost(n, h, w);
      assert 1 <= n.row < h - 1 && 1 <= n.col < w - 1;
    }
    assert CostBound(|V|) <= CostBound(|V2|);
  }

  // ---------------------------------------------------------------------
  // fill and checkCellDirection

  /**
   * `fill`: every interior cost becomes MAX_VALUE, then the start's becomes
   * 1; the border keeps what it had.
   */
  method FillCostGrid(tempGrid: array2<int>, start: Coordinate)
    requires 0 <= start.row < tempGrid.Length0 && 0 <= start.col < tempGrid.Length1
    modifies tempGrid
    ensures forall y, x :: 0 <= y < tempGrid.Length0 && 0 <= x < tempGrid.Length1 ==>
      tempGrid[y, x] == if Coordinate(y, x) == start then 1
                        else if 1 <= y < tempGrid.Length0 - 1 && 1 <= x < tempGrid.Length1 - 1 then INT_MAX
                        else old(tempGrid[y, x])
  {
    var i := 1;
    while i < tempGrid.Length0 - 1
      invariant 1 <= i && (tempGrid.Length0 >= 2 ==> i <= tempGrid.Length0 - 1)
      invariant forall y, x :: 0 <= y < tempGrid.Length0 && 0 <= x < tempGrid.Length1 ==>
        tempGrid[y, x] == if 1 <= y < i && 1 <= x < tempGrid.Length1 - 1 then INT_MAX else old(tempGrid[y, x])
    {
      var j := 1;
      while j < tempGrid.Length1 - 1
        invariant 1 <= j && (tempGrid.Length1 >= 2 ==> j <= tempGrid.Length1 - 1)
        invariant forall y, x :: 0 <= y < tempGrid.Length0 && 0 <= x < tempGrid.Length1 ==>
          tempGrid[y, x] == if (1 <= y < i && 1 <= x < tempGrid.Length1 - 1) || (y == i && 1 <= x < j) then INT_MAX
                            else old(tempGrid[y, x])
      {
        tempGrid[i, j] := INT_MAX;
        j := j + 1;
      }
      i := i + 1;
    }
    tempGrid[start.row, start.col] := 1;
  }

  /**
   * `checkCellDirection`: the neighbour of point in the given direction is
   * NORMAL, ICE or SAND and is either not yet visited or would be reached
   * more cheaply through point (Java's 32-bit sum).
   */
  predicate CheckCellDirection(grid: array2<Cell>, tempGrid: array2<int>, visited: set<Coordinate>,
                               point: Coordinate, direction: Direction)
    requires tempGrid.Length0 == grid.Length0 && tempGrid.Length1 == grid.Length1
    requires CoordinatesConsistent(grid) && InGrid(grid, point) && InGrid(grid, Step(point, direction, 1))
    requires IsInt32(tempGrid[point.row, point.col])
    reads grid, tempGrid
  {
    var cell := grid[CalculateCoordinate(point, direction, 1, true), CalculateCoordinate(point, direction, 1, false)];
    IsPassable(cell.kind) &&
    (cell.coordinate !in visited ||
     tempGrid[cell.coordinate.row, cell.coordinate.col] > Add32(tempGrid[point.row, point.col], Weight(cell.kind)))
  }

  /** `checkCellDirection` on the value view of the grids. */
  lemma CheckMeans(grid: array2<Cell>, tempGrid: array2<int>, visited: set<Coordinate>,
                   point: Coordinate, direction: Direction)
    requires tempGrid.Length0 == grid.Length0 && tempGrid.Length1 == grid.Length1
    requires CoordinatesConsistent(grid) && InGrid(grid, point) && InGrid(grid, Step(point, direction, 1))
    requires IsInt32(tempGrid[point.row, point.col])
    ensures
      var K, C, n := KindsOf(grid), CostsOf(tempGrid), Step(point, direction, 1);
      n in K && n in C && point in C &&
      (CheckCellDirection(grid, tempGrid, visited, point, direction) <==>
        IsPassable(K[n]) && (n !in visited || C[n] > Add32(C[point], Weight(K[n]))))
  {
  }

  /** The two grids of a solver in the middle of relaxation, with `visited` the reached cells. */
  ghost predicate Relaxing(grid: array2<Cell>, tempGrid: array2<int>, visited: set<Coordinate>, start: Coordinate)
    reads grid, tempGrid
  {
    tempGrid.Length0 == grid.Length0 && tempGrid.Length1 == grid.Length1 &&
    CoordinatesConsistent(grid) &&
    Labelled(KindsOf(grid), CostsOf(tempGrid), visited, start, grid.Length0, grid.Length1)
  }

  /** A reached cell is interior, so each of its neighbours is in the grid. */
  lemma ReachedInterior(grid: array2<Cell>, tempGrid: array2<int>, visited: set<Coordinate>, start: Coordinate,
                        u: Coordinate, d: Direction)
    requires Relaxing(grid, tempGrid, visited, start) && u in visited
    ensures Interior(grid, u) && InGrid(grid, Step(u, d, 1)) && IsInt32(tempGrid[u.row, u.col])
  {
    var K := KindsOf(grid);
    ReachedCost(K, CostsOf(tempGrid), visited, start, grid.Length0, grid.Length1, u);
    assert IsPassable(K[u]);
  }

  /**
   * What `bfs` and `dfs` do for one direction out of a reached cell: when
   * `checkCellDirection` holds, the neighbour's cost becomes the smaller of
   * its own and the current cost plus the neighbour's weight (a 32-bit sum,
   * which never wraps here).  Relaxing keeps the invariant once the
   * neighbour counts as reached, lowers its cost and no other, and shrinks
   * the termination measure; either way the direction ends up settled.
   */
  method RelaxDirection(grid: array2<Cell>, tempGrid: array2<int>, visited: set<Coordinate>,
                        current: Coordinate, direction: Direction,
                        ghost K: map<Coordinate, CellType>, ghost C: map<Coordinate, int>, ghost start: Coordinate)
    returns (relaxed: bool, n: Coordinate, ghost C2: map<Coordinate, int>)
    requires tempGrid.Length0 == grid.Length0 && tempGrid.Length1 == grid.Length1 && CoordinatesConsistent(grid)
    requires K == KindsOf(grid) && C == CostsOf(tempGrid)
    requires Labelled(K, C, visited, start, grid.Length0, grid.Length1) && current in visited
    modifies tempGrid
    ensures CostsOf(tempGrid) == C2
    ensures n == Step(current, direction, 1) && InGrid(grid, n) && n in K
    ensures relaxed <==> IsPassable(K[n]) && (n !in visited || C[n] > C[current] + Weight(K[n]))
    ensures relaxed ==>
      C2 == C[n := MinInt(C[n], C[current] + Weight(K[n]))] &&
      Labelled(K, C2, visited + {n}, start, grid.Length0, grid.Length1) &&
      NoHigher(C2, C) && Below(C2) < Below(C) && SettledDir(K, C2, visited + {n}, current, direction)
    ensures !relaxed ==> C2 == C && SettledDir(K, C, visited, current, direction)
  {
    assert Relaxing(grid, tempGrid, visited, start);
    CheckRelaxes(grid, tempGrid, visited, start, current, direction);
    relaxed := CheckCellDirection(grid, tempGrid, visited, current, direction);
    var row := CalculateCoordinate(current, direction, 1, true);
    var col := CalculateCoordinate(current, direction, 1, false);
    n := Coordinate(row, col);
    if relaxed {
      var v := MinInt(tempGrid[row, col], Add32(tempGrid[current.row, current.col], Weight(grid[row, col].kind)));
      assert v == MinInt(C[n], C[current] + Weight(K[n]));
      tempGrid[row, col] := v;
      C2 := C[n := v];
      CostsWrite(grid, tempGrid, C, n, v);
      AfterRelax(K, C, C2, visited, start, grid.Length0, grid.Length1, current, direction, n);
    } else {
      C2 := C;
    }
  }

  /** The state after a relaxation, as `RelaxDirection` promises it. */
  lemma AfterRelax(K: map<Coordinate, CellType>, C: map<Coordinate, int>, C2: map<Coordinate, int>,
                   visited: set<Coordinate>, start: Coordinate, h: int, w: int,
                   u: Coordinate, d: Direction, n: Coordinate)
    requires Labelled(K, C, visited, start, h, w) && u in visited
    requires n == Step(u, d, 1) && n in K && IsPassable(K[n])
    requires n !in visited || C[n] > C[u] + Weight(K[n])
    requires C2 == C[n := MinInt(C[n], C[u] + Weight(K[n]))]
    ensures Labelled(K, C2, visited + {n}, start, h, w)
    ensures NoHigher(C2, C) && Below(C2) < Below(C)
    ensures SettledDir(K, C2, visited + {n}, u, d)
  {
    assert NoHigher(C2, C) && 0 <= C2[n] < C[n] by {
      RelaxStep(K, C, visited, start, h, w, u, d);
    }
    BelowShrinks(C, C2, n);
    RelaxStep(K, C, visited, start, h, w, u, d);
  }

  /**
   * `checkCellDirection` out of a reached cell u on the value view: the sum
   * does not wrap, the check holds exactly when relaxation may proceed, and
   * when it fails the direction is already settled.
   */
  lemma CheckRelaxes(grid: array2<Cell>, tempGrid: array2<int>, visited: set<Coordinate>, start: Coordinate,
                     u: Coordinate, d: Direction)
    requires Relaxing(grid, tempGrid, visited, start) && u in visited
    ensures
      var K, C, n := KindsOf(grid), CostsOf(tempGrid), Step(u, d, 1);
      InGrid(grid, n) && Interior(grid, u) && n in K && K[n] == grid[n.row, n.col].kind &&
      C[n] == tempGrid[n.row, n.col] && C[u] == tempGrid[u.row, u.col] &&
      IsInt32(C[u]) &&
      (IsPassable(K[n]) ==> IsInt32(C[u] + Weight(K[n])) && Add32(C[u], Weight(K[n])) == C[u] + Weight(K[n])) &&
      (CheckCellDirection(grid, tempGrid, visited, u, d) <==>
        IsPassable(K[n]) && (n !in visited || C[n] > C[u] + Weight(K[n]))) &&
      (!CheckCellDirection(grid, tempGrid, visited, u, d) ==> SettledDir(K, C, visited, u, d))
  {
    var K, C, n := KindsOf(grid), CostsOf(tempGrid), Step(u, d, 1);
    ReachedInterior(grid, tempGrid, visited, start, u, d);
    ReachedCost(K, C, visited, start, grid.Length0, grid.Length1, u);
    CheckMeans(grid, tempGrid, visited, u, d);
    if IsPassable(K[n]) {
      PassableWeights(K[n]);
    }
  }

  /** The value view of the cost grid after one write. */
  lemma CostsWrite(grid: array2<Cell>, tempGrid: array2<int>, C: map<Coordinate, int>, n: Coordinate, v: int)
    requires InGrid(grid, n) && tempGrid.Length0 == grid.Length0 && tempGrid.Length1 == grid.Length1
    requires forall z :: z in C <==> InGrid(grid, z)
    requires tempGrid[n.row, n.col] == v
    requires forall z :: InGrid(grid, z) && z != n ==> z in C && tempGrid[z.row, z.col] == C[z]
    ensures CostsOf(tempGrid) == C[n := v]
  {
  }

  // ---------------------------------------------------------------------
  // What relaxation leaves once every reached cell is settled

  /** Once every reached cell is settled, nothing passable leads out of the reached cells. */
  lemma SettledClosed(K: map<Coordinate, CellType>, C: map<Coordinate, int>, V: set<Coordinate>,
                      start: Coordinate, h: int, w: int)
    requires Labelled(K, C, V, start, h, w) && forall u :: u in V ==> Settled(K, C, V, u)
    ensures ClosedIn(K, V)
    ensures forall S :: ClosedIn(K, S) && start in S ==> V <= S
  {
    forall c, n | c in V && n in K && Adjacent(c, n) && IsPassable(K[n]) ensures n in V {
      assert SettledDir(K, C, V, c, Toward(c, n));
    }
  }

  /**
   * Relaxation that leaves every reached cell settled: the grids are ready
   * for the descent, the reached cells are exactly the cells connected to
   * the start, every label is the cost of a cheapest walk from the start
   * (no walk costs less, and some walk costs exactly that), every reached
   * cell is the top of an ascent from the start, and a passable cell not
   * reached still costs MAX_VALUE.
   */
  lemma Explored(grid: array2<Cell>, tempGrid: array2<int>, V: set<Coordinate>, start: Coordinate)
    requires Relaxing(grid, tempGrid, V, start)
    requires forall u :: u in V ==> Settled(KindsOf(grid), CostsOf(tempGrid), V, u)
    ensures SearchReady(grid, tempGrid)
    ensures start in V && ClosedIn(KindsOf(grid), V)
    ensures forall S :: ClosedIn(KindsOf(grid), S) && start in S ==> V <= S
    ensures forall p :: Walk(KindsOf(grid), p) && p[0] == start ==>
      p[|p| - 1] in V && CostsOf(tempGrid)[p[|p| - 1]] <= WalkCost(KindsOf(grid), p)
    ensures Attained(KindsOf(grid), CostsOf(tempGrid), V, start)
    ensures forall v :: v in V ==> AscendsTo(KindsOf(grid), CostsOf(tempGrid), start, v)
    ensures forall z :: InGrid(grid, z) && IsPassable(At(grid, z)) && z !in V ==> tempGrid[z.row, z.col] == INT_MAX
  {
    var K, C := KindsOf(grid), CostsOf(tempGrid);
    SettledClosed(K, C, V, start, grid.Length0, grid.Length1);
    WalksCostAtLeast(K, C, V, start, grid.Length0, grid.Length1);
    ReachedAscents(K, C, V, start, grid.Length0, grid.Length1);
    LabelledReady(grid, tempGrid, V, start);
    UnreachedMax(grid, tempGrid, V, start);
  }

  /** Once every reached cell is settled, no walk from the start costs less than its last cell's label. */
  lemma WalksCostAtLeast(K: map<Coordinate, CellType>, C: map<Coordinate, int>, V: set<Coordinate>,
                         start: Coordinate, h: int, w: int)
    requires Labelled(K, C, V, start, h, w) && forall u :: u in V ==> Settled(K, C, V, u)
    ensures forall p :: Walk(K, p) && p[0] == start ==> p[|p| - 1] in V && C[p[|p| - 1]] <= WalkCost(K, p)
  {
    forall p | Walk(K, p) && p[0] == start ensures p[|p| - 1] in V && C[p[|p| - 1]] <= WalkCost(K, p) {
      CostAtMostWalk(K, C, V, start, h, w, p);
    }
  }

  /** A passable cell that relaxation never reached keeps the MAX_VALUE `fill` gave it. */
  lemma UnreachedMax(grid: array2<Cell>, tempGrid: array2<int>, V: set<Coordinate>, start: Coordinate)
    requires Relaxing(grid, tempGrid, V, start)
    ensures forall z :: InGrid(grid, z) && IsPassable(At(grid, z)) && z !in V ==> tempGrid[z.row, z.col] == INT_MAX
  {
    var K, C := KindsOf(grid), CostsOf(tempGrid);
    forall z | InGrid(grid, z) && IsPassable(At(grid, z)) && z !in V ensures tempGrid[z.row, z.col] == INT_MAX {
      assert K[z] == At(grid, z) && C[z] == tempGrid[z.row, z.col];
    }
  }

  /** What a walk costs under the solvers' rule: 1 for its first cell, then each further cell's weight. */
  ghost function WalkCost(K: map<Coordinate, CellType>, p: seq<Coordinate>): int
    requires forall i :: 0 <= i < |p| ==> p[i] in K
  {
    if |p| <= 1 then 1 else WalkCost(K, p[..|p| - 1]) + Weight(K[p[|p| - 1]])
  }

  /**
   * Once every reached cell is settled, every walk from the start ends at a
   * reached cell whose cost is at most the walk's cost.
   */
  lemma {:induction false} CostAtMostWalk(K: map<Coordinate, CellType>, C: map<Coordinate, int>, V: set<Coordinate>,
                                          start: Coordinate, h: int, w: int, p: seq<Coordinate>)
    requires Labelled(K, C, V, start, h, w) && forall u :: u in V ==> Settled(K, C, V, u)
    requires Walk(K, p) && p[0] == start
    ensures p[|p| - 1] in V && C[p[|p| - 1]] <= WalkCost(K, p)
  {
    if |p| > 1 {
      var q := p[..|p| - 1];
      assert Walk(K, q);
      CostAtMostWalk(K, C, V, start, h, w, q);
      var a, b := p[|p| - 2], p[|p| - 1];
      assert a == q[|q| - 1];
      assert SettledDir(K, C, V, a, Toward(a, b));
    }
  }

  /**
   * An ascent: a walk over passable cells whose costs are all below
   * MAX_VALUE and never fall.  Read backwards it is a descent the greedy
   * search of `searchPath` may take.
   */
  ghost predicate Ascent(K: map<Coordinate, CellType>, C: map<Coordinate, int>, p: seq<Coordinate>)
  {
    Walk(K, p) && (forall i :: 0 <= i < |p| ==> p[i] in C && C[p[i]] < INT_MAX) &&
    forall i :: 0 <= i < |p| - 1 ==> C[p[i]] <= C[p[i + 1]]
  }

  /**
   * Once every reached cell is settled, a walk from the start that costs
   * exactly its last cell's label is an ascent: each of its prefixes costs
   * exactly its own last cell's label, and weights are never negative.
   */
  lemma {:induction false} CheapestAscends(K: map<Coordinate, CellType>, C: map<Coordinate, int>, V: set<Coordinate>,
                                           start: Coordinate, h: int, w: int, q: seq<Coordinate>)
    requires Labelled(K, C, V, start, h, w) && forall u :: u in V ==> Settled(K, C, V, u)
    requires Walk(K, q) && q[0] == start && q[|q| - 1] in V && WalkCost(K, q) == C[q[|q| - 1]]
    ensures Ascent(K, C, q)
  {
    var v := q[|q| - 1];
    ReachedCost(K, C, V, start, h, w, v);
    if |q| > 1 {
      var q' := q[..|q| - 1];
      var u := q[|q| - 2];
      assert Walk(K, q') && q'[|q'| - 1] == u;
      CostAtMostWalk(K, C, V, start, h, w, q');
      assert SettledDir(K, C, V, u, Toward(u, v));
      PassableWeights(K[v]);
      CheapestAscends(K, C, V, start, h, w, q');
      assert forall i :: 0 <= i < |q'| ==> q[i] == q'[i];
    }
  }

  /** Some ascent leads from the start up to v. */
  ghost predicate AscendsTo(K: map<Coordinate, CellType>, C: map<Coordinate, int>, start: Coordinate, v: Coordinate)
  {
    exists p :: Ascent(K, C, p) && p[0] == start && p[|p| - 1] == v
  }

  /** Once every reached cell is settled, each reached cell tops an ascent from the start. */
  lemma ReachedAscents(K: map<Coordinate, CellType>, C: map<Coordinate, int>, V: set<Coordinate>,
                       start: Coordinate, h: int, w: int)
    requires Labelled(K, C, V, start, h, w) && forall u :: u in V ==> Settled(K, C, V, u)
    ensures forall v :: v in V ==> AscendsTo(K, C, start, v)
  {
    forall v | v in V ensures AscendsTo(K, C, start, v) {
      assert AttainedAt(K, C, start, v);
      var q :| Walk(K, q) && q[0] == start && q[|q| - 1] == v && WalkCost(K, q) == C[v];
      CheapestAscends(K, C, V, start, h, w, q);
    }
  }

  // ---------------------------------------------------------------------
  // selectMinCellCoordinate

  /** `checkCoordinatesInBounds` (and DFSSolver's `checkIndexes`): against the configured maximum size, not the grid's. */
  predicate InMaxBounds(row: int, col: int)
  {
    0 <= row < MAX_HEIGHT && 0 <= col < MAX_WIDTH
  }

  /** What the descent needs of a relaxed cost grid. */
  ghost predicate SearchReady(grid: array2<Cell>, tempGrid: array2<int>)
    reads grid, tempGrid
  {
    tempGrid.Length0 == grid.Length0 && tempGrid.Length1 == grid.Length1 &&
    grid.Length0 <= MAX_HEIGHT && grid.Length1 <= MAX_WIDTH &&
    CoordinatesConsistent(grid) && BorderIsBedrock(grid) &&
    forall y, x :: 0 <= y < grid.Length0 && 0 <= x < grid.Length1 ==>
      IsInt32(tempGrid[y, x]) &&
      (1 <= y < grid.Length0 - 1 && 1 <= x < grid.Length1 - 1 && tempGrid[y, x] < INT_MAX ==>
        IsPassable(grid[y, x].kind))
  }

  /** The relaxation invariant leaves the grids ready for the descent. */
  lemma LabelledReady(grid: array2<Cell>, tempGrid: array2<int>, V: set<Coordinate>, start: Coordinate)
    requires tempGrid.Length0 == grid.Length0 && tempGrid.Length1 == grid.Length1
    requires CoordinatesConsistent(grid)
    requires Labelled(KindsOf(grid), CostsOf(tempGrid), V, start, grid.Length0, grid.Length1)
    ensures SearchReady(grid, tempGrid)
  {
    var K, C := KindsOf(grid), CostsOf(tempGrid);
    ReachedFew(K, V, grid.Length0, grid.Length1);
    forall y, x | 0 <= y < grid.Length0 && 0 <= x < grid.Length1
      ensures IsInt32(tempGrid[y, x])
      ensures 1 <= y < grid.Length0 - 1 && 1 <= x < grid.Length1 - 1 && tempGrid[y, x] < INT_MAX ==>
        IsPassable(grid[y, x].kind)
    {
      var z := Coordinate(y, x);
      assert C[z] == tempGrid[y, x] && K[z] == grid[y, x].kind;
    }
    forall y, x | 0 <= y < grid.Length0 && 0 <= x < grid.Length1 &&
      (y == 0 || x == 0 || y == grid.Length0 - 1 || x == grid.Length1 - 1)
      ensures grid[y, x].kind == Bedrock
    {
      assert K[Coordinate(y, x)] == grid[y, x].kind;
    }
  }

  /**
   * `ifCellSuitable`: the cell n may replace the running choice.  It is
   * within the maximum bounds, not on `list`, cheaper than the choice's cost
   * plus one (Java's 32-bit sum), not BEDROCK, and not restricted.
   */
  predicate IfCellSuitable(grid: array2<Cell>, tempGrid: array2<int>, list: seq<Coordinate>,
                           restricted: set<Coordinate>, n: Coordinate, choice: Coordinate)
    requires tempGrid.Length0 == grid.Length0 && tempGrid.Length1 == grid.Length1
    requires InMaxBounds(n.row, n.col) ==> InGrid(grid, n)
    requires InGrid(grid, choice) && IsInt32(tempGrid[choice.row, choice.col])
    reads grid, tempGrid
  {
    InMaxBounds(n.row, n.col) &&
    grid[n.row, n.col].coordinate !in list &&
    tempGrid[n.row, n.col] < Add32(tempGrid[choice.row, choice.col], 1) &&
    grid[n.row, n.col].kind != Bedrock &&
    grid[n.row, n.col].coordinate !in restricted
  }

  /** A neighbour the descent may consider at all: in bounds, not BEDROCK, not on `list`, not restricted. */
  ghost predicate Eligible(grid: array2<Cell>, list: seq<Coordinate>, restricted: set<Coordinate>, n: Coordinate)
    requires InGrid(grid, n)
    reads grid
  {
    InMaxBounds(n.row, n.col) && n !in list && grid[n.row, n.col].kind != Bedrock && n !in restricted
  }

  /** A neighbour n the descent may step to from point: eligible and no dearer than point, whose cost is not MAX_VALUE. */
  ghost predicate Cheaper(grid: array2<Cell>, tempGrid: array2<int>, list: seq<Coordinate>,
                          restricted: set<Coordinate>, point: Coordinate, n: Coordinate)
    requires SearchReady(grid, tempGrid) && InGrid(grid, point) && InGrid(grid, n)
    reads grid, tempGrid
  {
    Eligible(grid, list, restricted, n) &&
    tempGrid[point.row, point.col] < INT_MAX && tempGrid[n.row, n.col] <= tempGrid[point.row, point.col]
  }

  /**
   * Because `cost + 1` is a 32-bit sum, MAX_VALUE + 1 wraps to MIN_VALUE: a
   * choice whose cost is MAX_VALUE admits no candidate, any other admits
   * exactly the eligible cells no dearer than itself.
   */
  lemma SuitableMeans(grid: array2<Cell>, tempGrid: array2<int>, list: seq<Coordinate>,
                      restricted: set<Coordinate>, n: Coordinate, choice: Coordinate)
    requires SearchReady(grid, tempGrid) && InGrid(grid, n) && InGrid(grid, choice)
    ensures IfCellSuitable(grid, tempGrid, list, restricted, n, choice) <==>
      Eligible(grid, list, restricted, n) &&
      tempGrid[choice.row, choice.col] < INT_MAX && tempGrid[n.row, n.col] <= tempGrid[choice.row, choice.col]
  {
    assert grid[n.row, n.col].coordinate == n;
    BelowSuccessor(tempGrid[n.row, n.col], tempGrid[choice.row, choice.col]);
  }

  /** The running choice of `selectMinCellCoordinate` after the first i directions. */
  ghost function ChoiceAfter(grid: array2<Cell>, tempGrid: array2<int>, list: seq<Coordinate>,
                             restricted: set<Coordinate>, point: Coordinate, i: nat): (r: Coordinate)
    requires SearchReady(grid, tempGrid) && Interior(grid, point) && i <= 4
    reads grid, tempGrid
    ensures InGrid(grid, r)
  {
    if i == 0 then point
    else
      var c := ChoiceAfter(grid, tempGrid, list, restricted, point, i - 1);
      var n := Nb(point, i - 1);
      if IfCellSuitable(grid, tempGrid, list, restricted, n, c) then n else c
  }

  /** The neighbour of point in the j-th direction of UP, RIGHT, DOWN, LEFT. */
  function Nb(point: Coordinate, j: int): (r: Coordinate)
    requires 0 <= j < 4
    ensures point.row - 1 <= r.row <= point.row + 1 && point.col - 1 <= r.col <= point.col + 1
    ensures Adjacent(point, r) && r == Step(point, Directions[j], 1)
  {
    if j == 0 then Coordinate(point.row - 1, point.col)
    else if j == 1 then Coordinate(point.row, point.col + 1)
    else if j == 2 then Coordinate(point.row + 1, point.col)
    else Coordinate(point.row, point.col - 1)
  }

  /** Distinct directions lead to distinct neighbours. */
  lemma NbDistinct(point: Coordinate, j: int, k: int)
    requires 0 <= j < 4 && 0 <= k < 4 && j != k
    ensures Nb(point, j) != Nb(point, k)
  {
  }

  /**
   * The choice is the point itself exactly when no neighbour is cheaper;
   * otherwise it is a cheaper neighbour of least cost, and no later
   * neighbour in the order UP, RIGHT, DOWN, LEFT is eligible and as cheap.
   */
  ghost predicate IsMinChoice(grid: array2<Cell>, tempGrid: array2<int>, list: seq<Coordinate>,
                              restricted: set<Coordinate>, point: Coordinate, r: Coordinate)
    requires SearchReady(grid, tempGrid) && Interior(grid, point) && InGrid(grid, r)
    reads grid, tempGrid
  {
    (r == point <==> forall j :: 0 <= j < 4 ==> !Cheaper(grid, tempGrid, list, restricted, point, Nb(point, j))) &&
    (r != point ==>
      Cheaper(grid, tempGrid, list, restricted, point, r) &&
      (forall j :: 0 <= j < 4 && Cheaper(grid, tempGrid, list, restricted, point, Nb(point, j)) ==>
        tempGrid[r.row, r.col] <= tempGrid[Nb(point, j).row, Nb(point, j).col]) &&
      exists k :: 0 <= k < 4 && r == Nb(point, k) &&
        forall j :: k < j < 4 ==>
          !(Eligible(grid, list, restricted, Nb(point, j)) &&
            tempGrid[Nb(point, j).row, Nb(point, j).col] <= tempGrid[r.row, r.col]))
  }

  /** What the scan of the first i directions has established about its running choice c. */
  ghost predicate ScannedUpTo(grid: array2<Cell>, tempGrid: array2<int>, list: seq<Coordinate>,
                              restricted: set<Coordinate>, point: Coordinate, i: int, c: Coordinate)
    requires SearchReady(grid, tempGrid) && Interior(grid, point) && 0 <= i <= 4 && InGrid(grid, c)
    reads grid, tempGrid
  {
    (c != point ==>
      Cheaper(grid, tempGrid, list, restricted, point, c) &&
      exists k :: 0 <= k < i && c == Nb(point, k) &&
        forall j :: k < j < i ==>
          !(Eligible(grid, list, restricted, Nb(point, j)) &&
            tempGrid[Nb(point, j).row, Nb(point, j).col] <= tempGrid[c.row, c.col])) &&
    (forall j :: 0 <= j < i && Cheaper(grid, tempGrid, list, restricted, point, Nb(point, j)) ==>
      c != point && tempGrid[c.row, c.col] <= tempGrid[Nb(point, j).row, Nb(point, j).col])
  }

  lemma ScanStep(grid: array2<Cell>, tempGrid: array2<int>, list: seq<Coordinate>,
                 restricted: set<Coordinate>, point: Coordinate, i: int)
    requires SearchReady(grid, tempGrid) && Interior(grid, point) && 1 <= i <= 4
    requires ScannedUpTo(grid, tempGrid, list, restricted, point, i - 1,
                         ChoiceAfter(grid, tempGrid, list, restricted, point, i - 1))
    ensures ScannedUpTo(grid, tempGrid, list, restricted, point, i,
                        ChoiceAfter(grid, tempGrid, list, restricted, point, i))
  {
    var c := ChoiceAfter(grid, tempGrid, list, restricted, point, i - 1);
    var n := Nb(point, i - 1);
    if IfCellSuitable(grid, tempGrid, list, restricted, n, c) {
      ScanTake(grid, tempGrid, list, restricted, point, i, c);
    } else {
      ScanSkip(grid, tempGrid, list, restricted, point, i, c);
    }
  }

  /** The i-th neighbour replaces the running choice c. */
  lemma ScanTake(grid: array2<Cell>, tempGrid: array2<int>, list: seq<Coordinate>,
                 restricted: set<Coordinate>, point: Coordinate, i: int, c: Coordinate)
    requires SearchReady(grid, tempGrid) && Interior(grid, point) && 1 <= i <= 4 && InGrid(grid, c)
    requires ScannedUpTo(grid, tempGrid, list, restricted, point, i - 1, c)
    requires IfCellSuitable(grid, tempGrid, list, restricted, Nb(point, i - 1), c)
    ensures ScannedUpTo(grid, tempGrid, list, restricted, point, i, Nb(point, i - 1))
  {
    var n := Nb(point, i - 1);
    SuitableMeans(grid, tempGrid, list, restricted, n, c);
    assert Cheaper(grid, tempGrid, list, restricted, point, n);
  }

  /** The i-th neighbour does not replace the running choice c. */
  lemma ScanSkip(grid: array2<Cell>, tempGrid: array2<int>, list: seq<Coordinate>,
                 restricted: set<Coordinate>, point: Coordinate, i: int, c: Coordinate)
    requires SearchReady(grid, tempGrid) && Interior(grid, point) && 1 <= i <= 4 && InGrid(grid, c)
    requires ScannedUpTo(grid, tempGrid, list, restricted, point, i - 1, c)
    requires !IfCellSuitable(grid, tempGrid, list, restricted, Nb(point, i - 1), c)
    ensures ScannedUpTo(grid, tempGrid, list, restricted, point, i, c)
  {
    var n := Nb(point, i - 1);
    SuitableMeans(grid, tempGrid, list, restricted, n, c);
    SuitableMeans(grid, tempGrid, list, restricted, n, point);
    if c != point {
      var k :| 0 <= k < i - 1 && c == Nb(point, k) &&
        forall j :: k < j < i - 1 ==>
          !(Eligible(grid, list, restricted, Nb(point, j)) &&
            tempGrid[Nb(point, j).row, Nb(point, j).col] <= tempGrid[c.row, c.col]);
      assert 0 <= k < i && c == Nb(point, k) &&
        forall j :: k < j < i ==>
          !(Eligible(grid, list, restricted, Nb(point, j)) &&
            tempGrid[Nb(point, j).row, Nb(point, j).col] <= tempGrid[c.row, c.col]);
    }
    forall j | 0 <= j < i && Cheaper(grid, tempGrid, list, restricted, point, Nb(point, j))
      ensures c != point && tempGrid[c.row, c.col] <= tempGrid[Nb(point, j).row, Nb(point, j).col]
    {
      if j == i - 1 {
        assert c != point;
      }
    }
  }

  lemma {:induction false} ScanPrefix(grid: array2<Cell>, tempGrid: array2<int>, list: seq<Coordinate>,
                                      restricted: set<Coordinate>, point: Coordinate, i: int)
    requires SearchReady(grid, tempGrid) && Interior(grid, point) && 0 <= i <= 4
    ensures ScannedUpTo(grid, tempGrid, list, restricted, point, i,
                        ChoiceAfter(grid, tempGrid, list, restricted, point, i))
  {
    if i > 0 {
      ScanPrefix(grid, tempGrid, list, restricted, point, i - 1);
      ScanStep(grid, tempGrid, list, restricted, point, i);
    }
  }

  /** The full scan makes the least-cost choice. */
  lemma ChoiceIsMin(grid: array2<Cell>, tempGrid: array2<int>, list: seq<Coordinate>,
                    restricted: set<Coordinate>, point: Coordinate)
    requires SearchReady(grid, tempGrid) && Interior(grid, point)
    ensures IsMinChoice(grid, tempGrid, list, restricted, point, ChoiceAfter(grid, tempGrid, list, restricted, point, 4))
  {
    ScanPrefix(grid, tempGrid, list, restricted, point, 4);
  }

  /**
   * `selectMinCellCoordinate`: scan the four directions in declaration
   * order, letting each suitable neighbour replace the running choice.
   */
  method SelectMinCellCoordinate(grid: array2<Cell>, tempGrid: array2<int>, list: seq<Coordinate>,
                                 restricted: set<Coordinate>, point: Coordinate) returns (r: Coordinate)
    requires SearchReady(grid, tempGrid) && Interior(grid, point)
    ensures r == ChoiceAfter(grid, tempGrid, list, restricted, point, 4)
  {
    var cell := grid[point.row, point.col];
    for i := 0 to 4
      invariant cell.coordinate == ChoiceAfter(grid, tempGrid, list, restricted, point, i)
      invariant cell == grid[cell.coordinate.row, cell.coordinate.col]
    {
      cell := ScanDirection(grid, tempGrid, list, restricted, point, i, cell);
    }
    r := cell.coordinate;
  }

  /** One direction of the scan: a suitable neighbour replaces the running choice. */
  method ScanDirection(grid: array2<Cell>, tempGrid: array2<int>, list: seq<Coordinate>,
                       restricted: set<Coordinate>, point: Coordinate, i: int, cell: Cell) returns (cell2: Cell)
    requires SearchReady(grid, tempGrid) && Interior(grid, point) && 0 <= i < 4
    requires cell.coordinate == ChoiceAfter(grid, tempGrid, list, restricted, point, i)
    requires cell == grid[cell.coordinate.row, cell.coordinate.col]
    ensures cell2.coordinate == ChoiceAfter(grid, tempGrid, list, restricted, point, i + 1)
    ensures cell2 == grid[cell2.coordinate.row, cell2.coordinate.col]
  {
    var direction := Directions[i];
    var row := CalculateCoordinate(point, direction, 1, true);
    var col := CalculateCoordinate(point, direction, 1, false);
    assert Coordinate(row, col) == Nb(point, i);
    cell2 := cell;
    if IfCellSuitable(grid, tempGrid, list, restricted, Coordinate(row, col), cell.coordinate) {
      cell2 := grid[row, col];
    }
  }

  // ---------------------------------------------------------------------
  // searchPath

  /** The loop of `searchPath` goes on: the tail is not the start and can either advance or back up. */
  ghost predicate GoOn(grid: array2<Cell>, tempGrid: array2<int>, list: seq<Coordinate>,
                       restricted: set<Coordinate>, newPoint: Coordinate, start: Coordinate)
    requires SearchReady(grid, tempGrid) && Interior(grid, newPoint)
    reads grid, tempGrid
  {
    newPoint != start &&
    (newPoint != ChoiceAfter(grid, tempGrid, list, restricted, newPoint, 4) || |list| > 1)
  }

  /** `checkIfPossibleToFindPath`: go on while the tail is not the start and can either advance or back up. */
  method CheckIfPossibleToFindPath(grid: array2<Cell>, tempGrid: array2<int>, list: seq<Coordinate>,
                                   restricted: set<Coordinate>, newPoint: Coordinate, start: Coordinate)
    returns (b: bool)
    requires SearchReady(grid, tempGrid) && Interior(grid, newPoint)
    ensures b <==> GoOn(grid, tempGrid, list, restricted, newPoint, start)
  {
    if newPoint != start {
      var m := SelectMinCellCoordinate(grid, tempGrid, list, restricted, newPoint);
      if newPoint == m && |list| > 1 {
        return true;
      } else {
        var m2 := SelectMinCellCoordinate(grid, tempGrid, list, restricted, newPoint);
        return newPoint != m2 || |list| > 1;
      }
    }
    return false;
  }

  /** Java's `Collections.reverse`, on values. */
  function Reverse<T>(s: seq<T>): (r: seq<T>)
    ensures |r| == |s| && forall i :: 0 <= i < |s| ==> r[i] == s[|s| - 1 - i]
  {
    if |s| == 0 then [] else Reverse(s[1..]) + [s[0]]
  }

  /**
   * The invariant of the descent: `list` runs from the end without repeats
   * through interior passable cells, each a neighbour of the one before and
   * no dearer, every cell left behind costs less than MAX_VALUE, and the
   * restricted cells lie in the grid and off the list.
   */
  ghost predicate Descent(grid: array2<Cell>, tempGrid: array2<int>, end: Coordinate,
                          list: seq<Coordinate>, restricted: set<Coordinate>)
    reads grid, tempGrid
  {
    SearchReady(grid, tempGrid) &&
    |list| >= 1 && list[0] == end && NoDups(list) &&
    OnInterior(grid, list) && Downhill(grid, tempGrid, list) &&
    forall z :: z in restricted ==> InGrid(grid, z) && z !in list
  }

  /** Every cell of s is an interior passable cell. */
  ghost predicate OnInterior(grid: array2<Cell>, s: seq<Coordinate>)
    reads grid
  {
    forall i :: 0 <= i < |s| ==> Interior(grid, s[i]) && IsPassable(grid[s[i].row, s[i].col].kind)
  }

  /** Each cell of s is a neighbour of the one before, which costs less than MAX_VALUE and no less than it. */
  ghost predicate Downhill(grid: array2<Cell>, tempGrid: array2<int>, s: seq<Coordinate>)
    requires OnInterior(grid, s) && tempGrid.Length0 == grid.Length0 && tempGrid.Length1 == grid.Length1
    reads grid, tempGrid
  {
    forall i :: 0 <= i < |s| - 1 ==>
      Adjacent(s[i], s[i + 1]) &&
      tempGrid[s[i].row, s[i].col] < INT_MAX &&
      tempGrid[s[i + 1].row, s[i + 1].col] <= tempGrid[s[i].row, s[i].col]
  }

  lemma NoDupsPrefix<T>(s: seq<T>, n: int)
    requires NoDups(s) && 0 <= n <= |s|
    ensures NoDups(s[..n])
  {
    assert forall i :: 0 <= i < n ==> s[..n][i] == s[i];
  }

  lemma OnInteriorPrefix(grid: array2<Cell>, tempGrid: array2<int>, s: seq<Coordinate>, n: int)
    requires OnInterior(grid, s) && 0 <= n <= |s|
    requires tempGrid.Length0 == grid.Length0 && tempGrid.Length1 == grid.Length1
    requires Downhill(grid, tempGrid, s)
    ensures OnInterior(grid, s[..n]) && Downhill(grid, tempGrid, s[..n])
  {
    assert forall i :: 0 <= i < n ==> s[..n][i] == s[i];
  }

  ghost function Elems(s: seq<Coordinate>): set<Coordinate>
  {
    set z | z in s
  }

  /** Taking a fresh cell x of `all` into a + b shrinks what is left of `all`. */
  lemma ShrinkFree(all: set<Coordinate>, a: set<Coordinate>, b: set<Coordinate>, x: Coordinate)
    requires x in all && x !in a && x !in b
    ensures all - (a + b + {x}) < all - (a + b)
  {
    assert x in all - (a + b);
  }

  lemma ElemsAppend(s: seq<Coordinate>, x: Coordinate)
    ensures Elems(s + [x]) == Elems(s) + {x}
  {
  }

  /** A path from start to end in which the costs never fall. */
  ghost predicate FoundPath(grid: array2<Cell>, tempGrid: array2<int>, start: Coordinate, end: Coordinate,
                            path: seq<Coordinate>)
    requires tempGrid.Length0 == grid.Length0 && tempGrid.Length1 == grid.Length1
    reads grid, tempGrid
  {
    |path| >= 1 && path[0] == start && path[|path| - 1] == end &&
    IsPassablePath(grid, path) && NoDups(path) &&
    forall i :: 0 <= i < |path| - 1 ==>
      tempGrid[path[i].row, path[i].col] <= tempGrid[path[i + 1].row, path[i + 1].col]
  }

  /** A backtrack keeps the invariant: the dead-end tail leaves `list` and becomes restricted. */
  lemma BackUp(grid: array2<Cell>, tempGrid: array2<int>, end: Coordinate,
               list: seq<Coordinate>, restricted: set<Coordinate>, all: set<Coordinate>)
    requires Descent(grid, tempGrid, end, list, restricted) && |list| > 1
    requires all == Coords(grid.Length0, grid.Length1) && restricted <= all && Elems(list) <= all
    ensures RemoveFirst(list, list[|list| - 1]) == list[..|list| - 1]
    ensures Descent(grid, tempGrid, end, list[..|list| - 1], restricted + {list[|list| - 1]})
    ensures list[|list| - 1] !in restricted && InGrid(grid, list[|list| - 1])
    ensures Interior(grid, list[|list| - 2])
    ensures restricted + {list[|list| - 1]} <= all && Elems(list[..|list| - 1]) <= all
    ensures all - (restricted + {list[|list| - 1]}) < all - restricted
  {
    var n := |list| - 1;
    var l2 := list[..n];
    ShrinkFree(all, {}, restricted, list[n]);
    assert Elems(l2) <= Elems(list);
    RemoveFirstOfLast(list);
    NoDupsPrefix(list, n);
    OnInteriorPrefix(grid, tempGrid, list, n);
    assert list[n] !in l2;
    assert forall z :: z in restricted ==> z !in l2;
  }

  /** An advance keeps the invariant: the chosen neighbour is interior, passable, fresh and no dearer. */
  lemma Advance(grid: array2<Cell>, tempGrid: array2<int>, end: Coordinate,
                list: seq<Coordinate>, restricted: set<Coordinate>, next: Coordinate, all: set<Coordinate>)
    requires Descent(grid, tempGrid, end, list, restricted)
    requires Interior(grid, list[|list| - 1])
    requires next == ChoiceAfter(grid, tempGrid, list, restricted, list[|list| - 1], 4) && next != list[|list| - 1]
    requires all == Coords(grid.Length0, grid.Length1) && Elems(list) <= all
    ensures Descent(grid, tempGrid, end, list + [next], restricted)
    ensures next !in list && next !in restricted && Interior(grid, next)
    ensures Elems(list + [next]) <= all && all - (Elems(list + [next]) + restricted) < all - (Elems(list) + restricted)
  {
    var tail := list[|list| - 1];
    ChoiceMoves(grid, tempGrid, list, restricted, tail);
    ElemsAppend(list, next);
    ShrinkFree(all, Elems(list), restricted, next);
    var l2 := list + [next];
    assert forall i :: 0 <= i < |list| ==> l2[i] == list[i];
    assert OnInterior(grid, l2);
    assert Downhill(grid, tempGrid, l2);
    assert NoDups(l2);
  }

  /**
   * When the scan moves away from point, it moves to an interior passable
   * neighbour that is off `list`, not restricted, and no dearer than point,
   * whose cost is below MAX_VALUE.
   */
  lemma ChoiceMoves(grid: array2<Cell>, tempGrid: array2<int>, list: seq<Coordinate>,
                    restricted: set<Coordinate>, point: Coordinate)
    requires SearchReady(grid, tempGrid) && Interior(grid, point)
    ensures
      var r := ChoiceAfter(grid, tempGrid, list, restricted, point, 4);
      r != point ==>
        Adjacent(point, r) && Interior(grid, r) && IsPassable(grid[r.row, r.col].kind) &&
        r !in list && r !in restricted &&
        tempGrid[point.row, point.col] < INT_MAX && tempGrid[r.row, r.col] <= tempGrid[point.row, point.col]
  {
    var r := ChoiceAfter(grid, tempGrid, list, restricted, point, 4);
    ChoiceIsMin(grid, tempGrid, list, restricted, point);
    if r != point {
      var k :| 0 <= k < 4 && r == Nb(point, k);
      assert grid[r.row, r.col].kind != Bedrock;
      assert Interior(grid, r);
    }
  }

  /**
   * `searchPath`: grow `list` from the end by cheapest suitable neighbours,
   * backing up from dead ends, until the start is reached or the end itself
   * is a dead end.  The result is empty, or a path from start to end without
   * repeats whose costs never fall; start == end gives [start]; an end whose
   * cost is still MAX_VALUE gives the empty list.
   */
  method Descend(grid: array2<Cell>, tempGrid: array2<int>, start: Coordinate, end: Coordinate)
    returns (list: seq<Coordinate>, restricted: set<Coordinate>)
    requires SearchReady(grid, tempGrid) && InGrid(grid, end) && IsPassable(grid[end.row, end.col].kind)
    ensures list == [] || FoundPath(grid, tempGrid, start, end, list)
    ensures start == end ==> list == [start]
    ensures start != end && tempGrid[end.row, end.col] == INT_MAX ==> list == []
    ensures AscendsTo(KindsOf(grid), CostsOf(tempGrid), start, end) ==> list != []
  {
    list, restricted := DescendLoop(grid, tempGrid, start, end);
    if list[|list| - 1] == start {
      DescentFound(grid, tempGrid, start, end, list, restricted);
      list := Reverse(list);
    } else {
      StuckEnd(grid, tempGrid, start, end, restricted);
      list := [];
    }
  }

  /**
   * The loop of `searchPath`: it ends with the invariant of the descent, and
   * with the last cell of `list` the start unless the scan from that cell
   * keeps it and it is the end itself.
   */
  method DescendLoop(grid: array2<Cell>, tempGrid: array2<int>, start: Coordinate, end: Coordinate)
    returns (list: seq<Coordinate>, restricted: set<Coordinate>)
    requires SearchReady(grid, tempGrid) && InGrid(grid, end) && IsPassable(grid[end.row, end.col].kind)
    ensures Descent(grid, tempGrid, end, list, restricted) && Interior(grid, list[|list| - 1])
    ensures list[|list| - 1] == start ||
      (list == [end] && end == ChoiceAfter(grid, tempGrid, list, restricted, end, 4))
    ensures start !in restricted && DeadEnds(KindsOf(grid), CostsOf(tempGrid), list, restricted)
  {
    list := [end];
    restricted := {};
    var newPoint := end;
    var go := CheckIfPossibleToFindPath(grid, tempGrid, list, restricted, newPoint, start);
    ghost var all := Coords(grid.Length0, grid.Length1);
    while go
      invariant Descent(grid, tempGrid, end, list, restricted) && newPoint == list[|list| - 1]
      invariant Interior(grid, newPoint) && restricted <= all && Elems(list) <= all
      invariant go <==> GoOn(grid, tempGrid, list, restricted, newPoint, start)
      invariant start !in restricted && DeadEnds(KindsOf(grid), CostsOf(tempGrid), list, restricted)
      decreases all - restricted, all - (Elems(list) + restricted)
    {
      list, restricted, newPoint, go := DescendRound(grid, tempGrid, start, end, list, restricted, all);
    }
  }

  /** One pass of the loop of `searchPath`: a step of the descent, then the test whether to go on. */
  method DescendRound(grid: array2<Cell>, tempGrid: array2<int>, start: Coordinate, end: Coordinate,
                      list: seq<Coordinate>, restricted: set<Coordinate>, ghost all: set<Coordinate>)
    returns (list2: seq<Coordinate>, restricted2: set<Coordinate>, newPoint: Coordinate, go: bool)
    requires Descent(grid, tempGrid, end, list, restricted) && Interior(grid, list[|list| - 1])
    requires GoOn(grid, tempGrid, list, restricted, list[|list| - 1], start)
    requires all == Coords(grid.Length0, grid.Length1) && restricted <= all && Elems(list) <= all
    requires start !in restricted && DeadEnds(KindsOf(grid), CostsOf(tempGrid), list, restricted)
    ensures Descent(grid, tempGrid, end, list2, restricted2) && newPoint == list2[|list2| - 1]
    ensures Interior(grid, newPoint) && restricted2 <= all && Elems(list2) <= all
    ensures go <==> GoOn(grid, tempGrid, list2, restricted2, newPoint, start)
    ensures start !in restricted2 && DeadEnds(KindsOf(grid), CostsOf(tempGrid), list2, restricted2)
    ensures all - restricted2 < all - restricted ||
      (restricted2 == restricted && all - (Elems(list2) + restricted2) < all - (Elems(list) + restricted))
  {
    list2, restricted2 := DescendStep(grid, tempGrid, end, list, restricted, all);
    StepKeepsDeadEnds(grid, tempGrid, start, list, restricted, list2, restricted2);
    newPoint := list2[|list2| - 1];
    go := CheckIfPossibleToFindPath(grid, tempGrid, list2, restricted2, newPoint, start);
  }

  /**
   * One round of the loop of `searchPath`, with newPoint the last cell of
   * `list`: if the scan keeps newPoint, it is a dead end, leaves `list` and
   * becomes restricted; otherwise the chosen neighbour, fresh and outside
   * the restricted cells, is appended.
   */
  method DescendStep(grid: array2<Cell>, tempGrid: array2<int>, end: Coordinate,
                     list: seq<Coordinate>, restricted: set<Coordinate>, ghost all: set<Coordinate>)
    returns (list2: seq<Coordinate>, restricted2: set<Coordinate>)
    requires Descent(grid, tempGrid, end, list, restricted) && Interior(grid, list[|list| - 1])
    requires list[|list| - 1] != ChoiceAfter(grid, tempGrid, list, restricted, list[|list| - 1], 4) || |list| > 1
    requires all == Coords(grid.Length0, grid.Length1) && restricted <= all && Elems(list) <= all
    ensures Descent(grid, tempGrid, end, list2, restricted2) && Interior(grid, list2[|list2| - 1])
    ensures restricted2 <= all && Elems(list2) <= all
    ensures all - restricted2 < all - restricted ||
      (restricted2 == restricted && all - (Elems(list2) + restricted2) < all - (Elems(list) + restricted))
    ensures
      var newPoint := list[|list| - 1];
      var choice := ChoiceAfter(grid, tempGrid, list, restricted, newPoint, 4);
      if choice == newPoint then
        list2 == list[..|list| - 1] && restricted2 == restricted + {newPoint} &&
        newPoint !in restricted && InGrid(grid, newPoint)
      else
        list2 == list + [choice] && restricted2 == restricted &&
        InGrid(grid, choice) && choice !in list && choice !in restricted
  {
    var newPoint := list[|list| - 1];
    var minPoint := SelectMinCellCoordinate(grid, tempGrid, list, restricted, newPoint);
    if newPoint == minPoint {
      BackUp(grid, tempGrid, end, list, restricted, all);
      list2 := RemoveFirst(list, newPoint);
      restricted2 := restricted + {newPoint};
    } else {
      newPoint := SelectMinCellCoordinate(grid, tempGrid, list, restricted, newPoint);
      Advance(grid, tempGrid, end, list, restricted, newPoint, all);
      list2 := list + [newPoint];
      restricted2 := restricted;
    }
  }

  /** A step of the descent keeps every restricted cell exhausted and the start unrestricted. */
  lemma {:induction false} StepKeepsDeadEnds(grid: array2<Cell>, tempGrid: array2<int>, start: Coordinate,
                          list: seq<Coordinate>, restricted: set<Coordinate>,
                          list2: seq<Coordinate>, restricted2: set<Coordinate>)
    requires SearchReady(grid, tempGrid) && |list| > 0 && Interior(grid, list[|list| - 1])
    requires start !in restricted && start != list[|list| - 1] && DeadEnds(KindsOf(grid), CostsOf(tempGrid), list, restricted)
    requires
      var newPoint := list[|list| - 1];
      var choice := ChoiceAfter(grid, tempGrid, list, restricted, newPoint, 4);
      if choice == newPoint then
        list2 == list[..|list| - 1] && restricted2 == restricted + {newPoint}
      else
        list2 == list + [choice] && restricted2 == restricted
    ensures start !in restricted2 && DeadEnds(KindsOf(grid), CostsOf(tempGrid), list2, restricted2)
  {
    var newPoint := list[|list| - 1];
    if ChoiceAfter(grid, tempGrid, list, restricted, newPoint, 4) == newPoint {
      StuckMeansDeadEnd(grid, tempGrid, list, restricted, newPoint);
      BackUpDeadEnds(KindsOf(grid), CostsOf(tempGrid), list, restricted);
    } else {
      assert forall z :: z in list ==> z in list2;
    }
  }

  /** n is a step the descent may take from r: a passable neighbour no dearer than r, which costs less than MAX_VALUE. */
  ghost predicate Downstep(K: map<Coordinate, CellType>, C: map<Coordinate, int>, r: Coordinate, n: Coordinate)
  {
    r in C && n in C && n in K && Adjacent(r, n) && IsPassable(K[n]) && C[r] < INT_MAX && C[n] <= C[r]
  }

  /** Every restricted cell is exhausted: each step from it leads to a cell on `list` or to another restricted cell. */
  ghost predicate DeadEnds(K: map<Coordinate, CellType>, C: map<Coordinate, int>, list: seq<Coordinate>,
                           restricted: set<Coordinate>)
  {
    forall r, n :: r in restricted && Downstep(K, C, r, n) ==> n in list || n in restricted
  }

  /** When the scan keeps point, every step from point leads to `list` or to a restricted cell. */
  lemma {:induction false} StuckMeansDeadEnd(grid: array2<Cell>, tempGrid: array2<int>, list: seq<Coordinate>,
                          restricted: set<Coordinate>, point: Coordinate)
    requires SearchReady(grid, tempGrid) && Interior(grid, point)
    requires ChoiceAfter(grid, tempGrid, list, restricted, point, 4) == point
    ensures forall n :: Downstep(KindsOf(grid), CostsOf(tempGrid), point, n) ==> n in list || n in restricted
  {
    var K, C := KindsOf(grid), CostsOf(tempGrid);
    ChoiceIsMin(grid, tempGrid, list, restricted, point);
    forall n | Downstep(K, C, point, n) ensures n in list || n in restricted {
      assert K[n] == At(grid, n) && C[n] == tempGrid[n.row, n.col] && C[point] == tempGrid[point.row, point.col];
      var j := DirectionIndex(Toward(point, n));
      assert Nb(point, j) == n;
      assert !Cheaper(grid, tempGrid, list, restricted, point, n);
    }
  }

  /** Backing up from a stuck tail keeps every restricted cell exhausted. */
  lemma BackUpDeadEnds(K: map<Coordinate, CellType>, C: map<Coordinate, int>, list: seq<Coordinate>,
                       restricted: set<Coordinate>)
    requires |list| > 0 && DeadEnds(K, C, list, restricted)
    requires forall n :: Downstep(K, C, list[|list| - 1], n) ==> n in list || n in restricted
    ensures DeadEnds(K, C, list[..|list| - 1], restricted + {list[|list| - 1]})
  {
    var t, l2 := list[|list| - 1], list[..|list| - 1];
    assert forall z :: z in list ==> z in l2 || z == t;
  }

  /** An ascent that starts outside a region no step leads out of never enters it. */
  lemma {:induction false} AscentStaysOut(K: map<Coordinate, CellType>, C: map<Coordinate, int>,
                                          R: set<Coordinate>, p: seq<Coordinate>)
    requires Ascent(K, C, p) && p[0] !in R
    requires forall r, n :: r in R && Downstep(K, C, r, n) ==> n in R
    ensures p[|p| - 1] !in R
  {
    if |p| > 1 {
      var a, b := p[|p| - 2], p[|p| - 1];
      assert Downstep(K, C, b, a);
      var q := p[..|p| - 1];
      assert forall i :: 0 <= i < |q| ==> q[i] == p[i];
      AscentStaysOut(K, C, R, q);
    }
  }

  /**
   * A descent stuck at [end], with the start never restricted, shows that
   * no ascent leads from the start to the end: the restricted cells and the
   * end form a region no step leads out of, and the start lies outside it.
   */
  lemma {:induction false} StuckEnd(grid: array2<Cell>, tempGrid: array2<int>, start: Coordinate, end: Coordinate,
                 restricted: set<Coordinate>)
    requires Descent(grid, tempGrid, end, [end], restricted) && Interior(grid, end)
    requires end == ChoiceAfter(grid, tempGrid, [end], restricted, end, 4)
    requires DeadEnds(KindsOf(grid), CostsOf(tempGrid), [end], restricted) && start != end && start !in restricted
    ensures forall p :: Ascent(KindsOf(grid), CostsOf(tempGrid), p) && p[0] == start ==> p[|p| - 1] != end
  {
    var R := restricted + {end};
    StuckMeansDeadEnd(grid, tempGrid, [end], restricted, end);
    forall p | Ascent(KindsOf(grid), CostsOf(tempGrid), p) && p[0] == start ensures p[|p| - 1] != end {
      AscentStaysOut(KindsOf(grid), CostsOf(tempGrid), R, p);
    }
  }

  /** A descent that has reached the start, reversed, is a path from start to end whose costs never fall. */
  lemma DescentFound(grid: array2<Cell>, tempGrid: array2<int>, start: Coordinate, end: Coordinate,
                     list: seq<Coordinate>, restricted: set<Coordinate>)
    requires Descent(grid, tempGrid, end, list, restricted) && list[|list| - 1] == start
    ensures FoundPath(grid, tempGrid, start, end, Reverse(list))
    ensures start == end ==> Reverse(list) == [start]
    ensures start != end ==> tempGrid[end.row, end.col] < INT_MAX
  {
    var r := Reverse(list);
    var n := |list|;
    assert forall i :: 0 <= i < n ==> r[i] == list[n - 1 - i];
    forall i | 0 <= i < n - 1
      ensures Adjacent(r[i], r[i + 1]) && tempGrid[r[i].row, r[i].col] <= tempGrid[r[i + 1].row, r[i + 1].col]
    {
      assert r[i] == list[n - 1 - i] && r[i + 1] == list[n - 2 - i];
    }
    forall i, j | 0 <= i < j < n ensures r[i] != r[j] {
      assert r[i] == list[n - 1 - i] && r[j] == list[n - 1 - j];
    }
    if start == end {
      assert n == 1;
    }
  }

  // ---------------------------------------------------------------------
  // The solver object

  /**
   * A maze as the generators and the modifier leave it and the service
   * accepts it: its grid has the maze's size, at most 35 x 35, every entry
   * carries its own position, and the border is BEDROCK.
   */
  predicate MazeShape(maze: Maze)
    reads maze.grid
  {
    maze.grid.Length0 == maze.height && maze.grid.Length1 == maze.width &&
    maze.height <= MAX_HEIGHT && maze.width <= MAX_WIDTH &&
    CoordinatesConsistent(maze.grid) && BorderIsBedrock(maze.grid)
  }

  /** The state both solvers keep: the path list, the visited and restricted cells, the cost grid and the maze grid. */
  class BaseSolver {
    var list: seq<Coordinate>
    var visited: set<Coordinate>
    var restricted: set<Coordinate>
    var tempGrid: array2<int>
    var grid: array2<Cell>

    constructor()
      ensures list == [] && visited == {} && restricted == {}
    {
      list := [];
      visited := {};
      restricted := {};
      tempGrid := new int[0, 0];
      grid := new Cell[0, 0];
    }

    /** `init`: empty lists, a fresh all-zero cost grid of the maze's size, and the maze's own grid. */
    method Init(maze: Maze)
      requires maze.height >= 0 && maze.width >= 0
      modifies this
      ensures list == [] && visited == {} && restricted == {} && grid == maze.grid
      ensures fresh(tempGrid) && tempGrid.Length0 == maze.height && tempGrid.Length1 == maze.width
      ensures forall y, x :: 0 <= y < maze.height && 0 <= x < maze.width ==> tempGrid[y, x] == 0
    {
      list := [];
      visited := {};
      restricted := {};
      tempGrid := new int[maze.height, maze.width]((y, x) => 0);
      grid := maze.grid;
    }

    /** `fill`, on this solver's cost grid. */
    method Fill(start: Coordinate)
      requires 0 <= start.row < tempGrid.Length0 && 0 <= start.col < tempGrid.Length1
      modifies tempGrid
      ensures forall y, x :: 0 <= y < tempGrid.Length0 && 0 <= x < tempGrid.Length1 ==>
        tempGrid[y, x] == if Coordinate(y, x) == start then 1
                          else if 1 <= y < tempGrid.Length0 - 1 && 1 <= x < tempGrid.Length1 - 1 then INT_MAX
                          else old(tempGrid[y, x])
    {
      FillCostGrid(tempGrid, start);
    }

    /** `searchPath`, on this solver's fields. */
    method SearchPath(start: Coordinate, end: Coordinate)
      requires SearchReady(grid, tempGrid) && InGrid(grid, end) && IsPassable(grid[end.row, end.col].kind)
      requires list == [] && restricted == {}
      modifies this
      ensures grid == old(grid) && tempGrid == old(tempGrid) && visited == old(visited)
      ensures list == [] || FoundPath(grid, tempGrid, start, end, list)
      ensures start == end ==> list == [start]
      ensures start != end && tempGrid[end.row, end.col] == INT_MAX ==> list == []
      ensures AscendsTo(KindsOf(grid), CostsOf(tempGrid), start, end) ==> list != []
    {
      list, restricted := Descend(grid, tempGrid, start, end);
    }
  }
}
