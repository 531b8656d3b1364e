/**
 * `DFSSolver`: the same cost relaxation as `bfs`, driven by recursion
 * instead of a queue (every relaxed neighbour is explored at once), with its
 * own copy of the solver state and of the descent.  Its `fill`,
 * `checkDirection`, `selectMin`, `checkIndexes` and `calculateRow` /
 * `calculateCol` compute exactly what `BaseSolver`'s `fill`,
 * `checkCellDirection`, `selectMinCellCoordinate`,
 * `checkCoordinatesInBounds` and `calculateCoordinate` compute, so the
 * shared definitions stand for them.  Its `searchPath` differs: it loops
 * only while the tail is not the start, never reverses the list, and backs
 * up with `getLast` even when the list has just become empty.
 */
module Dfs {
  import opened Grid
  import opened BaseGen
  import opened Solving

  /** A Java call that returns a value or throws. */
  datatype Outcome<T> = Returned(value: T) | Thrown(exception: string)

  // ---------------------------------------------------------------------
  // dfs

  /**
   * What `dfs(point)` needs: the relaxation invariant once point counts as
   * visited, and every visited cell other than point settled unless its own
   * call is still running further up (the cells of S).
   */
  ghost predicate Entry(K: map<Coordinate, CellType>, C: map<Coordinate, int>, V: set<Coordinate>,
                        point: Coordinate, S: set<Coordinate>, start: Coordinate, h: int, w: int)
  {
    Labelled(K, C, V + {point}, start, h, w) &&
    forall u :: u in V && u !in S && u != point ==> Settled(K, C, V + {point}, u)
  }

  /**
   * What `dfs(point)` leaves: the invariant, point visited, no cost higher,
   * and settled every visited cell that is point, is outside S, or had its
   * cost lowered meanwhile.
   */
  ghost predicate Exit(K: map<Coordinate, CellType>, C: map<Coordinate, int>, V: set<Coordinate>,
                       point: Coordinate, S: set<Coordinate>, C2: map<Coordinate, int>, V2: set<Coordinate>,
                       start: Coordinate, h: int, w: int)
  {
    Labelled(K, C2, V2, start, h, w) && V + {point} <= V2 && NoHigher(C2, C) &&
    SettledOutside(K, C, C2, V2, S, point) && Settled(K, C2, V2, point)
  }

  /**
   * Every visited cell of the later state C2 is settled that is neither
   * point nor in S, or whose cost differs from the one in C.
   */
  ghost predicate SettledOutside(K: map<Coordinate, CellType>, C: map<Coordinate, int>, C2: map<Coordinate, int>,
                                 V2: set<Coordinate>, S: set<Coordinate>, point: Coordinate)
  {
    forall u :: u in V2 && u in C && u in C2 && ((u !in S && u != point) || C2[u] != C[u]) ==> Settled(K, C2, V2, u)
  }

  /**
   * The state of the `for` loop of `dfs(point)` after some directions: as in
   * `Exit`, except that point is only settled in the directions already
   * handled (unless its cost dropped, which settled it entirely).
   */
  ghost predicate Scanning(K: map<Coordinate, CellType>, C: map<Coordinate, int>, point: Coordinate,
                           S: set<Coordinate>, C2: map<Coordinate, int>, V2: set<Coordinate>,
                           start: Coordinate, h: int, w: int, i: int)
  {
    Labelled(K, C2, V2, start, h, w) && point in V2 && NoHigher(C2, C) &&
    SettledOutside(K, C, C2, V2, S, point) &&
    forall j :: 0 <= j < i && j < 4 ==> SettledDir(K, C2, V2, point, Directions[j])
  }

  /** A later state that lowers no cost of a settled cell keeps it settled. */
  lemma StillSettled(K: map<Coordinate, CellType>, C: map<Coordinate, int>, V: set<Coordinate>,
                     C2: map<Coordinate, int>, V2: set<Coordinate>, u: Coordinate)
    requires NoHigher(C2, C) && V <= V2 && u in C && C2[u] == C[u] && Settled(K, C, V, u)
    ensures Settled(K, C2, V2, u)
  {
    forall d: Direction ensures SettledDir(K, C2, V2, u, d) {
      SettledStable(K, C, V, C2, V2, u, d);
    }
  }

  /** A cell reached only in the later state had its MAX_VALUE cost lowered. */
  lemma NewlyReached(K: map<Coordinate, CellType>, C1: map<Coordinate, int>, V1: set<Coordinate>,
                     C2: map<Coordinate, int>, V2: set<Coordinate>, start: Coordinate, h: int, w: int, u: Coordinate)
    requires Labelled(K, C1, V1, start, h, w) && Labelled(K, C2, V2, start, h, w)
    requires u in V2 && u !in V1
    ensures C2[u] != C1[u]
  {
    ReachedCost(K, C2, V2, start, h, w, u);
    assert C1[u] == FillCost(u, h, w);
  }

  /** What the call `dfs(n)` of `DfsDirection` needs: n was just relaxed out of point. */
  lemma NestedEntry(K: map<Coordinate, CellType>, C: map<Coordinate, int>, visited: set<Coordinate>,
                    point: Coordinate, S: set<Coordinate>, n: Coordinate, C1: map<Coordinate, int>,
                    start: Coordinate, h: int, w: int)
    requires Labelled(K, C1, visited + {n}, start, h, w) && NoHigher(C1, C)
    requires n in C1 && C1 == C[n := C1[n]]
    requires forall u :: u in visited && u !in S && u != point ==> Settled(K, C, visited, u)
    ensures Entry(K, C1, visited, n, S + {point}, start, h, w)
  {
    assert forall z :: z in C1 && z != n ==> C1[z] == C[z];
    forall u | u in visited && u !in S + {point} && u != n ensures Settled(K, C1, visited + {n}, u) {
      StillSettled(K, C, visited, C1, visited + {n}, u);
    }
  }

  /** What `DfsDirection` reports once `dfs(n)` returns. */
  lemma NestedExit(K: map<Coordinate, CellType>, C: map<Coordinate, int>, visited: set<Coordinate>,
                   point: Coordinate, direction: Direction, S: set<Coordinate>, n: Coordinate,
                   C1: map<Coordinate, int>, C2: map<Coordinate, int>, visited2: set<Coordinate>,
                   start: Coordinate, h: int, w: int)
    requires NoHigher(C1, C) && n in C1 && C1 == C[n := C1[n]]
    requires point in visited && point in C1 && SettledDir(K, C1, visited + {n}, point, direction)
    requires Exit(K, C1, visited, n, S + {point}, C2, visited2, start, h, w)
    ensures NoHigher(C2, C)
    ensures SettledOutside(K, C, C2, visited2, S, point)
    ensures SettledDir(K, C2, visited2, point, direction)
  {
    assert forall z :: z in C1 && z != n ==> C1[z] == C[z];
    forall u | u in visited2 && ((u !in S && u != point) || C2[u] != C[u]) ensures Settled(K, C2, visited2, u) {
      if C2[u] == C1[u] && u != n {
        assert C1[u] == C[u];
      }
    }
    if C2[point] == C1[point] {
      SettledStable(K, C1, visited + {n}, C2, visited2, point, direction);
    }
  }

  /** One handled direction, as `DfsDirection` reports it, extends the loop state by one. */
  lemma ScanStep(K: map<Coordinate, CellType>, C: map<Coordinate, int>, point: Coordinate, S: set<Coordinate>,
                 C1: map<Coordinate, int>, V1: set<Coordinate>, C2: map<Coordinate, int>, V2: set<Coordinate>,
                 start: Coordinate, h: int, w: int, i: int)
    requires 0 <= i < 4 && Scanning(K, C, point, S, C1, V1, start, h, w, i)
    requires Labelled(K, C2, V2, start, h, w) && V1 <= V2 && NoHigher(C2, C1)
    requires SettledOutside(K, C1, C2, V2, S, point)
    requires SettledDir(K, C2, V2, point, Directions[i])
    ensures Scanning(K, C, point, S, C2, V2, start, h, w, i + 1)
  {
    forall u | u in V2 && ((u !in S && u != point) || C2[u] != C[u]) ensures Settled(K, C2, V2, u) {
      if u !in V1 {
        NewlyReached(K, C1, V1, C2, V2, start, h, w, u);
      } else if C2[u] == C1[u] && ((u !in S && u != point) || C1[u] != C[u]) {
        StillSettled(K, C1, V1, C2, V2, u);
      }
    }
    forall j | 0 <= j < i + 1 && j < 4 ensures SettledDir(K, C2, V2, point, Directions[j]) {
      if j < i {
        if C2[point] == C1[point] {
          SettledStable(K, C1, V1, C2, V2, point, Directions[j]);
        } else {
          assert Settled(K, C2, V2, point);
        }
      }
    }
  }

  /**
   * One direction of the `for` loop of `dfs(point)`: when `checkDirection`
   * holds, relax the neighbour and call `dfs` on it.  No cost rises, the
   * direction is settled, and every visited cell is settled that is outside
   * S and not point, or whose cost this step lowered.
   */
  method DfsDirection(grid: array2<Cell>, tempGrid: array2<int>, visited: set<Coordinate>,
                      point: Coordinate, direction: Direction, ghost S: set<Coordinate>,
                      ghost K: map<Coordinate, CellType>, ghost C: map<Coordinate, int>, ghost start: Coordinate)
    returns (visited2: set<Coordinate>, ghost C2: map<Coordinate, int>)
    requires tempGrid.Length0 == grid.Length0 && tempGrid.Length1 == grid.Length1 && CoordinatesConsistent(grid)
    requires K == KindsOf(grid) && C == CostsOf(tempGrid)
    requires Labelled(K, C, visited, start, grid.Length0, grid.Length1) && point in visited
    requires forall u :: u in visited && u !in S && u != point ==> Settled(K, C, visited, u)
    modifies tempGrid
    decreases Below(C), 0
    ensures CostsOf(tempGrid) == C2
    ensures Labelled(K, C2, visited2, start, grid.Length0, grid.Length1) && visited <= visited2 && NoHigher(C2, C)
    ensures SettledOutside(K, C, C2, visited2, S, point)
    ensures SettledDir(K, C2, visited2, point, direction)
  {
    var relaxed, n;
    ghost var C1;
    relaxed, n, C1 := RelaxDirection(grid, tempGrid, visited, current := point, direction := direction,
                                     K := K, C := C, start := start);
    if relaxed {
      visited2, C2 := Deeper(grid, tempGrid, visited, point, direction, S, n, K, C, C1, start);
    } else {
      visited2, C2 := visited, C;
    }
  }

  /** The relaxed branch of `DfsDirection`: n's cost has just dropped, and `dfs(n)` follows. */
  method Deeper(grid: array2<Cell>, tempGrid: array2<int>, visited: set<Coordinate>,
                point: Coordinate, direction: Direction, ghost S: set<Coordinate>, n: Coordinate,
                ghost K: map<Coordinate, CellType>, ghost C: map<Coordinate, int>, ghost C1: map<Coordinate, int>,
                ghost start: Coordinate)
    returns (visited2: set<Coordinate>, ghost C2: map<Coordinate, int>)
    requires tempGrid.Length0 == grid.Length0 && tempGrid.Length1 == grid.Length1 && CoordinatesConsistent(grid)
    requires K == KindsOf(grid) && C1 == CostsOf(tempGrid)
    requires Labelled(K, C1, visited + {n}, start, grid.Length0, grid.Length1) && NoHigher(C1, C)
    requires n in C && point in C && C1 == C[n := MinInt(C[n], C[point] + Weight(K[n]))]
    requires forall u :: u in visited && u !in S && u != point ==> Settled(K, C, visited, u)
    requires point in visited && SettledDir(K, C1, visited + {n}, point, direction)
    modifies tempGrid
    decreases Below(C1), 2
    ensures CostsOf(tempGrid) == C2
    ensures Labelled(K, C2, visited2, start, grid.Length0, grid.Length1) && visited <= visited2 && NoHigher(C2, C)
    ensures SettledOutside(K, C, C2, visited2, S, point)
    ensures SettledDir(K, C2, visited2, point, direction)
  {
    NestedEntry(K, C, visited, point, S, n, C1, start, grid.Length0, grid.Length1);
    visited2, C2 := Dfs(grid, tempGrid, visited, n, S + {point}, K, C1, start);
    NestedExit(K, C, visited, point, direction, S, n, C1, C2, visited2, start, grid.Length0, grid.Length1);
  }

  /**
   * `dfs(point)`: mark point visited, then handle the four directions in
   * the order of `Direction.values()`.
   */
  method Dfs(grid: array2<Cell>, tempGrid: array2<int>, visited: set<Coordinate>,
             point: Coordinate, ghost S: set<Coordinate>,
             ghost K: map<Coordinate, CellType>, ghost C: map<Coordinate, int>, ghost start: Coordinate)
    returns (visited2: set<Coordinate>, ghost C2: map<Coordinate, int>)
    requires tempGrid.Length0 == grid.Length0 && tempGrid.Length1 == grid.Length1 && CoordinatesConsistent(grid)
    requires K == KindsOf(grid) && C == CostsOf(tempGrid)
    requires Entry(K, C, visited, point, S, start, grid.Length0, grid.Length1)
    modifies tempGrid
    decreases Below(C), 1
    ensures CostsOf(tempGrid) == C2
    ensures Exit(K, C, visited, point, S, C2, visited2, start, grid.Length0, grid.Length1)
  {
    visited2 := visited + {point};
    C2 := C;
    for i := 0 to 4
      invariant CostsOf(tempGrid) == C2
      invariant Scanning(K, C, point, S, C2, visited2, start, grid.Length0, grid.Length1, i)
      invariant visited + {point} <= visited2
    {
      ghost var C1, V1 := C2, visited2;
      BelowNoHigher(C, C1);
      visited2, C2 := DfsDirection(grid, tempGrid, visited2, point, Directions[i], S, K, C2, start);
      ScanStep(K, C, point, S, C1, V1, C2, visited2, start, grid.Length0, grid.Length1, i);
    }
    SettledAllFour(K, C2, visited2, point);
  }

  /**
   * `dfs(start)` on a cost grid just filled: on return the relaxation
   * invariant holds for the visited cells and every one of them is settled.
   */
  method Explore(grid: array2<Cell>, tempGrid: array2<int>, point: Coordinate) returns (visited: set<Coordinate>)
    requires Filled(grid, tempGrid, point)
    modifies tempGrid
    ensures Relaxing(grid, tempGrid, visited, point)
    ensures forall u :: u in visited ==> Settled(KindsOf(grid), CostsOf(tempGrid), visited, u)
  {
    FilledLabelled(grid, tempGrid, point);
    ghost var K, C := KindsOf(grid), CostsOf(tempGrid);
    ghost var C2;
    visited, C2 := Dfs(grid, tempGrid, {}, point, {}, K, C, point);
    assert forall u :: u in visited ==> u in C && u in C2;
  }

  // ---------------------------------------------------------------------
  // searchPath

  /**
   * `DFSSolver.searchPath` as written: the descent of `BaseSolver` without
   * `checkIfPossibleToFindPath`, looping until the tail is the start.  When
   * the end itself is a dead end, the backtrack empties the list and
   * `getLast` throws; otherwise the list is returned as built, from the end
   * to the start.
   */
  method SearchPathAsWritten(grid: array2<Cell>, tempGrid: array2<int>, start: Coordinate, end: Coordinate)
    returns (r: Outcome<seq<Coordinate>>)
    requires SearchReady(grid, tempGrid) && InGrid(grid, end) && IsPassable(grid[end.row, end.col].kind)
    ensures r.Returned? ==>
      |r.value| >= 1 && r.value[0] == end && r.value[|r.value| - 1] == start &&
      FoundPath(grid, tempGrid, start, end, Reverse(r.value))
    ensures start != end && tempGrid[end.row, end.col] == INT_MAX ==> r.Thrown?
    ensures AscendsTo(KindsOf(grid), CostsOf(tempGrid), start, end) ==> r.Returned?
  {
    var list, restricted, thrown := DescendAsWritten(grid, tempGrid, start, end);
    if thrown {
      r := Thrown("NoSuchElementException");
    } else {
      DescentFound(grid, tempGrid, start, end, list, restricted);
      r := Returned(list);
    }
  }

  /**
   * The loop of the as-written `searchPath`: it runs until the tail of the
   * list is the start, or until backing up from the end empties the list.
   */
  method DescendAsWritten(grid: array2<Cell>, tempGrid: array2<int>, start: Coordinate, end: Coordinate)
    returns (list: seq<Coordinate>, restricted: set<Coordinate>, thrown: bool)
    requires SearchReady(grid, tempGrid) && InGrid(grid, end) && IsPassable(grid[end.row, end.col].kind)
    ensures Descent(grid, tempGrid, end, list, restricted)
    ensures !thrown ==> list[|list| - 1] == start
    ensures thrown ==> list == [end] && end != start
    ensures thrown ==> !AscendsTo(KindsOf(grid), CostsOf(tempGrid), start, end)
  {
    list := [end];
    restricted := {};
    thrown := false;
    var newPoint := end;
    ghost var all := Coords(grid.Length0, grid.Length1);
    while newPoint != start
      invariant Descent(grid, tempGrid, end, list, restricted) && newPoint == list[|list| - 1]
      invariant Interior(grid, newPoint) && restricted <= all && Elems(list) <= all
      invariant !thrown
      invariant start !in restricted && DeadEnds(KindsOf(grid), CostsOf(tempGrid), list, restricted)
      decreases all - restricted, all - (Elems(list) + restricted)
    {
      list, restricted, thrown := StepAsWritten(grid, tempGrid, start, end, list, restricted, all);
      if thrown {
        StuckEnd(grid, tempGrid, start, end, restricted);
        return;
      }
      newPoint := list[|list| - 1];
    }
  }

  /**
   * One round of the as-written loop: a dead end that is the only cell of
   * the list is removed, and `getLast` on the empty list throws (the list
   * is reported unchanged); any other round is the round of `BaseSolver`.
   */
  method StepAsWritten(grid: array2<Cell>, tempGrid: array2<int>, start: Coordinate, end: Coordinate,
                       list: seq<Coordinate>, restricted: set<Coordinate>, ghost all: set<Coordinate>)
    returns (list2: seq<Coordinate>, restricted2: set<Coordinate>, thrown: bool)
    requires Descent(grid, tempGrid, end, list, restricted) && Interior(grid, list[|list| - 1])
    requires all == Coords(grid.Length0, grid.Length1) && restricted <= all && Elems(list) <= all
    requires start != list[|list| - 1] && start !in restricted && DeadEnds(KindsOf(grid), CostsOf(tempGrid), list, restricted)
    ensures Descent(grid, tempGrid, end, list2, restricted2) && Interior(grid, list2[|list2| - 1])
    ensures thrown <==> |list| == 1 && list[0] == ChoiceAfter(grid, tempGrid, list, restricted, list[0], 4)
    ensures thrown ==> list2 == list == [end] && restricted2 == restricted
    ensures !thrown ==> restricted2 <= all && Elems(list2) <= all
    ensures !thrown ==>
      all - restricted2 < all - restricted ||
      (restricted2 == restricted && all - (Elems(list2) + restricted2) < all - (Elems(list) + restricted))
    ensures !thrown ==> start !in restricted2 && DeadEnds(KindsOf(grid), CostsOf(tempGrid), list2, restricted2)
  {
    if |list| == 1 {
      var minPoint := SelectMinCellCoordinate(grid, tempGrid, list, restricted, list[0]);
      if minPoint == list[0] {
        return list, restricted, true;
      }
    }
    list2, restricted2 := DescendStep(grid, tempGrid, end, list, restricted, all);
    StepKeepsDeadEnds(grid, tempGrid, start, list, restricted, list2, restricted2);
    thrown := false;
  }

  /** The solver state of `DFSSolver`, a copy of `BaseSolver`'s. */
  class DFSSolver {
    var list: seq<Coordinate>
    var visited: set<Coordinate>
    var restricted: set<Coordinate>
    var tempGrid: array2<int>
    var grid: array2<Cell>

    constructor()
      ensures list == [] && visited == {} && restricted == {}
    {
      list := [];
      visited := {};
      restricted := {};
      tempGrid := new int[0, 0];
      grid := new Cell[0, 0];
    }

    /** `init`: empty lists, a fresh all-zero cost grid of the maze's size, and the maze's own grid. */
    method Init(maze: Maze)
      requires maze.height >= 0 && maze.width >= 0
      modifies this
      ensures list == [] && visited == {} && restricted == {} && grid == maze.grid
      ensures fresh(tempGrid) && tempGrid.Length0 == maze.height && tempGrid.Length1 == maze.width
      ensures forall y, x :: 0 <= y < maze.height && 0 <= x < maze.width ==> tempGrid[y, x] == 0
    {
      list := [];
      visited := {};
      restricted := {};
      tempGrid := new int[maze.height, maze.width]((y, x) => 0);
      grid := maze.grid;
    }

    /** `fill`: the same loops as `BaseSolver.fill`. */
    method Fill(start: Coordinate)
      requires 0 <= start.row < tempGrid.Length0 && 0 <= start.col < tempGrid.Length1
      modifies tempGrid
      ensures forall y, x :: 0 <= y < tempGrid.Length0 && 0 <= x < tempGrid.Length1 ==>
        tempGrid[y, x] == if Coordinate(y, x) == start then 1
                          else if 1 <= y < tempGrid.Length0 - 1 && 1 <= x < tempGrid.Length1 - 1 then INT_MAX
                          else old(tempGrid[y, x])
    {
      FillCostGrid(tempGrid, start);
    }

    /** `dfs(point)` from the start, on this solver's fields. */
    method Dfs(point: Coordinate)
      requires Filled(grid, tempGrid, point) && visited == {}
      modifies this, tempGrid
      ensures grid == old(grid) && tempGrid == old(tempGrid) && list == old(list) && restricted == old(restricted)
      ensures Relaxing(grid, tempGrid, visited, point)
      ensures forall u :: u in visited ==> Settled(KindsOf(grid), CostsOf(tempGrid), visited, u)
    {
      visited := Explore(grid, tempGrid, point);
    }

    /** init, fill and dfs: the first three steps of `solve`. */
    method Prepare(maze: Maze, start: Coordinate)
      requires MazeShape(maze) && InGrid(maze.grid, start) && IsPassable(At(maze.grid, start))
      modifies this
      ensures grid == maze.grid && fresh(tempGrid) && list == [] && restricted == {}
      ensures tempGrid.Length0 == maze.height && tempGrid.Length1 == maze.width
      ensures SearchReady(grid, tempGrid)
      ensures start in visited && ClosedIn(KindsOf(grid), visited)
      ensures forall S :: ClosedIn(KindsOf(grid), S) && start in S ==> visited <= S
      ensures forall p :: Walk(KindsOf(grid), p) && p[0] == start ==>
        p[|p| - 1] in visited && CostsOf(tempGrid)[p[|p| - 1]] <= WalkCost(KindsOf(grid), p)
      ensures forall z :: InGrid(grid, z) && IsPassable(At(grid, z)) && z !in visited ==> tempGrid[z.row, z.col] == INT_MAX
      ensures forall v :: v in visited ==> AscendsTo(KindsOf(grid), CostsOf(tempGrid), start, v)
    {
      Init(maze);
      Fill(start);
      Dfs(start);
      Explored(grid, tempGrid, visited, start);
    }

    /**
     * `solve` as written: init, fill, dfs, then the as-written `searchPath`.
     * For an end not connected to the start it throws instead of answering
     * with an empty list, and a path it does return runs from the end to
     * the start.
     */
    method SolveAsWritten(maze: Maze, start: Coordinate, end: Coordinate) returns (r: Outcome<seq<Coordinate>>)
      requires MazeShape(maze)
      requires InGrid(maze.grid, start) && IsPassable(At(maze.grid, start))
      requires InGrid(maze.grid, end) && IsPassable(At(maze.grid, end))
      modifies this
      ensures grid == maze.grid
      ensures tempGrid.Length0 == maze.height && tempGrid.Length1 == maze.width
      ensures r.Returned? ==>
        |r.value| >= 1 && r.value[0] == end && r.value[|r.value| - 1] == start &&
        FoundPath(grid, tempGrid, start, end, Reverse(r.value))
      ensures end !in visited ==> r.Thrown?
      ensures end in visited ==> r.Returned?
      ensures start in visited && ClosedIn(KindsOf(maze.grid), visited)
      ensures forall S :: ClosedIn(KindsOf(maze.grid), S) && start in S ==> visited <= S
      ensures forall p :: Walk(KindsOf(maze.grid), p) && p[0] == start ==> p[|p| - 1] in visited
    {
      Prepare(maze, start);
      r := SearchPathAsWritten(grid, tempGrid, start, end);
      if r.Returned? {
        list := r.value;
      }
    }

    /**
     * `solve` with the descent of `BaseSolver.searchPath`, which backs up
     * only while the list keeps a cell, clears the list when no path is
     * left, and reverses a found path: the answer is empty or a start-to-end
     * path, [start] when start and end coincide, and empty when the end is
     * not connected to the start.
     */
    method Solve(maze: Maze, start: Coordinate, end: Coordinate) returns (path: seq<Coordinate>)
      requires MazeShape(maze)
      requires InGrid(maze.grid, start) && IsPassable(At(maze.grid, start))
      requires InGrid(maze.grid, end) && IsPassable(At(maze.grid, end))
      modifies this
      ensures grid == maze.grid && path == list
      ensures tempGrid.Length0 == maze.height && tempGrid.Length1 == maze.width
      ensures path == [] || FoundPath(maze.grid, tempGrid, start, end, path)
      ensures start == end ==> path == [start]
      ensures end !in visited ==> path == []
      ensures end in visited ==> path != []
      ensures start in visited && ClosedIn(KindsOf(maze.grid), visited)
      ensures forall S :: ClosedIn(KindsOf(maze.grid), S) && start in S ==> visited <= S
      ensures forall p :: Walk(KindsOf(maze.grid), p) && p[0] == start ==>
        p[|p| - 1] in visited && CostsOf(tempGrid)[p[|p| - 1]] <= WalkCost(KindsOf(maze.grid), p)
    {
      Prepare(maze, start);
      list, restricted := Descend(grid, tempGrid, start, end);
      path := list;
    }
  }
}
