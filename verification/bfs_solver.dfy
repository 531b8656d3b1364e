/**
 * `BFSSolver`: relaxation driven by a priority queue ordered by the weight
 * of a cell's type (not by its cost), followed by the shared descent.  A
 * cell is queued again whenever its cost drops, so the loop runs until no
 * reached cell can lower a neighbour: every reached cell is settled, the
 * reached cells are exactly those connected to the start, and no cost
 * exceeds the weight of any path to its cell.
 */
module Bfs {
  import opened Grid
  import opened BaseGen
  import opened Solving

  // ---------------------------------------------------------------------
  // The state of `bfs` as values

  /**
   * The invariant of the `bfs` loop: the relaxation invariant, every queued
   * cell is reached, and every reached cell that is not queued is settled.
   */
  ghost predicate Exploring(K: map<Coordinate, CellType>, C: map<Coordinate, int>, V: set<Coordinate>,
                            Q: seq<Coordinate>, start: Coordinate, h: int, w: int)
  {
    Labelled(K, C, V, start, h, w) && (forall q :: q in Q ==> q in V) &&
    forall u :: u in V && u !in Q ==> Settled(K, C, V, u)
  }

  /**
   * A relaxation keeps every settled cell settled, except those whose cost
   * changed, which are queued again.
   */
  lemma SettledKept(K: map<Coordinate, CellType>, C: map<Coordinate, int>, V: set<Coordinate>, Q: seq<Coordinate>,
                    C2: map<Coordinate, int>, V2: set<Coordinate>, Q2: seq<Coordinate>, current: Coordinate)
    requires NoHigher(C2, C) && V <= V2
    requires forall u :: u in V2 && u !in V ==> u in Q2
    requires forall q :: q in Q ==> q in Q2
    requires forall z :: z in C && z !in Q2 ==> C2[z] == C[z]
    requires forall u :: u in V ==> u in C
    requires forall u :: u in V && u !in Q && u != current ==> Settled(K, C, V, u)
    ensures forall u :: u in V2 && u !in Q2 && u != current ==> Settled(K, C2, V2, u)
  {
    forall u | u in V2 && u !in Q2 && u != current ensures Settled(K, C2, V2, u) {
      assert u in V && u !in Q;
      forall d: Direction ensures SettledDir(K, C2, V2, u, d) {
        SettledStable(K, C, V, C2, V2, u, d);
      }
    }
  }

  /**
   * `queue.poll()`: the queue's comparator compares the weights of the cells'
   * types, so the element taken is one of least weight; which of several
   * such elements comes out is left open.
   */
  ghost predicate LeastWeight(grid: array2<Cell>, Q: seq<Coordinate>, x: Coordinate)
    reads grid
  {
    x in Q && InGrid(grid, x) &&
    forall q :: q in Q && InGrid(grid, q) ==> Weight(At(grid, x)) <= Weight(At(grid, q))
  }

  /** A non-empty queue of cells of the grid has an element of least weight. */
  lemma {:induction false} LeastExists(grid: array2<Cell>, Q: seq<Coordinate>)
    requires |Q| > 0 && forall q :: q in Q ==> InGrid(grid, q)
    ensures exists x :: LeastWeight(grid, Q, x)
  {
    if |Q| == 1 {
      assert LeastWeight(grid, Q, Q[0]);
    } else {
      LeastExists(grid, Q[1..]);
      var x :| LeastWeight(grid, Q[1..], x);
      assert forall q :: q in Q ==> q == Q[0] || q in Q[1..];
      if Weight(At(grid, Q[0])) <= Weight(At(grid, x)) {
        assert LeastWeight(grid, Q, Q[0]);
      } else {
        assert LeastWeight(grid, Q, x);
      }
    }
  }

  // ---------------------------------------------------------------------
  // bfs

  /**
   * One direction of the `for` loop of `bfs`: when `checkCellDirection`
   * holds, the neighbour is relaxed, queued and marked visited.  The loop's
   * invariant survives, the direction is settled, and either nothing changed
   * or the termination measure shrank.
   */
  method VisitDirection(grid: array2<Cell>, tempGrid: array2<int>, visited: set<Coordinate>, queue: seq<Coordinate>,
                        current: Coordinate, direction: Direction,
                        ghost K: map<Coordinate, CellType>, ghost C: map<Coordinate, int>, ghost start: Coordinate)
    returns (visited2: set<Coordinate>, queue2: seq<Coordinate>, ghost C2: map<Coordinate, int>)
    requires tempGrid.Length0 == grid.Length0 && tempGrid.Length1 == grid.Length1 && CoordinatesConsistent(grid)
    requires K == KindsOf(grid) && C == CostsOf(tempGrid)
    requires Labelled(K, C, visited, start, grid.Length0, grid.Length1) && current in visited
    requires forall q :: q in queue ==> q in visited
    requires forall u :: u in visited && u !in queue && u != current ==> Settled(K, C, visited, u)
    modifies tempGrid
    ensures CostsOf(tempGrid) == C2 && C2[current] == C[current]
    ensures Labelled(K, C2, visited2, start, grid.Length0, grid.Length1) && current in visited2
    ensures forall q :: q in queue2 ==> q in visited2
    ensures forall u :: u in visited2 && u !in queue2 && u != current ==> Settled(K, C2, visited2, u)
    ensures NoHigher(C2, C) && visited <= visited2
    ensures SettledDir(K, C2, visited2, current, direction)
    ensures (C2 == C && visited2 == visited && queue2 == queue) || Below(C2) < Below(C)
  {
    var relaxed, n;
    relaxed, n, C2 := RelaxDirection(grid, tempGrid, visited, current, direction, K, C, start);
    if relaxed {
      queue2 := queue + [n];
      visited2 := visited + {n};
      assert forall z :: z in C && z !in queue2 ==> z != n && C2[z] == C[z];
      SettledKept(K, C, visited, queue, C2, visited2, queue2, current);
    } else {
      queue2, visited2 := queue, visited;
    }
  }

  /**
   * One turn of the `while` loop of `bfs`: poll a cell of least weight and
   * relax its four neighbours in the order of `Direction.values()`.
   */
  method Turn(grid: array2<Cell>, tempGrid: array2<int>, visited: set<Coordinate>, queue: seq<Coordinate>,
              ghost K: map<Coordinate, CellType>, ghost C: map<Coordinate, int>, ghost start: Coordinate)
    returns (visited2: set<Coordinate>, queue2: seq<Coordinate>, ghost C2: map<Coordinate, int>)
    requires tempGrid.Length0 == grid.Length0 && tempGrid.Length1 == grid.Length1 && CoordinatesConsistent(grid)
    requires K == KindsOf(grid) && C == CostsOf(tempGrid)
    requires Exploring(K, C, visited, queue, start, grid.Length0, grid.Length1) && |queue| > 0
    modifies tempGrid
    ensures CostsOf(tempGrid) == C2
    ensures Exploring(K, C2, visited2, queue2, start, grid.Length0, grid.Length1)
    ensures (C2 == C && |queue2| < |queue|) || Below(C2) < Below(C)
  {
    LeastExists(grid, queue);
    var current :| current in queue && InGrid(grid, current) &&
      forall q :: q in queue && InGrid(grid, q) ==>
        Weight(grid[current.row, current.col].kind) <= Weight(grid[q.row, q.col].kind);
    queue2 := RemoveFirst(queue, current);
    visited2 := visited;
    C2 := C;
    forall u | u in visited && u !in queue2 && u != current ensures Settled(K, C, visited, u) {
      if u in queue { RemoveFirstKeeps(queue, current, u); }
    }
    ghost var Q0 := queue2;
    for i := 0 to 4
      invariant CostsOf(tempGrid) == C2 && C2[current] == C[current]
      invariant Labelled(K, C2, visited2, start, grid.Length0, grid.Length1) && current in visited2
      invariant forall q :: q in queue2 ==> q in visited2
      invariant forall u :: u in visited2 && u !in queue2 && u != current ==> Settled(K, C2, visited2, u)
      invariant forall j :: 0 <= j < i ==> SettledDir(K, C2, visited2, current, Directions[j])
      invariant (C2 == C && queue2 == Q0) || Below(C2) < Below(C)
    {
      ghost var C1, V1 := C2, visited2;
      var direction := Directions[i];
      visited2, queue2, C2 := VisitDirection(grid, tempGrid, visited2, queue2, current, direction, K, C2, start);
      forall j | 0 <= j <= i ensures SettledDir(K, C2, visited2, current, Directions[j]) {
        if j < i {
          SettledStable(K, C1, V1, C2, visited2, current, Directions[j]);
        }
      }
    }
    SettledAllFour(K, C2, visited2, current);
  }

  /**
   * `bfs` from the start, on a cost grid just filled: on return the queue is
   * empty, the invariant of relaxation holds for the visited cells, and
   * every visited cell is settled.
   */
  method Explore(grid: array2<Cell>, tempGrid: array2<int>, point: Coordinate)
    returns (visited: set<Coordinate>, queue: seq<Coordinate>)
    requires Filled(grid, tempGrid, point)
    modifies tempGrid
    ensures queue == []
    ensures Relaxing(grid, tempGrid, visited, point)
    ensures forall u :: u in visited ==> Settled(KindsOf(grid), CostsOf(tempGrid), visited, u)
  {
    ghost var K, C := KindsOf(grid), CostsOf(tempGrid);
    FilledLabelled(grid, tempGrid, point);
    queue := [point];
    visited := {point};
    while queue != []
      invariant K == KindsOf(grid) && C == CostsOf(tempGrid)
      invariant tempGrid.Length0 == grid.Length0 && tempGrid.Length1 == grid.Length1 && CoordinatesConsistent(grid)
      invariant Exploring(K, C, visited, queue, point, grid.Length0, grid.Length1)
      decreases Below(C), |queue|
    {
      visited, queue, C := Turn(grid, tempGrid, visited, queue, K, C, point);
    }
  }

  /** A breadth-first solver: the shared solver state (`extends BaseSolver`) and the priority queue. */
  class BFSSolver {
    const base: BaseSolver
    var queue: seq<Coordinate>

    constructor()
      ensures fresh(base) && base.list == [] && base.visited == {} && base.restricted == {} && queue == []
    {
      base := new BaseSolver();
      queue := [];
    }

    /** `init`: the shared state of `BaseSolver.init`, and an empty queue. */
    method Init(maze: Maze)
      requires maze.height >= 0 && maze.width >= 0
      modifies this, base
      ensures base.list == [] && base.visited == {} && base.restricted == {} && base.grid == maze.grid
      ensures fresh(base.tempGrid) && base.tempGrid.Length0 == maze.height && base.tempGrid.Length1 == maze.width
      ensures forall y, x :: 0 <= y < maze.height && 0 <= x < maze.width ==> base.tempGrid[y, x] == 0
      ensures queue == []
    {
      base.Init(maze);
      queue := [];
    }

    /**
     * `bfs` from the start: afterwards the queue is empty, the visited cells
     * keep the relaxation invariant, and every one of them is settled.
     */
    method Bfs(point: Coordinate)
      requires Filled(base.grid, base.tempGrid, point) && base.visited == {}
      modifies this, base, base.tempGrid
      ensures base.grid == old(base.grid) && base.tempGrid == old(base.tempGrid)
      ensures base.list == old(base.list) && base.restricted == old(base.restricted)
      ensures queue == []
      ensures Relaxing(base.grid, base.tempGrid, base.visited, point)
      ensures forall u :: u in base.visited ==> Settled(KindsOf(base.grid), CostsOf(base.tempGrid), base.visited, u)
    {
      var visited, q := Explore(base.grid, base.tempGrid, point);
      base.visited := visited;
      queue := q;
    }

    /**
     * `solve`: init, fill, bfs, then the shared descent.  The visited cells
     * are exactly those connected to the start; every walk from the start
     * costs at least what its last cell was labelled; the answer is empty or
     * a start-to-end path, [start] when start and end coincide, and empty
     * when the end is not connected to the start.
     */
    method Solve(maze: Maze, start: Coordinate, end: Coordinate) returns (path: seq<Coordinate>)
      requires MazeShape(maze)
      requires InGrid(maze.grid, start) && IsPassable(At(maze.grid, start))
      requires InGrid(maze.grid, end) && IsPassable(At(maze.grid, end))
      modifies this, base
      ensures base.grid == maze.grid && path == base.list
      ensures base.tempGrid.Length0 == maze.height && base.tempGrid.Length1 == maze.width
      ensures path == [] || FoundPath(maze.grid, base.tempGrid, start, end, path)
      ensures start == end ==> path == [start]
      ensures end !in base.visited ==> path == []
      ensures end in base.visited ==> path != []
      ensures start in base.visited && ClosedIn(KindsOf(maze.grid), base.visited)
      ensures forall S :: ClosedIn(KindsOf(maze.grid), S) && start in S ==> base.visited <= S
      ensures forall p :: Walk(KindsOf(maze.grid), p) && p[0] == start ==>
        p[|p| - 1] in base.visited && CostsOf(base.tempGrid)[p[|p| - 1]] <= WalkCost(KindsOf(maze.grid), p)
    {
      Init(maze);
      base.Fill(start);
      Bfs(start);
      Explored(base.grid, base.tempGrid, base.visited, start);
      base.SearchPath(start, end);
      path := base.list;
    }
  }
}
