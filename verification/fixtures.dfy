/**
 * The scenarios of the test class, run against the model: the 5x5 maze of
 * the solver and renderer tests, the same maze with (1,2) walled in, and
 * what each solver and the renderer answer on them.
 */
module Fixtures {
  import opened Grid
  import opened BaseGen
  import opened Solving
  import Bfs
  import Dfs
  import Renderer

  /**
   * The cell types of the test maze: a BEDROCK frame around a 3x3
   * interior, NORMAL except for the WALL cells (2,2) and (3,2).
   */
  function FixtureKind(y: int, x: int): CellType
  {
    if y == 0 || y == 4 || x == 0 || x == 4 then Bedrock
    else if x == 2 && y >= 2 then Wall
    else Normal
  }

  /** `setUP`: the 5x5 maze of the tests, each cell carrying its own coordinate. */
  method FixtureMaze() returns (maze: Maze)
    ensures fresh(maze.grid) && MazeShape(maze) && maze.height == 5 && maze.width == 5
    ensures forall y, x :: 0 <= y < 5 && 0 <= x < 5 ==> maze.grid[y, x] == Cell(Coordinate(y, x), FixtureKind(y, x))
  {
    var grid := new Cell[5, 5]((y, x) => Cell(Coordinate(y, x), FixtureKind(y, x)));
    maze := Maze(5, 5, grid);
  }

  /** The test maze with (1,2) turned into a WALL, as the no-path tests do. */
  method BlockedMaze() returns (maze: Maze)
    ensures fresh(maze.grid) && MazeShape(maze) && maze.height == 5 && maze.width == 5
    ensures forall y, x :: 0 <= y < 5 && 0 <= x < 5 ==>
      maze.grid[y, x].kind == if y == 1 && x == 2 then Wall else FixtureKind(y, x)
  {
    maze := FixtureMaze();
    maze.grid[1, 2] := Cell(Coordinate(1, 2), Wall);
  }

  /** A way from the start (1,1) round the WALL cells to the end (3,3). */
  const OPEN_WALK: seq<Coordinate> :=
    [Coordinate(1, 1), Coordinate(1, 2), Coordinate(1, 3), Coordinate(2, 3), Coordinate(3, 3)]

  /** In the test maze the end (3,3) can be walked to from the start (1,1). */
  lemma OpenWalk(g: array2<Cell>)
    requires g.Length0 == 5 && g.Length1 == 5
    requires forall y, x :: 0 <= y < 5 && 0 <= x < 5 ==> g[y, x] == Cell(Coordinate(y, x), FixtureKind(y, x))
    ensures Walk(KindsOf(g), OPEN_WALK) && OPEN_WALK[0] == Coordinate(1, 1) && OPEN_WALK[|OPEN_WALK| - 1] == Coordinate(3, 3)
  {
    var K := KindsOf(g);
    forall i | 0 <= i < |OPEN_WALK| ensures OPEN_WALK[i] in K && IsPassable(K[OPEN_WALK[i]]) {
      var c := OPEN_WALK[i];
      assert K[c] == g[c.row, c.col].kind;
    }
  }

  /** `ableToFindPathBFSSolver`: BFS finds a path in the test maze. */
  method PathBfs() returns (path: seq<Coordinate>)
    ensures path != [] && path[0] == Coordinate(1, 1) && path[|path| - 1] == Coordinate(3, 3)
  {
    var maze := FixtureMaze();
    OpenWalk(maze.grid);
    var solver := new Bfs.BFSSolver();
    path := solver.Solve(maze, Coordinate(1, 1), Coordinate(3, 3));
  }

  /** `ableToFindPathDFSSolver`, with the corrected search: a path from start to end. */
  method PathDfs() returns (path: seq<Coordinate>)
    ensures path != [] && path[0] == Coordinate(1, 1) && path[|path| - 1] == Coordinate(3, 3)
  {
    var maze := FixtureMaze();
    OpenWalk(maze.grid);
    var solver := new Dfs.DFSSolver();
    path := solver.Solve(maze, Coordinate(1, 1), Coordinate(3, 3));
  }

  /**
   * `ableToFindPathDFSSolver` against `DFSSolver` as written: the search
   * returns a non-empty list, which runs from the end back to the start.
   */
  method PathDfsAsWritten() returns (r: Dfs.Outcome<seq<Coordinate>>)
    ensures r.Returned? && r.value != [] && r.value[0] == Coordinate(3, 3)
  {
    var maze := FixtureMaze();
    OpenWalk(maze.grid);
    var solver := new Dfs.DFSSolver();
    r := solver.SolveAsWritten(maze, Coordinate(1, 1), Coordinate(3, 3));
  }

  /** The cells the start (1,1) can reach in the blocked maze. */
  const LEFT_COLUMN: set<Coordinate> := {Coordinate(1, 1), Coordinate(2, 1), Coordinate(3, 1)}

  /**
   * In the blocked maze nothing passable leads out of the left column, so
   * the end (3,3) cannot be reached from the start (1,1).
   */
  lemma LeftColumnClosed(g: array2<Cell>)
    requires g.Length0 == 5 && g.Length1 == 5
    requires forall y, x :: 0 <= y < 5 && 0 <= x < 5 ==>
      g[y, x].kind == if y == 1 && x == 2 then Wall else FixtureKind(y, x)
    ensures ClosedIn(KindsOf(g), LEFT_COLUMN) && Coordinate(1, 1) in LEFT_COLUMN && Coordinate(3, 3) !in LEFT_COLUMN
  {
    var K := KindsOf(g);
    forall c, n | c in LEFT_COLUMN && n in K && Adjacent(c, n) && IsPassable(K[n])
      ensures n in LEFT_COLUMN
    {
      assert K[n] == g[n.row, n.col].kind;
    }
  }

  /** `ableToFindNoPathBFSSolver`: BFS answers the blocked maze with the empty list. */
  method NoPathBfs() returns (path: seq<Coordinate>)
    ensures path == []
  {
    var maze := BlockedMaze();
    LeftColumnClosed(maze.grid);
    var solver := new Bfs.BFSSolver();
    path := solver.Solve(maze, Coordinate(1, 1), Coordinate(3, 3));
  }

  /** `ableToFindNoPathDFSSolver`, with the corrected search: the empty list. */
  method NoPathDfs() returns (path: seq<Coordinate>)
    ensures path == []
  {
    var maze := BlockedMaze();
    LeftColumnClosed(maze.grid);
    var solver := new Dfs.DFSSolver();
    path := solver.Solve(maze, Coordinate(1, 1), Coordinate(3, 3));
  }

  /**
   * `ableToFindNoPathDFSSolver` against `DFSSolver` as written: the search
   * throws NoSuchElementException where the test expects an empty list.
   */
  method NoPathDfsAsWritten() returns (r: Dfs.Outcome<seq<Coordinate>>)
    ensures r.Thrown?
  {
    var maze := BlockedMaze();
    LeftColumnClosed(maze.grid);
    var solver := new Dfs.DFSSolver();
    r := solver.SolveAsWritten(maze, Coordinate(1, 1), Coordinate(3, 3));
  }

  // ---------------------------------------------------------------------
  // correctMazeDisplay

  const PURPLE_CELL: string := "\U{1B}[38;2;195;161;255m\U{2588}\U{2588}\U{1B}[0m"
  const BLACK_CELL: string := "\U{1B}[38;2;0;0;0m\U{2588}\U{2588}\U{1B}[0m"
  const WHITE_CELL: string := "\U{1B}[38;2;240;240;240m\U{2588}\U{2588}\U{1B}[0m"

  /** The frame rows, the open row and the rows with a WALL in the middle, as the test spells them. */
  const EDGE_LINE: string := PURPLE_CELL + PURPLE_CELL + PURPLE_CELL + PURPLE_CELL + PURPLE_CELL + "\n"
  const OPEN_LINE: string := PURPLE_CELL + BLACK_CELL + BLACK_CELL + BLACK_CELL + PURPLE_CELL + "\n"
  const WALL_LINE: string := PURPLE_CELL + BLACK_CELL + WHITE_CELL + BLACK_CELL + PURPLE_CELL + "\n"

  /** The text the rendering test expects for the test maze. */
  const EXPECTED_DISPLAY: string := EDGE_LINE + OPEN_LINE + WALL_LINE + WALL_LINE + EDGE_LINE

  /** The three cells of the test maze as the test spells them. */
  lemma FixtureCells()
    ensures Renderer.CellText(Renderer.Purple) == PURPLE_CELL
    ensures Renderer.CellText(Renderer.Black) == BLACK_CELL
    ensures Renderer.CellText(Renderer.White) == WHITE_CELL
  {
  }

  /** Row y of a five-column grid drawn without a path: its five cells in order. */
  lemma RowOfFive(g: array2<Cell>, y: int, a: Renderer.Color, b: Renderer.Color, c: Renderer.Color,
                  d: Renderer.Color, e: Renderer.Color)
    requires g.Length1 == 5 && 0 <= y < g.Length0
    requires Renderer.CellColor(g[y, 0], None) == a && Renderer.CellColor(g[y, 1], None) == b
    requires Renderer.CellColor(g[y, 2], None) == c && Renderer.CellColor(g[y, 3], None) == d
    requires Renderer.CellColor(g[y, 4], None) == e
    ensures Renderer.RowText(g, y, 5, None) + "\n" ==
      Renderer.CellText(a) + Renderer.CellText(b) + Renderer.CellText(c) + Renderer.CellText(d) + Renderer.CellText(e) + "\n"
  {
    var ta, tb, tc, td, te := Renderer.CellText(a), Renderer.CellText(b), Renderer.CellText(c), Renderer.CellText(d), Renderer.CellText(e);
    assert Renderer.RowText(g, y, 1, None) == ta;
    assert Renderer.RowText(g, y, 2, None) == ta + tb;
    assert Renderer.RowText(g, y, 3, None) == ta + tb + tc;
    assert Renderer.RowText(g, y, 4, None) == ta + tb + tc + td;
  }

  /** A grid of five rows drawn without a path: its five lines in order. */
  lemma FiveLines(g: array2<Cell>, l0: string, l1: string, l2: string, l3: string, l4: string)
    requires g.Length0 == 5
    requires Renderer.RowText(g, 0, g.Length1, None) + "\n" == l0
    requires Renderer.RowText(g, 1, g.Length1, None) + "\n" == l1
    requires Renderer.RowText(g, 2, g.Length1, None) + "\n" == l2
    requires Renderer.RowText(g, 3, g.Length1, None) + "\n" == l3
    requires Renderer.RowText(g, 4, g.Length1, None) + "\n" == l4
    ensures Renderer.GridText(g, 5, None) == l0 + l1 + l2 + l3 + l4
  {
    assert Renderer.GridText(g, 1, None) == l0;
    assert Renderer.GridText(g, 2, None) == l0 + l1;
    assert Renderer.GridText(g, 3, None) == l0 + l1 + l2;
    assert Renderer.GridText(g, 4, None) == l0 + l1 + l2 + l3;
  }

  /** `correctMazeDisplay`: the test maze renders to exactly the expected text. */
  method CorrectMazeDisplay() returns (text: string)
    ensures text == EXPECTED_DISPLAY
  {
    var maze := FixtureMaze();
    text := Renderer.RenderMaze(maze);
    FixtureDisplay(maze.grid);
  }

  /** The rows of the test maze: a purple frame, black open cells, white WALL cells. */
  lemma FixtureDisplay(g: array2<Cell>)
    requires g.Length0 == 5 && g.Length1 == 5
    requires forall y, x :: 0 <= y < 5 && 0 <= x < 5 ==> g[y, x] == Cell(Coordinate(y, x), FixtureKind(y, x))
    ensures Renderer.GridText(g, 5, None) == EXPECTED_DISPLAY
  {
    var P, B, W := Renderer.Purple, Renderer.Black, Renderer.White;
    RowOfFive(g, 0, P, P, P, P, P);
    RowOfFive(g, 1, P, B, B, B, P);
    RowOfFive(g, 2, P, B, W, B, P);
    RowOfFive(g, 3, P, B, W, B, P);
    RowOfFive(g, 4, P, P, P, P, P);
    var tp, tb, tw := Renderer.CellText(P), Renderer.CellText(B), Renderer.CellText(W);
    FiveLines(g, tp + tp + tp + tp + tp + "\n", tp + tb + tb + tb + tp + "\n", tp + tb + tw + tb + tp + "\n",
              tp + tb + tw + tb + tp + "\n", tp + tp + tp + tp + tp + "\n");
    FixtureCells();
  }
}
