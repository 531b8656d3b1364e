/**
 * The recursive-backtracking generator: a depth-first carve driven by an
 * explicit stack of passage cells.  Directions are coded 1 (up), 2 (right),
 * 3 (down) and 4 (left); any other code leaves a coordinate where it is.
 */
module Backtracking {
  import opened Grid
  import opened Rand
  import opened BaseGen

  // ---------------------------------------------------------------------
  // Direction codes

  /** The direction a code in 1..4 stands for. */
  function CodeDirection(path: int): Direction
    requires 1 <= path <= 4
  {
    if path == 1 then Up else if path == 2 then Right else if path == 3 then Down else Left
  }

  function CalculateWallX(col: int, path: int): int
  {
    if path == 2 then col + 1 else if path == 4 then col - 1 else col
  }

  function CalculateWallY(row: int, path: int): int
  {
    if path == 1 then row - 1 else if path == 3 then row + 1 else row
  }

  function CalculatePassageX(col: int, path: int): int
  {
    if path == 2 then col + 2 else if path == 4 then col - 2 else col
  }

  function CalculatePassageY(row: int, path: int): int
  {
    if path == 1 then row - 2 else if path == 3 then row + 2 else row
  }

  function WallOf(c: Coordinate, path: int): Coordinate
  {
    Coordinate(CalculateWallY(c.row, path), CalculateWallX(c.col, path))
  }

  function PassageOf(c: Coordinate, path: int): Coordinate
  {
    Coordinate(CalculatePassageY(c.row, path), CalculatePassageX(c.col, path))
  }

  /**
   * The four codes move one step (wall) and two steps (passage) in their
   * direction; every other code leaves the coordinate unchanged.
   */
  lemma CodeGeometry(c: Coordinate, path: int)
    ensures 1 <= path <= 4 ==>
      WallOf(c, path) == Step(c, CodeDirection(path), 1) &&
      PassageOf(c, path) == Step(c, CodeDirection(path), 2)
    ensures !(1 <= path <= 4) ==> WallOf(c, path) == c && PassageOf(c, path) == c
  {
  }

  /** Every direction has a code. */
  lemma EveryDirectionHasCode(d: Direction)
    ensures exists path :: 1 <= path <= 4 && CodeDirection(path) == d
  {
    var path := match d case Up => 1 case Right => 2 case Down => 3 case Left => 4;
    assert CodeDirection(path) == d;
  }

  // ---------------------------------------------------------------------
  // The terrain table

  const CellTypeTable: seq<CellType> := [Normal, Normal, Normal, Ice, Sand]

  /** How many of the first n table slots hold type t. */
  function TableCount(n: nat, t: CellType): (r: nat)
    requires n <= |CellTypeTable|
    ensures r <= n
  {
    if n == 0 then 0 else TableCount(n - 1, t) + (if CellTypeTable[n - 1] == t then 1 else 0)
  }

  /** Every draw is passable, with NORMAL three times in five and ICE and SAND once each. */
  lemma CellTypeTableDistribution()
    ensures forall i :: 0 <= i < |CellTypeTable| ==> IsPassable(CellTypeTable[i])
    ensures TableCount(5, Normal) == 3 && TableCount(5, Ice) == 1 && TableCount(5, Sand) == 1
  {
  }

  // ---------------------------------------------------------------------
  // Helpers over the grid

  /** `int[]` of the first k odd numbers: 1, 3, 5, ... */
  function OddRange(k: nat): (r: seq<int>)
    ensures |r| == k
    ensures forall i :: 0 <= i < k ==> r[i] == 2 * i + 1
  {
    if k == 0 then [] else OddRange(k - 1) + [2 * k - 1]
  }

  /** The coordinates held by a stack of cells. */
  function StackCoordinates(cells: seq<Cell>): set<Coordinate>
  {
    set i | 0 <= i < |cells| :: cells[i].coordinate
  }

  lemma StackCoordinatesCons(cells: seq<Cell>)
    requires |cells| > 0
    ensures StackCoordinates(cells) == {cells[0].coordinate} + StackCoordinates(cells[1..])
  {
    forall c | c in StackCoordinates(cells) ensures c in {cells[0].coordinate} + StackCoordinates(cells[1..]) {
      var i :| 0 <= i < |cells| && cells[i].coordinate == c;
      if i > 0 { assert cells[1..][i - 1].coordinate == c; }
    }
    forall c | c in StackCoordinates(cells[1..]) ensures c in StackCoordinates(cells) {
      var i :| 0 <= i < |cells[1..]| && cells[1..][i].coordinate == c;
      assert cells[i + 1].coordinate == c;
    }
  }

  // ---------------------------------------------------------------------
  // The loop of `start` on the kinds map

  /**
   * The state of the carve between two iterations of `start`'s loop: the
   * start and every stacked cell are carved sites, every opened wall lies
   * between two carved sites, every passable cell can be walked to from
   * the start, there is one opened wall fewer than carved sites, and a
   * carved site off the stack is blocked.
   */
  ghost predicate StackState(m: map<Coordinate, CellType>, s: Coordinate, cells: seq<Cell>)
  {
    s in CarvedSites(m) && StackCoordinates(cells) <= CarvedSites(m) &&
    WallsBetweenCarved(m) && ConnectedFrom(m, s) &&
    |OpenedWalls(m)| + 1 == |CarvedSites(m)| &&
    forall c :: c in CarvedSites(m) ==> Blocked(m, c) || c in StackCoordinates(cells)
  }

  /**
   * A push on the kinds map: opening the WALL along `path` from the carved
   * site a and carving the DEFAULT site behind it keeps every opened wall
   * between two carved sites and every passable cell within walking
   * distance of the start.
   */
  lemma PushKeeps(m: map<Coordinate, CellType>, s: Coordinate, a: Coordinate, path: int, t1: CellType, t2: CellType)
    requires WallsBetweenCarved(m) && ConnectedFrom(m, s) && a in CarvedSites(m) && 1 <= path <= 4
    requires WallOf(a, path) in m && m[WallOf(a, path)] == Wall
    requires PassageOf(a, path) in m && m[PassageOf(a, path)] == Default
    requires IsPassable(t1) && IsPassable(t2)
    ensures WallsBetweenCarved(m[WallOf(a, path) := t1][PassageOf(a, path) := t2])
    ensures ConnectedFrom(m[WallOf(a, path) := t1][PassageOf(a, path) := t2], s)
  {
    var d := CodeDirection(path);
    var w, n := WallOf(a, path), PassageOf(a, path);
    CodeGeometry(a, path);
    SidesOfStep(a, d);
    StepIsAdjacent(a, d);
    assert Step(w, d, 1) == n;
    StepIsAdjacent(w, d);
    assert !IsSite(w) && IsSite(n);
    ExtendConnected(m, s, a, w, n, t1, t2);
    ExtendWalls(m, a, w, n, t1, t2);
  }

  /**
   * The same push adds the new site to the carved sites and one wall to
   * the opened walls, and leaves every blocked site blocked.
   */
  lemma PushCounts(m: map<Coordinate, CellType>, a: Coordinate, path: int, t1: CellType, t2: CellType)
    requires IsSite(a) && 1 <= path <= 4
    requires WallOf(a, path) in m && m[WallOf(a, path)] == Wall
    requires PassageOf(a, path) in m && m[PassageOf(a, path)] == Default
    requires IsPassable(t1) && IsPassable(t2)
    ensures CarvedSites(m[WallOf(a, path) := t1][PassageOf(a, path) := t2]) == CarvedSites(m) + {PassageOf(a, path)}
    ensures |CarvedSites(m[WallOf(a, path) := t1][PassageOf(a, path) := t2])| == |CarvedSites(m)| + 1
    ensures |OpenedWalls(m[WallOf(a, path) := t1][PassageOf(a, path) := t2])| == |OpenedWalls(m)| + 1
    ensures forall e :: Blocked(m, e) ==> Blocked(m[WallOf(a, path) := t1][PassageOf(a, path) := t2], e)
  {
    var w, n := WallOf(a, path), PassageOf(a, path);
    var m1 := m[w := t1];
    CodeGeometry(a, path);
    assert !IsSite(w) && IsSite(n);
    OpenWallKind(m, w, t1);
    CarveSiteKind(m1, n, t2);
    BlockedStable(m, w, t1);
    BlockedStable(m1, n, t2);
  }

  /** A push, followed by stacking the new site, keeps the state. */
  lemma PushStep(m: map<Coordinate, CellType>, s: Coordinate, cells: seq<Cell>, path: int,
                 t1: CellType, t2: CellType, next: Cell)
    requires StackState(m, s, cells) && |cells| > 0 && 1 <= path <= 4
    requires WallOf(cells[0].coordinate, path) in m && m[WallOf(cells[0].coordinate, path)] == Wall
    requires PassageOf(cells[0].coordinate, path) in m && m[PassageOf(cells[0].coordinate, path)] == Default
    requires IsPassable(t1) && IsPassable(t2) && next.coordinate == PassageOf(cells[0].coordinate, path)
    ensures StackState(m[WallOf(cells[0].coordinate, path) := t1][PassageOf(cells[0].coordinate, path) := t2],
      s, [next] + cells)
  {
    var a := cells[0].coordinate;
    var m2 := m[WallOf(a, path) := t1][PassageOf(a, path) := t2];
    StackCoordinatesCons(cells);
    assert a in CarvedSites(m);
    assert WallsBetweenCarved(m2) && ConnectedFrom(m2, s) by {
      PushKeeps(m, s, a, path, t1, t2);
    }
    assert CarvedSites(m2) == CarvedSites(m) + {next.coordinate} && |OpenedWalls(m2)| + 1 == |CarvedSites(m2)| &&
      forall e :: Blocked(m, e) ==> Blocked(m2, e) by {
      PushCounts(m, a, path, t1, t2);
    }
    assert StackCoordinates([next] + cells) == {next.coordinate} + StackCoordinates(cells) by {
      StackCoordinatesCons([next] + cells);
      assert ([next] + cells)[1..] == cells;
    }
  }

  /** Popping a blocked top of the stack keeps the state. */
  lemma PopStep(m: map<Coordinate, CellType>, s: Coordinate, cells: seq<Cell>)
    requires StackState(m, s, cells) && |cells| > 0 && Blocked(m, cells[0].coordinate)
    ensures StackState(m, s, cells[1..])
  {
    StackCoordinatesCons(cells);
  }

  class RecursiveBacktrackingGenerator {
    var grid: array2<Cell>
    const random: RandomSource

    constructor (random: RandomSource)
      ensures this.random == random
    {
      this.random := random;
      grid := new Cell[0, 0];
    }

    /**
     * `generate`: on odd dimensions the result is a carving grid in which
     * every site is carved, every opened wall lies between two carved
     * sites, every passable cell can be walked to from every other, there
     * is one more carved site than opened walls, and no carved site can be
     * extended any further.
     */
    method Generate(height: int, width: int) returns (m: Maze)
      requires OddDims(height, width)
      modifies this, random
      ensures fresh(grid) && m == Maze(height, width, grid)
      ensures grid.Length0 == height && grid.Length1 == width
      ensures Carving(grid)
      ensures DefaultSites(KindsOf(grid)) == {}
      ensures forall z :: z in KindsOf(grid) && IsSite(z) ==> z in CarvedSites(KindsOf(grid))
      ensures WallsBetweenCarved(KindsOf(grid)) && Connected(KindsOf(grid))
      ensures |OpenedWalls(KindsOf(grid))| + 1 == |CarvedSites(KindsOf(grid))|
      ensures forall c :: c in CarvedSites(KindsOf(grid)) ==> Blocked(KindsOf(grid), c)
    {
      Fill(height, width);
      var startPoint := SelectStartPoint(height, width);
      Start(startPoint);
      m := Maze(height, width, grid);
    }

    /** `fill`: a fresh grid, every entry in its initial state. */
    method Fill(height: int, width: int)
      requires height >= 0 && width >= 0
      modifies this
      ensures fresh(grid) && IsFilled(grid, height, width)
    {
      grid := new Cell[height, width];
      var y := 0;
      while y < height
        invariant 0 <= y <= height
        invariant fresh(grid) && grid.Length0 == height && grid.Length1 == width
        invariant forall i, j :: 0 <= i < y && 0 <= j < width ==> grid[i, j] == InitialCell(i, j, height, width)
      {
        var x := 0;
        while x < width
          invariant 0 <= x <= width
          invariant fresh(grid) && grid.Length0 == height && grid.Length1 == width
          invariant forall i, j :: 0 <= i < y && 0 <= j < width ==> grid[i, j] == InitialCell(i, j, height, width)
          invariant forall j :: 0 <= j < x ==> grid[y, j] == InitialCell(y, j, height, width)
        {
          if x % 2 != 0 && y % 2 != 0 {
            grid[y, x] := Cell(Coordinate(y, x), Default);
          } else if x == 0 || y == 0 || x == width - 1 || y == height - 1 {
            grid[y, x] := Cell(Coordinate(y, x), Bedrock);
          } else {
            grid[y, x] := Cell(Coordinate(y, x), Wall);
          }
          x := x + 1;
        }
        y := y + 1;
      }
    }

    /**
     * `selectStartPoint`: the cell at a row drawn from 1, 3, ... below
     * height and a column drawn likewise below width.
     */
    method SelectStartPoint(height: int, width: int) returns (c: Cell)
      requires height >= 2 && width >= 2
      requires grid.Length0 == height && grid.Length1 == width
      modifies random
      ensures exists r, k ::
        (0 <= r < height && 0 <= k < width &&
         r % 2 == 1 && r <= 2 * (height / 2) - 1 && k % 2 == 1 && k <= 2 * (width / 2) - 1 &&
         c == grid[r, k])
    {
      var rangeHeight := OddRange(height / 2);
      var rangeWidth := OddRange(width / 2);
      var i := random.NextInt(|rangeHeight|);
      var h := rangeHeight[i];
      var j := random.NextInt(|rangeWidth|);
      var w := rangeWidth[j];
      c := grid[h, w];
    }

    /**
     * `start`: carves from the start site until the stack empties.  Every
     * carved site ends up blocked, each push opened exactly one wall, and
     * once every carved site is blocked the carve has reached every site
     * and every passable cell can be walked to from every other.
     */
    method Start(startPoint: Cell)
      requires OddDims(grid.Length0, grid.Length1) && IsFilled(grid, grid.Length0, grid.Length1)
      requires InGrid(grid, startPoint.coordinate) && IsSite(startPoint.coordinate)
      modifies grid, random
      ensures Carving(grid)
      ensures startPoint.coordinate in CarvedSites(KindsOf(grid))
      ensures DefaultSites(KindsOf(grid)) == {}
      ensures forall z :: z in KindsOf(grid) && IsSite(z) ==> z in CarvedSites(KindsOf(grid))
      ensures WallsBetweenCarved(KindsOf(grid))
      ensures ConnectedFrom(KindsOf(grid), startPoint.coordinate) && Connected(KindsOf(grid))
      ensures |OpenedWalls(KindsOf(grid))| + 1 == |CarvedSites(KindsOf(grid))|
      ensures forall c :: c in CarvedSites(KindsOf(grid)) ==> Blocked(KindsOf(grid), c)
    {
      var s := startPoint.coordinate;
      FilledIsCarving(grid);
      FilledHasNothingCarved(grid);
      assert grid[s.row, s.col] == InitialCell(s.row, s.col, grid.Length0, grid.Length1);
      ghost var m0 := KindsOf(grid);
      Carve(s);
      CarveSiteKind(m0, s, At(grid, s));
      var cells := [grid[s.row, s.col]];
      FirstPush(s, cells);

      while |cells| > 0
        invariant StackInvariant(s, cells)
        decreases |DefaultSites(KindsOf(grid))|, |cells|
      {
        cells := StackStep(s, cells);
      }
      CarvedEverywhere(grid, s);
      AllLinked(KindsOf(grid), s);
    }

    /** What holds between two iterations of `start`'s loop: a carving grid in the `StackState`. */
    ghost predicate StackInvariant(s: Coordinate, cells: seq<Cell>)
      reads this, grid
    {
      Carving(grid) && StackState(KindsOf(grid), s, cells)
    }

    /** The stack holding only the carved start satisfies the loop invariant. */
    lemma FirstPush(s: Coordinate, cells: seq<Cell>)
      requires Carving(grid) && CarvedSites(KindsOf(grid)) == {s} && OpenedWalls(KindsOf(grid)) == {}
      requires cells == [grid[s.row, s.col]] && InGrid(grid, s) && grid[s.row, s.col].coordinate == s
      ensures StackInvariant(s, cells)
    {
      StackCoordinatesCons(cells);
      SoleCarve(KindsOf(grid), s);
    }

    /**
     * One iteration of `start`'s loop: peek, then push the cell `selectPath`
     * leads to, or pop when it returns -1.  Either fewer DEFAULT sites
     * remain, or as many and a shorter stack.
     */
    method StackStep(s: Coordinate, cells: seq<Cell>) returns (cells': seq<Cell>)
      requires StackInvariant(s, cells) && |cells| > 0
      modifies grid, random
      ensures StackInvariant(s, cells')
      ensures |DefaultSites(KindsOf(grid))| < old(|DefaultSites(KindsOf(grid))|) ||
        (KindsOf(grid) == old(KindsOf(grid)) && |cells'| < |cells|)
    {
      ghost var m := KindsOf(grid);
      var top := cells[0];
      StackCoordinatesCons(cells);
      SiteIsInterior(grid, top.coordinate);
      var path := SelectPath(top);
      assert KindsOf(grid) == m;
      if path != -1 {
        var next := Push(top, path);
        PushStep(m, s, cells, path, At(grid, WallOf(top.coordinate, path)), At(grid, next.coordinate), next);
        cells' := [next] + cells;
      } else {
        NoPathMeansBlocked(top);
        PopStep(m, s, cells);
        cells' := cells[1..];
      }
    }

    /**
     * One push of `start`: opens the WALL next to `top` in direction `path`
     * and carves the DEFAULT site behind it, both with random terrain.
     */
    method Push(top: Cell, path: int) returns (next: Cell)
      requires Carving(grid) && IsSite(top.coordinate) && Interior(grid, top.coordinate)
      requires 1 <= path <= 4 && CheckPath(top, path)
      modifies grid, random
      ensures Carving(grid)
      ensures next.coordinate == PassageOf(top.coordinate, path)
      ensures old(At(grid, WallOf(top.coordinate, path))) == Wall && old(At(grid, next.coordinate)) == Default
      ensures IsPassable(At(grid, WallOf(top.coordinate, path))) && IsPassable(At(grid, next.coordinate))
      ensures KindsOf(grid) == old(KindsOf(grid))
        [WallOf(top.coordinate, path) := At(grid, WallOf(top.coordinate, path))]
        [next.coordinate := At(grid, next.coordinate)]
      ensures CarvedSites(KindsOf(grid)) == CarvedSites(old(KindsOf(grid))) + {next.coordinate}
      ensures |CarvedSites(KindsOf(grid))| == |CarvedSites(old(KindsOf(grid)))| + 1
      ensures |OpenedWalls(KindsOf(grid))| == |OpenedWalls(old(KindsOf(grid)))| + 1
      ensures |DefaultSites(KindsOf(grid))| == |DefaultSites(old(KindsOf(grid)))| - 1
      ensures forall e :: Blocked(old(KindsOf(grid)), e) ==> Blocked(KindsOf(grid), e)
    {
      var p := top.coordinate;
      CodeGeometry(p, path);
      StepInside(grid, p, CodeDirection(path));
      var xWall := CalculateWallX(p.col, path);
      var yWall := CalculateWallY(p.row, path);
      var xPassage := CalculatePassageX(p.col, path);
      var yPassage := CalculatePassageY(p.row, path);
      var wall, passage := Coordinate(yWall, xWall), Coordinate(yPassage, xPassage);
      assert At(grid, wall) == Wall && At(grid, passage) == Default;

      ghost var m0 := KindsOf(grid);
      Carve(wall);
      ghost var t1 := At(grid, wall);
      OpenWallKind(m0, wall, t1);
      BlockedStable(m0, wall, t1);
      ghost var m1 := KindsOf(grid);
      Carve(passage);
      ghost var t2 := At(grid, passage);
      CarveSiteKind(m1, passage, t2);
      BlockedStable(m1, passage, t2);
      assert At(grid, wall) == t1;

      next := grid[yPassage, xPassage];
    }

    /** When no code passes `checkPath`, the site is blocked in every direction. */
    lemma NoPathMeansBlocked(top: Cell)
      requires Carving(grid) && IsSite(top.coordinate) && Interior(grid, top.coordinate)
      requires forall code :: 1 <= code <= 4 ==> !CheckPath(top, code)
      ensures Blocked(KindsOf(grid), top.coordinate)
    {
      var p := top.coordinate;
      BlockedMeansNoCarve(grid, p);
      forall d: Direction ensures !CanCarve(grid, p, d) {
        StepInside(grid, p, d);
        var code := match d case Up => 1 case Right => 2 case Down => 3 case Left => 4;
        assert d == CodeDirection(code) && !CheckPath(top, code);
      }
    }

    /**
     * The assignment `grid[y][x] = new Cell(new Coordinate(y, x),
     * getRandomCellType())` that `start` performs on a DEFAULT site or a
     * WALL: one entry changes, to passable terrain.
     */
    method Carve(c: Coordinate)
      requires Carving(grid) && InGrid(grid, c)
      requires At(grid, c) == Default || At(grid, c) == Wall
      modifies grid, random
      ensures grid[c.row, c.col].coordinate == c && IsPassable(At(grid, c))
      ensures forall y, x :: 0 <= y < grid.Length0 && 0 <= x < grid.Length1 && Coordinate(y, x) != c ==>
        grid[y, x] == old(grid[y, x])
      ensures Carving(grid)
      ensures old(At(grid, c)) == Default ==> IsSite(c)
      ensures old(At(grid, c)) == Wall ==> !IsSite(c)
      ensures KindsOf(grid) == old(KindsOf(grid))[c := At(grid, c)]
    {
      CarvingKinds(grid, c);
      ghost var before := KindsOf(grid);
      var t := GetRandomCellType();
      grid[c.row, c.col] := Cell(Coordinate(c.row, c.col), t);
      KindsAfterWrite(grid, before, c);
    }

    /**
     * `selectPath`: draws codes from [1, 2, 3, 4] without replacement until
     * one passes `checkPath`; -1 exactly when none of the four does.
     */
    method SelectPath(point: Cell) returns (selected: int)
      requires Carving(grid) && IsSite(point.coordinate) && Interior(grid, point.coordinate)
      modifies random
      ensures selected == -1 || 1 <= selected <= 4
      ensures selected != -1 ==> CheckPath(point, selected)
      ensures selected == -1 <==> forall code :: 1 <= code <= 4 ==> !CheckPath(point, code)
    {
      var paths := [1, 2, 3, 4];
      selected := -1;
      while |paths| > 0 && selected == -1
        invariant forall code :: code in paths ==> 1 <= code <= 4
        invariant selected == -1 || (1 <= selected <= 4 && CheckPath(point, selected))
        invariant forall code :: 1 <= code <= 4 && code !in paths ==> !CheckPath(point, code)
        decreases |paths| + (if selected == -1 then 1 else 0)
      {
        var i := random.NextInt(|paths|);
        var path := paths[i];
        if CheckPath(point, path) {
          selected := path;
        } else {
          ghost var before := paths;
          paths := RemoveFirst(paths, path);
          forall code | 1 <= code <= 4 && code in before && code != path ensures code in paths {
            RemoveFirstKeeps(before, path, code);
          }
        }
      }
    }

    /**
     * `checkPath`: the cell one step along the code is WALL and the cell
     * two steps along is DEFAULT; for a direction code this is `CanCarve`.
     */
    function CheckPath(point: Cell, path: int): (b: bool)
      requires Carving(grid) && IsSite(point.coordinate) && Interior(grid, point.coordinate)
      reads this, grid
      ensures 1 <= path <= 4 ==> (b <==> CanCarve(grid, point.coordinate, CodeDirection(path)))
      ensures !(1 <= path <= 4) ==> !b
    {
      CodeGeometry(point.coordinate, path);
      if 1 <= path <= 4 then
        StepInside(grid, point.coordinate, CodeDirection(path));
        At(grid, WallOf(point.coordinate, path)) == Wall && At(grid, PassageOf(point.coordinate, path)) == Default
      else
        At(grid, WallOf(point.coordinate, path)) == Wall && At(grid, PassageOf(point.coordinate, path)) == Default
    }

    /** `getRandomCellType`: a slot of the five-entry table. */
    method GetRandomCellType() returns (t: CellType)
      modifies random
      ensures t in CellTypeTable && IsPassable(t)
    {
      var i := random.NextInt(|CellTypeTable|);
      t := CellTypeTable[i];
    }
  }
}
