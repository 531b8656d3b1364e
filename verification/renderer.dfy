/**
 * `BaseRenderer`: the maze as text for an ANSI terminal.  Every grid row
 * becomes one line ended by '\n'; every cell is the escape code of its
 * colour, two block characters and the reset code.  A path is drawn by
 * colouring its first cell green, its last cell orange and the passable
 * cells between red.  The nullable path argument is an `Option`.
 */
module Renderer {
  import opened Grid

  /** The `Color` constants. */
  datatype Color = Black | White | Green | Red | Cyan | Purple | Yellow | Orange | Reset

  /** The character that draws a cell, twice per cell. */
  const RECTANGLE: char := '\U{2588}'

  /** The whole answer when the solver found no path. */
  const NO_PATH_FOUND: string := "NO PATH FOUND"

  /** The 24-bit foreground escape sequence of each colour, and the reset sequence. */
  function ColorCode(c: Color): string
  {
    match c
    case Black => "\U{1B}[38;2;0;0;0m"
    case White => "\U{1B}[38;2;240;240;240m"
    case Green => "\U{1B}[38;2;21;212;0m"
    case Red => "\U{1B}[38;2;222;150;150m"
    case Cyan => "\U{1B}[38;2;123;255;255m"
    case Purple => "\U{1B}[38;2;195;161;255m"
    case Yellow => "\U{1B}[38;2;255;248;163m"
    case Orange => "\U{1B}[38;2;255;111;5m"
    case Reset => "\U{1B}[0m"
  }

  /** `getColor`: the colour of a cell by its type, red for a passable cell on the path. */
  function GetColor(t: CellType, isOnPath: bool): Color
  {
    match t
    case Bedrock => Purple
    case Normal => if isOnPath then Red else Black
    case Ice => if isOnPath then Red else Cyan
    case Sand => if isOnPath then Red else Yellow
    case Wall => White
    case _ => Red
  }

  /** `getSpecialColor`: green for the start marker, orange for the end marker. */
  function GetSpecialColor(t: CellType): Color
  {
    match t
    case Start => Green
    case End => Orange
    case _ => Red
  }

  /**
   * The colour `render` gives a cell: the start marker for the path's first
   * coordinate, the end marker for its last, otherwise the colour of its
   * type.
   */
  function CellColor(cell: Cell, path: Option<seq<Coordinate>>): Color
    requires path.Some? ==> |path.value| > 0
  {
    var isOnPath := path.Some? && cell.coordinate in path.value;
    if isOnPath && cell.coordinate == path.value[0] then GetSpecialColor(Start)
    else if isOnPath && cell.coordinate == path.value[|path.value| - 1] then GetSpecialColor(End)
    else GetColor(cell.kind, isOnPath)
  }

  /** What both `renderCell` overloads append: colour code, two rectangles, reset. */
  function CellText(c: Color): (s: string)
    ensures '\n' !in s
  {
    CodeHasNoBreak(c);
    CodeHasNoBreak(Reset);
    ColorCode(c) + [RECTANGLE, RECTANGLE] + ColorCode(Reset)
  }

  /** Every code is a single escape sequence: it starts with ESC and holds no line break. */
  lemma CodeHasNoBreak(c: Color)
    ensures |ColorCode(c)| > 0 && ColorCode(c)[0] == '\U{1B}' && '\n' !in ColorCode(c)
  {
  }

  /** The text of the first x cells of row y. */
  function RowText(g: array2<Cell>, y: int, x: int, path: Option<seq<Coordinate>>): (s: string)
    reads g
    requires 0 <= y < g.Length0 && 0 <= x <= g.Length1 && (path.Some? ==> |path.value| > 0)
    ensures '\n' !in s
    decreases x
  {
    if x == 0 then "" else RowText(g, y, x - 1, path) + CellText(CellColor(g[y, x - 1], path))
  }

  /** The text of the first y rows: each row's cells and a line break. */
  function GridText(g: array2<Cell>, y: int, path: Option<seq<Coordinate>>): string
    reads g
    requires 0 <= y <= g.Length0 && (path.Some? ==> |path.value| > 0)
    decreases y
  {
    if y == 0 then "" else GridText(g, y - 1, path) + RowText(g, y - 1, g.Length1, path) + "\n"
  }

  /** The text of y rows holds exactly y line breaks, the last of them at its end. */
  lemma {:induction false} GridLines(g: array2<Cell>, y: int, path: Option<seq<Coordinate>>)
    requires 0 <= y <= g.Length0 && (path.Some? ==> |path.value| > 0)
    ensures multiset(GridText(g, y, path))['\n'] == y
    ensures y > 0 ==> |GridText(g, y, path)| > 0 && GridText(g, y, path)[|GridText(g, y, path)| - 1] == '\n'
    decreases y
  {
    if y > 0 {
      GridLines(g, y - 1, path);
      var prev, row := GridText(g, y - 1, path), RowText(g, y - 1, g.Length1, path);
      assert GridText(g, y, path) == prev + row + "\n";
      assert multiset(row)['\n'] == 0;
      assert multiset(prev + row + "\n") == multiset(prev) + multiset(row) + multiset{'\n'};
    }
  }

  /** The whole of `render(maze, path)`. */
  function RenderText(g: array2<Cell>, path: Option<seq<Coordinate>>): string
    reads g
  {
    if path == Some([]) then NO_PATH_FOUND else GridText(g, g.Length0, path)
  }

  /**
   * `render(maze, path)`: the fixed message for an empty path; otherwise the
   * grid row by row, each line ended by '\n'.  The grid is only read.
   */
  method Render(maze: Maze, path: Option<seq<Coordinate>>) returns (result: string)
    ensures result == RenderText(maze.grid, path)
    ensures path == Some([]) ==> result == NO_PATH_FOUND
    ensures path != Some([]) ==> multiset(result)['\n'] == maze.grid.Length0
  {
    if path.Some? && |path.value| == 0 {
      return NO_PATH_FOUND;
    }
    var g := maze.grid;
    result := "";
    for y := 0 to g.Length0
      invariant result == GridText(g, y, path)
    {
      var row := RenderRow(g, y, path);
      result := result + row + "\n";
    }
    GridLines(g, g.Length0, path);
  }

  /** The inner loop of `render`: the cells of row y, left to right. */
  method RenderRow(g: array2<Cell>, y: int, path: Option<seq<Coordinate>>) returns (row: string)
    requires 0 <= y < g.Length0 && (path.Some? ==> |path.value| > 0)
    ensures row == RowText(g, y, g.Length1, path)
  {
    row := "";
    for x := 0 to g.Length1
      invariant row == RowText(g, y, x, path)
    {
      var text := CellTextAt(g[y, x], path);
      row := row + text;
    }
  }

  /**
   * One cell of the loop of `render`: the start marker for the path's first
   * coordinate, the end marker for its last, otherwise `renderCell` by type.
   */
  method CellTextAt(cell: Cell, path: Option<seq<Coordinate>>) returns (text: string)
    requires path.Some? ==> |path.value| > 0
    ensures text == CellText(CellColor(cell, path))
  {
    var isOnPath := path.Some? && cell.coordinate in path.value;
    if isOnPath && cell.coordinate == path.value[0] {
      text := CellText(GetSpecialColor(Start));
    } else if isOnPath && cell.coordinate == path.value[|path.value| - 1] {
      text := CellText(GetSpecialColor(End));
    } else {
      text := CellText(GetColor(cell.kind, isOnPath));
    }
  }

  /** `render(maze)`: the same text as `render(maze, null)`. */
  method RenderMaze(maze: Maze) returns (result: string)
    ensures result == RenderText(maze.grid, None)
    ensures multiset(result)['\n'] == maze.grid.Length0
  {
    result := Render(maze, None);
  }

  // ---------------------------------------------------------------------
  // What the colours tell a reader

  /** The legend: which cell type each colour of an unmarked cell stands for. */
  function Legend(c: Color): Option<CellType>
  {
    match c
    case Purple => Some(Bedrock)
    case Black => Some(Normal)
    case Cyan => Some(Ice)
    case Yellow => Some(Sand)
    case White => Some(Wall)
    case _ => None
  }

  /**
   * Off the path, the colour of every type a generated maze holds reads
   * back through the legend; on the path, passable cells turn red, which
   * the legend does not use, while WALL and BEDROCK keep their colour.
   */
  lemma LegendReadsBack(t: CellType)
    requires t in {Bedrock, Normal, Ice, Sand, Wall}
    ensures Legend(GetColor(t, false)) == Some(t)
    ensures IsPassable(t) ==> GetColor(t, true) == Red && Legend(Red) == None
    ensures !IsPassable(t) ==> GetColor(t, true) == GetColor(t, false)
  {
  }

  /**
   * The colours of a path: its first cell green, its last cell orange when
   * it differs from the first, the passable cells between red, WALL and
   * BEDROCK on the path in their own colour, and cells off the path as if
   * no path were given.
   */
  lemma PathColors(cell: Cell, p: seq<Coordinate>)
    requires |p| > 0
    ensures cell.coordinate == p[0] ==> CellColor(cell, Some(p)) == Green
    ensures cell.coordinate == p[|p| - 1] && cell.coordinate != p[0] ==> CellColor(cell, Some(p)) == Orange
    ensures cell.coordinate in p && cell.coordinate != p[0] && cell.coordinate != p[|p| - 1] ==>
      (IsPassable(cell.kind) ==> CellColor(cell, Some(p)) == Red) &&
      (cell.kind == Wall ==> CellColor(cell, Some(p)) == White) &&
      (cell.kind == Bedrock ==> CellColor(cell, Some(p)) == Purple)
    ensures cell.coordinate !in p ==> CellColor(cell, Some(p)) == CellColor(cell, None)
  {
  }

  /** Green and orange mark only the ends of a path: no unmarked cell gets them. */
  lemma MarkersOnlyAtEnds(cell: Cell, path: Option<seq<Coordinate>>)
    requires path.Some? ==> |path.value| > 0
    ensures CellColor(cell, path) == Green ==> path.Some? && cell.coordinate == path.value[0]
    ensures CellColor(cell, path) == Orange ==> path.Some? && cell.coordinate == path.value[|path.value| - 1]
  {
  }
}
