/**
 * The maze's data model: terrain types with their weights, coordinates,
 * cells, directions, the maze record, the configured size limits and
 * Java's 32-bit `int` addition.  Also the predicates over a grid
 * (`array2<Cell>`) that the generators, the modifier and the solvers share.
 */
module Grid {

  // ---------------------------------------------------------------------
  // Java int

  const INT_MIN: int := -0x8000_0000
  const INT_MAX: int := 0x7FFF_FFFF

  predicate IsInt32(v: int) { INT_MIN <= v <= INT_MAX }

  /** Java's `a + b` on two `int`s: the sum wrapped into 32 bits. */
  function Add32(a: int, b: int): (r: int)
    requires IsInt32(a) && IsInt32(b)
    ensures IsInt32(r)
    ensures IsInt32(a + b) ==> r == a + b
    ensures (r - (a + b)) % 0x1_0000_0000 == 0
  {
    var s := a + b;
    if s > INT_MAX then s - 0x1_0000_0000
    else if s < INT_MIN then s + 0x1_0000_0000
    else s
  }

  /**
   * The overflow the solvers depend on: below `c + 1` in 32-bit arithmetic
   * means at most c, unless c is MAX_VALUE, whose successor wraps to
   * MIN_VALUE and has nothing below it.
   */
  lemma BelowSuccessor(x: int, c: int)
    requires IsInt32(x) && IsInt32(c)
    ensures c == INT_MAX ==> Add32(c, 1) == INT_MIN
    ensures x < Add32(c, 1) <==> c < INT_MAX && x <= c
  {
  }

  /** Java's `Math.min` on two ints. */
  function MinInt(a: int, b: int): (r: int)
    ensures r <= a && r <= b && (r == a || r == b)
  {
    if a <= b then a else b
  }

  // ---------------------------------------------------------------------
  // Settings

  const MIN_HEIGHT: int := 5
  const MIN_WIDTH: int := 5
  const MAX_HEIGHT: int := 35
  const MAX_WIDTH: int := 35

  // ---------------------------------------------------------------------
  // Cell types and their weights

  datatype CellType = Default | Normal | Sand | Ice | Wall | Bedrock | Start | End

  /** The integer attached to each type: a movement cost for passable terrain. */
  function Weight(t: CellType): (w: int)
    ensures IsInt32(w)
  {
    match t
    case Default => -1
    case Normal => 1
    case Sand => 5
    case Ice => 0
    case Wall => 100
    case Bedrock => 1000
    case Start => INT_MIN
    case End => INT_MAX
  }

  /** The solvers' PASSABLE_TYPES list: NORMAL, ICE and SAND. */
  predicate IsPassable(t: CellType)
  {
    t == Normal || t == Ice || t == Sand
  }

  lemma PassableWeights(t: CellType)
    requires IsPassable(t)
    ensures 0 <= Weight(t) <= 5
  {
  }

  // ---------------------------------------------------------------------
  // Coordinates, cells, directions

  datatype Coordinate = Coordinate(row: int, col: int)

  datatype Cell = Cell(coordinate: Coordinate, kind: CellType)

  /** Declaration order matters: the solvers scan directions in this order. */
  datatype Direction = Up | Right | Down | Left

  const Directions: seq<Direction> := [Up, Right, Down, Left]

  /** The position of each direction in declaration order. */
  function DirectionIndex(d: Direction): (j: nat)
    ensures j < 4 && Directions[j] == d
  {
    match d
    case Up => 0
    case Right => 1
    case Down => 2
    case Left => 3
  }

  /** The coordinate `offset` steps from `c` in direction `d`. */
  function Step(c: Coordinate, d: Direction, offset: int): Coordinate
  {
    match d
    case Up => Coordinate(c.row - offset, c.col)
    case Down => Coordinate(c.row + offset, c.col)
    case Left => Coordinate(c.row, c.col - offset)
    case Right => Coordinate(c.row, c.col + offset)
  }

  /** The four-neighbour relation. */
  predicate Adjacent(a: Coordinate, b: Coordinate)
  {
    (a.row == b.row && (a.col - b.col == 1 || b.col - a.col == 1)) ||
    (a.col == b.col && (a.row - b.row == 1 || b.row - a.row == 1))
  }

  lemma StepIsAdjacent(c: Coordinate, d: Direction)
    ensures Adjacent(c, Step(c, d, 1)) && Adjacent(Step(c, d, 1), c)
  {
  }

  /** The direction that leads from a to its neighbour b. */
  function Toward(a: Coordinate, b: Coordinate): (d: Direction)
    requires Adjacent(a, b)
    ensures Step(a, d, 1) == b
  {
    if b.row == a.row - 1 then Up
    else if b.row == a.row + 1 then Down
    else if b.col == a.col - 1 then Left
    else Right
  }

  /** A value that may be missing: Java's `null` for a reference argument. */
  datatype Option<T> = None | Some(value: T)

  datatype Maze = Maze(height: int, width: int, grid: array2<Cell>)

  // ---------------------------------------------------------------------
  // The set of all coordinates of an h x w grid

  function Coords(h: int, w: int): (r: set<Coordinate>)
    ensures forall z :: z in r <==> 0 <= z.row < h && 0 <= z.col < w
  {
    var s := set y, x | 0 <= y < h && 0 <= x < w :: Coordinate(y, x);
    assert forall z: Coordinate | 0 <= z.row < h && 0 <= z.col < w :: z == Coordinate(z.row, z.col);
    s
  }

  function RowCoords(y: int, w: int): (r: set<Coordinate>)
    ensures forall z :: z in r <==> z.row == y && 0 <= z.col < w
  {
    var s := set x | 0 <= x < w :: Coordinate(y, x);
    assert forall z: Coordinate | z.row == y && 0 <= z.col < w :: z == Coordinate(y, z.col);
    s
  }

  lemma {:induction false} RowCoordsSize(y: int, w: nat)
    ensures |RowCoords(y, w)| == w
  {
    if w > 0 {
      var prev, last := RowCoords(y, w - 1), Coordinate(y, w - 1);
      RowCoordsSize(y, w - 1);
      forall z ensures z in RowCoords(y, w) <==> z in prev + {last} {
      }
      assert RowCoords(y, w) == prev + {last};
      assert last !in prev;
    } else {
      forall z ensures z !in RowCoords(y, w) {
      }
      assert RowCoords(y, w) == {};
    }
  }

  /** An h x w grid has exactly h * w coordinates. */
  lemma {:induction false} CoordsSize(h: nat, w: nat)
    ensures |Coords(h, w)| == h * w
  {
    if h > 0 {
      CoordsSize(h - 1, w);
      RowCoordsSize(h - 1, w);
      CoordsSplit(h, w);
      AddRow(h, w, |Coords(h, w)|);
    } else {
      forall z ensures z !in Coords(h, w) {
      }
      assert Coords(h, w) == {};
    }
  }

  /** The coordinates of h rows: those of the first h - 1 rows and, apart from them, those of the last row. */
  lemma CoordsSplit(h: int, w: int)
    requires h > 0
    ensures Coords(h, w) == Coords(h - 1, w) + RowCoords(h - 1, w)
    ensures |Coords(h, w)| == |Coords(h - 1, w)| + |RowCoords(h - 1, w)|
  {
    var upper, last := Coords(h - 1, w), RowCoords(h - 1, w);
    forall z ensures z in Coords(h, w) <==> z in upper + last {
    }
    assert Coords(h, w) == upper + last;
    assert upper !! last;
  }

  lemma AddRow(h: int, w: int, n: int)
    requires n == (h - 1) * w + w
    ensures n == h * w
  {
  }

  // ---------------------------------------------------------------------
  // Grid predicates

  predicate InGrid(g: array2<Cell>, c: Coordinate)
  {
    0 <= c.row < g.Length0 && 0 <= c.col < g.Length1
  }

  predicate OnBorder(g: array2<Cell>, c: Coordinate)
  {
    InGrid(g, c) &&
    (c.row == 0 || c.col == 0 || c.row == g.Length0 - 1 || c.col == g.Length1 - 1)
  }

  predicate Interior(g: array2<Cell>, c: Coordinate)
  {
    1 <= c.row < g.Length0 - 1 && 1 <= c.col < g.Length1 - 1
  }

  function At(g: array2<Cell>, c: Coordinate): CellType
    requires InGrid(g, c)
    reads g
  {
    g[c.row, c.col].kind
  }

  /** Every grid entry carries its own position. */
  predicate CoordinatesConsistent(g: array2<Cell>)
    reads g
  {
    forall y, x :: 0 <= y < g.Length0 && 0 <= x < g.Length1 ==>
      g[y, x].coordinate == Coordinate(y, x)
  }

  /** Every border cell is BEDROCK. */
  predicate BorderIsBedrock(g: array2<Cell>)
    reads g
  {
    forall y, x ::
      (0 <= y < g.Length0 && 0 <= x < g.Length1 &&
       (y == 0 || x == 0 || y == g.Length0 - 1 || x == g.Length1 - 1)) ==>
      g[y, x].kind == Bedrock
  }

  lemma PassableIsInterior(g: array2<Cell>, c: Coordinate)
    requires BorderIsBedrock(g) && InGrid(g, c) && IsPassable(At(g, c))
    ensures Interior(g, c)
  {
  }

  /** A four-connected sequence of passable cells of `g`. */
  predicate IsPassablePath(g: array2<Cell>, p: seq<Coordinate>)
    reads g
  {
    (forall i :: 0 <= i < |p| ==> InGrid(g, p[i]) && IsPassable(At(g, p[i]))) &&
    (forall i :: 0 <= i < |p| - 1 ==> Adjacent(p[i], p[i + 1]))
  }

  // ---------------------------------------------------------------------
  // Lists without repeated elements

  predicate NoDups<T(==)>(s: seq<T>)
  {
    forall i, j :: 0 <= i < j < |s| ==> s[i] != s[j]
  }

  // ---------------------------------------------------------------------
  // Java's List.remove(Object): drop the first occurrence, if any

  function RemoveFirst<T(==)>(s: seq<T>, x: T): (r: seq<T>)
    ensures x in s ==> |r| == |s| - 1 && multiset(r) == multiset(s) - multiset{x}
    ensures x !in s ==> r == s
    ensures forall y :: y in r ==> y in s
  {
    if |s| == 0 then s
    else
      assert s == [s[0]] + s[1..];
      if s[0] == x then s[1..] else [s[0]] + RemoveFirst(s[1..], x)
  }

  /** Every other element survives the removal. */
  lemma RemoveFirstKeeps<T>(s: seq<T>, x: T, y: T)
    requires y in s && y != x
    ensures y in RemoveFirst(s, x)
  {
    if x in s {
      assert multiset(s)[y] > 0;
      assert multiset(RemoveFirst(s, x))[y] > 0;
    }
  }

  /** In a list without repeats, removing the last element's first occurrence drops the last element. */
  lemma {:induction false} RemoveFirstOfLast<T>(s: seq<T>)
    requires NoDups(s) && |s| > 0
    ensures RemoveFirst(s, s[|s| - 1]) == s[..|s| - 1]
  {
    if |s| > 1 {
      var t, x := s[1..], s[|s| - 1];
      NoDupsTail(s);
      assert t[|t| - 1] == x;
      RemoveFirstOfLast(t);
      RemoveFirstSkips(s, x);
      var p, q := s[..|s| - 1], [s[0]] + t[..|t| - 1];
      forall i | 0 <= i < |p|
        ensures p[i] == q[i]
      {
        if i > 0 { assert t[..|t| - 1][i - 1] == s[i]; }
      }
      assert p == q;
    }
  }

  lemma NoDupsTail<T>(s: seq<T>)
    requires NoDups(s) && |s| > 0
    ensures NoDups(s[1..]) && s[0] !in s[1..]
  {
    var t := s[1..];
    forall i, j | 0 <= i < j < |t| ensures t[i] != t[j] {
      assert t[i] == s[i + 1] && t[j] == s[j + 1];
    }
  }

  /** Removing an element other than the head keeps the head. */
  lemma RemoveFirstSkips<T>(s: seq<T>, x: T)
    requires |s| > 0 && s[0] != x
    ensures RemoveFirst(s, x) == [s[0]] + RemoveFirst(s[1..], x)
  {
  }
}
