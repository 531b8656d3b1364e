/**
 * The randomized Prim generator.  Starting from one carved site it keeps a
 * frontier list of DEFAULT sites that sit across a WALL from the carved
 * region; each round carves one frontier site picked at random and opens
 * the wall to one of its carved neighbours, also picked at random.
 */
module Prim {
  import opened Grid
  import opened Rand
  import opened BaseGen

  // ---------------------------------------------------------------------
  // Geometry

  function Opposite(d: Direction): Direction
  {
    match d
    case Up => Down
    case Down => Up
    case Left => Right
    case Right => Left
  }

  /** Walking back from the passage retraces the wall and returns to the start. */
  lemma StepBack(c: Coordinate, d: Direction)
    ensures Step(Step(c, d, 2), Opposite(d), 1) == Step(c, d, 1)
    ensures Step(Step(c, d, 2), Opposite(d), 2) == c
  {
  }

  /** A wall cell lies between exactly two sites: two different sites sharing it face each other across it. */
  lemma SharedWall(a: Coordinate, d: Direction, b: Coordinate, e: Direction)
    requires IsSite(a) && IsSite(b) && Step(a, d, 1) == Step(b, e, 1)
    ensures a == b || a == Step(b, e, 2)
  {
  }

  /** The integer midpoint `(a + b) / 2` of a site and its passage two steps away is the wall between them. */
  lemma MidpointIsWall(c: Coordinate, d: Direction)
    requires c.row >= 0 && c.col >= 0 && Step(c, d, 2).row >= 0 && Step(c, d, 2).col >= 0
    ensures (c.row + Step(c, d, 2).row) / 2 == Step(c, d, 1).row
    ensures (c.col + Step(c, d, 2).col) / 2 == Step(c, d, 1).col
  {
  }

  // ---------------------------------------------------------------------
  // The frontier, stated over the kinds map

  /** Across direction d from c lies a WALL and, behind it, a carved site. */
  ghost predicate CarvedAcross(m: map<Coordinate, CellType>, c: Coordinate, d: Direction)
  {
    Step(c, d, 1) in m && m[Step(c, d, 1)] == Wall &&
    Step(c, d, 2) in m && IsSite(Step(c, d, 2)) && IsPassable(m[Step(c, d, 2)])
  }

  /** Some direction from c leads across a WALL to a carved site. */
  ghost predicate FacesCarved(m: map<Coordinate, CellType>, c: Coordinate)
  {
    CarvedAcross(m, c, Up) || CarvedAcross(m, c, Right) || CarvedAcross(m, c, Down) || CarvedAcross(m, c, Left)
  }

  /** Across direction d from c lies a WALL and, behind it, a DEFAULT site. */
  ghost predicate Offers(m: map<Coordinate, CellType>, c: Coordinate, d: Direction)
  {
    Step(c, d, 1) in m && m[Step(c, d, 1)] == Wall &&
    Step(c, d, 2) in m && m[Step(c, d, 2)] == Default
  }

  /** Some direction from c offers a WALL with a DEFAULT site behind it. */
  ghost predicate Open(m: map<Coordinate, CellType>, c: Coordinate)
  {
    Offers(m, c, Up) || Offers(m, c, Right) || Offers(m, c, Down) || Offers(m, c, Left)
  }

  function CoordsOf(cells: seq<Cell>): (r: set<Coordinate>)
    ensures forall c :: c in cells ==> c.coordinate in r
    ensures |cells| == 0 ==> r == {}
  {
    set c | c in cells :: c.coordinate
  }

  predicate DistinctCoords(cells: seq<Cell>)
  {
    forall i, j :: 0 <= i < j < |cells| ==> cells[i].coordinate != cells[j].coordinate
  }

  /**
   * The list `cells` of `start`: distinct entries, each a DEFAULT site that
   * is still DEFAULT in the grid and lies across a WALL from a carved site.
   */
  ghost predicate Frontier(m: map<Coordinate, CellType>, cells: seq<Cell>)
  {
    DistinctCoords(cells) &&
    forall c :: c in cells ==>
      c.kind == Default && c.coordinate in m && m[c.coordinate] == Default &&
      IsSite(c.coordinate) && FacesCarved(m, c.coordinate)
  }

  /**
   * `cells.remove(x)` on a list of distinct coordinates: every remaining
   * entry has a coordinate other than x's, and the list stays distinct.
   */
  lemma {:induction false} RemoveDistinct(cells: seq<Cell>, x: Cell)
    requires DistinctCoords(cells) && x in cells
    ensures DistinctCoords(RemoveFirst(cells, x))
    ensures forall c :: c in RemoveFirst(cells, x) ==> c.coordinate != x.coordinate
  {
    var tail := cells[1..];
    DistinctTail(cells);
    if cells[0] != x {
      assert x in tail;
      RemoveDistinct(tail, x);
      var r := RemoveFirst(tail, x);
      assert RemoveFirst(cells, x) == [cells[0]] + r;
      DistinctCons(cells[0], r);
    }
  }

  lemma DistinctTail(cells: seq<Cell>)
    requires DistinctCoords(cells) && |cells| > 0
    ensures DistinctCoords(cells[1..])
    ensures forall c :: c in cells[1..] ==> c.coordinate != cells[0].coordinate
  {
    forall c | c in cells[1..] ensures c.coordinate != cells[0].coordinate {
      var j :| 0 <= j < |cells[1..]| && cells[1..][j] == c;
      assert cells[j + 1] == c;
    }
  }

  lemma DistinctCons(h: Cell, r: seq<Cell>)
    requires DistinctCoords(r) && forall c :: c in r ==> c.coordinate != h.coordinate
    ensures DistinctCoords([h] + r)
  {
    var s := [h] + r;
    forall i, j | 0 <= i < j < |s| ensures s[i].coordinate != s[j].coordinate {
      assert s[j] == r[j - 1];
      if i > 0 {
        assert s[i] == r[i - 1];
      } else {
        assert r[j - 1] in r;
      }
    }
  }

  /** On a carving grid every site is either still DEFAULT or already passable. */
  lemma SiteKind(g: array2<Cell>, c: Coordinate)
    requires Carving(g) && InGrid(g, c) && IsSite(c)
    ensures At(g, c) == Default || IsPassable(At(g, c))
  {
    assert IsPassage(c.col, c.row);
  }

  /**
   * A carved site across from one of c's walls stays carved across it when
   * the DEFAULT site `sel` is carved and the WALL `w` towards its passage
   * is opened, provided c is neither `sel` nor that passage.
   */
  lemma AcrossStable(m: map<Coordinate, CellType>, sel: Coordinate, t1: CellType, pd: Direction, t2: CellType,
                     c: Coordinate, d: Direction)
    requires sel in m && m[sel] == Default && IsSite(sel) && IsPassable(t1) && IsPassable(t2)
    requires CarvedAcross(m[sel := t1], sel, pd)
    requires c in m && m[c] == Default && IsSite(c) && c != sel
    requires CarvedAcross(m, c, d)
    ensures CarvedAcross(m[sel := t1][Step(sel, pd, 1) := t2], c, d)
  {
    if Step(c, d, 1) == Step(sel, pd, 1) {
      SharedWall(c, d, sel, pd);
      assert false;
    }
  }

  /**
   * One round of `start` on the kinds map: carving the frontier entry k and
   * opening the wall towards one of its carved neighbours leaves the other
   * entries a frontier of the new map.
   */
  lemma RoundStep(m: map<Coordinate, CellType>, cells: seq<Cell>, k: nat, t1: CellType, pd: Direction, t2: CellType,
                  m2: map<Coordinate, CellType>)
    requires Frontier(m, cells) && k < |cells| && IsPassable(t1) && IsPassable(t2)
    requires CarvedAcross(m[cells[k].coordinate := t1], cells[k].coordinate, pd)
    requires m2 == m[cells[k].coordinate := t1][Step(cells[k].coordinate, pd, 1) := t2]
    ensures Frontier(m2, RemoveFirst(cells, cells[k]))
  {
    var sel := cells[k].coordinate;
    var rest := RemoveFirst(cells, cells[k]);
    RemoveDistinct(cells, cells[k]);
    forall c | c in rest
      ensures c.kind == Default && c.coordinate in m2 && m2[c.coordinate] == Default &&
        IsSite(c.coordinate) && FacesCarved(m2, c.coordinate)
    {
      var e := c.coordinate;
      assert cells[k] in cells;
      if CarvedAcross(m, e, Up) {
        AcrossStable(m, sel, t1, pd, t2, e, Up);
      } else if CarvedAcross(m, e, Right) {
        AcrossStable(m, sel, t1, pd, t2, e, Right);
      } else if CarvedAcross(m, e, Down) {
        AcrossStable(m, sel, t1, pd, t2, e, Down);
      } else {
        AcrossStable(m, sel, t1, pd, t2, e, Left);
      }
    }
  }

  /** Appending a site to a list of distinct coordinates that lacks it keeps them distinct. */
  lemma DistinctSnoc(cells: seq<Cell>, c: Cell)
    requires DistinctCoords(cells) && forall e :: e in cells ==> e.coordinate != c.coordinate
    ensures DistinctCoords(cells + [c])
  {
    var s := cells + [c];
    forall i, j | 0 <= i < j < |s| ensures s[i].coordinate != s[j].coordinate {
      assert s[i] == cells[i];
      if j < |cells| {
        assert s[j] == cells[j];
      } else {
        assert cells[i] in cells;
      }
    }
  }

  /**
   * `cells.add(grid[yPassage][xPassage])` after a successful `checkPath`
   * from the carved site `sel`: the DEFAULT site behind the wall joins the frontier.
   */
  lemma FrontierAdd(m: map<Coordinate, CellType>, cells: seq<Cell>, sel: Coordinate, d: Direction)
    requires Frontier(m, cells) && sel in m && IsSite(sel) && IsPassable(m[sel]) && Offers(m, sel, d)
    requires Cell(Step(sel, d, 2), Default) !in cells
    ensures Frontier(m, cells + [Cell(Step(sel, d, 2), Default)])
    ensures CoordsOf(cells + [Cell(Step(sel, d, 2), Default)]) == CoordsOf(cells) + {Step(sel, d, 2)}
  {
    var p := Step(sel, d, 2);
    StepBack(sel, d);
    assert CarvedAcross(m, p, Opposite(d));
    forall e | e in cells ensures e.coordinate != p {
      assert e == Cell(e.coordinate, e.kind);
    }
    DistinctSnoc(cells, Cell(p, Default));
  }

  /** Carving a site does not change what lies across its own walls. */
  lemma OwnCarve(m: map<Coordinate, CellType>, c: Coordinate, t: CellType)
    ensures FacesCarved(m, c) ==> FacesCarved(m[c := t], c)
    ensures Open(m, c) ==> Open(m[c := t], c)
  {
    forall d ensures CarvedAcross(m, c, d) ==> CarvedAcross(m[c := t], c, d)
      ensures Offers(m, c, d) ==> Offers(m[c := t], c, d)
    {
      assert Step(c, d, 1) != c && Step(c, d, 2) != c;
    }
  }

  /** Every WALL of c with a DEFAULT site behind it leads to a site on the list. */
  ghost predicate Collected(m: map<Coordinate, CellType>, cells: seq<Cell>, c: Coordinate)
  {
    forall d :: Offers(m, c, d) ==> Step(c, d, 2) in CoordsOf(cells)
  }

  /**
   * Once every carved site has been collected, a round leaves every carved
   * site except the newly carved one collected by the shortened list.
   */
  lemma RoundComplete(m: map<Coordinate, CellType>, cells: seq<Cell>, k: nat, t1: CellType, pd: Direction, t2: CellType,
                      m2: map<Coordinate, CellType>)
    requires Frontier(m, cells) && k < |cells| && IsPassable(t1) && IsPassable(t2)
    requires forall c :: c in CarvedSites(m) ==> Collected(m, cells, c)
    requires CarvedAcross(m[cells[k].coordinate := t1], cells[k].coordinate, pd)
    requires m2 == m[cells[k].coordinate := t1][Step(cells[k].coordinate, pd, 1) := t2]
    ensures forall c :: c in CarvedSites(m2) && c != cells[k].coordinate ==> Collected(m2, RemoveFirst(cells, cells[k]), c)
  {
    var sel := cells[k].coordinate;
    var rest := RemoveFirst(cells, cells[k]);
    assert cells[k] in cells;
    forall c, d | c in CarvedSites(m2) && c != sel && Offers(m2, c, d)
      ensures Step(c, d, 2) in CoordsOf(rest)
    {
      var p := Step(c, d, 2);
      assert c in CarvedSites(m);
      assert Offers(m, c, d);
      var e :| e in cells && e.coordinate == p;
      assert e != cells[k];
      RemoveFirstKeeps(cells, cells[k], e);
    }
  }

  /**
   * What holds between two rounds of `start`: the start site is carved,
   * there is one more carved site than opened walls, every opened wall
   * lies between two carved sites, every passable cell can be walked to
   * from the start, `sel` is the last carved site, `cells` is a frontier,
   * and every carved site but `sel` has had its DEFAULT neighbours
   * collected.
   */
  ghost predicate PrimState(m: map<Coordinate, CellType>, s: Coordinate, cells: seq<Cell>, sel: Coordinate)
  {
    s in CarvedSites(m) && |OpenedWalls(m)| + 1 == |CarvedSites(m)| &&
    WallsBetweenCarved(m) && ConnectedFrom(m, s) &&
    sel in m && IsSite(sel) && IsPassable(m[sel]) &&
    Frontier(m, cells) &&
    forall c :: c in CarvedSites(m) && c != sel ==> Collected(m, cells, c)
  }

  /**
   * On a freshly filled grid of at least 5 x 5 whose only carved cell is the
   * start site, the start site has a WALL with a DEFAULT site behind it:
   * below it, or above it when it sits on the last site row.
   */
  lemma FirstOpen(g: array2<Cell>, s: Coordinate)
    requires OddDims(g.Length0, g.Length1) && g.Length0 >= MIN_HEIGHT && g.Length1 >= MIN_WIDTH
    requires IsFilled(g, g.Length0, g.Length1) && InGrid(g, s) && IsSite(s)
    ensures Open(KindsOf(g), s)
  {
    var h, w := g.Length0, g.Length1;
    var d := if s.row + 2 <= h - 2 then Down else Up;
    var wall, p := Step(s, d, 1), Step(s, d, 2);
    assert g[wall.row, wall.col] == InitialCell(wall.row, wall.col, h, w);
    assert g[p.row, p.col] == InitialCell(p.row, p.col, h, w);
    assert Offers(KindsOf(g), s, d);
  }

  /**
   * A round also keeps every opened wall between two carved sites and
   * every passable cell within walking distance of the start: the opened
   * wall joins the new site to the carved site across it.
   */
  lemma RoundLinks(m: map<Coordinate, CellType>, s: Coordinate, c: Coordinate, t1: CellType, pd: Direction, t2: CellType)
    requires WallsBetweenCarved(m) && ConnectedFrom(m, s)
    requires c in m && m[c] == Default && IsSite(c) && IsPassable(t1) && IsPassable(t2)
    requires CarvedAcross(m[c := t1], c, pd)
    ensures WallsBetweenCarved(m[c := t1][Step(c, pd, 1) := t2])
    ensures ConnectedFrom(m[c := t1][Step(c, pd, 1) := t2], s)
  {
    var w, a := Step(c, pd, 1), Step(c, pd, 2);
    assert w != c && a != c;
    assert m[w] == Wall && a in CarvedSites(m);
    StepBack(c, pd);
    StepIsAdjacent(a, Opposite(pd));
    StepIsAdjacent(c, pd);
    SidesOfStep(c, pd);
    assert !IsSite(w);
    assert m[c := t1][w := t2] == m[w := t2][c := t1];
    ExtendConnected(m, s, a, w, c, t2, t1);
    ExtendWalls(m, a, w, c, t2, t1);
  }

  /**
   * Carving the DEFAULT site c and opening the WALL next to it adds one
   * carved site and one opened wall, and takes one DEFAULT site away.
   */
  lemma RoundCounts(m: map<Coordinate, CellType>, c: Coordinate, t1: CellType, pd: Direction, t2: CellType)
    requires c in m && m[c] == Default && IsSite(c) && IsPassable(t1) && IsPassable(t2)
    requires CarvedAcross(m[c := t1], c, pd)
    ensures CarvedSites(m[c := t1][Step(c, pd, 1) := t2]) == CarvedSites(m) + {c}
    ensures |CarvedSites(m[c := t1][Step(c, pd, 1) := t2])| == |CarvedSites(m)| + 1
    ensures |OpenedWalls(m[c := t1][Step(c, pd, 1) := t2])| == |OpenedWalls(m)| + 1
    ensures |DefaultSites(m[c := t1][Step(c, pd, 1) := t2])| == |DefaultSites(m)| - 1
  {
    var w := Step(c, pd, 1);
    assert !IsSite(w);
    CarveSiteKind(m, c, t1);
    OpenWallKind(m[c := t1], w, t2);
  }

  /**
   * A whole round on the kinds map: carving frontier entry k with t1 and
   * opening the wall towards the carved site `passage` with t2 keeps the
   * round invariant, with the new site as the last carved one, and takes
   * exactly that site off the DEFAULT sites.
   */
  lemma RoundState(m: map<Coordinate, CellType>, s: Coordinate, cells: seq<Cell>, k: nat,
                   t1: CellType, pd: Direction, t2: CellType, passage: Cell)
    requires k < |cells| && IsPassable(t1) && IsPassable(t2) && passage.kind != Default
    requires s in CarvedSites(m) && |OpenedWalls(m)| + 1 == |CarvedSites(m)|
    requires WallsBetweenCarved(m) && ConnectedFrom(m, s)
    requires Frontier(m, cells) && forall c :: c in CarvedSites(m) ==> Collected(m, cells, c)
    requires CarvedAcross(m[cells[k].coordinate := t1], cells[k].coordinate, pd)
    ensures PrimState(m[cells[k].coordinate := t1][Step(cells[k].coordinate, pd, 1) := t2], s,
      RemoveFirst(RemoveFirst(cells, cells[k]), passage), cells[k].coordinate)
    ensures |DefaultSites(m[cells[k].coordinate := t1][Step(cells[k].coordinate, pd, 1) := t2])| ==
      |DefaultSites(m)| - 1
    ensures |OpenedWalls(m[cells[k].coordinate := t1][Step(cells[k].coordinate, pd, 1) := t2])| ==
      |OpenedWalls(m)| + 1
    ensures RemoveFirst(RemoveFirst(cells, cells[k]), passage) == RemoveFirst(cells, cells[k])
  {
    var c := cells[k].coordinate;
    var w := Step(c, pd, 1);
    var m1 := m[c := t1];
    var m2 := m1[w := t2];
    var rest := RemoveFirst(cells, cells[k]);
    assert cells[k] in cells;
    RoundCounts(m, c, t1, pd, t2);
    assert Frontier(m2, rest) by {
      RoundStep(m, cells, k, t1, pd, t2, m2);
    }
    assert forall e :: e in CarvedSites(m2) && e != c ==> Collected(m2, rest, e) by {
      RoundComplete(m, cells, k, t1, pd, t2, m2);
    }
    assert WallsBetweenCarved(m2) && ConnectedFrom(m2, s) by {
      RoundLinks(m, s, c, t1, pd, t2);
    }
    assert passage !in rest;
  }

  /** The first n directions have been collected from c. */
  ghost predicate CollectedUpTo(m: map<Coordinate, CellType>, cells: seq<Cell>, c: Coordinate, n: nat)
    requires n <= 4
  {
    forall j :: 0 <= j < n && Offers(m, c, Directions[j]) ==> Step(c, Directions[j], 2) in CoordsOf(cells)
  }

  lemma CollectedGrow(m: map<Coordinate, CellType>, cells: seq<Cell>, cells': seq<Cell>, c: Coordinate, n: nat)
    requires n < 4 && CollectedUpTo(m, cells, c, n) && CoordsOf(cells) <= CoordsOf(cells')
    requires Offers(m, c, Directions[n]) ==> Step(c, Directions[n], 2) in CoordsOf(cells')
    ensures CollectedUpTo(m, cells', c, n + 1)
  {
  }

  lemma CollectedAll(m: map<Coordinate, CellType>, cells: seq<Cell>, c: Coordinate)
    requires CollectedUpTo(m, cells, c, 4)
    ensures Collected(m, cells, c)
  {
    forall d | Offers(m, c, d) ensures Step(c, d, 2) in CoordsOf(cells) {
      var j := DirectionIndex(d);
    }
  }

  /** Every entry of `passages` is a carved site across a WALL from sel, reached in direction `dirs[i]`. */
  ghost predicate Passages(m: map<Coordinate, CellType>, sel: Coordinate, passages: seq<Cell>, dirs: seq<Direction>)
  {
    |passages| == |dirs| &&
    forall i :: 0 <= i < |passages| ==>
      passages[i].coordinate == Step(sel, dirs[i], 2) && passages[i].kind != Default && CarvedAcross(m, sel, dirs[i])
  }

  /** None of the first n directions leads across a WALL to a carved site. */
  ghost predicate NoneAcrossUpTo(m: map<Coordinate, CellType>, c: Coordinate, n: nat)
    requires n <= 4
  {
    forall j :: 0 <= j < n ==> !CarvedAcross(m, c, Directions[j])
  }

  lemma NoneAcrossAll(m: map<Coordinate, CellType>, c: Coordinate)
    requires NoneAcrossUpTo(m, c, 4)
    ensures !FacesCarved(m, c)
  {
    assert Directions == [Up, Right, Down, Left];
    assert !CarvedAcross(m, c, Directions[0]) && !CarvedAcross(m, c, Directions[1]);
    assert !CarvedAcross(m, c, Directions[2]) && !CarvedAcross(m, c, Directions[3]);
  }

  /** On a carving grid, `checkPath`'s test from an interior site is `Offers` on the kinds map. */
  lemma OffersIffCanCarve(g: array2<Cell>, p: Coordinate, d: Direction)
    requires Carving(g) && IsSite(p) && Interior(g, p)
    ensures InGrid(g, Step(p, d, 1)) && (At(g, Step(p, d, 1)) == Wall ==> InGrid(g, Step(p, d, 2)))
    ensures Offers(KindsOf(g), p, d) <==> CanCarve(g, p, d)
  {
    StepInside(g, p, d);
  }

  /**
   * On a carving grid, `checkIsPassage`'s test from a site is `CarvedAcross`
   * on the kinds map, and the cell it finds is that site's current entry.
   */
  lemma AcrossCell(g: array2<Cell>, p: Coordinate, d: Direction)
    requires Carving(g) && IsSite(p) && InGrid(g, p)
    ensures InGrid(g, Step(p, d, 1)) && (At(g, Step(p, d, 1)) == Wall ==> InGrid(g, Step(p, d, 2)))
    ensures CarvedAcross(KindsOf(g), p, d) <==> At(g, Step(p, d, 1)) == Wall && At(g, Step(p, d, 2)) != Default
    ensures CarvedAcross(KindsOf(g), p, d) ==>
      g[Step(p, d, 2).row, Step(p, d, 2).col] == Cell(Step(p, d, 2), At(g, Step(p, d, 2)))
  {
    SiteIsInterior(g, p);
    StepInside(g, p, d);
    if At(g, Step(p, d, 1)) == Wall {
      SiteKind(g, Step(p, d, 2));
    }
  }

  class PrimGenerator {
    const base: BaseGenerator

    constructor (random: RandomSource)
      ensures fresh(base) && base.random == random
    {
      base := new BaseGenerator(random);
    }

    /** `generate`: fill, pick the start site, grow the maze from it. */
    method Generate(height: int, width: int) returns (m: Maze)
      requires OddDims(height, width) && height >= MIN_HEIGHT && width >= MIN_WIDTH
      modifies base, base.random
      ensures fresh(base.grid) && m == Maze(height, width, base.grid)
      ensures base.grid.Length0 == height && base.grid.Length1 == width && Carving(base.grid)
      ensures |OpenedWalls(KindsOf(base.grid))| + 1 == |CarvedSites(KindsOf(base.grid))|
      ensures WallsBetweenCarved(KindsOf(base.grid)) && Connected(KindsOf(base.grid))
      ensures forall a, b ::
        (a in CarvedSites(KindsOf(base.grid)) && b in CarvedSites(KindsOf(base.grid)) &&
         Open(KindsOf(base.grid), a) && Open(KindsOf(base.grid), b)) ==> a == b
    {
      base.Fill(height, width);
      var startPoint := base.SelectStartPoint(height, width);
      Start(startPoint);
      m := Maze(height, width, base.grid);
    }

    /**
     * `start`: carves the start site, then runs rounds until the frontier
     * list is empty.  Every opened wall lies between two carved sites,
     * every passable cell can be walked to from every other, there is one
     * opened wall fewer than carved sites, and at most one carved site (the
     * last one) still faces a WALL with a DEFAULT site behind it.
     */
    method Start(startPoint: Cell)
      requires OddDims(base.grid.Length0, base.grid.Length1)
      requires base.grid.Length0 >= MIN_HEIGHT && base.grid.Length1 >= MIN_WIDTH
      requires IsFilled(base.grid, base.grid.Length0, base.grid.Length1)
      requires InGrid(base.grid, startPoint.coordinate) && IsSite(startPoint.coordinate)
      modifies base.grid, base.random, base`xWall, base`yWall, base`xPassage, base`yPassage
      ensures Carving(base.grid) && startPoint.coordinate in CarvedSites(KindsOf(base.grid))
      ensures |OpenedWalls(KindsOf(base.grid))| + 1 == |CarvedSites(KindsOf(base.grid))|
      ensures WallsBetweenCarved(KindsOf(base.grid))
      ensures ConnectedFrom(KindsOf(base.grid), startPoint.coordinate) && Connected(KindsOf(base.grid))
      ensures forall a, b ::
        (a in CarvedSites(KindsOf(base.grid)) && b in CarvedSites(KindsOf(base.grid)) &&
         Open(KindsOf(base.grid), a) && Open(KindsOf(base.grid), b)) ==> a == b
    {
      var s := startPoint.coordinate;
      var selectedCell := Begin(startPoint);
      selectedCell := Rounds(s, selectedCell);
      Finish(s, selectedCell.coordinate);
    }

    /** The do-while loop of `start`: rounds until the list is empty; returns the last carved site. */
    method Rounds(s: Coordinate, first: Cell) returns (last: Cell)
      requires Growing(s, [], first.coordinate) && Open(KindsOf(base.grid), first.coordinate)
      modifies base.grid, base.random, base`xWall, base`yWall, base`xPassage, base`yPassage
      ensures Growing(s, [], last.coordinate)
    {
      var cells: seq<Cell>;
      cells, last := Round(s, [], first);
      while |cells| > 0
        invariant Growing(s, cells, last.coordinate)
        decreases |DefaultSites(KindsOf(base.grid))|
      {
        cells, last := Round(s, cells, last);
      }
    }

    /** The state between two rounds of `start`, on the generator's grid. */
    ghost predicate Growing(s: Coordinate, cells: seq<Cell>, sel: Coordinate)
      reads base, base.grid
    {
      Carving(base.grid) && PrimState(KindsOf(base.grid), s, cells, sel)
    }

    /**
     * The part of `start` before the loop: the start site gets a random
     * passable type and becomes the selected cell.
     */
    method Begin(startPoint: Cell) returns (selectedCell: Cell)
      requires OddDims(base.grid.Length0, base.grid.Length1)
      requires base.grid.Length0 >= MIN_HEIGHT && base.grid.Length1 >= MIN_WIDTH
      requires IsFilled(base.grid, base.grid.Length0, base.grid.Length1)
      requires InGrid(base.grid, startPoint.coordinate) && IsSite(startPoint.coordinate)
      modifies base.grid, base.random
      ensures selectedCell.coordinate == startPoint.coordinate
      ensures Growing(startPoint.coordinate, [], startPoint.coordinate)
      ensures Open(KindsOf(base.grid), startPoint.coordinate)
    {
      var s := startPoint.coordinate;
      FilledIsCarving(base.grid);
      FilledHasNothingCarved(base.grid);
      FirstOpen(base.grid, s);
      ghost var m0 := KindsOf(base.grid);
      Carve(s);
      selectedCell := base.grid[s.row, s.col];
      CarveSiteKind(m0, s, At(base.grid, s));
      OwnCarve(m0, s, At(base.grid, s));
      assert CarvedSites(KindsOf(base.grid)) == {s};
      SoleCarve(KindsOf(base.grid), s);
    }

    /** With the list empty, only the last carved site can still face a DEFAULT site. */
    lemma Finish(s: Coordinate, sel: Coordinate)
      requires PrimState(KindsOf(base.grid), s, [], sel)
      ensures forall a, b ::
        (a in CarvedSites(KindsOf(base.grid)) && b in CarvedSites(KindsOf(base.grid)) &&
         Open(KindsOf(base.grid), a) && Open(KindsOf(base.grid), b)) ==> a == b
      ensures Connected(KindsOf(base.grid))
    {
      var m := KindsOf(base.grid);
      forall a | a in CarvedSites(m) && a != sel ensures !Open(m, a) {
        assert Collected(m, [], a);
      }
      AllLinked(m, s);
    }

    /**
     * One pass of the do-while loop of `start`: collect the DEFAULT sites
     * behind the last carved site's walls, carve a random list entry, open
     * the wall to a random carved neighbour, and drop the entry.
     */
    method Round(s: Coordinate, cells: seq<Cell>, selectedCell: Cell) returns (cells': seq<Cell>, next: Cell)
      requires Growing(s, cells, selectedCell.coordinate)
      requires |cells| > 0 || Open(KindsOf(base.grid), selectedCell.coordinate)
      modifies base.grid, base.random, base`xWall, base`yWall, base`xPassage, base`yPassage
      ensures Growing(s, cells', next.coordinate)
      ensures |DefaultSites(KindsOf(base.grid))| == old(|DefaultSites(KindsOf(base.grid))|) - 1
      ensures |OpenedWalls(KindsOf(base.grid))| == old(|OpenedWalls(KindsOf(base.grid))|) + 1
    {
      ghost var m := KindsOf(base.grid);
      cells' := Collect(cells, selectedCell.coordinate);
      if |cells| == 0 {
        assert Open(m, selectedCell.coordinate);
        if Offers(m, selectedCell.coordinate, Up) {
          assert Step(selectedCell.coordinate, Up, 2) in CoordsOf(cells');
        } else if Offers(m, selectedCell.coordinate, Right) {
          assert Step(selectedCell.coordinate, Right, 2) in CoordsOf(cells');
        } else if Offers(m, selectedCell.coordinate, Down) {
          assert Step(selectedCell.coordinate, Down, 2) in CoordsOf(cells');
        } else {
          assert Step(selectedCell.coordinate, Left, 2) in CoordsOf(cells');
        }
      }
      var k := base.random.NextInt(|cells'|);
      next := cells'[k];
      cells' := CarveSelected(s, cells', k);
    }

    /**
     * The second half of a round: carve the list entry k, pick one of the
     * carved sites across its walls, open the wall between them (the
     * midpoint of the two sites), and remove the entry and the passage
     * from the list.
     */
    method CarveSelected(s: Coordinate, cells: seq<Cell>, k: nat) returns (cells': seq<Cell>)
      requires Carving(base.grid) && k < |cells|
      requires s in CarvedSites(KindsOf(base.grid))
      requires |OpenedWalls(KindsOf(base.grid))| + 1 == |CarvedSites(KindsOf(base.grid))|
      requires WallsBetweenCarved(KindsOf(base.grid)) && ConnectedFrom(KindsOf(base.grid), s)
      requires Frontier(KindsOf(base.grid), cells)
      requires forall c :: c in CarvedSites(KindsOf(base.grid)) ==> Collected(KindsOf(base.grid), cells, c)
      modifies base.grid, base.random, base`xWall, base`yWall, base`xPassage, base`yPassage
      ensures Growing(s, cells', cells[k].coordinate)
      ensures cells' == RemoveFirst(cells, cells[k])
      ensures |DefaultSites(KindsOf(base.grid))| == old(|DefaultSites(KindsOf(base.grid))|) - 1
      ensures |OpenedWalls(KindsOf(base.grid))| == old(|OpenedWalls(KindsOf(base.grid))|) + 1
    {
      ghost var m := KindsOf(base.grid);
      var selectedCell := cells[k];
      var c := selectedCell.coordinate;
      assert selectedCell in cells;
      SiteIsInterior(base.grid, c);
      Carve(c);
      ghost var t1 := At(base.grid, c);
      OwnCarve(m, c, t1);
      var passage, pd, t2 := OpenWall(c);
      RoundState(m, s, cells, k, t1, pd, t2, passage);
      cells' := RemoveFirst(cells, selectedCell);
      cells' := RemoveFirst(cells', passage);
    }

    /**
     * From the freshly carved site `c`: gather the carved sites across its
     * walls, pick one at random, and carve the wall at the midpoint of the
     * two.  Returns the picked site's cell.
     */
    method OpenWall(c: Coordinate) returns (passage: Cell, ghost pd: Direction, ghost t: CellType)
      requires Carving(base.grid) && InGrid(base.grid, c) && IsSite(c) && FacesCarved(KindsOf(base.grid), c)
      modifies base.grid, base.random, base`xWall, base`yWall, base`xPassage, base`yPassage
      ensures Carving(base.grid)
      ensures CarvedAcross(old(KindsOf(base.grid)), c, pd) && passage.kind != Default
      ensures passage.coordinate == Step(c, pd, 2)
      ensures IsPassable(t) && KindsOf(base.grid) == old(KindsOf(base.grid))[Step(c, pd, 1) := t]
    {
      var passages, dirs := CollectPassages(c);
      var j := base.random.NextInt(|passages|);
      passage := passages[j];
      pd := dirs[j];

      var xWall := (c.col + passage.coordinate.col) / 2;
      var yWall := (c.row + passage.coordinate.row) / 2;
      WallIsMidpoint(c, pd);
      assert Coordinate(yWall, xWall) == Step(c, pd, 1);
      Carve(Coordinate(yWall, xWall));
      t := At(base.grid, Coordinate(yWall, xWall));
    }

    /**
     * The first loop of a round: for each direction in declaration order,
     * when `checkPath` succeeds from `sel`, the cell behind the wall is
     * appended unless the list already holds it.
     */
    method Collect(cells: seq<Cell>, sel: Coordinate) returns (cells': seq<Cell>)
      requires Carving(base.grid) && InGrid(base.grid, sel) && IsSite(sel) && IsPassable(At(base.grid, sel))
      requires Frontier(KindsOf(base.grid), cells)
      modifies base`xWall, base`yWall, base`xPassage, base`yPassage
      ensures Frontier(KindsOf(base.grid), cells')
      ensures |cells| <= |cells'| && CoordsOf(cells) <= CoordsOf(cells')
      ensures Collected(KindsOf(base.grid), cells', sel)
    {
      cells' := cells;
      for i := 0 to 4
        invariant Frontier(KindsOf(base.grid), cells')
        invariant |cells| <= |cells'| && CoordsOf(cells) <= CoordsOf(cells')
        invariant CollectedUpTo(KindsOf(base.grid), cells', sel, i)
      {
        ghost var before := cells';
        cells' := CollectDirection(cells', sel, Directions[i]);
        CollectedGrow(KindsOf(base.grid), before, cells', sel, i);
      }
      CollectedAll(KindsOf(base.grid), cells', sel);
    }

    /** One iteration of the first loop of a round. */
    method CollectDirection(cells: seq<Cell>, sel: Coordinate, direction: Direction) returns (cells': seq<Cell>)
      requires Carving(base.grid) && InGrid(base.grid, sel) && IsSite(sel) && IsPassable(At(base.grid, sel))
      requires Frontier(KindsOf(base.grid), cells)
      modifies base`xWall, base`yWall, base`xPassage, base`yPassage
      ensures Frontier(KindsOf(base.grid), cells')
      ensures |cells| <= |cells'| && CoordsOf(cells) <= CoordsOf(cells')
      ensures Offers(KindsOf(base.grid), sel, direction) ==> Step(sel, direction, 2) in CoordsOf(cells')
    {
      SiteIsInterior(base.grid, sel);
      StepInside(base.grid, sel, direction);
      OffersIffCanCarve(base.grid, sel, direction);
      var found := base.CheckPath(base.grid[sel.row, sel.col], direction);
      cells' := cells;
      if found {
        var xPassage := CalculateCoordinate(sel, direction, 2, false);
        var yPassage := CalculateCoordinate(sel, direction, 2, true);
        var cell := base.grid[yPassage, xPassage];
        assert cell == Cell(Step(sel, direction, 2), Default);
        if cell !in cells' {
          FrontierAdd(KindsOf(base.grid), cells', sel, direction);
          cells' := cells' + [cell];
        }
      }
    }

    /**
     * The second loop of a round: the cells two steps from the freshly
     * carved `sel`, in direction order, whose wall is still WALL and which
     * are carved (`checkIsPassage`).  `dirs` records the direction of each.
     */
    method CollectPassages(sel: Coordinate) returns (passages: seq<Cell>, ghost dirs: seq<Direction>)
      requires Carving(base.grid) && InGrid(base.grid, sel) && IsSite(sel)
      modifies base`xWall, base`yWall, base`xPassage, base`yPassage
      ensures Passages(KindsOf(base.grid), sel, passages, dirs)
      ensures FacesCarved(KindsOf(base.grid), sel) ==> |passages| > 0
    {
      passages, dirs := [], [];
      for i := 0 to 4
        invariant Passages(KindsOf(base.grid), sel, passages, dirs)
        invariant |passages| == 0 ==> NoneAcrossUpTo(KindsOf(base.grid), sel, i)
      {
        passages, dirs := PassageDirection(passages, dirs, sel, Directions[i]);
      }
      if |passages| == 0 {
        NoneAcrossAll(KindsOf(base.grid), sel);
      }
    }

    /** One iteration of the second loop of a round. */
    method PassageDirection(passages: seq<Cell>, ghost dirs: seq<Direction>, sel: Coordinate, direction: Direction)
      returns (passages': seq<Cell>, ghost dirs': seq<Direction>)
      requires Carving(base.grid) && InGrid(base.grid, sel) && IsSite(sel)
      requires Passages(KindsOf(base.grid), sel, passages, dirs)
      modifies base`xWall, base`yWall, base`xPassage, base`yPassage
      ensures Passages(KindsOf(base.grid), sel, passages', dirs')
      ensures |passages| <= |passages'|
      ensures CarvedAcross(KindsOf(base.grid), sel, direction) <==> |passages'| > |passages|
    {
      var isPassage := CheckIsPassage(base.grid[sel.row, sel.col], direction);
      passages', dirs' := passages, dirs;
      if isPassage {
        var xPassage := CalculateCoordinate(sel, direction, 2, false);
        var yPassage := CalculateCoordinate(sel, direction, 2, true);
        AcrossCell(base.grid, sel, direction);
        passages' := passages + [base.grid[yPassage, xPassage]];
        dirs' := dirs + [direction];
      }
    }

    /**
     * `checkIsPassage`: from a site, the wall towards `direction` is still
     * WALL and the site behind it has been carved.
     */
    method CheckIsPassage(point: Cell, direction: Direction) returns (b: bool)
      requires Carving(base.grid) && InGrid(base.grid, point.coordinate) && IsSite(point.coordinate)
      modifies base`xWall, base`yWall, base`xPassage, base`yPassage
      ensures b <==> CarvedAcross(KindsOf(base.grid), point.coordinate, direction)
    {
      SiteIsInterior(base.grid, point.coordinate);
      StepInside(base.grid, point.coordinate, direction);
      AcrossCell(base.grid, point.coordinate, direction);
      base.CalculateWallAndPassage(point, direction);
      b := base.grid[base.yWall, base.xWall].kind == Wall && base.grid[base.yPassage, base.xPassage].kind != Default;
    }

    /**
     * The assignment `grid[y][x] = new Cell(new Coordinate(y, x),
     * getRandomCellType())` on a DEFAULT site or a WALL.
     */
    method Carve(c: Coordinate)
      requires Carving(base.grid) && InGrid(base.grid, c)
      requires At(base.grid, c) == Default || At(base.grid, c) == Wall
      modifies base.grid, base.random
      ensures Carving(base.grid) && IsPassable(At(base.grid, c))
      ensures old(At(base.grid, c)) == Default ==> IsSite(c)
      ensures old(At(base.grid, c)) == Wall ==> !IsSite(c)
      ensures KindsOf(base.grid) == old(KindsOf(base.grid))[c := At(base.grid, c)]
    {
      CarvingKinds(base.grid, c);
      var cell := base.CreateRandomCell(c.row, c.col);
      base.SetCell(cell);
    }
  }
}
