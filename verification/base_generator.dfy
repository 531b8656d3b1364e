/**
 * Shared maze carving: the initial classification of every cell (BEDROCK
 * border, DEFAULT passage sites at odd/odd positions, WALL elsewhere), the
 * wall/passage geometry of one carving step, the carving legality test, the
 * weighted terrain draw, and the base generator that only carves its start.
 */
module BaseGen {
  import opened Grid
  import opened Rand

  const NORMAL_WEIGHT: int := 60
  const OTHER_WEIGHT: int := 20
  const TOTAL_WEIGHT: int := 100

  // ---------------------------------------------------------------------
  // Static classification of cells

  /**
   * Both coordinates odd.  Java's `x % 2 != 0` and Dafny's agree for every
   * sign, since both remainders are zero exactly for even numbers.
   */
  predicate IsPassage(x: int, y: int)
  {
    x % 2 != 0 && y % 2 != 0
  }

  predicate IsBoundary(x: int, y: int, height: int, width: int)
  {
    x == 0 || y == 0 || x == width - 1 || y == height - 1
  }

  /** The type `fill` gives row y, column x: the passage test comes first. */
  function InitialType(y: int, x: int, height: int, width: int): CellType
  {
    if IsPassage(x, y) then Default
    else if IsBoundary(x, y, height, width) then Bedrock
    else Wall
  }

  function InitialCell(y: int, x: int, height: int, width: int): Cell
  {
    Cell(Coordinate(y, x), InitialType(y, x, height, width))
  }

  /** Odd dimensions of at least 3: the sizes the generators are given. */
  predicate OddDims(height: int, width: int)
  {
    height >= 3 && width >= 3 && height % 2 == 1 && width % 2 == 1
  }

  /** For odd dimensions no border cell is odd/odd, so the whole border is BEDROCK. */
  lemma OddBorderIsBedrock(y: int, x: int, height: int, width: int)
    requires OddDims(height, width)
    requires 0 <= y < height && 0 <= x < width && IsBoundary(x, y, height, width)
    ensures InitialType(y, x, height, width) == Bedrock
  {
  }

  /**
   * Because the odd/odd test precedes the border test, an even width leaves
   * DEFAULT cells in the last column of the border.
   */
  lemma EvenWidthBorderHasDefault(height: int, width: int)
    requires height >= 2 && width >= 2 && width % 2 == 0
    ensures IsBoundary(width - 1, 1, height, width)
    ensures InitialType(1, width - 1, height, width) == Default
  {
  }

  /** `grid` is exactly what `fill(height, width)` produces. */
  predicate IsFilled(g: array2<Cell>, height: int, width: int)
    reads g
  {
    g.Length0 == height && g.Length1 == width &&
    forall y, x :: 0 <= y < height && 0 <= x < width ==> g[y, x] == InitialCell(y, x, height, width)
  }

  // ---------------------------------------------------------------------
  // Carving state shared by the generators

  /** An odd/odd position: a passage site. */
  predicate IsSite(c: Coordinate)
  {
    c.row % 2 == 1 && c.col % 2 == 1
  }

  /**
   * The invariant of every grid a generator or the modifier hands on:
   * entries carry their own coordinates, BEDROCK cells are never written,
   * and a DEFAULT or WALL cell only ever becomes passable terrain.
   */
  predicate Carving(g: array2<Cell>)
    reads g
  {
    OddDims(g.Length0, g.Length1) &&
    forall y, x :: 0 <= y < g.Length0 && 0 <= x < g.Length1 ==>
      g[y, x].coordinate == Coordinate(y, x) &&
      (InitialType(y, x, g.Length0, g.Length1) == Bedrock ==> g[y, x].kind == Bedrock) &&
      (InitialType(y, x, g.Length0, g.Length1) == Default ==> g[y, x].kind == Default || IsPassable(g[y, x].kind)) &&
      (InitialType(y, x, g.Length0, g.Length1) == Wall ==> g[y, x].kind == Wall || IsPassable(g[y, x].kind))
  }

  lemma CarvingFacts(g: array2<Cell>)
    requires Carving(g)
    ensures BorderIsBedrock(g) && CoordinatesConsistent(g)
  {
    forall y, x | 0 <= y < g.Length0 && 0 <= x < g.Length1 &&
      (y == 0 || x == 0 || y == g.Length0 - 1 || x == g.Length1 - 1)
      ensures g[y, x].kind == Bedrock
    {
      OddBorderIsBedrock(y, x, g.Length0, g.Length1);
    }
  }

  lemma FilledIsCarving(g: array2<Cell>)
    requires OddDims(g.Length0, g.Length1) && IsFilled(g, g.Length0, g.Length1)
    ensures Carving(g)
  {
  }

  /**
   * The kind of every cell, as a value.  The carving sets below are
   * functions of this map, so that reasoning about one assignment to the
   * grid reduces to reasoning about one map update.
   */
  ghost function KindsOf(g: array2<Cell>): (m: map<Coordinate, CellType>)
    reads g
    ensures forall z :: z in m <==> InGrid(g, z)
  {
    map z | z in Coords(g.Length0, g.Length1) :: g[z.row, z.col].kind
  }

  /** Writing one entry of the grid changes only that entry's kind. */
  lemma KindsAfterWrite(g: array2<Cell>, before: map<Coordinate, CellType>, c: Coordinate)
    requires InGrid(g, c) && forall z :: z in before <==> InGrid(g, z)
    requires forall z :: InGrid(g, z) && z != c ==> z in before && g[z.row, z.col].kind == before[z]
    ensures KindsOf(g) == before[c := At(g, c)]
  {
    var m := KindsOf(g);
    assert forall z :: z in m ==> m[z] == before[c := At(g, c)][z];
  }

  /** The passage sites still waiting to be carved. */
  ghost function DefaultSites(m: map<Coordinate, CellType>): set<Coordinate>
  {
    set z | z in m && m[z] == Default
  }

  /** The passage sites already carved. */
  ghost function CarvedSites(m: map<Coordinate, CellType>): set<Coordinate>
  {
    set z | z in m && IsSite(z) && IsPassable(m[z])
  }

  /** The wall cells already opened. */
  ghost function OpenedWalls(m: map<Coordinate, CellType>): set<Coordinate>
  {
    set z | z in m && !IsSite(z) && IsPassable(m[z])
  }

  /** A walk over passable cells of m: each cell a four-neighbour of the one before. */
  ghost predicate Walk(m: map<Coordinate, CellType>, p: seq<Coordinate>)
  {
    |p| >= 1 && (forall i :: 0 <= i < |p| ==> p[i] in m && IsPassable(m[p[i]])) &&
    forall i :: 0 <= i < |p| - 1 ==> Adjacent(p[i], p[i + 1])
  }

  /** No direction from `c` still offers a WALL with a DEFAULT site behind it. */
  ghost predicate Blocked(m: map<Coordinate, CellType>, c: Coordinate)
  {
    forall d: Direction :: Step(c, d, 1) in m &&
      (m[Step(c, d, 1)] == Wall ==> Step(c, d, 2) in m && m[Step(c, d, 2)] != Default)
  }

  // ---------------------------------------------------------------------
  // Shape of a carve: which walls are open, who reaches whom

  /**
   * The two sites a wall cell separates: left and right of it on a site
   * row, above and below it otherwise.
   */
  function SideA(w: Coordinate): Coordinate
  {
    if w.row % 2 == 1 then Coordinate(w.row, w.col - 1) else Coordinate(w.row - 1, w.col)
  }

  function SideB(w: Coordinate): Coordinate
  {
    if w.row % 2 == 1 then Coordinate(w.row, w.col + 1) else Coordinate(w.row + 1, w.col)
  }

  /** The wall one step from a site separates that site from the site two steps away. */
  lemma SidesOfStep(p: Coordinate, d: Direction)
    requires IsSite(p)
    ensures (SideA(Step(p, d, 1)) == p && SideB(Step(p, d, 1)) == Step(p, d, 2)) ||
      (SideA(Step(p, d, 1)) == Step(p, d, 2) && SideB(Step(p, d, 1)) == p)
  {
  }

  /** Every opened wall lies between two carved sites. */
  ghost predicate WallsBetweenCarved(m: map<Coordinate, CellType>)
  {
    forall w :: w in OpenedWalls(m) ==> SideA(w) in CarvedSites(m) && SideB(w) in CarvedSites(m)
  }

  /** Some walk over passable cells leads from a to b. */
  ghost predicate Linked(m: map<Coordinate, CellType>, a: Coordinate, b: Coordinate)
  {
    exists p :: Walk(m, p) && p[0] == a && p[|p| - 1] == b
  }

  /** Every passable cell can be walked to from s. */
  ghost predicate ConnectedFrom(m: map<Coordinate, CellType>, s: Coordinate)
  {
    forall c {:trigger Linked(m, s, c)} :: c in m && IsPassable(m[c]) ==> Linked(m, s, c)
  }

  /** Every passable cell can be walked to from every other. */
  ghost predicate Connected(m: map<Coordinate, CellType>)
  {
    forall a, b {:trigger Linked(m, a, b)} :: a in m && IsPassable(m[a]) && b in m && IsPassable(m[b]) ==> Linked(m, a, b)
  }

  /** A carve of the single site s, with no wall opened, is connected from s. */
  lemma SoleCarve(m: map<Coordinate, CellType>, s: Coordinate)
    requires CarvedSites(m) == {s} && OpenedWalls(m) == {}
    ensures WallsBetweenCarved(m) && ConnectedFrom(m, s)
  {
    forall c | c in m && IsPassable(m[c]) ensures Linked(m, s, c) {
      assert c in CarvedSites(m) || c in OpenedWalls(m);
      assert Walk(m, [s]);
    }
  }

  /** A walk read backwards is a walk. */
  lemma LinkedBack(m: map<Coordinate, CellType>, a: Coordinate, b: Coordinate)
    requires Linked(m, a, b)
    ensures Linked(m, b, a)
  {
    var p :| Walk(m, p) && p[0] == a && p[|p| - 1] == b;
    var q := seq(|p|, i requires 0 <= i < |p| => p[|p| - 1 - i]);
    forall i | 0 <= i < |q| - 1 ensures Adjacent(q[i], q[i + 1]) {
      assert Adjacent(p[|p| - 2 - i], p[|p| - 1 - i]);
    }
    assert Walk(m, q) && q[0] == b && q[|q| - 1] == a;
  }

  /** Two walks that meet make one. */
  lemma LinkedJoin(m: map<Coordinate, CellType>, a: Coordinate, b: Coordinate, c: Coordinate)
    requires Linked(m, a, b) && Linked(m, b, c)
    ensures Linked(m, a, c)
  {
    var p :| Walk(m, p) && p[0] == a && p[|p| - 1] == b;
    var q :| Walk(m, q) && q[0] == b && q[|q| - 1] == c;
    var r := p + q[1..];
    forall i | 0 <= i < |r| - 1 ensures Adjacent(r[i], r[i + 1]) {
      if i == |p| - 1 {
        assert r[i] == q[0] && r[i + 1] == q[1];
      } else if i >= |p| {
        assert r[i] == q[i - |p| + 1] && r[i + 1] == q[i - |p| + 2];
      }
    }
    assert Walk(m, r) && r[0] == a && r[|r| - 1] == c;
  }

  /** When every passable cell can be walked to from one of them, every cell can be walked to from every other. */
  lemma AllLinked(m: map<Coordinate, CellType>, s: Coordinate)
    requires ConnectedFrom(m, s)
    ensures Connected(m)
  {
    forall a, b | a in m && IsPassable(m[a]) && b in m && IsPassable(m[b]) ensures Linked(m, a, b) {
      assert Linked(m, s, a) && Linked(m, s, b);
      LinkedBack(m, s, a);
      LinkedJoin(m, a, s, b);
    }
  }

  /** Every cell passable in m is passable in m2. */
  ghost predicate PassableKept(m: map<Coordinate, CellType>, m2: map<Coordinate, CellType>)
  {
    forall z :: z in m && IsPassable(m[z]) ==> z in m2 && IsPassable(m2[z])
  }

  lemma WalkKept(m: map<Coordinate, CellType>, m2: map<Coordinate, CellType>, p: seq<Coordinate>)
    requires Walk(m, p) && PassableKept(m, m2)
    ensures Walk(m2, p)
  {
    assert forall i :: 0 <= i < |p| ==> p[i] in m && IsPassable(m[p[i]]);
  }

  /**
   * One carving step on the kinds map: opening the WALL w next to the
   * passable cell a and carving the cell n behind it keeps every passable
   * cell within walking distance of s.
   */
  lemma ExtendConnected(m: map<Coordinate, CellType>, s: Coordinate, a: Coordinate, w: Coordinate, n: Coordinate,
                        t1: CellType, t2: CellType)
    requires ConnectedFrom(m, s) && a in m && IsPassable(m[a])
    requires w in m && n in m && !IsPassable(m[w]) && !IsPassable(m[n]) && w != n
    requires Adjacent(a, w) && Adjacent(w, n) && IsPassable(t1) && IsPassable(t2)
    ensures ConnectedFrom(m[w := t1][n := t2], s)
  {
    var m2 := m[w := t1][n := t2];
    assert PassableKept(m, m2);
    assert Linked(m, s, a);
    var p :| Walk(m, p) && p[0] == s && p[|p| - 1] == a;
    WalkKept(m, m2, p);
    forall c | c in m2 && IsPassable(m2[c]) ensures Linked(m2, s, c) {
      if c == w {
        assert Walk(m2, p + [w]);
        assert (p + [w])[|p|] == w;
      } else if c == n {
        assert Walk(m2, p + [w, n]);
        assert (p + [w, n])[|p| + 1] == n;
      } else {
        assert Linked(m, s, c);
        var q :| Walk(m, q) && q[0] == s && q[|q| - 1] == c;
        WalkKept(m, m2, q);
      }
    }
  }

  /**
   * The same step keeps every opened wall between two carved sites when
   * the wall separates the carved site a from the DEFAULT site n.
   */
  lemma ExtendWalls(m: map<Coordinate, CellType>, a: Coordinate, w: Coordinate, n: Coordinate,
                    t1: CellType, t2: CellType)
    requires WallsBetweenCarved(m) && a in CarvedSites(m)
    requires w in m && m[w] == Wall && !IsSite(w) && n in m && m[n] == Default && IsSite(n)
    requires (SideA(w) == a && SideB(w) == n) || (SideA(w) == n && SideB(w) == a)
    requires IsPassable(t1) && IsPassable(t2)
    ensures WallsBetweenCarved(m[w := t1][n := t2])
  {
    var m1 := m[w := t1];
    OpenWallKind(m, w, t1);
    CarveSiteKind(m1, n, t2);
  }

  /**
   * On a carving grid whose opened walls all lie between carved sites, a
   * blocked carved site u has a carved site two steps along every
   * direction that stays inside the grid: the wall between is either still
   * WALL, and then blocking forbids a DEFAULT site behind it, or opened, and
   * then both of its sides are carved.
   */
  lemma SpreadStep(g: array2<Cell>, u: Coordinate, d: Direction)
    requires Carving(g) && WallsBetweenCarved(KindsOf(g))
    requires u in CarvedSites(KindsOf(g)) && Blocked(KindsOf(g), u)
    requires InGrid(g, Step(u, d, 2))
    ensures Step(u, d, 2) in CarvedSites(KindsOf(g))
  {
    var m := KindsOf(g);
    var w, t := Step(u, d, 1), Step(u, d, 2);
    SiteIsInterior(g, u);
    StepInside(g, u, d);
    SidesOfStep(u, d);
    CarvingKinds(g, w);
    assert m[t] == At(g, t) && m[w] == At(g, w);
    assert g[t.row, t.col].kind == Default || IsPassable(g[t.row, t.col].kind) by {
      assert InitialType(t.row, t.col, g.Length0, g.Length1) == Default;
    }
    assert g[w.row, w.col].kind == Wall || IsPassable(g[w.row, w.col].kind) by {
      assert !IsBoundary(w.col, w.row, g.Length0, g.Length1);
      assert InitialType(w.row, w.col, g.Length0, g.Length1) == Wall;
    }
    if m[w] != Wall {
      assert w in OpenedWalls(m);
    }
  }

  /** The number of unit steps between two cells along rows and columns. */
  function Distance(a: Coordinate, b: Coordinate): nat
  {
    (if a.row < b.row then b.row - a.row else a.row - b.row) + (if a.col < b.col then b.col - a.col else a.col - b.col)
  }

  /**
   * From a site t other than the site s, the site two steps towards s:
   * columns first, then rows.  It lies in the box spanned by s and t and is
   * nearer to s.
   */
  lemma Approach(s: Coordinate, t: Coordinate) returns (u: Coordinate, d: Direction)
    requires IsSite(s) && IsSite(t) && s != t
    ensures IsSite(u) && Step(u, d, 2) == t && Distance(u, s) < Distance(t, s)
    ensures (s.row <= u.row <= t.row || t.row <= u.row <= s.row) && (s.col <= u.col <= t.col || t.col <= u.col <= s.col)
  {
    if t.col < s.col {
      u, d := Coordinate(t.row, t.col + 2), Left;
    } else if t.col > s.col {
      u, d := Coordinate(t.row, t.col - 2), Right;
    } else if t.row < s.row {
      u, d := Coordinate(t.row + 2, t.col), Up;
    } else {
      u, d := Coordinate(t.row - 2, t.col), Down;
    }
  }

  /**
   * In the same state with every carved site blocked, the carve spreads
   * from the carved site s to every site t, two cells at a time from s
   * towards t.
   */
  lemma {:induction false} CarvedSpread(g: array2<Cell>, s: Coordinate, t: Coordinate)
    requires Carving(g) && WallsBetweenCarved(KindsOf(g)) && s in CarvedSites(KindsOf(g))
    requires forall c :: c in CarvedSites(KindsOf(g)) ==> Blocked(KindsOf(g), c)
    requires InGrid(g, t) && IsSite(t)
    ensures t in CarvedSites(KindsOf(g))
    decreases Distance(t, s)
  {
    if t != s {
      var u, d := Approach(s, t);
      CarvedSpread(g, s, u);
      SpreadStep(g, u, d);
    }
  }

  /** In that state no DEFAULT cell is left: every site has been carved. */
  lemma CarvedEverywhere(g: array2<Cell>, s: Coordinate)
    requires Carving(g) && WallsBetweenCarved(KindsOf(g)) && s in CarvedSites(KindsOf(g))
    requires forall c :: c in CarvedSites(KindsOf(g)) ==> Blocked(KindsOf(g), c)
    ensures DefaultSites(KindsOf(g)) == {}
    ensures forall z :: z in KindsOf(g) && IsSite(z) ==> z in CarvedSites(KindsOf(g))
  {
    var m := KindsOf(g);
    forall z | z in m ensures m[z] != Default && (IsSite(z) ==> z in CarvedSites(m)) {
      CarvingKinds(g, z);
      if IsSite(z) {
        CarvedSpread(g, s, z);
      }
    }
  }

  /** On a carving grid DEFAULT cells are sites and WALL cells are not. */
  lemma CarvingKinds(g: array2<Cell>, c: Coordinate)
    requires Carving(g) && InGrid(g, c)
    ensures At(g, c) == Default ==> IsSite(c)
    ensures At(g, c) == Wall ==> !IsSite(c)
  {
    assert At(g, c) == Default ==> IsPassage(c.col, c.row);
    assert At(g, c) == Wall ==> !IsPassage(c.col, c.row);
  }

  /** Carving a DEFAULT site moves it from the DEFAULT sites to the carved sites. */
  lemma CarveSiteKind(m: map<Coordinate, CellType>, c: Coordinate, t: CellType)
    requires c in m && m[c] == Default && IsSite(c) && IsPassable(t)
    ensures c !in CarvedSites(m) && CarvedSites(m[c := t]) == CarvedSites(m) + {c}
    ensures |CarvedSites(m[c := t])| == |CarvedSites(m)| + 1
    ensures OpenedWalls(m[c := t]) == OpenedWalls(m)
    ensures c in DefaultSites(m) && DefaultSites(m[c := t]) == DefaultSites(m) - {c}
    ensures |DefaultSites(m[c := t])| == |DefaultSites(m)| - 1
  {
    var m' := m[c := t];
    assert CarvedSites(m') == CarvedSites(m) + {c};
    assert OpenedWalls(m') == OpenedWalls(m);
    assert DefaultSites(m') == DefaultSites(m) - {c};
  }

  /** Opening a WALL adds it to the opened walls and leaves the sites alone. */
  lemma OpenWallKind(m: map<Coordinate, CellType>, c: Coordinate, t: CellType)
    requires c in m && m[c] == Wall && !IsSite(c) && IsPassable(t)
    ensures c !in OpenedWalls(m) && OpenedWalls(m[c := t]) == OpenedWalls(m) + {c}
    ensures |OpenedWalls(m[c := t])| == |OpenedWalls(m)| + 1
    ensures CarvedSites(m[c := t]) == CarvedSites(m)
    ensures DefaultSites(m[c := t]) == DefaultSites(m)
  {
    var m' := m[c := t];
    assert OpenedWalls(m') == OpenedWalls(m) + {c};
    assert CarvedSites(m') == CarvedSites(m);
    assert DefaultSites(m') == DefaultSites(m);
  }

  /** Turning a DEFAULT or WALL cell passable never unblocks a cell. */
  lemma BlockedStable(m: map<Coordinate, CellType>, c: Coordinate, t: CellType)
    requires c in m && (m[c] == Default || m[c] == Wall) && IsPassable(t)
    ensures forall e :: Blocked(m, e) ==> Blocked(m[c := t], e)
  {
    forall e | Blocked(m, e) ensures Blocked(m[c := t], e) {
      forall d: Direction
        ensures Step(e, d, 1) in m[c := t] &&
          (m[c := t][Step(e, d, 1)] == Wall ==> Step(e, d, 2) in m[c := t] && m[c := t][Step(e, d, 2)] != Default)
      {
        assert Step(e, d, 1) in m;
      }
    }
  }

  /** A freshly filled grid has carved nothing and opened nothing. */
  lemma FilledHasNothingCarved(g: array2<Cell>)
    requires IsFilled(g, g.Length0, g.Length1)
    ensures CarvedSites(KindsOf(g)) == {} && OpenedWalls(KindsOf(g)) == {}
  {
    var m := KindsOf(g);
    forall z | z in m ensures !IsPassable(m[z]) {
      assert g[z.row, z.col] == InitialCell(z.row, z.col, g.Length0, g.Length1);
    }
  }

  /** On a carving grid, an interior site is blocked exactly when `checkPath` fails in every direction. */
  lemma BlockedMeansNoCarve(g: array2<Cell>, c: Coordinate)
    requires Carving(g) && IsSite(c) && Interior(g, c)
    ensures Blocked(KindsOf(g), c) <==> forall d: Direction :: !CanCarve(g, c, d)
  {
    var m := KindsOf(g);
    forall d: Direction
      ensures Step(c, d, 1) in m && m[Step(c, d, 1)] == At(g, Step(c, d, 1))
      ensures At(g, Step(c, d, 1)) == Wall ==>
        Step(c, d, 2) in m && m[Step(c, d, 2)] == At(g, Step(c, d, 2))
    {
      StepInside(g, c, d);
    }
    if forall d: Direction :: !CanCarve(g, c, d) {
      forall d: Direction
        ensures Step(c, d, 1) in m &&
          (m[Step(c, d, 1)] == Wall ==> Step(c, d, 2) in m && m[Step(c, d, 2)] != Default)
      {
        assert !CanCarve(g, c, d);
      }
    }
  }

  /** Every site of a grid with odd dimensions lies strictly inside it. */
  lemma SiteIsInterior(g: array2<Cell>, c: Coordinate)
    requires OddDims(g.Length0, g.Length1) && InGrid(g, c) && IsSite(c)
    ensures Interior(g, c)
  {
  }

  // ---------------------------------------------------------------------
  // Geometry of one carving step

  /** `calculateCoordinate`: the row (isRow) or column `offset` steps away. */
  function CalculateCoordinate(point: Coordinate, direction: Direction, offset: int, isRow: bool): (r: int)
    ensures isRow ==> r == Step(point, direction, offset).row
    ensures !isRow ==> r == Step(point, direction, offset).col
  {
    match direction
    case Up => if isRow then point.row - offset else point.col
    case Down => if isRow then point.row + offset else point.col
    case Left => if isRow then point.row else point.col - offset
    case Right => if isRow then point.row else point.col + offset
  }

  /** The wall (offset 1) lies exactly midway between a point and its passage (offset 2). */
  lemma WallIsMidpoint(p: Coordinate, d: Direction)
    ensures Step(p, d, 1).row * 2 == p.row + Step(p, d, 2).row
    ensures Step(p, d, 1).col * 2 == p.col + Step(p, d, 2).col
    ensures (Step(p, d, 1).row == p.row) != (Step(p, d, 1).col == p.col)
  {
  }

  /**
   * `checkPath`: the wall is still WALL and the site beyond is still DEFAULT.
   * The passage cell is only read when the wall test succeeds.
   */
  function CanCarve(g: array2<Cell>, p: Coordinate, d: Direction): bool
    requires InGrid(g, Step(p, d, 1))
    requires At(g, Step(p, d, 1)) == Wall ==> InGrid(g, Step(p, d, 2))
    reads g
  {
    At(g, Step(p, d, 1)) == Wall && At(g, Step(p, d, 2)) == Default
  }

  /**
   * From an interior site of a carving grid both cells `checkPath` reads
   * are inside the grid, and a WALL between two sites leads to a site.
   */
  lemma StepInside(g: array2<Cell>, p: Coordinate, d: Direction)
    requires Carving(g) && IsSite(p) && Interior(g, p)
    ensures InGrid(g, Step(p, d, 1))
    ensures At(g, Step(p, d, 1)) == Wall ==>
      InGrid(g, Step(p, d, 2)) && Interior(g, Step(p, d, 2)) && IsSite(Step(p, d, 2))
    ensures !IsSite(Step(p, d, 1))
  {
    var w := Step(p, d, 1);
    if At(g, w) == Wall {
      assert !IsBoundary(w.col, w.row, g.Length0, g.Length1);
    }
  }

  // ---------------------------------------------------------------------
  // Random draws

  /** The weighted terrain draw of `getRandomCellType`, given the draw r in [0, 100). */
  function WeightedType(r: int): (t: CellType)
    requires 0 <= r < TOTAL_WEIGHT
    ensures IsPassable(t)
    ensures t == Normal <==> r < 60
    ensures t == Ice <==> 60 <= r < 80
    ensures t == Sand <==> 80 <= r
  {
    if r < NORMAL_WEIGHT then Normal
    else if r < NORMAL_WEIGHT + OTHER_WEIGHT then Ice
    else Sand
  }

  /** How many of the draws 0 .. n-1 make `getRandomCellType` yield t. */
  function CountDraws(n: nat, t: CellType): nat
    requires n <= TOTAL_WEIGHT
  {
    if n == 0 then 0 else CountDraws(n - 1, t) + (if WeightedType(n - 1) == t then 1 else 0)
  }

  lemma {:induction false} CountDrawsPrefix(n: nat)
    requires n <= TOTAL_WEIGHT
    ensures CountDraws(n, Normal) == if n < 60 then n else 60
    ensures CountDraws(n, Ice) == if n < 60 then 0 else if n < 80 then n - 60 else 20
    ensures CountDraws(n, Sand) == if n < 80 then 0 else n - 80
  {
    if n > 0 {
      CountDrawsPrefix(n - 1);
    }
  }

  /** Of the 100 equally likely draws, 60 give NORMAL, 20 ICE and 20 SAND. */
  lemma WeightedTypeDistribution()
    ensures CountDraws(100, Normal) == 60
    ensures CountDraws(100, Ice) == 20
    ensures CountDraws(100, Sand) == 20
  {
    CountDrawsPrefix(100);
  }

  /** `getRandomOdd` given the draw k in [0, (max + 1) / 2). */
  function OddFromDraw(max: int, k: int): (r: int)
    requires max >= 1 && 0 <= k < (max + 1) / 2
    ensures r % 2 == 1 && 1 <= r <= max
  {
    k * 2 + 1
  }

  // ---------------------------------------------------------------------
  // The generator object

  class BaseGenerator {
    var xWall: int
    var yWall: int
    var xPassage: int
    var yPassage: int
    var startPoint: Cell
    var grid: array2<Cell>
    const random: RandomSource

    constructor (random: RandomSource)
      ensures this.random == random
    {
      this.random := random;
      grid := new Cell[0, 0];
    }

    /**
     * `generate`: a filled grid in which only the randomly chosen start site
     * has been carved.
     */
    method Generate(height: int, width: int) returns (m: Maze)
      requires OddDims(height, width)
      modifies this, random
      ensures fresh(grid) && m == Maze(height, width, grid)
      ensures grid.Length0 == height && grid.Length1 == width && Carving(grid)
      ensures InGrid(grid, startPoint.coordinate) && IsSite(startPoint.coordinate)
      ensures forall y, x :: 0 <= y < height && 0 <= x < width ==>
        if Coordinate(y, x) == startPoint.coordinate
        then grid[y, x].coordinate == Coordinate(y, x) && IsPassable(grid[y, x].kind)
        else grid[y, x] == InitialCell(y, x, height, width)
    {
      Fill(height, width);
      startPoint := SelectStartPoint(height, width);
      var cell := CreateRandomCell(startPoint.coordinate.row, startPoint.coordinate.col);
      SetCell(cell);
      m := Maze(height, width, grid);
    }

    /** `fill`: a fresh grid in which every cell has its initial type. */
    method Fill(height: int, width: int)
      requires height >= 0 && width >= 0
      modifies this
      ensures fresh(grid) && IsFilled(grid, height, width)
    {
      grid := new Cell[height, width];
      var y := 0;
      while y < height
        invariant 0 <= y <= height
        invariant fresh(grid) && grid.Length0 == height && grid.Length1 == width
        invariant forall i, j :: 0 <= i < y && 0 <= j < width ==> grid[i, j] == InitialCell(i, j, height, width)
      {
        var x := 0;
        while x < width
          invariant 0 <= x <= width
          invariant fresh(grid) && grid.Length0 == height && grid.Length1 == width
          invariant forall i, j :: 0 <= i < y && 0 <= j < width ==> grid[i, j] == InitialCell(i, j, height, width)
          invariant forall j :: 0 <= j < x ==> grid[y, j] == InitialCell(y, j, height, width)
        {
          InitializeCell(x, y, height, width);
          x := x + 1;
        }
        y := y + 1;
      }
    }

    /** `initializeCell`: writes only the entry at row y, column x. */
    method InitializeCell(x: int, y: int, height: int, width: int)
      requires 0 <= y < grid.Length0 && 0 <= x < grid.Length1
      modifies grid
      ensures grid[y, x] == InitialCell(y, x, height, width)
      ensures forall i, j :: 0 <= i < grid.Length0 && 0 <= j < grid.Length1 && (i, j) != (y, x) ==>
        grid[i, j] == old(grid[i, j])
    {
      var coordinate := Coordinate(y, x);
      if IsPassage(x, y) {
        grid[y, x] := Cell(coordinate, Default);
      } else if IsBoundary(x, y, height, width) {
        grid[y, x] := Cell(coordinate, Bedrock);
      } else {
        grid[y, x] := Cell(coordinate, Wall);
      }
    }

    /** `selectStartPoint`: the current cell of a random odd/odd interior site. */
    method SelectStartPoint(height: int, width: int) returns (c: Cell)
      requires height >= 3 && width >= 3
      requires grid.Length0 == height && grid.Length1 == width
      modifies random
      ensures exists r, k ::
        (0 <= r < height && 0 <= k < width &&
         r % 2 == 1 && r <= height - 2 && k % 2 == 1 && k <= width - 2 && c == grid[r, k])
    {
      var h := GetRandomOdd(height - 2);
      var w := GetRandomOdd(width - 2);
      c := grid[h, w];
    }

    /** `setCell`: replaces the entry at the cell's own coordinate, and nothing else. */
    method SetCell(cell: Cell)
      requires InGrid(grid, cell.coordinate)
      modifies grid
      ensures grid[cell.coordinate.row, cell.coordinate.col] == cell
      ensures forall i, j :: 0 <= i < grid.Length0 && 0 <= j < grid.Length1 && Coordinate(i, j) != cell.coordinate ==>
        grid[i, j] == old(grid[i, j])
    {
      grid[cell.coordinate.row, cell.coordinate.col] := cell;
    }

    method CreateRandomCell(row: int, col: int) returns (c: Cell)
      modifies random
      ensures c.coordinate == Coordinate(row, col) && IsPassable(c.kind)
    {
      var t := GetRandomCellType();
      c := Cell(Coordinate(row, col), t);
    }

    /**
     * `checkPath`: records the wall and passage positions in the scratch
     * fields and tells whether carving from `point` towards `direction` is legal.
     */
    method CheckPath(point: Cell, direction: Direction) returns (b: bool)
      requires InGrid(grid, Step(point.coordinate, direction, 1))
      requires At(grid, Step(point.coordinate, direction, 1)) == Wall ==> InGrid(grid, Step(point.coordinate, direction, 2))
      modifies this`xWall, this`yWall, this`xPassage, this`yPassage
      ensures b == CanCarve(grid, point.coordinate, direction)
      ensures Coordinate(yWall, xWall) == Step(point.coordinate, direction, 1)
      ensures Coordinate(yPassage, xPassage) == Step(point.coordinate, direction, 2)
    {
      CalculateWallAndPassage(point, direction);
      b := grid[yWall, xWall].kind == Wall && grid[yPassage, xPassage].kind == Default;
    }

    /** `calculateWallAndPassage`: the wall one step and the passage two steps away. */
    method CalculateWallAndPassage(point: Cell, direction: Direction)
      modifies this`xWall, this`yWall, this`xPassage, this`yPassage
      ensures Coordinate(yWall, xWall) == Step(point.coordinate, direction, 1)
      ensures Coordinate(yPassage, xPassage) == Step(point.coordinate, direction, 2)
    {
      xWall := CalculateCoordinate(point.coordinate, direction, 1, false);
      yWall := CalculateCoordinate(point.coordinate, direction, 1, true);
      xPassage := CalculateCoordinate(point.coordinate, direction, 2, false);
      yPassage := CalculateCoordinate(point.coordinate, direction, 2, true);
    }

    /** `getRandomCellType`: NORMAL, ICE or SAND by the 60/20/20 draw. */
    method GetRandomCellType() returns (t: CellType)
      modifies random
      ensures IsPassable(t)
    {
      var randomNum := random.NextInt(TOTAL_WEIGHT);
      t := WeightedType(randomNum);
    }

    /** `getRandomOdd`: an odd number in [1, max]. */
    method GetRandomOdd(max: int) returns (r: int)
      requires max >= 1
      modifies random
      ensures r % 2 == 1 && 1 <= r <= max
    {
      var k := random.NextInt((max + 1) / 2);
      r := OddFromDraw(max, k);
    }
  }
}
