/**
 * The non-ideal maze modifier: lists the WALL cells of the maze in
 * row-major order, shuffles the list, and turns the first ceil(5%) of them
 * into passable terrain, so that the maze gains a few cycles.
 */
module Modifier {
  import opened Grid
  import opened Rand
  import opened BaseGen

  // ---------------------------------------------------------------------
  // Row-major order and distinct lists

  /** a comes before b in row-major order. */
  predicate Before(a: Coordinate, b: Coordinate)
  {
    a.row < b.row || (a.row == b.row && a.col < b.col)
  }

  predicate RowMajor(s: seq<Coordinate>)
  {
    forall i, j :: 0 <= i < j < |s| ==> Before(s[i], s[j])
  }

  lemma RowMajorConcat(a: seq<Coordinate>, b: seq<Coordinate>)
    requires RowMajor(a) && RowMajor(b)
    requires forall x, y :: x in a && y in b ==> Before(x, y)
    ensures RowMajor(a + b)
  {
    forall i, j | 0 <= i < j < |a + b| ensures Before((a + b)[i], (a + b)[j]) {
      if j < |a| {
        assert (a + b)[i] == a[i] && (a + b)[j] == a[j];
      } else if i < |a| {
        assert (a + b)[i] == a[i] && (a + b)[j] == b[j - |a|];
        assert a[i] in a && b[j - |a|] in b;
      } else {
        assert (a + b)[i] == b[i - |a|] && (a + b)[j] == b[j - |a|];
      }
    }
  }

  /** A list of distinct elements has as many elements as its set of elements. */
  lemma {:induction false} NoDupsCard<T>(s: seq<T>)
    requires NoDups(s)
    ensures |set x | x in s| == |s|
  {
    if |s| > 0 {
      var t := s[..|s| - 1];
      assert NoDups(t);
      NoDupsCard(t);
      assert (set x | x in s) == (set x | x in t) + {s[|s| - 1]};
      assert s[|s| - 1] !in t;
    } else {
      assert (set x | x in s) == {};
    }
  }

  // ---------------------------------------------------------------------
  // The wall list

  /** The WALL coordinates of row y left of column x, left to right. */
  function WallsOfRow(g: array2<Cell>, y: int, x: int): (r: seq<Coordinate>)
    requires 0 <= y < g.Length0 && x <= g.Length1
    reads g
    ensures forall z :: z in r <==> z.row == y && 0 <= z.col < x && g[y, z.col].kind == Wall
    ensures RowMajor(r)
    decreases x
  {
    if x <= 0 then []
    else
      var front := WallsOfRow(g, y, x - 1);
      var last := if g[y, x - 1].kind == Wall then [Coordinate(y, x - 1)] else [];
      RowMajorConcat(front, last);
      front + last
  }

  /**
   * The list the nested loops of `deleteSomeWalls` collect from the first
   * y rows and first w columns: every WALL coordinate there, once, in row-major order.
   */
  function WallList(g: array2<Cell>, y: int, w: int): (r: seq<Coordinate>)
    requires y <= g.Length0 && w <= g.Length1
    reads g
    ensures forall z :: z in r <==> 0 <= z.row < y && 0 <= z.col < w && g[z.row, z.col].kind == Wall
    ensures RowMajor(r)
    decreases y
  {
    if y <= 0 then []
    else
      var front := WallList(g, y - 1, w);
      var row := WallsOfRow(g, y - 1, w);
      RowMajorConcat(front, row);
      front + row
  }

  lemma RowMajorNoDups(s: seq<Coordinate>)
    requires RowMajor(s)
    ensures NoDups(s)
  {
  }

  // ---------------------------------------------------------------------
  // The number of walls to delete

  /**
   * `size * 0.05` rounded up to an integer, as BigDecimal's CEILING
   * rounding does: the least k with 20 k >= n.
   */
  function WallsToDelete(n: nat): (k: nat)
    ensures 20 * k >= n && 20 * (k - 1) < n
    ensures k <= n
  {
    (n + 19) / 20
  }

  /** The WALL coordinates of the first h rows and w columns, as a set. */
  ghost function WallSet(m: map<Coordinate, CellType>, h: int, w: int): set<Coordinate>
  {
    set z | z in m && z.row < h && z.col < w && m[z] == Wall
  }

  /**
   * The pure core of `deleteSomeWalls`: when the first k entries of a
   * duplicate-free list of the n WALLs become passable and nothing else
   * changes, exactly n - k WALLs remain.
   */
  lemma DeletionCount(m: map<Coordinate, CellType>, m': map<Coordinate, CellType>, h: int, w: int,
                      walls: seq<Coordinate>, k: nat)
    requires k <= |walls| && NoDups(walls)
    requires forall z :: z in walls <==> z in WallSet(m, h, w)
    requires m'.Keys == m.Keys
    requires forall z :: z in m ==> if z in walls[..k] then IsPassable(m'[z]) else m'[z] == m[z]
    ensures |walls| == |WallSet(m, h, w)|
    ensures |WallSet(m', h, w)| == |WallSet(m, h, w)| - k
  {
    var chosen := set z | z in walls[..k];
    assert NoDups(walls[..k]);
    NoDupsCard(walls[..k]);
    NoDupsCard(walls);
    assert (set z | z in walls) == WallSet(m, h, w);
    assert chosen <= WallSet(m, h, w);
    assert WallSet(m', h, w) == WallSet(m, h, w) - chosen;
  }

  // ---------------------------------------------------------------------
  // Collections.shuffle

  /**
   * `Collections.shuffle(list, random)`: for i from the size down to 2,
   * swap the entry at i - 1 with one drawn from [0, i).  The result is a
   * permutation of the input.
   */
  method Shuffle<T(==)>(s: seq<T>, random: RandomSource) returns (r: seq<T>)
    modifies random
    ensures multiset(r) == multiset(s)
    ensures NoDups(s) ==> NoDups(r)
  {
    r := s;
    var i := |r|;
    while i > 1
      invariant 0 <= i <= |r| && multiset(r) == multiset(s)
      invariant NoDups(s) ==> NoDups(r)
    {
      var j := random.NextInt(i);
      if NoDups(s) {
        SwapNoDups(r, i - 1, j);
      }
      r := Swap(r, i - 1, j);
      i := i - 1;
    }
  }

  /** `Collections.swap`: the two entries change places. */
  function Swap<T>(s: seq<T>, i: nat, j: nat): (r: seq<T>)
    requires i < |s| && j < |s|
    ensures |r| == |s| && r[i] == s[j] && r[j] == s[i]
    ensures forall k :: 0 <= k < |s| && k != i && k != j ==> r[k] == s[k]
    ensures multiset(r) == multiset(s)
  {
    s[i := s[j]][j := s[i]]
  }

  lemma SwapNoDups<T>(s: seq<T>, i: nat, j: nat)
    requires i < |s| && j < |s| && NoDups(s)
    ensures NoDups(Swap(s, i, j))
  {
    var r := Swap(s, i, j);
    forall a, b | 0 <= a < b < |r| ensures r[a] != r[b] {
      var a' := if a == i then j else if a == j then i else a;
      var b' := if b == i then j else if b == j then i else b;
      assert r[a] == s[a'] && r[b] == s[b'] && a' != b';
    }
  }

  // ---------------------------------------------------------------------
  // The modifier

  class NonIdealMazeModifier {
    const grid: array2<Cell>
    const random: RandomSource

    constructor (grid: array2<Cell>, random: RandomSource)
      ensures this.grid == grid && this.random == random
    {
      this.grid := grid;
      this.random := random;
    }

    /** `modify`: deletes some walls and wraps the same grid in a maze. */
    method Modify(height: int, width: int) returns (m: Maze)
      requires height <= grid.Length0 && width <= grid.Length1
      modifies grid, random
      ensures m == Maze(height, width, grid)
      ensures |WallSet(KindsOf(grid), height, width)| ==
        old(|WallSet(KindsOf(grid), height, width)|) - WallsToDelete(old(|WallSet(KindsOf(grid), height, width)|))
      ensures forall z :: z in KindsOf(grid) && KindsOf(grid)[z] != old(KindsOf(grid))[z] ==>
        z in old(WallSet(KindsOf(grid), height, width)) && IsPassable(KindsOf(grid)[z])
      ensures old(|WallSet(KindsOf(grid), height, width)|) == 0 ==> KindsOf(grid) == old(KindsOf(grid))
      ensures old(Carving(grid)) ==> Carving(grid)
    {
      DeleteSomeWalls(height, width);
      m := Maze(height, width, grid);
    }

    /**
     * `deleteSomeWalls`: of the n WALLs in the first `height` rows and
     * `width` columns, ceil(n / 20) become passable; WALLs outside the
     * chosen ones and all other cells keep their type.
     */
    method DeleteSomeWalls(height: int, width: int)
      requires height <= grid.Length0 && width <= grid.Length1
      modifies grid, random
      ensures |WallSet(KindsOf(grid), height, width)| ==
        old(|WallSet(KindsOf(grid), height, width)|) - WallsToDelete(old(|WallSet(KindsOf(grid), height, width)|))
      ensures forall z :: z in KindsOf(grid) && KindsOf(grid)[z] != old(KindsOf(grid))[z] ==>
        z in old(WallSet(KindsOf(grid), height, width)) && IsPassable(KindsOf(grid)[z])
      ensures old(|WallSet(KindsOf(grid), height, width)|) == 0 ==> KindsOf(grid) == old(KindsOf(grid))
      ensures old(Carving(grid)) ==> Carving(grid)
    {
      ghost var m0 := KindsOf(grid);
      var wallCoordinates := CollectWalls(height, width);
      WallListIsWallSet(height, width);
      RowMajorNoDups(wallCoordinates);
      ghost var collected := wallCoordinates;
      wallCoordinates := Shuffle(wallCoordinates, random);
      forall z ensures z in wallCoordinates <==> z in WallSet(m0, height, width) {
        assert z in wallCoordinates <==> z in multiset(wallCoordinates);
        assert z in collected <==> z in multiset(collected);
      }

      var wallsToDelete := WallsToDelete(|wallCoordinates|);
      DeleteFirst(wallCoordinates, wallsToDelete);
      DeletionCount(m0, KindsOf(grid), height, width, wallCoordinates, wallsToDelete);
    }

    /**
     * The counted loop of `deleteSomeWalls`: each of the first k listed
     * WALLs gets a fresh passable cell; every other entry keeps its type.
     */
    method DeleteFirst(walls: seq<Coordinate>, k: nat)
      requires k <= |walls| && NoDups(walls)
      requires forall z :: z in walls ==> z in KindsOf(grid) && KindsOf(grid)[z] == Wall
      modifies grid, random
      ensures forall z :: z in old(KindsOf(grid)) ==>
        if z in walls[..k] then IsPassable(KindsOf(grid)[z]) else KindsOf(grid)[z] == old(KindsOf(grid))[z]
      ensures old(Carving(grid)) ==> Carving(grid)
    {
      ghost var m0 := KindsOf(grid);
      var i := 0;
      while i < k && i < |walls|
        invariant 0 <= i <= k
        invariant forall z :: z in m0 ==>
          if z in walls[..i] then IsPassable(KindsOf(grid)[z]) else KindsOf(grid)[z] == m0[z]
        invariant old(Carving(grid)) ==> Carving(grid)
      {
        var coordinate := walls[i];
        assert coordinate !in walls[..i];
        assert walls[..i + 1] == walls[..i] + [coordinate];
        DeleteWall(coordinate);
        i := i + 1;
      }
    }

    /** The WALL list of the whole scanned region, as a set, is the region's WALL set. */
    lemma WallListIsWallSet(height: int, width: int)
      requires height <= grid.Length0 && width <= grid.Length1
      ensures forall z :: z in WallList(grid, height, width) <==> z in WallSet(KindsOf(grid), height, width)
    {
    }

    /** The nested loops that collect the WALL coordinates, row by row. */
    method CollectWalls(height: int, width: int) returns (walls: seq<Coordinate>)
      requires height <= grid.Length0 && width <= grid.Length1
      ensures walls == WallList(grid, height, width)
    {
      walls := [];
      var h := 0;
      while h < height
        invariant 0 <= h && (h == 0 || h <= height)
        invariant walls == WallList(grid, h, width)
      {
        walls := CollectRow(walls, h, width);
        h := h + 1;
      }
    }

    /** The inner loop of the collection: the WALLs of row h, left to right, appended. */
    method CollectRow(walls: seq<Coordinate>, h: int, width: int) returns (walls2: seq<Coordinate>)
      requires 0 <= h < grid.Length0 && width <= grid.Length1
      ensures walls2 == walls + WallsOfRow(grid, h, width)
    {
      walls2 := walls;
      var w := 0;
      while w < width
        invariant 0 <= w && (w == 0 || w <= width)
        invariant walls2 == walls + WallsOfRow(grid, h, w)
      {
        if grid[h, w].kind == Wall {
          walls2 := walls2 + [Coordinate(h, w)];
        }
        w := w + 1;
      }
    }

    /**
     * `grid[row][col] = new Cell(coordinate, getRandomCellType())` on a
     * WALL: that entry becomes passable terrain and nothing else changes.
     */
    method DeleteWall(c: Coordinate)
      requires InGrid(grid, c) && At(grid, c) == Wall
      modifies grid, random
      ensures grid[c.row, c.col] == Cell(c, At(grid, c)) && IsPassable(At(grid, c))
      ensures KindsOf(grid) == old(KindsOf(grid))[c := At(grid, c)]
      ensures old(Carving(grid)) ==> Carving(grid)
    {
      ghost var before := KindsOf(grid);
      var t := GetRandomCellType();
      grid[c.row, c.col] := Cell(c, t);
      KindsAfterWrite(grid, before, c);
    }

    /** The modifier's own 60/20/20 draw, with the same weights as the generators'. */
    method GetRandomCellType() returns (t: CellType)
      modifies random
      ensures IsPassable(t)
    {
      var randomNum := random.NextInt(TOTAL_WEIGHT);
      t := WeightedType(randomNum);
    }
  }
}
