# Maze: a verified model of the generators, the modifier, the solvers and the renderer

The Java program builds a rectangular maze of `Cell`s. It does this in four steps:

1. A generator carves it, using either recursive backtracking or randomized Prim.
2. A modifier may knock down a few walls, so the maze gains cycles.
3. A solver finds a path between two passable cells the user picked.
   The breadth-first solver and the depth-first solver differ only in how they relax costs.
4. The renderer draws the maze, and the path, as coloured blocks on an ANSI terminal.

The start service reads and validates the user's sizes and points.

This project models those parts in Dafny, one module per source file:

| module | file | source |
|---|---|---|
| `Grid` | grid.dfy | the entities (`Cell`, `Coordinate`, `Maze`), the enums (`Type` with its weights, `Direction`), `Settings`, Java's 32-bit `int` addition, `List.remove(Object)` |
| `Rand` | rand.dfy | the `SecureRandom` the generators draw from, reduced to the contract of `nextInt(bound)` |
| `BaseGen` | base_generator.dfy | `BaseGenerator`: the initial grid, the carving step and the weighted terrain draw |
| `Backtracking` | recursive_backtracking.dfy | `RecursiveBacktrackingGenerator` |
| `Prim` | prim.dfy | `PrimGenerator` |
| `Modifier` | modifier.dfy | `NonIdealMazeModifier` |
| `Solving` | base_solver.dfy | `BaseSolver`: cost relaxation and the greedy descent of `searchPath` |
| `Bfs` | bfs_solver.dfy | `BFSSolver` |
| `Dfs` | dfs_solver.dfy | `DFSSolver` |
| `Renderer` | renderer.dfy | `BaseRenderer` and `Color` |
| `StartService` | start_service.dfy | `checkSize`, `selectRandomSize`, `checkCoordinates`, `checkIsPassage` and `getPointCoordinates` |
| `Fixtures` | fixtures.dfy | the scenarios of `AllRequiredTests`, stated as methods over the model |

How the Java code is represented:

- A grid is an `array2<Cell>` that the generator, modifier and solver classes update in place.
- Inheritance (`PrimGenerator extends BaseGenerator`, `BFSSolver extends BaseSolver`) becomes a `const base` field.
- A Java method that throws returns an `Outcome` or an `Option`.
- The generators keep a carving invariant, `BaseGen.Carving`.
  Under it, every wall they open lies between two sites they carved, every carved cell can be walked to from every other, and there is one opened wall fewer than carved sites, the edge count of a spanning tree.
  Recursive backtracking carves every site.
- The solvers keep a relaxation invariant, `Solving.Labelled`.
  From it the model proves four things:
  - the visited cells are exactly the start's connected component;
  - no walk from the start is cheaper than the label of the cell it ends in, and some walk costs exactly that label;
  - `searchPath` returns either nothing or a repeat-free start-to-end path whose costs never fall;
  - both solvers return a path exactly when the end is connected to the start.

## Model

| member | source | states |
|---|---|---|
| Grid.Add32 | src/main/java/backend/academy/solvers/BFSSolver.java:55-56 | Java's 32-bit `int` addition: the result is an `int`, equals the sum when that fits, and differs from it by a multiple of 2^32 |
| Grid.BelowSuccessor | src/main/java/backend/academy/solvers/BaseSolver.java:47 | for ints x and c, `x < c + 1` holds exactly when c is not `Integer.MAX_VALUE` and x ≤ c; `MAX_VALUE + 1` wraps to `MIN_VALUE` |
| Grid.MinInt | src/main/java/backend/academy/solvers/BFSSolver.java:55 | `Math.min`: no greater than either argument and equal to one of them |
| Grid.Weight | src/main/java/backend/academy/enums/Type.java:16-23 | the integer of each type, every one a 32-bit `int` |
| Grid.PassableWeights | src/main/java/backend/academy/solvers/BaseSolver.java:19 | the passable types NORMAL, ICE and SAND weigh between 0 and 5 |
| Grid.DirectionIndex | src/main/java/backend/academy/enums/Direction.java:12-17 | each direction's position in declaration order |
| Grid.StepIsAdjacent | src/main/java/backend/academy/solvers/BaseSolver.java:168-175 | one step in any direction reaches a four-neighbour, and back |
| Grid.Toward | src/main/java/backend/academy/solvers/BaseSolver.java:168-175 | for two four-neighbours, the direction whose single step leads from one to the other |
| Grid.CoordsSize | src/main/java/backend/academy/solvers/BaseSolver.java:35 | an h x w grid has exactly h * w coordinates |
| Grid.PassableIsInterior | src/main/java/backend/academy/solvers/BaseSolver.java:118-120 | on a grid with a BEDROCK border every passable cell is interior |
| Grid.RemoveFirst | src/main/java/backend/academy/generators/RecursiveBacktrackingGenerator.java:92 | `List.remove(Object)`: removes one occurrence when there is one (the multiset loses exactly that element), otherwise the list is unchanged |
| Grid.RemoveFirstKeeps | src/main/java/backend/academy/generators/RecursiveBacktrackingGenerator.java:92 | every other element survives the removal |
| Grid.RemoveFirstOfLast | src/main/java/backend/academy/solvers/BaseSolver.java:66 | in a list without repeats, removing the last element drops exactly the last entry |
| Rand.RandomSource.NextInt | src/main/java/backend/academy/generators/BaseGenerator.java:181 | `nextInt(bound)` for a positive bound returns a value in [0, bound) |
| BaseGen.OddBorderIsBedrock | src/main/java/backend/academy/generators/BaseGenerator.java:81-91 | with odd height and width every border cell gets BEDROCK, although the passage test runs first |
| BaseGen.EvenWidthBorderHasDefault | src/main/java/backend/academy/generators/BaseGenerator.java:84-86 | because the odd/odd test precedes the border test, an even width leaves a DEFAULT cell at (1, width-1) on the border |
| BaseGen.FilledIsCarving | src/main/java/backend/academy/generators/BaseGenerator.java:54-61 | a freshly filled grid of odd size satisfies the carving invariant every generator keeps |
| BaseGen.CarvingFacts | src/main/java/backend/academy/generators/BaseGenerator.java:81-91 | a grid under the carving invariant has a BEDROCK border and every entry carries its own coordinate |
| BaseGen.FilledHasNothingCarved | src/main/java/backend/academy/generators/BaseGenerator.java:54-61 | a freshly filled grid has no carved site and no opened wall |
| BaseGen.CarveSiteKind | src/main/java/backend/academy/generators/BaseGenerator.java:137-139 | turning a DEFAULT site passable adds exactly that site to the carved sites and removes it from the DEFAULT sites |
| BaseGen.OpenWallKind | src/main/java/backend/academy/generators/BaseGenerator.java:137-139 | turning a WALL passable adds exactly that cell to the opened walls and leaves the sites alone |
| BaseGen.BlockedStable | src/main/java/backend/academy/generators/BaseGenerator.java:137-139 | carving never gives a blocked site a legal carving step again |
| BaseGen.SidesOfStep | src/main/java/backend/academy/generators/BaseGenerator.java:164-169 | the wall one step from a site separates that site from the site two steps away |
| BaseGen.SoleCarve | src/main/java/backend/academy/generators/RecursiveBacktrackingGenerator.java:59-61 | a carve of the start alone, with no wall opened, is connected from the start |
| BaseGen.LinkedBack | src/main/java/backend/academy/generators/BaseGenerator.java:137-139 | a walk read backwards is a walk |
| BaseGen.LinkedJoin | src/main/java/backend/academy/generators/BaseGenerator.java:137-139 | two walks that meet make one |
| BaseGen.AllLinked | src/main/java/backend/academy/generators/BaseGenerator.java:137-139 | when every passable cell can be walked to from one cell, each can be walked to from every other |
| BaseGen.WalkKept | src/main/java/backend/academy/generators/BaseGenerator.java:137-139 | a walk stays a walk when no passable cell stops being passable |
| BaseGen.ExtendConnected | src/main/java/backend/academy/generators/BaseGenerator.java:137-139 | opening a wall next to a passable cell and carving the cell behind it keeps every passable cell walkable from the start |
| BaseGen.ExtendWalls | src/main/java/backend/academy/generators/BaseGenerator.java:137-139 | the same step keeps every opened wall between two carved sites when the wall separates a carved site from a DEFAULT one |
| BaseGen.SpreadStep | src/main/java/backend/academy/generators/BaseGenerator.java:153-156 | next to a blocked carved site, every site two steps away inside the grid is carved |
| BaseGen.Approach | src/main/java/backend/academy/generators/BaseGenerator.java:164-178 | from any site other than s there is a site two steps nearer to s, within the box they span |
| BaseGen.CarvedSpread | src/main/java/backend/academy/generators/RecursiveBacktrackingGenerator.java:63-80 | when every carved site is blocked, the carve spreads from the start to every site of the grid |
| BaseGen.CarvedEverywhere | src/main/java/backend/academy/generators/RecursiveBacktrackingGenerator.java:63-80 | in that state no DEFAULT cell is left and every site is carved |
| BaseGen.BlockedMeansNoCarve | src/main/java/backend/academy/generators/BaseGenerator.java:153-156 | an interior site is blocked exactly when `checkPath` fails in all four directions |
| BaseGen.CalculateCoordinate | src/main/java/backend/academy/generators/BaseGenerator.java:171-178 | the row or column `offset` steps along the direction, i.e. a component of the stepped coordinate |
| BaseGen.WallIsMidpoint | src/main/java/backend/academy/generators/BaseGenerator.java:164-169 | the wall one step away lies exactly midway between the point and the passage two steps away, along one axis only |
| BaseGen.StepInside | src/main/java/backend/academy/generators/BaseGenerator.java:153-156 | from an interior site both cells `checkPath` reads are in the grid, the wall is not a site, and a WALL leads to an interior site |
| BaseGen.WeightedType | src/main/java/backend/academy/generators/BaseGenerator.java:180-189 | the draw r in [0,100) gives NORMAL iff r < 60, ICE iff 60 <= r < 80, SAND iff r >= 80, always passable |
| BaseGen.WeightedTypeDistribution | src/main/java/backend/academy/generators/BaseGenerator.java:19-21 | of the 100 equally likely draws 60 give NORMAL, 20 ICE and 20 SAND |
| BaseGen.OddFromDraw | src/main/java/backend/academy/generators/BaseGenerator.java:191-193 | every draw in [0, (max+1)/2) yields an odd number in [1, max] |
| BaseGen.BaseGenerator.constructor | src/main/java/backend/academy/generators/BaseGenerator.java:17-30 | the generator keeps the random source it is given |
| BaseGen.BaseGenerator.Generate | src/main/java/backend/academy/generators/BaseGenerator.java:40-45 | a fresh grid of the given size in which every cell has its initial type except the random start site, which is passable |
| BaseGen.BaseGenerator.Fill | src/main/java/backend/academy/generators/BaseGenerator.java:54-61 | a fresh grid in which every entry is its initial cell |
| BaseGen.BaseGenerator.InitializeCell | src/main/java/backend/academy/generators/BaseGenerator.java:81-91 | writes the initial cell at (y, x) and leaves every other entry unchanged |
| BaseGen.BaseGenerator.SelectStartPoint | src/main/java/backend/academy/generators/BaseGenerator.java:120-124 | the current cell at some odd row and odd column inside the border |
| BaseGen.BaseGenerator.SetCell | src/main/java/backend/academy/generators/BaseGenerator.java:137-139 | replaces the entry at the cell's coordinate and nothing else |
| BaseGen.BaseGenerator.CreateRandomCell | src/main/java/backend/academy/generators/BaseGenerator.java:141-143 | a cell at the given coordinate with passable terrain |
| BaseGen.BaseGenerator.CheckPath | src/main/java/backend/academy/generators/BaseGenerator.java:153-156 | true exactly when the cell one step away is WALL and the cell two steps away is DEFAULT; the scratch fields hold those two positions |
| BaseGen.BaseGenerator.CalculateWallAndPassage | src/main/java/backend/academy/generators/BaseGenerator.java:164-169 | the scratch fields hold the coordinates one and two steps along the direction |
| BaseGen.BaseGenerator.GetRandomCellType | src/main/java/backend/academy/generators/BaseGenerator.java:180-189 | the weighted draw yields NORMAL, ICE or SAND |
| BaseGen.BaseGenerator.GetRandomOdd | src/main/java/backend/academy/generators/BaseGenerator.java:191-193 | an odd number in [1, max] |
| Backtracking.CodeGeometry | src/main/java/backend/academy/generators/RecursiveBacktrackingGenerator.java:106-136 | codes 1..4 move the wall one step and the passage two steps UP, RIGHT, DOWN or LEFT; any other code leaves the coordinate unchanged |
| Backtracking.EveryDirectionHasCode | src/main/java/backend/academy/generators/RecursiveBacktrackingGenerator.java:84 | each of the four directions is reachable through one of the codes 1..4 |
| Backtracking.TableCount | src/main/java/backend/academy/generators/RecursiveBacktrackingGenerator.java:138-147 | the count of a type in a prefix of the table never exceeds the prefix length |
| Backtracking.CellTypeTableDistribution | src/main/java/backend/academy/generators/RecursiveBacktrackingGenerator.java:139-145 | every table entry is passable; NORMAL fills three slots of five, ICE and SAND one each |
| Backtracking.OddRange | src/main/java/backend/academy/generators/RecursiveBacktrackingGenerator.java:49-50 | the array holds k entries, entry i being 2i+1 |
| Backtracking.StackCoordinatesCons | src/main/java/backend/academy/generators/RecursiveBacktrackingGenerator.java:61 | the coordinates on a stack are its top's coordinate plus those below it |
| Backtracking.PushKeeps | src/main/java/backend/academy/generators/RecursiveBacktrackingGenerator.java:66-76 | opening the WALL from a carved site and carving the DEFAULT site behind it keeps every opened wall between carved sites and every passable cell walkable from the start |
| Backtracking.PushCounts | src/main/java/backend/academy/generators/RecursiveBacktrackingGenerator.java:66-76 | the same push adds exactly the new site to the carved sites, one opened wall, and keeps blocked sites blocked |
| Backtracking.PushStep | src/main/java/backend/academy/generators/RecursiveBacktrackingGenerator.java:66-76 | a push followed by stacking the new site keeps the loop invariant of `start` |
| Backtracking.PopStep | src/main/java/backend/academy/generators/RecursiveBacktrackingGenerator.java:77-79 | popping a blocked top keeps the loop invariant of `start` |
| Backtracking.RecursiveBacktrackingGenerator.constructor | src/main/java/backend/academy/generators/RecursiveBacktrackingGenerator.java:16-24 | the generator keeps the random source it is given |
| Backtracking.RecursiveBacktrackingGenerator.Generate | src/main/java/backend/academy/generators/RecursiveBacktrackingGenerator.java:26-31 | a fresh grid of the given size under the carving invariant: no DEFAULT site is left, every site is carved, every opened wall lies between two carved sites, every passable cell can be walked to from every other, there is one opened wall fewer than carved sites, and every carved site is blocked |
| Backtracking.RecursiveBacktrackingGenerator.Fill | src/main/java/backend/academy/generators/RecursiveBacktrackingGenerator.java:33-46 | a fresh grid in which every entry is its initial cell |
| Backtracking.RecursiveBacktrackingGenerator.SelectStartPoint | src/main/java/backend/academy/generators/RecursiveBacktrackingGenerator.java:48-54 | the current cell at an odd row below 2*(height/2) and an odd column below 2*(width/2) |
| Backtracking.RecursiveBacktrackingGenerator.Start | src/main/java/backend/academy/generators/RecursiveBacktrackingGenerator.java:56-81 | from a filled grid: the start is carved, every site is carved and no DEFAULT site is left, every opened wall lies between two carved sites, every passable cell can be walked to from the start and from every other, one opened wall fewer than carved sites, and no carved site can be extended any more |
| Backtracking.RecursiveBacktrackingGenerator.FirstPush | src/main/java/backend/academy/generators/RecursiveBacktrackingGenerator.java:59-61 | the stack holding only the carved start satisfies the loop invariant of `start` |
| Backtracking.RecursiveBacktrackingGenerator.StackStep | src/main/java/backend/academy/generators/RecursiveBacktrackingGenerator.java:63-80 | one iteration keeps the loop invariant (stacked cells carved, opened walls between carved sites, every passable cell walkable from the start, one wall fewer than sites, carved sites off the stack blocked) and either carves a DEFAULT site or keeps the grid and shortens the stack |
| Backtracking.RecursiveBacktrackingGenerator.Push | src/main/java/backend/academy/generators/RecursiveBacktrackingGenerator.java:66-76 | the WALL next to the top and the DEFAULT site behind it become passable and no other entry changes: one more carved site, one more opened wall, one fewer DEFAULT site, blocked sites stay blocked |
| Backtracking.RecursiveBacktrackingGenerator.NoPathMeansBlocked | src/main/java/backend/academy/generators/RecursiveBacktrackingGenerator.java:77-79 | a site that no code passes `checkPath` for is blocked in every direction, so popping it loses nothing |
| Backtracking.RecursiveBacktrackingGenerator.Carve | src/main/java/backend/academy/generators/RecursiveBacktrackingGenerator.java:72-74 | one entry becomes passable terrain at its own coordinate, nothing else changes, the carving invariant holds |
| Backtracking.RecursiveBacktrackingGenerator.SelectPath | src/main/java/backend/academy/generators/RecursiveBacktrackingGenerator.java:83-96 | -1 exactly when none of the codes 1..4 passes `checkPath`, otherwise a code that passes it |
| Backtracking.RecursiveBacktrackingGenerator.CheckPath | src/main/java/backend/academy/generators/RecursiveBacktrackingGenerator.java:98-104 | for a code 1..4, true exactly when the wall is WALL and the passage DEFAULT in that code's direction; false for any other code |
| Backtracking.RecursiveBacktrackingGenerator.GetRandomCellType | src/main/java/backend/academy/generators/RecursiveBacktrackingGenerator.java:138-147 | a passable type drawn from the five-slot table |
| Prim.StepBack | src/main/java/backend/academy/generators/PrimGenerator.java:47-53 | stepping back from the passage retraces the wall and returns to the selected cell |
| Prim.SharedWall | src/main/java/backend/academy/generators/PrimGenerator.java:58-60 | two different sites sharing a wall face each other across it |
| Prim.MidpointIsWall | src/main/java/backend/academy/generators/PrimGenerator.java:58-59 | for non-negative coordinates the integer midpoint of a site and its passage is the wall between them |
| Prim.CoordsOf | src/main/java/backend/academy/generators/PrimGenerator.java:35-36 | every listed cell's coordinate is in the set; an empty list has none |
| Prim.RemoveDistinct | src/main/java/backend/academy/generators/PrimGenerator.java:62-63 | `cells.remove(x)` on a list of distinct coordinates keeps it distinct and removes x's coordinate |
| Prim.SiteKind | src/main/java/backend/academy/generators/PrimGenerator.java:30-65 | on a carving grid every site is still DEFAULT or already passable |
| Prim.AcrossStable | src/main/java/backend/academy/generators/PrimGenerator.java:43-60 | a carved site facing a frontier entry across a WALL still faces it after a round that carves another entry |
| Prim.RoundStep | src/main/java/backend/academy/generators/PrimGenerator.java:41-63 | carving one frontier entry and opening a wall to its carved neighbour leaves the rest of the list a frontier |
| Prim.FrontierAdd | src/main/java/backend/academy/generators/PrimGenerator.java:32-37 | adding the DEFAULT site behind a WALL of a carved site keeps the list a frontier and adds exactly that coordinate |
| Prim.OwnCarve | src/main/java/backend/academy/generators/PrimGenerator.java:43-45 | carving a site does not change what lies across its own walls |
| Prim.RoundComplete | src/main/java/backend/academy/generators/PrimGenerator.java:41-63 | after a round every carved site but the new one still has its DEFAULT neighbours on the shortened list |
| Prim.FirstOpen | src/main/java/backend/academy/generators/PrimGenerator.java:27-29 | on a filled grid of at least 5 x 5 the start site faces a WALL with a DEFAULT site behind it, so the first round has a list entry to pick |
| Prim.RoundState | src/main/java/backend/academy/generators/PrimGenerator.java:30-65 | one whole round keeps the round invariant (one opened wall fewer than carved sites, opened walls between carved sites, every passable cell walkable from the start, frontier, collected neighbours), carves exactly one DEFAULT site, opens exactly one wall, and the second `remove` leaves the list as the first left it |
| Prim.RoundLinks | src/main/java/backend/academy/generators/PrimGenerator.java:43-60 | carving a DEFAULT site and opening the WALL to a carved site across it keeps every opened wall between carved sites and every passable cell walkable from the start |
| Prim.RoundCounts | src/main/java/backend/academy/generators/PrimGenerator.java:43-60 | the same round adds exactly the new site to the carved sites, opens one wall and leaves one DEFAULT site fewer |
| Prim.CollectedGrow | src/main/java/backend/academy/generators/PrimGenerator.java:31-39 | collecting one more direction extends what has been collected from a site |
| Prim.CollectedAll | src/main/java/backend/academy/generators/PrimGenerator.java:31-39 | after all four directions every DEFAULT site behind a WALL of the site is on the list |
| Prim.NoneAcrossAll | src/main/java/backend/academy/generators/PrimGenerator.java:47-54 | when none of the four directions finds a carved site across a WALL, the site faces no carved site at all |
| Prim.OffersIffCanCarve | src/main/java/backend/academy/generators/PrimGenerator.java:32 | from an interior site `checkPath` succeeds exactly when a WALL with a DEFAULT site behind it lies in that direction |
| Prim.AcrossCell | src/main/java/backend/academy/generators/PrimGenerator.java:69-72 | `checkIsPassage` succeeds exactly when a WALL with a carved site behind it lies in that direction, and the cell it finds is that site |
| Prim.PrimGenerator.constructor | src/main/java/backend/academy/generators/PrimGenerator.java:13-15 | the generator keeps the random source it is given |
| Prim.PrimGenerator.Generate | src/main/java/backend/academy/generators/PrimGenerator.java:17-22 | a fresh grid of the given size under the carving invariant: every opened wall lies between two carved sites, every passable cell can be walked to from every other, one opened wall fewer than carved sites, and at most one carved site still faces an uncarved site |
| Prim.PrimGenerator.Start | src/main/java/backend/academy/generators/PrimGenerator.java:24-67 | from a filled grid the start is carved, every opened wall lies between two carved sites, every passable cell can be walked to from the start and from every other, one opened wall fewer than carved sites, and at most one carved site still faces a DEFAULT site |
| Prim.PrimGenerator.Begin | src/main/java/backend/academy/generators/PrimGenerator.java:27-29 | the start site gets passable terrain and becomes the selected cell; the round invariant holds with an empty list |
| Prim.PrimGenerator.Rounds | src/main/java/backend/academy/generators/PrimGenerator.java:30-65 | the do-while loop ends with the round invariant and an empty list |
| Prim.PrimGenerator.Finish | src/main/java/backend/academy/generators/PrimGenerator.java:65 | once the list is empty only the last carved site can still face a DEFAULT site, and every passable cell can be walked to from every other |
| Prim.PrimGenerator.Round | src/main/java/backend/academy/generators/PrimGenerator.java:30-65 | one pass of the do-while keeps the round invariant, carves one more DEFAULT site and opens one more wall, so the loop ends |
| Prim.PrimGenerator.CarveSelected | src/main/java/backend/academy/generators/PrimGenerator.java:41-63 | carving the picked entry and opening its wall keeps the invariant; the list becomes the old list with that entry removed; one fewer DEFAULT site and one more opened wall |
| Prim.PrimGenerator.OpenWall | src/main/java/backend/academy/generators/PrimGenerator.java:47-60 | picks a carved site across a WALL of the new site and opens exactly the wall between them |
| Prim.PrimGenerator.Collect | src/main/java/backend/academy/generators/PrimGenerator.java:31-39 | the list stays a frontier, only grows, and afterwards holds every DEFAULT site behind a WALL of the selected cell |
| Prim.PrimGenerator.CollectDirection | src/main/java/backend/academy/generators/PrimGenerator.java:32-37 | one direction: the list stays a frontier and gains the site behind the wall when `checkPath` succeeds |
| Prim.PrimGenerator.CollectPassages | src/main/java/backend/academy/generators/PrimGenerator.java:47-54 | every gathered cell is a carved site across a WALL of the selected cell, and one exists whenever the selected cell faces a carved site across a WALL |
| Prim.PrimGenerator.PassageDirection | src/main/java/backend/academy/generators/PrimGenerator.java:48-53 | one direction: the list grows exactly when a carved site lies across the WALL in that direction |
| Prim.PrimGenerator.CheckIsPassage | src/main/java/backend/academy/generators/PrimGenerator.java:69-72 | true exactly when the wall is WALL and the site behind it is no longer DEFAULT |
| Prim.PrimGenerator.Carve | src/main/java/backend/academy/generators/PrimGenerator.java:43-45 | one DEFAULT site or WALL becomes passable terrain, nothing else changes, the carving invariant holds |
| Modifier.RowMajorConcat | src/main/java/backend/academy/modifiers/NonIdealMazeModifier.java:39-45 | two row-major lists whose elements are ordered across stay row-major when joined |
| Modifier.NoDupsCard | src/main/java/backend/academy/modifiers/NonIdealMazeModifier.java:51 | a list without repeats has as many elements as its set |
| Modifier.WallsOfRow | src/main/java/backend/academy/modifiers/NonIdealMazeModifier.java:40-44 | holds exactly the WALL coordinates of row y left of column x, in increasing column order |
| Modifier.WallList | src/main/java/backend/academy/modifiers/NonIdealMazeModifier.java:39-45 | holds exactly the WALL coordinates of the scanned rows and columns, in row-major order |
| Modifier.RowMajorNoDups | src/main/java/backend/academy/modifiers/NonIdealMazeModifier.java:39-45 | a row-major list has no repeated coordinate |
| Modifier.WallsToDelete | src/main/java/backend/academy/modifiers/NonIdealMazeModifier.java:51-52 | the least k with 20k >= n, i.e. n * 0.05 rounded up, and never more than n |
| Modifier.DeletionCount | src/main/java/backend/academy/modifiers/NonIdealMazeModifier.java:55-58 | when the first k entries of a repeat-free list of the n WALLs become passable, exactly n - k WALLs remain |
| Modifier.Shuffle | src/main/java/backend/academy/modifiers/NonIdealMazeModifier.java:48 | the result is a permutation of the list and keeps it free of repeats |
| Modifier.Swap | src/main/java/backend/academy/modifiers/NonIdealMazeModifier.java:48 | the two entries change places, every other entry stays, the multiset is unchanged |
| Modifier.SwapNoDups | src/main/java/backend/academy/modifiers/NonIdealMazeModifier.java:48 | a swap keeps a list free of repeats |
| Modifier.NonIdealMazeModifier.constructor | src/main/java/backend/academy/modifiers/NonIdealMazeModifier.java:20-27 | the modifier keeps the grid and random source it is given |
| Modifier.NonIdealMazeModifier.Modify | src/main/java/backend/academy/modifiers/NonIdealMazeModifier.java:30-33 | of the n WALLs in the region exactly n - ceil(n/20) remain, every changed cell was a WALL and is now passable, no WALL means no change, and the carving invariant is kept |
| Modifier.NonIdealMazeModifier.DeleteSomeWalls | src/main/java/backend/academy/modifiers/NonIdealMazeModifier.java:35-59 | as for `modify`: ceil(n/20) of the n WALLs become passable, nothing else changes |
| Modifier.NonIdealMazeModifier.DeleteFirst | src/main/java/backend/academy/modifiers/NonIdealMazeModifier.java:55-58 | each of the first k listed WALLs becomes passable and every other entry keeps its type |
| Modifier.NonIdealMazeModifier.WallListIsWallSet | src/main/java/backend/academy/modifiers/NonIdealMazeModifier.java:39-45 | the collected list, as a set, is the set of WALLs of the scanned region |
| Modifier.NonIdealMazeModifier.CollectWalls | src/main/java/backend/academy/modifiers/NonIdealMazeModifier.java:39-45 | the nested loops produce the row-major list of WALL coordinates |
| Modifier.NonIdealMazeModifier.CollectRow | src/main/java/backend/academy/modifiers/NonIdealMazeModifier.java:40-44 | the inner loop appends row h's WALL coordinates in column order |
| Modifier.NonIdealMazeModifier.DeleteWall | src/main/java/backend/academy/modifiers/NonIdealMazeModifier.java:56-57 | one WALL becomes a passable cell at its own coordinate and nothing else changes |
| Modifier.NonIdealMazeModifier.GetRandomCellType | src/main/java/backend/academy/modifiers/NonIdealMazeModifier.java:66-75 | the 60/20/20 draw yields NORMAL, ICE or SAND |
| Solving.CostsOf | src/main/java/backend/academy/solvers/BaseSolver.java:23 | the value view of the cost grid has exactly the grid's coordinates |
| Solving.SettledStable | src/main/java/backend/academy/solvers/BaseSolver.java:112-116 | a settled direction stays settled when costs only fall elsewhere and more cells are reached |
| Solving.BelowNoHigher | src/main/java/backend/academy/solvers/BaseSolver.java:112-116 | lowering costs never grows the termination measure of relaxation |
| Solving.BelowShrinks | src/main/java/backend/academy/solvers/BaseSolver.java:112-116 | lowering one cost, and raising none, strictly shrinks the measure, so relaxation terminates |
| Solving.ReachedFew | src/main/java/backend/academy/solvers/BaseSolver.java:164-166 | at most 35 x 35 cells are ever reached |
| Solving.ReachedCost | src/main/java/backend/academy/solvers/BaseSolver.java:126-129 | a reached cell's cost plus any passable weight stays far below MAX_VALUE, so the sums never wrap |
| Solving.Initially | src/main/java/backend/academy/solvers/BaseSolver.java:44-51 | after `fill` the relaxation invariant holds with only the start reached |
| Solving.FilledLabelled | src/main/java/backend/academy/solvers/BaseSolver.java:31-51 | the grids right after `init` and `fill` satisfy the relaxation invariant with only the start reached |
| Solving.RelaxStep | src/main/java/backend/academy/solvers/BaseSolver.java:112-129 | one relaxation through a passable neighbour keeps the invariant, strictly lowers that neighbour's cost, raises none, and settles the direction |
| Solving.RelaxAt | src/main/java/backend/academy/solvers/BaseSolver.java:112-129 | the same for any passable four-neighbour |
| Solving.RelaxReach | src/main/java/backend/academy/solvers/BaseSolver.java:112-116 | reaching a passable neighbour keeps every reached cell inside every closed region around the start |
| Solving.RelaxBounds | src/main/java/backend/academy/solvers/BaseSolver.java:126-129 | the cost bounds of reached cells survive one relaxation |
| Solving.FillCostGrid | src/main/java/backend/academy/solvers/BaseSolver.java:44-51 | every interior cost becomes MAX_VALUE, the start's becomes 1, the border keeps what it had |
| Solving.CheckMeans | src/main/java/backend/academy/solvers/BaseSolver.java:112-129 | `checkCellDirection` holds exactly when the neighbour is NORMAL, ICE or SAND and is unvisited or would be reached more cheaply |
| Solving.ReachedInterior | src/main/java/backend/academy/solvers/BaseSolver.java:118-120 | a reached cell is interior, so all its neighbours are in the grid |
| Solving.RelaxDirection | src/main/java/backend/academy/solvers/BFSSolver.java:45-57 | relaxes exactly when `checkCellDirection` holds: then the neighbour's cost becomes min(old, cost + weight) and it is reached, the invariant holds and the direction is settled; otherwise nothing changes |
| Solving.AfterRelax | src/main/java/backend/academy/solvers/BaseSolver.java:112-129 | the state after a relaxation satisfies the invariant with the neighbour reached and the direction settled |
| Solving.CheckRelaxes | src/main/java/backend/academy/solvers/BaseSolver.java:112-129 | out of a reached cell the 32-bit sum does not wrap, and a failing check means the direction is already settled |
| Solving.CostsWrite | src/main/java/backend/academy/solvers/BaseSolver.java:23 | the value view of the cost grid after one write is the old view updated at that cell |
| Solving.SettledClosed | src/main/java/backend/academy/solvers/BaseSolver.java:112-116 | once every reached cell is settled nothing passable leads out of the reached cells, and they lie inside every closed region around the start |
| Solving.Explored | src/main/java/backend/academy/solvers/BaseSolver.java:112-129 | after relaxation the reached cells are exactly the connected component of the start, every walk from the start costs at least its last cell's label, some walk attains each label, each reached cell tops an ascent from the start whose costs never fall, and unreached passable cells keep MAX_VALUE |
| Solving.CostAtMostWalk | src/main/java/backend/academy/solvers/BaseSolver.java:126-129 | every walk from the start ends at a reached cell whose cost is at most the walk's cost |
| Solving.RelaxAttained | src/main/java/backend/academy/solvers/BaseSolver.java:112-129 | relaxing a neighbour to its neighbour's cost plus its weight keeps every label the cost of some walk from the start |
| Solving.WalksCostAtLeast | src/main/java/backend/academy/solvers/BaseSolver.java:126-129 | once every reached cell is settled, every walk from the start ends in a reached cell whose label is at most the walk's cost |
| Solving.UnreachedMax | src/main/java/backend/academy/solvers/BaseSolver.java:44-51 | a passable cell relaxation never reached keeps MAX_VALUE |
| Solving.CheapestAscends | src/main/java/backend/academy/solvers/BaseSolver.java:90-100 | once every reached cell is settled, a walk from the start costing exactly its last label is an ascent: its costs never fall and stay below MAX_VALUE |
| Solving.ReachedAscents | src/main/java/backend/academy/solvers/BaseSolver.java:90-100 | once every reached cell is settled, each reached cell tops an ascent from the start |
| Solving.LabelledReady | src/main/java/backend/academy/solvers/BaseSolver.java:139-166 | the relaxation invariant leaves the grids ready for the descent |
| Solving.SuitableMeans | src/main/java/backend/academy/solvers/BaseSolver.java:139-166 | `ifCellSuitable` against a choice costing MAX_VALUE admits nothing (MAX_VALUE + 1 wraps); otherwise it admits exactly the eligible cells no dearer than the choice |
| Solving.ChoiceAfter | src/main/java/backend/academy/solvers/BaseSolver.java:90-100 | the running choice after the first i directions is always a grid cell |
| Solving.Nb | src/main/java/backend/academy/enums/Direction.java:12-17 | the neighbour in the j-th of UP, RIGHT, DOWN, LEFT, a four-neighbour of the point |
| Solving.ScanStep | src/main/java/backend/academy/solvers/BaseSolver.java:92-98 | one more direction extends what the scan has established |
| Solving.ScanTake | src/main/java/backend/academy/solvers/BaseSolver.java:95-97 | a suitable neighbour replaces the running choice and the scan facts hold for it |
| Solving.ScanSkip | src/main/java/backend/academy/solvers/BaseSolver.java:95-97 | an unsuitable neighbour leaves the choice and the scan facts stand |
| Solving.ScanPrefix | src/main/java/backend/academy/solvers/BaseSolver.java:92-98 | after any number of directions the running choice satisfies the scan facts |
| Solving.ChoiceIsMin | src/main/java/backend/academy/solvers/BaseSolver.java:90-100 | the full scan returns the point itself exactly when no neighbour is cheaper, otherwise a least-cost eligible neighbour, the last of equal cost in direction order |
| Solving.SelectMinCellCoordinate | src/main/java/backend/academy/solvers/BaseSolver.java:90-100 | the loop over the four directions returns the least-cost choice |
| Solving.ScanDirection | src/main/java/backend/academy/solvers/BaseSolver.java:92-97 | one direction of the scan: a suitable neighbour replaces the running cell, which stays the grid's own entry at the chosen coordinate |
| Solving.CheckIfPossibleToFindPath | src/main/java/backend/academy/solvers/BaseSolver.java:184-193 | true exactly when the tail is not the start and the scan either moves away from it or the list has more than one cell |
| Solving.Reverse | src/main/java/backend/academy/solvers/BaseSolver.java:75 | `Collections.reverse`: same length, entry i is entry \|s\|-1-i of the input |
| Solving.BackUp | src/main/java/backend/academy/solvers/BaseSolver.java:65-68 | a backtrack removes exactly the dead-end tail, restricts it, keeps the descent invariant and shrinks the unrestricted cells |
| Solving.Advance | src/main/java/backend/academy/solvers/BaseSolver.java:69-71 | an advance appends a fresh, unrestricted, interior neighbour and keeps the descent invariant |
| Solving.ChoiceMoves | src/main/java/backend/academy/solvers/BaseSolver.java:90-100 | a scan that moves away picks an interior passable neighbour off the list, unrestricted, no dearer, below MAX_VALUE |
| Solving.Descend | src/main/java/backend/academy/solvers/BaseSolver.java:59-79 | the result is empty or a repeat-free path from start to end over passable cells whose costs never fall; start == end gives [start]; an end whose cost is MAX_VALUE gives []; a path is found whenever an ascent leads from the start to the end |
| Solving.DescendLoop | src/main/java/backend/academy/solvers/BaseSolver.java:62-73 | the loop ends with the descent invariant and with the start at the tail unless the end itself is a dead end |
| Solving.DescendStep | src/main/java/backend/academy/solvers/BaseSolver.java:63-72 | one round either restricts one more cell or appends one, keeping the invariant and shrinking the termination measure |
| Solving.DescendRound | src/main/java/backend/academy/solvers/BaseSolver.java:62-73 | one pass of the loop keeps the descent invariant and the dead-end invariant, and the go-on flag is `checkIfPossibleToFindPath` |
| Solving.StepKeepsDeadEnds | src/main/java/backend/academy/solvers/BaseSolver.java:63-72 | a step of the descent keeps every restricted cell exhausted and the start unrestricted |
| Solving.StuckMeansDeadEnd | src/main/java/backend/academy/solvers/BaseSolver.java:63-68 | when the scan keeps a cell, every downward step from it leads into the list or to a restricted cell |
| Solving.BackUpDeadEnds | src/main/java/backend/academy/solvers/BaseSolver.java:65-68 | backing up from such a cell keeps every restricted cell exhausted |
| Solving.AscentStaysOut | src/main/java/backend/academy/solvers/BaseSolver.java:62-73 | an ascent that starts outside a region no downward step leaves never ends inside it |
| Solving.StuckEnd | src/main/java/backend/academy/solvers/BaseSolver.java:62-68 | a descent stuck at [end] with the start unrestricted shows that no ascent leads from the start to the end |
| Solving.DescentFound | src/main/java/backend/academy/solvers/BaseSolver.java:74-75 | a descent that reached the start, reversed, is a path from start to end whose costs never fall |
| Solving.BaseSolver.constructor | src/main/java/backend/academy/solvers/BaseSolver.java:18-24 | a solver starts with empty lists |
| Solving.BaseSolver.Init | src/main/java/backend/academy/solvers/BaseSolver.java:31-37 | empty lists, a fresh all-zero cost grid of the maze's size, and the maze's own grid |
| Solving.BaseSolver.Fill | src/main/java/backend/academy/solvers/BaseSolver.java:44-51 | every interior cost becomes MAX_VALUE, the start's becomes 1, the border stays 0 |
| Solving.BaseSolver.SearchPath | src/main/java/backend/academy/solvers/BaseSolver.java:59-79 | as `Descend`, on the solver's fields, including that a path is found whenever an ascent leads from the start to the end; the grids and `visited` are unchanged |
| Solving.SettledAllFour | src/main/java/backend/academy/solvers/BFSSolver.java:45 | a cell settled in the four directions of `Direction.values()` is settled in every direction |
| Bfs.SettledKept | src/main/java/backend/academy/solvers/BFSSolver.java:42-59 | a relaxation keeps every settled cell settled except those whose cost changed, which are queued again |
| Bfs.LeastExists | src/main/java/backend/academy/solvers/BFSSolver.java:30 | a non-empty queue has an element of least type weight for `poll` to take |
| Bfs.VisitDirection | src/main/java/backend/academy/solvers/BFSSolver.java:46-57 | when `checkCellDirection` holds the neighbour is relaxed, queued and visited; the loop invariant survives, the direction is settled, and either nothing changed or the termination measure shrank |
| Bfs.Turn | src/main/java/backend/academy/solvers/BFSSolver.java:43-58 | polling a least-weight cell and relaxing its four neighbours keeps the loop invariant and either shortens the queue or lowers a cost |
| Bfs.Explore | src/main/java/backend/academy/solvers/BFSSolver.java:38-60 | on return the queue is empty, the relaxation invariant holds and every visited cell is settled |
| Bfs.BFSSolver.constructor | src/main/java/backend/academy/solvers/BFSSolver.java:16-17 | a solver starts with empty lists and an empty queue |
| Bfs.BFSSolver.Init | src/main/java/backend/academy/solvers/BFSSolver.java:28-31 | the state of `BaseSolver.init` and an empty queue |
| Bfs.BFSSolver.Bfs | src/main/java/backend/academy/solvers/BFSSolver.java:38-60 | as `Explore`, on the solver's fields; the grids and the path lists are untouched |
| Bfs.BFSSolver.Solve | src/main/java/backend/academy/solvers/BFSSolver.java:19-26 | the answer is empty or a start-to-end path whose costs never fall; [start] when start and end coincide; empty exactly when the end is not connected to the start; the visited cells are exactly the start's component and every walk from the start costs at least its last cell's label |
| Dfs.StillSettled | src/main/java/backend/academy/solvers/DFSSolver.java:45-57 | a settled cell stays settled when no cost of it rises and more cells are reached |
| Dfs.NewlyReached | src/main/java/backend/academy/solvers/DFSSolver.java:45-57 | a cell reached only later had its cost lowered from MAX_VALUE |
| Dfs.NestedEntry | src/main/java/backend/academy/solvers/DFSSolver.java:52-54 | after relaxing n out of point, the precondition of the nested call `dfs(n)` holds |
| Dfs.NestedExit | src/main/java/backend/academy/solvers/DFSSolver.java:54 | after the nested call returns, no cost rose, the direction is settled, and every cell outside the running calls is settled |
| Dfs.ScanStep | src/main/java/backend/academy/solvers/DFSSolver.java:47-56 | one handled direction extends the state of the `for` loop by one |
| Dfs.DfsDirection | src/main/java/backend/academy/solvers/DFSSolver.java:48-55 | one direction: no cost rises, the direction is settled, and every visited cell outside the running calls, or whose cost dropped, is settled |
| Dfs.Deeper | src/main/java/backend/academy/solvers/DFSSolver.java:52-54 | the relaxed branch: the nested call leaves the same guarantees as `DfsDirection` |
| Dfs.Dfs | src/main/java/backend/academy/solvers/DFSSolver.java:45-57 | `dfs(point)` keeps the relaxation invariant, visits point, raises no cost, and leaves point and every cell outside the running calls settled |
| Dfs.Explore | src/main/java/backend/academy/solvers/DFSSolver.java:45-57 | from a just-filled cost grid: the relaxation invariant holds and every visited cell is settled |
| Dfs.SearchPathAsWritten | src/main/java/backend/academy/solvers/DFSSolver.java:59-73 | a returned list runs from the end to the start and, reversed, is a start-to-end path; an end whose cost is MAX_VALUE makes it throw; an ascent from the start to the end makes it return |
| Dfs.DescendAsWritten | src/main/java/backend/academy/solvers/DFSSolver.java:62-71 | the loop keeps the descent invariant and ends at the start, or with the list [end] when backing up from the end throws, and then no ascent leads from the start to the end |
| Dfs.StepAsWritten | src/main/java/backend/academy/solvers/DFSSolver.java:63-70 | the round throws on `getLast` exactly when the list is the single cell [end] and the scan keeps it; any other round is the round of `BaseSolver`, keeping the descent invariant and shrinking the termination measure |
| Dfs.DFSSolver.constructor | src/main/java/backend/academy/solvers/DFSSolver.java:13-18 | a solver starts with empty lists |
| Dfs.DFSSolver.Init | src/main/java/backend/academy/solvers/DFSSolver.java:28-34 | empty lists, a fresh all-zero cost grid of the maze's size, and the maze's own grid |
| Dfs.DFSSolver.Fill | src/main/java/backend/academy/solvers/DFSSolver.java:36-43 | every interior cost becomes MAX_VALUE, the start's becomes 1, the border stays 0 |
| Dfs.DFSSolver.Dfs | src/main/java/backend/academy/solvers/DFSSolver.java:45-57 | as `Explore`, on the solver's fields |
| Dfs.DFSSolver.Prepare | src/main/java/backend/academy/solvers/DFSSolver.java:21-23 | after init, fill and dfs the visited cells are exactly the start's component, walks cost at least the labels, every visited cell tops an ascent from the start, and unreached passable cells keep MAX_VALUE |
| Dfs.DFSSolver.SolveAsWritten | src/main/java/backend/academy/solvers/DFSSolver.java:20-26 | throws exactly when the end is not connected to the start; a returned list runs from the end to the start |
| Dfs.DFSSolver.Solve | src/main/java/backend/academy/solvers/DFSSolver.java:20-26 | with the descent of `BaseSolver.searchPath`: empty or a start-to-end path, [start] when start and end coincide, empty exactly when the end is not connected |
| Renderer.CellText | src/main/java/backend/academy/renderer/BaseRenderer.java:79-82 | the text of one cell holds no line break, so a rendered row never splits |
| Renderer.CodeHasNoBreak | src/main/java/backend/academy/enums/Color.java:9-17 | every colour code is one escape sequence: it starts with ESC and holds no line break |
| Renderer.RowText | src/main/java/backend/academy/renderer/BaseRenderer.java:53-66 | the text of a row prefix holds no line break |
| Renderer.GridLines | src/main/java/backend/academy/renderer/BaseRenderer.java:53-68 | the text of y rows holds exactly y line breaks, the last of them at its end |
| Renderer.Render | src/main/java/backend/academy/renderer/BaseRenderer.java:44-70 | the empty path gives exactly "NO PATH FOUND"; otherwise the grid row by row, one line break per row |
| Renderer.RenderRow | src/main/java/backend/academy/renderer/BaseRenderer.java:54-66 | the inner loop builds the cells of a row left to right |
| Renderer.CellTextAt | src/main/java/backend/academy/renderer/BaseRenderer.java:55-65 | one cell: the start marker for the path's first coordinate, the end marker for its last, otherwise the colour of its type |
| Renderer.RenderMaze | src/main/java/backend/academy/renderer/BaseRenderer.java:33-35 | `render(maze)` is `render(maze, null)`: one line per grid row |
| Renderer.LegendReadsBack | src/main/java/backend/academy/renderer/BaseRenderer.java:95-104 | off the path, the colour of each generated type reads back to that type; on the path, passable cells turn red and WALL and BEDROCK keep their colour |
| Renderer.PathColors | src/main/java/backend/academy/renderer/BaseRenderer.java:50-65 | the path's first cell is green, its last orange, passable cells between red, cells off the path as if no path were given |
| Renderer.MarkersOnlyAtEnds | src/main/java/backend/academy/renderer/BaseRenderer.java:106-112 | green and orange appear only at the first and last coordinates of a path |
| StartService.ParseInt | src/main/java/backend/academy/services/StartService.java:208-209 | `Integer.parseInt` accepts only a non-empty text without spaces and yields a 32-bit value; anything else is the NumberFormatException branch |
| StartService.NatDigits | src/main/java/backend/academy/services/StartService.java:143-144 | the decimal form of a number is a non-empty run of digits |
| StartService.DigitsRoundTrip | src/main/java/backend/academy/services/StartService.java:208-209 | reading the digits of n back gives n |
| StartService.ParseDecimal | src/main/java/backend/academy/services/StartService.java:208-209 | `Integer.parseInt` undoes `Integer.toString` on every 32-bit value, whose text holds no space |
| StartService.Pieces | src/main/java/backend/academy/services/StartService.java:203 | cutting at single spaces gives at least one piece, none holding a space |
| StartService.JoinPieces | src/main/java/backend/academy/services/StartService.java:203 | gluing the pieces back with single spaces gives the text back |
| StartService.DropTrailingEmpty | src/main/java/backend/academy/services/StartService.java:203 | `split` drops exactly the empty pieces at the end of the list |
| StartService.Split | src/main/java/backend/academy/services/StartService.java:203 | no part of `coordinates.split(" ")` holds a space |
| StartService.PiecesOfWord | src/main/java/backend/academy/services/StartService.java:203 | a text without spaces is one piece |
| StartService.PiecesOfPair | src/main/java/backend/academy/services/StartService.java:203 | two words with one space between them are two pieces |
| StartService.SplitPair | src/main/java/backend/academy/services/StartService.java:203-204 | "a b" with b non-empty splits into exactly the two parts [a, b] |
| StartService.CheckIsPassage | src/main/java/backend/academy/services/StartService.java:230-232 | true exactly when the cell's type is in PASSABLE_TYPES |
| StartService.CheckCoordinates | src/main/java/backend/academy/services/StartService.java:201-228 | false (accept) exactly when the text is two integers "x y" naming a passable cell inside the height x width maze |
| StartService.AcceptsEveryPassableCell | src/main/java/backend/academy/services/StartService.java:201-228 | every passable cell of the maze is accepted when its column and row are typed in decimal, and the point read back is that cell |
| StartService.RejectsMalformed | src/test/java/AllRequiredTests.java:180-211 | the empty text, "5" and "5 a" are rejected |
| StartService.GetPointCoordinates | src/main/java/backend/academy/services/StartService.java:135-147 | the first line `checkCoordinates` accepts, read as Coordinate(y, x), which is in bounds and passable; every line before it rejected; None when every line is rejected |
| StartService.OddsIn | src/main/java/backend/academy/services/StartService.java:235 | exactly the odd numbers of [min, max], in increasing order |
| StartService.SelectRandomSize | src/main/java/backend/academy/services/StartService.java:234-237 | the result is an odd number in [min, max] |
| StartService.CheckSize | src/main/java/backend/academy/services/StartService.java:177-190 | the result is always an odd number in [min, max], and it is the typed number whenever that parses to an odd number in range |
| StartService.SizeRangeNotEmpty | src/test/java/AllRequiredTests.java:128-178 | with the bounds of `Settings` the fallback range has an odd number, so `checkSize` always returns one |
| Fixtures.FixtureMaze | src/test/java/AllRequiredTests.java:36-57 | the 5x5 test maze: a BEDROCK frame, WALL at (2,2) and (3,2), NORMAL elsewhere, each cell carrying its own coordinate |
| Fixtures.OpenWalk | src/test/java/AllRequiredTests.java:36-57 | the test maze has a walk (1,1), (1,2), (1,3), (2,3), (3,3) from the start to the end |
| Fixtures.PathBfs | src/test/java/AllRequiredTests.java:68-75 | the breadth-first solver answers the test maze with a non-empty path from (1,1) to (3,3) |
| Fixtures.PathDfs | src/test/java/AllRequiredTests.java:59-66 | the depth-first solver with the corrected descent answers the test maze with a non-empty path from (1,1) to (3,3) |
| Fixtures.PathDfsAsWritten | src/test/java/AllRequiredTests.java:59-66 | `DFSSolver` as written returns a non-empty list on the test maze, running from the end (3,3) |
| Fixtures.BlockedMaze | src/test/java/AllRequiredTests.java:80 | the test maze with (1,2) replaced by WALL |
| Fixtures.LeftColumnClosed | src/test/java/AllRequiredTests.java:80-84 | in the blocked maze no passable cell leads out of the start's column, which does not hold the end (3,3) |
| Fixtures.NoPathBfs | src/test/java/AllRequiredTests.java:87-96 | the breadth-first solver answers the blocked maze with the empty list |
| Fixtures.NoPathDfs | src/test/java/AllRequiredTests.java:77-85 | the depth-first solver with the corrected descent answers the blocked maze with the empty list |
| Fixtures.NoPathDfsAsWritten | src/test/java/AllRequiredTests.java:77-85 | `DFSSolver` as written throws on the blocked maze where the test expects the empty list |
| Fixtures.FixtureCells | src/test/java/AllRequiredTests.java:102-106 | a BEDROCK, NORMAL and WALL cell render as the test spells them |
| Fixtures.RowOfFive | src/test/java/AllRequiredTests.java:102-106 | a five-column row without a path renders as its five cells in order and a line break |
| Fixtures.FiveLines | src/test/java/AllRequiredTests.java:102-106 | a five-row grid without a path renders as its five lines in order |
| Fixtures.FixtureDisplay | src/test/java/AllRequiredTests.java:98-112 | the rows of the test maze render to exactly the expected text |
| Fixtures.CorrectMazeDisplay | src/test/java/AllRequiredTests.java:98-112 | `render(maze)` of the test maze equals the expected text |

## Left out

- Console I/O is not modelled: `MainInterface`, its messages, `reader.readLine()` and the menu flow of `StartService.start`.
  - `getPointCoordinates` reads a finite list of typed lines instead of the console.
  - A missing line, which Java reads as "", is just one more line in that list.
- `SecureRandom` is replaced by `Rand.RandomSource`. The model relies only on `nextInt(bound)` returning a value in [0, bound).
  - The probability claims in the source (60/20/20 terrain weights, uniform odd sizes) are stated as counts over the possible draws, not as probabilities.
- The factories (`GeneratorFactory`, `SolverFactory`) and the `Generator`, `Solver` and `Renderer` interfaces are left out. They only select a class by name.
- `toString`, `equals` and `hashCode` of the records are left out. Records are Dafny datatypes, which have structural equality.
- `BFSSolver.init` orders its `PriorityQueue` by the weight of the cell's type.
  - The model takes a cell of least weight.
  - It leaves open which of several equally light cells comes first, because Java's heap order among ties is an implementation detail.
- `StartService.ParseInt` accepts only the ASCII digits '0'-'9'. `Integer.parseInt` also accepts other Unicode decimal digits.
- `StartService.SelectRandomSize` requires a non-empty odd range.
  - Java would throw on an empty range.
  - The only ranges the program passes are `Settings`' [5, 35], for which `StartService.SizeRangeNotEmpty` proves the range non-empty.
- `Backtracking.RecursiveBacktrackingGenerator.Generate` requires odd height and width of at least 3, because every size the program passes comes from `checkSize`, which returns odd sizes in [5, 35].
  - For even sizes the model has only `BaseGen.EvenWidthBorderHasDefault`, which shows the border is then broken.
- `Prim.PrimGenerator.Generate` requires odd height and width of at least 5, the `Settings` minimum.
  - With a single row of sites (height 3), the loop can end while sites remain uncarved, because the neighbours of the last cell carved are never collected.
  - With a single site the frontier list is empty and `random.nextInt(0)` throws `IllegalArgumentException`, before `cells.get` is reached.
- `Prim.PrimGenerator.Generate` does not prove that every site is carved. It proves that the carve is connected, with one opened wall fewer than carved sites, and that at most one carved site still faces an uncarved site.
- `Modifier.NonIdealMazeModifier.Modify` requires height and width within the grid's dimensions. Java would throw on larger values.
- `Bfs.BFSSolver.Solve`, `Dfs.DFSSolver.Solve`, `Dfs.DFSSolver.SolveAsWritten` and `Dfs.DFSSolver.Prepare` require a passable start and end, which `checkCoordinates` guarantees before a solver is called.
  - They also require `Solving.MazeShape`: height and width of at most 35, a BEDROCK border, and every entry carrying its own coordinate.
  - Every caller meets this: `checkSize` caps sizes at 35, and the generators keep the border and the coordinates.
  - `checkCoordinatesInBounds` and DFSSolver's `checkIndexes` (BaseSolver.java:164-166, DFSSolver.java:97-99) test against `Settings.MAX_HEIGHT` and `MAX_WIDTH`, not the maze's own size. Under the bound of 35 that never lets a lookup leave the grid, which is why the quirk is never visible.
- `DFSSolver` repeats `BaseSolver`'s `fill`, `selectMinCellCoordinate`, `checkCellDirection` and `checkIndexes`. The model uses the shared definitions of `Solving` instead of stating them twice.
- The Java `visited` list only ever receives `add` and `contains`, so it is a set in the model.

## Findings

| source | as written | input that shows it | evidently intended | confidence | as-written member | corrected member |
|---|---|---|---|---|---|---|
| src/main/java/backend/academy/solvers/DFSSolver.java:59-73 | When the end is a dead end, `list.remove(newPoint)` empties the list and `list.getLast()` throws `NoSuchElementException` | the 5x5 fixture with (1,2) walled in, start (1,1), end (3,3) (`AllRequiredTests.java:77-85`) | an empty list when no path exists, as `BaseSolver.searchPath` does with `checkIfPossibleToFindPath`, and as the test expects | not executed | Dfs.DFSSolver.SolveAsWritten, Fixtures.NoPathDfsAsWritten | Dfs.DFSSolver.Solve, Fixtures.NoPathDfs |
| src/main/java/backend/academy/solvers/DFSSolver.java:59-73 | A found path is returned as built, from the end to the start; it is never reversed | any start different from the end that the descent reaches, e.g. start (1,1), end (1,3) on the 5x5 fixture; the renderer then paints the end green and the start orange | the path from start to end, reversed as `BaseSolver.searchPath` does at line 75 | not executed | Dfs.SearchPathAsWritten | Dfs.DFSSolver.Solve |
