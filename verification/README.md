# Maze core in Dafny

This project models the core of a browser maze generator. The core is a
rectangular grid of cells joined by *links*, where a link is a missing wall.
Four generators carve a maze into the grid, and a breadth-first search finds
a path through it. The grid also offers per-cell snapshots for animation and
a serialize/deserialize pair.

The model is an arena:

- A cell is the index `row * cols + col` (module `Arena`).
- A grid is `Grid(rows, cols, cellSize, links)`. `links[i]` is the set of
  cells that cell `i` is linked to.
- Neighbours are computed from coordinates (`North`, `South`, `West`,
  `East`), the same way `configureCells` gives them out through `at`.

Every random choice is an explicit input:

- `pick: nat -> nat` stands for `randomFromArray`. It is reduced modulo the
  list length, and the choice is absent for an empty list
  (`Choice.RandomFrom`).
- `coin: nat -> bool` stands for `randomBool`.
- `shuffles: nat -> seq<nat>` stands for `shuffleArray`. It must give a
  permutation of the cells (`Choice.IsShuffle`).

Each generator is a pure function from the starting grid and the snapshot
list to a `Sampling.Run`. A run holds the final grid, the link counter `n`
and the snapshot list. A snapshot is appended whenever `n % SKIP == 0`, with
`SKIP = 10`, and once more at the end.

Modules:

| module | file | models |
|---|---|---|
| `Wrappers` | wrappers.dfy | `Option`, `Result` and the error cases |
| `Arena` | arena.dfy | grid shape, indices and coordinates, `at`, `prepareGrid`, `cells`, `size`, the four neighbours |
| `Cell` | cell.dfy | `equals`, `link`, `unlink`, `hasLink`, `hasAnyLink`, `neighbors`, `_toIndex`, `CellMap` |
| `Tally` | tally.dfy | counting links and linkless cells; the laws of linking that the generators share |
| `Choice` | choice.dfy | `randomFromArray`, `randomCell`, shuffles as permutations |
| `Snapshots` | snapshots.dfy | `createSnapshot` |
| `Sampling` | sampling.dfy | the `SKIP` rule and the final snapshot |
| `Serialization` | serialization.dfy | `serialize`, `deserialize` |
| `Walks` | walks.dfy | moves along links, trails and reachability, shared by `findPath` and the generators |
| `Visits` | visits.dfy | visited and unvisited neighbours; the tree argument (connected, one link fewer than linked cells) shared by Hunt-and-Kill and Recursive Backtracker |
| `BinaryTree`, `Sidewinder`, `HuntAndKill`, `RecursiveBacktracker` | binary_tree.dfy, sidewinder.dfy, hunt_and_kill.dfy, recursive_backtracker.dfy | the four `on` methods |
| `Pathfinding` | pathfinding.dfy | `findPath` |

Some terms used in the table below:

- *Symmetric*: `y in links[x]` exactly when `x in links[y]`.
- *Passages*: every link joins two adjacent cells.
- *WellLinked*: both of the above hold.
- *Keeps(g, h)*: `h` has every link of `g`.
- *Linkless*: the set of cells with no link.
- *DegreeSum*: the sum of the sizes of all link sets, which is twice the
  number of undirected links.
- *Untouched*: no cell has a link.
- *Reachable(g, a, b)*: a trail of moves leads from `a` to `b`, where a
  move goes from a cell to a neighbour it is linked to.
- *Spans*: every two cells of the grid are Reachable.

## Model

| member | source | states |
|---|---|---|
| Cell.Equals | src/cell.js:22-25 | false for an absent cell; otherwise true exactly when the other cell is the same cell, i.e. has the same row and column |
| Cell.Link | src/cell.js:29-34 | afterwards a sees b, b sees a when bidirectional, and no other link appears or disappears; the shape is unchanged |
| Cell.Unlink | src/cell.js:37-45 | afterwards a no longer sees b, nor b sees a when bidirectional, and every other link is kept |
| Cell.HasLink | src/cell.js:55-62 | false for an absent cell; otherwise true exactly when that cell is in the link set |
| Cell.HasAnyLink | src/cell.js:51-53 | true exactly when some cell of the grid is linked, i.e. when the link set is non-empty |
| Cell.Neighbors | src/cell.js:67-74 | at most four cells; a cell is listed exactly when it is an adjacent cell of the grid; listed in the order north, south, west, east |
| Cell.NeighborsAreDistinct | src/cell.js:67-74 | no neighbour is listed twice |
| Cell.KeyIdentifiesCell | src/cell.js:77-79 | two cells have the same map key exactly when they are equal |
| Cell.MapGet | src/cell.js:96-98 | a value is found exactly when the key is present |
| Cell.MapSet | src/cell.js:92-94 | the key now maps to the value, every other key reads as before, and the size grows by one unless the key was present |
| Cell.MapDelete | src/cell.js:100-102 | the key is absent afterwards, every other key reads as before, and the size drops by one if the key was present |
| Cell.LinkIsMutual | src/cell.js:29-34 | after a bidirectional link, each cell has a link to the other |
| Cell.LinkIdempotent | src/cell.js:30 | linking two already linked cells leaves the grid unchanged |
| Cell.UnlinkSeparates | src/cell.js:37-45 | after a bidirectional unlink neither cell is linked to the other, and every other pair reads as before |
| Cell.UnlinkUndoesLink | src/cell.js:29-45 | unlinking a fresh link restores the grid exactly |
| Cell.LinkKeepsSymmetry | src/cell.js:29-45 | bidirectional link and unlink both keep the link relation symmetric |
| Arena.NewGrid | src/grid.js:8-16 | a valid grid of the given shape and cell size in which no cell has a link |
| Arena.PrepareGrid | src/grid.js:19-25 | `rows` rows of `cols` entries each; the entry at (r, c) is the cell with that coordinate |
| Arena.Cells | src/grid.js:45-47 | the row-major flattening lists every cell once, in index order |
| Arena.CellsSize | src/grid.js:45-51 | the flattening has `rows * cols` entries, the grid's size |
| Arena.At | src/grid.js:54-60 | a cell exactly when 0 <= row < rows and 0 <= col < cols, and then the cell with that row and column |
| Arena.CoordOfIndex | src/grid.js:19-25 | every cell's row and column are in range, and the index is row * cols + col |
| Arena.IndexOfCoord | src/grid.js:19-25 | every in-range coordinate names a cell with that row and column |
| Arena.NeighboursAreAt | src/grid.js:30-38 | north, south, west and east are the lookups at (r-1, c), (r+1, c), (r, c-1) and (r, c+1) |
| Arena.NeighbourCoords | src/grid.js:30-38 | each neighbour is present exactly when the cell is not on that boundary, and it has the shifted coordinate |
| Arena.NeighbourSymmetry | src/grid.js:30-38 | a's north is b exactly when b's south is a; the same holds for west and east; adjacency is symmetric |
| Arena.AdjacentIsUnitStep | src/grid.js:30-38 | two cells are neighbours exactly when they differ by one in a single coordinate |
| Arena.ConnectedGrid | src/grid.js:30-38 | a property that holds at one cell and spreads to neighbours holds at every cell, so the neighbour graph is connected |
| Choice.RandomFrom | src/utils.js:11-12 | absent exactly for an empty list; otherwise an element of the list |
| Choice.EveryElementCanBeDrawn | src/utils.js:11-12 | every element of the list is the result of some draw |
| Choice.RandomCell | src/grid.js:63-65 | absent exactly for a grid with no cells; otherwise a cell of the grid |
| Choice.EveryCellCanBeDrawn | src/grid.js:63-65 | every cell is the result of some draw |
| Snapshots.CreateSnapshot | src/grid.js:72-81 | one entry per cell in row-major order, with the cell's row and column; north and west say that neighbour exists; east and south say the cell is linked to that neighbour, and are false on the boundary |
| Tally.FreshLinkAddsTwo | src/cell.js:29-34 | linking two distinct cells that were not linked to each other adds exactly two to DegreeSum |
| Tally.LinklessAfterLink | src/cell.js:29-34 | after a bidirectional link, the linkless cells are the old ones minus the two linked cells |
| Tally.LinkKeepsWellLinked | src/cell.js:29-34 | in a WellLinked grid, linking two adjacent cells keeps the links symmetric and between neighbours |
| Sampling.TickSnapshots | src/impl.js:16 | a counted step appends one snapshot of the new grid exactly when the counter is a multiple of SKIP, and keeps the earlier snapshots |
| Sampling.SampledCount | src/impl.js:16 | over counter values 0 .. k-1, exactly ceil(k / SKIP) snapshots are taken, so the first counted step always takes one |
| Sampling.FinishFinished | src/impl.js:48 | the final snapshot makes the list one longer than the sampled ones; the list keeps its old entries and ends with the snapshot of the finished grid |
| Serialization.Entry | src/grid.js:84-90 | a cell's entry has the cell's row and column, and lists exactly the coordinates of its linked cells |
| Serialization.Serialize | src/grid.js:83-98 | keeps rows, cols and cellSize; one entry per cell in row-major order; each entry lists exactly the coordinates of the cell's links |
| Serialization.Deserialize | src/grid.js:100-112 | fails exactly when an entry with links stands off the grid or lists a coordinate off the grid; otherwise it gives a grid of the recorded shape whose links are symmetric, with x linked to y exactly when one of them records the other |
| Serialization.RoundTrip | src/grid.js:83-112 | for a grid with symmetric links, deserializing its serialization succeeds and gives back the same grid |
| Serialization.RecordedMeansLinked | src/grid.js:83-98 | the serialization records y under x exactly when x is linked to y |
| Serialization.SerializeLoadable | src/grid.js:83-112 | every serialization of a valid grid can be deserialized |
| Visits.FilterKeepsRank | src/impl.js:107 | filtering a list of neighbours ordered north, south, west, east keeps that order |
| Visits.Unvisited | src/impl.js:107 | exactly the neighbours of the cell that have no link, each once, in the order north, south, west, east |
| Visits.Visited | src/impl.js:121 | exactly the neighbours of the cell that have some link, each once, in the order north, south, west, east |
| Visits.GrowConnected | src/impl.js:112 | linking an unlinked neighbour to a linked cell (or to any cell of an untouched grid) keeps every two linked cells Reachable from each other |
| Visits.JoinUnvisited | src/impl.js:112 | linking a visited cell (or any cell of an untouched grid) to an unlinked neighbour keeps the links symmetric and the linked cells a tree, i.e. connected and with one link fewer than linked cells, and leaves both cells visited |
| Visits.TreeSpans | src/impl.js:102-169 | a tree that touches every cell spans the grid: every two cells are Reachable, and there are cells - 1 links |
| BinaryTree.Candidates | src/impl.js:31-37 | exactly the north and east neighbours that exist; empty only when both are missing |
| BinaryTree.Choose | src/impl.js:39 | no choice only for the top-right cell; otherwise the north or the east neighbour |
| BinaryTree.ChoiceForced | src/impl.js:33-39 | in the top row the choice is east; in the last column it is north |
| BinaryTree.On | src/impl.js:28-50 | same shape; one counted link per cell except the top-right one, i.e. counter size - 1; the snapshots follow the SKIP rule and end with the final grid |
| BinaryTree.BinaryTreeLinks | src/impl.js:30-46 | from an untouched grid, x and y are linked exactly when one of them chose the other |
| BinaryTree.ClimbToCorner | src/impl.js:30-46 | when every choice is linked at both ends, each cell reaches the top-right cell and is reached from it |
| BinaryTree.BinaryTreeMaze | src/impl.js:30-46 | from an untouched grid, the result is a spanning tree: the links are symmetric and between neighbours, there are exactly size - 1 of them, and every two cells are Reachable |
| Sidewinder.Member | src/impl.js:78 | the drawn member is a cell of the current run |
| Sidewinder.ClosesWhere | src/impl.js:71-75 | a cell at the eastern boundary always closes; in the top row a cell closes exactly at the eastern boundary |
| Sidewinder.OpenStep | src/impl.js:83-85 | a cell that does not close is not at the eastern boundary, is linked to its east neighbour, and joins the run |
| Sidewinder.CloseStep | src/impl.js:77-82 | a close empties the run; the member lies in the same row; in the top row nothing is linked; below, exactly one link is added, from the member to its north neighbour |
| Sidewinder.On | src/impl.js:63-94 | same shape; the counter advances once per cell, not once per link; the snapshots follow the SKIP rule and end with the final grid |
| Sidewinder.Walk | src/impl.js:65-90 | links are only added; the top row becomes one corridor; every lower row gets a passage north; every cell of a closed run is Reachable from and to the row above; from mutual links with nothing linked ahead, exactly one new link per cell except the top-right one |
| Sidewinder.ReachOrigin | src/impl.js:65-90 | once every cell reaches the row above and the top row is a corridor, every cell reaches the top-left cell and is reached from it |
| Sidewinder.SidewinderMaze | src/impl.js:63-94 | no link is lost; WellLinked is kept; every top-row cell but the last is linked east; every other row has a passage north; on a non-empty grid every two cells are Reachable; from an untouched grid there are exactly size - 1 links, so the maze is a spanning tree |
| HuntAndKill.Hunt | src/impl.js:120-124 | finds nothing exactly when no cell of the order is unvisited with a visited neighbour; otherwise it finds the first such cell |
| HuntAndKill.StepJoinsUnvisited | src/impl.js:107-134 | a step that goes on links the current cell or a visited cell to a neighbour that had no link, which becomes current; a step that stops changes nothing and leaves the current cell with no unvisited neighbour |
| HuntAndKill.StepShrinks | src/impl.js:106-136 | every step that goes on reduces the number of linkless cells |
| HuntAndKill.On | src/impl.js:102-140 | same shape; no link is lost; WellLinked is kept; for a non-empty grid, no unvisited cell is left next to a visited one at the end; the snapshots follow the SKIP rule and end with the final grid |
| HuntAndKill.HuntAndKillMaze | src/impl.js:102-140 | from an untouched grid of two or more cells, the result is a WellLinked spanning tree: no cell is linkless, every two cells are Reachable, and there are size - 1 links |
| RecursiveBacktracker.StepPushesOrPops | src/impl.js:153-164 | the step pops exactly when the top has no unvisited neighbour, and then changes nothing else; otherwise it links the top to an unvisited neighbour and pushes it |
| RecursiveBacktracker.StepShrinks | src/impl.js:152-165 | every step links a new cell or shortens the stack |
| RecursiveBacktracker.Loop | src/impl.js:152-165 | the loop ends with an empty stack, loses no link, keeps WellLinked, and keeps the stack invariant |
| RecursiveBacktracker.On | src/impl.js:147-169 | fails exactly on a grid with no cells; otherwise same shape, no link lost, WellLinked kept, and the snapshots follow the SKIP rule and end with the final grid |
| RecursiveBacktracker.RecursiveBacktrackerMaze | src/impl.js:147-169 | from an untouched grid of two or more cells, the result is a WellLinked spanning tree: no cell is linkless, every two cells are Reachable, and there are size - 1 links |
| Pathfinding.FindPath | src/pathfinding.js:7-37 | the path starts at end, and each cell is reached from the next one by a move to a linked neighbour; it ends at start exactly when end can be reached from start by such moves; an unreachable end gives [end]; no linked walk between the two is shorter |
| Pathfinding.FindPathToItself | src/pathfinding.js:11-16 | the path from a cell to itself is that cell alone |
| Pathfinding.VisitsOnce | src/pathfinding.js:18-23 | the search starts from start, enqueues no cell twice, and a cell has a parent entry exactly when it was enqueued |
| Pathfinding.Explore | src/pathfinding.js:13-24 | from a sound search state: the first enqueued cell has no parent and every other one has an earlier parent it is linked from; levels never decrease along the queue; the loop stops with end dequeued or the queue empty, every cell before that point expanded |

## Left out

- `src/ui.js`, `src/index.js` and `src/worker.js` are not part of this model. They hold canvas drawing, DOM wiring, the animation loop and worker messaging.
- `Math.random`: `randomBool`, `randomInt`, `randomFromArray` and `shuffleArray` become the explicit inputs `coin`, `pick` and `shuffles`. The model covers every outcome, but not the probability distribution.
- The `key`, `display` and `info` labels of the generator classes are interface text. The `algorithms` registry is not defined in `src/impl.js` and is not modelled.
- Object identity: cells are indices, so two distinct cell objects with equal coordinates cannot arise. `equals`, `hasLink` and `unlink` compare coordinates, which here is index equality.
- `serialize` lists a cell's links in ascending index order. The source uses the link `Set`'s insertion order. Only the set of listed coordinates is stated.
- The map key `"row col"` of `_toIndex` is modelled as the pair `Key(row, col)`. Both keys are injective on coordinates.
- `cellSize` is carried through unchanged, and nothing reads it.
- `at` compares `col > this.grid[row].length`, so `col == cols` passes the guard. The read that follows yields `undefined`, so the net result is absent. The model states that net result.
- Pathfinding.FindPath: requires both cells to lie on the grid. The source would fail on an absent start, since it calls `_toIndex` on it.
- The generators mutate `states` and the grid in place. The model returns the new grid and snapshot list as a value.
- JavaScript numbers are modelled as unbounded integers. The grids the source builds are far below 2^53 cells.
- HuntAndKill.HuntAndKillMaze: the spanning-tree result is stated for an untouched grid of at least two cells. For other starting grids, only `HuntAndKill.On`'s weaker guarantees are stated.
- RecursiveBacktracker.RecursiveBacktrackerMaze: the spanning-tree result is stated for an untouched grid of at least two cells. For other starting grids, only `RecursiveBacktracker.On`'s weaker guarantees are stated.
- RecursiveBacktracker.On: on a grid with no cells the source pushes `undefined` and throws a TypeError. The model returns `Err(NoStartCell)` instead.
- Serialization.Deserialize: the source throws a TypeError when an entry with links names a cell off the grid, or when a link names one. The model returns `Err` in both cases and builds no partial grid.
